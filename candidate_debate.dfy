/** The debate loop of exercises/debate.py. It differs from debate.py in
    one step: each agent draws three completions of the same prompt, each
    with the next id of a cache-id counter shared by the whole debate
    (starting at 0), and keeps the last one; the other two are discarded.
    The judge's completion takes no cache id.

    `complete(k, prompt, id)` stands for agent `k`'s completion of
    `prompt` under cache id `id`; `render`, `judgePrompt` and `judge` are
    as in `Debate`. The reply recorded as the `n`-th entry is
    `(k, prompt, n) => Clean(complete(k, prompt, KeptId(n)))`: the third
    completion of the prompt, cleaned. */
module CandidateDebate {
  import Text
  import Debate
  import opened Transcripts

  /** The cache id of the completion kept for the `n`-th entry: entries
      before it drew `3 * n` ids, and it keeps the third of its own. */
  function KeptId(n: nat): nat
  {
    n + n + n + 2
  }

  /** The reply that ends up in the history as the `n`-th entry, the third
      completion of its prompt cleaned, is clean. */
  lemma KeptIsClean(complete: (nat, string, nat) -> string)
    ensures Debate.CleanReplies((k: nat, prompt: string, n: nat) => Clean(complete(k, prompt, KeptId(n))))
  {
    var reply := (k: nat, prompt: string, n: nat) => Clean(complete(k, prompt, KeptId(n)));
    forall k: nat, prompt: string, n: nat
      ensures Text.EdgesOutside(reply(k, prompt, n), QuotesAndSpaces)
    {
      assert reply(k, prompt, n) == Clean(complete(k, prompt, KeptId(n)));
    }
  }

  /** Lines 27-30: three completions of `prompt` under the cache ids
      `firstId`, `firstId + 1`, `firstId + 2`; the answer kept is the last. */
  method DrawCandidates(complete: (nat, string, nat) -> string, k: nat, prompt: string, firstId: nat)
    returns (candidates: seq<string>, answer: string, ids: seq<nat>)
    ensures ids == [firstId, firstId + 1, firstId + 2]
    ensures candidates == [complete(k, prompt, ids[0]), complete(k, prompt, ids[1]), complete(k, prompt, ids[2])]
    ensures answer == candidates[2]
  {
    candidates, answer, ids := [], "", [];
    for c := 0 to 3
      invariant |candidates| == c && |ids| == c
      invariant forall j :: 0 <= j < c ==> ids[j] == firstId + j && candidates[j] == complete(k, prompt, ids[j])
      invariant c > 0 ==> answer == candidates[c - 1]
    {
      var id := firstId + c;
      answer := complete(k, prompt, id);
      ids := ids + [id];
      candidates := candidates + [answer];
    }
  }

  /** One pass of the `for` loop over the two agents (lines 25-33): each
      agent draws its candidates under the next three cache ids and appends
      its cleaned last candidate. `made` counts the entries made before the
      round; the cache ids drawn so far are exactly `0 .. |cacheIds| - 1`. */
  method PlayRound(names: seq<Name>, render: (Name, seq<Turn>, int) -> string,
                   complete: (nat, string, nat) -> string,
                   history: seq<Turn>, turnsLeft: int, cacheIds: seq<nat>, ghost made: nat)
    returns (history': seq<Turn>, turnsLeft': int, cacheIds': seq<nat>)
    requires |names| == 2
    requires |cacheIds| + 2 == KeptId(made)
    requires forall i :: 0 <= i < |cacheIds| ==> cacheIds[i] == i
    ensures history' == Debate.Round(names, render, (k: nat, prompt: string, n: nat) => Clean(complete(k, prompt, KeptId(n))), history, turnsLeft, made, 2)
    ensures |history'| == |history| + 2 && turnsLeft' == turnsLeft - 2
    ensures |cacheIds'| + 2 == KeptId(made + 2)
    ensures forall i :: 0 <= i < |cacheIds'| ==> cacheIds'[i] == i
  {
    ghost var reply := (k: nat, prompt: string, n: nat) => Clean(complete(k, prompt, KeptId(n)));
    history', turnsLeft', cacheIds' := history, turnsLeft, cacheIds;
    for k := 0 to 2
      invariant history' == Debate.Round(names, render, reply, history, turnsLeft, made, k)
      invariant |history'| == |history| + k && turnsLeft' == turnsLeft - k
      invariant |cacheIds'| + 2 == KeptId(made + k)
      invariant forall i :: 0 <= i < |cacheIds'| ==> cacheIds'[i] == i
    {
      var name := names[k];
      var prompt := render(name, history', turnsLeft');
      var candidates, answer, ids := DrawCandidates(complete, k, prompt, |cacheIds'|);
      cacheIds' := cacheIds' + ids;
      assert Turn(name, Clean(answer)) == Debate.NextTurn(names, render, reply, history', turnsLeft', made + k, k);
      history' := history' + [Turn(name, Clean(answer))];
      turnsLeft' := turnsLeft' - 1;
    }
  }

  /** `debate(...)` of exercises/debate.py: returns the final history and
      counter, every cache id drawn (in order: `itertools.count()` starts
      at 0), and the result `judgment_prompt + victor`. */
  method RunCandidateDebate(names: seq<Name>, render: (Name, seq<Turn>, int) -> string,
                            complete: (nat, string, nat) -> string,
                            judgePrompt: seq<Turn> -> string, judge: string -> string,
                            initial: seq<Turn>, numberOfTurns: int)
    returns (history: seq<Turn>, turnsLeft: int, cacheIds: seq<nat>, result: string)
    requires |names| == 2
    ensures history == Debate.Rounds(names, render, (k: nat, prompt: string, n: nat) => Clean(complete(k, prompt, KeptId(n))), initial, numberOfTurns, 0)
    ensures turnsLeft <= 0 && turnsLeft == numberOfTurns - (|history| - |initial|)
    ensures |cacheIds| == 3 * (|history| - |initial|)
    ensures forall i :: 0 <= i < |cacheIds| ==> cacheIds[i] == i
    ensures result == judgePrompt(history) + judge(judgePrompt(history))
  {
    ghost var reply := (k: nat, prompt: string, n: nat) => Clean(complete(k, prompt, KeptId(n)));
    ghost var target := Debate.Rounds(names, render, reply, initial, numberOfTurns, 0);
    history, turnsLeft, cacheIds := initial, numberOfTurns, [];
    ghost var entries: nat := 0;
    while turnsLeft > 0
      invariant entries == |history| - |initial|
      invariant turnsLeft == numberOfTurns - entries
      invariant |cacheIds| + 2 == KeptId(entries)
      invariant forall i :: 0 <= i < |cacheIds| ==> cacheIds[i] == i
      invariant Debate.Rounds(names, render, reply, history, turnsLeft, entries) == target
      decreases turnsLeft
    {
      var next, left, ids := PlayRound(names, render, complete, history, turnsLeft, cacheIds, entries);
      Debate.RoundsStep(names, render, reply, history, turnsLeft, entries, next);
      history, turnsLeft, cacheIds := next, left, ids;
      entries := entries + 2;
    }
    var judgment := judgePrompt(history);
    var victor := judge(judgment);
    result := judgment + victor;
  }

  /** The history depends on the replies alone: two reply functions that
      agree everywhere produce the same debate. */
  lemma {:induction false} RoundsFollowReplies(names: seq<Name>, render: (Name, seq<Turn>, int) -> string,
                                               reply1: (nat, string, nat) -> string,
                                               reply2: (nat, string, nat) -> string,
                                               history: seq<Turn>, turnsLeft: int, made: nat)
    requires |names| == 2
    requires forall k: nat, prompt: string, n: nat :: reply1(k, prompt, n) == reply2(k, prompt, n)
    ensures Debate.Rounds(names, render, reply1, history, turnsLeft, made)
         == Debate.Rounds(names, render, reply2, history, turnsLeft, made)
    decreases if turnsLeft > 0 then turnsLeft else 0
  {
    if turnsLeft > 0 {
      assert Debate.Round(names, render, reply1, history, turnsLeft, made, 0) == history
          == Debate.Round(names, render, reply2, history, turnsLeft, made, 0);
      var h := Debate.Round(names, render, reply1, history, turnsLeft, made, 1);
      var p0 := render(names[0], history, turnsLeft);
      assert reply1(0, p0, made) == reply2(0, p0, made);
      assert Debate.NextTurn(names, render, reply1, history, turnsLeft, made, 0)
          == Debate.NextTurn(names, render, reply2, history, turnsLeft, made, 0);
      assert h == Debate.Round(names, render, reply2, history, turnsLeft, made, 1);
      var g := Debate.Round(names, render, reply1, history, turnsLeft, made, 2);
      var p1 := render(names[1], h, turnsLeft - 1);
      assert reply1(1, p1, made + 1) == reply2(1, p1, made + 1);
      assert Debate.NextTurn(names, render, reply1, h, turnsLeft - 1, made + 1, 1)
          == Debate.NextTurn(names, render, reply2, h, turnsLeft - 1, made + 1, 1);
      assert g == Debate.Round(names, render, reply2, history, turnsLeft, made, 2);
      RoundsFollowReplies(names, render, reply1, reply2, g, turnsLeft - 2, made + 2);
    }
  }

  /** The first two completions of every turn are discarded: completion
      functions that agree on the ids `KeptId(n)` produce the same debate,
      whatever they return under the other ids. */
  lemma DiscardedCandidatesDoNotMatter(names: seq<Name>, render: (Name, seq<Turn>, int) -> string,
                                       complete1: (nat, string, nat) -> string,
                                       complete2: (nat, string, nat) -> string,
                                       initial: seq<Turn>, numberOfTurns: int)
    requires |names| == 2
    requires forall k: nat, prompt: string, id: nat :: id % 3 == 2 ==> complete1(k, prompt, id) == complete2(k, prompt, id)
    ensures Debate.Rounds(names, render, (k: nat, prompt: string, n: nat) => Clean(complete1(k, prompt, KeptId(n))), initial, numberOfTurns, 0)
         == Debate.Rounds(names, render, (k: nat, prompt: string, n: nat) => Clean(complete2(k, prompt, KeptId(n))), initial, numberOfTurns, 0)
  {
    var reply1 := (k: nat, prompt: string, n: nat) => Clean(complete1(k, prompt, KeptId(n)));
    var reply2 := (k: nat, prompt: string, n: nat) => Clean(complete2(k, prompt, KeptId(n)));
    forall k: nat, prompt: string, n: nat
      ensures reply1(k, prompt, n) == reply2(k, prompt, n)
    {
      var id := KeptId(n);
      assert id % 3 == 2;
      assert complete1(k, prompt, id) == complete2(k, prompt, id);
    }
    RoundsFollowReplies(names, render, reply1, reply2, initial, numberOfTurns, 0);
  }

  /** The debate of exercises/debate.py has the shape of debate.py's: the
      initial history is kept, `EntryCount(numberOfTurns)` entries follow,
      the agents alternate starting with the first, and every appended
      utterance is a kept candidate with no quote or space at either end. */
  lemma CandidateDebateOutcome(names: seq<Name>, render: (Name, seq<Turn>, int) -> string,
                               complete: (nat, string, nat) -> string,
                               initial: seq<Turn>, numberOfTurns: int)
    requires |names| == 2
    ensures var r := Debate.Rounds(names, render, (k: nat, prompt: string, n: nat) => Clean(complete(k, prompt, KeptId(n))), initial, numberOfTurns, 0);
      && |r| == |initial| + EntryCount(numberOfTurns)
      && r[..|initial|] == initial
      && (forall i :: |initial| <= i < |r| ==>
            r[i].speaker == names[(i - |initial|) % 2]
            && Text.EdgesOutside(r[i].utterance, QuotesAndSpaces))
      && (numberOfTurns > 0 ==> -1 <= numberOfTurns - (|r| - |initial|) <= 0)
  {
    var reply := (k: nat, prompt: string, n: nat) => Clean(complete(k, prompt, KeptId(n)));
    KeptIsClean(complete);
    Debate.RoundsExtends(names, render, reply, initial, numberOfTurns, 0);
    Debate.RoundsAlternate(names, render, reply, initial, numberOfTurns, 0);
    Debate.RoundsClean(names, render, reply, initial, numberOfTurns, 0);
    if numberOfTurns > 0 {
      EntryCountOvershoot(numberOfTurns);
    }
  }
}
