/** The debate loop of debate.py: while turns remain, each of the two
    agents in turn answers a rendered prompt; the answer, stripped of
    quotes and spaces, is appended to the history under the agent's name,
    and the turn counter drops by one per entry. The counter is tested
    only before each round of two, so an odd count overshoots to -1. A
    judge then answers a prompt rendering the whole debate.

    External collaborators are parameters: `render` stands for
    `render_debate_prompt(name, history, turns_left)`, `answer(k, prompt)`
    for agent `k`'s answer, `judgePrompt` for `judge_debate_prompt`, and
    `judge` for the judging agent's answer. The loop itself is stated once
    for both debate scripts, over `reply(k, prompt, n)`: the utterance
    agent `k` records for `prompt` when it makes the `n`-th entry of the
    debate (counting from 0). In debate.py that reply is
    `(k, prompt, n) => Clean(answer(k, prompt))`. */
module Debate {
  import Text
  import opened Transcripts

  /** The entry agent `k` adds as the `n`-th entry when `turnsLeft`
      remain: its name and its reply to the prompt rendered from the
      history so far. */
  function NextTurn(names: seq<Name>, render: (Name, seq<Turn>, int) -> string,
                    reply: (nat, string, nat) -> string,
                    history: seq<Turn>, turnsLeft: int, n: nat, k: nat): Turn
    requires |names| == 2 && k < 2
  {
    Turn(names[k], reply(k, render(names[k], history, turnsLeft), n))
  }

  /** Replies that never start or end with a quote or a space. */
  ghost predicate CleanReplies(reply: (nat, string, nat) -> string)
  {
    forall k: nat, prompt: string, n: nat :: Text.EdgesOutside(reply(k, prompt, n), QuotesAndSpaces)
  }

  /** The replies of debate.py, agent `k`'s answer stripped of quotes and
      spaces, are clean. */
  lemma CleanedIsClean(answer: (nat, string) -> string)
    ensures CleanReplies((k: nat, prompt: string, n: nat) => Clean(answer(k, prompt)))
  {
    var reply := (k: nat, prompt: string, n: nat) => Clean(answer(k, prompt));
    forall k: nat, prompt: string, n: nat
      ensures Text.EdgesOutside(reply(k, prompt, n), QuotesAndSpaces)
    {
      assert reply(k, prompt, n) == Clean(answer(k, prompt));
    }
  }

  /** The history after the first `k` agents of a round have spoken; the
      round starts from `history` with `turnsLeft` remaining and `made`
      entries made so far. */
  function Round(names: seq<Name>, render: (Name, seq<Turn>, int) -> string,
                 reply: (nat, string, nat) -> string,
                 history: seq<Turn>, turnsLeft: int, made: nat, k: nat): seq<Turn>
    requires |names| == 2 && k <= 2
  {
    if k == 0 then history
    else
      var h := Round(names, render, reply, history, turnsLeft, made, k - 1);
      h + [NextTurn(names, render, reply, h, turnsLeft - (k - 1), made + (k - 1), k - 1)]
  }

  /** The history the `while` loop leaves when it is entered with
      `history`, `turnsLeft` and `made` entries made so far. */
  function Rounds(names: seq<Name>, render: (Name, seq<Turn>, int) -> string,
                  reply: (nat, string, nat) -> string,
                  history: seq<Turn>, turnsLeft: int, made: nat): seq<Turn>
    requires |names| == 2
    decreases if turnsLeft > 0 then turnsLeft else 0
  {
    if turnsLeft <= 0 then history
    else Rounds(names, render, reply, Round(names, render, reply, history, turnsLeft, made, 2),
                turnsLeft - 2, made + 2)
  }

  /** One iteration of the outer loop. */
  lemma RoundsStep(names: seq<Name>, render: (Name, seq<Turn>, int) -> string,
                   reply: (nat, string, nat) -> string,
                   history: seq<Turn>, turnsLeft: int, made: nat, next: seq<Turn>)
    requires |names| == 2 && turnsLeft > 0
    requires next == Round(names, render, reply, history, turnsLeft, made, 2)
    ensures Rounds(names, render, reply, next, turnsLeft - 2, made + 2)
         == Rounds(names, render, reply, history, turnsLeft, made)
  {
  }

  /** A partial round appends one entry per agent that has spoken: agent
      `j` speaks `j`-th; with clean replies every utterance is clean. */
  lemma {:induction false} RoundShape(names: seq<Name>, render: (Name, seq<Turn>, int) -> string,
                                      reply: (nat, string, nat) -> string,
                                      history: seq<Turn>, turnsLeft: int, made: nat, k: nat)
    requires |names| == 2 && k <= 2
    ensures var r := Round(names, render, reply, history, turnsLeft, made, k);
      && |r| == |history| + k
      && r[..|history|] == history
      && (forall i :: |history| <= i < |r| ==> r[i].speaker == names[i - |history|])
      && (CleanReplies(reply) ==>
            forall i :: |history| <= i < |r| ==> Text.EdgesOutside(r[i].utterance, QuotesAndSpaces))
    decreases k
  {
    if k > 0 {
      RoundShape(names, render, reply, history, turnsLeft, made, k - 1);
      var h := Round(names, render, reply, history, turnsLeft, made, k - 1);
      var r := Round(names, render, reply, history, turnsLeft, made, k);
      assert r == h + [NextTurn(names, render, reply, h, turnsLeft - (k - 1), made + (k - 1), k - 1)];
      assert r[..|history|] == h[..|history|];
      forall i | |history| <= i < |r|
        ensures r[i].speaker == names[i - |history|]
        ensures CleanReplies(reply) ==> Text.EdgesOutside(r[i].utterance, QuotesAndSpaces)
      {
        if i < |h| {
          assert r[i] == h[i];
        }
      }
    }
  }

  /** The history is append-only and the number of appended entries is
      fixed by the counter: none for a non-positive count, otherwise
      whole rounds of two. */
  lemma {:induction false} RoundsExtends(names: seq<Name>, render: (Name, seq<Turn>, int) -> string,
                                         reply: (nat, string, nat) -> string,
                                         history: seq<Turn>, turnsLeft: int, made: nat)
    requires |names| == 2
    ensures var r := Rounds(names, render, reply, history, turnsLeft, made);
      |r| == |history| + EntryCount(turnsLeft) && r[..|history|] == history
    decreases if turnsLeft > 0 then turnsLeft else 0
  {
    if turnsLeft > 0 {
      var h := Round(names, render, reply, history, turnsLeft, made, 2);
      RoundShape(names, render, reply, history, turnsLeft, made, 2);
      RoundsExtends(names, render, reply, h, turnsLeft - 2, made + 2);
      var r := Rounds(names, render, reply, h, turnsLeft - 2, made + 2);
      assert r[..|history|] == r[..|h|][..|history|];
      assert EntryCount(turnsLeft) == 2 + EntryCount(turnsLeft - 2);
    }
  }

  /** Speakers alternate `names[0]`, `names[1]`, starting with `names[0]`. */
  lemma {:induction false} RoundsAlternate(names: seq<Name>, render: (Name, seq<Turn>, int) -> string,
                                           reply: (nat, string, nat) -> string,
                                           history: seq<Turn>, turnsLeft: int, made: nat)
    requires |names| == 2
    ensures var r := Rounds(names, render, reply, history, turnsLeft, made);
      forall i :: |history| <= i < |r| ==> r[i].speaker == names[(i - |history|) % 2]
    decreases if turnsLeft > 0 then turnsLeft else 0
  {
    if turnsLeft > 0 {
      var h := Round(names, render, reply, history, turnsLeft, made, 2);
      RoundShape(names, render, reply, history, turnsLeft, made, 2);
      RoundsAlternate(names, render, reply, h, turnsLeft - 2, made + 2);
      RoundsExtends(names, render, reply, h, turnsLeft - 2, made + 2);
      var r := Rounds(names, render, reply, h, turnsLeft - 2, made + 2);
      forall i | |history| <= i < |r|
        ensures r[i].speaker == names[(i - |history|) % 2]
      {
        if i < |h| {
          assert r[i] == r[..|h|][i] == h[i];
          assert h[i].speaker == names[i - |history|];
        } else {
          assert r[i].speaker == names[(i - |h|) % 2];
          assert (i - |h|) % 2 == (i - |history|) % 2 by {
            assert i - |h| + 2 == i - |history|;
          }
        }
      }
    }
  }

  /** With clean replies, every appended utterance is clean. */
  lemma {:induction false} RoundsClean(names: seq<Name>, render: (Name, seq<Turn>, int) -> string,
                                       reply: (nat, string, nat) -> string,
                                       history: seq<Turn>, turnsLeft: int, made: nat)
    requires |names| == 2 && CleanReplies(reply)
    ensures var r := Rounds(names, render, reply, history, turnsLeft, made);
      forall i :: |history| <= i < |r| ==> Text.EdgesOutside(r[i].utterance, QuotesAndSpaces)
    decreases if turnsLeft > 0 then turnsLeft else 0
  {
    if turnsLeft > 0 {
      var h := Round(names, render, reply, history, turnsLeft, made, 2);
      RoundShape(names, render, reply, history, turnsLeft, made, 2);
      RoundsClean(names, render, reply, h, turnsLeft - 2, made + 2);
      RoundsExtends(names, render, reply, h, turnsLeft - 2, made + 2);
      var r := Rounds(names, render, reply, h, turnsLeft - 2, made + 2);
      forall i | |history| <= i < |h|
        ensures Text.EdgesOutside(r[i].utterance, QuotesAndSpaces)
      {
        assert r[i] == r[..|h|][i] == h[i];
      }
    }
  }

  /** `debate(...)`: the turn loop, then the judgment. Returns the final
      history and counter, the number of agent calls, and the result
      `judgment_prompt + victor`. */
  method RunDebate(names: seq<Name>, render: (Name, seq<Turn>, int) -> string,
                   answer: (nat, string) -> string,
                   judgePrompt: seq<Turn> -> string, judge: string -> string,
                   initial: seq<Turn>, numberOfTurns: int)
    returns (history: seq<Turn>, turnsLeft: int, calls: nat, result: string)
    requires |names| == 2
    ensures history == Rounds(names, render, (k: nat, prompt: string, n: nat) => Clean(answer(k, prompt)), initial, numberOfTurns, 0)
    ensures turnsLeft <= 0 && turnsLeft == numberOfTurns - (|history| - |initial|)
    ensures calls == |history| - |initial| + 1
    ensures result == judgePrompt(history) + judge(judgePrompt(history))
  {
    ghost var reply := (k: nat, prompt: string, n: nat) => Clean(answer(k, prompt));
    ghost var target := Rounds(names, render, reply, initial, numberOfTurns, 0);
    history, turnsLeft, calls := initial, numberOfTurns, 0;
    while turnsLeft > 0
      invariant |history| >= |initial|
      invariant turnsLeft == numberOfTurns - (|history| - |initial|)
      invariant calls == |history| - |initial|
      invariant Rounds(names, render, reply, history, turnsLeft, calls) == target
      decreases turnsLeft
    {
      ghost var start, roundStart, made := history, turnsLeft, calls;
      for k := 0 to 2
        invariant history == Round(names, render, reply, start, roundStart, made, k)
        invariant |history| == |start| + k
        invariant turnsLeft == roundStart - k
        invariant calls == made + k
      {
        var name := names[k];
        var prompt := render(name, history, turnsLeft);
        var utterance := answer(k, prompt);
        calls := calls + 1;
        assert Turn(name, Clean(utterance)) == NextTurn(names, render, reply, history, turnsLeft, made + k, k);
        history := history + [Turn(name, Clean(utterance))];
        turnsLeft := turnsLeft - 1;
      }
      assert Rounds(names, render, reply, start, roundStart, made) == Rounds(names, render, reply, history, turnsLeft, calls);
    }
    var judgment := judgePrompt(history);
    var victor := judge(judgment);
    calls := calls + 1;
    result := judgment + victor;
  }

  /** What `RunDebate` promises about its history: the initial history is
      kept, `EntryCount(numberOfTurns)` entries are appended, speakers
      alternate starting with `names[0]`, every utterance is clean, and
      the counter ends at 0 or -1. */
  lemma DebateOutcome(names: seq<Name>, render: (Name, seq<Turn>, int) -> string,
                      answer: (nat, string) -> string, initial: seq<Turn>, numberOfTurns: int)
    requires |names| == 2
    ensures var r := Rounds(names, render, (k: nat, prompt: string, n: nat) => Clean(answer(k, prompt)), initial, numberOfTurns, 0);
      && |r| == |initial| + EntryCount(numberOfTurns)
      && r[..|initial|] == initial
      && (forall i :: |initial| <= i < |r| ==>
            r[i].speaker == names[(i - |initial|) % 2]
            && Text.EdgesOutside(r[i].utterance, QuotesAndSpaces))
      && (numberOfTurns > 0 ==> -1 <= numberOfTurns - (|r| - |initial|) <= 0)
  {
    var reply := (k: nat, prompt: string, n: nat) => Clean(answer(k, prompt));
    CleanedIsClean(answer);
    RoundsExtends(names, render, reply, initial, numberOfTurns, 0);
    RoundsAlternate(names, render, reply, initial, numberOfTurns, 0);
    RoundsClean(names, render, reply, initial, numberOfTurns, 0);
    if numberOfTurns > 0 {
      EntryCountOvershoot(numberOfTurns);
    }
  }

  /** Two turns between Alice and Bob: Alice speaks, then Bob, and nothing
      else is appended. */
  lemma TwoTurnDebate(render: (Name, seq<Turn>, int) -> string, reply: (nat, string, nat) -> string,
                      initial: seq<Turn>)
    ensures var r := Rounds(["Alice", "Bob"], render, reply, initial, 2, 0);
      |r| == |initial| + 2 && r[|initial|].speaker == "Alice" && r[|initial| + 1].speaker == "Bob"
  {
    RoundsExtends(["Alice", "Bob"], render, reply, initial, 2, 0);
    RoundsAlternate(["Alice", "Bob"], render, reply, initial, 2, 0);
  }
}
