/** The comparison-based ranker of exercises/paper_qa_rankcompare.py: a
    one-token oracle verdict parsed into -1/0/1, a stable two-way
    partition against a pivot, and a quicksort-shaped recursion that
    removes the pivot by value.

    The oracle is the parameter `complete`: given paragraphs `a` and `b`
    (the question is fixed by the caller), it returns the raw completion
    text for the prompt "which of A and B is more relevant". It is a
    function, so the same pair always gets the same verdict. */
module PairwiseRank {
  import Text
  import Mapping
  import Outcomes

  /** Parses a completion: 1 for "A" (the first paragraph is more
      relevant), -1 for "B", 0 for anything else; surrounding whitespace
      is ignored. */
  function ParseChoice(completion: string): (r: int)
    ensures -1 <= r <= 1
    ensures r == 1 <==> Text.Strip(completion, Text.Whitespace) == "A"
    ensures r == -1 <==> Text.Strip(completion, Text.Whitespace) == "B"
  {
    var choice := Text.Strip(completion, Text.Whitespace);
    if choice == "A" then 1
    else if choice == "B" then -1
    else 0
  }

  /** Whitespace around a letter does not change the verdict, and only the
      bare letters count: "Paragraph A" is not recognised. */
  lemma ParseChoicePadded(u: string, v: string)
    requires Text.AllIn(u, Text.Whitespace) && Text.AllIn(v, Text.Whitespace)
    ensures ParseChoice(u + "A" + v) == 1
    ensures ParseChoice(u + "B" + v) == -1
    ensures ParseChoice(u + "Paragraph A" + v) == 0
  {
    Text.StripPadded(u, "A", v, Text.Whitespace);
    Text.StripPadded(u, "B", v, Text.Whitespace);
    Text.StripPadded(u, "Paragraph A", v, Text.Whitespace);
  }

  /** `compare_paragraph_relevance(a, b)`: 1 when the oracle answers
      that `a` is more relevant ("A"), -1 when it answers `b` ("B"), and 0
      for any other answer. */
  function Compare<P>(complete: (P, P) -> string, a: P, b: P): (r: int)
    ensures -1 <= r <= 1
    ensures r == 1 <==> Text.Strip(complete(a, b), Text.Whitespace) == "A"
    ensures r == -1 <==> Text.Strip(complete(a, b), Text.Whitespace) == "B"
  {
    ParseChoice(complete(a, b))
  }

  /** `a` is judged more relevant than `b`. */
  predicate Beats<P>(cmp: (P, P) -> int, a: P, b: P)
  {
    cmp(a, b) == 1
  }

  /** The items of `s` the comparator rates above `pivot`, in input order:
      the left list of `partition_array`. */
  function Above<P(!new)>(cmp: (P, P) -> int, s: seq<P>, pivot: P): (r: seq<P>)
    ensures |r| <= |s|
    ensures forall x :: x in r <==> x in s && Beats(cmp, x, pivot)
  {
    if s == [] then []
    else if Beats(cmp, s[|s| - 1], pivot) then Above(cmp, s[..|s| - 1], pivot) + [s[|s| - 1]]
    else Above(cmp, s[..|s| - 1], pivot)
  }

  /** The other items of `s` (rated below the pivot, or with an
      unrecognised verdict), in input order: the right list. */
  function NotAbove<P(!new)>(cmp: (P, P) -> int, s: seq<P>, pivot: P): (r: seq<P>)
    ensures |r| == |s| - |Above(cmp, s, pivot)|
    ensures forall x :: x in r <==> x in s && !Beats(cmp, x, pivot)
  {
    if s == [] then []
    else if Beats(cmp, s[|s| - 1], pivot) then NotAbove(cmp, s[..|s| - 1], pivot)
    else NotAbove(cmp, s[..|s| - 1], pivot) + [s[|s| - 1]]
  }

  /** The pair `partition_array` returns. */
  function Partition<P(!new)>(cmp: (P, P) -> int, s: seq<P>, pivot: P): (parts: (seq<P>, seq<P>))
    ensures |parts.0| + |parts.1| == |s|
  {
    (Above(cmp, s, pivot), NotAbove(cmp, s, pivot))
  }

  /** Together the two sides hold every item of `s` exactly as often as
      `s` does. */
  lemma {:induction false} PartitionPermutes<P(!new)>(cmp: (P, P) -> int, s: seq<P>, pivot: P)
    ensures multiset(Above(cmp, s, pivot)) + multiset(NotAbove(cmp, s, pivot)) == multiset(s)
  {
    if s != [] {
      var init := s[..|s| - 1];
      assert s == init + [s[|s| - 1]];
      PartitionPermutes(cmp, init, pivot);
    }
  }

  lemma ConcatLast<P>(a: seq<P>, b: seq<P>)
    requires b != []
    ensures (a + b)[..|a + b| - 1] == a + b[..|b| - 1]
    ensures (a + b)[|a + b| - 1] == b[|b| - 1]
  {
  }

  /** The partition keeps relative order: partitioning a concatenation is
      concatenating the partitions, side by side. */
  lemma {:induction false} AboveConcat<P(!new)>(cmp: (P, P) -> int, a: seq<P>, b: seq<P>, pivot: P)
    ensures Above(cmp, a + b, pivot) == Above(cmp, a, pivot) + Above(cmp, b, pivot)
  {
    if b == [] {
      assert a + b == a;
    } else {
      ConcatLast(a, b);
      AboveConcat(cmp, a, b[..|b| - 1], pivot);
    }
  }

  lemma {:induction false} NotAboveConcat<P(!new)>(cmp: (P, P) -> int, a: seq<P>, b: seq<P>, pivot: P)
    ensures NotAbove(cmp, a + b, pivot) == NotAbove(cmp, a, pivot) + NotAbove(cmp, b, pivot)
  {
    if b == [] {
      assert a + b == a;
    } else {
      ConcatLast(a, b);
      NotAboveConcat(cmp, a, b[..|b| - 1], pivot);
    }
  }

  /** Partitioning one more item of `s` appends it to exactly one side. */
  lemma PartitionStep<P(!new)>(cmp: (P, P) -> int, s: seq<P>, i: nat, pivot: P)
    requires i < |s|
    ensures Above(cmp, s[..i + 1], pivot)
         == Above(cmp, s[..i], pivot) + (if Beats(cmp, s[i], pivot) then [s[i]] else [])
    ensures NotAbove(cmp, s[..i + 1], pivot)
         == NotAbove(cmp, s[..i], pivot) + (if Beats(cmp, s[i], pivot) then [] else [s[i]])
  {
    assert s[..i + 1][..i] == s[..i];
  }

  /** `partition_array`: all comparisons against the pivot are fanned out
      first, then a loop appends each item to the left or the right list
      by its verdict. */
  method PartitionArray<P(!new)>(cmp: (P, P) -> int, items: seq<P>, pivot: P)
    returns (left: seq<P>, right: seq<P>)
    ensures (left, right) == Partition(cmp, items, pivot)
  {
    var leftOrRight := Mapping.MapInOrder(p => cmp(p, pivot), items);
    left, right := [], [];
    for i := 0 to |items|
      invariant left == Above(cmp, items[..i], pivot)
      invariant right == NotAbove(cmp, items[..i], pivot)
    {
      PartitionStep(cmp, items, i, pivot);
      if leftOrRight[i] == 1 {
        left := left + [items[i]];
      } else {
        right := right + [items[i]];
      }
    }
    assert items[..|items|] == items;
  }

  /** `[p for p in s if p != x]`: `s` with every copy of `x` removed. */
  function Without<P(==,!new)>(s: seq<P>, x: P): (r: seq<P>)
    ensures forall y :: y in r <==> y in s && y != x
    ensures multiset(r) == multiset(s)[x := 0]
    ensures |r| <= |s|
    ensures x in s ==> |r| < |s|
  {
    if s == [] then []
    else
      var rest := Without(s[1..], x);
      assert s == [s[0]] + s[1..];
      assert multiset(s) == multiset{s[0]} + multiset(s[1..]);
      if s[0] != x then [s[0]] + rest else rest
  }

  /** No value occurs twice. */
  predicate NoDuplicates<P(==)>(s: seq<P>)
  {
    forall i, j :: 0 <= i < j < |s| ==> s[i] != s[j]
  }

  /** The items ranked on the pivot's left: those rated above it. */
  function LeftOf<P(==,!new)>(cmp: (P, P) -> int, s: seq<P>): seq<P>
    requires |s| > 0
  {
    Above(cmp, Without(s, s[|s| / 2]), s[|s| / 2])
  }

  /** The items ranked on the pivot's right: all others but the pivot's
      copies. */
  function RightOf<P(==,!new)>(cmp: (P, P) -> int, s: seq<P>): seq<P>
    requires |s| > 0
  {
    NotAbove(cmp, Without(s, s[|s| / 2]), s[|s| / 2])
  }

  /** `rank_relevant_paragraphs`: pick the middle element as pivot, drop
      every element equal to it, partition the rest against it, rank both
      sides (when non-empty) and return left, pivot, right. Each recursive
      call gets a strictly shorter list, since at least the pivot is
      removed. The result holds exactly the values of the input, and is
      no longer than the input. */
  function Rank<P(==,!new)>(cmp: (P, P) -> int, s: seq<P>): (r: seq<P>)
    requires |s| > 0
    ensures forall x :: x in r <==> x in s
    ensures |r| <= |s|
    decreases |s|
  {
    var left, right := LeftOf(cmp, s), RightOf(cmp, s);
    (if |left| > 0 then Rank(cmp, left) else []) + [s[|s| / 2]] +
    (if |right| > 0 then Rank(cmp, right) else [])
  }

  /** `rank_relevant_paragraphs` on any list, the empty one included: the
      pivot lookup `paragraphs[len(paragraphs) // 2]` raises `IndexError`
      on an empty list; otherwise the ranking is non-empty, holds exactly
      the input's values and is no longer than the input. */
  function RankChecked<P(==,!new)>(cmp: (P, P) -> int, s: seq<P>): (r: Outcomes.Result<seq<P>>)
    ensures r.Err? <==> s == []
    ensures r.Err? ==> r.error == Outcomes.IndexError
    ensures r.Ok? ==> 0 < |r.value| <= |s| && forall x :: x in r.value <==> x in s
  {
    if s == [] then Outcomes.Err(Outcomes.IndexError)
    else
      assert s[0] in Rank(cmp, s);
      Outcomes.Ok(Rank(cmp, s))
  }

  /** The ranked left side (empty when nothing beat the pivot). */
  function RankedLeft<P(==,!new)>(cmp: (P, P) -> int, s: seq<P>): seq<P>
    requires |s| > 0
  {
    if |LeftOf(cmp, s)| > 0 then Rank(cmp, LeftOf(cmp, s)) else []
  }

  /** The ranked right side. */
  function RankedRight<P(==,!new)>(cmp: (P, P) -> int, s: seq<P>): seq<P>
    requires |s| > 0
  {
    if |RightOf(cmp, s)| > 0 then Rank(cmp, RightOf(cmp, s)) else []
  }

  /** The quicksort shape: the result is the ranked left side, the pivot
      `s[|s| / 2]`, and the ranked right side; everything on the left was
      rated above the pivot, nothing on the right was, and the pivot
      occurs on neither side. */
  lemma RankShape<P(!new)>(cmp: (P, P) -> int, s: seq<P>)
    requires |s| > 0
    ensures Rank(cmp, s) == RankedLeft(cmp, s) + [s[|s| / 2]] + RankedRight(cmp, s)
    ensures forall x :: x in RankedLeft(cmp, s) ==> Beats(cmp, x, s[|s| / 2]) && x != s[|s| / 2]
    ensures forall x :: x in RankedRight(cmp, s) ==> !Beats(cmp, x, s[|s| / 2]) && x != s[|s| / 2]
  {
  }

  /** With the parsed oracle verdict as comparator, a paragraph is ranked
      on the pivot's left exactly when the oracle, asked whether it is more
      relevant than the pivot, answers "A"; every other paragraph but the
      pivot's copies is ranked on the right. */
  lemma RankedSidesFollowAnswers<P(!new)>(complete: (P, P) -> string, s: seq<P>)
    requires |s| > 0
    ensures forall x :: x in RankedLeft((a: P, b: P) => Compare(complete, a, b), s) <==>
      x in s && x != s[|s| / 2] && Text.Strip(complete(x, s[|s| / 2]), Text.Whitespace) == "A"
    ensures forall x :: x in RankedRight((a: P, b: P) => Compare(complete, a, b), s) <==>
      x in s && x != s[|s| / 2] && Text.Strip(complete(x, s[|s| / 2]), Text.Whitespace) != "A"
  {
    var cmp := (a: P, b: P) => Compare(complete, a, b);
    var pivot := s[|s| / 2];
    forall x
      ensures x in RankedLeft(cmp, s) <==> x in s && x != pivot && Beats(cmp, x, pivot)
      ensures x in RankedRight(cmp, s) <==> x in s && x != pivot && !Beats(cmp, x, pivot)
      ensures Beats(cmp, x, pivot) <==> Text.Strip(complete(x, pivot), Text.Whitespace) == "A"
    {
      assert x in RankedLeft(cmp, s) <==> x in LeftOf(cmp, s);
      assert x in RankedRight(cmp, s) <==> x in RightOf(cmp, s);
      assert cmp(x, pivot) == Compare(complete, x, pivot);
    }
  }

  /** A list of one paragraph comes back unchanged. */
  lemma RankSingleton<P(!new)>(cmp: (P, P) -> int, x: P)
    ensures Rank(cmp, [x]) == [x]
  {
    assert Without([x], x) == [];
  }

  lemma NoDuplicatesAround<P>(a: seq<P>, x: P, b: seq<P>)
    requires NoDuplicates(a) && NoDuplicates(b)
    requires x !in a && x !in b
    requires forall y :: y in a ==> y !in b
    ensures NoDuplicates(a + [x] + b)
  {
    var s := a + [x] + b;
    forall i, j | 0 <= i < j < |s| ensures s[i] != s[j] {
      if j < |a| {
        assert s[i] == a[i] && s[j] == a[j];
      } else if i > |a| {
        assert s[i] == b[i - |a| - 1] && s[j] == b[j - |a| - 1];
      } else if i == |a| {
        assert s[j] == b[j - |a| - 1] && s[j] in b;
      } else if j == |a| {
        assert s[i] == a[i] && s[i] in a;
      } else {
        assert s[i] == a[i] && s[i] in a;
        assert s[j] == b[j - |a| - 1] && s[j] in b;
      }
    }
  }

  /** The ranking never repeats a value: value equality makes the pivot's
      other copies vanish, and the comparator, being a function, sends
      equal copies of any other value to the same side, where they
      eventually meet as a pivot. */
  lemma {:induction false} RankNoDuplicates<P(!new)>(cmp: (P, P) -> int, s: seq<P>)
    requires |s| > 0
    ensures NoDuplicates(Rank(cmp, s))
    decreases |s|
  {
    RankShape(cmp, s);
    if |LeftOf(cmp, s)| > 0 { RankNoDuplicates(cmp, LeftOf(cmp, s)); }
    if |RightOf(cmp, s)| > 0 { RankNoDuplicates(cmp, RightOf(cmp, s)); }
    NoDuplicatesAround(RankedLeft(cmp, s), s[|s| / 2], RankedRight(cmp, s));
  }

  /** The oracle's verdicts form a strict total order on distinct
      paragraphs: exactly one of two distinct paragraphs beats the other,
      and beating is transitive. */
  ghost predicate ConsistentJudge<P(!new)>(cmp: (P, P) -> int)
  {
    (forall a, b :: a != b ==> (Beats(cmp, a, b) <==> !Beats(cmp, b, a))) &&
    (forall a, b, c :: Beats(cmp, a, b) && Beats(cmp, b, c) ==> Beats(cmp, a, c))
  }

  /** Every item of `s` beats every item after it. */
  ghost predicate RankedBy<P>(cmp: (P, P) -> int, s: seq<P>)
  {
    forall i, j :: 0 <= i < j < |s| ==> Beats(cmp, s[i], s[j])
  }

  lemma RankedByAround<P(!new)>(cmp: (P, P) -> int, a: seq<P>, x: P, b: seq<P>)
    requires ConsistentJudge(cmp)
    requires RankedBy(cmp, a) && RankedBy(cmp, b)
    requires forall y :: y in a ==> Beats(cmp, y, x)
    requires forall y :: y in b ==> !Beats(cmp, y, x) && y != x
    ensures RankedBy(cmp, a + [x] + b)
  {
    var s := a + [x] + b;
    forall i, j | 0 <= i < j < |s| ensures Beats(cmp, s[i], s[j]) {
      if j < |a| {
        assert s[i] == a[i] && s[j] == a[j];
      } else if i > |a| {
        assert s[i] == b[i - |a| - 1] && s[j] == b[j - |a| - 1];
      } else if i == |a| {
        assert s[j] == b[j - |a| - 1];
      } else if j == |a| {
        assert s[i] == a[i];
      } else {
        assert s[i] == a[i] && s[j] == b[j - |a| - 1];
        assert Beats(cmp, x, s[j]);
      }
    }
  }

  /** Ranked by a consistent judge, every paragraph beats every paragraph
      after it: the ranker then sorts. Without consistency no order is
      promised. */
  lemma {:induction false} RankSortsUnderConsistentJudge<P(!new)>(cmp: (P, P) -> int, s: seq<P>)
    requires |s| > 0
    requires ConsistentJudge(cmp)
    ensures RankedBy(cmp, Rank(cmp, s))
    decreases |s|
  {
    RankShape(cmp, s);
    if |LeftOf(cmp, s)| > 0 { RankSortsUnderConsistentJudge(cmp, LeftOf(cmp, s)); }
    if |RightOf(cmp, s)| > 0 { RankSortsUnderConsistentJudge(cmp, RightOf(cmp, s)); }
    RankedByAround(cmp, RankedLeft(cmp, s), s[|s| / 2], RankedRight(cmp, s));
  }

  lemma {:induction false} NoDuplicatesCounts<P>(s: seq<P>, x: P)
    requires NoDuplicates(s)
    ensures multiset(s)[x] == if x in s then 1 else 0
  {
    if s != [] {
      assert s == [s[0]] + s[1..];
      NoDuplicatesCounts(s[1..], x);
    }
  }

  /** On a duplicate-free list the ranking is a permutation. */
  lemma RankPermutesDistinct<P(!new)>(cmp: (P, P) -> int, s: seq<P>)
    requires |s| > 0 && NoDuplicates(s)
    ensures multiset(Rank(cmp, s)) == multiset(s)
  {
    var r := Rank(cmp, s);
    RankNoDuplicates(cmp, s);
    forall x ensures multiset(r)[x] == multiset(s)[x] {
      NoDuplicatesCounts(r, x);
      NoDuplicatesCounts(s, x);
    }
  }

  lemma RepeatCounted<P>(s: seq<P>, i: nat, j: nat)
    requires i < j < |s| && s[i] == s[j]
    ensures multiset(s)[s[i]] >= 2
  {
    assert s == s[..i] + [s[i]] + s[i + 1..j] + [s[j]] + s[j + 1..];
  }

  lemma SmallerMultiset<P>(small: multiset<P>, big: multiset<P>, x: P)
    requires small <= big && small[x] < big[x]
    ensures |small| < |big|
  {
    var gone := big - small;
    assert small + gone == big;
    assert x in gone;
  }

  /** On a list with a repeated value the ranking is strictly shorter:
      the repeated copies collapse into one. */
  lemma RankDropsRepeats<P(!new)>(cmp: (P, P) -> int, s: seq<P>, i: nat, j: nat)
    requires i < j < |s| && s[i] == s[j]
    ensures |Rank(cmp, s)| < |s|
  {
    var r := Rank(cmp, s);
    RankNoDuplicates(cmp, s);
    forall y ensures multiset(r)[y] <= multiset(s)[y] {
      NoDuplicatesCounts(r, y);
    }
    NoDuplicatesCounts(r, s[i]);
    RepeatCounted(s, i, j);
    SmallerMultiset(multiset(r), multiset(s), s[i]);
  }

  /** A concrete instance: two equal paragraphs come back as one. */
  lemma RankMergesEqualPair<P(!new)>(cmp: (P, P) -> int, a: P)
    ensures Rank(cmp, [a, a]) == [a]
  {
    assert Without([a, a], a) == [];
  }

  /** The ranker with the pivot removed by position rather than by value,
      so that equal paragraphs stay distinct items; the empty list ranks
      to itself. */
  function RankByPosition<P(!new)>(cmp: (P, P) -> int, s: seq<P>): (r: seq<P>)
    ensures |r| == |s|
    decreases |s|
  {
    if s == [] then []
    else
      var m := |s| / 2;
      var rest := s[..m] + s[m + 1..];
      var left, right := Above(cmp, rest, s[m]), NotAbove(cmp, rest, s[m]);
      RankByPosition(cmp, left) + [s[m]] + RankByPosition(cmp, right)
  }

  lemma RemoveAtPermutes<P>(s: seq<P>, m: nat)
    requires m < |s|
    ensures multiset(s[..m] + s[m + 1..]) + multiset{s[m]} == multiset(s)
  {
    assert s == s[..m] + [s[m]] + s[m + 1..];
  }

  /** Removing the pivot by position makes the ranking a permutation of
      every input, repeated values included. */
  lemma {:induction false} RankByPositionPermutes<P(!new)>(cmp: (P, P) -> int, s: seq<P>)
    ensures multiset(RankByPosition(cmp, s)) == multiset(s)
    decreases |s|
  {
    if s != [] {
      var m := |s| / 2;
      var rest := s[..m] + s[m + 1..];
      var left, right := Above(cmp, rest, s[m]), NotAbove(cmp, rest, s[m]);
      RemoveAtPermutes(s, m);
      PartitionPermutes(cmp, rest, s[m]);
      RankByPositionPermutes(cmp, left);
      RankByPositionPermutes(cmp, right);
      assert RankByPosition(cmp, s) == RankByPosition(cmp, left) + [s[m]] + RankByPosition(cmp, right);
    }
  }
}
