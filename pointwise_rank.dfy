/** The score-and-sort ranker of exercises/paper_qa.py: every paragraph is
    scored independently by the relevance classifier, the scores are
    zipped positionally with the paragraphs, and the pairs are sorted by
    score, highest first, with Python's stable `sorted(..., reverse=True)`.

    The classifier is the parameter `classify`: for a paragraph (the
    question is fixed by the caller) it returns the label probabilities. */
module PointwiseRank {
  import Mapping
  import Relevance

  /** The relevance score of one paragraph. */
  function Score<P>(classify: P -> map<string, real>, p: P): real
  {
    Relevance.ParagraphRelevance(classify(p))
  }

  /** `zip(xs, ys)` for lists of equal length. */
  function Zip<P>(xs: seq<P>, ys: seq<real>): (r: seq<(P, real)>)
    requires |xs| == |ys|
    ensures |r| == |xs|
    ensures forall i :: 0 <= i < |r| ==> r[i] == (xs[i], ys[i])
  {
    if xs == [] then [] else [(xs[0], ys[0])] + Zip(xs[1..], ys[1..])
  }

  /** `[p for p, _ in pairs]`. */
  function Firsts<P>(pairs: seq<(P, real)>): (r: seq<P>)
    ensures |r| == |pairs|
    ensures forall i :: 0 <= i < |r| ==> r[i] == pairs[i].0
  {
    if pairs == [] then [] else [pairs[0].0] + Firsts(pairs[1..])
  }

  /** Inserts `x` in front of the first pair whose score is not higher. */
  function Insert<P(!new)>(x: (P, real), t: seq<(P, real)>): seq<(P, real)>
  {
    if t == [] then [x]
    else if t[0].1 <= x.1 then [x] + t
    else [t[0]] + Insert(x, t[1..])
  }

  /** `sorted(pairs, key=score, reverse=True)`, as an insertion sort: an
      earlier pair goes in front of later pairs with the same score, which
      is what makes it stable. */
  function SortByScore<P(!new)>(pairs: seq<(P, real)>): seq<(P, real)>
  {
    if pairs == [] then [] else Insert(pairs[0], SortByScore(pairs[1..]))
  }

  /** Scores never increase along `t`. */
  predicate NonIncreasing<P>(t: seq<(P, real)>)
  {
    forall i, j :: 0 <= i < j < |t| ==> t[i].1 >= t[j].1
  }

  /** The pairs of `t` with score `k`, in order. */
  function WithScore<P>(t: seq<(P, real)>, k: real): seq<(P, real)>
  {
    if t == [] then []
    else (if t[0].1 == k then [t[0]] else []) + WithScore(t[1..], k)
  }

  lemma ConsNonIncreasing<P>(h: (P, real), tail: seq<(P, real)>)
    requires NonIncreasing(tail)
    requires forall j :: 0 <= j < |tail| ==> tail[j].1 <= h.1
    ensures NonIncreasing([h] + tail)
  {
    var r := [h] + tail;
    forall i, j | 0 <= i < j < |r| ensures r[i].1 >= r[j].1 {
      assert r[j] == tail[j - 1];
      if i > 0 {
        assert r[i] == tail[i - 1];
      }
    }
  }

  lemma {:induction false} InsertNonIncreasing<P(!new)>(x: (P, real), t: seq<(P, real)>)
    requires NonIncreasing(t)
    ensures NonIncreasing(Insert(x, t))
  {
    if t == [] {
    } else if t[0].1 > x.1 {
      var tail := Insert(x, t[1..]);
      InsertNonIncreasing(x, t[1..]);
      InsertPermutes(x, t[1..]);
      forall j | 0 <= j < |tail| ensures tail[j].1 <= t[0].1 {
        assert tail[j] in multiset(tail);
        if tail[j] != x {
          assert tail[j] in multiset(t[1..]);
          var k :| 0 <= k < |t[1..]| && t[1..][k] == tail[j];
          assert t[0].1 >= t[k + 1].1;
        }
      }
      ConsNonIncreasing(t[0], tail);
    } else {
      ConsNonIncreasing(x, t);
    }
  }

  /** The sorted pairs have non-increasing scores. */
  lemma {:induction false} SortNonIncreasing<P(!new)>(pairs: seq<(P, real)>)
    ensures NonIncreasing(SortByScore(pairs))
  {
    if pairs != [] {
      SortNonIncreasing(pairs[1..]);
      InsertNonIncreasing(pairs[0], SortByScore(pairs[1..]));
    }
  }

  lemma FirstsConcat<P>(a: seq<(P, real)>, b: seq<(P, real)>)
    ensures Firsts(a + b) == Firsts(a) + Firsts(b)
  {
    var l, r := Firsts(a + b), Firsts(a) + Firsts(b);
    forall i | 0 <= i < |l| ensures l[i] == r[i] {
      if i < |a| { assert (a + b)[i] == a[i]; } else { assert (a + b)[i] == b[i - |a|]; }
    }
  }

  lemma FirstsCons<P>(p: (P, real), rest: seq<(P, real)>)
    ensures Firsts([p] + rest) == [p.0] + Firsts(rest)
  {
    assert ([p] + rest)[1..] == rest;
  }

  lemma {:induction false} InsertPermutes<P(!new)>(x: (P, real), t: seq<(P, real)>)
    ensures multiset(Insert(x, t)) == multiset(t) + multiset{x}
  {
    if t != [] && t[0].1 > x.1 {
      assert t == [t[0]] + t[1..];
      InsertPermutes(x, t[1..]);
    }
  }

  lemma InsertInFrontFirsts<P(!new)>(x: (P, real), t: seq<(P, real)>)
    requires t == [] || t[0].1 <= x.1
    ensures multiset(Firsts(Insert(x, t))) == multiset(Firsts(t)) + multiset{x.0}
  {
    assert Insert(x, t) == [x] + t;
    FirstsCons(x, t);
  }

  lemma {:induction false} InsertPermutesFirsts<P(!new)>(x: (P, real), t: seq<(P, real)>)
    ensures multiset(Firsts(Insert(x, t))) == multiset(Firsts(t)) + multiset{x.0}
  {
    if t == [] || t[0].1 <= x.1 {
      InsertInFrontFirsts(x, t);
    } else {
      InsertPermutesFirsts(x, t[1..]);
      FirstsCons(t[0], Insert(x, t[1..]));
      assert multiset{t[0].0} + (multiset(Firsts(t[1..])) + multiset{x.0})
          == (multiset{t[0].0} + multiset(Firsts(t[1..]))) + multiset{x.0};
    }
  }

  /** Sorting permutes the pairs, and with them the paragraphs. */
  lemma {:induction false} SortPermutes<P(!new)>(pairs: seq<(P, real)>)
    ensures multiset(SortByScore(pairs)) == multiset(pairs)
    ensures multiset(Firsts(SortByScore(pairs))) == multiset(Firsts(pairs))
  {
    if pairs != [] {
      assert pairs == [pairs[0]] + pairs[1..];
      SortPermutes(pairs[1..]);
      InsertPermutes(pairs[0], SortByScore(pairs[1..]));
      InsertPermutesFirsts(pairs[0], SortByScore(pairs[1..]));
      FirstsConcat([pairs[0]], pairs[1..]);
    }
  }

  lemma {:induction false} InsertWithScore<P(!new)>(x: (P, real), t: seq<(P, real)>, k: real)
    ensures WithScore(Insert(x, t), k) == (if x.1 == k then [x] else []) + WithScore(t, k)
  {
    if t != [] && t[0].1 > x.1 {
      InsertWithScore(x, t[1..], k);
      assert Insert(x, t)[1..] == Insert(x, t[1..]);
    }
  }

  /** Stability: for every score, the pairs with that score appear in the
      sorted list in exactly their input order. */
  lemma {:induction false} SortStable<P(!new)>(pairs: seq<(P, real)>, k: real)
    ensures WithScore(SortByScore(pairs), k) == WithScore(pairs, k)
  {
    if pairs != [] {
      SortStable(pairs[1..], k);
      InsertWithScore(pairs[0], SortByScore(pairs[1..]), k);
    }
  }

  /** `rank_relevant_paragraphs`: score all paragraphs (fanned out, results
      in input order), zip scores with paragraphs, sort by score
      descending, keep the paragraphs. */
  function RankByScore<P(!new)>(classify: P -> map<string, real>, paragraphs: seq<P>): seq<P>
  {
    var relevance := Mapping.MapInOrder(p => Score(classify, p), paragraphs);
    Firsts(SortByScore(Zip(paragraphs, relevance)))
  }

  /** Score `i` belongs to paragraph `i`. */
  lemma ScoresAligned<P>(classify: P -> map<string, real>, paragraphs: seq<P>)
    ensures var pairs := Zip(paragraphs, Mapping.MapInOrder(p => Score(classify, p), paragraphs));
      forall i :: 0 <= i < |pairs| ==> pairs[i] == (paragraphs[i], Score(classify, paragraphs[i]))
  {
  }

  /** The paragraphs of `ps` whose score is `k`, in order. */
  function Tied<P>(classify: P -> map<string, real>, ps: seq<P>, k: real): seq<P>
  {
    if ps == [] then []
    else (if Score(classify, ps[0]) == k then [ps[0]] else []) + Tied(classify, ps[1..], k)
  }

  /** Every pair carries its own paragraph's score. */
  ghost predicate WellScored<P(!new)>(classify: P -> map<string, real>, t: seq<(P, real)>)
  {
    forall y :: y in t ==> y.1 == Score(classify, y.0)
  }

  lemma {:induction false} FirstsWithScore<P(!new)>(classify: P -> map<string, real>, t: seq<(P, real)>, k: real)
    requires WellScored(classify, t)
    ensures Firsts(WithScore(t, k)) == Tied(classify, Firsts(t), k)
  {
    if t != [] {
      FirstsWithScore(classify, t[1..], k);
      assert Firsts(t)[1..] == Firsts(t[1..]);
      assert t[0] in t;
      var head := if t[0].1 == k then [t[0]] else [];
      assert Firsts(head + WithScore(t[1..], k)) == Firsts(head) + Firsts(WithScore(t[1..], k));
    }
  }

  lemma RankInputFacts<P(!new)>(classify: P -> map<string, real>, paragraphs: seq<P>)
    ensures var pairs := Zip(paragraphs, Mapping.MapInOrder(p => Score(classify, p), paragraphs));
      Firsts(pairs) == paragraphs && WellScored(classify, pairs) && WellScored(classify, SortByScore(pairs))
  {
    var relevance := Mapping.MapInOrder(p => Score(classify, p), paragraphs);
    var pairs := Zip(paragraphs, relevance);
    assert Firsts(pairs) == paragraphs;
    forall y | y in pairs ensures y.1 == Score(classify, y.0) {
      var i :| 0 <= i < |pairs| && pairs[i] == y;
      assert relevance[i] == Score(classify, paragraphs[i]);
    }
    SortPermutes(pairs);
    var sorted := SortByScore(pairs);
    forall y | y in sorted ensures y.1 == Score(classify, y.0) {
      assert y in multiset(sorted);
      assert y in pairs;
    }
  }

  /** The ranking is a permutation of the paragraphs. */
  lemma RankByScorePermutes<P(!new)>(classify: P -> map<string, real>, paragraphs: seq<P>)
    ensures multiset(RankByScore(classify, paragraphs)) == multiset(paragraphs)
  {
    var pairs := Zip(paragraphs, Mapping.MapInOrder(p => Score(classify, p), paragraphs));
    RankInputFacts(classify, paragraphs);
    SortPermutes(pairs);
  }

  /** Scores never increase along the ranking. */
  lemma RankByScoreOrdered<P(!new)>(classify: P -> map<string, real>, paragraphs: seq<P>)
    ensures var r := RankByScore(classify, paragraphs);
      forall i, j :: 0 <= i < j < |r| ==> Score(classify, r[i]) >= Score(classify, r[j])
  {
    var pairs := Zip(paragraphs, Mapping.MapInOrder(p => Score(classify, p), paragraphs));
    var sorted := SortByScore(pairs);
    RankInputFacts(classify, paragraphs);
    SortNonIncreasing(pairs);
    var r := RankByScore(classify, paragraphs);
    forall i, j | 0 <= i < j < |r| ensures Score(classify, r[i]) >= Score(classify, r[j]) {
      assert sorted[i] in sorted && sorted[j] in sorted;
    }
  }

  /** Ties keep their original order: for every score, the paragraphs
      with that score appear in the ranking in their input order. */
  lemma RankByScoreStable<P(!new)>(classify: P -> map<string, real>, paragraphs: seq<P>, k: real)
    ensures Tied(classify, RankByScore(classify, paragraphs), k) == Tied(classify, paragraphs, k)
  {
    var pairs := Zip(paragraphs, Mapping.MapInOrder(p => Score(classify, p), paragraphs));
    var sorted := SortByScore(pairs);
    RankInputFacts(classify, paragraphs);
    SortStable(pairs, k);
    FirstsWithScore(classify, sorted, k);
    FirstsWithScore(classify, pairs, k);
  }
}
