/** The context-building part of `paper_qa` in both paper-QA scripts: rank
    the paragraphs, pack the ranking into the default window, join the
    packed paragraphs. What each script raises on a paper without
    paragraphs differs: the score-and-sort ranking of an empty list is
    empty and the packer's `argmax` raises `ValueError`; the pairwise
    ranker raises `IndexError` before the packer is reached. */
module PaperQa {
  import Packing
  import PointwiseRank
  import PairwiseRank
  import opened Outcomes

  /** exercises/paper_qa.py, `paper_qa` up to the answer: the context
      string, or the error raised on the way. */
  function PointwiseContext<P(!new)>(classify: P -> map<string, real>, tokens: P -> nat,
                                     render: P -> string, paragraphs: seq<P>): (r: Result<string>)
    ensures r.Err? <==> paragraphs == []
    ensures r.Err? ==> r.error == ValueError
  {
    var ranked := PointwiseRank.RankByScore(classify, paragraphs);
    PointwiseRank.RankByScorePermutes(classify, paragraphs);
    assert |multiset(ranked)| == |ranked|;
    match Packing.FillContextWindow(tokens, ranked, Packing.DefaultWindow)
    case Err(e) => Err(e)
    case Ok(subset) => Ok(Packing.RelevantParagraphsToContext(render, subset))
  }

  /** exercises/paper_qa_rankcompare.py, `paper_qa` up to the answer, on
      the paper's non-empty paragraphs: a non-empty list always ranks to a
      non-empty list, so the packer's `ValueError` cannot occur and the
      only error is the ranker's `IndexError` on an empty list. */
  function PairwiseContext<P(==,!new)>(cmp: (P, P) -> int, tokens: P -> nat,
                                       render: P -> string, paragraphs: seq<P>): (r: Result<string>)
    ensures r.Err? <==> paragraphs == []
    ensures r.Err? ==> r.error == IndexError
  {
    match PairwiseRank.RankChecked(cmp, paragraphs)
    case Err(e) => Err(e)
    case Ok(ranked) =>
      match Packing.FillContextWindow(tokens, ranked, Packing.DefaultWindow)
      case Err(e) => Err(e)
      case Ok(subset) => Ok(Packing.RelevantParagraphsToContext(render, subset))
  }
}
