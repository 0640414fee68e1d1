# Debate and paper-QA experiment scripts, modelled in Dafny

This project models the sequential logic of four experiment scripts built on
a language-model agent. The scripts do two things: they run debates between
two agents, and they answer a question about a paper from its most relevant
paragraphs.

- `debate.py` runs a turn loop. While turns remain, each of the two agents
  answers a rendered prompt. Its answer, stripped of quotes and spaces, is
  appended to the debate history, and the turn counter drops by one per
  entry. A judge then answers the rendered debate. The result is the judgment
  prompt followed by the verdict.
- `exercises/debate.py` runs the same loop, but each agent draws three
  completions per turn. Each completion uses the next id of a shared
  cache-id counter. The last completion is kept and no selection happens.
- `exercises/paper_qa.py` ranks paragraphs pointwise. Each paragraph's score
  is the classifier's " Yes" probability, and the pairs are sorted by score,
  highest first, with a stable sort. The script then packs the ranked
  paragraphs into a token window (a cumulative sum and an `argmax`) and joins
  them with blank lines.
- `exercises/paper_qa_rankcompare.py` ranks paragraphs by pairwise
  comparison instead. A one-token verdict is parsed into 1, -1 or 0. The
  ranker is quicksort-shaped: the middle element is the pivot, its equal
  copies are removed by value, the rest is partitioned stably, and both sides
  are ranked recursively.

## How the model is organised

The agent, the classifier, the tokenizer and the prompt renderers are
function parameters.

- **`Outcomes`** holds the exceptions the scripts can raise (`IndexError`,
  numpy's `ValueError`), carried as a `Result`.
- **`Text`** models Python's `str.strip(chars)` and `str.join`.
- **`Mapping`** models the order-preserving map that both `map_async` and
  `map` amount to.
- **`Relevance`**, **`PointwiseRank`** and **`Packing`** model the paper-QA
  pipeline.
- **`PairwiseRank`** models the comparison-based ranker.
- **`PaperQa`** composes ranking, packing and joining into the context that
  `paper_qa` hands to the answering step, with the error each script raises.
- **`Transcripts`** holds what both debate scripts share.
- **`Debate`** states the turn loop once, as a function `Rounds` of a reply
  function. The imperative loops are proved against it:
  - `Debate.RunDebate` for `debate.py`;
  - `CandidateDebate.RunCandidateDebate` for `exercises/debate.py`, with a
    `while` loop, a `for` loop over the two agents and an inner `for` loop
    drawing three candidates.

## Model

| member | source | states |
|---|---|---|
| Text.TrimStart | exercises/paper_qa_rankcompare.py:55 | the result is no longer than the input and does not start with a stripped character |
| Text.TrimStartShape | exercises/paper_qa_rankcompare.py:55 | the result is a suffix of the input, and everything dropped is a stripped character |
| Text.TrimEnd | exercises/paper_qa_rankcompare.py:55 | the result is no longer than the input and does not end with a stripped character |
| Text.TrimEndShape | exercises/paper_qa_rankcompare.py:55 | the result is a prefix of the input, and everything dropped is a stripped character |
| Text.Strip | debate.py:26 | the stripped string neither starts nor ends with a stripped character and is no longer than the input |
| Text.StripIsTrims | debate.py:26 | stripping both ends equals stripping the front, then the back |
| Text.StripShape | exercises/debate.py:32 | the stripped string is a contiguous slice of the input, and everything cut off on either side is a stripped character |
| Text.StripIdempotent | exercises/debate.py:32 | stripping twice is stripping once |
| Text.StripPadded | exercises/paper_qa_rankcompare.py:55 | a text padded on both sides with stripped characters strips back to itself when its own ends are not stripped characters |
| Text.Join | exercises/paper_qa.py:43 | joining no parts gives "", joining one part gives that part, and the length is the parts' total plus one separator between each pair of neighbours |
| Text.JoinLayout | exercises/paper_qa.py:43 | part `i` sits at its offset in the join, and exactly one separator stands between consecutive parts |
| Transcripts.Clean | debate.py:26 | the cleaned answer neither starts nor ends with `"` or a space |
| Transcripts.CleanIdempotent | exercises/debate.py:32 | cleaning a cleaned answer changes nothing |
| Transcripts.EntryCountOvershoot | debate.py:22-27 | an even positive turn count is met exactly, and an odd one is overshot by one entry |
| Mapping.MapInOrder | exercises/paper_qa.py:33 | one result per input, and result `i` is the function applied to input `i` |
| Mapping.MapInOrderConcat | exercises/paper_qa_rankcompare.py:71 | mapping a concatenation concatenates the mapped blocks in order |
| Relevance.RelevanceInUnitInterval | exercises/paper_qa.py:21-27 | the score (the " Yes" probability, or 0.0 when the classifier gives none) lies in [0, 1] whenever every label probability does |
| Packing.CumSum | exercises/paper_qa.py:54 | entry `i` of the cumulative sum is the sum of the first `i + 1` costs |
| Packing.FirstTrue | exercises/paper_qa.py:55 | the index of the first true entry, or the length when there is none |
| Packing.ArgMax | exercises/paper_qa.py:55 | `argmax` on booleans fails exactly on the empty array; otherwise it is the first index holding the maximum |
| Packing.Exceeds | exercises/paper_qa.py:54-55 | entry `i` is true exactly when the first `i + 1` paragraphs cost more than the window |
| Packing.PrefixTotals | exercises/paper_qa.py:54 | the running token count at `i` is the cost of the first `i + 1` paragraphs |
| Packing.FillContextWindow | exercises/paper_qa.py:48-56 | the packer raises exactly on an empty list, and otherwise returns a prefix of the paragraphs |
| Packing.TotalMonotone | exercises/paper_qa.py:54 | with non-negative costs, a longer prefix never costs less |
| Packing.FillKeepsLongestFittingPrefix | exercises/paper_qa_rankcompare.py:111-114 | when the paragraphs overflow the window, the result is the longest prefix within it: it fits (or is empty), and one more paragraph would not fit |
| Packing.FillDropsEverythingWhenAllFit | exercises/paper_qa_rankcompare.py:113-114 | when every paragraph fits, the packer returns no paragraph at all |
| Packing.FillEmptyWhenFirstTooLarge | exercises/paper_qa.py:55-56 | when the first paragraph alone exceeds the window, the result is empty |
| Packing.FillExampleThreeHundreds | exercises/paper_qa.py:54-56 | costs 100, 100, 100 against a window of 250 keep the first two paragraphs |
| Packing.FillExampleSingleFits | exercises/paper_qa.py:48 | a single 100-token paragraph is dropped under the default window of 2048 - 250 tokens, and kept by the corrected packer |
| Packing.FillContextWindowFixed | exercises/paper_qa.py:48-56 | the corrected packer returns the longest prefix within the window |
| Packing.FixedKeepsAllWhenAllFit | exercises/paper_qa.py:50 | when everything fits, the corrected packer keeps every paragraph |
| Packing.FixedAgreesWhenOverflowing | exercises/paper_qa_rankcompare.py:112-114 | on inputs that overflow the window, the corrected packer and the original agree |
| Packing.RelevantParagraphsToContext | exercises/paper_qa.py:43 | the context of no paragraphs is "", of one paragraph its text, and its length is the texts' total plus two characters per blank-line separator |
| PairwiseRank.ParseChoice | exercises/paper_qa_rankcompare.py:55-62 | the verdict is 1 exactly when the stripped completion is "A", -1 exactly when it is "B", and 0 otherwise; it always lies in {-1, 0, 1} |
| PairwiseRank.ParseChoicePadded | exercises/paper_qa_rankcompare.py:55-59 | whitespace around "A" or "B" does not change the verdict, and "Paragraph A" gives 0 |
| PairwiseRank.Compare | exercises/paper_qa_rankcompare.py:46-62 | the comparator is 1 exactly when the oracle's stripped answer is "A", -1 exactly when it is "B", and otherwise 0 |
| PairwiseRank.Above | exercises/paper_qa_rankcompare.py:73-74 | the left list holds exactly the items rated 1 against the pivot |
| PairwiseRank.NotAbove | exercises/paper_qa_rankcompare.py:75-76 | the right list holds exactly the other items, rated -1 or 0, and its length is the remainder |
| PairwiseRank.Partition | exercises/paper_qa_rankcompare.py:68-78 | the two lists' lengths add up to the input's |
| PairwiseRank.PartitionPermutes | exercises/paper_qa_rankcompare.py:72-76 | left plus right is a permutation of the input |
| PairwiseRank.AboveConcat | exercises/paper_qa_rankcompare.py:72-74 | the left list keeps input order: partitioning a concatenation concatenates the left lists |
| PairwiseRank.NotAboveConcat | exercises/paper_qa_rankcompare.py:75-76 | the right list keeps input order in the same sense |
| PairwiseRank.PartitionStep | exercises/paper_qa_rankcompare.py:72-76 | each item is appended to exactly one side, chosen by its verdict |
| PairwiseRank.PartitionArray | exercises/paper_qa_rankcompare.py:64-78 | the loop that appends to the left and right lists returns exactly the partition |
| PairwiseRank.Without | exercises/paper_qa_rankcompare.py:86 | the filter removes every copy of the pivot and keeps every other item as often as it occurs (as multisets, the input with the pivot's count set to 0); the result is strictly shorter when the pivot occurs |
| PairwiseRank.Rank | exercises/paper_qa_rankcompare.py:80-95 | the ranking holds exactly the input's values and is no longer than the input; recursion is on strictly shorter lists |
| PairwiseRank.RankChecked | exercises/paper_qa_rankcompare.py:85 | an empty list raises `IndexError` and only an empty list does; otherwise the ranking is non-empty, holds exactly the input's values and is no longer than the input |
| PairwiseRank.RankedSidesFollowAnswers | exercises/paper_qa_rankcompare.py:71-76 | with the parsed oracle as comparator, a paragraph other than the pivot is ranked left of the pivot exactly when the oracle answers "A" against it, and right otherwise |
| PairwiseRank.RankShape | exercises/paper_qa_rankcompare.py:85-95 | the result is ranked-left, the middle element as pivot, ranked-right; everything left beats the pivot, nothing right does, and the pivot is on neither side |
| PairwiseRank.RankSingleton | exercises/paper_qa_rankcompare.py:85-95 | a list of one paragraph comes back unchanged |
| PairwiseRank.RankNoDuplicates | exercises/paper_qa_rankcompare.py:86-95 | the ranking never repeats a value |
| PairwiseRank.RankSortsUnderConsistentJudge | exercises/paper_qa_rankcompare.py:80-95 | under a judge whose verdicts are a strict total order, every ranked paragraph beats every later one |
| PairwiseRank.RankPermutesDistinct | exercises/paper_qa_rankcompare.py:85-95 | on a duplicate-free input the ranking is a permutation |
| PairwiseRank.RankDropsRepeats | exercises/paper_qa_rankcompare.py:86 | an input with a repeated value ranks to a strictly shorter list |
| PairwiseRank.RankMergesEqualPair | exercises/paper_qa_rankcompare.py:86 | two equal paragraphs rank to one |
| PairwiseRank.RankByPosition | exercises/paper_qa_rankcompare.py:85-95 | the corrected ranker keeps the length |
| PairwiseRank.RankByPositionPermutes | exercises/paper_qa_rankcompare.py:85-95 | the corrected ranker is a permutation of every input, repeats included |
| PointwiseRank.Zip | exercises/paper_qa.py:35 | pair `i` is paragraph `i` with score `i` |
| PointwiseRank.Firsts | exercises/paper_qa.py:37 | element `i` is the paragraph of pair `i` |
| PointwiseRank.SortNonIncreasing | exercises/paper_qa.py:34-36 | the sorted pairs have non-increasing scores |
| PointwiseRank.SortPermutes | exercises/paper_qa.py:34-36 | sorting permutes the pairs and their paragraphs |
| PointwiseRank.SortStable | exercises/paper_qa.py:34-36 | for every score, the pairs with that score keep their input order |
| PointwiseRank.ScoresAligned | exercises/paper_qa.py:33-35 | score `i` belongs to paragraph `i` |
| PointwiseRank.RankByScorePermutes | exercises/paper_qa.py:34-37 | the ranking is a permutation of the paragraphs |
| PointwiseRank.RankByScoreOrdered | exercises/paper_qa.py:34-35 | scores never increase along the ranking |
| PointwiseRank.RankByScoreStable | exercises/paper_qa.py:34-36 | paragraphs with equal scores keep their input order |
| PaperQa.PointwiseContext | exercises/paper_qa.py:58-61 | building the context fails exactly on a paper without paragraphs, with the packer's `ValueError` |
| PaperQa.PairwiseContext | exercises/paper_qa_rankcompare.py:116-119 | building the context fails exactly on an empty paragraph list, with the ranker's `IndexError`; the packer's `ValueError` cannot occur |
| Debate.CleanedIsClean | debate.py:26 | every reply of `debate.py` is an answer stripped of quotes and spaces, so it is clean |
| Debate.RoundShape | debate.py:23-27 | a round appends one entry per agent in order, `names[0]` then `names[1]`, and keeps the history as a prefix |
| Debate.RoundsExtends | debate.py:22-27 | the loop keeps the history as a prefix and appends none for a non-positive count, otherwise `2 * ceil(n / 2)` |
| Debate.RoundsAlternate | debate.py:23-26 | appended speakers alternate `names[0]`, `names[1]`, starting with `names[0]` |
| Debate.RoundsClean | debate.py:26 | with clean replies every appended utterance is clean |
| Debate.RunDebate | debate.py:18-30 | the loop leaves the history `Rounds` describes; the counter ends at or below 0, having dropped by one per entry; one answer call per entry plus one judge call; the result is the judgment prompt followed by the verdict |
| Debate.DebateOutcome | debate.py:21-27 | the debate keeps the initial history, appends `EntryCount(n)` alternating, clean entries, and ends with the counter at 0 or -1 |
| Debate.TwoTurnDebate | debate.py:18-27 | two turns between Alice and Bob append Alice's entry, then Bob's |
| CandidateDebate.KeptIsClean | exercises/debate.py:29-32 | the recorded reply, the third candidate stripped, is clean |
| CandidateDebate.DrawCandidates | exercises/debate.py:27-30 | three completions of the same prompt under three consecutive cache ids; the kept answer is the last |
| CandidateDebate.PlayRound | exercises/debate.py:25-33 | one pass over the two agents appends the round `Debate.Round` describes, drops the counter by 2 and draws six more consecutive cache ids |
| CandidateDebate.RunCandidateDebate | exercises/debate.py:19-36 | the loop leaves the history `Rounds` describes for the kept candidates; the counter ends at or below 0, having dropped by one per entry; the cache ids are 0, 1, 2, … with three per entry; the result is the judgment prompt followed by the verdict |
| CandidateDebate.RoundsFollowReplies | exercises/debate.py:25-33 | the history depends on the replies alone |
| CandidateDebate.DiscardedCandidatesDoNotMatter | exercises/debate.py:28-32 | the first two candidates of every turn have no effect on the debate |
| CandidateDebate.CandidateDebateOutcome | exercises/debate.py:24-33 | the debate keeps the initial history, appends `EntryCount(n)` alternating, clean entries, and ends with the counter at 0 or -1 |

## Left out

- The agent and classifier calls (`recipe.agent().answer/complete/classify`) are function parameters. Their stochasticity, network I/O and the `stop="\n"`, `multiline=False` and `max_tokens=1` options are not modelled. Agent `k`'s oracle is a fixed function of its prompt (and cache id), and the pairwise judge a fixed function of the two paragraphs. PairwiseRank.RankNoDuplicates and PairwiseRank.RankDropsRepeats depend on that: equal copies of a paragraph always get the same verdict, land on the same side and meet as a pivot. A judge that answers differently on repeated calls could leave two equal copies in the ranking.
- `map_async` is modelled as a sequential, order-preserving map. Its concurrency is not modelled, because only the positional alignment of its results is observable.
- The GPT-2 tokenizer (`get_token_count`) is a parameter `tokens` to `nat`. `str(p)` of a paragraph is a parameter `render`.
- Probabilities are `real`, not IEEE floats. No arithmetic is done on them, only comparison and the 0.0 default.
- `np.cumsum` over int64 is modelled on unbounded integers. Overflow needs a total above 2^63 tokens.
- The prompt templates are parameters: `get_relevance_prompt`, `get_comparison_prompt`, `judge_debate_prompt`, and the imported `render_debate`, `render_debate_prompt` and `initialize_debate`. The initial history is an input.
- `recipe.main`, `Paper`/`Paragraph` loading and `nonempty_paragraphs` are not part of the model; `PaperQa` stops at the context string, because the final `answer(context, question)` from `exercises.qa` is not part of this model.
- The structlog warning on an unrecognised verdict is not modelled (exercises/paper_qa_rankcompare.py:61).
- PairwiseRank.Rank requires a non-empty list: both recursive calls are guarded by a length test, so only the caller can pass an empty list. PairwiseRank.RankChecked is the entry point on any list and returns the `IndexError` that exercises/paper_qa_rankcompare.py:85 raises on an empty one.
- PairwiseRank.RankSortsUnderConsistentJudge assumes the judge's verdicts form a strict total order. The source promises no order for an inconsistent judge.
- PairwiseRank.Rank removes the pivot by value, as the `p != pivot` filter at exercises/paper_qa_rankcompare.py:86 does; PairwiseRank.RankByPosition removes it by position.

## Findings

| source | as written | input that shows it | evidently intended | confidence | as-written member | corrected member |
|---|---|---|---|---|---|---|
| exercises/paper_qa.py:55-56 | `argmax` over the all-false array `cumsum > window_size` is 0, so `paragraphs[:0]` is returned when every paragraph fits | one paragraph of 100 tokens with the default window of 1798 | keep every paragraph when they all fit | not executed | Packing.FillDropsEverythingWhenAllFit | Packing.FixedKeepsAllWhenAllFit |
| exercises/paper_qa_rankcompare.py:86 | the pivot is removed with `p != pivot`, so every other paragraph equal to the pivot is dropped and the ranking loses paragraphs | two equal paragraphs `[a, a]` rank to `[a]` | a ranking that is a permutation of its input | not executed | PairwiseRank.RankMergesEqualPair | PairwiseRank.RankByPositionPermutes |
