/** The context-window packer shared by both paper-QA scripts
    (`fill_context_window`) and the assembly of the packed paragraphs into
    one context string (`relevant_paragraphs_to_context`).

    The tokenizer is the parameter `tokens`: the number of GPT-2 tokens of
    a paragraph's text. */
module Packing {
  import Mapping
  import Text
  import opened Outcomes

  const TokenLimit: int := 2048
  const TokenQaExisting: int := 250

  /** The default `window_size`: the model's limit minus the tokens the
      question-answering prompt already uses. */
  const DefaultWindow: int := TokenLimit - TokenQaExisting

  function Sum(xs: seq<int>): int
  {
    if xs == [] then 0 else Sum(xs[..|xs| - 1]) + xs[|xs| - 1]
  }

  /** `np.cumsum`: entry `i` is the sum of the first `i + 1` entries. */
  function CumSum(xs: seq<int>): (r: seq<int>)
    ensures |r| == |xs|
    ensures forall i :: 0 <= i < |xs| ==> r[i] == Sum(xs[..i + 1])
  {
    if xs == [] then []
    else
      var init := xs[..|xs| - 1];
      assert xs[..|xs|] == xs;
      assert forall j :: 1 <= j <= |init| ==> Sum(init[..j]) == Sum(xs[..j]) by {
        forall j | 1 <= j <= |init| ensures Sum(init[..j]) == Sum(xs[..j]) {
          assert init[..j] == xs[..j];
        }
      }
      CumSum(init) + [Sum(xs)]
  }

  /** The index of the first `true` in `bs`, or `|bs|` if there is none. */
  function FirstTrue(bs: seq<bool>): (k: nat)
    ensures k <= |bs|
    ensures forall i :: 0 <= i < k ==> !bs[i]
    ensures k < |bs| ==> bs[k]
  {
    if bs == [] || bs[0] then 0 else 1 + FirstTrue(bs[1..])
  }

  /** `np.argmax` on a boolean array: the index of the first occurrence of
      the maximum. numpy raises `ValueError` on an empty array. */
  function ArgMax(bs: seq<bool>): (r: Result<nat>)
    ensures r.Err? <==> bs == []
    ensures r.Ok? ==> r.value < |bs|
    ensures r.Ok? ==> forall i :: 0 <= i < |bs| ==> (bs[i] ==> bs[r.value])
    ensures r.Ok? ==> forall i :: 0 <= i < r.value ==> bs[i] != bs[r.value]
  {
    if bs == [] then Err(ValueError)
    else Ok(if FirstTrue(bs) < |bs| then FirstTrue(bs) else 0)
  }

  /** The token cost of a list of paragraphs. */
  function Total<P>(tokens: P -> nat, ps: seq<P>): int
  {
    Sum(Mapping.MapInOrder(tokens, ps))
  }

  /** `cumulative_token_lengths > window_size`, element-wise. */
  function Exceeds<P>(tokens: P -> nat, paragraphs: seq<P>, windowSize: int): (bs: seq<bool>)
    ensures |bs| == |paragraphs|
    ensures forall i :: 0 <= i < |bs| ==> (bs[i] <==> Total(tokens, paragraphs[..i + 1]) > windowSize)
  {
    var cumulative := CumSum(Mapping.MapInOrder(tokens, paragraphs));
    PrefixTotals(tokens, paragraphs);
    seq(|cumulative|, i requires 0 <= i < |cumulative| => cumulative[i] > windowSize)
  }

  /** Entry `i` of the running sum is the cost of the first `i + 1`
      paragraphs. */
  lemma PrefixTotals<P>(tokens: P -> nat, paragraphs: seq<P>)
    ensures forall i :: 0 <= i < |paragraphs| ==>
      CumSum(Mapping.MapInOrder(tokens, paragraphs))[i] == Total(tokens, paragraphs[..i + 1])
  {
    var costs := Mapping.MapInOrder(tokens, paragraphs);
    forall i | 0 <= i < |paragraphs|
      ensures CumSum(costs)[i] == Total(tokens, paragraphs[..i + 1])
    {
      assert Mapping.MapInOrder(tokens, paragraphs[..i + 1]) == costs[..i + 1];
    }
  }

  /** `fill_context_window`: the paragraphs before the first index whose
      running token count exceeds `windowSize`, found with `np.argmax`.
      Raises `ValueError` on an empty list. */
  function FillContextWindow<P>(tokens: P -> nat, paragraphs: seq<P>, windowSize: int): (r: Result<seq<P>>)
    ensures r.Err? <==> paragraphs == []
    ensures r.Ok? ==> |r.value| <= |paragraphs| && r.value == paragraphs[..|r.value|]
  {
    match ArgMax(Exceeds(tokens, paragraphs, windowSize))
    case Err(e) => Err(e)
    case Ok(cutoff) => Ok(paragraphs[..cutoff])
  }

  /** With non-negative costs, the cost of a prefix never decreases as the
      prefix grows. */
  lemma {:induction false} TotalMonotone<P>(tokens: P -> nat, ps: seq<P>, i: nat, j: nat)
    requires i <= j <= |ps|
    ensures Total(tokens, ps[..i]) <= Total(tokens, ps[..j])
    decreases j - i
  {
    if i < j {
      TotalMonotone(tokens, ps, i, j - 1);
      var costs := Mapping.MapInOrder(tokens, ps[..j]);
      assert ps[..j][..j - 1] == ps[..j - 1];
      assert Mapping.MapInOrder(tokens, ps[..j - 1]) == costs[..j - 1];
    }
  }

  /** When the paragraphs do not all fit, the packer returns the longest
      prefix that does: its cost is within the window (or it is empty),
      and one paragraph more would exceed it. */
  lemma FillKeepsLongestFittingPrefix<P>(tokens: P -> nat, paragraphs: seq<P>, windowSize: int)
    requires paragraphs != []
    requires Total(tokens, paragraphs) > windowSize
    ensures var r := FillContextWindow(tokens, paragraphs, windowSize);
      && r.Ok?
      && |r.value| < |paragraphs|
      && (|r.value| > 0 ==> Total(tokens, r.value) <= windowSize)
      && Total(tokens, paragraphs[..|r.value| + 1]) > windowSize
  {
    var bs := Exceeds(tokens, paragraphs, windowSize);
    assert paragraphs[..|paragraphs|] == paragraphs;
    assert bs[|paragraphs| - 1];
    var k := FirstTrue(bs);
    if k > 0 {
      assert !bs[k - 1];
      assert paragraphs[..k] == paragraphs[..k - 1 + 1];
    }
  }

  /** The defect: when every paragraph fits, nothing exceeds the window,
      `argmax` over all-false returns 0, and the packer returns no
      paragraphs at all. */
  lemma FillDropsEverythingWhenAllFit<P>(tokens: P -> nat, paragraphs: seq<P>, windowSize: int)
    requires paragraphs != []
    requires Total(tokens, paragraphs) <= windowSize
    ensures FillContextWindow(tokens, paragraphs, windowSize) == Ok([])
  {
    var bs := Exceeds(tokens, paragraphs, windowSize);
    forall i | 0 <= i < |bs| ensures !bs[i] {
      TotalMonotone(tokens, paragraphs, i + 1, |paragraphs|);
      assert paragraphs[..|paragraphs|] == paragraphs;
    }
  }

  /** A first paragraph that alone exceeds the window leaves nothing. */
  lemma FillEmptyWhenFirstTooLarge<P>(tokens: P -> nat, paragraphs: seq<P>, windowSize: int)
    requires paragraphs != [] && tokens(paragraphs[0]) > windowSize
    ensures FillContextWindow(tokens, paragraphs, windowSize) == Ok([])
  {
    var bs := Exceeds(tokens, paragraphs, windowSize);
    var first := Mapping.MapInOrder(tokens, paragraphs[..1]);
    assert first == [tokens(paragraphs[0])];
    assert first[..0] == [];
    assert Sum(first) == Sum(first[..0]) + first[0];
    assert Total(tokens, paragraphs[..1]) == tokens(paragraphs[0]);
    assert bs[0];
  }

  /** Costs 100, 100, 100 against a window of 250: running totals 100,
      200, 300, cutoff 2, the first two paragraphs are kept. */
  lemma FillExampleThreeHundreds<P>(tokens: P -> nat, a: P, b: P, c: P)
    requires tokens(a) == 100 && tokens(b) == 100 && tokens(c) == 100
    ensures FillContextWindow(tokens, [a, b, c], 250) == Ok([a, b])
  {
    var ps := [a, b, c];
    var bs := Exceeds(tokens, ps, 250);
    var c1, c2, c3 := Mapping.MapInOrder(tokens, ps[..1]), Mapping.MapInOrder(tokens, ps[..2]), Mapping.MapInOrder(tokens, ps[..3]);
    assert c1 == [100] && c2 == [100, 100] && c3 == [100, 100, 100];
    assert c1[..0] == [] && c2[..1] == c1 && c3[..2] == c2;
    assert Sum(c1) == Sum(c1[..0]) + 100 == 100;
    assert Sum(c2) == Sum(c1) + 100 == 200;
    assert Sum(c3) == Sum(c2) + 100 == 300;
    assert !bs[0] && !bs[1] && bs[2];
    assert FirstTrue(bs) == 2;
    assert ArgMax(bs) == Ok(2);
    assert ps[..2] == [a, b];
  }

  /** A single 100-token paragraph fits the default window, yet the
      packer drops it; the corrected packer keeps it. */
  lemma FillExampleSingleFits<P>(tokens: P -> nat, a: P)
    requires tokens(a) == 100
    ensures FillContextWindow(tokens, [a], DefaultWindow) == Ok([])
    ensures FillContextWindowFixed(tokens, [a], DefaultWindow) == [a]
  {
    var costs := Mapping.MapInOrder(tokens, [a]);
    assert costs == [100] && costs[..0] == [];
    assert Sum(costs) == Sum(costs[..0]) + 100;
    assert Total(tokens, [a]) == 100;
    FillDropsEverythingWhenAllFit(tokens, [a], DefaultWindow);
    FixedKeepsAllWhenAllFit(tokens, [a], DefaultWindow);
  }

  /** The packer as evidently intended: the paragraphs before the first
      index whose running count exceeds the window, or all of them when
      none does. The result is the longest prefix within the window. */
  function FillContextWindowFixed<P>(tokens: P -> nat, paragraphs: seq<P>, windowSize: int): (r: seq<P>)
    ensures |r| <= |paragraphs| && r == paragraphs[..|r|]
    ensures |r| > 0 ==> Total(tokens, r) <= windowSize
    ensures |r| < |paragraphs| ==> Total(tokens, paragraphs[..|r| + 1]) > windowSize
  {
    var bs := Exceeds(tokens, paragraphs, windowSize);
    var k := FirstTrue(bs);
    assert k > 0 ==> !bs[k - 1] && paragraphs[..k] == paragraphs[..k - 1 + 1];
    paragraphs[..k]
  }

  /** When everything fits, the corrected packer keeps everything. */
  lemma FixedKeepsAllWhenAllFit<P>(tokens: P -> nat, paragraphs: seq<P>, windowSize: int)
    requires Total(tokens, paragraphs) <= windowSize
    ensures FillContextWindowFixed(tokens, paragraphs, windowSize) == paragraphs
  {
    var r := FillContextWindowFixed(tokens, paragraphs, windowSize);
    if |r| < |paragraphs| {
      assert paragraphs[..|paragraphs|] == paragraphs;
      TotalMonotone(tokens, paragraphs, |r| + 1, |paragraphs|);
      assert false;
    }
  }

  /** Where some paragraph overflows the window, the corrected packer and
      the original agree. */
  lemma FixedAgreesWhenOverflowing<P>(tokens: P -> nat, paragraphs: seq<P>, windowSize: int)
    requires paragraphs != []
    requires Total(tokens, paragraphs) > windowSize
    ensures FillContextWindow(tokens, paragraphs, windowSize) == Ok(FillContextWindowFixed(tokens, paragraphs, windowSize))
  {
    var bs := Exceeds(tokens, paragraphs, windowSize);
    assert paragraphs[..|paragraphs|] == paragraphs;
    assert bs[|paragraphs| - 1];
  }

  /** The separator between paragraphs in the context string. */
  const ParagraphSeparator: string := "\n\n"

  /** `relevant_paragraphs_to_context`: the paragraphs' texts joined by
      blank lines. */
  function RelevantParagraphsToContext<P>(render: P -> string, paragraphs: seq<P>): (context: string)
    ensures paragraphs == [] ==> context == ""
    ensures |paragraphs| == 1 ==> context == render(paragraphs[0])
    ensures |context| == Text.TotalLength(Mapping.MapInOrder(render, paragraphs)) +
      (if paragraphs == [] then 0 else 2 * (|paragraphs| - 1))
  {
    Text.Join(ParagraphSeparator, Mapping.MapInOrder(render, paragraphs))
  }
}
