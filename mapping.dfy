/** The order-preserving map used throughout the scripts: `map_async`
    (concurrent fan-out, results gathered positionally) and the builtin
    `map` have the same observable result, one output per input, in input
    order, so one sequential definition models both. */
module Mapping {

  function MapInOrder<T, R>(f: T -> R, xs: seq<T>): (r: seq<R>)
    ensures |r| == |xs|
    ensures forall i :: 0 <= i < |xs| ==> r[i] == f(xs[i])
  {
    if xs == [] then [] else [f(xs[0])] + MapInOrder(f, xs[1..])
  }

  /** Mapping distributes over concatenation: results of an earlier block
      of inputs come before those of a later block. */
  lemma {:induction false} MapInOrderConcat<T, R>(f: T -> R, a: seq<T>, b: seq<T>)
    ensures MapInOrder(f, a + b) == MapInOrder(f, a) + MapInOrder(f, b)
  {
    var l, r := MapInOrder(f, a + b), MapInOrder(f, a) + MapInOrder(f, b);
    assert |l| == |r|;
    forall i | 0 <= i < |l| ensures l[i] == r[i] {
      if i < |a| {
        assert (a + b)[i] == a[i];
      } else {
        assert (a + b)[i] == b[i - |a|];
      }
    }
  }
}
