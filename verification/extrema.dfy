/** The scans behind Python's built-in `max` and `min` with a `key`: walk the
    elements left to right and replace the current best only when the new
    element's key is strictly better, so among equal keys the first wins. */
module Extrema {

  /** Position of the first element with the largest key. */
  function FirstMaxIndex<T>(xs: seq<T>, key: T -> int): (i: nat)
    requires |xs| > 0
    ensures i < |xs|
    ensures forall j :: 0 <= j < |xs| ==> key(xs[j]) <= key(xs[i])
    ensures forall j :: 0 <= j < i ==> key(xs[j]) < key(xs[i])
    decreases |xs|
  {
    if |xs| == 1 then 0
    else
      var best := FirstMaxIndex(xs[..|xs| - 1], key);
      if key(xs[|xs| - 1]) > key(xs[best]) then |xs| - 1 else best
  }

  /** Position of the first element with the smallest key. */
  function FirstMinIndex<T>(xs: seq<T>, key: T -> int): (i: nat)
    requires |xs| > 0
    ensures i < |xs|
    ensures forall j :: 0 <= j < |xs| ==> key(xs[i]) <= key(xs[j])
    ensures forall j :: 0 <= j < i ==> key(xs[i]) < key(xs[j])
    decreases |xs|
  {
    if |xs| == 1 then 0
    else
      var best := FirstMinIndex(xs[..|xs| - 1], key);
      if key(xs[|xs| - 1]) < key(xs[best]) then |xs| - 1 else best
  }
}
