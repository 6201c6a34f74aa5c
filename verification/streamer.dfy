/** Model of the `Stream` class of the streamer package (streamer/__init__.py).

    A stream wraps a single-pass iterator. Here it is the finite sequence of
    elements the iterator has left. The source's fluent combinators replace the
    inner iterator and return `self`; each is a pure function from the stream to
    the stream `self` becomes. Operations that pull elements (`next`, `skip`,
    `take`, `max`, `min`, `sorted`, `reduce`) return an `Outcome`: what the
    call returns or raises, paired with the stream it leaves behind. */
module Streamer {
  import Sorting
  import Extrema

  datatype Option<T> = None | Some(value: T)

  /** The exceptions the stream itself raises. */
  datatype Error =
    | StopIteration  // `next` was called on an exhausted iterator
    | TypeError      // `functools.reduce` of an empty stream with no initial value

  /** A returned value or a raised exception. */
  datatype Result<R> = Ok(value: R) | Raised(error: Error)

  /** What an element-pulling call yields, and the stream left after it. */
  datatype Outcome<R, T> = Outcome(result: Result<R>, left: Stream<T>)

  /** A stream, seen as the elements it has not yet produced. */
  datatype Stream<T> = Stream(rest: seq<T>)

  /** `xs` is `ys` with some elements removed, the others in their order. */
  ghost predicate Subsequence<T>(xs: seq<T>, ys: seq<T>)
    decreases |ys|
  {
    |xs| == 0 ||
    (|ys| > 0 && ((xs[0] == ys[0] && Subsequence(xs[1..], ys[1..])) || Subsequence(xs, ys[1..])))
  }

  /** `__next__`: produce the head, or raise StopIteration when nothing is left. */
  function Next<T>(s: Stream<T>): (o: Outcome<T, T>)
    ensures o.result.Ok? <==> |s.rest| > 0
    ensures o.result.Ok? ==> [o.result.value] + o.left.rest == s.rest
    ensures o.result.Raised? ==> o.result.error == StopIteration && o.left.rest == []
  {
    if |s.rest| == 0 then Outcome(Raised(StopIteration), s)
    else Outcome(Ok(s.rest[0]), Stream(s.rest[1..]))
  }

  // ---------------------------------------------------------------------------
  // Combinators: each returns the stream `self` becomes; none pulls an element.
  // `other` is another stream or any iterable, given by the elements it yields.
  // ---------------------------------------------------------------------------

  /** `s + other`: the stream's own elements, then those of `other`. */
  function Add<T>(s: Stream<T>, other: seq<T>): (r: Stream<T>)
    ensures |r.rest| == |s.rest| + |other|
    ensures r.rest[..|s.rest|] == s.rest && r.rest[|s.rest|..] == other
  {
    Stream(s.rest + other)
  }

  /** `other + s` with `other` not a stream: delegates to `s + other`, so the
      stream's own elements still come first. */
  function RAdd<T>(s: Stream<T>, other: seq<T>): (r: Stream<T>)
    ensures |r.rest| == |s.rest| + |other|
    ensures r.rest[..|s.rest|] == s.rest && r.rest[|s.rest|..] == other
  {
    Add(s, other)
  }

  /** `concat(other)`: the same as `s + other`. */
  function Concat<T>(s: Stream<T>, other: seq<T>): (r: Stream<T>)
    ensures |r.rest| == |s.rest| + |other|
    ensures r.rest[..|s.rest|] == s.rest && r.rest[|s.rest|..] == other
  {
    Add(s, other)
  }

  /** `enumerate(start)`: pairs each element with a counter starting at `start`. */
  function Enumerate<T>(s: Stream<T>, start: int := 0): (r: Stream<(int, T)>)
    ensures |r.rest| == |s.rest|
    ensures forall i :: 0 <= i < |s.rest| ==> r.rest[i] == (start + i, s.rest[i])
    decreases |s.rest|
  {
    if |s.rest| == 0 then Stream([])
    else Stream([(start, s.rest[0])] + Enumerate(Stream(s.rest[1..]), start + 1).rest)
  }

  /** `map(f)`: applies `f` to every element. */
  function Map<T, U>(s: Stream<T>, f: T -> U): (r: Stream<U>)
    ensures |r.rest| == |s.rest|
    ensures forall i :: 0 <= i < |s.rest| ==> r.rest[i] == f(s.rest[i])
    decreases |s.rest|
  {
    if |s.rest| == 0 then Stream([])
    else Stream([f(s.rest[0])] + Map(Stream(s.rest[1..]), f).rest)
  }

  /** The lists of `xss` one after the other. */
  function Flatten<U>(xss: seq<seq<U>>): seq<U>
    decreases |xss|
  {
    if |xss| == 0 then [] else xss[0] + Flatten(xss[1..])
  }

  /** `flat_map(f)`: each element is replaced by the list `f` returns for it. */
  function FlatMap<T, U>(s: Stream<T>, f: T -> seq<U>): (r: Stream<U>)
    ensures r.rest == Flatten(Map(s, f).rest)
    decreases |s.rest|
  {
    if |s.rest| == 0 then Stream([])
    else
      var tail := Stream(s.rest[1..]);
      assert Map(s, f).rest[1..] == Map(tail, f).rest;
      Stream(f(s.rest[0]) + FlatMap(tail, f).rest)
  }

  /** `filter(p)`: keeps the elements satisfying `p`, in order. */
  function Filter<T>(s: Stream<T>, p: T -> bool): (r: Stream<T>)
    ensures forall i :: 0 <= i < |r.rest| ==> p(r.rest[i])
    ensures Subsequence(r.rest, s.rest)
    ensures forall x :: x in r.rest ==> x in s.rest
    ensures forall x {:trigger multiset(r.rest)[x]} :: x in s.rest && p(x) ==> multiset(r.rest)[x] == multiset(s.rest)[x]
    decreases |s.rest|
  {
    if |s.rest| == 0 then Stream([])
    else
      var kept := Filter(Stream(s.rest[1..]), p);
      assert s.rest == [s.rest[0]] + s.rest[1..];
      if p(s.rest[0]) then
        assert ([s.rest[0]] + kept.rest)[1..] == kept.rest;
        Stream([s.rest[0]] + kept.rest)
      else kept
  }

  /** `drop(p)` (`itertools.filterfalse`): keeps the elements NOT satisfying `p`, in order. */
  function Drop<T>(s: Stream<T>, p: T -> bool): (r: Stream<T>)
    ensures forall i :: 0 <= i < |r.rest| ==> !p(r.rest[i])
    ensures Subsequence(r.rest, s.rest)
    ensures forall x :: x in r.rest ==> x in s.rest
    ensures forall x {:trigger multiset(r.rest)[x]} :: x in s.rest && !p(x) ==> multiset(r.rest)[x] == multiset(s.rest)[x]
    decreases |s.rest|
  {
    if |s.rest| == 0 then Stream([])
    else
      var kept := Drop(Stream(s.rest[1..]), p);
      assert s.rest == [s.rest[0]] + s.rest[1..];
      if !p(s.rest[0]) then
        assert ([s.rest[0]] + kept.rest)[1..] == kept.rest;
        Stream([s.rest[0]] + kept.rest)
      else kept
  }

  /** Length of the shortest of `xss`. */
  function MinLen<T>(xss: seq<seq<T>>): (m: nat)
    requires |xss| > 0
    ensures forall j :: 0 <= j < |xss| ==> m <= |xss[j]|
    ensures exists j :: 0 <= j < |xss| && m == |xss[j]|
    decreases |xss|
  {
    if |xss| == 1 then |xss[0]|
    else
      var m := MinLen(xss[1..]);
      assert forall j :: 1 <= j < |xss| ==> xss[j] == xss[1..][j - 1];
      if |xss[0]| <= m then |xss[0]| else m
  }

  /** Length of the longest of `xss`. */
  function MaxLen<T>(xss: seq<seq<T>>): (m: nat)
    requires |xss| > 0
    ensures forall j :: 0 <= j < |xss| ==> |xss[j]| <= m
    ensures exists j :: 0 <= j < |xss| && m == |xss[j]|
    decreases |xss|
  {
    if |xss| == 1 then |xss[0]|
    else
      var m := MaxLen(xss[1..]);
      assert forall j :: 1 <= j < |xss| ==> xss[j] == xss[1..][j - 1];
      if |xss[0]| >= m then |xss[0]| else m
  }

  /** What an input contributes at row `i` of `zip_longest`: its element, or
      `fill` once it is exhausted. */
  function Cell<T>(xs: seq<T>, i: nat, fill: Option<T>): Option<T>
  {
    if i < |xs| then Some(xs[i]) else fill
  }

  /** The inputs after one `zip_longest` row: each input loses its head, and
      an exhausted input stays exhausted. */
  function Rests<T>(xss: seq<seq<T>>): seq<seq<T>>
  {
    seq(|xss|, j requires 0 <= j < |xss| => if |xss[j]| > 0 then xss[j][1..] else [])
  }

  lemma RestsShorten<T>(xss: seq<seq<T>>)
    requires |xss| > 0 && MaxLen(xss) > 0
    ensures MaxLen(Rests(xss)) == MaxLen(xss) - 1
  {
    var r := Rests(xss);
    assert |r| == |xss|;
    var j0 :| 0 <= j0 < |xss| && MaxLen(xss) == |xss[j0]|;
    assert r[j0] == xss[j0][1..];
    var j1 :| 0 <= j1 < |r| && MaxLen(r) == |r[j1]|;
    assert |r[j1]| <= |xss[j1]| <= MaxLen(xss);
  }

  /** One `zip_longest` row in front of the rows of the remaining inputs gives
      the rows of the whole inputs. */
  lemma PrependRowCells<T>(xss: seq<seq<T>>, fill: Option<T>, row: seq<Option<T>>, later: seq<seq<Option<T>>>)
    requires |row| == |xss| && forall j :: 0 <= j < |xss| ==> row[j] == Cell(xss[j], 0, fill)
    requires forall i :: 0 <= i < |later| ==> |later[i]| == |xss|
    requires forall i, j :: 0 <= i < |later| && 0 <= j < |xss| ==> later[i][j] == Cell(Rests(xss)[j], i, fill)
    ensures forall i, j :: 0 <= i <= |later| && 0 <= j < |xss| ==> ([row] + later)[i][j] == Cell(xss[j], i, fill)
  {
    var rests := Rests(xss);
    var r := [row] + later;
    forall i, j | 0 <= i <= |later| && 0 <= j < |xss| ensures r[i][j] == Cell(xss[j], i, fill) {
      if i > 0 {
        assert r[i] == later[i - 1];
        assert Cell(rests[j], i - 1, fill) == Cell(xss[j], i, fill);
      }
    }
  }

  /** When no input is exhausted, one row takes exactly one element from each. */
  lemma RestsShortenAll<T>(xss: seq<seq<T>>)
    requires |xss| > 0 && MinLen(xss) > 0
    ensures MinLen(Rests(xss)) == MinLen(xss) - 1
  {
    var r := Rests(xss);
    var j0 :| 0 <= j0 < |xss| && MinLen(xss) == |xss[j0]|;
    var j1 :| 0 <= j1 < |r| && MinLen(r) == |r[j1]|;
    assert |r[j0]| == |xss[j0]| - 1;
    assert |r[j1]| == |xss[j1]| - 1;
  }

  /** One `zip` row in front of the rows of the remaining inputs gives the
      rows of the whole inputs. */
  lemma PrependRowElements<T>(xss: seq<seq<T>>, row: seq<T>, later: seq<seq<T>>)
    requires |row| == |xss|
    requires forall j :: 0 <= j < |xss| ==> |later| < |xss[j]| && row[j] == xss[j][0]
    requires forall i :: 0 <= i < |later| ==> |later[i]| == |xss|
    requires forall i, j :: 0 <= i < |later| && 0 <= j < |xss| ==> later[i][j] == Rests(xss)[j][i]
    ensures forall i, j :: 0 <= i <= |later| && 0 <= j < |xss| ==> ([row] + later)[i][j] == xss[j][i]
  {
    var rests := Rests(xss);
    var r := [row] + later;
    forall i, j | 0 <= i <= |later| && 0 <= j < |xss| ensures r[i][j] == xss[j][i] {
      if i > 0 {
        assert r[i] == later[i - 1];
        assert rests[j][i - 1] == xss[j][i];
      }
    }
  }

  /** Python's `zip` over the inputs `xss`: take one element from each input
      per row, and stop as soon as one input is exhausted. */
  function ZipRows<T>(xss: seq<seq<T>>): (r: seq<seq<T>>)
    requires |xss| > 0
    ensures |r| == MinLen(xss)
    ensures forall i :: 0 <= i < |r| ==> |r[i]| == |xss|
    ensures forall i, j :: 0 <= i < |r| && 0 <= j < |xss| ==> r[i][j] == xss[j][i]
    decreases |xss[0]|
  {
    if MinLen(xss) == 0 then []
    else
      var row := seq(|xss|, j requires 0 <= j < |xss| => xss[j][0]);
      RestsShortenAll(xss);
      var later := ZipRows(Rests(xss));
      PrependRowElements(xss, row, later);
      [row] + later
  }

  /** Python's `itertools.zip_longest` over the inputs `xss`: rows continue
      until every input is exhausted, and an exhausted input contributes
      `fill` (elements are lifted into `Option`, Python's `None` being `None`). */
  function ZipLongestRows<T>(xss: seq<seq<T>>, fill: Option<T>): (r: seq<seq<Option<T>>>)
    requires |xss| > 0
    ensures |r| == MaxLen(xss)
    ensures forall i :: 0 <= i < |r| ==> |r[i]| == |xss|
    ensures forall i, j :: 0 <= i < |r| && 0 <= j < |xss| ==> r[i][j] == Cell(xss[j], i, fill)
    decreases MaxLen(xss)
  {
    if MaxLen(xss) == 0 then []
    else
      var row := seq(|xss|, j requires 0 <= j < |xss| => Cell(xss[j], 0, fill));
      var rests := Rests(xss);
      RestsShorten(xss);
      var later := ZipLongestRows(rests, fill);
      var r := [row] + later;
      PrependRowCells(xss, fill, row, later);
      r
  }

  /** What `zip(*others)` and `zip_longest(*others)` combine: the stream's own
      elements first, then each of `others`. */
  function ZipInputs<T>(s: Stream<T>, others: seq<seq<T>>): seq<seq<T>>
  {
    [s.rest] + others
  }

  /** `zip(*others)`: one tuple per position, holding that position's element
      of every input, as long as the shortest input. */
  function Zip<T>(s: Stream<T>, others: seq<seq<T>>): (r: Stream<seq<T>>)
    ensures forall j :: 0 <= j < |others| + 1 ==> |r.rest| <= |ZipInputs(s, others)[j]|
    ensures exists j :: 0 <= j < |others| + 1 && |r.rest| == |ZipInputs(s, others)[j]|
    ensures forall i :: 0 <= i < |r.rest| ==> |r.rest[i]| == |others| + 1
    ensures forall i, j :: 0 <= i < |r.rest| && 0 <= j < |others| + 1 ==>
              r.rest[i][j] == ZipInputs(s, others)[j][i]
  {
    Stream(ZipRows(ZipInputs(s, others)))
  }

  /** `zip_longest(*others, fillvalue)`: one tuple per position as long as the
      longest input, with `fill` standing in for exhausted inputs. */
  function ZipLongest<T>(s: Stream<T>, others: seq<seq<T>>, fill: Option<T> := None): (r: Stream<seq<Option<T>>>)
    ensures forall j :: 0 <= j < |others| + 1 ==> |ZipInputs(s, others)[j]| <= |r.rest|
    ensures exists j :: 0 <= j < |others| + 1 && |r.rest| == |ZipInputs(s, others)[j]|
    ensures forall i :: 0 <= i < |r.rest| ==> |r.rest[i]| == |others| + 1
    ensures forall i, j :: 0 <= i < |r.rest| && 0 <= j < |others| + 1 ==>
              r.rest[i][j] == Cell(ZipInputs(s, others)[j], i, fill)
  {
    Stream(ZipLongestRows(ZipInputs(s, others), fill))
  }

  // ---------------------------------------------------------------------------
  // Operations that pull elements.
  // ---------------------------------------------------------------------------

  /** `skip(n)`: calls `next` n times (none when n <= 0). A shortfall lets
      StopIteration escape after the stream has been emptied. */
  function Skip<T>(s: Stream<T>, n: int := 0): (o: Outcome<(), T>)
    ensures n <= 0 ==> o == Outcome(Ok(()), s)
    ensures 0 <= n <= |s.rest| ==> o == Outcome(Ok(()), Stream(s.rest[n..]))
    ensures n > |s.rest| ==> o == Outcome(Raised(StopIteration), Stream([]))
    decreases if n <= 0 then 0 else n
  {
    if n <= 0 then Outcome(Ok(()), s)
    else
      var step := Next(s);
      if step.result.Raised? then Outcome(Raised(step.result.error), step.left)
      else
        assert n <= |s.rest| ==> s.rest[1..][n - 1..] == s.rest[n..];
        Skip(step.left, n - 1)
  }

  /** The loop of `take(n)`: `result.append(next(self))` n times. */
  function TakeN<T>(s: Stream<T>, n: int): (o: Outcome<seq<T>, T>)
    ensures n <= 0 ==> o == Outcome(Ok([]), s)
    ensures 0 <= n <= |s.rest| ==> o == Outcome(Ok(s.rest[..n]), Stream(s.rest[n..]))
    ensures n > |s.rest| ==> o == Outcome(Raised(StopIteration), Stream([]))
    decreases if n <= 0 then 0 else n
  {
    if n <= 0 then Outcome(Ok([]), s)
    else
      var step := Next(s);
      if step.result.Raised? then Outcome(Raised(step.result.error), step.left)
      else
        var more := TakeN(step.left, n - 1);
        assert n <= |s.rest| ==> s.rest[1..][n - 1..] == s.rest[n..];
        assert n - 1 <= |s.rest[1..]| ==> [s.rest[0]] + s.rest[1..][..n - 1] == s.rest[..n];
        if more.result.Raised? then more
        else Outcome(Ok([step.result.value] + more.result.value), more.left)
  }

  /** `take(n)` returning a list: with `n` unset (None) every remaining element,
      otherwise exactly `n` elements or StopIteration. */
  function Take<T>(s: Stream<T>, n: Option<int> := None): (o: Outcome<seq<T>, T>)
    ensures n.None? ==> o == Outcome(Ok(s.rest), Stream([]))
    ensures n.Some? && n.value <= |s.rest| ==>
              o.result.Ok? && o.result.value + o.left.rest == s.rest &&
              |o.result.value| == if n.value < 0 then 0 else n.value
    ensures n.Some? && n.value > |s.rest| ==> o == Outcome(Raised(StopIteration), Stream([]))
  {
    if n.None? then Outcome(Ok(s.rest), Stream([]))
    else TakeN(s, n.value)
  }

  /** `max(key, default)`: the first element with the largest key, or
      `default` (None unless given) when the stream is empty. Drains the stream. */
  function Max<T>(s: Stream<T>, key: T -> int, default: Option<T> := None): (o: Outcome<Option<T>, T>)
    ensures o.result.Ok? && o.left.rest == []
    ensures |s.rest| == 0 ==> o.result.value == default
    ensures |s.rest| > 0 ==>
              exists i :: 0 <= i < |s.rest| && o.result.value == Some(s.rest[i]) &&
                (forall j :: 0 <= j < |s.rest| ==> key(s.rest[j]) <= key(s.rest[i])) &&
                (forall j :: 0 <= j < i ==> key(s.rest[j]) < key(s.rest[i]))
  {
    if |s.rest| == 0 then Outcome(Ok(default), Stream([]))
    else
      var i := Extrema.FirstMaxIndex(s.rest, key);
      Outcome(Ok(Some(s.rest[i])), Stream([]))
  }

  /** `min(key, default)`: the first element with the smallest key, or
      `default` (None unless given) when the stream is empty. Drains the stream. */
  function Min<T>(s: Stream<T>, key: T -> int, default: Option<T> := None): (o: Outcome<Option<T>, T>)
    ensures o.result.Ok? && o.left.rest == []
    ensures |s.rest| == 0 ==> o.result.value == default
    ensures |s.rest| > 0 ==>
              exists i :: 0 <= i < |s.rest| && o.result.value == Some(s.rest[i]) &&
                (forall j :: 0 <= j < |s.rest| ==> key(s.rest[i]) <= key(s.rest[j])) &&
                (forall j :: 0 <= j < i ==> key(s.rest[i]) < key(s.rest[j]))
  {
    if |s.rest| == 0 then Outcome(Ok(default), Stream([]))
    else
      var i := Extrema.FirstMinIndex(s.rest, key);
      Outcome(Ok(Some(s.rest[i])), Stream([]))
  }

  /** `sorted(key, reverse)`: every remaining element, stably sorted by key,
      descending when `reverse`. Drains the stream. */
  function Sorted<T(==)>(s: Stream<T>, key: T -> int, reverse: bool := false): (o: Outcome<seq<T>, T>)
    ensures o.result.Ok? && o.left.rest == []
    ensures multiset(o.result.value) == multiset(s.rest)
    ensures Sorting.Ordered(o.result.value, key, reverse)
    ensures forall k :: Sorting.KeyClass(o.result.value, key, k) == Sorting.KeyClass(s.rest, key, k)
  {
    Outcome(Ok(Sorting.StableSort(s.rest, key, reverse)), Stream([]))
  }

  /** `functools.reduce`: fold `f` over `xs` from the left, starting at `acc`. */
  function FoldLeft<A, T>(f: (A, T) -> A, acc: A, xs: seq<T>): A
    decreases |xs|
  {
    if |xs| == 0 then acc else FoldLeft(f, f(acc, xs[0]), xs[1..])
  }

  /** `reduce(f, initial)`. An `initial` of None counts as absent: the fold is
      then seeded with the first element, and an empty stream raises TypeError.
      Drains the stream. */
  function Reduce<T>(s: Stream<T>, f: (T, T) -> T, initial: Option<T> := None): (o: Outcome<T, T>)
    ensures o.left.rest == []
    ensures o.result.Raised? <==> initial.None? && |s.rest| == 0
    ensures o.result.Raised? ==> o.result.error == TypeError
    ensures initial.Some? ==> o.result.value == FoldLeft(f, initial.value, s.rest)
    ensures initial.None? && |s.rest| > 0 ==> o.result.value == FoldLeft(f, s.rest[0], s.rest[1..])
  {
    if initial.Some? then Outcome(Ok(FoldLeft(f, initial.value, s.rest)), Stream([]))
    else if |s.rest| == 0 then Outcome(Raised(TypeError), Stream([]))
    else Outcome(Ok(FoldLeft(f, s.rest[0], s.rest[1..])), Stream([]))
  }
}
