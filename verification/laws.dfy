/** Laws relating the stream operations to each other and to independent
    definitions: how concatenation, mapping, filtering, zipping, skipping,
    taking, sorting, the extremes and reduction fit together. */
module StreamLaws {
  import opened Streamer
  import Sorting

  // ---------------------------------------------------------------------------
  // Concatenation
  // ---------------------------------------------------------------------------

  /** Draining a concatenation yields the stream's elements, then `other`'s,
      whichever of the three spellings built it. */
  lemma ConcatThenTake<T>(s: Stream<T>, other: seq<T>)
    ensures Take(Concat(s, other), None) == Outcome(Ok(s.rest + other), Stream([]))
    ensures Take(Add(s, other), None) == Outcome(Ok(s.rest + other), Stream([]))
    ensures Take(RAdd(s, other), None) == Outcome(Ok(s.rest + other), Stream([]))
  {
    var r := Concat(s, other).rest;
    assert r == r[..|s.rest|] + r[|s.rest|..];
  }

  /** Chained concatenations append in call order. */
  lemma ConcatAssociative<T>(s: Stream<T>, a: seq<T>, b: seq<T>)
    ensures Concat(Concat(s, a), b) == Concat(s, a + b)
  {
    var l := Concat(Concat(s, a), b).rest;
    var m := Concat(s, a).rest;
    assert m == m[..|s.rest|] + m[|s.rest|..];
    assert l == l[..|m|] + l[|m|..];
  }

  // ---------------------------------------------------------------------------
  // Element-wise combinators
  // ---------------------------------------------------------------------------

  /** Projecting the pairs of `enumerate` gives back the elements and the
      counters `start, start + 1, ...`. */
  lemma EnumerateProjections<T>(s: Stream<T>, start: int)
    ensures Map(Enumerate(s, start), (p: (int, T)) => p.1) == s
    ensures Map(Enumerate(s, start), (p: (int, T)) => p.0).rest == seq(|s.rest|, i => start + i)
  {
    var e := Enumerate(s, start);
    assert Map(e, (p: (int, T)) => p.1).rest == s.rest;
  }

  /** Two maps in a row are one map of the composed function. */
  lemma MapFusion<T, U, V>(s: Stream<T>, f: T -> U, g: U -> V)
    ensures Map(Map(s, f), g) == Map(s, x => g(f(x)))
  {
    assert Map(Map(s, f), g).rest == Map(s, x => g(f(x))).rest;
  }

  /** Mapping a concatenation maps each part. */
  lemma MapOverConcat<T, U>(s: Stream<T>, other: seq<T>, f: T -> U)
    ensures Map(Concat(s, other), f).rest == Map(s, f).rest + Map(Stream(other), f).rest
  {
    var c := Concat(s, other).rest;
    assert c == s.rest + other by {
      assert c == c[..|s.rest|] + c[|s.rest|..];
    }
  }

  /** The lists of `xss`, each of one element, flatten to those elements. */
  lemma {:induction false} FlattenSingletons<T, U>(s: Stream<T>, f: T -> U)
    ensures Flatten(Map(s, x => [f(x)]).rest) == Map(s, f).rest
    decreases |s.rest|
  {
    if |s.rest| > 0 {
      var tail := Stream(s.rest[1..]);
      FlattenSingletons(tail, f);
      assert Map(s, x => [f(x)]).rest[1..] == Map(tail, x => [f(x)]).rest;
      assert Map(s, f).rest == [f(s.rest[0])] + Map(tail, f).rest;
    }
  }

  /** `flat_map` with one-element lists is `map`. */
  lemma FlatMapOfSingletons<T, U>(s: Stream<T>, f: T -> U)
    ensures FlatMap(s, x => [f(x)]) == Map(s, f)
  {
    FlattenSingletons(s, f);
  }

  /** `flat_map` of a concatenation is the concatenation of the `flat_map`s. */
  lemma FlatMapOverConcat<T, U>(s: Stream<T>, other: seq<T>, f: T -> seq<U>)
    ensures FlatMap(Concat(s, other), f).rest == FlatMap(s, f).rest + FlatMap(Stream(other), f).rest
  {
    var mapped, mappedOther := Map(s, f).rest, Map(Stream(other), f).rest;
    calc {
      FlatMap(Concat(s, other), f).rest;
      Flatten(Map(Concat(s, other), f).rest);
      { MapOverConcat(s, other, f); }
      Flatten(mapped + mappedOther);
      { FlattenAppend(mapped, mappedOther); }
      Flatten(mapped) + Flatten(mappedOther);
    }
  }

  /** Flattening two lists of lists one after the other is flattening each. */
  lemma {:induction false} FlattenAppend<U>(a: seq<seq<U>>, b: seq<seq<U>>)
    ensures Flatten(a + b) == Flatten(a) + Flatten(b)
    decreases |a|
  {
    if |a| > 0 {
      FlattenAppend(a[1..], b);
      assert (a + b)[0] == a[0] && (a + b)[1..] == a[1..] + b;
    } else {
      assert a + b == b;
    }
  }

  // ---------------------------------------------------------------------------
  // filter and drop
  // ---------------------------------------------------------------------------

  /** `filter(p)` and `drop(p)` split the stream between them: together they
      hold every element exactly as often as the stream does. */
  lemma {:induction false} FilterDropPartition<T>(s: Stream<T>, p: T -> bool)
    ensures |Filter(s, p).rest| + |Drop(s, p).rest| == |s.rest|
    ensures multiset(Filter(s, p).rest) + multiset(Drop(s, p).rest) == multiset(s.rest)
    decreases |s.rest|
  {
    if |s.rest| > 0 {
      var tail := Stream(s.rest[1..]);
      FilterDropPartition(tail, p);
      var kept, dropped := Filter(tail, p).rest, Drop(tail, p).rest;
      FilterStep(s, p);
      DropStep(s, p);
      assert s.rest == [s.rest[0]] + tail.rest;
      if p(s.rest[0]) {
        SplitCons(s.rest[0], kept, dropped, tail.rest, Filter(s, p).rest, Drop(s, p).rest, s.rest);
      } else {
        SplitCons(s.rest[0], dropped, kept, tail.rest, Drop(s, p).rest, Filter(s, p).rest, s.rest);
      }
    }
  }

  /** One step of `filter(p)`: the head is kept exactly when it satisfies `p`. */
  lemma FilterStep<T>(s: Stream<T>, p: T -> bool)
    requires |s.rest| > 0
    ensures p(s.rest[0]) ==> Filter(s, p).rest == [s.rest[0]] + Filter(Stream(s.rest[1..]), p).rest
    ensures !p(s.rest[0]) ==> Filter(s, p).rest == Filter(Stream(s.rest[1..]), p).rest
  {
  }

  /** One step of `drop(p)`: the head is kept exactly when it fails `p`. */
  lemma DropStep<T>(s: Stream<T>, p: T -> bool)
    requires |s.rest| > 0
    ensures p(s.rest[0]) ==> Drop(s, p).rest == Drop(Stream(s.rest[1..]), p).rest
    ensures !p(s.rest[0]) ==> Drop(s, p).rest == [s.rest[0]] + Drop(Stream(s.rest[1..]), p).rest
  {
  }

  /** Putting one more element in front of one part of a split gives a split
      of the longer sequence. */
  lemma SplitCons<T>(x: T, a: seq<T>, b: seq<T>, t: seq<T>, a': seq<T>, b': seq<T>, t': seq<T>)
    requires |a| + |b| == |t| && multiset(a) + multiset(b) == multiset(t)
    requires a' == [x] + a && b' == b && t' == [x] + t
    ensures |a'| + |b'| == |t'| && |b'| + |a'| == |t'|
    ensures multiset(a') + multiset(b') == multiset(t')
    ensures multiset(b') + multiset(a') == multiset(t')
  {
  }

  /** `drop(p)` is `filter` of the negated predicate. */
  lemma {:induction false} DropIsFilterOfNegation<T>(s: Stream<T>, p: T -> bool)
    ensures Drop(s, p) == Filter(s, x => !p(x))
    decreases |s.rest|
  {
    if |s.rest| > 0 {
      DropIsFilterOfNegation(Stream(s.rest[1..]), p);
    }
  }

  /** Filtering twice by the same predicate filters once. */
  lemma {:induction false} FilterIdempotent<T>(s: Stream<T>, p: T -> bool)
    ensures Filter(Filter(s, p), p) == Filter(s, p)
    decreases |s.rest|
  {
    if |s.rest| > 0 {
      var tail := Stream(s.rest[1..]);
      FilterIdempotent(tail, p);
      var kept := Filter(tail, p);
      if p(s.rest[0]) {
        var r := Stream([s.rest[0]] + kept.rest);
        assert Stream(r.rest[1..]) == kept;
      }
    }
  }

  // ---------------------------------------------------------------------------
  // zip and zip_longest
  // ---------------------------------------------------------------------------

  /** Zipping with one other input: as long as the shorter of the two. */
  lemma ZipPairLength<T>(s: Stream<T>, other: seq<T>)
    ensures |Zip(s, [other]).rest| == if |s.rest| <= |other| then |s.rest| else |other|
    ensures forall i :: 0 <= i < |Zip(s, [other]).rest| ==> Zip(s, [other]).rest[i] == [s.rest[i], other[i]]
  {
    var r := Zip(s, [other]).rest;
    var xss := ZipInputs(s, [other]);
    assert xss[1] == other;
    forall i | 0 <= i < |r| ensures r[i] == [s.rest[i], other[i]] {
      assert r[i][0] == xss[0][i] && r[i][1] == xss[1][i];
    }
  }

  /** `zip_longest` with one other input: as long as the longer of the two. */
  lemma ZipLongestPairLength<T>(s: Stream<T>, other: seq<T>, fill: Option<T>)
    ensures |ZipLongest(s, [other], fill).rest| == if |s.rest| >= |other| then |s.rest| else |other|
  {
    var xss := ZipInputs(s, [other]);
    assert xss[1] == other;
  }

  /** `zip_longest` starts with the rows of `zip`, its cells holding the same
      elements; it is longer only where some input has run out. */
  lemma ZipLongestExtendsZip<T>(s: Stream<T>, others: seq<seq<T>>, fill: Option<T>)
    ensures |Zip(s, others).rest| <= |ZipLongest(s, others, fill).rest|
    ensures forall i, j :: 0 <= i < |Zip(s, others).rest| && 0 <= j < |others| + 1 ==>
              ZipLongest(s, others, fill).rest[i][j] == Some(Zip(s, others).rest[i][j])
  {
    LongestRowsExtendRows(ZipInputs(s, others), fill);
  }

  /** The same fact about the row functions behind `zip` and `zip_longest`. */
  lemma LongestRowsExtendRows<T>(xss: seq<seq<T>>, fill: Option<T>)
    requires |xss| > 0
    ensures |ZipRows(xss)| <= |ZipLongestRows(xss, fill)|
    ensures forall i, j :: 0 <= i < |ZipRows(xss)| && 0 <= j < |xss| ==>
              ZipLongestRows(xss, fill)[i][j] == Some(ZipRows(xss)[i][j])
  {
    var z, zl := ZipRows(xss), ZipLongestRows(xss, fill);
    assert |z| <= |xss[0]| <= |zl|;
    forall i, j | 0 <= i < |z| && 0 <= j < |xss| ensures zl[i][j] == Some(z[i][j]) {
      assert i < |xss[j]|;
    }
  }

  // ---------------------------------------------------------------------------
  // skip and take
  // ---------------------------------------------------------------------------

  /** `take(n)` and `skip(n)` pull the same `n` elements: they leave the same
      stream, what `take` returns followed by that stream is the whole stream,
      and on a shortfall both raise StopIteration. */
  lemma TakeSkipSplit<T>(s: Stream<T>, n: int)
    ensures Take(s, Some(n)).left == Skip(s, n).left
    ensures n <= |s.rest| ==> Take(s, Some(n)).result.value + Skip(s, n).left.rest == s.rest
    ensures n > |s.rest| ==>
              Take(s, Some(n)).result == Raised(StopIteration) && Skip(s, n).result == Raised(StopIteration)
  {
  }

  /** Skipping `a` then `b` elements is skipping `a + b`. */
  lemma SkipSkip<T>(s: Stream<T>, a: int, b: int)
    requires 0 <= a <= |s.rest| && 0 <= b
    ensures Skip(Skip(s, a).left, b) == Skip(s, a + b)
  {
    if a + b <= |s.rest| {
      assert s.rest[a..][b..] == s.rest[a + b..];
    }
  }

  /** A stream is traversed once: after a full `take()` a second one returns
      nothing, and so does a `take()` after any draining terminal. */
  lemma SinglePass<T>(s: Stream<T>, key: T -> int, f: (T, T) -> T, initial: Option<T>, d: Option<T>, reverse: bool)
    ensures Take(Take(s, None).left, None).result == Ok([])
    ensures Take(Max(s, key, d).left, None).result == Ok([])
    ensures Take(Min(s, key, d).left, None).result == Ok([])
    ensures Take(Sorted(s, key, reverse).left, None).result == Ok([])
    ensures Take(Reduce(s, f, initial).left, None).result == Ok([])
  {
  }

  // ---------------------------------------------------------------------------
  // max, min and sorted
  // ---------------------------------------------------------------------------

  /** The stable descending sort of a non-empty stream starts with what `max`
      returns. */
  lemma MaxIsFirstOfSortedDescending<T>(s: Stream<T>, key: T -> int, d: Option<T>)
    requires |s.rest| > 0
    ensures Max(s, key, d).result.value == Some(Sorted(s, key, true).result.value[0])
  {
    var xs := s.rest;
    var r := Sorted(s, key, true).result.value;
    assert |r| == |xs| by {
      assert |multiset(r)| == |multiset(xs)|;
    }
    var m := Max(s, key, d).result.value.value;
    var i :| 0 <= i < |xs| && m == xs[i] &&
             (forall j :: 0 <= j < |xs| ==> key(xs[j]) <= key(xs[i])) &&
             (forall j :: 0 <= j < i ==> key(xs[j]) < key(xs[i]));
    FirstExtremeHeadsSort(xs, r, key, true, i);
  }

  /** The stable ascending sort of a non-empty stream starts with what `min`
      returns. */
  lemma MinIsFirstOfSortedAscending<T>(s: Stream<T>, key: T -> int, d: Option<T>)
    requires |s.rest| > 0
    ensures Min(s, key, d).result.value == Some(Sorted(s, key, false).result.value[0])
  {
    var xs := s.rest;
    var r := Sorted(s, key, false).result.value;
    assert |r| == |xs| by {
      assert |multiset(r)| == |multiset(xs)|;
    }
    var m := Min(s, key, d).result.value.value;
    var i :| 0 <= i < |xs| && m == xs[i] &&
             (forall j :: 0 <= j < |xs| ==> key(xs[i]) <= key(xs[j])) &&
             (forall j :: 0 <= j < i ==> key(xs[i]) < key(xs[j]));
    FirstExtremeHeadsSort(xs, r, key, false, i);
  }

  /** If `xs[i]` is the first element whose key may precede every other key,
      a stable sort `r` of `xs` starts with it. */
  lemma FirstExtremeHeadsSort<T>(xs: seq<T>, r: seq<T>, key: T -> int, reverse: bool, i: int)
    requires 0 <= i < |xs| && |r| == |xs|
    requires forall j :: 0 <= j < |xs| ==> Sorting.InOrder(key, reverse, xs[i], xs[j])
    requires forall j :: 0 <= j < i ==> key(xs[j]) != key(xs[i])
    requires multiset(r) == multiset(xs)
    requires Sorting.Ordered(r, key, reverse)
    requires forall k :: Sorting.KeyClass(r, key, k) == Sorting.KeyClass(xs, key, k)
    ensures r[0] == xs[i]
  {
    // r[0] is an element of xs, and it may precede xs[i] in r: the keys agree
    assert r[0] in multiset(xs);
    var a :| 0 <= a < |xs| && xs[a] == r[0];
    assert xs[i] in multiset(r);
    var b :| 0 <= b < |r| && r[b] == xs[i];
    assert Sorting.InOrder(key, reverse, r[0], r[b]) by {
      if b > 0 { assert Sorting.InOrder(key, reverse, r[0], r[b]); }
    }
    assert Sorting.InOrder(key, reverse, xs[i], xs[a]);
    var k := key(xs[i]);
    assert key(r[0]) == k;
    Sorting.KeyClassHead(xs, key, i);
    Sorting.KeyClassHead(r, key, 0);
    assert Sorting.KeyClass(r, key, k) == Sorting.KeyClass(xs, key, k);
  }

  /** Sorting the result of `sorted` again changes nothing. */
  lemma SortedIdempotent<T>(s: Stream<T>, key: T -> int, reverse: bool)
    ensures Sorted(Stream(Sorted(s, key, reverse).result.value), key, reverse) == Sorted(s, key, reverse)
  {
    Sorting.StableSortIdempotent(s.rest, key, reverse);
  }

  /** `sorted` is the stable sort: any list that is ordered by key and keeps
      every key class of the stream is exactly what `sorted` returns. */
  lemma SortedIsTheStableSort<T>(s: Stream<T>, key: T -> int, reverse: bool, r: seq<T>)
    requires Sorting.Ordered(r, key, reverse)
    requires forall k :: Sorting.KeyClass(r, key, k) == Sorting.KeyClass(s.rest, key, k)
    ensures Sorted(s, key, reverse).result == Ok(r)
  {
    Sorting.StableSortUnique(s.rest, r, key, reverse);
  }

  // ---------------------------------------------------------------------------
  // reduce
  // ---------------------------------------------------------------------------

  /** Folding over a concatenation folds over the second part starting from the
      fold over the first. */
  lemma {:induction false} FoldLeftConcat<A, T>(f: (A, T) -> A, acc: A, xs: seq<T>, ys: seq<T>)
    ensures FoldLeft(f, acc, xs + ys) == FoldLeft(f, FoldLeft(f, acc, xs), ys)
    decreases |xs|
  {
    if |xs| == 0 {
      assert xs + ys == ys;
    } else {
      FoldLeftConcat(f, f(acc, xs[0]), xs[1..], ys);
      assert (xs + ys)[0] == xs[0];
      assert (xs + ys)[1..] == xs[1..] + ys;
    }
  }

  /** A left fold ends by combining the fold of all but the last element with
      the last element, as `functools.reduce` does on its final step. */
  lemma {:induction false} FoldLeftSnoc<A, T>(f: (A, T) -> A, acc: A, xs: seq<T>)
    requires |xs| > 0
    ensures FoldLeft(f, acc, xs) == f(FoldLeft(f, acc, xs[..|xs| - 1]), xs[|xs| - 1])
    decreases |xs|
  {
    if |xs| > 1 {
      FoldLeftSnoc(f, f(acc, xs[0]), xs[1..]);
      assert xs[..|xs| - 1][1..] == xs[1..][..|xs| - 2];
    }
  }

  /** `reduce` of a concatenation with an initial value continues from the
      `reduce` of the first part. */
  lemma ReduceOverConcat<T>(s: Stream<T>, other: seq<T>, f: (T, T) -> T, initial: T)
    ensures Reduce(Concat(s, other), f, Some(initial)).result
         == Reduce(Stream(other), f, Some(Reduce(s, f, Some(initial)).result.value)).result
  {
    var c := Concat(s, other).rest;
    assert c == s.rest + other by {
      assert c == c[..|s.rest|] + c[|s.rest|..];
    }
    FoldLeftConcat(f, initial, s.rest, other);
  }

  /** Without an initial value the first element seeds the fold. */
  lemma ReduceSeedsWithHead<T>(s: Stream<T>, f: (T, T) -> T)
    requires |s.rest| > 0
    ensures Reduce(s, f, None).result == Reduce(Stream(s.rest[1..]), f, Some(s.rest[0])).result
  {
  }

  /** Sum of `xs`, added up from the right: a definition independent of the fold. */
  function Sum(xs: seq<int>): int
    decreases |xs|
  {
    if |xs| == 0 then 0 else xs[0] + Sum(xs[1..])
  }

  lemma {:induction false} FoldAddIsSum(acc: int, xs: seq<int>)
    ensures FoldLeft((a: int, b: int) => a + b, acc, xs) == acc + Sum(xs)
    decreases |xs|
  {
    if |xs| > 0 {
      FoldAddIsSum(acc + xs[0], xs[1..]);
      assert FoldLeft((a: int, b: int) => a + b, acc, xs)
          == FoldLeft((a: int, b: int) => a + b, acc + xs[0], xs[1..]);
    }
  }

  /** `reduce(operator.add)` is the sum, plus the initial value when one is given. */
  lemma ReduceAddIsSum(s: Stream<int>, initial: Option<int>)
    requires initial.Some? || |s.rest| > 0
    ensures Reduce(s, (a: int, b: int) => a + b, initial).result
         == Ok(if initial.Some? then initial.value + Sum(s.rest) else Sum(s.rest))
  {
    if initial.Some? {
      FoldAddIsSum(initial.value, s.rest);
    } else {
      FoldAddIsSum(s.rest[0], s.rest[1..]);
    }
  }
}
