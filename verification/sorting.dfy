/** The ordering that `Stream.sorted` delegates to Python's built-in `sorted`:
    a stable sort by an integer key, ascending or (with `reverse`) descending.
    Python's sort keeps equal-key elements in their original order in both
    directions, so the result is fixed by three facts: it is ordered by key,
    it is a permutation of the input, and for every key value the elements
    carrying that key appear in their original relative order. A stable
    insertion sort is used here as the reference algorithm with those facts. */
module Sorting {

  /** `a` may stand before `b` in a list sorted by `key`. */
  predicate InOrder<T>(key: T -> int, reverse: bool, a: T, b: T) {
    if reverse then key(a) >= key(b) else key(a) <= key(b)
  }

  /** Every pair of positions is in key order. */
  ghost predicate Ordered<T>(xs: seq<T>, key: T -> int, reverse: bool) {
    forall i, j :: 0 <= i < j < |xs| ==> InOrder(key, reverse, xs[i], xs[j])
  }

  /** The elements of `xs` whose key is `k`, in their order in `xs`. A sort
      is stable exactly when it leaves every one of these unchanged. */
  function KeyClass<T>(xs: seq<T>, key: T -> int, k: int): seq<T>
    decreases |xs|
  {
    if |xs| == 0 then []
    else (if key(xs[0]) == k then [xs[0]] else []) + KeyClass(xs[1..], key, k)
  }

  /** Places `x` in front of the first element of `t` it may precede, that is,
      in front of every element with an equal key. */
  function Insert<T>(x: T, t: seq<T>, key: T -> int, reverse: bool): (r: seq<T>)
    ensures |r| == |t| + 1
    ensures r[0] == x || (|t| > 0 && r[0] == t[0])
    decreases |t|
  {
    if |t| == 0 || InOrder(key, reverse, x, t[0]) then [x] + t
    else [t[0]] + Insert(x, t[1..], key, reverse)
  }

  lemma {:induction false} InsertOrdered<T>(x: T, t: seq<T>, key: T -> int, reverse: bool)
    requires Ordered(t, key, reverse)
    ensures Ordered(Insert(x, t, key, reverse), key, reverse)
    decreases |t|
  {
    if |t| == 0 || InOrder(key, reverse, x, t[0]) {
    } else {
      var r' := Insert(x, t[1..], key, reverse);
      InsertOrdered(x, t[1..], key, reverse);
      assert InOrder(key, reverse, t[0], r'[0]);
      var r := [t[0]] + r';
      forall i, j | 0 <= i < j < |r| ensures InOrder(key, reverse, r[i], r[j]) {
        if i == 0 && j > 1 {
          assert InOrder(key, reverse, r'[0], r'[j - 1]);
        }
      }
    }
  }

  lemma {:induction false} InsertPermutes<T>(x: T, t: seq<T>, key: T -> int, reverse: bool)
    ensures multiset(Insert(x, t, key, reverse)) == multiset{x} + multiset(t)
    decreases |t|
  {
    if |t| == 0 || InOrder(key, reverse, x, t[0]) {
    } else {
      InsertPermutes(x, t[1..], key, reverse);
      assert t == [t[0]] + t[1..];
    }
  }

  lemma {:induction false} InsertKeyClass<T>(x: T, t: seq<T>, key: T -> int, reverse: bool, k: int)
    ensures KeyClass(Insert(x, t, key, reverse), key, k)
         == (if key(x) == k then [x] else []) + KeyClass(t, key, k)
    decreases |t|
  {
    var r := Insert(x, t, key, reverse);
    if |t| == 0 || InOrder(key, reverse, x, t[0]) {
      assert r[1..] == t;
    } else {
      var r' := Insert(x, t[1..], key, reverse);
      InsertKeyClass(x, t[1..], key, reverse, k);
      assert r[1..] == r';
      // x skips t[0] only when t[0]'s key differs strictly from x's
      assert key(t[0]) != key(x);
    }
  }

  /** Stable sort of `xs` by `key`. */
  function StableSort<T(==)>(xs: seq<T>, key: T -> int, reverse: bool): (r: seq<T>)
    ensures |r| == |xs|
    ensures Ordered(r, key, reverse)
    ensures multiset(r) == multiset(xs)
    ensures forall k :: KeyClass(r, key, k) == KeyClass(xs, key, k)
    decreases |xs|
  {
    if |xs| == 0 then []
    else
      var t := StableSort(xs[1..], key, reverse);
      InsertOrdered(xs[0], t, key, reverse);
      InsertPermutes(xs[0], t, key, reverse);
      assert xs == [xs[0]] + xs[1..];
      assert forall k :: KeyClass(Insert(xs[0], t, key, reverse), key, k) == KeyClass(xs, key, k) by {
        forall k ensures KeyClass(Insert(xs[0], t, key, reverse), key, k) == KeyClass(xs, key, k) {
          InsertKeyClass(xs[0], t, key, reverse, k);
        }
      }
      Insert(xs[0], t, key, reverse)
  }

  lemma {:induction false} KeyClassSound<T>(xs: seq<T>, key: T -> int, k: int, z: T)
    requires z in KeyClass(xs, key, k)
    ensures z in xs && key(z) == k
    decreases |xs|
  {
    if key(xs[0]) == k && z == xs[0] {
    } else {
      KeyClassSound(xs[1..], key, k, z);
    }
  }

  /** The first element carrying key `k` heads the key class of `k`. */
  lemma {:induction false} KeyClassHead<T>(xs: seq<T>, key: T -> int, i: int)
    requires 0 <= i < |xs|
    requires forall j :: 0 <= j < i ==> key(xs[j]) != key(xs[i])
    ensures |KeyClass(xs, key, key(xs[i]))| > 0
    ensures KeyClass(xs, key, key(xs[i]))[0] == xs[i]
    decreases i
  {
    if i > 0 {
      KeyClassHead(xs[1..], key, i - 1);
    }
  }

  /** Two ordered lists with the same key classes are equal: ordering and
      stability leave no freedom. */
  lemma {:induction false} OrderedStableUnique<T>(a: seq<T>, b: seq<T>, key: T -> int, reverse: bool)
    requires Ordered(a, key, reverse) && Ordered(b, key, reverse)
    requires forall k :: KeyClass(a, key, k) == KeyClass(b, key, k)
    ensures a == b
    decreases |a|
  {
    if |a| == 0 {
      if |b| > 0 {
        KeyClassHead(b, key, 0);
      }
    } else {
      KeyClassHead(a, key, 0);
      var ka := key(a[0]);
      assert |b| > 0 by {
        assert KeyClass(b, key, ka) == KeyClass(a, key, ka);
      }
      KeyClassHead(b, key, 0);
      var kb := key(b[0]);
      // an element of b with key ka stands after b[0], and vice versa
      var y := KeyClass(b, key, ka)[0];
      assert y in KeyClass(b, key, ka);
      KeyClassSound(b, key, ka, y);
      var jb :| 0 <= jb < |b| && b[jb] == y;
      assert InOrder(key, reverse, b[0], b[jb]) by {
        if jb > 0 { assert InOrder(key, reverse, b[0], b[jb]); }
      }
      var z := KeyClass(a, key, kb)[0];
      assert z == KeyClass(b, key, kb)[0];
      assert z in KeyClass(a, key, kb);
      KeyClassSound(a, key, kb, z);
      var ja :| 0 <= ja < |a| && a[ja] == z;
      assert InOrder(key, reverse, a[0], a[ja]) by {
        if ja > 0 { assert InOrder(key, reverse, a[0], a[ja]); }
      }
      assert ka == kb;
      assert a[0] == b[0];
      forall k ensures KeyClass(a[1..], key, k) == KeyClass(b[1..], key, k) {
        var head := if key(a[0]) == k then [a[0]] else [];
        assert KeyClass(a, key, k) == head + KeyClass(a[1..], key, k);
        assert KeyClass(b, key, k) == head + KeyClass(b[1..], key, k);
        assert KeyClass(a[1..], key, k) == KeyClass(a, key, k)[|head|..];
      }
      assert Ordered(a[1..], key, reverse) by {
        forall i, j | 0 <= i < j < |a[1..]| ensures InOrder(key, reverse, a[1..][i], a[1..][j]) {
          assert InOrder(key, reverse, a[i + 1], a[j + 1]);
        }
      }
      assert Ordered(b[1..], key, reverse) by {
        forall i, j | 0 <= i < j < |b[1..]| ensures InOrder(key, reverse, b[1..][i], b[1..][j]) {
          assert InOrder(key, reverse, b[i + 1], b[j + 1]);
        }
      }
      OrderedStableUnique(a[1..], b[1..], key, reverse);
      assert a == [a[0]] + a[1..] && b == [b[0]] + b[1..];
    }
  }

  /** `StableSort` is the only ordered arrangement that keeps every key class:
      any stable sort, Python's included, returns exactly its result. */
  lemma StableSortUnique<T>(xs: seq<T>, r: seq<T>, key: T -> int, reverse: bool)
    requires Ordered(r, key, reverse)
    requires forall k :: KeyClass(r, key, k) == KeyClass(xs, key, k)
    ensures r == StableSort(xs, key, reverse)
  {
    OrderedStableUnique(r, StableSort(xs, key, reverse), key, reverse);
  }

  /** Sorting an already sorted list changes nothing. */
  lemma StableSortIdempotent<T>(xs: seq<T>, key: T -> int, reverse: bool)
    ensures StableSort(StableSort(xs, key, reverse), key, reverse) == StableSort(xs, key, reverse)
  {
    var r := StableSort(xs, key, reverse);
    StableSortUnique(r, r, key, reverse);
  }
}
