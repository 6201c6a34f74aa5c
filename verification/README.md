# streamer in Dafny

A Dafny model of the `Stream` class of the Python package `streamer`
(`streamer/__init__.py`). A `Stream` wraps a single-pass iterator. Its fluent
combinators (`+`, `concat`, `enumerate`, `map`, `flat_map`, `filter`, `drop`,
`zip`, `zip_longest`) each replace the inner iterator and return `self`. Its
pulling operations (`next`, `skip`, `take`, `max`, `min`, `sorted`, `reduce`)
consume elements.

The model represents a stream by the finite sequence of elements it has
left: `Stream<T> = Stream(rest: seq<T>)`.

- Each combinator is a pure function returning the stream that `self` becomes.
  The element type may change, as it does after `map`.
- Each pulling operation returns an `Outcome(result, left)`. `result` is either
  `Ok(value)` or `Raised(error)`. `left` is the stream the call leaves behind.
- Python's `None` arguments and results are `Option` values. The two
  exceptions the stream raises itself are `StopIteration` and `TypeError`.
- Python's default arguments (`start=0`, `n=0` for `skip`, `n=None`,
  `fillvalue=None`, `default=None`, `reverse=False`, `initial=None`) are the
  same defaults on the Dafny parameters.

Modules:

- `Streamer` (streamer.dfy): the datatypes and every operation of the class.
- `Sorting` (sorting.dfy): the stable sort by key that `sorted` delegates to,
  and the proof that a stable sort's result is unique.
- `Extrema` (extrema.dfy): the first-best scans behind `max` and `min`.
- `StreamLaws` (laws.dfy): lemmas relating the operations to each other and to
  independent definitions.
- `Scenarios` (scenarios.dfy): concrete cases from the test suite, and two
  that follow from streamer/__init__.py itself: one `skip` past the end and
  one `reduce` with an initial value.

Behaviour of the code that the model follows:

- `other + s` (`__radd__`) delegates to `s + other`, so the stream's own
  elements come first. test/test_stream.py:27-28 expects exactly this.
- `take(n)` and `skip(n)` call `next` `n` times. If fewer than `n` elements are
  left, `StopIteration` escapes and the stream is left empty. They do not
  return fewer elements.
- `max` and `min` always pass `default=None` to the built-ins, so an empty
  stream yields `None` (or the given default) instead of raising.
- `reduce` treats `initial=None` as "no initial value". Without one, an empty
  stream raises `TypeError`, which is what `functools.reduce` raises.
- Among elements with equal extreme keys, `max` and `min` return the first.
  `sorted` with `reverse=True` keeps equal keys in their original order.

## Model

| member | source | states |
|---|---|---|
| `Streamer.Next` | streamer/__init__.py:32-37 | on a non-empty stream, returns the head, and head followed by the remaining elements is the old stream; on an empty stream, raises StopIteration |
| `Streamer.Add` | streamer/__init__.py:39-46 | `s + other` yields all of the stream's elements, then all of `other`'s |
| `Streamer.RAdd` | streamer/__init__.py:48-54 | `other + s` also yields the stream's elements first, then `other`'s |
| `Streamer.Concat` | streamer/__init__.py:64-70 | `concat(other)` yields the stream's elements, then `other`'s |
| `StreamLaws.ConcatThenTake` | test/test_stream.py:18-28 | draining a stream built by `concat`, `+` or the right-hand `+` returns the stream's elements followed by `other`'s, and leaves the stream empty |
| `StreamLaws.ConcatAssociative` | streamer/__init__.py:39-46 | concatenating `a` and then `b` equals concatenating `a + b` |
| `Streamer.Enumerate` | streamer/__init__.py:72-78 | same length as the stream; entry i is `(start + i, x_i)` |
| `StreamLaws.EnumerateProjections` | streamer/__init__.py:72-78 | the second components of `enumerate` give back the stream; the first components are `start, start + 1, ...` |
| `Streamer.Map` | streamer/__init__.py:80-87 | same length as the stream; entry i is `f(x_i)` |
| `StreamLaws.MapFusion` | streamer/__init__.py:80-87 | `map(f)` followed by `map(g)` equals a single map of `g` after `f` |
| `StreamLaws.MapOverConcat` | streamer/__init__.py:80-87 | mapping a concatenation equals concatenating the two mapped parts |
| `Streamer.FlatMap` | streamer/__init__.py:89-97 | yields exactly `f(x_0) + f(x_1) + ...`, the flattening of the mapped stream |
| `StreamLaws.FlatMapOfSingletons` | streamer/__init__.py:89-97 | `flat_map` with one-element lists equals `map` |
| `StreamLaws.FlatMapOverConcat` | streamer/__init__.py:89-97 | `flat_map` of a concatenation equals the concatenation of the two `flat_map`s |
| `StreamLaws.FlattenAppend` | streamer/__init__.py:96 | flattening two lists of lists one after the other equals flattening each and joining the results |
| `Streamer.Filter` | streamer/__init__.py:99-106 | every kept element satisfies `p`; the kept elements form an in-order subsequence of the stream; every element satisfying `p` is kept as often as it occurs |
| `StreamLaws.FilterIdempotent` | streamer/__init__.py:99-106 | filtering twice by the same predicate equals filtering once |
| `Streamer.Drop` | streamer/__init__.py:127-134 | every kept element fails `p`; the kept elements form an in-order subsequence of the stream; every element failing `p` is kept as often as it occurs |
| `StreamLaws.FilterDropPartition` | streamer/__init__.py:127-134 | the lengths of `filter(p)` and `drop(p)` sum to the stream's length, and their multisets add up to the stream's multiset |
| `StreamLaws.DropIsFilterOfNegation` | streamer/__init__.py:127-134 | `drop(p)` equals `filter` with the negation of `p` |
| `Streamer.ZipRows` | streamer/__init__.py:114 | Python's `zip` has as many rows as the shortest input; cell `[i][j]` is element i of input j |
| `Streamer.Zip` | streamer/__init__.py:108-115 | as long as the shortest of the stream and `others`; tuple i holds element i of the stream and then of each other input |
| `StreamLaws.ZipPairLength` | test/test_stream.py:54-56 | zipping with one list gives `min(len)` pairs `[x_i, y_i]` |
| `Streamer.ZipLongestRows` | streamer/__init__.py:124 | `itertools.zip_longest` has as many rows as the longest input; cell `[i][j]` is element i of input j, or the fill value past that input's end |
| `Streamer.ZipLongest` | streamer/__init__.py:117-125 | as long as the longest input; positions past a shorter input's end hold `fillvalue` (None unless given) |
| `StreamLaws.ZipLongestPairLength` | test/test_stream.py:57-58 | `zip_longest` with one list has `max(len)` rows |
| `StreamLaws.ZipLongestExtendsZip` | streamer/__init__.py:108-125 | `zip_longest` is at least as long as `zip`, and on `zip`'s rows it holds the same elements |
| `StreamLaws.LongestRowsExtendRows` | streamer/__init__.py:114-124 | the same fact for Python's `zip` and `itertools.zip_longest` over any inputs |
| `Streamer.Skip` | streamer/__init__.py:136-144 | `n <= 0` changes nothing; `n <= len` leaves `rest[n:]`; `n > len` raises StopIteration and leaves the stream empty |
| `StreamLaws.SkipSkip` | streamer/__init__.py:136-144 | for `0 <= a <= len` and `b >= 0`, skipping `a` and then `b` equals skipping `a + b` |
| `Streamer.TakeN` | streamer/__init__.py:163-166 | for `0 <= n <= len`, returns `rest[:n]` and leaves `rest[n:]`; for `n > len`, raises StopIteration and leaves the stream empty |
| `Streamer.Take` | streamer/__init__.py:146-166 | `take()` returns every remaining element and leaves the stream empty; `take(n)` with `n <= len` returns a prefix of length `max(n, 0)`, and the prefix followed by what is left is the old stream; a shortfall raises StopIteration |
| `StreamLaws.TakeSkipSplit` | streamer/__init__.py:136-166 | for every `n`, `take(n)` and `skip(n)` leave the same stream; for `n <= len`, what `take(n)` returns followed by what is left is the whole stream; for `n > len`, both raise StopIteration |
| `StreamLaws.SinglePass` | streamer/__init__.py:146-210 | after `take()`, `max`, `min`, `sorted` or `reduce`, a further `take()` returns `[]` |
| `Extrema.FirstMaxIndex` | streamer/__init__.py:177 | the index of an element whose key is at least every other key, and every earlier key is strictly smaller |
| `Streamer.Max` | streamer/__init__.py:168-177 | drains the stream; on an empty stream returns `default`; otherwise returns the first element whose key is at least every key |
| `StreamLaws.MaxIsFirstOfSortedDescending` | streamer/__init__.py:168-199 | on a non-empty stream, `max` returns the head of `sorted(reverse=True)` |
| `Extrema.FirstMinIndex` | streamer/__init__.py:188 | the index of an element whose key is at most every other key, and every earlier key is strictly larger |
| `Streamer.Min` | streamer/__init__.py:179-188 | drains the stream; on an empty stream returns `default`; otherwise returns the first element whose key is at most every key |
| `StreamLaws.MinIsFirstOfSortedAscending` | streamer/__init__.py:179-199 | on a non-empty stream, `min` returns the head of `sorted()` |
| `Sorting.StableSort` | streamer/__init__.py:199 | the result is ordered by key (descending when `reverse`), is a permutation of the input, and keeps each key's elements in their input order |
| `Sorting.StableSortUnique` | streamer/__init__.py:199 | any list that is ordered by key and keeps every key class equals `StableSort`'s result |
| `Sorting.StableSortIdempotent` | streamer/__init__.py:199 | sorting a sorted list returns it unchanged |
| `Streamer.Sorted` | streamer/__init__.py:190-199 | drains the stream; returns a permutation that is ordered by key (descending when `reverse`) and stable |
| `StreamLaws.SortedIsTheStableSort` | streamer/__init__.py:190-199 | `sorted` returns the only list that is ordered by key and keeps every key class |
| `StreamLaws.SortedIdempotent` | streamer/__init__.py:190-199 | applying `sorted` to the result of `sorted` returns the same list |
| `Streamer.FoldLeft` | streamer/__init__.py:209-210 | `functools.reduce`'s left fold of `f` over the elements from a seed; its properties are the lemmas below |
| `StreamLaws.FoldLeftSnoc` | streamer/__init__.py:209-210 | over a non-empty list, the fold's last step applies `f` to the fold over all but the last element and the last element |
| `Streamer.Reduce` | streamer/__init__.py:201-210 | drains the stream; raises TypeError exactly when there is no initial value and the stream is empty; with an initial value, returns the left fold from it; without one, returns the fold over the tail seeded with the first element |
| `StreamLaws.ReduceSeedsWithHead` | streamer/__init__.py:208-210 | without an initial value, `reduce` equals the fold over the tail seeded with the first element |
| `StreamLaws.FoldLeftConcat` | streamer/__init__.py:201-210 | a left fold over `xs + ys` continues over `ys` from the fold over `xs` |
| `StreamLaws.ReduceOverConcat` | streamer/__init__.py:201-210 | with an initial value, `reduce` over a concatenation continues from the `reduce` of the first part, used as the initial value of the second |
| `StreamLaws.ReduceAddIsSum` | streamer/__init__.py:208-210 | `reduce(operator.add)` is the independently defined sum, plus `initial` when one is given; without `initial` this is the test at test/test_stream.py:63-64 |
| `Scenarios.ConcatScenario` | test/test_stream.py:18-28 | the test arrays concatenate in stream-first order under all three spellings |
| `Scenarios.SkipScenario` | test/test_stream.py:60-61 | `skip(1).take()` of `[1..5]` is `[2, 3, 4, 5]` |
| `Scenarios.SkipPastEndScenario` | streamer/__init__.py:142-143 | `skip(6)` on five elements raises StopIteration and leaves nothing |
| `Scenarios.ReduceScenario` | test/test_stream.py:63-64 | `reduce(add)` of `[1..5]` is their sum, 15 |
| `Scenarios.ReduceFromInitialScenario` | streamer/__init__.py:208-209 | `reduce(add)` of `[1..5]` from initial 10 is 25 |
| `Scenarios.MapScenario` | test/test_stream.py:41-42 | `map` squaring `[1..5]` gives `[1, 4, 9, 16, 25]` |
| `Scenarios.FilterScenario` | test/test_stream.py:48-50 | `filter` keeping odd values of `[1..5]` gives `[1, 3, 5]` |
| `Scenarios.DropScenario` | test/test_stream.py:51-52 | `drop` removing odd values of `[1..5]` gives `[2, 4]` |
| `Scenarios.MaxScenario` | test/test_stream.py:38 | `max` of `[2, 4, 2, 0, 1, 10]` is 10 |
| `Scenarios.MinScenario` | test/test_stream.py:39 | `min` of `[1..5]` is 1 |

## Left out

- Laziness. The model does not capture when, or in what interleaving, user
  callbacks run. A stream is finite, so infinite iterators are not modelled.
- `take(n, as_list=False)` (streamer/__init__.py:157-162) is not modelled. It
  returns a Python generator, and running that generator past the end turns
  `StopIteration` into `RuntimeError`. That is generator machinery, not
  sequence logic.
- The constructor's type dispatch (streamer/__init__.py:15-23) is not modelled.
  A stream is built directly from a sequence. The source checks `isinstance`
  against `Iterable`/`Iterator`. Its second branch is unreachable, and an
  unsupported source leaves the iterator unset.
- The `iterator` property and `__iter__` (streamer/__init__.py:25-30, 56-62)
  are not modelled. Neither is the shared consumption of an `other` iterator
  passed to `concat`/`zip`. These concern object identity and aliasing.
- Exceptions raised by user functions are not modelled. Every callback is a
  total Dafny function.
- The aliases `stream` and `pipe` (streamer/__init__.py:213-214) are left out.
  They are plain names for the class.
- setup.py is left out. It is packaging only.
- Streamer.Max: keys are `int`, not any Python-comparable value. `key=None`
  (the identity) is the case `x => x` on an `int` stream.
- Streamer.Min: keys are `int`, for the same reason as `max`.
- Streamer.Sorted: keys are `int`, for the same reason as `max`.
- Streamer.Zip: all inputs share one element type, so tuples mixing types are
  not modelled.
- Streamer.ZipLongest: all inputs share one element type. A cell is an
  `Option`: `Some(x)` for an element, otherwise the fill value.
- Streamer.Reduce: the accumulator has the element type. Python would also
  accept an initial value of another type. A `Some(v)` initial value never
  stands for Python `None`: the source treats `initial=None` as absent
  (streamer/__init__.py:208), which the model writes only as `None`.
- StreamLaws.ReduceOverConcat: in the source the law holds only when the
  first part's result is not `None`. Line 208 treats a `None` seed as absent,
  so the second `reduce` would then start from its own first element, while
  the model's `Some(v)` seed is always present.
