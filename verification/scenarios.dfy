/** Concrete cases stated over the model: those of the repository's test
    suite (test/test_stream.py), and two that follow from streamer/__init__.py
    itself: one `skip` past the end (its loop) and one `reduce` with an
    initial value (its call `functools.reduce(f, self, initial)`). */
module Scenarios {
  import opened Streamer
  import StreamLaws

  const Array1: seq<int> := [1, 2, 3, 4, 5]
  const Array2: seq<int> := [2, 4, 2, 0, 1, 10]

  /** `concat`, `+` and the right-hand `+` all put the stream's elements first. */
  lemma ConcatScenario()
    ensures Take(Concat(Stream(Array1), Array2), None).result == Ok(Array1 + Array2)
    ensures Take(Add(Stream(Array1), Array2), None).result == Ok(Array1 + Array2)
    ensures Take(RAdd(Stream(Array1), Array2), None).result == Ok(Array1 + Array2)
  {
    StreamLaws.ConcatThenTake(Stream(Array1), Array2);
  }

  /** `skip(1)` then `take()` returns `array1[1:]`. */
  lemma SkipScenario()
    ensures Take(Skip(Stream(Array1), 1).left, None).result == Ok([2, 3, 4, 5])
  {
  }

  /** Skipping past the end raises StopIteration and leaves nothing. */
  lemma SkipPastEndScenario()
    ensures Skip(Stream(Array1), 6) == Outcome(Raised(StopIteration), Stream([]))
  {
  }

  /** `reduce(operator.add)` over `[1..5]` is their sum, 15. */
  lemma ReduceScenario()
    ensures Reduce(Stream(Array1), (a: int, b: int) => a + b, None).result == Ok(15)
  {
    StreamLaws.ReduceAddIsSum(Stream(Array1), None);
  }

  /** With an initial value of 10, `reduce(operator.add)` over `[1..5]` is 25. */
  lemma ReduceFromInitialScenario()
    ensures Reduce(Stream(Array1), (a: int, b: int) => a + b, Some(10)).result == Ok(25)
  {
    StreamLaws.ReduceAddIsSum(Stream(Array1), Some(10));
  }

  function Square(x: int): int { x * x }

  predicate IsOdd(x: int) { x % 2 == 1 }

  /** `map(lambda x: x ** 2)` over `[1..5]` gives the squares. */
  lemma MapScenario()
    ensures Take(Map(Stream(Array1), Square)).result == Ok([1, 4, 9, 16, 25])
  {
    assert Map(Stream(Array1), Square).rest == [1, 4, 9, 16, 25];
  }

  // `filter` and `drop` by oddness over the suffixes of `[1..5]`, one
  // element at a time, each step in its own small proof.

  lemma OddEvenOf5()
    ensures Filter(Stream([5]), IsOdd).rest == [5] && Drop(Stream([5]), IsOdd).rest == []
  {
    assert [5][1..] == [];
  }

  lemma OddEvenOf45()
    ensures Filter(Stream([4, 5]), IsOdd).rest == [5] && Drop(Stream([4, 5]), IsOdd).rest == [4]
  {
    OddEvenOf5();
    assert [4, 5][1..] == [5];
  }

  lemma OddEvenOf345()
    ensures Filter(Stream([3, 4, 5]), IsOdd).rest == [3, 5] && Drop(Stream([3, 4, 5]), IsOdd).rest == [4]
  {
    OddEvenOf45();
    assert [3, 4, 5][1..] == [4, 5];
  }

  lemma OddEvenOf2345()
    ensures Filter(Stream([2, 3, 4, 5]), IsOdd).rest == [3, 5] && Drop(Stream([2, 3, 4, 5]), IsOdd).rest == [2, 4]
  {
    OddEvenOf345();
    assert [2, 3, 4, 5][1..] == [3, 4, 5];
  }

  /** `filter(lambda x: x % 2 == 1)` keeps the odd values of `[1..5]`. */
  lemma FilterScenario()
    ensures Take(Filter(Stream(Array1), IsOdd)).result == Ok([1, 3, 5])
  {
    OddEvenOf2345();
    assert Array1[0] == 1 && IsOdd(1);
    assert Array1[1..] == [2, 3, 4, 5];
    assert Filter(Stream(Array1), IsOdd).rest == [1] + Filter(Stream([2, 3, 4, 5]), IsOdd).rest;
    assert Filter(Stream(Array1), IsOdd).rest == [1, 3, 5];
  }

  /** `drop(lambda x: x % 2 == 1)` keeps the even values of `[1..5]`. */
  lemma DropScenario()
    ensures Take(Drop(Stream(Array1), IsOdd)).result == Ok([2, 4])
  {
    OddEvenOf2345();
    assert Array1[1..] == [2, 3, 4, 5];
  }

  /** `max()` of array2 is 10. */
  lemma MaxScenario()
    ensures Max(Stream(Array2), x => x).result == Ok(Some(10))
  {
    var i :| 0 <= i < |Array2| && Max(Stream(Array2), x => x).result.value == Some(Array2[i]) &&
             forall j :: 0 <= j < |Array2| ==> Array2[j] <= Array2[i];
    assert Array2[5] <= Array2[i];
  }

  /** `min()` of array1 is 1. */
  lemma MinScenario()
    ensures Min(Stream(Array1), x => x).result == Ok(Some(1))
  {
    var k :| 0 <= k < |Array1| && Min(Stream(Array1), x => x).result.value == Some(Array1[k]) &&
             forall j :: 0 <= j < |Array1| ==> Array1[k] <= Array1[j];
    assert Array1[k] <= Array1[0];
  }
}
