/**
 * The greatest-difference calculator: the range `max - min` of a list of C# `int`s, computed
 * with `int`'s unchecked wrap-around, and published through `OnDifferenceCalculated`.
 */
module GreatestDifference {
  import opened Wrappers
  import opened Events
  import opened Int32

  /** `numbers.Min()` */
  function Min(numbers: seq<int32>): (m: int32)
    requires |numbers| > 0
    ensures m in numbers
    ensures forall x :: x in numbers ==> m <= x
  {
    if |numbers| == 1 then numbers[0]
    else
      var rest := Min(numbers[1..]);
      assert numbers == [numbers[0]] + numbers[1..];
      if numbers[0] <= rest then numbers[0] else rest
  }

  /** `numbers.Max()` */
  function Max(numbers: seq<int32>): (m: int32)
    requires |numbers| > 0
    ensures m in numbers
    ensures forall x :: x in numbers ==> x <= m
  {
    if |numbers| == 1 then numbers[0]
    else
      var rest := Max(numbers[1..]);
      assert numbers == [numbers[0]] + numbers[1..];
      if rest <= numbers[0] then numbers[0] else rest
  }

  /** The value `CalculateDifference` returns: 0 for a `null` or empty list, else `max - min` in `int`. */
  function GreatestDifference(numbers: Option<seq<int32>>): (r: int32)
    ensures numbers.None? || numbers.value == [] ==> r == 0
    ensures numbers.Some? && numbers.value != [] ==>
      exists hi, lo :: hi in numbers.value && lo in numbers.value &&
        (forall z :: z in numbers.value ==> lo <= z <= hi) &&
        (r as int - (hi as int - lo as int)) % Modulus == 0
  {
    if numbers.None? || |numbers.value| == 0 then 0
    else
      var hi, lo := Max(numbers.value), Min(numbers.value);
      assert hi in numbers.value && lo in numbers.value;
      Wrap(hi as int - lo as int)
  }

  /**
   * When the range fits in an `int`, the result is that range: non-negative, and no
   * difference of two elements exceeds it.
   */
  lemma RangeBoundsEveryPair(numbers: seq<int32>)
    requires |numbers| > 0
    requires Max(numbers) as int - Min(numbers) as int < 0x8000_0000
    ensures var r := GreatestDifference(Some(numbers));
      r as int == Max(numbers) as int - Min(numbers) as int &&
      r >= 0 &&
      forall x, y :: x in numbers && y in numbers ==> x as int - y as int <= r as int
  {
  }

  /** When the range does not fit, the C# subtraction wraps round to a negative result. */
  lemma WideRangeWrapsNegative(numbers: seq<int32>)
    requires |numbers| > 0
    requires Max(numbers) as int - Min(numbers) as int >= 0x8000_0000
    ensures GreatestDifference(Some(numbers)) as int == Max(numbers) as int - Min(numbers) as int - Modulus
    ensures GreatestDifference(Some(numbers)) < 0
  {
  }

  /** A concrete input on which the returned difference is negative. */
  lemma WrapWitness()
    ensures GreatestDifference(Some([-0x8000_0000, 0])) == -0x8000_0000
  {
  }

  /** One element: the difference is 0. */
  lemma SingletonRange(x: int32)
    ensures GreatestDifference(Some([x])) == 0
  {
  }

  /** The result depends on the multiset of the list, not on its order. */
  lemma PermutationInvariant(numbers: seq<int32>, other: seq<int32>)
    requires multiset(numbers) == multiset(other)
    ensures GreatestDifference(Some(numbers)) == GreatestDifference(Some(other))
  {
    if |numbers| > 0 {
      assert |other| == |multiset(other)| == |multiset(numbers)| == |numbers|;
      assert forall x :: x in numbers <==> x in other by {
        forall x ensures x in numbers <==> x in other {
          assert x in numbers <==> x in multiset(numbers);
          assert x in other <==> x in multiset(other);
        }
      }
      assert Min(numbers) <= Min(other) && Min(other) <= Min(numbers);
      assert Max(numbers) <= Max(other) && Max(other) <= Max(numbers);
    } else {
      assert |other| == |multiset(other)| == 0;
    }
  }

  /** Any bounds attained by the list, when less than 2^31 apart, are exactly its range. */
  lemma AttainedBounds(numbers: seq<int32>, lo: int32, hi: int32)
    requires lo in numbers && hi in numbers
    requires forall x :: x in numbers ==> lo <= x <= hi
    requires hi as int - lo as int < 0x8000_0000
    ensures GreatestDifference(Some(numbers)) as int == hi as int - lo as int
  {
    assert Max(numbers) == hi && Min(numbers) == lo;
  }

  /** The first three example inputs. */
  lemma ProgramScenario()
    ensures GreatestDifference(Some([1, 1, 4])) == 3
    ensures GreatestDifference(Some([9, 8])) == 1
    ensures GreatestDifference(Some([6, 22, 16, 29, 23])) == 23
  {
    AttainedBounds([1, 1, 4], 1, 4);
    AttainedBounds([9, 8], 8, 9);
    AttainedBounds([6, 22, 16, 29, 23], 6, 29);
  }

  /** The fourth example input: its range runs from 3 up to 28. */
  lemma ProgramScenarioLongList()
    ensures GreatestDifference(Some([28, 16, 28, 11, 14, 26, 23, 25, 17, 3, 22, 23, 23, 10])) == 25
  {
    AttainedBounds([28, 16, 28, 11, 14, 26, 23, 25, 17, 3, 22, 23, 23, 10], 3, 28);
  }

  class GreatestDifferenceCalculator {
    /** `OnDifferenceCalculated` */
    const onDifferenceCalculated: Event<int32>

    constructor()
      ensures fresh(onDifferenceCalculated)
      ensures onDifferenceCalculated.handlers == [] && onDifferenceCalculated.deliveries == []
    {
      onDifferenceCalculated := new Event<int32>();
    }

    /** Hands `difference` to each subscriber in subscription order. */
    method TriggerDifferenceCalculated(difference: int32)
      modifies onDifferenceCalculated
      ensures onDifferenceCalculated.handlers == old(onDifferenceCalculated.handlers)
      ensures onDifferenceCalculated.deliveries
           == old(onDifferenceCalculated.deliveries) + Fanout(old(onDifferenceCalculated.handlers), difference)
    {
      onDifferenceCalculated.Invoke(difference);
    }

    /**
     * Returns 0 for a `null` or empty list without raising the event; otherwise computes
     * `max - min`, raises the event once with it and returns it.
     */
    method CalculateDifference(numbers: Option<seq<int32>>) returns (r: int32)
      modifies onDifferenceCalculated
      ensures r == GreatestDifference(numbers)
      ensures onDifferenceCalculated.handlers == old(onDifferenceCalculated.handlers)
      ensures onDifferenceCalculated.deliveries
           == old(onDifferenceCalculated.deliveries)
              + if numbers.Some? && |numbers.value| > 0
                then Fanout(old(onDifferenceCalculated.handlers), r)
                else []
    {
      if numbers.None? || |numbers.value| == 0 {
        return 0;
      }
      var min := Min(numbers.value);
      var max := Max(numbers.value);
      var difference := Wrap(max as int - min as int);
      TriggerDifferenceCalculated(difference);
      r := difference;
    }
  }
}
