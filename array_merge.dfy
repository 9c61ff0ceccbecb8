/**
 * The array utility: `Merge1` fills the numbers 0..9, `Merge2` concatenates two arrays and
 * returns their distinct elements in ascending order (sorted descending, duplicates removed,
 * then reversed).
 */
module ArrayMerge {
  import opened Int32

  predicate StrictlyIncreasing(s: seq<int32>) {
    forall i, j :: 0 <= i < j < |s| ==> s[i] < s[j]
  }

  predicate StrictlyDecreasing(s: seq<int32>) {
    forall i, j :: 0 <= i < j < |s| ==> s[i] > s[j]
  }

  predicate NonIncreasing(s: seq<int32>) {
    forall i, j :: 0 <= i < j < |s| ==> s[i] >= s[j]
  }

  predicate NoDuplicates(s: seq<int32>) {
    forall i, j :: 0 <= i < j < |s| ==> s[i] != s[j]
  }

  function Elements(s: seq<int32>): set<int32> {
    set x | x in s
  }

  // ---------------------------------------------------------------------------------------
  // The three steps of the final pipeline

  /** The elements of a concatenation are those of its parts. */
  lemma ElementsAppend(a: seq<int32>, b: seq<int32>)
    ensures Elements(a + b) == Elements(a) + Elements(b)
  {
  }

  /** Inserts `x` into a non-increasing list, keeping it non-increasing. */
  function InsertDescending(x: int32, s: seq<int32>): (r: seq<int32>)
    requires NonIncreasing(s)
    ensures |r| == |s| + 1
    ensures r[0] == if s == [] || s[0] <= x then x else s[0]
    ensures NonIncreasing(r)
    ensures multiset(r) == multiset(s) + multiset{x}
  {
    if s == [] || s[0] <= x then
      assert NonIncreasing([x] + s) by {
        forall i, j | 0 <= i < j < |s| + 1 ensures ([x] + s)[i] >= ([x] + s)[j] {
          if i > 0 { assert ([x] + s)[i] == s[i - 1]; }
          assert ([x] + s)[j] == s[j - 1];
        }
      }
      [x] + s
    else
      assert NonIncreasing(s[1..]) by {
        forall i, j | 0 <= i < j < |s| - 1 ensures s[1..][i] >= s[1..][j] {
          assert s[1..][i] == s[i + 1] && s[1..][j] == s[j + 1];
        }
      }
      var rest := InsertDescending(x, s[1..]);
      assert s[0] >= rest[0];
      var r := [s[0]] + rest;
      assert NonIncreasing(r) by {
        forall i, j | 0 <= i < j < |r| ensures r[i] >= r[j] {
          assert r[j] == rest[j - 1];
          if i > 0 { assert r[i] == rest[i - 1]; } else { assert rest[0] >= rest[j - 1]; }
        }
      }
      assert s == [s[0]] + s[1..];
      r
  }

  /** `OrderDescending()`: the same elements, largest first. */
  function OrderDescending(s: seq<int32>): (r: seq<int32>)
    ensures NonIncreasing(r)
    ensures multiset(r) == multiset(s)
  {
    if s == [] then []
    else
      assert s == [s[0]] + s[1..];
      InsertDescending(s[0], OrderDescending(s[1..]))
  }

  /** Appending an element smaller than every element keeps a list strictly decreasing. */
  lemma AppendSmaller(d: seq<int32>, last: int32)
    requires StrictlyDecreasing(d)
    requires forall k :: 0 <= k < |d| ==> d[k] > last
    ensures StrictlyDecreasing(d + [last])
  {
  }

  /** Appending an element that is not yet present keeps a list free of duplicates. */
  lemma AppendNew(d: seq<int32>, last: int32)
    requires NoDuplicates(d)
    requires last !in d
    ensures NoDuplicates(d + [last])
  {
  }

  /** `Distinct()`: the first occurrence of each element, in the original order. */
  function Distinct(s: seq<int32>): (r: seq<int32>)
    ensures Elements(r) == Elements(s)
    ensures NoDuplicates(r)
    ensures NonIncreasing(s) ==> StrictlyDecreasing(r)
  {
    if s == [] then []
    else
      var front := s[..|s| - 1];
      var last := s[|s| - 1];
      assert s == front + [last];
      assert NonIncreasing(s) ==> NonIncreasing(front) by {
        if NonIncreasing(s) {
          forall i, j | 0 <= i < j < |front| ensures front[i] >= front[j] {
            assert front[i] == s[i] && front[j] == s[j];
          }
        }
      }
      var d := Distinct(front);
      ElementsAppend(front, [last]);
      if last in d then
        assert Elements(s) == Elements(d) by {
          assert last in Elements(d);
        }
        d
      else
        ElementsAppend(d, [last]);
        AppendNew(d, last);
        if NonIncreasing(s) then
          assert forall k :: 0 <= k < |d| ==> d[k] > last by {
            forall k | 0 <= k < |d| ensures d[k] > last {
              assert d[k] in Elements(front);
              var m :| 0 <= m < |front| && front[m] == d[k];
              assert s[m] >= s[|s| - 1];
            }
          }
          AppendSmaller(d, last);
          d + [last]
        else
          d + [last]
  }

  /** `Reverse()` */
  function Reverse(s: seq<int32>): (r: seq<int32>)
    ensures |r| == |s|
    ensures forall i :: 0 <= i < |s| ==> r[i] == s[|s| - 1 - i]
  {
    if s == [] then [] else Reverse(s[1..]) + [s[0]]
  }

  /** `OrderDescending().Distinct().ToArray().Reverse()`: the distinct elements, ascending. */
  function SortedDistinct(s: seq<int32>): (r: seq<int32>)
    ensures StrictlyIncreasing(r)
    ensures Elements(r) == Elements(s)
  {
    var sorted := OrderDescending(s);
    assert Elements(sorted) == Elements(s) by {
      forall x ensures x in sorted <==> x in s {
        assert x in sorted <==> x in multiset(sorted);
        assert x in s <==> x in multiset(s);
      }
    }
    var distinct := Distinct(sorted);
    var r := Reverse(distinct);
    assert Elements(r) == Elements(distinct) by {
      forall x | x in distinct ensures x in r {
        var k :| 0 <= k < |distinct| && distinct[k] == x;
        assert r[|distinct| - 1 - k] == x;
      }
    }
    r
  }

  // ---------------------------------------------------------------------------------------
  // What the merge promises

  /** A strictly increasing list is determined by its set of elements. */
  lemma {:induction false} StrictlyIncreasingUnique(a: seq<int32>, b: seq<int32>)
    requires StrictlyIncreasing(a) && StrictlyIncreasing(b)
    requires Elements(a) == Elements(b)
    ensures a == b
  {
    assert NoDuplicates(a) && NoDuplicates(b);
    ElementsCount(a);
    ElementsCount(b);
    if a != [] {
      assert |b| == |a|;
      assert a[0] in Elements(b) && b[0] in Elements(a);
      assert a[0] == b[0];
      assert Elements(a[1..]) == Elements(a) - {a[0]} by {
        assert a == [a[0]] + a[1..];
      }
      assert Elements(b[1..]) == Elements(b) - {b[0]} by {
        assert b == [b[0]] + b[1..];
      }
      StrictlyIncreasingUnique(a[1..], b[1..]);
      assert a == [a[0]] + a[1..];
      assert b == [b[0]] + b[1..];
    }
  }

  /** Removing the head of a list loses one distinct element unless the head recurs. */
  lemma ElementsCons(s: seq<int32>)
    requires s != []
    ensures Elements(s) == {s[0]} + Elements(s[1..])
    ensures s[0] in s[1..] ==> Elements(s) == Elements(s[1..])
    ensures s[0] !in s[1..] ==> |Elements(s)| == |Elements(s[1..])| + 1
  {
  }

  /** Prepending an element absent from the rest neither adds nor removes duplicates. */
  lemma NoDuplicatesCons(s: seq<int32>)
    requires s != [] && s[0] !in s[1..]
    ensures NoDuplicates(s) <==> NoDuplicates(s[1..])
  {
  }

  /** A list has as many distinct elements as entries exactly when it has no duplicates. */
  lemma {:induction false} ElementsCount(s: seq<int32>)
    ensures |Elements(s)| <= |s|
    ensures |Elements(s)| == |s| <==> NoDuplicates(s)
  {
    if s == [] {
      assert Elements(s) == {};
    } else {
      var rest := s[1..];
      ElementsCount(rest);
      ElementsCons(s);
      if s[0] in rest {
        var k :| 0 <= k < |rest| && rest[k] == s[0];
        assert s[0] == s[k + 1];
      } else {
        NoDuplicatesCons(s);
      }
    }
  }

  /** The merge holds each element of either array once, in ascending order. */
  lemma MergeIsSortedUnion(a: seq<int32>, b: seq<int32>)
    ensures StrictlyIncreasing(SortedDistinct(a + b))
    ensures Elements(SortedDistinct(a + b)) == Elements(a) + Elements(b)
  {
  }

  /**
   * The merge is no longer than the two arrays together, and as long exactly when no
   * element occurs twice among them.
   */
  lemma MergeLength(a: seq<int32>, b: seq<int32>)
    ensures |SortedDistinct(a + b)| <= |a| + |b|
    ensures |SortedDistinct(a + b)| == |a| + |b| <==> NoDuplicates(a + b)
  {
    var r := SortedDistinct(a + b);
    ElementsCount(r);
    ElementsCount(a + b);
  }

  /** The order of the two arguments does not matter. */
  lemma MergeCommutes(a: seq<int32>, b: seq<int32>)
    ensures SortedDistinct(a + b) == SortedDistinct(b + a)
  {
    ElementsAppend(a, b);
    ElementsAppend(b, a);
    StrictlyIncreasingUnique(SortedDistinct(a + b), SortedDistinct(b + a));
  }

  /** Merging with an empty array gives the sorted distinct elements of the other. */
  lemma MergeWithEmpty(a: seq<int32>, r: seq<int32>)
    requires StrictlyIncreasing(r) && Elements(r) == Elements(a)
    ensures SortedDistinct(a + []) == r
  {
    assert a + [] == a;
    StrictlyIncreasingUnique(SortedDistinct(a), r);
  }

  // ---------------------------------------------------------------------------------------
  // The methods

  /** A new array holding 0, 1, ..., 9. */
  method Merge1() returns (numbers: array<int32>)
    ensures fresh(numbers)
    ensures numbers.Length == 10
    ensures forall i :: 0 <= i < 10 ==> numbers[i] as int == i
  {
    numbers := new int32[10];
    for i := 0 to 10
      invariant forall k :: 0 <= k < i ==> numbers[k] as int == k
    {
      numbers[i] := i as int32;
    }
  }

  /**
   * Copies `value1` and then `value2` into one buffer with a shared running index, and
   * returns the buffer's distinct elements in ascending order. The inputs are not modified.
   */
  method Merge2(value1: array<int32>, value2: array<int32>) returns (r: array<int32>)
    ensures fresh(r)
    ensures r[..] == SortedDistinct(value1[..] + value2[..])
  {
    var numbers := new int32[value1.Length + value2.Length];
    var i := 0;
    while i < value1.Length
      invariant 0 <= i <= value1.Length
      invariant numbers[..i] == value1[..i]
    {
      numbers[i] := value1[i];
      i := i + 1;
    }
    var j := 0;
    while j < value2.Length
      invariant 0 <= j <= value2.Length
      invariant i == value1.Length + j
      invariant numbers[..i] == value1[..] + value2[..j]
    {
      numbers[i] := value2[j];
      i := i + 1;
      j := j + 1;
    }
    assert value2[..j] == value2[..];
    assert numbers[..] == numbers[..i];
    var result := SortedDistinct(numbers[..]);
    r := new int32[|result|](k requires 0 <= k < |result| => result[k]);
    assert r[..] == result;
  }
}
