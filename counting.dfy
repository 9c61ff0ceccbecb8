/** Counting the elements of a list that equal a given value. */
module Counting {

  /** The number of elements of `collection` equal to `item`. */
  function Count<T(==)>(collection: seq<T>, item: T): (n: nat)
  {
    if collection == [] then 0
    else (if collection[0] == item then 1 else 0) + Count(collection[1..], item)
  }

  /** The count is the multiplicity of `item` in the multiset of the list. */
  lemma {:induction false} CountIsMultiplicity<T>(collection: seq<T>, item: T)
    ensures Count(collection, item) == multiset(collection)[item]
  {
    if collection != [] {
      CountIsMultiplicity(collection[1..], item);
      assert collection == [collection[0]] + collection[1..];
    }
  }
}
