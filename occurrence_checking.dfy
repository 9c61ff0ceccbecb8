/**
 * The occurrence-threshold checkers: the `CountOccurrences` condition, the checker base that
 * holds an injected condition, the plain `NumberChecker` and the `EventDrivenChecker` that
 * publishes a message after every check.
 */
module OccurrenceChecking {
  import opened Wrappers
  import opened Events
  import opened Counting

  // ---------------------------------------------------------------------------------------
  // The condition

  /** `CountOccurrences`: does `item` occur at least `threshold` times? */
  predicate CountOccurrences<T(==)>(collection: seq<T>, item: T, threshold: int) {
    Count(collection, item) >= threshold
  }

  /** The condition holds exactly when the multiplicity of `item` reaches the threshold. */
  lemma CountOccurrencesMeaning<T>(collection: seq<T>, item: T, threshold: int)
    ensures CountOccurrences(collection, item, threshold) <==> multiset(collection)[item] >= threshold
  {
    CountIsMultiplicity(collection, item);
  }

  /** A threshold of zero or less is met by every collection, the empty one included. */
  lemma NonPositiveThresholdHolds<T>(collection: seq<T>, item: T, threshold: int)
    requires threshold <= 0
    ensures CountOccurrences(collection, item, threshold)
  {
  }

  /** Lowering the threshold never turns true into false. */
  lemma ThresholdMonotone<T>(collection: seq<T>, item: T, threshold: int, lower: int)
    requires lower <= threshold
    requires CountOccurrences(collection, item, threshold)
    ensures CountOccurrences(collection, item, lower)
  {
  }

  /** An item that does not occur passes exactly the non-positive thresholds. */
  lemma AbsentItem<T>(collection: seq<T>, item: T, threshold: int)
    requires item !in collection
    ensures CountOccurrences(collection, item, threshold) <==> threshold <= 0
  {
    CountOccurrencesMeaning(collection, item, threshold);
  }

  /** Only the multiset of the collection matters, not its order. */
  lemma PermutationInvariant<T>(collection: seq<T>, other: seq<T>, item: T, threshold: int)
    requires multiset(collection) == multiset(other)
    ensures CountOccurrences(collection, item, threshold) == CountOccurrences(other, item, threshold)
  {
    CountOccurrencesMeaning(collection, item, threshold);
    CountOccurrencesMeaning(other, item, threshold);
  }

  /** One more copy of `item` raises its count by one: false may become true, never the reverse. */
  lemma AppendOccurrence<T>(collection: seq<T>, item: T, threshold: int)
    ensures Count(collection + [item], item) == Count(collection, item) + 1
    ensures CountOccurrences(collection, item, threshold) ==> CountOccurrences(collection + [item], item, threshold)
  {
    CountIsMultiplicity(collection, item);
    CountIsMultiplicity(collection + [item], item);
  }

  // ---------------------------------------------------------------------------------------
  // The checker base: an injected, never-null, never-changing condition

  /** The delegate type `CheckCondition<T>`. */
  type CheckCondition<!T> = (seq<T>, T, int) -> bool

  /** The base constructor's guard: a `null` condition raises `ArgumentNullException`. */
  function RequireCondition<T>(conditionChecker: Option<CheckCondition<T>>)
    : (r: Result<CheckCondition<T>, Exception>)
    ensures r.Failure? <==> conditionChecker.None?
    ensures r.Failure? ==> r.error == ArgumentNullException("conditionChecker")
    ensures r.Success? ==> r.value == conditionChecker.value
  {
    match conditionChecker
    case None => Failure(ArgumentNullException("conditionChecker"))
    case Some(c) => Success(c)
  }

  class NumberChecker<T> {
    /** Get-only: fixed by the constructor for the checker's lifetime. */
    const conditionChecker: CheckCondition<T>

    constructor(conditionChecker: CheckCondition<T>)
      ensures this.conditionChecker == conditionChecker
    {
      this.conditionChecker := conditionChecker;
    }

    /** Forwards to the injected condition; changes nothing. */
    method Contains(collection: seq<T>, item: T, minOccurrences: int) returns (r: bool)
      ensures r == conditionChecker(collection, item, minOccurrences)
    {
      r := conditionChecker(collection, item, minOccurrences);
    }
  }

  /** `new NumberChecker<T>(conditionChecker)`, which throws on a `null` condition. */
  method NewNumberChecker<T>(conditionChecker: Option<CheckCondition<T>>)
    returns (r: Result<NumberChecker<T>, Exception>)
    ensures r.Failure? <==> conditionChecker.None?
    ensures r.Failure? ==> r.error == ArgumentNullException("conditionChecker")
    ensures r.Success? ==> fresh(r.value) && r.value.conditionChecker == conditionChecker.value
  {
    match RequireCondition(conditionChecker)
    case Failure(e) =>
      r := Failure(e);
    case Success(c) =>
      var checker := new NumberChecker(c);
      r := Success(checker);
  }

  /** A `NumberChecker` built on `CountOccurrences` answers the count question. */
  method ContainsByCount(collection: seq<int>, item: int, minOccurrences: int) returns (r: bool)
    ensures r <==> multiset(collection)[item] >= minOccurrences
  {
    var checker := new NumberChecker<int>(CountOccurrences);
    r := checker.Contains(collection, item, minOccurrences);
    CountOccurrencesMeaning(collection, item, minOccurrences);
  }

  /** The three checks on `[1, 2, ..., 10, 1]` with `CountOccurrences`. */
  lemma ProgramScenario(numbers: seq<int>)
    requires numbers == [1, 2, 3, 4, 5, 6, 7, 8, 9, 10, 1]
    ensures !CountOccurrences(numbers, 4, 2)
    ensures !CountOccurrences(numbers, 5, 2)
    ensures CountOccurrences(numbers, 1, 2)
  {
    CountIsMultiplicity(numbers, 4);
    CountIsMultiplicity(numbers, 5);
    CountIsMultiplicity(numbers, 1);
  }

  // ---------------------------------------------------------------------------------------
  // The event-driven checker

  /** How C# renders a `bool` in an interpolated string. */
  function BoolText(b: bool): string {
    if b then "True" else "False"
  }

  /** The message published after each check. */
  function ResultMessage(result: bool): (message: string)
    ensures |message| > 44
    ensures message[..44] == "The condition was checked and the result is "
    ensures message[44..] == "True" <==> result
    ensures message[44..] == "False" <==> !result
  {
    "The condition was checked and the result is " + BoolText(result)
  }

  /** The published message determines the result it reports. */
  lemma ResultMessageDeterminesResult(a: bool, b: bool)
    requires ResultMessage(a) == ResultMessage(b)
    ensures a == b
  {
  }

  class EventDrivenChecker<T> {
    const conditionChecker: CheckCondition<T>
    /** `OnConditionChecked` */
    const onConditionChecked: Event<string>

    constructor(conditionChecker: CheckCondition<T>)
      ensures this.conditionChecker == conditionChecker
      ensures fresh(onConditionChecked)
      ensures onConditionChecked.handlers == [] && onConditionChecked.deliveries == []
    {
      this.conditionChecker := conditionChecker;
      onConditionChecked := new Event<string>();
    }

    /**
     * Evaluates the condition once, then hands every subscriber one message reporting that
     * result, then returns it.
     */
    method Contains(collection: seq<T>, item: T, threshold: int) returns (r: bool)
      modifies onConditionChecked
      ensures r == conditionChecker(collection, item, threshold)
      ensures onConditionChecked.handlers == old(onConditionChecked.handlers)
      ensures onConditionChecked.deliveries
           == old(onConditionChecked.deliveries) + Fanout(old(onConditionChecked.handlers), ResultMessage(r))
    {
      var result := conditionChecker(collection, item, threshold);
      onConditionChecked.Invoke(ResultMessage(result));
      r := result;
    }
  }

  /** `new EventDrivenChecker<T>(conditionChecker)`, which throws on a `null` condition. */
  method NewEventDrivenChecker<T>(conditionChecker: Option<CheckCondition<T>>)
    returns (r: Result<EventDrivenChecker<T>, Exception>)
    ensures r.Failure? <==> conditionChecker.None?
    ensures r.Failure? ==> r.error == ArgumentNullException("conditionChecker")
    ensures r.Success? ==> fresh(r.value) && fresh(r.value.onConditionChecked)
    ensures r.Success? ==> r.value.conditionChecker == conditionChecker.value
    ensures r.Success? ==> r.value.onConditionChecked.handlers == []
  {
    match RequireCondition(conditionChecker)
    case Failure(e) =>
      r := Failure(e);
    case Success(c) =>
      var checker := new EventDrivenChecker(c);
      r := Success(checker);
  }
}
