# Sequence checkers, in Dafny

A model of the four example programs that contain logic. Each one is stated and proved in Dafny:

- **Occurrence-threshold checking** (ExampleOne). `CheckConditions.CountOccurrences` is true when an item occurs at least `threshold` times. It is injected into a checker as a `CheckCondition<T>` delegate. The checker's base rejects a `null` delegate and keeps the one it is given. `NumberChecker.Contains` forwards to the delegate. `EventDrivenChecker.Contains` forwards and then raises `OnConditionChecked` with `"The condition was checked and the result is True|False"`.
- **Same-difference checking** (ExampleThree). `Validate` (`numbers?.Count > 1`) comes first. Then `GetDifferences` derives the differences. The verdict is "exactly one distinct difference". `OnDifferenceChecked` is raised with the checked sequence and the verdict. `CheckAsync` runs a fresh checker on each test case in turn and yields the verdicts in input order.
- **Greatest difference** (ExampleTwo). `CalculateDifference` returns 0 for a `null` or empty list. Otherwise it returns `max - min`, computed in C# `int`, and raises `OnDifferenceCalculated` with that value.
- **Array merge** (ExampleFour). `Merge1` fills a new array with 0..9. `Merge2` copies both arrays into one buffer with a shared running index. It returns `OrderDescending().Distinct().ToArray().Reverse()` of the buffer.

Modules:

- `Wrappers`: `Option` (for `null`), `Result`, and the exceptions raised.
- `Int32`: C# `int` and its unchecked wrap-around.
- `Counting`: the number of elements of a list equal to a given value, shared by the occurrence check and the event invocation lists.
- `Events`: a C# `event Action<M>`. It has an ordered invocation list of handler identities and a log of every delivery. `Received` gives what one handler has been handed.
- `OccurrenceChecking`: ExampleOne.
- `SameDifference`: ExampleThree.
- `GreatestDifference`: ExampleTwo.
- `ArrayMerge`: ExampleFour.

Objects whose state changes in place are classes:

- the event objects;
- the checkers and the calculator that own them. The condition reference is `const` because `ConditionChecker` is a get-only property. The events are field-like, and the classes never reassign their event fields. So each `Event` reference is `const`, while the invocation list behind it is mutable.

There are no traits here, so the abstract bases (`NumberCheckerBase<T>`, `DifferenceCheckerBase<T>`, `DifferenceCalculatorBase`) are folded into their concrete classes. The base constructor's `null` check is the function `RequireCondition`. The factory methods `NewNumberChecker` and `NewEventDrivenChecker` use it.

The two ExampleThree derivations:

- `GetDifferences` is modelled as written: a stub that throws `NotImplementedException`, so every validated input fails.
- `SuccessiveDifferences` (`d[i] = s[i+1] - s[i]`) is the derivation the method's name and the `INumber<T>` constraint point to.

The verdict (`Consistency`) is parametric in the derivation, and so are the checker class and `CheckAsync`. The lemmas fall into three groups:

- for any derivation: `ConsistencyPaths`, `EvaluateInOrder`, `EvaluateStopsAtFailure` and `EvaluateAfterFailure`;
- for the shipped stub: `ShippedCheckerFails`, `ShippedEvaluate` and `StubCounterexample`;
- for successive differences only: `PairIsConsistent`, `ConsistentIffArithmeticProgression`, `ProgramScenario` and `EvaluateSuccessive`.

`GetDifferences` throws `NotImplementedException`, and the model follows the code, so the shipped checker fails on every validated input.

C# events are multicast. Every subscribed handler, counted with multiplicity, is handed the message once per subscription, in subscription order.

## Model

| member | source | states |
|---|---|---|
| `Int32.Wrap` | ExampleTwo/GreatestDifferenceCalculator.cs:12 | the unchecked `int` result is congruent to the exact one modulo 2^32; it equals the exact one when that fits in `int`, and equals it minus 2^32 when it overflows by less than 2^32 |
| `Events.Fanout` | ExampleThree/DifferenceCheckerBase.cs:11 | raising an event hands exactly the given message to each handler of the invocation list, once each, in list order |
| `Events.Received` | ExampleThree/DifferenceCheckerBase.cs:11 | a handler's observations are no longer than the log, each one was delivered to that handler, and a handler the log never names has observed nothing |
| `Events.LastIndex` | ExampleOne/EventDrivenChecker.cs:4 | for a handler in the list, the position of its last occurrence: it holds the handler and nothing after it does |
| `Events.RemoveLast` | ExampleOne/EventDrivenChecker.cs:4 | `-=` removes the last occurrence of the handler and keeps every other handler in its order, so its subscription count drops by one; a list without it is unchanged |
| `Events.RemoveLastExamples` | ExampleOne/EventDrivenChecker.cs:4 | `[1, 2] - 1` is `[2]`, `[1, 2, 1] - 1` is `[1, 2]`, and `[1, 2] - 3` is `[1, 2]` |
| `Events.ReceivedFanout` | ExampleThree/DifferenceCheckerBase.cs:11 | one raise hands a given handler one copy of the message per subscription, and nothing else |
| `Events.InvokeDeliversToEach` | ExampleOne/EventDrivenChecker.cs:10 | after a raise, each handler's observations are its earlier ones plus one copy of the message per subscription; an unsubscribed handler sees nothing new |
| `Events.Event.constructor` | ExampleOne/EventDrivenChecker.cs:4 | an event field starts with no subscribers and no deliveries |
| `Events.Event.Subscribe` | ExampleOne/Program.cs:20 | `+=` appends the handler to the invocation list and delivers nothing |
| `Events.Event.Unsubscribe` | ExampleOne/EventDrivenChecker.cs:4 | `-=` makes the invocation list `RemoveLast` of the old one, removing the last subscription of the handler with the rest in order, and delivers nothing |
| `Events.Event.Invoke` | ExampleTwo/DifferenceCalculatorBase.cs:17 | `?.Invoke(m)` leaves the invocation list unchanged and appends exactly one delivery of `m` per handler, in list order; with no subscribers it changes nothing |
| `Counting.CountIsMultiplicity` | ExampleOne/CheckConditions.cs:17 | the counted number of elements equal to the item is the item's multiplicity in the collection |
| `OccurrenceChecking.CountOccurrencesMeaning` | ExampleOne/CheckConditions.cs:12-18 | `CountOccurrences(c, x, k)` holds if and only if `x` occurs at least `k` times in `c` |
| `OccurrenceChecking.NonPositiveThresholdHolds` | ExampleOne/CheckConditions.cs:17 | every collection, the empty one included, meets a threshold of zero or less |
| `OccurrenceChecking.ThresholdMonotone` | ExampleOne/CheckConditions.cs:17 | a collection that meets a threshold meets every lower threshold |
| `OccurrenceChecking.AbsentItem` | ExampleOne/CheckConditions.cs:17 | for an item that does not occur, the result is true exactly when the threshold is at most 0 |
| `OccurrenceChecking.PermutationInvariant` | ExampleOne/CheckConditions.cs:17 | collections with the same multiset give the same result for every item and threshold |
| `OccurrenceChecking.AppendOccurrence` | ExampleOne/CheckConditions.cs:17 | one more copy of the item raises its count by exactly one, so a true result stays true |
| `OccurrenceChecking.RequireCondition` | ExampleOne/NumberCheckerBase.cs:5-7 | a `null` condition fails with `ArgumentNullException("conditionChecker")`; any other condition is kept exactly |
| `OccurrenceChecking.NumberChecker.constructor` | ExampleOne/NumberChecker.cs:4 | the checker holds exactly the condition it was given, for its whole lifetime |
| `OccurrenceChecking.NumberChecker.Contains` | ExampleOne/NumberChecker.cs:6-8 | the answer is the injected condition applied to the arguments; nothing is modified |
| `OccurrenceChecking.NewNumberChecker` | ExampleOne/NumberCheckerBase.cs:6 | construction fails, and yields no checker, exactly when the condition is `null`; otherwise a new checker holds that condition |
| `OccurrenceChecking.ContainsByCount` | ExampleOne/Program.cs:9-12 | a `NumberChecker` built on `CountOccurrences` answers true exactly when the item occurs at least `minOccurrences` times |
| `OccurrenceChecking.ProgramScenario` | ExampleOne/Program.cs:6-14 | on `[1, ..., 10, 1]`: 4 and 5 do not occur twice, and 1 does |
| `OccurrenceChecking.ResultMessage` | ExampleOne/EventDrivenChecker.cs:10 | the message is `"The condition was checked and the result is "` followed by `True` exactly when the result is true and by `False` exactly when it is false |
| `OccurrenceChecking.ResultMessageDeterminesResult` | ExampleOne/EventDrivenChecker.cs:10 | the published message determines the result it reports |
| `OccurrenceChecking.EventDrivenChecker.constructor` | ExampleOne/EventDrivenChecker.cs:5-6 | the checker holds the condition it was given, and its `OnConditionChecked` starts with no subscribers |
| `OccurrenceChecking.EventDrivenChecker.Contains` | ExampleOne/EventDrivenChecker.cs:8-12 | returns the condition's result; every subscriber is handed one message stating that same result; nothing else changes |
| `OccurrenceChecking.NewEventDrivenChecker` | ExampleOne/NumberCheckerBase.cs:5-7 | construction fails exactly when the condition is `null`; otherwise a new checker with that condition and no subscribers |
| `SameDifference.Validate` | ExampleThree/IDifferenceCalculator.cs:10 | a list passes validation exactly when it is not `null` and has at least one adjacent pair, that is, at least one difference |
| `SameDifference.ValidateDependsOnLengthOnly` | ExampleThree/IDifferenceCalculator.cs:10 | validation passes exactly for lists of two or more elements, whatever their values |
| `SameDifference.GetDifferences` | ExampleThree/SameDifferenceChecker.cs:16-19 | the shipped derivation fails with `NotImplementedException` on every input |
| `SameDifference.SuccessiveDifferences` | ExampleThree/SameDifferenceChecker.cs:16-19 | for two or more numbers, one difference per adjacent pair, `d[i] = s[i+1] - s[i]`; none for fewer |
| `SameDifference.SingleDistinct` | ExampleThree/SameDifferenceChecker.cs:9 | `Distinct().Count() == 1` holds if and only if the difference list is non-empty and every difference equals the first |
| `SameDifference.SingleDistinctMeansConstant` | ExampleThree/SameDifferenceChecker.cs:9 | a set of values drawn from a list has exactly one element if and only if the list is non-empty and every entry equals the first |
| `SameDifference.EmptyDifferencesInconsistent` | ExampleThree/SameDifferenceChecker.cs:9 | an empty difference list gives `false` |
| `SameDifference.Consistency` | ExampleThree/SameDifferenceChecker.cs:3-14 | without validation the result is `false`; after validation it is an exception exactly when the derivation throws, and then the same exception; it is `true` exactly when the list is validated and its derived differences are non-empty and all equal |
| `SameDifference.ConsistencyPaths` | ExampleThree/SameDifferenceChecker.cs:6-13 | without validation the result is `false` with no notification; a failed derivation propagates its exception with no notification; otherwise the result is the distinct-count verdict |
| `SameDifference.ShippedCheckerFails` | ExampleThree/SameDifferenceChecker.cs:16-19 | with the shipped stub, every validated input raises `NotImplementedException` and nothing is published; other inputs give `false` |
| `SameDifference.StubCounterexample` | ExampleThree/SameDifferenceChecker.cs:16-19 | `[9, 8]` raises `NotImplementedException` with the stub and is consistent with successive differences |
| `SameDifference.ConsistentIffArithmeticProgression` | ExampleThree/SameDifferenceChecker.cs:6-9 | with successive differences, a list is consistent if and only if it has two or more elements, all on one arithmetic progression |
| `SameDifference.PairIsConsistent` | ExampleThree/SameDifferenceChecker.cs:6-9 | with successive differences, every two-element list is consistent |
| `SameDifference.ProgramScenario` | ExampleThree/Program.cs:10-15 | with successive differences, `[1, 1, 4]`, `[6, 22, 16, 29, 23]` and `[28, 16, 28, 11, 14, 26, 23, 25, 17, 3, 22, 23, 23, 10]` are inconsistent and `[9, 8]` is consistent |
| `SameDifference.SameDifferenceChecker.constructor` | ExampleThree/DifferenceCheckerBase.cs:6 | a new checker's `OnDifferenceChecked` has no subscribers |
| `SameDifference.SameDifferenceChecker.Notify` | ExampleThree/DifferenceCheckerBase.cs:10-12 | every subscriber is handed the message unchanged, once per subscription, in order; nothing else changes |
| `SameDifference.SameDifferenceChecker.IsConsistent` | ExampleThree/SameDifferenceChecker.cs:3-14 | returns the verdict of `Consistency`; subscribers are notified once, with the sequence and that verdict, exactly on the validated path where the derivation succeeds |
| `SameDifference.Evaluate` | ExampleThree/DifferenceCheckerAsync.cs:4-5 | a stream has no more results than test cases, and exactly one per test case when it ends without an exception |
| `SameDifference.EvaluateInOrder` | ExampleThree/DifferenceCheckerAsync.cs:4-5 | result `i` is the verdict on test case `i` |
| `SameDifference.EvaluateStopsAtFailure` | ExampleThree/DifferenceCheckerAsync.cs:4-5 | a stream that ends in an exception ends at the test case that raised it, after the results of all earlier cases |
| `SameDifference.EvaluateAfterFailure` | ExampleThree/DifferenceCheckerAsync.cs:4-5 | test cases after the failing one have no effect on the stream |
| `SameDifference.EvaluateSuccessive` | ExampleThree/DifferenceCheckerAsync.cs:3-6 | with successive differences, the stream has one result per test case, and result `i` says whether case `i` is an arithmetic progression |
| `SameDifference.ShippedEvaluate` | ExampleThree/DifferenceCheckerAsync.cs:3-6 | with the shipped stub, the stream yields `false` for each leading list shorter than two; it ends with `NotImplementedException` at the first longer list, and only if there is one |
| `SameDifference.CheckAsync` | ExampleThree/DifferenceCheckerAsync.cs:3-7 | checking each test case in turn with a fresh checker produces exactly the stream `Evaluate` describes |
| `GreatestDifference.Min` | ExampleTwo/GreatestDifferenceCalculator.cs:10 | the minimum is an element and no element is smaller |
| `GreatestDifference.Max` | ExampleTwo/GreatestDifferenceCalculator.cs:11 | the maximum is an element and no element is larger |
| `GreatestDifference.GreatestDifference` | ExampleTwo/GreatestDifferenceCalculator.cs:8-12 | a `null` or empty list gives 0; otherwise there are a largest and a smallest element, and the result is congruent to their difference modulo 2^32 |
| `GreatestDifference.AttainedBounds` | ExampleTwo/GreatestDifferenceCalculator.cs:10-12 | if two elements bound every element from below and above and lie less than 2^31 apart, the result is exactly their difference |
| `GreatestDifference.RangeBoundsEveryPair` | ExampleTwo/GreatestDifferenceCalculator.cs:10-12 | when `max - min` fits in `int`, the result is that value; it is non-negative, and no difference of two elements exceeds it |
| `GreatestDifference.WideRangeWrapsNegative` | ExampleTwo/GreatestDifferenceCalculator.cs:12 | when `max - min` does not fit in `int`, the result is that value minus 2^32, which is negative |
| `GreatestDifference.WrapWitness` | ExampleTwo/GreatestDifferenceCalculator.cs:12 | `[int.MinValue, 0]` gives `int.MinValue` |
| `GreatestDifference.SingletonRange` | ExampleTwo/GreatestDifferenceCalculator.cs:10-12 | a one-element list gives 0 |
| `GreatestDifference.PermutationInvariant` | ExampleTwo/GreatestDifferenceCalculator.cs:10-11 | lists with the same multiset give the same result |
| `GreatestDifference.ProgramScenario` | ExampleTwo/Program.cs:10-12 | `[1, 1, 4]` gives 3, `[9, 8]` gives 1, `[6, 22, 16, 29, 23]` gives 23 |
| `GreatestDifference.ProgramScenarioLongList` | ExampleTwo/Program.cs:13 | `[28, 16, 28, 11, 14, 26, 23, 25, 17, 3, 22, 23, 23, 10]` gives 25 |
| `GreatestDifference.GreatestDifferenceCalculator.constructor` | ExampleTwo/DifferenceCalculatorBase.cs:9 | a new calculator's `OnDifferenceCalculated` has no subscribers |
| `GreatestDifference.GreatestDifferenceCalculator.TriggerDifferenceCalculated` | ExampleTwo/DifferenceCalculatorBase.cs:16-18 | every subscriber is handed exactly the difference, once per subscription, in order; with none, nothing changes |
| `GreatestDifference.GreatestDifferenceCalculator.CalculateDifference` | ExampleTwo/GreatestDifferenceCalculator.cs:5-15 | a `null` or empty list returns 0 and raises nothing; otherwise it returns `max - min` in `int`, and each subscriber is handed that same value once |
| `ArrayMerge.InsertDescending` | ExampleFour/OderArrayCalculator.cs:29 | inserting into a non-increasing list keeps it non-increasing and adds exactly that element |
| `ArrayMerge.OrderDescending` | ExampleFour/OderArrayCalculator.cs:29 | `OrderDescending` gives a non-increasing permutation of its input |
| `ArrayMerge.Distinct` | ExampleFour/OderArrayCalculator.cs:29 | `Distinct` keeps the same set of elements without duplicates; applied to a non-increasing list it gives a strictly decreasing one |
| `ArrayMerge.Reverse` | ExampleFour/OderArrayCalculator.cs:29 | `Reverse` puts element `i` at position `n - 1 - i` |
| `ArrayMerge.SortedDistinct` | ExampleFour/OderArrayCalculator.cs:29 | the pipeline gives a strictly increasing list with exactly the elements of its input |
| `ArrayMerge.StrictlyIncreasingUnique` | ExampleFour/OderArrayCalculator.cs:29 | two strictly increasing lists with the same elements are equal, so the pipeline's result is determined by the input's element set |
| `ArrayMerge.ElementsCount` | ExampleFour/OderArrayCalculator.cs:18 | a list has at most as many distinct elements as entries, and exactly as many if and only if it has no duplicates |
| `ArrayMerge.MergeIsSortedUnion` | ExampleFour/OderArrayCalculator.cs:18-29 | the merge of two arrays is strictly increasing and its elements are the union of theirs |
| `ArrayMerge.MergeLength` | ExampleFour/OderArrayCalculator.cs:18-29 | the merge is at most as long as both arrays together, and exactly as long if and only if no element occurs twice among them |
| `ArrayMerge.MergeCommutes` | ExampleFour/OderArrayCalculator.cs:29 | swapping the two arrays gives the same merge |
| `ArrayMerge.MergeWithEmpty` | ExampleFour/OderArrayCalculator.cs:29 | merging with an empty array gives the sorted distinct elements of the other |
| `ArrayMerge.Merge1` | ExampleFour/OderArrayCalculator.cs:6-14 | a new array of length 10 with `a[i] == i` |
| `ArrayMerge.Merge2` | ExampleFour/OderArrayCalculator.cs:16-31 | after the two copy loops the buffer is `value1 ++ value2`; the result is a new array holding the distinct elements of that buffer in ascending order; the inputs are not modified |

## Left out

- Entry points and console output (`Program.cs` of every example) are not modelled. Their test inputs appear only as the `ProgramScenario` lemmas and `GreatestDifference.ProgramScenarioLongList`. ExampleFive (`Class.cs`, a `yield` demo that prints) is not part of this model, nor is the `CalculationResult` record, which only formats text.
- C# delegates and event handlers are not modelled as code. A handler is an identity (`HandlerId`), and what it does with a message is its record in the delivery log. A handler that throws, or that subscribes or unsubscribes while being invoked, is not modelled.
- The text of the ExampleThree notification (`"Checked Sequence: ... Result: ..."`) is kept as its two parts, the sequence and the verdict (`CheckedMessage`). The decimal rendering of numbers is not modelled. The ExampleOne message is modelled as exact text.
- ExampleThree is generic over `INumber<T>`, and its program uses `double`. The model uses mathematical integers, so floating point and subtraction overflow are not modelled.
- SameDifference.SameDifferenceChecker.constructor: the derivation is a constructor argument. The shipped class always uses `GetDifferences`. The proofs cover the stub and the successive-difference alternative through this parameter.
- SameDifference.CheckAsync: the model is an ordered, sequential loop that returns the whole stream once it ends. `Task.Run` scheduling, laziness and cancellation of an abandoned stream are not modelled; the source awaits each case before starting the next.
- OccurrenceChecking.EventDrivenChecker.Contains: the model does not state that the condition is evaluated only once, because a Dafny function has no observable side effects to count. The condition is also modelled as a total function, so a condition that throws is not modelled.
- A `null` collection passed to `CountOccurrences`, and a `null` array passed to `Merge2`, are not modelled. In the source both raise from LINQ or array access, and their parameters are declared non-nullable.
- `Merge1` and `Merge2` override members of a base class that is not part of this model. They are modelled as standalone methods. `ToArray()` and LINQ internals are described only by their results.
- Array lengths above `int.MaxValue` are not modelled: the buffer length `value1.Length + value2.Length` is a mathematical integer.

## Findings

| source | as written | input that shows it | evidently intended | confidence | as-written member | corrected member |
|---|---|---|---|---|---|---|
| ExampleThree/SameDifferenceChecker.cs:16-19 | `GetDifferences` throws `NotImplementedException`, so `IsConsistent` fails on every list of two or more numbers | `[9, 8]` | successive differences `s[i+1] - s[i]`, so that a list is consistent exactly when it is an arithmetic progression | not executed | `SameDifference.StubCounterexample` | `SameDifference.ConsistentIffArithmeticProgression` |
