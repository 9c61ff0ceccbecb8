/**
 * The same-difference checker: validation of the input, derivation of the differences,
 * the distinct-count verdict with its notification, and the ordered batch evaluation of
 * `CheckAsync`. Numbers are mathematical integers.
 */
module SameDifference {
  import opened Wrappers
  import opened Events

  // ---------------------------------------------------------------------------------------
  // Validation (the interface's default method)

  /** `numbers?.Count > 1`: a `null` list, and a list of fewer than two numbers, fail. */
  predicate Validate(numbers: Option<seq<int>>): (valid: bool)
    ensures valid <==> numbers.Some? && SuccessiveDifferences(numbers.value) != []
  {
    numbers.Some? && |numbers.value| > 1
  }

  /** Validation looks at the length only, never at the values. */
  lemma ValidateDependsOnLengthOnly(numbers: seq<int>, other: seq<int>)
    requires |numbers| == |other|
    ensures Validate(Some(numbers)) == Validate(Some(other))
    ensures Validate(Some(numbers)) <==> |numbers| >= 2
  {
  }

  // ---------------------------------------------------------------------------------------
  // Deriving the differences

  /** A derivation of the difference list; it may fail with an exception. */
  type Deriver = seq<int> -> Result<seq<int>, Exception>

  /** `GetDifferences` as written: a stub that throws for every input. */
  function GetDifferences(numbers: seq<int>): (r: Result<seq<int>, Exception>)
    ensures r.Failure? && r.error == NotImplementedException
  {
    Failure(NotImplementedException)
  }

  /** The successive differences `numbers[i + 1] - numbers[i]` the stub stands in for. */
  function SuccessiveDifferences(numbers: seq<int>): (d: seq<int>)
    ensures |d| == if |numbers| < 2 then 0 else |numbers| - 1
    ensures forall i :: 0 <= i < |d| ==> d[i] == numbers[i + 1] - numbers[i]
  {
    if |numbers| < 2 then [] else [numbers[1] - numbers[0]] + SuccessiveDifferences(numbers[1..])
  }

  /** The successive-difference derivation, which never fails. */
  function DeriveSuccessive(numbers: seq<int>): Result<seq<int>, Exception> {
    Success(SuccessiveDifferences(numbers))
  }

  // ---------------------------------------------------------------------------------------
  // The verdict

  /**
   * `differences.Distinct().Count() == 1`: exactly one distinct value, which means a
   * non-empty list whose every value equals the first.
   */
  predicate SingleDistinct(differences: seq<int>): (single: bool)
    ensures single <==> |differences| > 0 && forall i :: 0 <= i < |differences| ==> differences[i] == differences[0]
  {
    SingleDistinctMeansConstant(differences);
    |set x | x in differences| == 1
  }

  /** One distinct value in the set of the list's values means the list is constant. */
  lemma SingleDistinctMeansConstant(differences: seq<int>)
    ensures |set x | x in differences| == 1
        <==> |differences| > 0 && forall i :: 0 <= i < |differences| ==> differences[i] == differences[0]
  {
    var values := set x | x in differences;
    if |differences| > 0 && forall i :: 0 <= i < |differences| ==> differences[i] == differences[0] {
      assert values == {differences[0]};
    }
    if |values| == 1 {
      var y :| y in values;
      assert |values - {y}| == 0;
      assert values == {y};
      forall i | 0 <= i < |differences|
        ensures differences[i] == differences[0]
      {
        assert differences[i] in values;
        assert differences[0] in values;
      }
    }
  }

  /** An empty difference list is not consistent: no distinct value is not one. */
  lemma EmptyDifferencesInconsistent()
    ensures !SingleDistinct([])
  {
  }

  /**
   * `IsConsistent` as a value: `false` without validation; otherwise the derivation's
   * exception, or the distinct-count verdict on the differences it produced.
   */
  function Consistency(getDifferences: Deriver, numbers: Option<seq<int>>): (r: Result<bool, Exception>)
    ensures !Validate(numbers) ==> r == Success(false)
    ensures Validate(numbers) ==> (r.Failure? <==> getDifferences(numbers.value).Failure?)
    ensures Validate(numbers) && r.Failure? ==> r.error == getDifferences(numbers.value).error
    ensures r == Success(true)
        <==> Validate(numbers) && getDifferences(numbers.value).Success?
             && var d := getDifferences(numbers.value).value;
                |d| > 0 && forall i :: 0 <= i < |d| ==> d[i] == d[0]
  {
    if !Validate(numbers) then Success(false)
    else
      match getDifferences(numbers.value)
      case Failure(e) => Failure(e)
      case Success(differences) => Success(SingleDistinct(differences))
  }

  /** Whether `IsConsistent` reaches its notification: validated, and the derivation returned. */
  predicate Notifies(getDifferences: Deriver, numbers: Option<seq<int>>) {
    Validate(numbers) && getDifferences(numbers.value).Success?
  }

  /** The outcome of `IsConsistent` on each of its three paths. */
  lemma ConsistencyPaths(getDifferences: Deriver, numbers: Option<seq<int>>)
    ensures !Validate(numbers) ==> Consistency(getDifferences, numbers) == Success(false)
                                   && !Notifies(getDifferences, numbers)
    ensures Validate(numbers) && getDifferences(numbers.value).Failure?
            ==> Consistency(getDifferences, numbers) == Failure(getDifferences(numbers.value).error)
                && !Notifies(getDifferences, numbers)
    ensures Notifies(getDifferences, numbers)
            ==> Consistency(getDifferences, numbers)
                == Success(SingleDistinct(getDifferences(numbers.value).value))
  {
  }

  /** As shipped, every validated input ends in the stub's exception. */
  lemma ShippedCheckerFails(numbers: Option<seq<int>>)
    ensures Consistency(GetDifferences, numbers)
         == if Validate(numbers) then Failure(NotImplementedException) else Success(false)
    ensures !Notifies(GetDifferences, numbers)
  {
  }

  /**
   * A two-element input, which must be consistent, raises the stub's exception instead;
   * with successive differences it is consistent.
   */
  lemma StubCounterexample()
    ensures Consistency(GetDifferences, Some([9, 8])) == Failure(NotImplementedException)
    ensures Consistency(DeriveSuccessive, Some([9, 8])) == Success(true)
  {
    PairIsConsistent(9, 8);
  }

  // ---------------------------------------------------------------------------------------
  // With successive differences: arithmetic progressions

  /** Every element lies on the line through the first two. */
  predicate IsArithmeticProgression(numbers: seq<int>) {
    |numbers| >= 2 &&
    forall i :: 0 <= i < |numbers| ==> numbers[i] == numbers[0] + i * (numbers[1] - numbers[0])
  }

  lemma {:induction false} ClosedForm(numbers: seq<int>, i: nat)
    requires |numbers| >= 2 && i < |numbers|
    requires forall k :: 0 <= k < |numbers| - 1 ==> numbers[k + 1] - numbers[k] == numbers[1] - numbers[0]
    ensures numbers[i] == numbers[0] + i * (numbers[1] - numbers[0])
  {
    if i > 0 {
      ClosedForm(numbers, i - 1);
      calc {
        numbers[i];
        numbers[i - 1] + (numbers[1] - numbers[0]);
        numbers[0] + (i - 1) * (numbers[1] - numbers[0]) + (numbers[1] - numbers[0]);
        { assert (i - 1) * (numbers[1] - numbers[0]) + (numbers[1] - numbers[0]) == i * (numbers[1] - numbers[0]); }
        numbers[0] + i * (numbers[1] - numbers[0]);
      }
    }
  }

  lemma StepOfProgression(numbers: seq<int>, k: nat)
    requires IsArithmeticProgression(numbers) && k < |numbers| - 1
    ensures numbers[k + 1] - numbers[k] == numbers[1] - numbers[0]
  {
  }

  /**
   * With successive differences, a list of two or more numbers is consistent exactly when it
   * is an arithmetic progression; a shorter list is not.
   */
  lemma ConsistentIffArithmeticProgression(numbers: seq<int>)
    ensures Consistency(DeriveSuccessive, Some(numbers)) == Success(IsArithmeticProgression(numbers))
  {
    if |numbers| >= 2 {
      var d := SuccessiveDifferences(numbers);
      SingleDistinctMeansConstant(d);
      if SingleDistinct(d) {
        forall i | 0 <= i < |numbers|
          ensures numbers[i] == numbers[0] + i * (numbers[1] - numbers[0])
        {
          ClosedForm(numbers, i);
        }
      }
      if IsArithmeticProgression(numbers) {
        forall k | 0 <= k < |d|
          ensures d[k] == d[0]
        {
          StepOfProgression(numbers, k);
        }
      }
    }
  }

  /** Two numbers are always consistent: there is just one difference. */
  lemma PairIsConsistent(a: int, b: int)
    ensures Consistency(DeriveSuccessive, Some([a, b])) == Success(true)
  {
    ConsistentIffArithmeticProgression([a, b]);
  }

  /** The example inputs, checked with successive differences. */
  lemma ProgramScenario()
    ensures Consistency(DeriveSuccessive, Some([1, 1, 4])) == Success(false)
    ensures Consistency(DeriveSuccessive, Some([9, 8])) == Success(true)
    ensures Consistency(DeriveSuccessive, Some([6, 22, 16, 29, 23])) == Success(false)
    ensures Consistency(DeriveSuccessive, Some([28, 16, 28, 11, 14, 26, 23, 25, 17, 3, 22, 23, 23, 10]))
         == Success(false)
  {
    ConsistentIffArithmeticProgression([1, 1, 4]);
    assert [1, 1, 4][2] != [1, 1, 4][0] + 2 * ([1, 1, 4][1] - [1, 1, 4][0]);
    PairIsConsistent(9, 8);
    ConsistentIffArithmeticProgression([6, 22, 16, 29, 23]);
    assert [6, 22, 16, 29, 23][2] != 6 + 2 * 16;
    var long := [28, 16, 28, 11, 14, 26, 23, 25, 17, 3, 22, 23, 23, 10];
    ConsistentIffArithmeticProgression(long);
    assert long[2] != 28 + 2 * -12;
  }

  // ---------------------------------------------------------------------------------------
  // The checker object

  /** `Checked Sequence: <numbers>. Result: <result>`, kept as its two parts. */
  datatype CheckedMessage = CheckedSequence(numbers: seq<int>, result: bool)

  class SameDifferenceChecker {
    /** The difference derivation; the shipped class always uses `GetDifferences`. */
    const getDifferences: Deriver
    /** `OnDifferenceChecked` */
    const onDifferenceChecked: Event<CheckedMessage>

    constructor(getDifferences: Deriver)
      ensures this.getDifferences == getDifferences
      ensures fresh(onDifferenceChecked)
      ensures onDifferenceChecked.handlers == [] && onDifferenceChecked.deliveries == []
    {
      this.getDifferences := getDifferences;
      onDifferenceChecked := new Event<CheckedMessage>();
    }

    /** Hands `message`, unchanged, to each subscriber in subscription order. */
    method Notify(message: CheckedMessage)
      modifies onDifferenceChecked
      ensures onDifferenceChecked.handlers == old(onDifferenceChecked.handlers)
      ensures onDifferenceChecked.deliveries
           == old(onDifferenceChecked.deliveries) + Fanout(old(onDifferenceChecked.handlers), message)
    {
      onDifferenceChecked.Invoke(message);
    }

    /**
     * Validates, derives the differences, takes the distinct-count verdict, notifies the
     * subscribers of the sequence and the verdict, and returns the verdict. A list that fails
     * validation gives `false` silently; a failed derivation propagates without notification.
     */
    method IsConsistent(numbers: Option<seq<int>>) returns (r: Result<bool, Exception>)
      modifies onDifferenceChecked
      ensures r == Consistency(getDifferences, numbers)
      ensures onDifferenceChecked.handlers == old(onDifferenceChecked.handlers)
      ensures onDifferenceChecked.deliveries
           == old(onDifferenceChecked.deliveries)
              + if Notifies(getDifferences, numbers)
                then Fanout(old(onDifferenceChecked.handlers), CheckedSequence(numbers.value, r.value))
                else []
    {
      if !Validate(numbers) {
        return Success(false);
      }
      var derived := getDifferences(numbers.value);
      if derived.Failure? {
        return Failure(derived.error);
      }
      var isConsistent := SingleDistinct(derived.value);
      Notify(CheckedSequence(numbers.value, isConsistent));
      r := Success(isConsistent);
    }
  }

  // ---------------------------------------------------------------------------------------
  // Batch evaluation

  /** What a consumer of `CheckAsync` observes: the results, then an exception or the end. */
  datatype Stream = Stream(yielded: seq<bool>, terminal: Option<Exception>)

  /** The results of checking `testCases` in order, stopping at the first exception. */
  function Evaluate(getDifferences: Deriver, testCases: seq<seq<int>>): (s: Stream)
    ensures |s.yielded| <= |testCases|
    ensures s.terminal.None? ==> |s.yielded| == |testCases|
  {
    if testCases == [] then Stream([], None)
    else
      var before := Evaluate(getDifferences, testCases[..|testCases| - 1]);
      if before.terminal.Some? then before
      else
        match Consistency(getDifferences, Some(testCases[|testCases| - 1]))
        case Failure(e) => Stream(before.yielded, Some(e))
        case Success(b) => Stream(before.yielded + [b], None)
  }

  /** Result `i` is the verdict on test case `i`, in input order. */
  lemma {:induction false} EvaluateInOrder(getDifferences: Deriver, testCases: seq<seq<int>>)
    ensures forall i :: 0 <= i < |Evaluate(getDifferences, testCases).yielded| ==>
      Consistency(getDifferences, Some(testCases[i])) == Success(Evaluate(getDifferences, testCases).yielded[i])
  {
    if testCases != [] {
      var front := testCases[..|testCases| - 1];
      EvaluateInOrder(getDifferences, front);
      forall i | 0 <= i < |front| ensures front[i] == testCases[i] { }
    }
  }

  /** An exception ends the stream at the position of the test case that raised it. */
  lemma {:induction false} EvaluateStopsAtFailure(getDifferences: Deriver, testCases: seq<seq<int>>)
    ensures var s := Evaluate(getDifferences, testCases);
      s.terminal.Some? ==>
        |s.yielded| < |testCases| &&
        Consistency(getDifferences, Some(testCases[|s.yielded|])) == Failure(s.terminal.value)
  {
    if testCases != [] {
      var front := testCases[..|testCases| - 1];
      EvaluateStopsAtFailure(getDifferences, front);
      var before := Evaluate(getDifferences, front);
      if before.terminal.Some? {
        assert front[|before.yielded|] == testCases[|before.yielded|];
      }
    }
  }

  /** Once a prefix has ended in an exception, later test cases change nothing. */
  lemma {:induction false} EvaluateAfterFailure(getDifferences: Deriver, testCases: seq<seq<int>>, k: nat)
    requires k <= |testCases|
    requires Evaluate(getDifferences, testCases[..k]).terminal.Some?
    ensures Evaluate(getDifferences, testCases) == Evaluate(getDifferences, testCases[..k])
    decreases |testCases| - k
  {
    if k < |testCases| {
      var front := testCases[..|testCases| - 1];
      assert front[..k] == testCases[..k];
      EvaluateAfterFailure(getDifferences, front, k);
    } else {
      assert testCases[..k] == testCases;
    }
  }

  /** With successive differences nothing fails: one verdict per test case, each as above. */
  lemma EvaluateSuccessive(testCases: seq<seq<int>>)
    ensures Evaluate(DeriveSuccessive, testCases).terminal == None
    ensures |Evaluate(DeriveSuccessive, testCases).yielded| == |testCases|
    ensures forall i :: 0 <= i < |testCases| ==>
      Evaluate(DeriveSuccessive, testCases).yielded[i] == IsArithmeticProgression(testCases[i])
  {
    var s := Evaluate(DeriveSuccessive, testCases);
    EvaluateStopsAtFailure(DeriveSuccessive, testCases);
    EvaluateInOrder(DeriveSuccessive, testCases);
    forall i | 0 <= i < |testCases|
      ensures s.yielded[i] == IsArithmeticProgression(testCases[i])
    {
      ConsistentIffArithmeticProgression(testCases[i]);
    }
  }

  /**
   * As shipped, the stream yields `false` for each leading list shorter than two and ends
   * in `NotImplementedException` at the first longer one.
   */
  lemma ShippedEvaluate(testCases: seq<seq<int>>)
    ensures var s := Evaluate(GetDifferences, testCases);
      (forall i :: 0 <= i < |s.yielded| ==> !s.yielded[i] && |testCases[i]| < 2) &&
      (s.terminal.Some? <==> exists i :: 0 <= i < |testCases| && |testCases[i]| >= 2) &&
      (s.terminal.Some? ==> s.terminal.value == NotImplementedException && |testCases[|s.yielded|]| >= 2)
  {
  }

  /**
   * `CheckAsync`: for each test case in turn, a fresh checker (with no subscribers, so
   * nothing is published) checks it, and its verdict is yielded before the next case starts.
   */
  method CheckAsync(getDifferences: Deriver, testCases: seq<seq<int>>) returns (stream: Stream)
    ensures stream == Evaluate(getDifferences, testCases)
  {
    var yielded := [];
    var k := 0;
    while k < |testCases|
      invariant 0 <= k <= |testCases|
      invariant Evaluate(getDifferences, testCases[..k]) == Stream(yielded, None)
    {
      var checker := new SameDifferenceChecker(getDifferences);
      var r := checker.IsConsistent(Some(testCases[k]));
      assert checker.onDifferenceChecked.deliveries == [];
      assert testCases[..k + 1][..k] == testCases[..k];
      if r.Failure? {
        EvaluateAfterFailure(getDifferences, testCases, k + 1);
        return Stream(yielded, Some(r.error));
      }
      yielded := yielded + [r.value];
      k := k + 1;
    }
    assert testCases[..k] == testCases;
    stream := Stream(yielded, None);
  }
}
