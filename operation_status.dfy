/** OperationStatus: a sticky accumulator of the outcomes of independent operations. */
module Status {

  /** All outcomes true, folded from the left the way the accumulator sees them arrive. */
  function AllTrue(outcomes: seq<bool>): bool {
    if outcomes == [] then true else AllTrue(outcomes[..|outcomes| - 1]) && outcomes[|outcomes| - 1]
  }

  /** The fold is the plain conjunction of every outcome. */
  lemma {:induction false} AllTrueIsEvery(outcomes: seq<bool>)
    ensures AllTrue(outcomes) <==> forall i :: 0 <= i < |outcomes| ==> outcomes[i]
  {
    if outcomes != [] {
      var init := outcomes[..|outcomes| - 1];
      AllTrueIsEvery(init);
      assert forall i :: 0 <= i < |init| ==> init[i] == outcomes[i];
    }
  }

  /** Once an outcome is false, no later outcomes make the conjunction true again. */
  lemma {:induction false} FailureIsSticky(outcomes: seq<bool>, later: seq<bool>)
    requires !AllTrue(outcomes)
    ensures !AllTrue(outcomes + later)
  {
    if later == [] {
      assert outcomes + later == outcomes;
    } else {
      var init := later[..|later| - 1];
      assert (outcomes + later)[..|outcomes + later| - 1] == outcomes + init;
      FailureIsSticky(outcomes, init);
    }
  }

  class OperationStatus {
    var hasFailed: bool
    /** Every outcome reported so far, in order; `Fail()` reports false. */
    ghost var reports: seq<bool>

    ghost predicate Valid()
      reads this
    {
      hasFailed == (false in reports)
    }

    /** A fresh status has seen nothing and reports success. */
    constructor ()
      ensures Valid() && reports == [] && Success()
    {
      hasFailed := false;
      reports := [];
    }

    /** `Success`: no failure was recorded. */
    function Success(): (r: bool)
      reads this
      requires Valid()
      ensures r <==> false !in reports
    {
      !hasFailed
    }

    /** Success is the left fold of every outcome reported so far. */
    lemma SuccessIsFold()
      requires Valid()
      ensures Success() == AllTrue(reports)
    {
      AllTrueIsEvery(reports);
    }

    /** `AssertTrue(result)`: records a failure when `result` is false. */
    method AssertTrue(result: bool)
      requires Valid()
      modifies this
      ensures Valid() && reports == old(reports) + [result]
      ensures Success() == (old(Success()) && result)
      ensures result ==> hasFailed == old(hasFailed)
    {
      if !result {
        hasFailed := true;
      }
      reports := reports + [result];
    }

    /** `Fail()`: records a failure unconditionally. */
    method Fail()
      requires Valid()
      modifies this
      ensures Valid() && reports == old(reports) + [false]
      ensures !Success()
    {
      hasFailed := true;
      reports := reports + [false];
    }
  }
}
