// The one state transition of the engine: accepting an offer
// (updatePlacementStatus in src/engine.ts).
module Placement {
  import opened Types
  import opened Registry
  import opened Decision
  import opened Cohort

  datatype PlacementError =
    | NotFound(id: int)
    | NotEligible(id: int, company: string, reasons: seq<Reason>)

  /** A student after accepting the company's offer. */
  function Placed(s: Student, company: Company): Student {
    s.(isPlaced := true, currentSalary := company.offeredSalary, companiesApplied := s.companiesApplied + 1)
  }

  /** The pool after `id` accepts the company's offer: an unknown id fails;
      a student the decision turns away fails with the decision's reasons
      and nothing changes; otherwise exactly that student is marked placed,
      takes the offered salary and has one more application, and every other
      record is left as it was. */
  function Place(students: map<int, Student>, order: seq<int>, company: Company, policies: Policies, id: int)
    : (r: Result<map<int, Student>, PlacementError>)
    requires InPool(students, order)
    ensures id !in students ==> r == Failure(NotFound(id))
    ensures id in students && !Decide(students[id], ContextOf(students, order, company, policies)).eligible ==>
              r == Failure(NotEligible(id, company.name,
                                       Decide(students[id], ContextOf(students, order, company, policies)).reasons))
    ensures r.Success? <==> id in students && Decide(students[id], ContextOf(students, order, company, policies)).eligible
    ensures r.Success? ==>
              && r.value.Keys == students.Keys
              && r.value[id].isPlaced
              && r.value[id].currentSalary == company.offeredSalary
              && r.value[id].companiesApplied == students[id].companiesApplied + 1
              && r.value[id].(isPlaced := students[id].isPlaced, currentSalary := students[id].currentSalary,
                              companiesApplied := students[id].companiesApplied) == students[id]
              && forall other :: other in students && other != id ==> r.value[other] == students[other]
  {
    if id !in students then Failure(NotFound(id))
    else
      var result := Decide(students[id], ContextOf(students, order, company, policies));
      if !result.eligible then Failure(NotEligible(id, company.name, result.reasons))
      else Success(students[id := Placed(students[id], company)])
  }

  /** Placing keeps the pool well formed. */
  lemma PlaceKeepsPoolWellFormed(students: map<int, Student>, order: seq<int>, company: Company, policies: Policies, id: int)
    requires WellFormed(students, order)
    requires Place(students, order, company, policies, id).Success?
    ensures WellFormed(Place(students, order, company, policies, id).value, order)
  {
  }

  /** Placing a student who was not placed raises the placed count by
      exactly one; placing one who already was leaves it unchanged. */
  lemma {:induction false} PlacedCountAfterPlacing(students: map<int, Student>, order: seq<int>, id: int, s: Student)
    requires Distinct(order) && InPool(students, order)
    requires id in students && s.isPlaced
    ensures InPool(students[id := s], order)
    ensures PlacedCount(students[id := s], order) ==
              PlacedCount(students, order) + (if id in order && !students[id].isPlaced then 1 else 0)
    decreases |order|
  {
    if order != [] {
      var init := order[..|order| - 1];
      PlacedCountAfterPlacing(students, init, id, s);
      if id in order && id !in init {
        assert order[|order| - 1] == id;
      }
      if id in init {
        var k :| 0 <= k < |init| && init[k] == id;
        assert order[k] == id;
        assert order[|order| - 1] != id;
      }
    }
  }

  /** So a successful placement of an unplaced student raises the cohort's
      placed count by one. */
  lemma PlaceRaisesPlacedCount(students: map<int, Student>, order: seq<int>, company: Company, policies: Policies, id: int)
    requires WellFormed(students, order)
    requires Place(students, order, company, policies, id).Success?
    ensures var after := Place(students, order, company, policies, id).value;
            PlacedCount(after, order) ==
              PlacedCount(students, order) + (if students[id].isPlaced then 0 else 1)
  {
    PlacedCountAfterPlacing(students, order, id, Placed(students[id], company));
  }
}
