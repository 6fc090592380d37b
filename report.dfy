// The student listings and the summary report (getAllStudents,
// getEligibleStudents, getIneligibleStudents, getStudentStates,
// calculatePercentages and getSummaryReport in src/engine.ts).
module Report {
  import opened Types
  import opened Registry
  import opened Decision
  import opened Cohort
  import opened PolicyStats

  /** A student with its full policy map (from full-map mode) and its
      decision (from decision mode). */
  datatype StudentRow = StudentRow(
    student: Student,
    policyEligibility: map<PolicyKey, bool>,
    eligible: bool,
    reasons: seq<Reason>)

  /** The decision for every student of the pool, by id. */
  function Decisions(students: map<int, Student>, ctx: Context): (results: map<int, PolicyResult>)
    ensures results.Keys == students.Keys
    ensures forall id :: id in results ==> results[id] == Decide(students[id], ctx)
  {
    map id | id in students :: Decide(students[id], ctx)
  }

  /** A map that agrees with `spec` wherever it is defined and holds every
      id of an order listing all of `spec`'s keys is `spec` itself. */
  lemma FilledFromOrder<V>(spec: map<int, V>, order: seq<int>, results: map<int, V>)
    requires forall id :: id in spec ==> id in order
    requires forall i :: 0 <= i < |order| ==> order[i] in results
    requires forall id :: id in results ==> id in spec && results[id] == spec[id]
    ensures results == spec
  {
    forall id | id in spec ensures id in results {
      var i :| 0 <= i < |order| && order[i] == id;
    }
    assert forall id :: id in results.Keys <==> id in spec.Keys;
    assert results.Keys == spec.Keys;
    assert forall id :: id in spec ==> results[id] == spec[id];
  }

  /** The row of one student. */
  function Row(s: Student, ctx: Context): StudentRow {
    StudentRow(s, FullMap(s, ctx), Decide(s, ctx).eligible, Decide(s, ctx).reasons)
  }

  /** One row per student, in pool order. */
  function AllStudents(students: map<int, Student>, order: seq<int>, ctx: Context): (rows: seq<StudentRow>)
    requires InPool(students, order)
    decreases |order|
  {
    if order == [] then []
    else AllStudents(students, order[..|order| - 1], ctx) + [Row(students[order[|order| - 1]], ctx)]
  }

  /** Listing one more id of the order appends that student's row. */
  lemma AllStudentsSnoc(students: map<int, Student>, order: seq<int>, n: nat, ctx: Context)
    requires InPool(students, order)
    requires n < |order|
    ensures AllStudents(students, order[..n + 1], ctx) ==
              AllStudents(students, order[..n], ctx) + [Row(students[order[n]], ctx)]
  {
    assert order[..n + 1][..n] == order[..n];
  }

  /** The listing has one row per id of the order, and row i is the row of
      the i-th student. */
  lemma {:induction false} AllStudentsRows(students: map<int, Student>, order: seq<int>, ctx: Context)
    requires InPool(students, order)
    ensures |AllStudents(students, order, ctx)| == |order|
    ensures forall i :: 0 <= i < |order| ==> AllStudents(students, order, ctx)[i] == Row(students[order[i]], ctx)
    decreases |order|
  {
    if order != [] {
      var init := order[..|order| - 1];
      AllStudentsRows(students, init, ctx);
      var rows := AllStudents(students, order, ctx);
      var prev := AllStudents(students, init, ctx);
      assert rows == prev + [Row(students[order[|order| - 1]], ctx)];
      forall i | 0 <= i < |order| - 1 ensures rows[i] == Row(students[order[i]], ctx) {
        assert rows[i] == prev[i];
        assert init[i] == order[i];
      }
    }
  }

  /** The rows whose decision is `want`, in their original order. */
  function ByEligibility(rows: seq<StudentRow>, want: bool): (r: seq<StudentRow>)
    ensures |r| <= |rows|
    ensures forall i :: 0 <= i < |r| ==> r[i].eligible == want && r[i] in rows
    ensures forall x :: x in rows && x.eligible == want ==> x in r
    decreases |rows|
  {
    if rows == [] then []
    else
      var last := rows[|rows| - 1];
      ByEligibility(rows[..|rows| - 1], want) + (if last.eligible == want then [last] else [])
  }

  /** Filtering keeps order: the filter of two blocks of rows is the
      filter of the first followed by the filter of the second. */
  lemma {:induction false} ByEligibilityAppend(a: seq<StudentRow>, b: seq<StudentRow>, want: bool)
    ensures ByEligibility(a + b, want) == ByEligibility(a, want) + ByEligibility(b, want)
    decreases |b|
  {
    if b != [] {
      var init := b[..|b| - 1];
      ByEligibilityAppend(a, init, want);
      assert (a + b)[..|a + b| - 1] == a + init;
    } else {
      assert a + b == a;
    }
  }

  /** The rows whose student's placement flag is `want`, in their original
      order. */
  function ByPlacement(rows: seq<StudentRow>, want: bool): (r: seq<StudentRow>)
    ensures |r| <= |rows|
    ensures forall i :: 0 <= i < |r| ==> r[i].student.isPlaced == want && r[i] in rows
    ensures forall x :: x in rows && x.student.isPlaced == want ==> x in r
    decreases |rows|
  {
    if rows == [] then []
    else
      var last := rows[|rows| - 1];
      ByPlacement(rows[..|rows| - 1], want) + (if last.student.isPlaced == want then [last] else [])
  }

  /** Filtering by placement keeps order in the same way. */
  lemma {:induction false} ByPlacementAppend(a: seq<StudentRow>, b: seq<StudentRow>, want: bool)
    ensures ByPlacement(a + b, want) == ByPlacement(a, want) + ByPlacement(b, want)
    decreases |b|
  {
    if b != [] {
      var init := b[..|b| - 1];
      ByPlacementAppend(a, init, want);
      assert (a + b)[..|a + b| - 1] == a + init;
    } else {
      assert a + b == a;
    }
  }

  /** Eligible and ineligible rows together are all rows. */
  lemma {:induction false} EligibilityPartition(rows: seq<StudentRow>)
    ensures |ByEligibility(rows, true)| + |ByEligibility(rows, false)| == |rows|
    decreases |rows|
  {
    if rows != [] {
      EligibilityPartition(rows[..|rows| - 1]);
    }
  }

  /** Placed and unplaced rows together are all rows. */
  lemma {:induction false} PlacementPartition(rows: seq<StudentRow>)
    ensures |ByPlacement(rows, true)| + |ByPlacement(rows, false)| == |rows|
    decreases |rows|
  {
    if rows != [] {
      PlacementPartition(rows[..|rows| - 1]);
    }
  }

  /** The five listings of the summary. */
  datatype StudentStates = StudentStates(
    allStudents: seq<StudentRow>,
    placedStudents: seq<StudentRow>,
    unPlacedStudents: seq<StudentRow>,
    eligibleStudents: seq<StudentRow>,
    ineligibleStudents: seq<StudentRow>)

  function StatesOf(rows: seq<StudentRow>): StudentStates {
    StudentStates(rows, ByPlacement(rows, true), ByPlacement(rows, false),
                  ByEligibility(rows, true), ByEligibility(rows, false))
  }

  datatype Percentages = Percentages(
    unPlacedStudentsPercentage: real,
    placedStudentsPercentage: real,
    eligibleStudentsPercentage: real,
    ineligibleStudentsPercentage: real)

  /** The four shares of the listings, all 0 when there are no students.
      When the placed and unplaced listings split the students, their
      shares sum to 100, and so do the eligible and ineligible shares when
      those split them (as the listings of StatesOf do). */
  function CalculatePercentages(states: StudentStates): (p: Percentages)
    ensures states.allStudents == [] ==> p == Percentages(0.0, 0.0, 0.0, 0.0)
    ensures states.allStudents != [] && |states.placedStudents| + |states.unPlacedStudents| == |states.allStudents| ==>
              p.placedStudentsPercentage + p.unPlacedStudentsPercentage == 100.0
    ensures states.allStudents != [] && |states.eligibleStudents| + |states.ineligibleStudents| == |states.allStudents| ==>
              p.eligibleStudentsPercentage + p.ineligibleStudentsPercentage == 100.0
  {
    var total := |states.allStudents|;
    var placed, unPlaced := |states.placedStudents|, |states.unPlacedStudents|;
    var eligible, ineligible := |states.eligibleStudents|, |states.ineligibleStudents|;
    assert total > 0 && placed + unPlaced == total ==> Percent(placed, total) + Percent(unPlaced, total) == 100.0 by {
      if total > 0 && placed + unPlaced == total {
        PercentComplement(placed, unPlaced);
      }
    }
    assert total > 0 && eligible + ineligible == total ==> Percent(eligible, total) + Percent(ineligible, total) == 100.0 by {
      if total > 0 && eligible + ineligible == total {
        PercentComplement(eligible, ineligible);
      }
    }
    Percentages(Percent(unPlaced, total), Percent(placed, total), Percent(eligible, total), Percent(ineligible, total))
  }

  /** Each share is its listing's length times 100 over the number of
      students. */
  lemma PercentagesAreShares(states: StudentStates)
    requires states.allStudents != []
    ensures var p, total := CalculatePercentages(states), |states.allStudents| as real;
            && p.placedStudentsPercentage * total == 100.0 * |states.placedStudents| as real
            && p.unPlacedStudentsPercentage * total == 100.0 * |states.unPlacedStudents| as real
            && p.eligibleStudentsPercentage * total == 100.0 * |states.eligibleStudents| as real
            && p.ineligibleStudentsPercentage * total == 100.0 * |states.ineligibleStudents| as real
  {
  }

  datatype Counts = Counts(
    totalStudents: nat,
    placedStudents: nat,
    unPlacedStudents: nat,
    eligibleStudents: nat,
    ineligibleStudents: nat)

  /** The counts of the listings: placed plus unplaced, and eligible plus
      ineligible, are both the total. */
  function CountsOf(states: StudentStates): (c: Counts)
    requires states == StatesOf(states.allStudents)
    ensures c.totalStudents == |states.allStudents|
    ensures c.placedStudents + c.unPlacedStudents == c.totalStudents
    ensures c.eligibleStudents + c.ineligibleStudents == c.totalStudents
  {
    PlacementPartition(states.allStudents);
    EligibilityPartition(states.allStudents);
    Counts(|states.allStudents|, |states.placedStudents|, |states.unPlacedStudents|,
           |states.eligibleStudents|, |states.ineligibleStudents|)
  }

  datatype SummaryReport = SummaryReport(
    data: StudentStates,
    company: Company,
    policyWiseData: seq<PolicyStat>,
    percentages: Percentages,
    counts: Counts)
}
