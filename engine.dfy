// The `PlacementEngine` class of src/engine.ts: its pool of students, the
// company and the policies are fields; the loops of the source are methods
// proved against the specification functions of the other modules.
module Engine {
  import opened Types
  import opened Registry
  import opened Decision
  import opened Cohort
  import opened PolicyStats
  import opened Report
  import opened Construction
  import opened Placement

  class PlacementEngine {
    /** The students by id; `order` is the iteration order of the map. */
    var students: map<int, Student>
    var order: seq<int>
    var company: Company
    var policies: Policies

    /** The pool is well formed, non-empty, and holds no student with the
        falsy id 0 (what construction establishes). */
    ghost predicate Valid()
      reads this
    {
      && Listed()
      && WellFormed(students, order)
      && order != []
      && forall id :: id in students ==> id != 0
    }

    /** Every id of the order has a record: all the checks need. */
    ghost predicate Listed()
      reads this
    {
      InPool(students, order)
    }

    /** What every check sees: company, policies and the cohort percentage
        of the pool as it stands now. */
    function Ctx(): Context
      reads this
      requires Listed()
    {
      ContextOf(students, order, company, policies)
    }

    /** Takes a validated pool and complete policies. */
    constructor (pool: Pool, company: Company, policies: Policies)
      requires WellFormed(pool.byId, pool.order) && pool.order != []
      requires forall id :: id in pool.byId ==> id != 0
      ensures Valid()
      ensures students == pool.byId && order == pool.order
      ensures this.company == company && this.policies == policies
    {
      students := pool.byId;
      order := pool.order;
      this.company := company;
      this.policies := policies;
    }

    /** The factory: fails exactly as `Construct` does, otherwise a fresh
        engine over the pool and policies `Construct` yields. */
    static method Create(list: seq<Student>, company: Company, source: PolicySource)
      returns (r: Result<PlacementEngine, ConstructError>)
      ensures r.Failure? <==> Construct(list, source).Failure?
      ensures r.Failure? ==> r.error == Construct(list, source).error
      ensures r.Success? ==>
                && fresh(r.value)
                && r.value.Valid()
                && r.value.students == Construct(list, source).value.0.byId
                && r.value.order == Construct(list, source).value.0.order
                && r.value.company == company
                && r.value.policies == Construct(list, source).value.1
    {
      var built := Construct(list, source);
      if built.Failure? {
        return Failure(built.error);
      }
      var engine := new PlacementEngine(built.value.0, company, built.value.1);
      return Success(engine);
    }

    /** Decision mode, computed by the short-circuit loop of the source. */
    method CheckStudentEligibility(student: Student) returns (r: PolicyResult)
      requires Listed()
      ensures r == Decide(student, Ctx())
    {
      var ctx := Ctx();
      var dreamCompanyCheck := CheckPolicy(Order[0], student, ctx);
      if dreamCompanyCheck.eligible && policies.dreamCompanyPolicy.enabled {
        return PolicyResult(true, dreamCompanyCheck.reasons);
      }
      ghost var rest := Results(student, ctx)[1..];
      assert !Override(student, ctx);
      assert Decide(student, ctx) == ShortCircuit(rest);
      var reasons: seq<Reason> := [];
      var i := 1;
      while i < |Order|
        invariant 1 <= i <= |Order|
        invariant forall j :: 0 <= j < i - 1 ==> rest[j].eligible
        invariant reasons == AllReasons(rest[..i - 1])
      {
        var result := CheckPolicy(Order[i], student, ctx);
        ResultsAt(student, ctx, i);
        if !result.eligible {
          ShortCircuitFails(rest, i - 1);
          return PolicyResult(false, reasons + result.reasons);
        }
        AllReasonsSnoc(rest, i - 1);
        reasons := reasons + result.reasons;
        i := i + 1;
      }
      assert rest[..i - 1] == rest;
      ShortCircuitPasses(rest);
      return PolicyResult(true, if |reasons| > 0 then reasons else [EligibleByDefault]);
    }

    /** Full-map mode, computed by the `failed`-flag loop of the source. */
    method GetStudentPolicyEligibility(student: Student) returns (m: map<PolicyKey, bool>)
      requires Listed()
      ensures m == FullMap(student, Ctx())
    {
      var ctx := Ctx();
      ghost var rs := Results(student, ctx);
      m := map k | k in Order :: false;
      forall k ensures k in m {
        assert Order[Index(k)] == k;
      }
      var failed := false;
      for i := 0 to |Order|
        invariant forall k :: k in m
        invariant failed <==> FirstFailure(rs) < i
        invariant forall j :: 0 <= j < i ==> m[Order[j]] == (j < FirstFailure(rs))
      {
        var key := Order[i];
        OrderDistinct(i);
        if !failed {
          var result := CheckPolicy(key, student, ctx);
          ResultsAt(student, ctx, i);
          m := m[key := result.eligible];
          if !result.eligible {
            failed := true;
          }
        } else {
          m := m[key := false];
        }
      }
      FlagsOfAllPositions(rs, m);
    }

    /** The decision for every student, in a map keyed by id. */
    method ProcessPlacements() returns (results: map<int, PolicyResult>)
      requires Valid()
      ensures results == Decisions(students, Ctx())
    {
      var ctx := Ctx();
      results := map[];
      for n := 0 to |order|
        invariant forall i :: 0 <= i < n ==> order[i] in results
        invariant forall id :: id in results ==> id in students && results[id] == Decide(students[id], ctx)
      {
        var id := order[n];
        var result := CheckStudentEligibility(students[id]);
        results := results[id := result];
      }
      ghost var spec := Decisions(students, ctx);
      FilledFromOrder(spec, order, results);
    }

    /** One row per student, in pool order: its full map and its decision. */
    method GetAllStudents() returns (rows: seq<StudentRow>)
      requires Valid()
      ensures rows == AllStudents(students, order, Ctx())
    {
      var results := ProcessPlacements();
      ghost var ctx := Ctx();
      rows := [];
      for n := 0 to |order|
        invariant rows == AllStudents(students, order[..n], ctx)
      {
        var row := RowOf(students[order[n]], results);
        AllStudentsSnoc(students, order, n, ctx);
        rows := rows + [row];
      }
      assert order[..|order|] == order;
    }

    /** The row of one pool student: its full map, and the eligibility and
        reasons its id has in the decision map (ineligible with no reasons
        when the id is missing, which cannot happen for a pool student). */
    method RowOf(student: Student, results: map<int, PolicyResult>) returns (row: StudentRow)
      requires Listed() && student.id in students && students[student.id] == student
      requires results == Decisions(students, Ctx())
      ensures row == Row(student, Ctx())
    {
      var flags := GetStudentPolicyEligibility(student);
      var eligible := if student.id in results then results[student.id].eligible else false;
      var reasons := if student.id in results then results[student.id].reasons else [];
      row := StudentRow(student, flags, eligible, reasons);
    }

    /** The rows whose decision is eligible. */
    method GetEligibleStudents() returns (rows: seq<StudentRow>)
      requires Valid()
      ensures rows == ByEligibility(AllStudents(students, order, Ctx()), true)
    {
      var all := GetAllStudents();
      rows := ByEligibility(all, true);
    }

    /** The rows whose decision is ineligible. */
    method GetIneligibleStudents() returns (rows: seq<StudentRow>)
      requires Valid()
      ensures rows == ByEligibility(AllStudents(students, order, Ctx()), false)
    {
      var all := GetAllStudents();
      rows := ByEligibility(all, false);
    }

    /** Accepting the company's offer for `id`: the outcome and the new pool
        are those of `Place` on the old state; nothing but the pool changes. */
    method UpdatePlacementStatus(id: int) returns (error: Option<PlacementError>)
      requires Valid()
      modifies this`students
      ensures Valid()
      ensures var r := Place(old(students), order, company, policies, id);
              && (r.Failure? ==> error == Some(r.error) && students == old(students))
              && (r.Success? ==> error == None && students == r.value)
    {
      if id !in students {
        return Some(NotFound(id));
      }
      var result := CheckStudentEligibility(students[id]);
      if !result.eligible {
        return Some(NotEligible(id, company.name, result.reasons));
      }
      ghost var before := students;
      students := students[id := students[id].(isPlaced := true)];
      students := students[id := students[id].(currentSalary := company.offeredSalary)];
      students := students[id := students[id].(companiesApplied := students[id].companiesApplied + 1)];
      assert students == before[id := Placed(before[id], company)];
      PlaceKeepsPoolWellFormed(before, order, company, policies, id);
      return None;
    }

    /** A copy of the company. */
    method GetCompany() returns (c: Company)
      ensures c == company
    {
      c := company;
    }

    /** `{...policies, ...update}`. */
    method UpdatePolicies(update: PartialPolicies)
      modifies this`policies
      ensures policies == Merge(old(policies), update)
    {
      policies := Merge(policies, update);
    }

    /** Adds the scan of every id of `ids`, in order, to the running
        tallies: each tally ends as the old one combined with what the scan
        records for its policy over `ids`. */
    method ProcessPolicyStats(ids: seq<int>, policyStats: seq<Tally>) returns (updated: seq<Tally>)
      requires Valid() && InPool(students, ids) && |policyStats| == |Order|
      ensures |updated| == |Order|
      ensures forall p :: 0 <= p < |Order| ==>
                updated[p] == Combine(policyStats[p], TallyAt(students, ids, Ctx(), p))
    {
      var ctx := Ctx();
      updated := policyStats;
      for n := 0 to |ids|
        invariant |updated| == |Order|
        invariant forall p :: 0 <= p < |Order| ==>
                    updated[p] == Combine(policyStats[p], TallyAt(students, ids[..n], ctx, p))
      {
        var studentId := ids[n];
        var student := students[studentId];
        updated := ScanStudent(studentId, student, ctx, updated);
        forall p | 0 <= p < |Order|
          ensures updated[p] == Combine(policyStats[p], TallyAt(students, ids[..n + 1], ctx, p))
        {
          TallyAtSnoc(students, ids, ctx, n, p);
          CombineAssociative(policyStats[p], TallyAt(students, ids[..n], ctx, p),
                      Contribution(studentId, Reach(student, ctx), p));
        }
      }
      assert ids[..|ids|] == ids;
    }

    /** The inner loop of the scan, for one student: walking the registry
        with a `failed` flag, each policy before the first failure counts the
        student as eligible, the first failing one as ineligible, and later
        ones not at all. */
    static method ScanStudent(studentId: int, student: Student, ctx: Context, stats: seq<Tally>)
      returns (updated: seq<Tally>)
      requires |stats| == |Order|
      ensures |updated| == |Order|
      ensures forall p :: 0 <= p < |Order| ==>
                updated[p] == Combine(stats[p], Contribution(studentId, Reach(student, ctx), p))
    {
      ghost var rs := Results(student, ctx);
      ghost var reach := Reach(student, ctx);
      updated := stats;
      var failed := false;
      for q := 0 to |Order|
        invariant |updated| == |Order|
        invariant failed <==> reach < q
        invariant forall p :: 0 <= p < q ==> updated[p] == Combine(stats[p], Contribution(studentId, reach, p))
        invariant forall p :: q <= p < |Order| ==> updated[p] == stats[p]
      {
        var tally := updated[q];
        var policyResult := CheckPolicy(Order[q], student, ctx);
        ResultsAt(student, ctx, q);
        if !policyResult.eligible && !failed {
          assert reach == q;
          tally := Tally(tally.eligible, tally.ineligible + 1,
                         tally.eligibleStudents, tally.ineligibleStudents + [studentId]);
          assert tally.eligibleStudents + [] == tally.eligibleStudents;
          failed := true;
        } else if !failed {
          assert reach > q;
          tally := Tally(tally.eligible + 1, tally.ineligible,
                         tally.eligibleStudents + [studentId], tally.ineligibleStudents);
          assert tally.ineligibleStudents + [] == tally.ineligibleStudents;
        } else {
          assert tally.eligibleStudents + [] == tally.eligibleStudents;
          assert tally.ineligibleStudents + [] == tally.ineligibleStudents;
        }
        updated := updated[q := tally];
      }
    }

    /** The policy-wise report: the scan over the pool in its order, from
        zero tallies, formatted. */
    method GetPolicyWiseData() returns (stats: seq<PolicyStat>)
      requires Valid()
      ensures stats == FormatPolicyStats(Tallies(students, order, Ctx()))
    {
      var results := ProcessPlacements();
      var policyStats := InitialTallies();
      policyStats := ProcessPolicyStats(order, policyStats);
      forall p | 0 <= p < |Order| ensures policyStats[p] == TallyAt(students, order, Ctx(), p) {
        CombineUnit(TallyAt(students, order, Ctx(), p));
      }
      assert policyStats == Tallies(students, order, Ctx());
      stats := FormatPolicyStats(policyStats);
    }

    /** The five listings. */
    method GetStudentStates() returns (states: StudentStates)
      requires Valid()
      ensures states == StatesOf(AllStudents(students, order, Ctx()))
    {
      var all := GetAllStudents();
      states := StudentStates(all, ByPlacement(all, true), ByPlacement(all, false),
                              ByEligibility(all, true), ByEligibility(all, false));
    }

    /** The summary: listings, company, policy-wise data, shares and counts,
        all of the pool as it stands. */
    method GetSummaryReport() returns (report: SummaryReport)
      requires Valid()
      ensures var states := StatesOf(AllStudents(students, order, Ctx()));
              report == SummaryReport(states, company, FormatPolicyStats(Tallies(students, order, Ctx())),
                                      CalculatePercentages(states), CountsOf(states))
    {
      var states := GetStudentStates();
      var percentages := CalculatePercentages(states);
      var c := GetCompany();
      var policyWiseData := GetPolicyWiseData();
      report := SummaryReport(states, c, policyWiseData, percentages, CountsOf(states));
    }
  }
}
