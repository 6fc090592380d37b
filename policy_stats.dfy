// Per-policy statistics (initializePolicyStats, processPolicyStats and
// formatPolicyStats in src/engine.ts). For each student the registry is
// scanned left to right: every policy before the first failing one counts
// the student as eligible, the failing policy counts it as ineligible, and
// later policies do not count it at all. The scan applies no dream-company
// override.
module PolicyStats {
  import opened Types
  import opened Registry
  import opened Decision
  import opened Cohort

  /** The running counters and id lists of one policy. */
  datatype Tally = Tally(eligible: nat, ineligible: nat, eligibleStudents: seq<int>, ineligibleStudents: seq<int>)

  /** One formatted row of the policy-wise report. */
  datatype PolicyStat = PolicyStat(
    policyKey: PolicyKey,
    policy: string,
    eligible: bool,
    eligiblePercentage: real,
    inEligiblePercentage: real,
    eligibleStudents: seq<int>,
    inEligibleStudents: seq<int>)

  /** Zero counters and empty lists for every registry key. */
  function InitialTallies(): seq<Tally> {
    seq(|Order|, _ => Tally(0, 0, [], []))
  }

  /** The starting tallies are what scanning no student records. */
  lemma InitialTalliesAreEmptyScan(students: map<int, Student>, ctx: Context)
    ensures InitialTallies() == Tallies(students, [], ctx)
  {
  }

  /** Adds the counts and appends the lists of a second tally. */
  function Combine(t: Tally, u: Tally): Tally {
    Tally(t.eligible + u.eligible, t.ineligible + u.ineligible,
          t.eligibleStudents + u.eligibleStudents, t.ineligibleStudents + u.ineligibleStudents)
  }

  /** The ids, in scan order, whose students pass policy p and every policy
      before it. */
  function PassedIds(students: map<int, Student>, ids: seq<int>, ctx: Context, p: nat): seq<int>
    requires InPool(students, ids)
    decreases |ids|
  {
    if ids == [] then []
    else
      var last := ids[|ids| - 1];
      PassedIds(students, ids[..|ids| - 1], ctx, p) + (if p < Reach(students[last], ctx) then [last] else [])
  }

  /** The ids, in scan order, whose students first fail at policy p. */
  function FailedIds(students: map<int, Student>, ids: seq<int>, ctx: Context, p: nat): seq<int>
    requires InPool(students, ids)
    decreases |ids|
  {
    if ids == [] then []
    else
      var last := ids[|ids| - 1];
      FailedIds(students, ids[..|ids| - 1], ctx, p) + (if p == Reach(students[last], ctx) then [last] else [])
  }

  /** What the scan records for policy p over the given ids. */
  function TallyAt(students: map<int, Student>, ids: seq<int>, ctx: Context, p: nat): Tally
    requires InPool(students, ids)
  {
    var passed := PassedIds(students, ids, ctx, p);
    var failed := FailedIds(students, ids, ctx, p);
    Tally(|passed|, |failed|, passed, failed)
  }

  /** The tallies of all six policies, in registry order. */
  function Tallies(students: map<int, Student>, ids: seq<int>, ctx: Context): seq<Tally>
    requires InPool(students, ids)
  {
    seq(|Order|, p requires 0 <= p < |Order| => TallyAt(students, ids, ctx, p))
  }

  /** What scanning one student, whose first failure is at position r,
      adds to the tally of policy p. */
  function Contribution(id: int, r: nat, p: nat): Tally {
    Tally(if p < r then 1 else 0, if p == r then 1 else 0,
          if p < r then [id] else [], if p == r then [id] else [])
  }

  /** Zero counters with empty lists are the left unit of combining. */
  lemma CombineUnit(a: Tally)
    ensures Combine(Tally(0, 0, [], []), a) == a
  {
  }

  /** Combining is associative. */
  lemma CombineAssociative(a: Tally, b: Tally, c: Tally)
    ensures Combine(Combine(a, b), c) == Combine(a, Combine(b, c))
  {
    assert (a.eligibleStudents + b.eligibleStudents) + c.eligibleStudents
        == a.eligibleStudents + (b.eligibleStudents + c.eligibleStudents);
    assert (a.ineligibleStudents + b.ineligibleStudents) + c.ineligibleStudents
        == a.ineligibleStudents + (b.ineligibleStudents + c.ineligibleStudents);
  }

  /** Scanning one more id adds its contribution to the tally of policy p. */
  lemma TallyAtSnoc(students: map<int, Student>, ids: seq<int>, ctx: Context, n: nat, p: nat)
    requires InPool(students, ids) && n < |ids|
    ensures InPool(students, ids[..n]) && InPool(students, ids[..n + 1])
    ensures TallyAt(students, ids[..n + 1], ctx, p) ==
              Combine(TallyAt(students, ids[..n], ctx, p), Contribution(ids[n], Reach(students[ids[n]], ctx), p))
  {
    assert ids[..n + 1][..n] == ids[..n];
  }

  /** Membership by scan position: a student is listed as eligible for
      policy p exactly when it gets past p, and as ineligible exactly when p
      is where it stops. */
  lemma {:induction false} ReachMembers(students: map<int, Student>, ids: seq<int>, ctx: Context, p: nat)
    requires InPool(students, ids)
    ensures forall id :: id in PassedIds(students, ids, ctx, p) <==>
              id in ids && p < Reach(students[id], ctx)
    ensures forall id :: id in FailedIds(students, ids, ctx, p) <==>
              id in ids && Reach(students[id], ctx) == p
    decreases |ids|
  {
    if ids != [] {
      var init := ids[..|ids| - 1];
      ReachMembers(students, init, ctx, p);
      forall id | id in ids ensures id in init || id == ids[|ids| - 1] {
        var k :| 0 <= k < |ids| && ids[k] == id;
        if k < |ids| - 1 { assert init[k] == id; }
      }
    }
  }

  /** Membership: a student is listed as eligible for policy p exactly when
      its full-map flag for p is true, and as ineligible exactly when p is
      the first policy it fails. */
  lemma TallyMembers(students: map<int, Student>, ids: seq<int>, ctx: Context, p: nat)
    requires InPool(students, ids) && p < |Order|
    ensures forall id :: id in PassedIds(students, ids, ctx, p) <==>
              id in ids && FullMap(students[id], ctx)[Order[p]]
    ensures forall id :: id in FailedIds(students, ids, ctx, p) <==>
              id in ids && Reach(students[id], ctx) == p
  {
    ReachMembers(students, ids, ctx, p);
    forall id | id in ids
      ensures FullMap(students[id], ctx)[Order[p]] <==> p < Reach(students[id], ctx)
    {
      FullMapIsPrefix(students[id], ctx);
    }
  }

  /** Every student reaches the first policy: its eligible and ineligible
      counts add up to the number of students scanned. */
  lemma {:induction false} FirstPolicySeesEveryone(students: map<int, Student>, ids: seq<int>, ctx: Context)
    requires InPool(students, ids)
    ensures TallyAt(students, ids, ctx, 0).eligible + TallyAt(students, ids, ctx, 0).ineligible == |ids|
    decreases |ids|
  {
    if ids != [] {
      FirstPolicySeesEveryone(students, ids[..|ids| - 1], ctx);
    }
  }

  /** The students counted at policy p+1, eligible or not, are exactly those
      counted eligible at policy p. */
  lemma {:induction false} TallyChain(students: map<int, Student>, ids: seq<int>, ctx: Context, p: nat)
    requires InPool(students, ids)
    ensures TallyAt(students, ids, ctx, p + 1).eligible + TallyAt(students, ids, ctx, p + 1).ineligible
            == TallyAt(students, ids, ctx, p).eligible
    decreases |ids|
  {
    if ids != [] {
      TallyChain(students, ids[..|ids| - 1], ctx, p);
    }
  }

  /** No student is listed as ineligible under two different policies. */
  lemma AtMostOneFailure(students: map<int, Student>, ids: seq<int>, ctx: Context, p: nat, q: nat, id: int)
    requires InPool(students, ids) && p < |Order| && q < |Order|
    requires id in FailedIds(students, ids, ctx, p) && id in FailedIds(students, ids, ctx, q)
    ensures p == q
  {
    TallyMembers(students, ids, ctx, p);
    TallyMembers(students, ids, ctx, q);
  }

  /** One formatted row per registry key, in registry order: the key, its
      label and lists; `eligible` says whether anybody passed; the two
      percentages are shares of the students the policy counted, both 0 when
      it counted nobody, and otherwise summing to 100. */
  function FormatPolicyStats(ts: seq<Tally>): (r: seq<PolicyStat>)
    requires |ts| == |Order|
    ensures |r| == |Order|
    ensures forall i :: 0 <= i < |Order| ==>
              && r[i].policyKey == Order[i]
              && r[i].policy == Label(Order[i])
              && r[i].eligibleStudents == ts[i].eligibleStudents
              && r[i].inEligibleStudents == ts[i].ineligibleStudents
              && (r[i].eligible <==> ts[i].eligible > 0)
              && (ts[i].eligible + ts[i].ineligible == 0 ==>
                    r[i].eligiblePercentage == 0.0 && r[i].inEligiblePercentage == 0.0)
              && (ts[i].eligible + ts[i].ineligible > 0 ==>
                    r[i].eligiblePercentage + r[i].inEligiblePercentage == 100.0
                    && 0.0 <= r[i].eligiblePercentage <= 100.0
                    && 0.0 <= r[i].inEligiblePercentage <= 100.0)
  {
    seq(|Order|, i requires 0 <= i < |Order| => FormatOne(Order[i], ts[i]))
  }

  /** The two percentages of a formatted row are the shares of the
      students its policy counted: passed, and stopped, times 100 over both. */
  lemma FormattedShares(ts: seq<Tally>, i: nat)
    requires |ts| == |Order| && i < |Order| && ts[i].eligible + ts[i].ineligible > 0
    ensures var r, total := FormatPolicyStats(ts)[i], (ts[i].eligible + ts[i].ineligible) as real;
            && r.eligiblePercentage * total == 100.0 * ts[i].eligible as real
            && r.inEligiblePercentage * total == 100.0 * ts[i].ineligible as real
  {
  }

  /** Formats the tally of one key. */
  function FormatOne(k: PolicyKey, t: Tally): (r: PolicyStat)
    ensures t.eligible + t.ineligible > 0 ==>
              && r.eligiblePercentage * (t.eligible + t.ineligible) as real == 100.0 * t.eligible as real
              && r.inEligiblePercentage * (t.eligible + t.ineligible) as real == 100.0 * t.ineligible as real
              && r.eligiblePercentage + r.inEligiblePercentage == 100.0
  {
    var total := t.eligible + t.ineligible;
    assert total > 0 ==> Percent(t.eligible, total) + Percent(t.ineligible, total) == 100.0 by {
      if total > 0 { PercentComplement(t.eligible, t.ineligible); }
    }
    PolicyStat(k, Label(k), t.eligible > 0,
               Percent(t.eligible, total), Percent(t.ineligible, total),
               t.eligibleStudents, t.ineligibleStudents)
  }
}
