// The two per-student views of the policy chain in src/engine.ts:
// decision mode (checkStudentEligibility: dream-company override, then a
// short-circuit over the other five policies) and full-map mode
// (getStudentPolicyEligibility: no override, every key from the first
// failure on is false).
module Decision {
  import opened Types
  import opened Registry

  /** The six check results of a student, in registry order. */
  function Results(s: Student, ctx: Context): (rs: seq<PolicyResult>)
    ensures |rs| == |Order|
    ensures forall i :: 0 <= i < |rs| ==> |rs[i].reasons| == 1 && rs[i].reasons[0] != EligibleByDefault
  {
    ChecksUpTo(s, ctx, |Order|)
  }

  /** The checks of the first n registry keys, in registry order. */
  function ChecksUpTo(s: Student, ctx: Context, n: nat): (rs: seq<PolicyResult>)
    requires n <= |Order|
    ensures |rs| == n
    ensures forall i :: 0 <= i < n ==> |rs[i].reasons| == 1 && rs[i].reasons[0] != EligibleByDefault
  {
    if n == 0 then [] else ChecksUpTo(s, ctx, n - 1) + [CheckPolicy(Order[n - 1], s, ctx)]
  }

  /** Entry i of the first n checks is the check of the i-th registry key. */
  lemma {:induction false} ChecksUpToAt(s: Student, ctx: Context, n: nat, i: nat)
    requires i < n <= |Order|
    ensures ChecksUpTo(s, ctx, n)[i] == CheckPolicy(Order[i], s, ctx)
  {
    if i < n - 1 {
      ChecksUpToAt(s, ctx, n - 1, i);
    }
  }

  /** Entry i of the results is the check of the i-th registry key. */
  lemma ResultsAt(s: Student, ctx: Context, i: nat)
    requires i < |Order|
    ensures |Results(s, ctx)| == |Order|
    ensures Results(s, ctx)[i] == CheckPolicy(Order[i], s, ctx)
  {
    ChecksUpToAt(s, ctx, |Order|, i);
  }

  /** Every entry of the results is the check of its registry key. */
  lemma ResultsAll(s: Student, ctx: Context)
    ensures |Results(s, ctx)| == |Order|
    ensures forall i :: 0 <= i < |Order| ==> Results(s, ctx)[i] == CheckPolicy(Order[i], s, ctx)
  {
    forall i | 0 <= i < |Order| ensures Results(s, ctx)[i] == CheckPolicy(Order[i], s, ctx) {
      ResultsAt(s, ctx, i);
    }
  }

  /** Position of the first ineligible result, or the length when all pass. */
  function FirstFailure(rs: seq<PolicyResult>): (f: nat)
    ensures f <= |rs|
    ensures forall j :: 0 <= j < f ==> rs[j].eligible
    ensures f < |rs| ==> !rs[f].eligible
    decreases |rs|
  {
    if rs == [] then 0
    else if !rs[0].eligible then 0
    else 1 + FirstFailure(rs[1..])
  }

  /** The reasons of a run of results, concatenated in order. */
  function AllReasons(rs: seq<PolicyResult>): seq<Reason>
    decreases |rs|
  {
    if rs == [] then [] else AllReasons(rs[..|rs| - 1]) + rs[|rs| - 1].reasons
  }

  /** Taking one more result appends its reasons. */
  lemma AllReasonsSnoc(rs: seq<PolicyResult>, n: nat)
    requires n < |rs|
    ensures AllReasons(rs[..n + 1]) == AllReasons(rs[..n]) + rs[n].reasons
  {
    assert rs[..n + 1][..n] == rs[..n];
  }

  /** When each result carries one reason, the concatenation has one entry
      per result, in the same order. */
  lemma {:induction false} AllReasonsOfSingles(rs: seq<PolicyResult>)
    requires forall i :: 0 <= i < |rs| ==> |rs[i].reasons| == 1
    ensures |AllReasons(rs)| == |rs|
    ensures forall i :: 0 <= i < |rs| ==> AllReasons(rs)[i] == rs[i].reasons[0]
    decreases |rs|
  {
    if rs != [] {
      AllReasonsOfSingles(rs[..|rs| - 1]);
    }
  }

  /** The dream-company override fires: the policy is enabled and passes. */
  predicate Override(s: Student, ctx: Context) {
    ctx.policies.dreamCompanyPolicy.enabled && CheckPolicy(DreamCompany, s, ctx).eligible
  }

  /** The short-circuit over a run of results: the first failing one
      decides, its reasons appended to those of the results before it; when
      none fails, eligible with all their reasons, or the default reason if
      there were none. */
  function ShortCircuit(rest: seq<PolicyResult>): PolicyResult {
    var f := FirstFailure(rest);
    if f < |rest| then
      PolicyResult(false, AllReasons(rest[..f]) + rest[f].reasons)
    else
      var trail := AllReasons(rest);
      PolicyResult(true, if |trail| > 0 then trail else [EligibleByDefault])
  }

  /** Decision mode. With the override, eligible with exactly the
      dream-company reasons; otherwise the short-circuit over registry
      positions 1..5 decides. */
  function Decide(s: Student, ctx: Context): (r: PolicyResult)
    ensures |r.reasons| >= 1
    ensures Override(s, ctx) ==> r == PolicyResult(true, CheckPolicy(DreamCompany, s, ctx).reasons)
  {
    if Override(s, ctx) then
      PolicyResult(true, CheckPolicy(DreamCompany, s, ctx).reasons)
    else
      ResultsAll(s, ctx);
      var rest := Results(s, ctx)[1..];
      assert forall i :: 0 <= i < |rest| ==> rest[i] == CheckPolicy(Order[i + 1], s, ctx);
      ShortCircuit(rest)
  }

  /** A short-circuit stopped by the result at f: ineligible, with the
      reasons of the results before it followed by its own. */
  lemma ShortCircuitFails(rest: seq<PolicyResult>, f: nat)
    requires f < |rest| && !rest[f].eligible
    requires forall j :: 0 <= j < f ==> rest[j].eligible
    ensures ShortCircuit(rest) == PolicyResult(false, AllReasons(rest[..f]) + rest[f].reasons)
  {
  }

  /** A short-circuit over results that all pass: eligible, with their
      reasons, or the default reason if there were none. */
  lemma ShortCircuitPasses(rest: seq<PolicyResult>)
    requires forall j :: 0 <= j < |rest| ==> rest[j].eligible
    ensures var trail := AllReasons(rest);
            ShortCircuit(rest) == PolicyResult(true, if |trail| > 0 then trail else [EligibleByDefault])
  {
  }

  /** A decision is ineligible exactly when the override does not fire and
      some policy at positions 1..5 fails. */
  lemma IneligibleIffLaterFailure(s: Student, ctx: Context)
    ensures !Decide(s, ctx).eligible <==>
              !Override(s, ctx) && exists i :: 1 <= i < |Order| && !CheckPolicy(Order[i], s, ctx).eligible
  {
    ResultsAll(s, ctx);
    if !Override(s, ctx) {
      var rest := Results(s, ctx)[1..];
      var f := FirstFailure(rest);
      if f < |rest| {
        assert !CheckPolicy(Order[f + 1], s, ctx).eligible;
      } else {
        assert forall i :: 1 <= i < |Order| ==> rest[i - 1] == CheckPolicy(Order[i], s, ctx);
      }
    }
  }

  /** Registry position of the policy that fails a student in decision mode
      (6 when none of positions 1..5 fails). */
  function FailingPosition(s: Student, ctx: Context): nat {
    1 + FirstFailure(Results(s, ctx)[1..])
  }

  /** The trail of a short-circuit over single-reason results: the reasons
      of the results before the first failure, then the failing one's. */
  lemma {:induction false} FailureTrail(rs: seq<PolicyResult>)
    requires forall i :: 0 <= i < |rs| ==> |rs[i].reasons| == 1
    requires FirstFailure(rs) < |rs|
    ensures var f := FirstFailure(rs);
            && |AllReasons(rs[..f]) + rs[f].reasons| == f + 1
            && forall j :: 0 <= j <= f ==> (AllReasons(rs[..f]) + rs[f].reasons)[j] == rs[j].reasons[0]
  {
    var f := FirstFailure(rs);
    AllReasonsOfSingles(rs[..f]);
  }

  /** Short-circuit: an ineligible decision names the first failing policy
      p among positions 1..5; its trail holds one reason from each policy
      at positions 1..p-1 (all of which passed) followed by p's reason, and
      nothing from any later policy. */
  lemma ShortCircuitTrail(s: Student, ctx: Context)
    requires !Decide(s, ctx).eligible
    ensures var p, rs := FailingPosition(s, ctx), Results(s, ctx);
            && 1 <= p < |Order|
            && (forall j :: 1 <= j < p ==> rs[j].eligible)
            && !rs[p].eligible
            && |Decide(s, ctx).reasons| == p
            && forall j :: 0 <= j < p ==> Decide(s, ctx).reasons[j] == rs[j + 1].reasons[0]
  {
    ResultsAll(s, ctx);
    var rs := Results(s, ctx);
    var rest := rs[1..];
    FailureTrail(rest);
  }

  /** When the override does not fire and all five remaining policies pass,
      the decision is eligible with one reason from each of them, in
      registry order, so the default reason is never needed. */
  lemma EligibleTrail(s: Student, ctx: Context)
    requires !Override(s, ctx) && Decide(s, ctx).eligible
    ensures |Decide(s, ctx).reasons| == |Order| - 1
    ensures forall j :: 0 <= j < |Order| - 1 ==> Decide(s, ctx).reasons[j] == CheckPolicy(Order[j + 1], s, ctx).reasons[0]
  {
    ResultsAll(s, ctx);
    var rest := Results(s, ctx)[1..];
    AllReasonsOfSingles(rest);
  }

  /** The fallback "Eligible by default policy" never appears in a decision:
      every check contributes a reason of its own. */
  lemma DefaultReasonNeverUsed(s: Student, ctx: Context)
    ensures EligibleByDefault !in Decide(s, ctx).reasons
  {
    var r := Decide(s, ctx);
    if !Override(s, ctx) {
      if r.eligible {
        EligibleTrail(s, ctx);
      } else {
        ShortCircuitTrail(s, ctx);
      }
    }
  }

  /** Full-map mode for one position: that result and every result before
      it are eligible. */
  predicate PassesThrough(rs: seq<PolicyResult>, i: nat)
    requires i < |rs|
  {
    forall j :: 0 <= j <= i ==> rs[j].eligible
  }

  /** Full-map mode over a run of registry results: one flag per key, true
      when that policy and every policy before it pass. */
  function FlagsOf(rs: seq<PolicyResult>): map<PolicyKey, bool>
    requires |rs| == |Order|
  {
    map k | k in Order :: PassesThrough(rs, Index(k))
  }

  /** A map over every key that holds, at each registry position, whether
      that position lies before the first failure, is the full map of the
      results. */
  lemma FlagsOfAllPositions(rs: seq<PolicyResult>, m: map<PolicyKey, bool>)
    requires |rs| == |Order|
    requires forall k :: k in m
    requires forall j :: 0 <= j < |Order| ==> m[Order[j]] == (j < FirstFailure(rs))
    ensures m == FlagsOf(rs)
  {
    forall k ensures k in FlagsOf(rs) && m[k] == FlagsOf(rs)[k] {
      assert Order[Index(k)] == k;
      PassesThroughIsBeforeFirstFailure(rs, Index(k));
    }
    assert m.Keys == FlagsOf(rs).Keys;
  }

  /** Full-map mode for a student, with no dream-company override. */
  function FullMap(s: Student, ctx: Context): map<PolicyKey, bool> {
    FlagsOf(Results(s, ctx))
  }

  /** How far a student gets in the full registry scan: the position of the
      first failing policy, 6 when every policy passes. */
  function Reach(s: Student, ctx: Context): nat {
    FirstFailure(Results(s, ctx))
  }

  /** Passing every result up to i is being before the first failure. */
  lemma PassesThroughIsBeforeFirstFailure(rs: seq<PolicyResult>, i: nat)
    requires i < |rs|
    ensures PassesThrough(rs, i) <==> i < FirstFailure(rs)
  {
    if i >= FirstFailure(rs) {
      assert !rs[FirstFailure(rs)].eligible;
    }
  }

  /** The flags are true on a prefix of the registry and false from the
      first failing result on. */
  lemma FlagsArePrefix(rs: seq<PolicyResult>)
    requires |rs| == |Order|
    ensures forall k :: k in FlagsOf(rs)
    ensures forall i :: 0 <= i < |Order| ==> (FlagsOf(rs)[Order[i]] <==> i < FirstFailure(rs))
  {
    forall k ensures k in FlagsOf(rs) {
      assert Order[Index(k)] == k;
    }
    forall i | 0 <= i < |Order|
      ensures FlagsOf(rs)[Order[i]] <==> i < FirstFailure(rs)
    {
      IndexOfOrder(i);
      PassesThroughIsBeforeFirstFailure(rs, i);
    }
  }

  /** A key's flag is true exactly when its position lies before the first
      failing policy: the map is true on a prefix of the registry and false
      from the first failure on, including the keys a scan never evaluates. */
  lemma FullMapIsPrefix(s: Student, ctx: Context)
    ensures Reach(s, ctx) <= |Order|
    ensures forall k :: k in FullMap(s, ctx)
    ensures forall i :: 0 <= i < |Order| ==> (FullMap(s, ctx)[Order[i]] <==> i < Reach(s, ctx))
  {
    FlagsArePrefix(Results(s, ctx));
  }

  /** The first entry is the dream-company check itself; the map applies no
      override, so a failed dream-company check makes every flag false. */
  lemma FullMapDreamCompanyIsOrdinary(s: Student, ctx: Context)
    ensures FullMap(s, ctx)[DreamCompany] == CheckPolicy(DreamCompany, s, ctx).eligible
    ensures !CheckPolicy(DreamCompany, s, ctx).eligible ==> forall k :: k in Order ==> !FullMap(s, ctx)[k]
  {
    ResultsAll(s, ctx);
    FullMapIsPrefix(s, ctx);
    assert Order[0] == DreamCompany;
    forall k | k in Order ensures !CheckPolicy(DreamCompany, s, ctx).eligible ==> !FullMap(s, ctx)[k] {
      assert Order[Index(k)] == k;
    }
  }

  /** With the dream-company policy disabled the two views agree: the
      decision is eligible exactly when every flag of the full map is true. */
  lemma ViewsAgreeWithoutDreamCompany(s: Student, ctx: Context)
    requires !ctx.policies.dreamCompanyPolicy.enabled
    ensures Decide(s, ctx).eligible <==> forall k :: k in Order ==> FullMap(s, ctx)[k]
  {
    ResultsAll(s, ctx);
    FullMapIsPrefix(s, ctx);
    var rs := Results(s, ctx);
    assert rs[0].eligible;
    if forall k :: k in Order ==> FullMap(s, ctx)[k] {
      assert FullMap(s, ctx)[Order[5]];
      forall i | 1 <= i < |Order| ensures CheckPolicy(Order[i], s, ctx).eligible {
        assert rs[i] == CheckPolicy(Order[i], s, ctx);
      }
    } else {
      var k :| k in Order && !FullMap(s, ctx)[k];
      assert Order[Index(k)] == k;
      assert !rs[Reach(s, ctx)].eligible;
      assert Reach(s, ctx) >= 1;
    }
  }

  /** The views can disagree: when the dream-company policy is enabled and
      fails, every full-map flag is false, yet the decision is eligible
      whenever the other five policies pass. */
  lemma ViewsDivergeOnDreamMismatch(s: Student, ctx: Context)
    requires ctx.policies.dreamCompanyPolicy.enabled && !CheckPolicy(DreamCompany, s, ctx).eligible
    requires forall i :: 1 <= i < |Order| ==> CheckPolicy(Order[i], s, ctx).eligible
    ensures Decide(s, ctx).eligible
    ensures forall k :: k in Order ==> !FullMap(s, ctx)[k]
  {
    ResultsAll(s, ctx);
    FullMapDreamCompanyIsOrdinary(s, ctx);
  }

  /** Under the override the decision is eligible even when later policies
      fail, although the full map records those failures. */
  lemma OverrideBeatsLaterFailures(s: Student, ctx: Context, i: nat)
    requires Override(s, ctx)
    requires 1 <= i < |Order| && !CheckPolicy(Order[i], s, ctx).eligible
    ensures Decide(s, ctx).eligible
    ensures !FullMap(s, ctx)[Order[i]]
  {
    ResultsAll(s, ctx);
    var rs := Results(s, ctx);
    assert !rs[i].eligible;
    FullMapIsPrefix(s, ctx);
  }
}
