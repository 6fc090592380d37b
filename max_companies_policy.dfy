// The maximum-applications check (src/lib/maxCompaniesPolicy.ts).
module MaxCompaniesCheck {
  import opened Types

  /** Eligible when disabled or when the student is not yet placed;
      a placed student stays eligible only while strictly under the limit.
      Every branch gives exactly one reason. */
  function CheckMaxCompaniesPolicy(student: Student, policy: MaxCompaniesPolicy): (r: PolicyResult)
    ensures |r.reasons| == 1 && r.reasons[0] != EligibleByDefault
    ensures !policy.enabled ==> r == PolicyResult(true, [MaxCompaniesDisabled])
    ensures policy.enabled && !student.isPlaced ==> r == PolicyResult(true, [NotPlacedTillNow])
    ensures r.eligible <==> !policy.enabled || !student.isPlaced || student.companiesApplied < policy.maxApplications
  {
    if !policy.enabled then
      PolicyResult(true, [MaxCompaniesDisabled])
    else if !student.isPlaced then
      PolicyResult(true, [NotPlacedTillNow])
    else
      var eligible := student.companiesApplied < policy.maxApplications;
      PolicyResult(eligible,
        if eligible then [WithinMaxApplications(student.companiesApplied, policy.maxApplications)]
        else [ExceedsMaxApplications(student.companiesApplied, policy.maxApplications)])
  }

  /** A placed student who has used exactly the allowed number of
      applications is turned away, and the reason quotes both numbers. */
  lemma AtLimitIsIneligible(student: Student, policy: MaxCompaniesPolicy)
    requires policy.enabled && student.isPlaced
    requires student.companiesApplied == policy.maxApplications
    ensures CheckMaxCompaniesPolicy(student, policy)
            == PolicyResult(false, [ExceedsMaxApplications(policy.maxApplications, policy.maxApplications)])
  {
  }

  /** Fewer applications never hurt: if a student passes with some count,
      the same student with a smaller count passes too. */
  lemma MaxCompaniesMonotone(student: Student, fewer: int, policy: MaxCompaniesPolicy)
    requires fewer <= student.companiesApplied
    requires CheckMaxCompaniesPolicy(student, policy).eligible
    ensures CheckMaxCompaniesPolicy(student.(companiesApplied := fewer), policy).eligible
  {
  }
}
