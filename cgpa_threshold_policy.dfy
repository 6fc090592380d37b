// The CGPA-threshold check (src/lib/cgpaThresholdPolicy.ts).
module CgpaThresholdCheck {
  import opened Types

  /** Eligible when disabled or when the company pays below the high-salary
      threshold; otherwise eligible exactly when the CGPA reaches the minimum.
      Placement status is never consulted. Every branch gives one reason. */
  function CheckCgpaThresholdPolicy(student: Student, company: Company, policy: CgpaThresholdPolicy): (r: PolicyResult)
    ensures |r.reasons| == 1 && r.reasons[0] != EligibleByDefault
    ensures !policy.enabled ==> r == PolicyResult(true, [CgpaThresholdDisabled])
    ensures policy.enabled && company.offeredSalary < policy.highSalaryThreshold
            ==> r == PolicyResult(true, [SalaryBelowHighSalaryThreshold])
    ensures r.eligible <==> !policy.enabled || company.offeredSalary < policy.highSalaryThreshold
                            || student.cgpa >= policy.minCgpa
  {
    if !policy.enabled then
      PolicyResult(true, [CgpaThresholdDisabled])
    else if company.offeredSalary < policy.highSalaryThreshold then
      PolicyResult(true, [SalaryBelowHighSalaryThreshold])
    else
      var eligible := student.cgpa >= policy.minCgpa;
      PolicyResult(eligible,
        if eligible then [CgpaMeetsThreshold(student.cgpa, policy.minCgpa)]
        else [CgpaBelowThreshold(student.cgpa, policy.minCgpa)])
  }

  /** Raising the CGPA, or lowering the offered salary, never turns an
      eligible verdict into an ineligible one. */
  lemma CgpaThresholdMonotone(student: Student, company: Company, policy: CgpaThresholdPolicy,
                              higherCgpa: real, lowerSalary: real)
    requires higherCgpa >= student.cgpa && lowerSalary <= company.offeredSalary
    requires CheckCgpaThresholdPolicy(student, company, policy).eligible
    ensures CheckCgpaThresholdPolicy(student.(cgpa := higherCgpa), company.(offeredSalary := lowerSalary), policy).eligible
  {
  }

  /** The verdict is the same whether or not the student is placed. */
  lemma CgpaThresholdIgnoresPlacement(student: Student, company: Company, policy: CgpaThresholdPolicy, placed: bool)
    ensures CheckCgpaThresholdPolicy(student.(isPlaced := placed), company, policy)
            == CheckCgpaThresholdPolicy(student, company, policy)
  {
  }
}
