// The offer-category check (src/lib/offerCategoryPolicy.ts).
module OfferCategoryCheck {
  import opened Types

  /** Salary bands: L1 is the highest. */
  datatype Category = L1 | L2 | L3

  /** The band of a salary, checked in the order L1, L2, L3; the L3
      threshold is never read. */
  function GetCategory(salary: real, policy: OfferCategoryPolicy): (c: Category)
    ensures c == L1 <==> salary >= policy.l1Threshold
    ensures c == L2 <==> salary < policy.l1Threshold && salary >= policy.l2Threshold
    ensures c == L3 <==> salary < policy.l1Threshold && salary < policy.l2Threshold
  {
    if salary >= policy.l1Threshold then L1
    else if salary >= policy.l2Threshold then L2
    else L3
  }

  /** Rank of a band, 1 for L1 up to 3 for L3. */
  function Rank(c: Category): nat {
    match c
    case L1 => 1
    case L2 => 2
    case L3 => 3
  }

  /** A higher salary never falls into a lower band, whatever the
      thresholds are, and the L3 threshold does not matter. */
  lemma CategoryMonotone(low: real, high: real, policy: OfferCategoryPolicy, l3: real)
    requires low <= high
    ensures Rank(GetCategory(high, policy)) <= Rank(GetCategory(low, policy))
    ensures GetCategory(low, policy.(l3Threshold := l3)) == GetCategory(low, policy)
  {
  }

  /** The salary an L2 student must be offered: the current salary grown by
      the required hike percentage, so never below a non-negative current
      salary when the hike is non-negative, and above it when both are
      positive. */
  function RequiredSalary(currentSalary: real, policy: OfferCategoryPolicy): (r: real)
    ensures currentSalary >= 0.0 && policy.requiredHikePercentageL2 >= 0.0 ==> r >= currentSalary
    ensures currentSalary > 0.0 && policy.requiredHikePercentageL2 > 0.0 ==> r > currentSalary
  {
    var raise := currentSalary * (policy.requiredHikePercentageL2 / 100.0);
    assert currentSalary * (1.0 + policy.requiredHikePercentageL2 / 100.0) == currentSalary + raise;
    currentSalary * (1.0 + policy.requiredHikePercentageL2 / 100.0)
  }

  /** Eligible when disabled or not placed; otherwise by the band of the
      student's current salary: L1 never, L2 only with the required hike,
      L3 always. Every branch gives exactly one reason. */
  function CheckOfferCategoryPolicy(student: Student, company: Company, policy: OfferCategoryPolicy): (r: PolicyResult)
    ensures |r.reasons| == 1 && r.reasons[0] != EligibleByDefault
    ensures !policy.enabled ==> r == PolicyResult(true, [OfferCategoryDisabled])
    ensures policy.enabled && !student.isPlaced ==> r == PolicyResult(true, [StudentNotPlaced])
    ensures r.eligible <==>
      || !policy.enabled
      || !student.isPlaced
      || GetCategory(student.currentSalary, policy) == L3
      || (GetCategory(student.currentSalary, policy) == L2
          && company.offeredSalary >= RequiredSalary(student.currentSalary, policy))
  {
    if !policy.enabled then
      PolicyResult(true, [OfferCategoryDisabled])
    else if !student.isPlaced then
      PolicyResult(true, [StudentNotPlaced])
    else
      var currentCategory := GetCategory(student.currentSalary, policy);
      if currentCategory == L1 then
        PolicyResult(false, [L1CannotApply])
      else if currentCategory == L2 then
        var requiredSalary := RequiredSalary(student.currentSalary, policy);
        var eligible := company.offeredSalary >= requiredSalary;
        PolicyResult(eligible,
          if eligible then [L2HikeMet(company.offeredSalary)]
          else [L2HikeNotMet(company.offeredSalary, requiredSalary)])
      else
        PolicyResult(true, [L3Unrestricted])
  }

  /** A placed L1 student is turned away whatever the company offers. */
  lemma L1AlwaysIneligible(student: Student, policy: OfferCategoryPolicy)
    requires policy.enabled && student.isPlaced && student.currentSalary >= policy.l1Threshold
    ensures forall company :: CheckOfferCategoryPolicy(student, company, policy) == PolicyResult(false, [L1CannotApply])
  {
  }

  /** A placed L3 student passes whatever the company offers. */
  lemma L3AlwaysEligible(student: Student, policy: OfferCategoryPolicy)
    requires policy.enabled && student.isPlaced
    requires student.currentSalary < policy.l1Threshold && student.currentSalary < policy.l2Threshold
    ensures forall company :: CheckOfferCategoryPolicy(student, company, policy) == PolicyResult(true, [L3Unrestricted])
  {
  }

  /** A higher offered salary never turns eligible into ineligible. */
  lemma OfferCategoryMonotone(student: Student, company: Company, policy: OfferCategoryPolicy, higher: real)
    requires higher >= company.offeredSalary
    requires CheckOfferCategoryPolicy(student, company, policy).eligible
    ensures CheckOfferCategoryPolicy(student, company.(offeredSalary := higher), policy).eligible
  {
  }

  /** For a student with a positive salary and a positive required hike, an
      offer equal to the current salary is not enough in the L2 band. */
  lemma L2NeedsARaise(student: Student, company: Company, policy: OfferCategoryPolicy)
    requires policy.enabled && student.isPlaced
    requires GetCategory(student.currentSalary, policy) == L2
    requires student.currentSalary > 0.0 && policy.requiredHikePercentageL2 > 0.0
    requires company.offeredSalary == student.currentSalary
    ensures !CheckOfferCategoryPolicy(student, company, policy).eligible
  {
    var hike := policy.requiredHikePercentageL2 / 100.0;
    assert hike > 0.0;
    assert student.currentSalary * hike > 0.0;
    assert RequiredSalary(student.currentSalary, policy) == student.currentSalary + student.currentSalary * hike;
  }
}
