// The dream-offer check (src/lib/dreamOfferPolicy.ts).
module DreamOfferCheck {
  import opened Types

  /** Eligible when disabled or not placed; a placed student passes exactly
      when the offer reaches the student's dream-offer amount. Every branch
      gives exactly one reason. */
  function CheckDreamOfferPolicy(student: Student, company: Company, policy: DreamOfferPolicy): (r: PolicyResult)
    ensures |r.reasons| == 1 && r.reasons[0] != EligibleByDefault
    ensures !policy.enabled ==> r == PolicyResult(true, [DreamOfferDisabled])
    ensures policy.enabled && !student.isPlaced ==> r == PolicyResult(true, [StudentNotPlaced])
    ensures r.eligible <==> !policy.enabled || !student.isPlaced
                            || company.offeredSalary >= student.dreamOfferAmount
  {
    if !policy.enabled then
      PolicyResult(true, [DreamOfferDisabled])
    else if !student.isPlaced then
      PolicyResult(true, [StudentNotPlaced])
    else
      var eligible := company.offeredSalary >= student.dreamOfferAmount;
      PolicyResult(eligible,
        if eligible then [MeetsDreamOffer(company.offeredSalary, student.dreamOfferAmount)]
        else [BelowDreamOffer(company.offeredSalary, student.dreamOfferAmount)])
  }

  /** A higher offered salary never turns eligible into ineligible. */
  lemma DreamOfferMonotone(student: Student, company: Company, policy: DreamOfferPolicy, higher: real)
    requires higher >= company.offeredSalary
    requires CheckDreamOfferPolicy(student, company, policy).eligible
    ensures CheckDreamOfferPolicy(student, company.(offeredSalary := higher), policy).eligible
  {
  }
}
