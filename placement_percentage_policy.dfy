// The cohort placement-percentage check
// (src/lib/placementPercentagePolicy.ts).
module PlacementPercentageCheck {
  import opened Types

  /** Eligible when disabled or when the student is not placed; a placed
      student passes exactly when the cohort's placement percentage has
      reached the target. Every branch gives exactly one reason. */
  function CheckPlacementPercentagePolicy(student: Student, currentPlacementPercentage: real,
                                          policy: PlacementPercentagePolicy): (r: PolicyResult)
    ensures |r.reasons| == 1 && r.reasons[0] != EligibleByDefault
    ensures !policy.enabled ==> r == PolicyResult(true, [PlacementPercentageDisabled])
    ensures policy.enabled && !student.isPlaced ==> r == PolicyResult(true, [StudentNotPlaced])
    ensures r.eligible <==> !policy.enabled || !student.isPlaced
                            || currentPlacementPercentage >= policy.targetPercentage
  {
    if !policy.enabled then
      PolicyResult(true, [PlacementPercentageDisabled])
    else if !student.isPlaced then
      PolicyResult(true, [StudentNotPlaced])
    else
      var eligible := currentPlacementPercentage >= policy.targetPercentage;
      PolicyResult(eligible,
        if eligible then [PercentageMeetsTarget(currentPlacementPercentage, policy.targetPercentage)]
        else [PercentageBelowTarget(currentPlacementPercentage, policy.targetPercentage)])
  }

  /** A higher cohort percentage never turns eligible into ineligible. */
  lemma PlacementPercentageMonotone(student: Student, p: real, q: real, policy: PlacementPercentagePolicy)
    requires p <= q
    requires CheckPlacementPercentagePolicy(student, p, policy).eligible
    ensures CheckPlacementPercentagePolicy(student, q, policy).eligible
  {
  }
}
