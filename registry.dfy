// The fixed, ordered policy registry and the dispatch from a registry key
// to its check (POLICY_CONFIG and createPolicyCheck in src/engine.ts).
module Registry {
  import opened Types
  import DreamCompanyCheck
  import MaxCompaniesCheck
  import CgpaThresholdCheck
  import PlacementPercentageCheck
  import OfferCategoryCheck
  import DreamOfferCheck

  /** One constructor per registry key. */
  datatype PolicyKey =
    | DreamCompany
    | MaxCompanies
    | CgpaThreshold
    | PlacementPercentage
    | OfferCategory
    | DreamOffer

  /** The registry order every evaluation follows. */
  const Order: seq<PolicyKey> :=
    [DreamCompany, MaxCompanies, CgpaThreshold, PlacementPercentage, OfferCategory, DreamOffer]

  /** Position of a key in the registry. */
  function Index(k: PolicyKey): (i: nat)
    ensures i < |Order| && Order[i] == k
  {
    match k
    case DreamCompany => 0
    case MaxCompanies => 1
    case CgpaThreshold => 2
    case PlacementPercentage => 3
    case OfferCategory => 4
    case DreamOffer => 5
  }

  /** Every key occurs once: the position of the i-th key is i. */
  lemma IndexOfOrder(i: nat)
    requires i < |Order|
    ensures Index(Order[i]) == i
  {
  }

  /** No key occurs twice in the registry. */
  lemma OrderDistinct(i: nat)
    requires i < |Order|
    ensures forall j :: 0 <= j < |Order| && j != i ==> Order[j] != Order[i]
  {
    forall j | 0 <= j < |Order| && j != i ensures Order[j] != Order[i] {
      IndexOfOrder(i);
      IndexOfOrder(j);
    }
  }

  /** The display name of a registry entry. */
  function Label(k: PolicyKey): string {
    match k
    case DreamCompany => "Dream Company"
    case MaxCompanies => "Max Companies"
    case CgpaThreshold => "CGPA Threshold"
    case PlacementPercentage => "Placement Percentage Policy"
    case OfferCategory => "Offer Category Policy"
    case DreamOffer => "Dream Offer Policy"
  }

  /** Everything a check may read besides the student: the company, the
      policy set and the cohort placement percentage at evaluation time. */
  datatype Context = Context(company: Company, policies: Policies, cohortPercentage: real)

  /** The enabled flag of a key's configuration block. */
  predicate Enabled(k: PolicyKey, policies: Policies) {
    match k
    case DreamCompany => policies.dreamCompanyPolicy.enabled
    case MaxCompanies => policies.maxCompaniesPolicy.enabled
    case CgpaThreshold => policies.cgpaThresholdPolicy.enabled
    case PlacementPercentage => policies.placementPercentagePolicy.enabled
    case OfferCategory => policies.offerCategoryPolicy.enabled
    case DreamOffer => policies.dreamOfferPolicy.enabled
  }

  /** Runs the check a key stands for with the arguments that check takes.
      Whatever the key, a disabled policy never blocks a student and the
      check gives exactly one reason, never the default one. */
  function CheckPolicy(k: PolicyKey, student: Student, ctx: Context): (r: PolicyResult)
    ensures |r.reasons| == 1 && r.reasons[0] != EligibleByDefault
    ensures !Enabled(k, ctx.policies) ==> r.eligible
  {
    match k
    case DreamCompany =>
      DreamCompanyCheck.CheckDreamCompanyPolicy(student, ctx.company, ctx.policies.dreamCompanyPolicy)
    case MaxCompanies =>
      MaxCompaniesCheck.CheckMaxCompaniesPolicy(student, ctx.policies.maxCompaniesPolicy)
    case CgpaThreshold =>
      CgpaThresholdCheck.CheckCgpaThresholdPolicy(student, ctx.company, ctx.policies.cgpaThresholdPolicy)
    case PlacementPercentage =>
      PlacementPercentageCheck.CheckPlacementPercentagePolicy(student, ctx.cohortPercentage, ctx.policies.placementPercentagePolicy)
    case OfferCategory =>
      OfferCategoryCheck.CheckOfferCategoryPolicy(student, ctx.company, ctx.policies.offerCategoryPolicy)
    case DreamOffer =>
      DreamOfferCheck.CheckDreamOfferPolicy(student, ctx.company, ctx.policies.dreamOfferPolicy)
  }
}
