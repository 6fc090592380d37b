// Records shared by the policy checks and the placement engine
// (src/types.ts). Descriptive optional fields that no decision reads
// (branch, year, email, phone, location, jobRole, requirements, deadline)
// are not part of the model.
module Types {

  datatype Option<+T> = None | Some(value: T)

  datatype Result<+T, +E> = Success(value: T) | Failure(error: E)

  /** A student record. `id` is the key of the pool; `eligible` is carried
      along but no decision reads it. */
  datatype Student = Student(
    id: int,
    name: string,
    cgpa: real,
    isPlaced: bool,
    currentSalary: real,
    companiesApplied: int,
    dreamOfferAmount: real,
    dreamCompanyName: string,
    eligible: bool)

  /** The single hiring company an engine evaluates its pool against. */
  datatype Company = Company(name: string, offeredSalary: real, category: string)

  datatype DreamCompanyPolicy = DreamCompanyPolicy(enabled: bool)

  datatype MaxCompaniesPolicy = MaxCompaniesPolicy(enabled: bool, maxApplications: int)

  datatype CgpaThresholdPolicy = CgpaThresholdPolicy(enabled: bool, minCgpa: real, highSalaryThreshold: real)

  datatype PlacementPercentagePolicy = PlacementPercentagePolicy(enabled: bool, targetPercentage: real)

  datatype OfferCategoryPolicy = OfferCategoryPolicy(
    enabled: bool,
    l1Threshold: real,
    l2Threshold: real,
    l3Threshold: real,
    requiredHikePercentageL2: real)

  datatype DreamOfferPolicy = DreamOfferPolicy(enabled: bool)

  /** A complete policy configuration: one block per registry key. */
  datatype Policies = Policies(
    maxCompaniesPolicy: MaxCompaniesPolicy,
    dreamOfferPolicy: DreamOfferPolicy,
    dreamCompanyPolicy: DreamCompanyPolicy,
    cgpaThresholdPolicy: CgpaThresholdPolicy,
    placementPercentagePolicy: PlacementPercentagePolicy,
    offerCategoryPolicy: OfferCategoryPolicy)

  /** The human-readable reasons, one token per distinct message a check can
      emit; the measured values a message quotes are kept as arguments.
      The three checks that print the same "student is not placed" text
      share `StudentNotPlaced`. */
  datatype Reason =
    | DreamCompanyDisabled
    | DreamCompanyMatch(dreamCompany: string, company: string)
    | DreamCompanyMismatch(dreamCompany: string, company: string)
    | MaxCompaniesDisabled
    | NotPlacedTillNow
    | WithinMaxApplications(applied: int, maxAllowed: int)
    | ExceedsMaxApplications(applied: int, maxAllowed: int)
    | CgpaThresholdDisabled
    | SalaryBelowHighSalaryThreshold
    | CgpaMeetsThreshold(cgpa: real, minCgpa: real)
    | CgpaBelowThreshold(cgpa: real, minCgpa: real)
    | PlacementPercentageDisabled
    | StudentNotPlaced
    | PercentageMeetsTarget(percentage: real, target: real)
    | PercentageBelowTarget(percentage: real, target: real)
    | OfferCategoryDisabled
    | L1CannotApply
    | L2HikeMet(offered: real)
    | L2HikeNotMet(offered: real, required: real)
    | L3Unrestricted
    | DreamOfferDisabled
    | MeetsDreamOffer(offered: real, dreamOffer: real)
    | BelowDreamOffer(offered: real, dreamOffer: real)
    | EligibleByDefault

  /** The outcome of one policy check, or of a whole decision. */
  datatype PolicyResult = PolicyResult(eligible: bool, reasons: seq<Reason>)
}
