// Building an engine and replacing its policies (create, the constructor,
// validateInputs, validateStudent, validatePoliciesObject and
// updatePolicies in src/engine.ts).
module Construction {
  import opened Types
  import opened Registry
  import opened Cohort

  /** A policy object that may lack some of the six blocks: what a caller or
      a remote document supplies, and what `updatePolicies` merges in. */
  datatype PartialPolicies = PartialPolicies(
    maxCompaniesPolicy: Option<MaxCompaniesPolicy>,
    dreamOfferPolicy: Option<DreamOfferPolicy>,
    dreamCompanyPolicy: Option<DreamCompanyPolicy>,
    cgpaThresholdPolicy: Option<CgpaThresholdPolicy>,
    placementPercentagePolicy: Option<PlacementPercentagePolicy>,
    offerCategoryPolicy: Option<OfferCategoryPolicy>)

  /** Where the policies come from: given inline, or fetched from a URL. The
      fetch itself is outside the model; `fetched` is its outcome, None when
      it failed. */
  datatype PolicySource =
    | Inline(policies: PartialPolicies)
    | Remote(url: string, fetched: Option<PartialPolicies>)

  datatype ConstructError =
    | FetchFailed(url: string)
    | EmptyStudents
    | MissingPolicyKeys(required: seq<PolicyKey>)
    | InvalidStudentId

  /** Whether the object has the block a registry key names. */
  predicate HasKey(p: PartialPolicies, k: PolicyKey) {
    match k
    case DreamCompany => p.dreamCompanyPolicy.Some?
    case MaxCompanies => p.maxCompaniesPolicy.Some?
    case CgpaThreshold => p.cgpaThresholdPolicy.Some?
    case PlacementPercentage => p.placementPercentagePolicy.Some?
    case OfferCategory => p.offerCategoryPolicy.Some?
    case DreamOffer => p.dreamOfferPolicy.Some?
  }

  /** Every registry key is present. */
  predicate HasAllKeys(p: PartialPolicies) {
    forall i :: 0 <= i < |Order| ==> HasKey(p, Order[i])
  }

  /** The complete configuration of an object that has every block. */
  function Complete(p: PartialPolicies): Policies
    requires HasAllKeys(p)
  {
    assert HasKey(p, Order[0]) && HasKey(p, Order[1]) && HasKey(p, Order[2]);
    assert HasKey(p, Order[3]) && HasKey(p, Order[4]) && HasKey(p, Order[5]);
    Policies(p.maxCompaniesPolicy.value, p.dreamOfferPolicy.value, p.dreamCompanyPolicy.value,
             p.cgpaThresholdPolicy.value, p.placementPercentagePolicy.value, p.offerCategoryPolicy.value)
  }

  /** The inputs of a new engine, checked in the order the source checks
      them: a failed fetch, an empty student list, a policy object missing a
      registry key, then a student whose id is 0 (the one falsy number the
      model has). On success: the pool the student list builds and the
      complete policies. */
  function Construct(students: seq<Student>, source: PolicySource): (r: Result<(Pool, Policies), ConstructError>)
    ensures source.Remote? && source.fetched.None? ==> r == Failure(FetchFailed(source.url))
    ensures !(source.Remote? && source.fetched.None?) && students == [] ==> r == Failure(EmptyStudents)
    ensures r.Success? <==>
              && !(source.Remote? && source.fetched.None?)
              && students != []
              && HasAllKeys(if source.Inline? then source.policies else source.fetched.value)
              && forall i :: 0 <= i < |students| ==> students[i].id != 0
    ensures !(source.Remote? && source.fetched.None?) && students != []
              && !HasAllKeys(if source.Inline? then source.policies else source.fetched.value) ==>
              r == Failure(MissingPolicyKeys(Order))
    ensures !(source.Remote? && source.fetched.None?) && students != []
              && HasAllKeys(if source.Inline? then source.policies else source.fetched.value)
              && (exists i :: 0 <= i < |students| && students[i].id == 0) ==>
              r == Failure(InvalidStudentId)
    ensures r.Failure? && r.error == InvalidStudentId ==> exists i :: 0 <= i < |students| && students[i].id == 0
    ensures r.Success? ==>
              && r.value.0 == BuildPool(students)
              && r.value.1 == Complete(if source.Inline? then source.policies else source.fetched.value)
    ensures r.Success? ==>
              && WellFormed(r.value.0.byId, r.value.0.order)
              && r.value.0.order != []
              && (forall id :: id in r.value.0.byId ==> id != 0)
              && (forall i :: 0 <= i < |students| ==> students[i].id in r.value.0.byId)
  {
    var loaded: Result<PartialPolicies, ConstructError> :=
      match source
      case Inline(p) => Success(p)
      case Remote(url, fetched) => if fetched.Some? then Success(fetched.value) else Failure(FetchFailed(url));
    if loaded.Failure? then Failure(loaded.error)
    else if students == [] then Failure(EmptyStudents)
    else if !HasAllKeys(loaded.value) then Failure(MissingPolicyKeys(Order))
    else if exists i :: 0 <= i < |students| && students[i].id == 0 then Failure(InvalidStudentId)
    else
      BuildPoolSpec(students);
      var pool := BuildPool(students);
      assert students[0].id in pool.byId;
      Success((pool, Complete(loaded.value)))
  }

  /** `{...current, ...update}`: every block the update supplies replaces the
      current one, the rest stay. */
  function Merge(current: Policies, update: PartialPolicies): Policies {
    Policies(
      if update.maxCompaniesPolicy.Some? then update.maxCompaniesPolicy.value else current.maxCompaniesPolicy,
      if update.dreamOfferPolicy.Some? then update.dreamOfferPolicy.value else current.dreamOfferPolicy,
      if update.dreamCompanyPolicy.Some? then update.dreamCompanyPolicy.value else current.dreamCompanyPolicy,
      if update.cgpaThresholdPolicy.Some? then update.cgpaThresholdPolicy.value else current.cgpaThresholdPolicy,
      if update.placementPercentagePolicy.Some? then update.placementPercentagePolicy.value
      else current.placementPercentagePolicy,
      if update.offerCategoryPolicy.Some? then update.offerCategoryPolicy.value else current.offerCategoryPolicy)
  }

  /** Merging an empty update changes nothing; merging the same update twice
      is merging it once; an update with every block replaces the whole
      configuration. */
  lemma MergeLaws(current: Policies, update: PartialPolicies)
    ensures Merge(current, PartialPolicies(None, None, None, None, None, None)) == current
    ensures Merge(Merge(current, update), update) == Merge(current, update)
    ensures HasAllKeys(update) ==> Merge(current, update) == Complete(update)
  {
    if HasAllKeys(update) {
      assert HasKey(update, Order[0]) && HasKey(update, Order[1]) && HasKey(update, Order[2]);
      assert HasKey(update, Order[3]) && HasKey(update, Order[4]) && HasKey(update, Order[5]);
    }
  }

  /** A block the update leaves out stays exactly as it was: its enabled
      flag and every threshold, for every key. */
  lemma MergeKeepsMissingBlocks(current: Policies, update: PartialPolicies, k: PolicyKey)
    requires !HasKey(update, k)
    ensures Enabled(k, Merge(current, update)) == Enabled(k, current)
    ensures k == MaxCompanies ==> Merge(current, update).maxCompaniesPolicy == current.maxCompaniesPolicy
    ensures k == DreamOffer ==> Merge(current, update).dreamOfferPolicy == current.dreamOfferPolicy
    ensures k == DreamCompany ==> Merge(current, update).dreamCompanyPolicy == current.dreamCompanyPolicy
    ensures k == CgpaThreshold ==> Merge(current, update).cgpaThresholdPolicy == current.cgpaThresholdPolicy
    ensures k == PlacementPercentage ==>
              Merge(current, update).placementPercentagePolicy == current.placementPercentagePolicy
    ensures k == OfferCategory ==> Merge(current, update).offerCategoryPolicy == current.offerCategoryPolicy
  {
  }

  /** A block the update supplies replaces the current one whole, whatever
      the current configuration holds. */
  lemma MergeTakesSuppliedBlocks(current: Policies, update: PartialPolicies, k: PolicyKey)
    requires HasKey(update, k)
    ensures k == MaxCompanies ==> Merge(current, update).maxCompaniesPolicy == update.maxCompaniesPolicy.value
    ensures k == DreamOffer ==> Merge(current, update).dreamOfferPolicy == update.dreamOfferPolicy.value
    ensures k == DreamCompany ==> Merge(current, update).dreamCompanyPolicy == update.dreamCompanyPolicy.value
    ensures k == CgpaThreshold ==> Merge(current, update).cgpaThresholdPolicy == update.cgpaThresholdPolicy.value
    ensures k == PlacementPercentage ==>
              Merge(current, update).placementPercentagePolicy == update.placementPercentagePolicy.value
    ensures k == OfferCategory ==> Merge(current, update).offerCategoryPolicy == update.offerCategoryPolicy.value
  {
  }
}
