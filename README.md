# Placement eligibility engine — a Dafny model

This project models the decision core of a campus-placement eligibility
engine. The engine holds a pool of students, one recruiting company and a
set of six placement policies, and decides which students may apply to the
company.

- **Six policy predicates** (`src/lib/*Policy.ts`). Each takes a student, the
  company or the cohort placement percentage, and one policy block. Each
  returns a verdict with exactly one reason. The predicates are dream
  company, maximum companies, CGPA threshold, placement percentage, offer
  category (L1/L2/L3 salary bands) and dream offer.
- **The registry** (`POLICY_CONFIG`). It fixes the order of the six policies.
- **Decision mode** (`checkStudentEligibility`). A passing, enabled
  dream-company check overrides everything else. Otherwise the other five
  policies are evaluated in a short circuit that keeps a trail of reasons.
- **Full-map mode** (`getStudentPolicyEligibility`). It applies no override.
  It gives one flag per policy, true up to the first failure and false from
  there on.
- **Per-policy statistics** (`processPolicyStats`, `formatPolicyStats`). They
  come from a left-to-right scan that stops at each student's first failure.
- **The summary report.** It holds the listings, shares and counts.
- **Construction, placement and policy update.** These are the engine's only
  state changes.

The pure parts are Dafny functions and lemmas, one module per source
concern:

- `Types`
- six `*Check` modules
- `Registry`
- `Cohort`
- `Decision`
- `PolicyStats`
- `Report`
- `Construction`
- `Placement`

The `PlacementEngine` class in module `Engine` keeps the source's mutable
state as fields: the students by id, the pool's iteration order, the company
and the policies. Its loops are methods, each proved against the
specification function of its module. `UpdatePlacementStatus` and
`UpdatePolicies` declare in their `modifies` clauses the one field each may
change.

Some modelling choices:

- Salaries, CGPA and percentages are `real`. Ids and application counts are
  `int`.
- Reasons are one token per distinct message (`Types.Reason`). The token
  carries the numbers the message prints; branches that print the same
  message, such as the not-placed branches of three checks, share a token.
- The pool is a `map<int, Student>` plus a `seq<int>` of distinct ids. The
  sequence gives the insertion order of the JavaScript `Map`.

## Model

| member | source | states |
|---|---|---|
| DreamCompanyCheck.CheckDreamCompanyPolicy | src/lib/dreamCompanyPolicy.ts:19-28 | exactly one reason; disabled ⇒ eligible with the disabled reason; enabled ⇒ eligible iff the lower-cased dream-company name equals the lower-cased company name |
| DreamCompanyCheck.ToLower | src/lib/dreamCompanyPolicy.ts:23 | `toLowerCase`: the same length, each character lower-cased in place (ASCII); ToLowerIdempotent and ToLowerOfUpper state its laws |
| DreamCompanyCheck.ToLowerIdempotent | src/lib/dreamCompanyPolicy.ts:23 | lower-casing twice is lower-casing once |
| DreamCompanyCheck.ToLowerOfUpper | src/lib/dreamCompanyPolicy.ts:23 | an upper-cased string lower-cases to the same thing as the original |
| DreamCompanyCheck.DreamCompanyIgnoresCase | src/lib/dreamCompanyPolicy.ts:23-26 | a dream-company name that is the company name in capitals still matches when the policy is enabled |
| DreamCompanyCheck.DreamCompanyDependsOnlyOnNames | src/lib/dreamCompanyPolicy.ts:19-28 | the verdict depends only on the enabled flag and the two names, not on salary, CGPA or placement |
| MaxCompaniesCheck.CheckMaxCompaniesPolicy | src/lib/maxCompaniesPolicy.ts:15-29 | one reason; disabled ⇒ eligible; unplaced ⇒ eligible whatever the count; placed ⇒ eligible iff applications < maximum (strict) |
| MaxCompaniesCheck.AtLimitIsIneligible | src/lib/maxCompaniesPolicy.ts:22-27 | a placed student whose application count equals the maximum is refused, with the exceeds reason |
| MaxCompaniesCheck.MaxCompaniesMonotone | src/lib/maxCompaniesPolicy.ts:22 | fewer applications never turn eligible into ineligible |
| CgpaThresholdCheck.CheckCgpaThresholdPolicy | src/lib/cgpaThresholdPolicy.ts:21-35 | one reason; disabled ⇒ eligible; offer below the high-salary threshold ⇒ eligible whatever the CGPA; otherwise eligible iff CGPA ≥ minimum |
| CgpaThresholdCheck.CgpaThresholdMonotone | src/lib/cgpaThresholdPolicy.ts:25-28 | a higher CGPA, or a lower offered salary, never turns eligible into ineligible |
| CgpaThresholdCheck.CgpaThresholdIgnoresPlacement | src/lib/cgpaThresholdPolicy.ts:21-35 | the verdict is the same whether or not the student is placed |
| PlacementPercentageCheck.CheckPlacementPercentagePolicy | src/lib/placementPercentagePolicy.ts:17-31 | one reason; disabled ⇒ eligible; unplaced ⇒ eligible whatever the percentage; placed ⇒ eligible iff the cohort percentage ≥ target |
| PlacementPercentageCheck.PlacementPercentageMonotone | src/lib/placementPercentagePolicy.ts:24 | a higher cohort percentage never turns eligible into ineligible |
| OfferCategoryCheck.GetCategory | src/lib/offerCategoryPolicy.ts:27-31 | the bands are checked in order: salary ≥ l1Threshold is L1, else ≥ l2Threshold is L2, else L3 |
| OfferCategoryCheck.CategoryMonotone | src/lib/offerCategoryPolicy.ts:27-31 | a higher salary never falls into a lower band, and l3Threshold never affects the band |
| OfferCategoryCheck.CheckOfferCategoryPolicy | src/lib/offerCategoryPolicy.ts:19-50 | one reason; disabled or unplaced ⇒ eligible; placed ⇒ eligible iff the current band is L3, or L2 with offer ≥ current × (1 + hike/100) |
| OfferCategoryCheck.RequiredSalary | src/lib/offerCategoryPolicy.ts:39 | the current salary grown by the L2 hike: never below a non-negative salary for a non-negative hike, and above it when both are positive |
| OfferCategoryCheck.L1AlwaysIneligible | src/lib/offerCategoryPolicy.ts:34-36 | a placed L1 student is refused for every offered salary |
| OfferCategoryCheck.L3AlwaysEligible | src/lib/offerCategoryPolicy.ts:49 | a placed L3 student is accepted for every company |
| OfferCategoryCheck.OfferCategoryMonotone | src/lib/offerCategoryPolicy.ts:38-46 | a higher offered salary never turns eligible into ineligible |
| OfferCategoryCheck.L2NeedsARaise | src/lib/offerCategoryPolicy.ts:38-46 | with a positive salary and a positive hike, an L2 student offered exactly the current salary is refused |
| DreamOfferCheck.CheckDreamOfferPolicy | src/lib/dreamOfferPolicy.ts:18-32 | one reason; disabled ⇒ eligible; unplaced ⇒ eligible; placed ⇒ eligible iff offer ≥ dream-offer amount |
| DreamOfferCheck.DreamOfferMonotone | src/lib/dreamOfferPolicy.ts:25 | a higher offered salary never turns eligible into ineligible |
| Registry.Index | src/engine.ts:23-30 | every key has one position in the registry order, and that position holds the key |
| Registry.Label | src/engine.ts:24-29 | the `name` column of the registry, one label per key; FormatPolicyStats states each row carries its key's label |
| Registry.IndexOfOrder | src/engine.ts:23-30 | the position of the key at position i is i, so the six keys are distinct |
| Registry.OrderDistinct | src/engine.ts:23-30 | no key occurs at two positions of the registry |
| Registry.CheckPolicy | src/engine.ts:102-121 | dispatches a key to its predicate with the company, or with the cohort percentage; the result has exactly one reason, never the default reason, and a disabled policy always passes |
| Registry.Enabled | src/lib/dreamCompanyPolicy.ts:20 | the `enabled` flag of a key's block, which every checker tests first (the same guard opens each of the six checkers); CheckPolicy states a disabled key never blocks, and MergeKeepsMissingBlocks that an update leaves an omitted flag alone |
| Cohort.InsertSpec | src/engine.ts:41-44 | adding a record the way `Map.set` does keeps the pool well formed and files the record under its id |
| Cohort.Insert | src/engine.ts:41-44 | `Map.set` of one record: InsertSpec states that it keeps the pool well formed and files the record under its id |
| Cohort.BuildPool | src/engine.ts:41-44 | `new Map(students.map(...))`: BuildPoolSpec, BuildPoolKeys and BuildPoolLastWins state that it holds exactly the listed ids with the last record per id, BuildPoolOrder that its order is the ids in order of first occurrence |
| Cohort.BuildPoolSpec | src/engine.ts:41-44 | the pool holds exactly the ids of the list, well formed, and under each id the last record carrying it |
| Cohort.BuildPoolWellFormed | src/engine.ts:41-44 | the built pool lists each id once, and each record is filed under its own id |
| Cohort.BuildPoolKeys | src/engine.ts:41-44 | the built pool's ids are exactly the ids occurring in the list |
| Cohort.BuildPoolLastWins | src/engine.ts:41-44 | a duplicate id keeps its last record |
| Cohort.BuildPoolDistinct | src/engine.ts:41-44 | without duplicate ids the order is the list's ids in list order, and every record is kept |
| Cohort.FirstIds | src/engine.ts:41-44 | the iteration order `new Map` gives a list with repeated keys: each id at the position where it first occurs, in list order |
| Cohort.BuildPoolOrder | src/engine.ts:41-44 | the pool's order is the ids in order of first occurrence, for every list, repeated ids included |
| Cohort.PlacedCount | src/engine.ts:98 | the placed count is at most the pool size |
| Cohort.PlacedCountIsPlacedIn | src/engine.ts:98 | scanning an order without repeated ids counts each placed id in it exactly once |
| Cohort.CohortPercentageOfMap | src/engine.ts:97-100 | in a well-formed pool the scan over the order counts exactly the map's placed records, so the cohort percentage is their share of the map's size |
| Cohort.Percent | src/engine.ts:317-318 | 0 for a zero total; otherwise the share times the total is 100 times the part; within [0, 100] when the part is at most the total |
| Cohort.CohortPercentage | src/engine.ts:97-100 | 0 for an empty pool; otherwise the percentage times the pool size is 100 times the placed count; always within [0, 100] |
| Cohort.ContextOf | src/engine.ts:102-121 | what createPolicyCheck hands a checker: the company, the policies and the cohort percentage of the pool as it stands; Placement.Place states a placement is decided in this context |
| Cohort.OneOfFourIsTwentyFive | src/engine.ts:97-100 | four students with one placed give 25 |
| Cohort.PercentComplement | src/engine.ts:317-319 | two parts that make up the whole have shares summing to 100 |
| Cohort.PoolSize | src/engine.ts:99 | the length of the order is the size of the map |
| Cohort.DistinctCardinality | src/engine.ts:99 | a sequence of distinct ids has as many elements as its set of ids |
| Decision.ChecksUpTo | src/engine.ts:132-135 | the checks of the first n registry keys: n results, each with exactly one reason, never the default one |
| Decision.Results | src/engine.ts:132-135 | six results, one per registry key, each with exactly one reason, never the default one |
| Decision.ChecksUpToAt | src/engine.ts:132-135 | entry i of the first n checks is the check of the i-th registry key |
| Decision.ResultsAt | src/engine.ts:132-135 | entry i of a student's results is the check of the i-th registry key |
| Decision.ResultsAll | src/engine.ts:132-135 | every entry of a student's results is the check of its registry key |
| Decision.FirstFailure | src/engine.ts:172-181 | the first failing position: every result before it passes, and the one at it fails |
| Decision.AllReasonsSnoc | src/engine.ts:182 | accumulating one more result appends its reasons |
| Decision.AllReasons | src/engine.ts:169-182 | the `reasons` accumulator of the decision loop: AllReasonsSnoc states one `push` appends a result's reasons, AllReasonsOfSingles that single-reason results give one reason each in order |
| Decision.AllReasonsOfSingles | src/engine.ts:182 | accumulating single-reason results gives one reason per result, in order |
| Decision.Decide | src/engine.ts:159-189 | never an empty reason list; the override gives eligible with exactly the dream-company reasons |
| Decision.Override | src/engine.ts:161-162 | the dream-company override test: Decide states the override gives eligible with the dream-company reasons, OverrideBeatsLaterFailures that it wins over any later failure, IneligibleIffLaterFailure that refusal needs its absence |
| Decision.ShortCircuit | src/engine.ts:169-188 | the loop after the override: ShortCircuitFails gives the earlier reasons plus the first failure's, ShortCircuitPasses the collected reasons or the default one |
| Decision.ShortCircuitFails | src/engine.ts:172-181 | a short circuit stopped by the result at f is ineligible, with the reasons of the results before f followed by f's own |
| Decision.ShortCircuitPasses | src/engine.ts:172-188 | a short circuit in which every result passes is eligible, with all their reasons, or the default reason when there are none |
| Decision.IneligibleIffLaterFailure | src/engine.ts:159-189 | a decision is ineligible iff the override does not fire and some policy at positions 1..5 fails |
| Decision.FailureTrail | src/engine.ts:176-181 | a failing short circuit's trail holds one reason per passing result before the failure, then the failing one's |
| Decision.ShortCircuitTrail | src/engine.ts:172-181 | an ineligible decision names the first failing policy p; the trail holds the reasons of positions 1..p-1, all of which passed, then p's reason, and nothing later |
| Decision.EligibleTrail | src/engine.ts:172-188 | without the override, an eligible decision carries one reason from each of the five remaining policies, in registry order |
| Decision.DefaultReasonNeverUsed | src/engine.ts:185-188 | the default reason never appears in a decision, because every check contributes a reason of its own |
| Decision.PassesThroughIsBeforeFirstFailure | src/engine.ts:130-143 | a position passes with everything before it exactly when it lies before the first failure |
| Decision.FlagsArePrefix | src/engine.ts:124-146 | the flags cover all six keys; a key's flag is true iff its position lies before the first failure |
| Decision.FlagsOf | src/engine.ts:124-146 | the flag map of a sequence of results: FlagsArePrefix states a key is true exactly when it comes before the first failure, FlagsOfAllPositions when another map equals it |
| Decision.FullMap | src/engine.ts:124-146 | the six flags of getStudentPolicyEligibility: FullMapIsPrefix states they are true up to the first failing check and false from it on |
| Decision.FlagsOfAllPositions | src/engine.ts:125-145 | a map over every key whose flag at each position says whether that position lies before the first failure is the full map |
| Decision.FullMapIsPrefix | src/engine.ts:124-146 | for a student, the full map covers every key and is true exactly on the positions before the first failing policy, including keys never evaluated |
| Decision.FullMapDreamCompanyIsOrdinary | src/engine.ts:124-146 | the dream-company flag is the plain check result, and a failed dream-company check makes every flag false |
| Decision.ViewsAgreeWithoutDreamCompany | src/engine.ts:124-189 | with the dream-company policy disabled, the decision is eligible iff every full-map flag is true |
| Decision.ViewsDivergeOnDreamMismatch | src/engine.ts:124-189 | with the dream-company policy enabled and failing, every flag is false, yet the decision is eligible when the other five pass |
| Decision.OverrideBeatsLaterFailures | src/engine.ts:161-167 | under the override the decision is eligible even though a later policy fails and the full map records that failure |
| PolicyStats.CombineAssociative | src/engine.ts:289-296 | adding tallies is associative |
| PolicyStats.CombineUnit | src/engine.ts:259-265 | zero counters and empty lists are the left unit of adding tallies |
| PolicyStats.InitialTallies | src/engine.ts:251-269 | zero counters and empty lists for every key: InitialTalliesAreEmptyScan states they are the tallies of scanning no student |
| PolicyStats.InitialTalliesAreEmptyScan | src/engine.ts:251-269 | the starting tallies equal the scan of an empty list of ids |
| PolicyStats.TallyAt | src/engine.ts:280-298 | what the scan records for one policy: ReachMembers and TallyMembers state who is listed eligible and ineligible, TallyChain and AtMostOneFailure how the counts relate |
| PolicyStats.PassedIds | src/engine.ts:293-295 | the `eligibleStudents.push` list of one policy: ReachMembers states it holds exactly the scanned ids that get past the policy |
| PolicyStats.FailedIds | src/engine.ts:289-292 | the `ineligibleStudents.push` list of one policy: ReachMembers states it holds exactly the scanned ids that first fail at the policy |
| PolicyStats.Contribution | src/engine.ts:282-296 | what one student adds to a policy's tally under the `failed` flag: TallyAtSnoc states it is what the scan adds, ScanStudent that the inner loop adds it |
| PolicyStats.Tallies | src/engine.ts:280-298 | the six tallies of the scan, in registry order: ProcessPolicyStats is proved to compute them |
| PolicyStats.TallyAtSnoc | src/engine.ts:280-298 | scanning one more student adds its contribution to a policy's tally: passed before its first failure, failed at it, nothing after |
| PolicyStats.ReachMembers | src/engine.ts:284-298 | a student is listed eligible for policy p iff its scan gets past p, and listed ineligible iff its scan stops at p |
| PolicyStats.TallyMembers | src/engine.ts:284-298 | a student is listed eligible for a policy iff its full-map flag there is true, and listed ineligible iff that policy is its first failure |
| PolicyStats.FirstPolicySeesEveryone | src/engine.ts:284-298 | the first policy counts every scanned student, eligible or not |
| PolicyStats.TallyChain | src/engine.ts:284-298 | eligible + ineligible at policy p+1 equals the eligible count at policy p |
| PolicyStats.AtMostOneFailure | src/engine.ts:289-292 | no student is listed as ineligible under two policies |
| PolicyStats.FormatPolicyStats | src/engine.ts:301-331 | one row per key in registry order with its label and lists; `eligible` iff the eligible count > 0; both shares 0 when the policy counted nobody, otherwise each in [0, 100] and summing to 100 |
| PolicyStats.FormatOne | src/engine.ts:315-330 | for a policy that counted somebody, each share times the count is 100 times its part, and the two shares sum to 100 |
| PolicyStats.FormattedShares | src/engine.ts:315-318 | in each formatted row, the eligible (ineligible) share times the number of students the policy counted is 100 times the eligible (ineligible) count |
| Report.Decisions | src/engine.ts:148-157 | the decision map has exactly the pool's ids, each mapped to that student's decision |
| Report.FilledFromOrder | src/engine.ts:151-154 | a map filled along an order that lists every id of the pool is the whole decision map |
| Report.AllStudentsSnoc | src/engine.ts:198-202 | listing one more id of the order appends that student's row |
| Report.AllStudentsRows | src/engine.ts:198-202 | the listing has one row per id of the order, and row i holds the i-th student with its full map and its decision |
| Report.AllStudents | src/engine.ts:195-203 | the rows of getAllStudents: AllStudentsRows states one row per id in pool order, holding that student, its flag map and its decision |
| Report.Row | src/engine.ts:198-202 | the row object of getAllStudents: AllStudentsRows states each row holds its student, the full flag map and the decision's verdict and reasons |
| Report.ByEligibility | src/engine.ts:191-193 | the rows with the wanted decision: every one kept and only those, none invented |
| Report.ByEligibilityAppend | src/engine.ts:337-338 | `filter` keeps order: filtering two blocks of rows is filtering the first, then the second |
| Report.ByPlacement | src/engine.ts:335-336 | the rows with the wanted placement flag: every one kept and only those, none invented |
| Report.ByPlacementAppend | src/engine.ts:335-336 | filtering by placement keeps order in the same way |
| Report.EligibilityPartition | src/engine.ts:337-338 | eligible rows plus ineligible rows are all rows |
| Report.PlacementPartition | src/engine.ts:335-336 | placed rows plus unplaced rows are all rows |
| Report.StatesOf | src/engine.ts:333-338 | the five listings of getStudentStates: ByPlacement and ByEligibility state what each keeps, and the partition lemmas that the pairs split the rows |
| Report.CalculatePercentages | src/engine.ts:349-358 | all four shares are 0 for no students; placed + unplaced shares sum to 100 when those listings split the students, and likewise eligible + ineligible |
| Report.PercentagesAreShares | src/engine.ts:349-358 | for a non-empty cohort each of the four shares times the number of students is 100 times its listing's length |
| Report.CountsOf | src/engine.ts:375-381 | placed + unplaced and eligible + ineligible counts are each the total |
| Construction.Construct | src/engine.ts:39-95 | a failed fetch fails first, then an empty list, then a missing policy key, then a zero id, each with its own error; success iff none of these applies; on success the engine holds the pool the list builds and the completed policies, and that pool is well formed, non-empty, free of id 0 and holds every listed id |
| Construction.HasAllKeys | src/engine.ts:93-95 | `validatePoliciesObject`: every registry key is present; once the fetch has succeeded and the list is non-empty, Construct fails with MissingPolicyKeys exactly when it does not hold |
| Construction.Complete | src/engine.ts:93-95 | the validated policy object with all six blocks: Construct states it is the engine's policies on success, MergeLaws that an update supplying every block gives it |
| Construction.Merge | src/engine.ts:230-232 | `{...this.policies, ...newPolicies}`: MergeKeepsMissingBlocks and MergeTakesSuppliedBlocks state it block by block, MergeLaws its identity and idempotence |
| Construction.MergeLaws | src/engine.ts:230-232 | an empty update changes nothing; merging twice equals merging once; an update with every block replaces the configuration |
| Construction.MergeKeepsMissingBlocks | src/engine.ts:230-232 | a policy block the update leaves out stays whole: its enabled flag and every threshold are the current ones |
| Construction.MergeTakesSuppliedBlocks | src/engine.ts:230-232 | a block the update supplies replaces the current one whole, whatever the current configuration holds |
| Placement.Place | src/engine.ts:209-224 | unknown id ⇒ not found; refused by the decision ⇒ not eligible, naming the id, the company and exactly the decision's reasons; otherwise only that student changes: placed, offered salary, one more application, all other fields and students unchanged |
| Placement.Placed | src/engine.ts:221-223 | the three field updates of updatePlacementStatus: Place states that they are the only change to the record |
| Placement.PlaceKeepsPoolWellFormed | src/engine.ts:221-223 | placing keeps the pool well formed |
| Placement.PlacedCountAfterPlacing | src/engine.ts:221 | marking one record placed raises the placed count by one if it was unplaced, else leaves it |
| Placement.PlaceRaisesPlacedCount | src/engine.ts:209-224 | a successful placement of an unplaced student raises the cohort's placed count by exactly one |
| Engine.PlacementEngine.constructor | src/engine.ts:39-47 | the engine holds the validated pool, the company and the policies |
| Engine.PlacementEngine.Ctx | src/engine.ts:102-121 | the context of the engine's current state, which every check method is proved against (ContextOf of its fields) |
| Engine.PlacementEngine.Create | src/engine.ts:52-73 | fails exactly when construction fails, with the same error; otherwise a fresh valid engine over the constructed pool and policies |
| Engine.PlacementEngine.CheckStudentEligibility | src/engine.ts:159-189 | the short-circuit loop with its reason accumulator computes the decision-mode result for the current pool |
| Engine.PlacementEngine.GetStudentPolicyEligibility | src/engine.ts:124-146 | the `failed`-flag loop computes the full map |
| Engine.PlacementEngine.ProcessPlacements | src/engine.ts:148-157 | the loop fills the decision map of the whole pool |
| Engine.PlacementEngine.GetAllStudents | src/engine.ts:195-203 | one row per student in pool order, with its full map and its decision |
| Engine.PlacementEngine.RowOf | src/engine.ts:198-202 | the row built from the student's full map and its entry in the decision map is that student's row, so the missing-id fallback never applies to a pool student |
| Engine.PlacementEngine.GetEligibleStudents | src/engine.ts:191-193 | exactly the rows whose decision is eligible |
| Engine.PlacementEngine.GetIneligibleStudents | src/engine.ts:205-207 | exactly the rows whose decision is ineligible |
| Engine.PlacementEngine.UpdatePlacementStatus | src/engine.ts:209-224 | the outcome and the new pool are those of `Placement.Place` on the old state; the order, company and policies do not change, and the engine stays valid |
| Engine.PlacementEngine.GetCompany | src/engine.ts:226-228 | a copy of the company |
| Engine.PlacementEngine.UpdatePolicies | src/engine.ts:230-232 | the policies become the merge of the old ones with the update; nothing else changes |
| Engine.PlacementEngine.ProcessPolicyStats | src/engine.ts:271-299 | the nested scan adds each policy's tally over the scanned ids to the running tally |
| Engine.PlacementEngine.ScanStudent | src/engine.ts:282-297 | the inner `failed`-flag loop for one student adds exactly its contribution to every policy's tally: eligible before its first failure, ineligible at it, nothing after |
| Engine.PlacementEngine.GetPolicyWiseData | src/engine.ts:234-269 | the formatted tallies of the scan over the pool from zero counters |
| Engine.PlacementEngine.GetStudentStates | src/engine.ts:333-347 | the five listings of the current rows |
| Engine.PlacementEngine.GetSummaryReport | src/engine.ts:360-383 | listings, company, policy-wise data, shares and counts, all of the current pool |

## Left out

- `src/lib/fetchPolicies.ts` and the network fetch in `create` are not part of this model. The fetch is a parameter: `PolicySource.Remote` carries its outcome, and `None` stands for a failed fetch. `console.log` of the fetched data is left out.
- `src/index.ts`, `src/lib/index.ts` and the build configuration are I/O and re-exports. They are not part of this model.
- Reason texts are one token per distinct message, carrying the numbers the message prints. The emoji, wording and `toFixed(2)` inside messages are not modelled. Which message a check gives is modelled.
- FormatPolicyStats: percentages are exact reals; the `toFixed(2)` rounding is left out.
- DreamCompanyCheck.ToLower: lower-cases ASCII letters only. JavaScript's `toLowerCase` also folds non-ASCII letters.
- Salaries, CGPA, thresholds and percentages are exact reals, not IEEE doubles. NaN, infinities and rounding in `currentSalary * (1 + hike / 100)` or in `placed / size * 100` are not modelled.
- Ids, `companiesApplied` and `maxApplications` are unbounded integers. A fractional or NaN id is not representable. The falsy-id test `!student.id` is modelled as `id == 0`.
- The `!company || !policies` check and the non-array check of `validateInputs` are left out. Dafny values are never null or of the wrong type.
- A policy object is a `Construction.PartialPolicies`, with one optional block per key. Extra keys, and blocks present but malformed, are not modelled.
- Shallow copies (`{...student}`, `{...company}`, `{...policies}`) are left out. Datatype values already have copy semantics, so aliasing between the caller and the engine is not modelled.
- Engine.PlacementEngine.ProcessPolicyStats: it receives the pool's order instead of the decision map. It only iterates that map's keys, which `processPlacements` inserts in pool order.
- Engine.PlacementEngine.ProcessPolicyStats: the inner loop over the registry is the separate method `ScanStudent`, called once per student; the order of updates is the same.
- Engine.PlacementEngine.GetAllStudents: the source spreads the student's fields and the six flags into one object. A row keeps the student and the flag map side by side.
- The optional descriptive fields of `src/types.ts` are left out, as no logic reads them: `branch`, `year`, `email`, `phone`, `location`, `jobRole`, `requirements` and `deadline`.
- The default arguments of `create` (`students = []`, `policies = {}`, src/engine.ts:53 and 55) are not modelled as defaults. No behaviour is lost: a caller passes `[]` and a `PartialPolicies` of six `None` blocks, which `Construct` refuses with `EmptyStudents` as the source does.
- Errors are `Result` and `Option` values instead of thrown exceptions. Their message text is not modelled.
