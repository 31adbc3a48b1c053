# ASAPPlanner verification

ASAPPlanner decides which parts of a SQL or PromQL workload to answer from sketches. This project models
the two parts of it that are mathematics, and the graph code of its viewer, and proves what they promise.

- **Execution demand** (`OffsetCounting`, `Schedules`, `EvaluationRates`, `EvaluationCounts`, `PlanDags`,
  `ExecutionWalks`, `Computations`, `PlanLatencies`): readers grouped by schedule, distinct evaluation instants
  counted by inclusion-exclusion, rates that count evaluations in time, and the walks over the plan that find
  what computes, reaches and delays what.
- **Error bounds** (`Guarantees`, `Outcomes`, `RealBounds`, `Composition`, `FoldSoundness`,
  `FoldTightness`, `SketchOverEstimates`, `StreamNorms`, `ScalarExprs`, `ScalarRules`, `LipschitzRules`,
  `ScalarSoundness`, `AlgebraTightness`, `AlgebraLimits`, `BudgetSplit`, `Sizing`, `JoinSoundness`, `JoinLimits`,
  `SelectedGroups`, `ResizedSummaries`): guarantees of an error bound and a failure
  probability, composed through scalar expressions, folds, joins and aggregates. A failure is an event in a
  finite space of weighted outcomes, one truth and one estimate per outcome, so that soundness says how
  much the outcomes that miss a bound can weigh; tightness says that no smaller bound would be sound.
- **Plan costing** (`PlanCosting`, `PlanPricing`, `ChargeLaws`, `SketchBuffers`): the charges to nodes and the plan's usage
  balance at the prices, for what the walks and schedules say of the plan; over time they are the bill of what runs and is held; and the closed form of a sketch's buffer is the growth it stands for.
- **Viewer** (`ViewerOperators`, `ViewerScalarForms`, `ViewerOperatorForms`, `ViewerDags`, `ViewerPlanDags`,
  `ViewerRanks`, and the merge in `PlanDags`): finding and renaming node references inside the planner's operators
  as they are written, the flat DAG below some roots, and ranks of memo groups.

Integers of the program are bounded where a checked or saturating operation matters; floats are reals.
Shared nodes are identities: positions in an arena or ids.

Properties the code or its comments suggest turn out to need a condition. Each is stated exactly: relative
clamps and extrema (`AlgebraLimits.ClampSoundIffAtMostOne`, `FoldSoundness.ExtremumSoundIffAtMostOne`), a
literal zero times an unbounded estimate (`AlgebraLimits.ZeroFactorSoundIffBounded`), non-finite quotients
(`AlgebraLimits.NonFiniteAgreeIffBelowOne`), the failure of a sketch over several estimated rows
(`SketchOverEstimates.CoversRowsIff`), columns of a join that compares an estimate
(`JoinLimits.ComparisonHoldsIffExact`), a norm named for a share that is itself unknown
(`StreamNorms.NamingAgreesIff`), the viewer's order of references below an IN subquery
(`ViewerScalarForms.SameOperators`), inputs read more than once (`BudgetSplit.ReadsMeetIffOnce`), cost
against a saturated disk counter (`PlanCosting.ConservedUnlessSaturated`), and a zero step listed beside
other steps (`OffsetCounting.ListedAgreeIffCovered`), which workload validation refuses
(`crates/types/src/workload/mod.rs:950`).

## Model

| member | source | states |
|---|---|---|
| `OffsetCounting.Gcd` | crates/types/src/workload/mod.rs:257-263 | the loop computes the recursive greatest common divisor |
| `OffsetCounting.GcdCombination` | crates/types/src/workload/mod.rs:255-263 | the divisor divides both numbers and is an integer combination of them, so it is the greatest |
| `OffsetCounting.LcmMultiples` | crates/cost/src/execution_demand.rs:213-218 | a number is a multiple of both steps exactly when it is one of the computed least common multiple |
| `OffsetCounting.OffsetIntersectionCount` | crates/cost/src/execution_demand.rs:202-223 | the number of offsets common to all the progressions, for every 64-bit step and span, also on the early exits where the multiple overflows or passes the shortest span |
| `OffsetCounting.InclusionExclusion` | crates/cost/src/execution_demand.rs:241-255 | for any list of finite sets, the signed sum of the sizes of all intersections, one per bit mask, is the size of the union |
| `OffsetCounting.CountByMasks` | crates/cost/src/execution_demand.rs:236-256 | the mask loop returns the size of the union of the offset sets |
| `OffsetCounting.CountByListing` | crates/cost/src/execution_demand.rs:258-262 | the explicit set counts the same union, a zero step listing only offset 0 |
| `OffsetCounting.DistinctInstantsPerRequest` | crates/cost/src/execution_demand.rs:229-263 | the number of distinct offsets of all steps when it fits 64 bits, on all three paths and for every map, except a zero step listed among more than twelve, where it is the number exactly when the other steps cover its span |
| `OffsetCounting.ListedAgreeIffCovered` | crates/cost/src/execution_demand.rs:229-262 | with a zero step the explicit set counts what the other paths would exactly when the other steps evaluate every instant of its span; which path is taken decides nothing else |
| `OffsetCounting.ZeroStepNeedsUnitStep` | crates/cost/src/execution_demand.rs:258-262 | without a unit step no zero step of positive span is covered |
| `OffsetCounting.ZeroStepMisses` | crates/cost/src/execution_demand.rs:258-262 | thirteen steps on which the explicit set counts one instant where there are two |
| `Schedules.ReadSchedules` | crates/cost/src/execution_demand.rs:75-121 | reading the list puts each valid reader under its own interval and phase, with offsets the union of the members' ranges; an invalid recurrence fails |
| `Schedules.RehomeUnknownPhases` | crates/cost/src/execution_demand.rs:122-145 | afterwards every reader is under its home: the least known phase of its interval when its own is unknown |
| `Schedules.ScheduleGroups` | crates/cost/src/execution_demand.rs:62-172 | succeeds exactly for valid readers whose counts fit, with the groups of the independent definition by homes, in (interval, phase) order, then estimates, then the batch |
| `EvaluationRates.GroupsPartitionReaders` | crates/cost/src/execution_demand.rs:29-37 | every reader position is listed in exactly one group, ascending within it |
| `EvaluationRates.EvaluationRate` | crates/cost/src/execution_demand.rs:174-196 | the returned rate is the demand rate of the readers; it fails exactly on an invalid recurrence or a count that does not fit |
| `EvaluationRates.ScheduleRate` | crates/cost/src/execution_demand.rs:174-196 | the groups' rates add up to the demand rate: a fixed group counts 1000/interval times its members' distinct offsets |
| `EvaluationRates.RateNeverFalls` | crates/cost/src/execution_demand.rs:46-61 | one more valid reader never lowers the total rate, even when its earlier phase re-homes the readers of unknown phase |
| `EvaluationRates.SharingNeverCosts` | crates/cost/src/execution_demand.rs:46-61 | the rate of readers together is at most the sum of their rates alone |
| `EvaluationRates.RateIgnoresOrder` | crates/cost/src/execution_demand.rs:174-196 | permuting the readers leaves the rate as it is |
| `EvaluationCounts.StepsAreInstants` | crates/types/src/workload/mod.rs:247-252 | a request is counted as many evaluations as the instants it asks for, listed one by one from its start to its end |
| `EvaluationCounts.OffsetsAreInstants` | crates/cost/src/execution_demand.rs:224-263 | the offsets a fixed reader brings to its group are those instants |
| `EvaluationCounts.EvaluationsCount` | crates/cost/src/execution_demand.rs:46-61 | over so many runs of a group, the pairs of a run and an instant some member asks for then are the runs times the group's distinct offsets |
| `EvaluationCounts.GroupCountsEvaluations` | crates/cost/src/execution_demand.rs:152-172 | a fixed group's rate, over the seconds that so many of its runs take, is the number of those pairs, counted one by one |
| `EvaluationCounts.RateOverTime` | crates/cost/src/execution_demand.rs:174-196 | the total rate, over any time that holds whole runs of every schedule: all fixed groups' evaluations counted one by one, and the estimated rates and the batch in proportion |
| `EvaluationCounts.EstimateCountsInstants` | crates/cost/src/execution_demand.rs:101-111 | an estimated rate of requests counts all instants of each |
| `EvaluationCounts.InvocationsCountInstants` | crates/cost/src/execution_demand.rs:112-125 | a reader that does not repeat adds all instants of each of its requests to the batch, one request when nothing is known |
| `EvaluationCounts.TogetherIff` | crates/cost/src/execution_demand.rs:122-145 | two fixed readers share a group exactly when they have one interval and, of known phases, one; a reader of unknown phase joins the first phase known on its interval |
| `EvaluationCounts.FirstIsLeast` | crates/cost/src/execution_demand.rs:122-145 | a reader of known phase has the home of one of unknown phase exactly when its phase is the first on the interval |
| `PlanDags.QueryStarts` | crates/cost/src/execution_demand.rs:267-281 | query i starts at the scalar root keyed i when there is one, else at the next operator root |
| `PlanDags.EveryQueryHasItsRoot` | crates/cost/src/execution_demand.rs:265-281 | all operator roots are used up, and no query is left without one, exactly when the scalar positions are distinct and below the query count |
| `PlanDags.RootsInOrder` | crates/cost/src/execution_demand.rs:265-281 | every operator root is the start of one query, in root order |
| `PlanDags.ValidateScalarPositions` | tools/dag-viewer/stages.js:283-299 | the viewer reports no position error exactly when positions increase and are below the query count |
| `PlanDags.StageQueries` | tools/dag-viewer/stages.js:231-238 | the early-stopping merge assigns each index its scalar, else the next root, and stops with all roots used |
| `PlanDags.ViewerAgreesWithPlanner` | tools/dag-viewer/stages.js:221-239 | for every validated plan the viewer's merge assigns each query the root the planner starts it at |
| `ExecutionWalks.Consumers` | crates/cost/src/execution_demand.rs:298-334 | each list holds the consumers whose walk reaches the node through nodes that are not materialized, in walk order |
| `ExecutionWalks.ConsumersAreThePathsUp` | crates/cost/src/execution_demand.rs:293-334 | on any graph, a consumer is listed for a node exactly when some path from it passes only nodes that are not materialized, and once |
| `ExecutionWalks.ReachedQueries` | crates/cost/src/execution_demand.rs:374-386 | the lists kept with the test on the last entry are those of the queries reaching the node by any path |
| `ExecutionWalks.QueriesBelow` | crates/cost/src/execution_demand.rs:374-386 | such a list holds exactly the queries with a path to the node, ascending |
| `Computations.TimesOfNodes` | crates/cost/src/execution_demand.rs:353-452 | a materialized node is computed once per second at ingestion, else at the demand rate of the queries with a path to it (once per request for a kept chain); any other once per run of the consumers with a path to it through nodes not materialized, those refreshed in one window sharing a run; it fails exactly when a needed rate cannot be formed |
| `Computations.ComputedFor` | crates/cost/src/execution_demand.rs:424-443 | a node is computed once per run: consumers refreshed in one window are one run, and the rate is the sum over the runs |
| `Computations.ReadersAreQueries` | crates/cost/src/execution_demand.rs:386-418 | the readers of a node are its queries, each with its own recurrence, and its own range unless it builds a chain kept per request |
| `Computations.UnsharedRatesAdd` | crates/cost/src/execution_demand.rs:424-443 | consumers that share no window each add their whole rate |
| `Computations.SharedWindowsSave` | crates/cost/src/execution_demand.rs:348-352 | there are never more runs than consumers, and as many exactly when no two share a window |
| `PlanLatencies.QueryReach` | crates/cost/src/usage.rs:1519-1544 | each query's set is what its walk reaches, stopping at and including ingestion-time nodes |
| `PlanLatencies.IngestWorkers` | crates/cost/src/usage.rs:1360-1382 | at least one worker, else the work of everything upstream in whole cores, each node once |
| `PlanLatencies.WorkersAreLeast` | crates/cost/src/usage.rs:1376-1382 | the number is the least whose whole cores take the work of a second, and at least one |
| `PlanLatencies.EachWorkerMerges` | crates/cost/src/usage.rs:1329-1334 | one worker leaves nothing to merge and each further one a copy of each state of the newest window |
| `PlanLatencies.QueryLatencies` | crates/cost/src/usage.rs:1305-1357 | per query, the work of the nodes of its query reach that are not at ingestion, each once, and the largest compaction among those that are |
| `Guarantees.ZeroIsZero` | crates/types/src/ir/properties/guarantee.rs:139-178 | a bound that evaluates is zero by structure exactly when its value is zero |
| `Guarantees.NeverFailsIsZero` | crates/types/src/ir/properties/guarantee.rs:231-272 | the same for failure probabilities |
| `Outcomes.UnionWithin` | crates/types/src/ir/properties/guarantee.rs:182-245 | events each within their claims: their union is within the union bound, clamped at one |
| `Outcomes.RowsWithin` | crates/types/src/ir/properties/guarantee.rs:231-245 | at most as many events as the row count, each within one claim: their union is within the scaled claim |
| `Composition.MultiplicativeTerms` | crates/accuracy/src/composition.rs:111-126 | the mask loop pushes the product of every non-empty subset of the bounds, in mask order |
| `Composition.CrossTermsAreGrowth` | crates/accuracy/src/composition.rs:99-126 | the sum it builds evaluates to the product of all (1 + e) minus 1, for any number of bounds |
| `Composition.LayersCompose` | crates/accuracy/src/composition.rs:99-138 | arithmetic: a chain of values, each within its relative bound of the one before, ends within that product minus 1 of the first |
| `Composition.CheckedDivisionSound` | crates/accuracy/src/composition.rs:696-733 | when the checked division is accepted, the estimated divisor is not zero and the quotient is within the composed relative bound of the true one |
| `Composition.SumTerms` | crates/accuracy/src/composition.rs:194-219 | the exact sum's loop collects every input's absolute bound and failure in order, or fails at the first without one |
| `FoldSoundness.FoldHolds` | crates/accuracy/src/composition.rs:186-419 | a sum, mean, max or min over any rows, each value keeping its input's guarantee on its own, keeps the composed guarantee in any finite space of outcomes |
| `FoldSoundness.FoldAccurate` | crates/accuracy/src/composition.rs:186-419 | in one outcome where every value is within its bound the fold is within the composed bound, whichever rule composed it |
| `FoldSoundness.AnyCellWithin` | crates/accuracy/src/composition.rs:235-240 | the outcomes in which any value of any row misses its bound weigh at most the row count times the sum of the inputs' failures |
| `FoldSoundness.SumShare` | crates/accuracy/src/composition.rs:344-349 | a sum of values that are never negative keeps their common relative bound |
| `FoldTightness.FoldGivenIff` | crates/accuracy/src/composition.rs:186-419 | a fold composes a guarantee exactly for the inputs and statistics each rule asks for |
| `FoldTightness.FoldLeast` | crates/accuracy/src/composition.rs:186-419 | a sum's, mean's or extremum's composed bound is the least sound one over that many rows: the fold is within c for all allowed values exactly when the bound is |
| `FoldTightness.MeanIsLargest` | crates/accuracy/src/composition.rs:246-290 | an absolute mean's bound is at most c exactly when every input's is |
| `FoldTightness.FoldFailure` | crates/accuracy/src/composition.rs:235-240 | its failure is the inputs' added, once for each row |
| `FoldTightness.AggregateGivenIff` | crates/accuracy/src/composition.rs:734-783 | a sketch over estimates has a guarantee exactly in one value unit with its inputs, with no value known to be negative under a relative one, and never for a distinct count |
| `FoldTightness.AggregateKnownIff` | crates/accuracy/src/composition.rs:734-783 | whose bound is known over known ones, but for a relative one over values of unknown sign |
| `FoldTightness.LayersLeast` | crates/accuracy/src/composition.rs:78-138 | over one estimate the composed bound, the sum or the product of growths, is the least sound one |
| `FoldTightness.AggregateFailure` | crates/accuracy/src/composition.rs:78-97 | its failure is all inputs' and its own added |
| `FoldTightness.CheckedGivenIff` | crates/accuracy/src/composition.rs:696-733 | the checked division is accepted exactly for known relative bounds, the divisor's below one |
| `FoldTightness.CheckedSlack` | crates/accuracy/src/composition.rs:421-484 | its bound is the quotient's (a + b)/(1 - b) and four units in the last place of one, no more |
| `StreamNorms.RestatedIsShare` | crates/accuracy/src/composition.rs:590-614 | a bound that is a share of a stream's norm, restated, is that share of the norm once both are known |
| `StreamNorms.NamedNormAgrees` | crates/accuracy/src/composition.rs:526-572 | naming the norm's source, or replacing it by a constant weight times the source's rows, changes none of its values when the share is not itself one unknown statistic |
| `StreamNorms.NamingAgreesIff` | crates/accuracy/src/composition.rs:526-572 | naming keeps the value, whatever is known, exactly when the share is no unknown statistic or is one that stands for the norm: the norm itself, or the rows of a source that each weigh nothing or one |
| `StreamNorms.UnknownShareIsLost` | crates/accuracy/src/composition.rs:526-572 | another unknown share is taken for the norm: half of ten rows comes out as all hundred |
| `SketchOverEstimates.RankedShare` | crates/accuracy/src/composition.rs:99-138 | the k-th smallest of estimates keeps their common relative bound, when it is at most one, whatever the signs |
| `SketchOverEstimates.AggregateKept` | crates/accuracy/src/composition.rs:78-138 | sums and means of values never negative, extrema, means and order statistics keep the bound all their values keep |
| `SketchOverEstimates.SketchHolds` | crates/accuracy/src/composition.rs:734-783 | a sketch over rows of estimated values keeps the composed guarantee of the aggregate of the true values in any finite space, when it keeps its own of what it was given and each input's failure bounds all its values' misses at once |
| `SketchOverEstimates.SketchHoldsPerValue` | crates/accuracy/src/composition.rs:734-783 | when each value keeps its guarantee on its own, the same with the inputs' failures counted once per row |
| `SketchOverEstimates.CoversRowsIff` | crates/accuracy/src/composition.rs:78-97 | the composed failure adds the inputs' once where the folds add theirs per row: for a maximum under absolute bounds it covers n rows whose values fail one by one exactly when n is at most one, or none fails, or the sum reaches one |
| `FoldSoundness.ExtremumSoundIffAtMostOne` | crates/accuracy/src/composition.rs:344-349 | the guarantee composed for a maximum of relative estimates holds of all values exactly when their bound is at most one, which the rule does not require |
| `RealBounds.RelativeProduct` | crates/accuracy/src/propagation.rs:1470-1498 | two relative errors a and b multiply to at most a + b + ab, whatever the signs |
| `RealBounds.RelativeQuotient` | crates/accuracy/src/composition.rs:421-484 | a quotient of relative errors a and b < 1 is within (a + b)/(1 - b), and a non-zero divisor stays non-zero |
| `RealBounds.RelativeExtremum` | crates/accuracy/src/composition.rs:344-349 | a larger or smaller of two keeps a common relative bound of at most one, whatever the signs |
| `ScalarExprs.CollectApproximate` | crates/accuracy/src/propagation.rs:1058-1064 | the loop keeps the first of each distinct approximate guarantee |
| `ScalarRules.ShiftedAccurate` | crates/accuracy/src/propagation.rs:1513-1520 | an exact addend keeps an absolute bound |
| `ScalarRules.SumAccurate` | crates/accuracy/src/propagation.rs:1399-1403 | absolute bounds of two operands add |
| `ScalarRules.ScaledAccurate` | crates/accuracy/src/propagation.rs:1499-1511 | an exact factor scales an absolute bound by its magnitude when it is a literal and keeps a relative one |
| `ScalarRules.DividedAccurate` | crates/accuracy/src/propagation.rs:1407-1410 | a non-zero literal divisor scales an absolute bound by its inverse; an exact divisor keeps a relative one |
| `ScalarRules.RelativeProductAccurate` | crates/accuracy/src/propagation.rs:1470-1498 | the product rule's guarantee holds of the product whenever the factors' hold of theirs |
| `ScalarRules.QuotientAccurate` | crates/accuracy/src/composition.rs:421-484 | the division rule's guarantee holds of the quotient, undefined denominators included |
| `LipschitzRules.FunctionAccurate` | crates/accuracy/src/propagation.rs:1317-1357 | a clamp or absolute value keeps the extremum of its arguments' guarantees |
| `LipschitzRules.LipschitzWithin` | crates/accuracy/src/propagation.rs:1329-1357 | it also allows for every argument's failure |
| `LipschitzRules.WeakestAccurate` | crates/accuracy/src/propagation.rs:1054-1070 | the weakest guarantee holds of whichever value an exact decision picks |
| `LipschitzRules.WeakestWithin` | crates/accuracy/src/propagation.rs:1054-1070 | and counts no more than that one value's failure needs |
| `ScalarSoundness.RuleAccurate` | crates/accuracy/src/propagation.rs:1383-1426 | every arithmetic rule: where both operands are within their bounds the result is within the composed bound, and the failures it counts cover theirs |
| `ScalarSoundness.ArithmeticHolds` | crates/accuracy/src/propagation.rs:1362-1426 | the composed guarantee holds over outcomes, an operand used on both sides failing as one event |
| `ScalarSoundness.LeavesHold` | crates/accuracy/src/propagation.rs:1167-1180 | any other expression over exact columns and relations is exact, whatever it computes |
| `ScalarSoundness.CaseSound` | crates/accuracy/src/propagation.rs:1072-1094 | a CASE over exact conditions keeps the weakest of its branches' guarantees |
| `ScalarSoundness.Sound` | crates/accuracy/src/propagation.rs:1117-1182 | for every expression the algebra gives a guarantee, in every finite space of outcomes where the columns' and relations' guarantees hold, the guarantee holds of its true and estimated values |
| `ScalarSoundness.SoundInNumbers` | crates/accuracy/src/propagation.rs:1117-1182 | with a known bound and probability: outcomes off by more than the bound weigh at most the probability |
| `AlgebraTightness.GivenIff` | crates/accuracy/src/propagation.rs:1362-1426 | arithmetic has a guarantee exactly when both operands do, in the units each operator asks for |
| `AlgebraTightness.KnownIff` | crates/accuracy/src/propagation.rs:1362-1426 | over known bounds the composed bound is known unless the rule needs the operands' domains |
| `AlgebraTightness.LeastBound` | crates/accuracy/src/propagation.rs:1362-1426 | every arithmetic rule's composed bound is the least sound one: over all the values the operands' guarantees allow the result is within c exactly when the bound is, except a relative bound past a literal zero, whose result is exact |
| `AlgebraTightness.ComposedFailure` | crates/accuracy/src/propagation.rs:1362-1426 | the failure is the operands' added, and one value read on both sides is counted once |
| `AlgebraTightness.LiteralShift` | crates/accuracy/src/propagation.rs:1513-1520 | a literal added to or subtracted from an expression, either way round, gives its absolute bound and its failure unchanged |
| `AlgebraTightness.LipschitzGivenIff` | crates/accuracy/src/propagation.rs:1329-1357 | the Lipschitz rule gives a guarantee exactly for arguments all absolute or all relative |
| `AlgebraTightness.FunctionLeast` | crates/accuracy/src/propagation.rs:1317-1357 | a clamp's or absolute value's composed bound is the least that is sound |
| `AlgebraTightness.FunctionFailure` | crates/accuracy/src/propagation.rs:1329-1357 | its failure is its distinct arguments' added |
| `AlgebraTightness.OneArgument` | crates/accuracy/src/propagation.rs:1329-1357 | of one approximate argument it keeps bound, metric and failure |
| `AlgebraTightness.NegationKeeps` | crates/accuracy/src/propagation.rs:1117-1182 | so a negation does |
| `AlgebraTightness.CallGivenIff` | crates/accuracy/src/propagation.rs:1117-1182 | a clamp or absolute value has a guarantee exactly when its arguments have, in one unit, and then the composed one; any other function exactly over exact leaves |
| `AlgebraTightness.WeakestGivenIff` | crates/accuracy/src/propagation.rs:1054-1070 | several values have a weakest guarantee exactly when at most one distinct is approximate or all are in one unit |
| `AlgebraTightness.WeakestLeast` | crates/accuracy/src/propagation.rs:1054-1070 | and its bound is the least that is sound whichever is picked |
| `AlgebraTightness.CaseIsWeakest` | crates/accuracy/src/propagation.rs:1072-1094 | a CASE has the weakest of its results' guarantees exactly when every decision is exact |
| `AlgebraTightness.CaseNeedsResults` | crates/accuracy/src/propagation.rs:1072-1094 | and none unless every result has one |
| `AlgebraLimits.ClampSoundIffAtMostOne` | crates/accuracy/src/propagation.rs:1329-1357 | the Lipschitz rule for clamp_min over a relative estimate is sound for all values exactly when its bound is at most one, which the code does not check |
| `AlgebraLimits.ZeroFactorSoundIffBounded` | crates/accuracy/src/propagation.rs:1404-1405 | a literal zero times an absolute estimate is sound for all values exactly when the estimate's bound is known |
| `AlgebraLimits.ZeroTimesQuotientIsNotExact` | crates/accuracy/src/propagation.rs:1404-1418 | 0 * (x / y) over absolute estimates is given an exact guarantee that fails in a world where the true y is zero |
| `AlgebraLimits.NonFiniteAgreeIffBelowOne` | crates/accuracy/src/composition.rs:426-457 | of every division the rule accepts: true and estimated quotients over a zero denominator are one non-finite value for all inputs exactly when the numerator's bound is below one; the comment promises it and the code does not check it |
| `BudgetSplit.PerInputShares` | crates/accuracy/src/budget.rs:24-48 | of n inputs each gets the relative share whose defining equation is (1 - s)^n (1 + e) = 1, or a fraction that adds up to the additive target, and a fraction of delta that adds up to it |
| `BudgetSplit.ShareIsUnique` | crates/accuracy/src/budget.rs:6-9 | the equation has one solution |
| `BudgetSplit.SplitMeetsTarget` | crates/accuracy/src/budget.rs:9-13 | any tree of products and quotients that reads at most n approximate inputs within their share is within the target, undefined exactly where the truth is |
| `BudgetSplit.QuotientOfTwoMeets` | crates/accuracy/src/budget.rs:13-14 | the bound composed for a quotient of two shares meets the target |
| `BudgetSplit.ProductOfTwoMeets` | crates/accuracy/src/budget.rs:13-14 | the bound composed for a product of two shares meets the target |
| `BudgetSplit.ComposedProductMeets` | crates/accuracy/src/propagation.rs:1470-1498 | the guarantee the algebra composes for that product evaluates within the target |
| `BudgetSplit.ComposedQuotientMeets` | crates/accuracy/src/composition.rs:432-484 | the guarantee the registry composes for that quotient exists and evaluates within the target |
| `BudgetSplit.NestedQuotientMisses` | crates/accuracy/src/budget.rs:14-16 | as the registry composes x / (y / z) over three shares: refused for shares of a third or more, else a bound above the target its true error meets |
| `BudgetSplit.LoneDenominatorMisses` | crates/accuracy/src/budget.rs:16-18 | a lone denominator sized for the whole target: the registry refuses it at a target of one or more, else composes a bound beyond it |
| `BudgetSplit.ReadsMeetIffOnce` | crates/accuracy/src/budget.rs:28-37 | inputs are counted once each: a lone input's powers meet the target for all its estimates exactly when it is read at most once |
| `JoinSoundness.SameMatches` | crates/accuracy/src/propagation.rs:1006-1015 | a predicate exact over the inputs' columns matches the same pairs of rows in truth and estimate, outside an event of no weight |
| `JoinSoundness.JoinHolds` | crates/accuracy/src/propagation.rs:957-1004 | inner, cross, left, right and full joins: the same rows in the same order and every cell within its column's guarantee |
| `JoinSoundness.JoinGuaranteeSound` | crates/accuracy/src/propagation.rs:1006-1035 | the guarantee given to a join holds of every cell of its rows |
| `JoinSoundness.ColumnsSound` | crates/accuracy/src/propagation.rs:942-984 | the guarantees given to columns hold of them through projections, when every join below decides by exact values |
| `JoinSoundness.ProjectGuaranteeSound` | crates/accuracy/src/propagation.rs:1037-1052 | a computed projection over a join keeps the weakest of its items' guarantees in every cell |
| `JoinSoundness.JoinGivenIff` | crates/accuracy/src/propagation.rs:1006-1035 | a join has a guarantee exactly when it keeps both sides' columns, one side is approximate and its predicate is exact over both; it is that side's |
| `JoinSoundness.ProjectGivenIff` | crates/accuracy/src/propagation.rs:1037-1052 | a projection has the weakest of its items' guarantees, given exactly when every item has one |
| `JoinSoundness.ColumnsGivenIff` | crates/accuracy/src/propagation.rs:942-984 | columns have guarantees exactly under exact relations, joins of at most one approximate side that keep both sides' columns, and projections of such columns |
| `JoinLimits.ColumnsHoldIffPredicateExact` | crates/accuracy/src/propagation.rs:957-1029 | for two tables joined on an uninterpreted named function of their columns, the guarantees given to the join's columns hold in every setting where the tables' do, and for every meaning of the function, exactly when the predicate is exact, the test made for the join's own guarantee and not for its columns' |
| `JoinLimits.ComparisonHoldsIffExact` | crates/accuracy/src/propagation.rs:957-1029 | the same for each of <, <=, >, >=, = and != between two columns, with the comparison's own meaning: exactly when both columns are exact |
| `JoinLimits.EstimatedPredicateChangesRows` | crates/accuracy/src/propagation.rs:957-971 | a join on `estimate < exact`, read as less-than: it has no guarantee, its columns do, and where 1 < 2 is estimated as 2 < 2 its rows are lost |
| `SelectedGroups.SplitAnd` | crates/accuracy/src/propagation.rs:1681-1686 | the walk appends every conjunct, nested conjunctions flattened, in order |
| `SelectedGroups.ConjunctsDecide` | crates/accuracy/src/propagation.rs:1681-1686 | a condition holds of a row exactly when all its conjuncts do |
| `SelectedGroups.PinnedAgree` | crates/accuracy/src/propagation.rs:1688-1719 | rows that meet the condition agree on every pinned column |
| `SelectedGroups.PinnedIff` | crates/accuracy/src/propagation.rs:1688-1719 | a column is pinned exactly when some conjunct equates it with a literal or lists it in one literal |
| `SelectedGroups.OneRowPerGroup` | crates/accuracy/src/propagation.rs:304-347 | rows that pass the filter and agree on the group keys are one row |
| `SelectedGroups.ExtremaAreIdentity` | crates/accuracy/src/propagation.rs:304-310 | MIN and MAX over such groups copy the row's own values |
| `SelectedGroups.AcceptedCopiesRows` | crates/accuracy/src/propagation.rs:311-350 | an accepted aggregate selects the same rows of truth and estimate in order and copies their cells |
| `SelectedGroups.MeasuresKeepGuarantee` | crates/accuracy/src/propagation.rs:311-350 | so the estimate's guarantee is the aggregate's |
| `Sizing.GroupsHoldingShareAreFew` | crates/types/src/ir/properties/accuracy.rs:149-173 | no more groups can each hold the share of the records than the scope is said to cover |
| `Sizing.RequiredProbabilities` | crates/accuracy/src/sizing.rs:255-270 | the nested loops leave every demanded summary with the smallest demand any query makes of it, and no other |
| `Sizing.TargetIsMet` | crates/accuracy/src/sizing.rs:141-177 | over its inputs and the values its scope covers, what a query's summaries may fail adds up to at most its delta, shared ones included |
| `Sizing.DemandGivenIff` | crates/accuracy/src/sizing.rs:141-177 | a query makes a demand exactly for a positive delta over a known, positive number of values |
| `Sizing.TargetIsUsedUp` | crates/accuracy/src/sizing.rs:141-177 | a query alone uses up its whole delta, over its inputs and the values it covers |
| `Sizing.EqualSharesQualify` | crates/types/src/ir/properties/accuracy.rs:149-173 | as many groups as are counted can each hold the share: the count is not too large either |
| `Sizing.ScopeFailsWithinTarget` | crates/accuracy/src/sizing.rs:242-278 | as outcomes: when each input fails each value within its requirement, any value of the scope fails within the target |
| `PlanCosting.MeasureNodes` | crates/cost/src/usage.rs:116-144 | the node loop's usage and per-node costs, balanced at the prices |
| `PlanCosting.ChargeRequests` | crates/cost/src/usage.rs:145-200 | each query's overhead is charged to the node it reads first, or to the plan for a literal query, and the books stay balanced; an unknown rate fails |
| `PlanCosting.LargestScans` | crates/cost/src/usage.rs:137-142 | per source the largest scan, the first of equal ones |
| `PlanCosting.ChargeRawData` | crates/cost/src/usage.rs:201-208 | each source is on disk once, charged to the node of its largest scan, in any order |
| `PlanCosting.HeldMilliseconds` | crates/cost/src/usage.rs:266-292 | how long a node's memory is held: once until its longest reader ends, or per consumer at its rate |
| `PlanCosting.LongestReaderIs` | crates/cost/src/usage.rs:257-264 | the longest reader is a query that reaches the node, and none is longer |
| `PlanCosting.ChargeHeld` | crates/cost/src/usage.rs:265-307 | held byte-seconds are charged to their node and counted as usage |
| `PlanCosting.PlanCost` | crates/cost/src/usage.rs:54-330 | the plan's usage and every node's cost in full, and the total cost equal to the usage at its prices before the disk counter saturates |
| `PlanPricing.PriceDag` | crates/cost/src/usage.rs:54-330 | from the DAG and the workload: the walks' starts, consumers, reach and latencies and the schedules' rates are what the plan is priced at, and its cost is its usage at the prices; it fails exactly when a rate it needs cannot be formed |
| `PlanCosting.ConservedUnlessSaturated` | crates/cost/src/lib.rs:216-218 | the cost is unit price times reported usage exactly when the disk counter has not saturated or disk is free |
| `PlanCosting.KeptOneWay` | crates/cost/src/usage.rs:1113-1199 | a node's bytes are averaged, on disk or held, never two of them, and never average above their peak |
| `ChargeLaws.HeldIsAverage` | crates/cost/src/usage.rs:297-307 | memory held by executions, each for its milliseconds from its own start, is charged as the bytes held on average, added up millisecond by millisecond |
| `ChargeLaws.StateIsAverage` | crates/cost/src/usage.rs:266-284 | so is a state held once at a time, until its longest reader ends |
| `ChargeLaws.CopiesAreAverage` | crates/cost/src/usage.rs:284-307 | and a node's working memory, over all its consumers' copies together |
| `ChargeLaws.CopyIsConsumer` | crates/cost/src/usage.rs:284-296 | a copy is held as its consumer runs: at a query's rate for its latency, at a node's rate for its longest reader |
| `ChargeLaws.RequestsTakeTheirTime` | crates/cost/src/usage.rs:155-165 | the operations charged for a query's requests, at the milliseconds an operation takes, take the requests' fixed time |
| `ChargeLaws.AllRequestsTakeTheirTime` | crates/cost/src/usage.rs:155-200 | all queries' operations take each its requests' time at its rate |
| `ChargeLaws.UsageInTime` | crates/cost/src/usage.rs:116-144 | over so many seconds the usage is the operations and bytes its nodes' executions run and scan, one by one, and what they keep; disk is capped at 64 bits |
| `ChargeLaws.UsageIsBilled` | crates/cost/src/lib.rs:215-219 | usage over so many seconds costs its operations, bytes, byte-seconds and disk at their unit prices |
| `ChargeLaws.NodeIsBilled` | crates/cost/src/usage.rs:116-144 | a node's own cost over the time is that of its executions and of what it keeps |
| `ChargeLaws.PlanIsBilled` | crates/cost/src/usage.rs:54-330 | a priced plan's cost over the time is the bill of the operations executions and requests run, the bytes scanned, the byte-seconds kept and held, and the disk |
| `ResizedSummaries.PlainIffResized` | crates/accuracy/src/propagation.rs:172-225 | the plain rewrite gives a tree exactly when, position by position, every sketch has the parameters `resize` gives its node, or its own where none, all else is the node's, and above any change the guarantee is composed again over accepted inputs; so it fails exactly when there is no such tree |
| `ResizedSummaries.ChangesIffReached` | crates/accuracy/src/propagation.rs:186-206 | a node changes exactly when `resize` gives some sketch state it reaches parameters other than its own |
| `ResizedSummaries.Rewriter.Walk` | crates/accuracy/src/propagation.rs:172-225 | the cached walk returns a node that unfolds to the tree resized at every position, and fails exactly when there is none |
| `ResizedSummaries.Rewriter.Rewrite` | crates/accuracy/src/propagation.rs:226-244 | over all roots: each root's result unfolds to the tree resized at every position, it is the identical node exactly when nothing below changes, and one node becomes one node |
| `ViewerOperators.CollectScalarRefs` | tools/dag-viewer/stages.js:136-143 | the walk pushes the scalar references in order |
| `ViewerOperators.CollectLogicalChildren` | tools/dag-viewer/stages.js:145-154 | inputs by field name, then scalar references |
| `ViewerOperators.ReferencesMapped` | tools/dag-viewer/stages.js:145-176 | the mapped operator reads the renamed ids exactly when its body is an object or the renaming moves none of its ids |
| `ViewerOperators.OperatorMapTwice` | tools/dag-viewer/stages.js:158-176 | renaming twice is renaming once by the composition, on the ids the operator reads |
| `ViewerScalarForms.ReadBack` | tools/dag-viewer/stages.js:136-143 | of each of the 20 scalar expressions the planner writes, at any depth, the viewer finds the operators it reads, in the order written |
| `ViewerScalarForms.ScalarWritten` | tools/dag-viewer/stages.js:156-163 | renaming inside a written expression writes the expression renamed |
| `ViewerScalarForms.SameOperators` | crates/types/src/ir/scalar/mod.rs:200-222 | the operators found are those the planner lists; in its order, for different ids exactly when no IN subquery tests an expression that reads some |
| `ViewerScalarForms.TestedFirst` | crates/types/src/ir/scalar/mod.rs:200-222 | there the two orders differ |
| `ViewerOperatorForms.ReferencesAreReads` | tools/dag-viewer/stages.js:145-154 | for each of the planner's 31 operators as it is written, the viewer's references are exactly its inputs in order, then what its scalar expressions read |
| `ViewerOperatorForms.ReferencesAreChildren` | crates/types/src/ir/operator/non_asap.rs:193-258 | they are the planner's children, in its order under the same condition |
| `ViewerOperatorForms.OperatorRenamed` | tools/dag-viewer/stages.js:165-176 | the viewer's renaming of a written operator writes the operator the planner's own renaming gives |
| `ViewerOperatorForms.SerializedIsRenameable` | tools/dag-viewer/stages.js:165-176 | every written operator meets the condition under which references are renamed |
| `ViewerDags.MemoNodeDag` | tools/dag-viewer/stages.js:184-197 | keeps exactly the table nodes the roots reach, ascending, renumbered by position, with the roots' new ids |
| `ViewerDags.DagIsTable` | tools/dag-viewer/stages.js:178-197 | children still come before their parents, nothing outside is read, and every root unfolds to the same tree as in the table |
| `ViewerPlanDags.ReachesAlike` | tools/dag-viewer/stages.js:184-190 | in the table of a written plan the viewer reaches just what the planner's edges reach |
| `ViewerPlanDags.PlanIsTable` | tools/dag-viewer/stages.js:178-183 | the table of a plan whose nodes read only earlier ones is one the viewer can flatten |
| `ViewerPlanDags.AgreeingRenamings` | tools/dag-viewer/stages.js:165-176 | renamings that agree on an operator's references make one operator |
| `ViewerPlanDags.DagOfPlan` | tools/dag-viewer/stages.js:178-197 | the flat DAG of a written plan holds exactly the nodes its edges reach, in plan order, each the planner's own renumbering of its operator |
| `ViewerRanks.Ranks.Visit` | tools/dag-viewer/memo.js:201-218 | ends on any memo, and without a cycle returns the group's height |
| `ViewerRanks.Ranks.RankAll` | tools/dag-viewer/memo.js:204-220 | every group is ranked, at its height when there is no cycle |
| `ViewerRanks.LongestChain` | tools/dag-viewer/memo.js:201-203 | a height is the length of a path to a group that reads none |
| `ViewerRanks.ChainsAreShort` | tools/dag-viewer/memo.js:201-203 | and no path down is longer |
| `ViewerRanks.ReadLowers` | tools/dag-viewer/memo.js:201-203 | every read strictly lowers the height |
| `ViewerRanks.Reads` | tools/dag-viewer/memo.js:204-208 | a group reads exactly the other groups of the memo among its children and its candidates' children |
| `SketchBuffers.KllCapacityItems` | crates/cost/src/state_bytes.rs:203-213 | the loop adds up every level's capacity |
| `SketchBuffers.CapacityBounds` | crates/cost/src/state_bytes.rs:198-213 | the total is between the geometric sum and eight items a level above it |
| `SketchBuffers.CapacityInNumbers` | crates/cost/src/state_bytes.rs:198-213 | 61 levels, the first of all of k and each next of two thirds; a k above 26602 counts as that |
| `SketchBuffers.LevelIsLeast` | crates/cost/src/state_bytes.rs:198-213 | a level holds the least number of items that is at least 8 and its share of k |
| `SketchBuffers.ClosedFormIsGrowth` | crates/cost/src/state_bytes.rs:215-238 | the closed form is the length an array reaches that starts empty and grows when full, for every number of rows |
| `SketchBuffers.SixteenDoubled` | crates/cost/src/state_bytes.rs:215-238 | the length is the smallest 16 * 2^j that holds the rows, at most the capacity |
| `SketchBuffers.KllBufferItems` | crates/cost/src/state_bytes.rs:225-238 | for every k, the capacity when the rows are unknown, else the growing array's length, a state of no rows counting as one |

## Left out

- EvaluationCounts.RateOverTime: for ranges of positive step, as workload validation requires; estimated rates and the batch are proportions of the time and not counted.
- AlgebraTightness.LeastBound: over all values the operands' guarantees allow, each operand on its own; that two operands are one value, or that their domains are known, could allow less. A literal's value is known. Bounds are known numbers.
- AlgebraTightness.FunctionLeast: relative arguments of a clamp within one, as in ScalarSoundness.
- FoldTightness.FoldLeast: an absolute mean is stated as least over one input; over several the largest of their bounds (MeanIsLargest) is sound but not the least for their pooled rows; the rows are as many as the statistic says, at least one.
- FoldTightness.LayersLeast: one estimated input, which is what the planner composes; the values of several are not tied to one another.
- ChargeLaws.StateIsAverage: executions and holding times are whole numbers in the time looked at, and end within it.
- ViewerOperatorForms.ReferencesAreReads: an operator's other fields are inert data, holding no field that names a reading; operators carry the names the planner writes today, as older documents are upgraded before the viewer reads them.
- OffsetCounting.DistinctInstantsPerRequest: the `expect` on a count beyond 64 bits (only a span of 2^64 - 1 at step 1) is an `Overflow` result. Workload validation refuses a zero step (`crates/types/src/workload/mod.rs:950`), so no validated workload reaches the case that is stated apart.
- Schedules.ScheduleGroups: products of invocations and steps are unbounded here, 64-bit in the program; steps of ranges are positive and the horizon is positive, as the configuration check requires (`crates/cost/src/lib.rs:315-319`).
- Computations.TimesOfNodes: the refresh window of each ingestion-time node is given; errors name no node.
- PlanLatencies.QueryLatencies: edges and roots name nodes of the plan, as the plan's own validation ensures.
- Composition.LayersCompose: that an aggregate of estimates keeps its inputs' bounds is a hypothesis here; SketchOverEstimates proves it of aggregates over rows.
- SketchOverEstimates.SketchHolds: a sum needs a relative bound (no registered sum sketch has an absolute one), and an extremum, minimum or order statistic relative bounds of at most one. The planner feeds a sketch one input; any number is allowed here. Interpolated quantiles, and UnivMon's norms and entropies of estimates, are not covered.
- Top-k selection: the operator and its margin certificate (`crates/accuracy/src/composition.rs:822-893`) are not modelled. Counter rates and increases have no rule over estimates and are refused.
- FoldSoundness.FoldHolds: row counts given are upper bounds on the rows; a maximum or minimum needs relative bounds of at most one, and a relative sum or mean non-negative true values where the rule assumes them.
- ScalarSoundness.Sound: holds for admissible expressions: every clamp's relative arguments within one, and a literal zero's factor with a known bound, the two limits shown exact in AlgebraLimits. Values that are not finite are one undefined value. A stream-normalized bound other than zero, and a rank bound, claim nothing about values until restated; a relation's restated guarantee is assumed to hold.
- ScalarExprs.Apply: a clamp whose limits are reversed is `min(max(x, lo), hi)`; PromQL's empty result for it is not modelled.
- BudgetSplit.PerInputShares: the root that `powf` computes is a parameter with its defining equation.
- JoinSoundness.ColumnsSound: assumes exact predicates, which `column_guarantees` does not check although its comment refers to the join rule; ComparisonHoldsIffExact and ColumnsHoldIffPredicateExact show that this is the exact limit for comparisons and for uninterpreted functions of columns; for other predicates only soundness is stated. Row sets of inputs are exact, as the code assumes. Stored guarantees of the inputs are hypotheses.
- SelectedGroups.MeasuresKeepGuarantee: the key columns of the estimate are taken as exact, which the code derives from the summary's grouping keys; the identity projections it looks through are left out.
- Sizing.RequiredProbabilities: a query that returns no values demands nothing (the program divides by zero there).
- PlanCosting.PlanCost: over the reals, so the checks for finite results never fail; peak memory, peak cores, ingest workers' partial copies, provisioned prices and the per-operator formulas, with each node's own executions, are inputs or left out; PlanPricing.PriceDag gives it latencies, reach, consumers and rates.
- ResizedSummaries.Rewriter.Walk: parameters, guarantees and schema checks are opaque functions of a node's rule and its unfolded children, where a composed guarantee in the program may also depend on which children are one shared node (`Rc::ptr_eq`, `crates/accuracy/src/propagation.rs:1305`); schemas are not part of this model.
- ViewerOperators.CollectLogicalChildren: JSON objects list their fields in order; an absent value and `null` are one.
- ViewerDags.DagIsTable: for tables whose operators hold object bodies with distinct field names, or no reference, and list children before parents.
- ViewerRanks.Ranks.RankAll: on a memo with cycles only termination and the ranked groups are stated.
- SketchBuffers.KllCapacityItems: exact reals instead of 64-bit floats.
- Floating-point rounding, NaN and overflow of values; guarantees' detail strings and reports; estimator formulas and the measured-cost table.
- The search, the parsers, the executor and the viewer's layout and pages.
