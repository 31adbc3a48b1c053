/**
 What a rate counts: the instants a schedule's readers ask for, run by run
 (crates/cost/src/execution_demand.rs:29-61 and 157-172).
 */
module EvaluationCounts {
  import opened EvaluationRates
  import opened FiniteSums
  import opened OffsetCounting
  import opened RealBounds
  import opened Results
  import opened Schedules

  // ------------------------------------------------- what a request asks

  /** `0, step, 2 * step, ...` up to the span. */
  ghost function StepsBack(step: nat, span: nat): set<nat> {
    set k: nat | k <= span && k * step <= span :: k * step
  }

  /** The instants one request asks for, in ms before its end: the multiples of its step within its span, or its end alone. */
  ghost function Instants(r: Reader): set<nat> {
    match r.range
    case None => {0}
    case Some(range) => StepsBack(range.stepMs, range.spanMs)
  }

  /** A request asks for as many instants as it has steps. */
  lemma StepsAreInstants(r: Reader)
    requires r.range.Some? ==> r.range.value.stepMs > 0
    ensures |Instants(r)| == r.Steps()
  {
    if r.range.Some? {
      var step, span := r.range.value.stepMs, r.range.value.spanMs;
      MultiplesCount(step, span);
      MultiplesAre(step, span);
    }
  }

  lemma MultiplesAre(step: nat, span: nat)
    requires step > 0
    ensures Multiples(step, span) == StepsBack(step, span)
  {
    forall o | o in Multiples(step, span) ensures o in StepsBack(step, span) {
      var k := o / step;
      assert o == k * step;
      FactorAtMost(k, step, o);
      assert k <= span && k * step <= span;
    }
    forall o | o in StepsBack(step, span) ensures o in Multiples(step, span) {
      var k: nat :| k <= span && k * step <= span && o == k * step;
      MultipleHasNoRemainder(step, k, o);
    }
  }

  lemma FactorAtMost(k: nat, step: nat, o: nat)
    requires step > 0 && o == k * step
    ensures k <= o
  {
  }

  /** A fixed reader's offsets are the instants its requests ask for. */
  lemma OffsetsAreInstants(r: Reader)
    requires r.Fixed() && r.Valid() && (r.range.Some? ==> r.range.value.stepMs > 0)
    ensures OffsetsOf(r.Geometry()) == Instants(r)
  {
    if r.range.Some? {
      MultiplesAre(r.range.value.stepMs, r.range.value.spanMs);
      if r.Steps() <= 1 { OneStepOnly(r.range.value.stepMs, r.range.value.spanMs); }
    }
    EndOnly(r.recurrence.intervalMs);
  }

  lemma EndOnly(interval: nat)
    requires interval > 0
    ensures Multiples(interval, 0) == {0}
  {
    assert 0 % interval == 0;
  }

  lemma OneStepOnly(step: nat, span: nat)
    requires step > 0 && span / step + 1 <= 1
    ensures Multiples(step, span) == {0}
  {
    assert span < step;
    assert 0 % step == 0;
  }

  // ------------------------------------------------ evaluations in time

  /** The evaluations of the readers under `key` in so many runs: each run's distinct instants. */
  ghost function Evaluations(readers: seq<Reader>, key: Key, runs: nat): set<(nat, nat)>
    requires AllValid(readers)
  {
    set run: nat, i, o | run < runs && 0 <= i < |readers| && i in GroupMembers(readers, key) && o in Instants(readers[i]) :: (run, o)
  }

  ghost function GroupInstants(readers: seq<Reader>, key: Key): set<nat>
    requires AllValid(readers)
  {
    set i, o | 0 <= i < |readers| && i in GroupMembers(readers, key) && o in Instants(readers[i]) :: o
  }

  lemma OffsetsAreGroupInstants(readers: seq<Reader>, key: Key)
    requires AllValid(readers) && PositiveSteps(readers)
    ensures GroupOffsets(readers, key) == GroupInstants(readers, key)
  {
    MembersAre(readers, Intervals(readers), |readers|, key);
    hide Instants, OffsetsOf, HomeIn;
    forall i | 0 <= i < |readers| && readers[i].Fixed() ensures OffsetsOf(readers[i].Geometry()) == Instants(readers[i]) {
      OffsetsAreInstants(readers[i]);
    }
  }

  ghost function RunsOfAll(instants: set<nat>, runs: nat): set<(nat, nat)> {
    set run: nat, o | run < runs && o in instants :: (run, o)
  }

  ghost function OneRun(instants: set<nat>, run: nat): set<(nat, nat)> {
    set o: nat | o in instants :: (run, o)
  }

  /** So many runs of so many instants each. */
  lemma {:induction false} RunsOfInstants(instants: set<nat>, runs: nat)
    ensures |RunsOfAll(instants, runs)| == runs * |instants|
  {
    if runs == 0 {
      assert RunsOfAll(instants, runs) == {};
    } else {
      RunsOfInstants(instants, runs - 1);
      var before, last := RunsOfAll(instants, runs - 1), OneRun(instants, runs - 1);
      assert RunsOfAll(instants, runs) == before + last && before !! last;
      InstantsOfRun(instants, runs - 1);
      assert runs * |instants| == (runs - 1) * |instants| + |instants|;
    }
  }

  lemma {:induction false} InstantsOfRun(instants: set<nat>, run: nat)
    ensures |OneRun(instants, run)| == |instants|
    decreases |instants|
  {
    if instants == {} {
      assert OneRun(instants, run) == {};
    } else {
      var x :| x in instants;
      InstantsOfRun(instants - {x}, run);
      assert OneRun(instants, run) == OneRun(instants - {x}, run) + {(run, x)};
    }
  }

  lemma EvaluationsCount(readers: seq<Reader>, key: Key, runs: nat)
    requires AllValid(readers) && PositiveSteps(readers)
    ensures |Evaluations(readers, key, runs)| == runs * |GroupOffsets(readers, key)|
  {
    OffsetsAreGroupInstants(readers, key);
    RunsOfInstants(GroupInstants(readers, key), runs);
    hide Instants;
    assert Evaluations(readers, key, runs) == RunsOfAll(GroupInstants(readers, key), runs);
  }

  /** What a rate per second comes to in so many milliseconds. */
  function InTime(perSecond: real, ms: nat): real {
    perSecond * (ms as real / 1000.0)
  }

  /** How many runs are over in so many milliseconds. */
  function RunsIn(intervalMs: nat, ms: nat): nat {
    if intervalMs == 0 then 0 else ms / intervalMs
  }

  /** How long so many runs take. */
  function TimeOfRuns(intervalMs: nat, runs: nat): nat {
    runs * intervalMs
  }

  /** A fixed group's rate, over the time its runs take, is its readers' distinct evaluations. */
  lemma {:induction false} GroupCountsEvaluations(readers: seq<Reader>, key: Key, runs: nat)
    requires AllValid(readers) && PositiveSteps(readers) && key in GroupKeys(readers)
    ensures InTime(FixedGroup(readers, key).evaluationsPerSecond, TimeOfRuns(key.intervalMs, runs))
         == |Evaluations(readers, key, runs)| as real
  {
    hide InTime, PerSecond, GroupOffsets, GroupMembers, Evaluations, GroupKeys, AllValid, PositiveSteps;
    assert FixedGroup(readers, key).evaluationsPerSecond == PerSecond(key.intervalMs, |GroupOffsets(readers, key)|);
    hide *;
    EvaluationsCount(readers, key, runs);
    KeyHasInterval(readers, key);
    RateTimesTime(key.intervalMs, |GroupOffsets(readers, key)|, runs);
  }

  lemma KeyHasInterval(readers: seq<Reader>, key: Key)
    requires AllValid(readers) && key in GroupKeys(readers)
    ensures key.intervalMs > 0
    ensures exists i :: 0 <= i < |readers| && readers[i].Fixed() && readers[i].recurrence.intervalMs == key.intervalMs
  {
  }

  lemma RateTimesTime(intervalMs: nat, instants: nat, runs: nat)
    requires intervalMs > 0
    ensures InTime(PerSecond(intervalMs, instants), TimeOfRuns(intervalMs, runs)) == (runs * instants) as real
  {
    var i, n, r := intervalMs as real, instants as real, runs as real;
    assert (runs * intervalMs) as real == r * i && (runs * instants) as real == r * n;
    SecondsCancel(1000.0 / i, i, n, r);
  }

  lemma SecondsCancel(each: real, i: real, n: real, r: real)
    requires each * i == 1000.0
    ensures (each * n) * ((r * i) / 1000.0) == r * n
  {
    var t := (r * i) / 1000.0;
    assert t * 1000.0 == r * i;
    Regroup(each, n, t);
    Regroup(each, t, n);
    assert (each * t) * 1000.0 == each * (r * i);
    Regroup(each, r, i);
    Regroup(r, each, i);
    assert each * t == r;
  }

  lemma Regroup(x: real, y: real, z: real)
    ensures (x * y) * z == x * (y * z) && x * y == y * x && y * z == z * y
  {
  }

  // -------------------------------------------- all schedules together

  /** Every evaluation of the fixed readers in so many milliseconds: the group, its run, and the instant. */
  ghost function FixedEvaluations(readers: seq<Reader>, keys: set<Key>, ms: nat): set<(Key, (nat, nat))>
    requires AllValid(readers)
  {
    set k, e | k in keys && e in Evaluations(readers, k, RunsIn(k.intervalMs, ms)) :: (k, e)
  }

  ghost function UnderKey(key: Key, evaluations: set<(nat, nat)>): set<(Key, (nat, nat))> {
    set e | e in evaluations :: (key, e)
  }

  lemma {:induction false} SameCount(key: Key, evaluations: set<(nat, nat)>)
    ensures |UnderKey(key, evaluations)| == |evaluations|
    decreases |evaluations|
  {
    if evaluations == {} {
      assert UnderKey(key, evaluations) == {};
    } else {
      var e :| e in evaluations;
      SameCount(key, evaluations - {e});
      assert UnderKey(key, evaluations) == UnderKey(key, evaluations - {e}) + {(key, e)};
    }
  }

  predicate Whole(intervalMs: nat, ms: nat) {
    intervalMs > 0 && ms % intervalMs == 0
  }

  lemma {:induction false} KeysCount(readers: seq<Reader>, keys: set<Key>, ms: nat)
    requires AllValid(readers) && PositiveSteps(readers) && keys <= GroupKeys(readers)
    requires forall k :: k in keys ==> Whole(k.intervalMs, ms)
    ensures InTime(SumOver(keys, KeyRates(readers)), ms) == |FixedEvaluations(readers, keys, ms)| as real
    decreases |keys|
  {
    hide GroupKeys, Evaluations, KeyRates, InTime;
    NothingInTime(ms);
    if keys == {} {
      assert FixedEvaluations(readers, keys, ms) == {};
    } else {
      var k :| k in keys;
      var rest := keys - {k};
      KeysCount(readers, rest, ms);
      var all, before := FixedEvaluations(readers, keys, ms), FixedEvaluations(readers, rest, ms);
      var mine := UnderKey(k, Evaluations(readers, k, RunsIn(k.intervalMs, ms)));
      assert all == before + mine && before !! mine;
      SameCount(k, Evaluations(readers, k, RunsIn(k.intervalMs, ms)));
      SumSplit(keys, k, KeyRates(readers));
      KeyOverTime(readers, k, ms);
      hide FixedEvaluations, SumOver, UnderKey;
      AddedInTime(SumOver(rest, KeyRates(readers)), KeyRates(readers)(k), ms);
    }
  }

  lemma NothingInTime(ms: nat)
    ensures InTime(0.0, ms) == 0.0
  {
  }

  lemma AddedInTime(x: real, y: real, ms: nat)
    ensures InTime(x + y, ms) == InTime(x, ms) + InTime(y, ms) == InTime(y + x, ms)
  {
  }

  lemma {:induction false} KeyOverTime(readers: seq<Reader>, key: Key, ms: nat)
    requires AllValid(readers) && PositiveSteps(readers) && key in GroupKeys(readers)
    requires Whole(key.intervalMs, ms)
    ensures InTime(KeyRates(readers)(key), ms) == |Evaluations(readers, key, RunsIn(key.intervalMs, ms))| as real
  {
    hide InTime, PerSecond, GroupOffsets, GroupMembers, Evaluations, GroupKeys;
    var runs := RunsIn(key.intervalMs, ms);
    assert ms == TimeOfRuns(key.intervalMs, runs);
    GroupCountsEvaluations(readers, key, runs);
    assert KeyRates(readers)(key) == FixedGroup(readers, key).evaluationsPerSecond;
  }

  /** The interval of every fixed reader divides the time. */
  predicate WholeRuns(readers: seq<Reader>, ms: nat) {
    forall i :: 0 <= i < |readers| && readers[i].Fixed() ==> Whole(readers[i].recurrence.intervalMs, ms)
  }

  /** The estimated rates, and the batch over the horizon. */
  ghost function OtherRate(readers: seq<Reader>, horizonSeconds: real): real
    requires horizonSeconds > 0.0
  {
    EstimatedTotal(readers) + MostInvocations(readers) as real / horizonSeconds
  }

  /**
   The demand rate over a time that holds whole runs of every schedule: each
   fixed group's distinct evaluations counted one by one, and the estimated
   rates and the batch in proportion.
   */
  lemma {:induction false} RateOverTime(readers: seq<Reader>, horizonSeconds: real, ms: nat)
    requires AllValid(readers) && PositiveSteps(readers) && horizonSeconds > 0.0 && WholeRuns(readers, ms)
    ensures InTime(DemandRate(readers, horizonSeconds), ms)
         == |FixedEvaluations(readers, GroupKeys(readers), ms)| as real
            + InTime(OtherRate(readers, horizonSeconds), ms)
  {
    hide *;
    FixedInTime(readers, ms);
    DemandIs(readers, horizonSeconds);
    AddedInTime(SumOver(GroupKeys(readers), KeyRates(readers)), OtherRate(readers, horizonSeconds), ms);
  }

  lemma {:induction false} FixedInTime(readers: seq<Reader>, ms: nat)
    requires AllValid(readers) && PositiveSteps(readers) && WholeRuns(readers, ms)
    ensures InTime(SumOver(GroupKeys(readers), KeyRates(readers)), ms)
         == |FixedEvaluations(readers, GroupKeys(readers), ms)| as real
  {
    hide *;
    RunsAreWhole(readers, ms);
    KeysCount(readers, GroupKeys(readers), ms);
  }

  lemma {:induction false} DemandIs(readers: seq<Reader>, horizonSeconds: real)
    requires AllValid(readers) && horizonSeconds > 0.0
    ensures DemandRate(readers, horizonSeconds)
         == SumOver(GroupKeys(readers), KeyRates(readers)) + OtherRate(readers, horizonSeconds)
  {
    hide GroupKeys, KeyRates, SumOver, EstimatedTotal, MostInvocations, AllValid;
  }

  lemma {:induction false} RunsAreWhole(readers: seq<Reader>, ms: nat)
    requires AllValid(readers) && WholeRuns(readers, ms)
    ensures forall k :: k in GroupKeys(readers) ==> Whole(k.intervalMs, ms)
  {
    forall k | k in GroupKeys(readers) ensures Whole(k.intervalMs, ms) { KeyHasInterval(readers, k); }
  }

  // ------------------------------------------------ the other schedules

  /** An estimated rate is of requests, each asking for all its instants. */
  lemma EstimateCountsInstants(r: Reader)
    requires r.recurrence.EstimatedRate? && (r.range.Some? ==> r.range.value.stepMs > 0)
    ensures r.Estimate() == r.recurrence.expectedRate * |Instants(r)| as real
  {
    StepsAreInstants(r);
  }

  /** What a reader that does not repeat asks of the batch: all instants of each of its requests, one when nothing is known. */
  lemma InvocationsCountInstants(r: Reader)
    requires !r.Repeats() && (r.range.Some? ==> r.range.value.stepMs > 0)
    ensures r.Invocations() == (match r.recurrence
                                case Scheduled(times) => times
                                case OneTime(count) => count
                                case _ => 1) * |Instants(r)|
  {
    StepsAreInstants(r);
  }

  // -------------------------------------------------- who runs together

  ghost predicate Together(readers: seq<Reader>, i: nat, j: nat)
    requires AllValid(readers)
  {
    exists key :: i in GroupMembers(readers, key) && j in GroupMembers(readers, key)
  }

  /** The phase of a reader on its interval, when it is known. */
  function PhaseOf(r: Reader): Option<nat>
    requires r.Fixed() && r.Valid()
  {
    match r.recurrence
    case FixedIntervalAt(interval, phase) => Some(phase % interval)
    case _ => None
  }

  /** No reader on the interval has a known phase before `phase`. */
  predicate FirstPhase(readers: seq<Reader>, interval: nat, phase: nat)
    requires AllValid(readers)
  {
    forall l :: 0 <= l < |readers| && readers[l].Fixed() && readers[l].recurrence.intervalMs == interval && PhaseOf(readers[l]).Some? ==>
      phase <= PhaseOf(readers[l]).value
  }

  /**
   Two fixed readers run together exactly when they have one interval and, where
   both phases are known, one phase; where one is, it is the first on the
   interval.
   */
  lemma {:induction false} TogetherIff(readers: seq<Reader>, i: nat, j: nat)
    requires AllValid(readers) && i < |readers| && j < |readers| && readers[i].Fixed() && readers[j].Fixed()
    ensures Together(readers, i, j) == (
      && readers[i].recurrence.intervalMs == readers[j].recurrence.intervalMs
      && match (PhaseOf(readers[i]), PhaseOf(readers[j]))
         case (Some(p), Some(q)) => p == q
         case (Some(p), None) => FirstPhase(readers, readers[i].recurrence.intervalMs, p)
         case (None, Some(q)) => FirstPhase(readers, readers[i].recurrence.intervalMs, q)
         case (None, None) => true)
  {
    var a, b := readers[i].OwnKey(), readers[j].OwnKey();
    var home, other := Home(readers, a), Home(readers, b);
    assert HomeIn(readers, Intervals(readers), a) == home && HomeIn(readers, Intervals(readers), b) == other;
    forall key ensures (i in GroupMembers(readers, key)) == (home == key) && (j in GroupMembers(readers, key)) == (other == key) {
      MembersAre(readers, Intervals(readers), |readers|, key);
    }
    assert Together(readers, i, j) == (home == other) by {
      if home == other { assert i in GroupMembers(readers, home) && j in GroupMembers(readers, home); }
    }
    hide GroupMembers, Intervals;
    if readers[i].recurrence.intervalMs == readers[j].recurrence.intervalMs {
      FirstIsLeast(readers, i, j);
      FirstIsLeast(readers, j, i);
    }
  }

  /** A reader of unknown phase goes with a known one exactly when that one is the first on the interval. */
  lemma {:induction false} FirstIsLeast(readers: seq<Reader>, i: nat, j: nat)
    requires AllValid(readers) && i < |readers| && j < |readers| && readers[i].Fixed() && readers[j].Fixed()
    requires readers[i].recurrence.intervalMs == readers[j].recurrence.intervalMs
    ensures PhaseOf(readers[i]).Some? && PhaseOf(readers[j]).None? ==>
      ((Home(readers, readers[i].OwnKey()) == Home(readers, readers[j].OwnKey()))
       == FirstPhase(readers, readers[i].recurrence.intervalMs, PhaseOf(readers[i]).value))
  {
    var interval := readers[i].recurrence.intervalMs;
    var known := KnownPhases(readers, interval);
    if PhaseOf(readers[i]).Some? && PhaseOf(readers[j]).None? {
      assert PhaseOf(readers[i]).value in known;
      forall l | 0 <= l < |readers| && readers[l].Fixed() && readers[l].recurrence.intervalMs == interval && PhaseOf(readers[l]).Some?
        ensures PhaseOf(readers[l]).value in known
      {
        assert readers[l].OwnKey().phaseMs == PhaseOf(readers[l]);
      }
    }
  }
}
