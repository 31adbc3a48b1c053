/**
 Grouping the readers of a node by schedule, and how often the node is
 computed for them (crates/cost/src/execution_demand.rs).
 */
module Schedules {
  import opened OffsetCounting
  import opened Results

  type u32 = x: int | 0 <= x < 0x1_0000_0000

  datatype RangeEvaluation = RangeEvaluation(stepMs: u64, spanMs: u64) {
    /** Steps one request evaluates. */
    function EvaluationsPerRequest(): nat {
      spanMs / Geometry(stepMs, spanMs).Grid() + 1
    }
  }

  /** How often a reader runs; a list of scheduled times counts by its length. */
  datatype Recurrence =
    | FixedInterval(intervalMs: u32)
    | FixedIntervalAt(intervalMs: u32, evaluationPhaseMs: u64)
    | EstimatedRate(expectedRate: real)
    | Scheduled(times: nat)
    | OneTime(invocations: nat)
    | Unknown

  datatype Reader = Reader(recurrence: Recurrence, range: Option<RangeEvaluation>) {
    function Steps(): nat {
      if range.Some? then range.value.EvaluationsPerRequest() else 1
    }

    predicate Fixed() {
      recurrence.FixedInterval? || recurrence.FixedIntervalAt?
    }

    predicate Repeats() {
      Fixed() || recurrence.EstimatedRate?
    }

    /** A zero interval or a negative rate is refused. */
    predicate Valid() {
      match recurrence
      case FixedInterval(interval) => interval > 0
      case FixedIntervalAt(interval, _) => interval > 0
      case EstimatedRate(rate) => rate >= 0.0
      case _ => true
    }

    /** The interval with the phase on it, when the phase is known. */
    function OwnKey(): Key
      requires Fixed() && Valid()
    {
      match recurrence
      case FixedInterval(interval) => Key(interval, None)
      case FixedIntervalAt(interval, phase) => Key(interval, Some(phase % interval))
    }

    /** One evaluation per request is the interval with span 0. */
    function Geometry(): Geometry
      requires Fixed() && Valid()
    {
      if range.Some? && Steps() > 1 then OffsetCounting.Geometry(range.value.stepMs, range.value.spanMs)
      else OffsetCounting.Geometry(recurrence.intervalMs, 0)
    }

    /** What a non-repeating reader asks of the batch. */
    function Invocations(): nat {
      match recurrence
      case Scheduled(times) => times * Steps()
      case OneTime(count) => count * Steps()
      case Unknown => Steps()
      case _ => 0
    }

    function Estimate(): real {
      if recurrence.EstimatedRate? then recurrence.expectedRate * Steps() as real else 0.0
    }
  }

  /** The caller of a range evaluation gives a positive step. */
  predicate PositiveSteps(readers: seq<Reader>) {
    forall i :: 0 <= i < |readers| && readers[i].range.Some? ==> readers[i].range.value.stepMs > 0
  }

  predicate AllValid(readers: seq<Reader>) {
    forall i :: 0 <= i < |readers| ==> readers[i].Valid()
  }

  datatype Key = Key(intervalMs: nat, phaseMs: Option<nat>)

  /** The order of the map's keys: by interval, then phase, an unknown phase first. */
  predicate Before(a: Key, b: Key) {
    a.intervalMs < b.intervalMs
    || (a.intervalMs == b.intervalMs && b.phaseMs.Some?
        && (a.phaseMs.None? || a.phaseMs.value < b.phaseMs.value))
  }

  datatype ScheduleKind = FixedIntervalGroup | EstimatedRateGroup | NonRepeatingGroup

  datatype ScheduleGroup = ScheduleGroup(readers: seq<nat>, evaluationsPerSecond: real, schedule: ScheduleKind)

  datatype DemandError = InvalidRecurrence | CountOverflow

  // --------------------------------------------------- the specification

  ghost function KnownPhases(readers: seq<Reader>, intervalMs: nat): set<nat>
    requires AllValid(readers)
  {
    set i | 0 <= i < |readers| && readers[i].Fixed() && readers[i].OwnKey().intervalMs == intervalMs
            && readers[i].OwnKey().phaseMs.Some? :: readers[i].OwnKey().phaseMs.value
  }

  ghost function Least(s: set<nat>): (least: nat)
    requires s != {}
    ensures least in s && forall x :: x in s ==> least <= x
    decreases |s|
  {
    var y :| y in s;
    if s == {y} then y
    else
      var rest := Least(s - {y});
      assert forall x :: x in s ==> x == y || x in s - {y};
      if y < rest then y else rest
  }

  /** Where a key's readers end up: an unknown phase joins the first known one on its interval. */
  ghost function Home(readers: seq<Reader>, key: Key): Key
    requires AllValid(readers)
  {
    var known := KnownPhases(readers, key.intervalMs);
    if key.phaseMs.None? && known != {} then Key(key.intervalMs, Some(Least(known))) else key
  }

  /** `Home` for the intervals in `done`, the own key for the others. */
  ghost function HomeIn(readers: seq<Reader>, done: set<nat>, key: Key): Key
    requires AllValid(readers)
  {
    if key.intervalMs in done then Home(readers, key) else key
  }

  ghost predicate MemberOf(readers: seq<Reader>, done: set<nat>, i: nat, key: Key)
    requires AllValid(readers)
  {
    i < |readers| && readers[i].Fixed() && HomeIn(readers, done, readers[i].OwnKey()) == key
  }

  /** The positions below `n` whose readers are grouped under `key`, ascending. */
  ghost function Members(readers: seq<Reader>, done: set<nat>, n: nat, key: Key): seq<nat>
    requires AllValid(readers)
  {
    if n == 0 then []
    else Members(readers, done, n - 1, key) + if MemberOf(readers, done, n - 1, key) then [n - 1] else []
  }

  ghost function KeysOf(readers: seq<Reader>, done: set<nat>, n: nat): set<Key>
    requires AllValid(readers) && n <= |readers|
  {
    set i | 0 <= i < n && readers[i].Fixed() :: HomeIn(readers, done, readers[i].OwnKey())
  }

  /** The offsets any reader below `n` under `key` evaluates at. */
  ghost function OffsetsUnder(readers: seq<Reader>, done: set<nat>, n: nat, key: Key): set<nat>
    requires AllValid(readers) && n <= |readers|
  {
    set i, o | 0 <= i < n && MemberOf(readers, done, i, key) && o in OffsetsOf(readers[i].Geometry()) :: o
  }

  /** Every interval some reader repeats on. */
  ghost function Intervals(readers: seq<Reader>): set<nat>
    requires AllValid(readers)
  {
    set i | 0 <= i < |readers| && readers[i].Fixed() :: readers[i].OwnKey().intervalMs
  }

  ghost function GroupKeys(readers: seq<Reader>): set<Key>
    requires AllValid(readers)
  {
    KeysOf(readers, Intervals(readers), |readers|)
  }

  ghost function GroupMembers(readers: seq<Reader>, key: Key): seq<nat>
    requires AllValid(readers)
  {
    Members(readers, Intervals(readers), |readers|, key)
  }

  ghost function GroupOffsets(readers: seq<Reader>, key: Key): set<nat>
    requires AllValid(readers)
  {
    OffsetsUnder(readers, Intervals(readers), |readers|, key)
  }

  /** Evaluations per second of `instants` per request every `intervalMs`. */
  function PerSecond(intervalMs: nat, instants: nat): real {
    if intervalMs == 0 then 0.0 else 1000.0 / intervalMs as real * instants as real
  }

  ghost function FixedGroup(readers: seq<Reader>, key: Key): ScheduleGroup
    requires AllValid(readers)
  {
    ScheduleGroup(GroupMembers(readers, key), PerSecond(key.intervalMs, |GroupOffsets(readers, key)|), FixedIntervalGroup)
  }

  ghost function FixedGroups(readers: seq<Reader>, keys: seq<Key>): seq<ScheduleGroup>
    requires AllValid(readers)
  {
    if keys == [] then [] else FixedGroups(readers, keys[..|keys| - 1]) + [FixedGroup(readers, keys[|keys| - 1])]
  }

  function EstimatedGroups(readers: seq<Reader>): seq<ScheduleGroup> {
    if readers == [] then []
    else
      var last := |readers| - 1;
      EstimatedGroups(readers[..last]) +
      (if readers[last].recurrence.EstimatedRate?
       then [ScheduleGroup([last], readers[last].Estimate(), EstimatedRateGroup)] else [])
  }

  function NonRepeating(readers: seq<Reader>): seq<nat> {
    if readers == [] then []
    else
      var last := |readers| - 1;
      NonRepeating(readers[..last]) + (if readers[last].Repeats() then [] else [last])
  }

  function MostInvocations(readers: seq<Reader>): nat {
    if readers == [] then 0
    else Max(MostInvocations(readers[..|readers| - 1]), readers[|readers| - 1].Invocations())
  }

  function Max(a: nat, b: nat): nat {
    if a < b then b else a
  }

  function BatchGroups(readers: seq<Reader>, horizonSeconds: real): seq<ScheduleGroup>
    requires horizonSeconds > 0.0
  {
    if NonRepeating(readers) == [] then []
    else [ScheduleGroup(NonRepeating(readers), MostInvocations(readers) as real / horizonSeconds, NonRepeatingGroup)]
  }

  ghost predicate Ascending(keys: seq<Key>) {
    forall a, b :: 0 <= a < b < |keys| ==> Before(keys[a], keys[b])
  }

  /** `keys` lists the fixed groups in map order, and `groups` are all groups in the order they add. */
  ghost predicate IsSchedule(readers: seq<Reader>, horizonSeconds: real, keys: seq<Key>, groups: seq<ScheduleGroup>)
    requires AllValid(readers) && horizonSeconds > 0.0
  {
    && Ascending(keys)
    && (set k | k in keys) == GroupKeys(readers)
    && groups == FixedGroups(readers, keys) + EstimatedGroups(readers) + BatchGroups(readers, horizonSeconds)
  }

  // ------------------------------------------------------ the two loops

  datatype FixedSchedule = FixedSchedule(longest: map<u64, u64>, readers: seq<nat>)

  /** The map after reading `n` readers, with the intervals in `done` re-homed. */
  ghost predicate Represents(bySchedule: map<Key, FixedSchedule>, readers: seq<Reader>, done: set<nat>, n: nat)
    requires AllValid(readers) && n <= |readers|
  {
    && bySchedule.Keys == KeysOf(readers, done, n)
    && forall k :: k in bySchedule ==>
         && bySchedule[k].readers == Members(readers, done, n, k)
         && Instants(bySchedule[k].longest) == OffsetsUnder(readers, done, n, k)
         && 0 !in bySchedule[k].longest
  }

  /** `entry(step).or_default()` raised to at least `span`. */
  function Raise(longest: map<u64, u64>, step: u64, span: u64): map<u64, u64> {
    longest[step := if step in longest && longest[step] > span then longest[step] else span]
  }

  lemma RaiseAddsOffsets(longest: map<u64, u64>, step: u64, span: u64)
    ensures Instants(Raise(longest, step, span)) == Instants(longest) + OffsetsOf(Geometry(step, span))
  {
    var raised := Raise(longest, step, span);
    forall o: nat
      ensures o in Instants(raised) <==> o in Instants(longest) || o in OffsetsOf(Geometry(step, span))
    {
      if o in Instants(raised) {
        var s :| s in raised && o in OffsetsOf(Geometry(s, raised[s]));
        if s != step { assert s in longest && o in OffsetsOf(Geometry(s, longest[s])); }
      }
      if o in Instants(longest) {
        var s :| s in longest && o in OffsetsOf(Geometry(s, longest[s]));
        assert s in raised && o in OffsetsOf(Geometry(s, raised[s]));
      }
      if o in OffsetsOf(Geometry(step, span)) {
        assert step in raised && o in OffsetsOf(Geometry(step, raised[step]));
      }
    }
  }

  lemma NoInstants()
    ensures Instants(map[]) == {}
  {
  }

  /** One more reader enters its own key. */
  function WithReader(bySchedule: map<Key, FixedSchedule>, key: Key, g: Geometry,
                      reader: nat): map<Key, FixedSchedule> {
    var entry := if key in bySchedule then bySchedule[key] else FixedSchedule(map[], []);
    bySchedule[key := FixedSchedule(Raise(entry.longest, g.step, g.span), entry.readers + [reader])]
  }

  lemma WithReaderRepresents(bySchedule: map<Key, FixedSchedule>, readers: seq<Reader>, n: nat)
    requires AllValid(readers) && PositiveSteps(readers) && n < |readers| && readers[n].Fixed()
    requires Represents(bySchedule, readers, {}, n)
    ensures Represents(WithReader(bySchedule, readers[n].OwnKey(), readers[n].Geometry(), n), readers, {}, n + 1)
  {
    var key, g := readers[n].OwnKey(), readers[n].Geometry();
    var after := WithReader(bySchedule, key, g, n);
    assert KeysOf(readers, {}, n + 1) == KeysOf(readers, {}, n) + {key};
    forall k | k in after
      ensures after[k].readers == Members(readers, {}, n + 1, k)
      ensures Instants(after[k].longest) == OffsetsUnder(readers, {}, n + 1, k)
      ensures 0 !in after[k].longest
    {
      OffsetsGrow(readers, {}, n, k);
      if k == key {
        var entry := if key in bySchedule then bySchedule[key] else FixedSchedule(map[], []);
        RaiseAddsOffsets(entry.longest, g.step, g.span);
        if key !in bySchedule {
          NotAKey(readers, {}, n, key);
          NoInstants();
        }
      }
    }
  }

  lemma OffsetsGrow(readers: seq<Reader>, done: set<nat>, n: nat, k: Key)
    requires AllValid(readers) && n < |readers|
    ensures OffsetsUnder(readers, done, n + 1, k)
         == OffsetsUnder(readers, done, n, k)
            + if MemberOf(readers, done, n, k) then OffsetsOf(readers[n].Geometry()) else {}
  {
    forall o: nat | o in OffsetsUnder(readers, done, n + 1, k)
      ensures o in OffsetsUnder(readers, done, n, k)
           || (MemberOf(readers, done, n, k) && o in OffsetsOf(readers[n].Geometry()))
    {
      var i :| 0 <= i < n + 1 && MemberOf(readers, done, i, k) && o in OffsetsOf(readers[i].Geometry());
    }
  }

  lemma {:induction false} NotAKey(readers: seq<Reader>, done: set<nat>, n: nat, k: Key)
    requires AllValid(readers) && n <= |readers| && k !in KeysOf(readers, done, n)
    ensures Members(readers, done, n, k) == []
    ensures OffsetsUnder(readers, done, n, k) == {}
  {
    if n > 0 {
      assert k !in KeysOf(readers, done, n - 1);
      NotAKey(readers, done, n - 1, k);
      OffsetsGrow(readers, done, n - 1, k);
    }
  }

  /** Reading the list: every reader goes to its own key, the estimates or the batch. */
  method ReadSchedules(readers: seq<Reader>)
    returns (r: Result<(map<Key, FixedSchedule>, seq<ScheduleGroup>, nat, seq<nat>), DemandError>)
    requires PositiveSteps(readers)
    ensures r.Success? <==> AllValid(readers)
    ensures r.Failure? ==> r.error == InvalidRecurrence
    ensures r.Success? ==>
      && Represents(r.value.0, readers, {}, |readers|)
      && r.value.1 == EstimatedGroups(readers)
      && r.value.2 == MostInvocations(readers)
      && r.value.3 == NonRepeating(readers)
  {
    hide Represents, AllValid, EstimatedGroups, MostInvocations, NonRepeating, WithReader, PositiveSteps;
    var bySchedule: map<Key, FixedSchedule> := map[];
    NothingListed(readers);
    if AllValid(readers) { NothingRead(readers); }
    var estimated: seq<ScheduleGroup> := [];
    var invocations := 0;
    var nonRepeating: seq<nat> := [];
    for n := 0 to |readers|
      invariant AllValid(readers[..n])
      invariant AllValid(readers) ==> Represents(bySchedule, readers, {}, n)
      invariant estimated == EstimatedGroups(readers[..n])
      invariant invocations == MostInvocations(readers[..n])
      invariant nonRepeating == NonRepeating(readers[..n])
    {
      var reader := readers[n];
      ListsGrow(readers, n);
      EachIsValid(readers, n);
      if reader.Fixed() {
        if reader.recurrence.intervalMs == 0 {
          return Failure(InvalidRecurrence);
        }
        if AllValid(readers) { WithReaderRepresents(bySchedule, readers, n); }
        bySchedule := WithReader(bySchedule, reader.OwnKey(), reader.Geometry(), n);
      } else {
        if AllValid(readers) { OtherReaderRepresents(bySchedule, readers, n); }
        match reader.recurrence {
          case EstimatedRate(rate) =>
            if rate < 0.0 {
              return Failure(InvalidRecurrence);
            }
            estimated := estimated + [ScheduleGroup([n], rate * reader.Steps() as real, EstimatedRateGroup)];
          case Scheduled(times) =>
            invocations := Max(invocations, times * reader.Steps());
            nonRepeating := nonRepeating + [n];
          case OneTime(count) =>
            invocations := Max(invocations, count * reader.Steps());
            nonRepeating := nonRepeating + [n];
          case Unknown =>
            invocations := Max(invocations, reader.Steps());
            nonRepeating := nonRepeating + [n];
        }
      }
    }
    assert readers[..|readers|] == readers;
    r := Success((bySchedule, estimated, invocations, nonRepeating));
  }

  lemma EachIsValid(readers: seq<Reader>, n: nat)
    requires n < |readers|
    ensures AllValid(readers) ==> readers[n].Valid()
  {
  }

  lemma NothingListed(readers: seq<Reader>)
    ensures AllValid(readers[..0]) && EstimatedGroups(readers[..0]) == [] && MostInvocations(readers[..0]) == 0
    ensures NonRepeating(readers[..0]) == []
  {
  }

  lemma NothingRead(readers: seq<Reader>)
    requires AllValid(readers)
    ensures Represents(map[], readers, {}, 0)
  {
  }

  lemma ListsGrow(readers: seq<Reader>, n: nat)
    requires n < |readers|
    ensures AllValid(readers[..n + 1]) <==> AllValid(readers[..n]) && readers[n].Valid()
    ensures EstimatedGroups(readers[..n + 1]) == EstimatedGroups(readers[..n]) +
      (if readers[n].recurrence.EstimatedRate?
       then [ScheduleGroup([n], readers[n].Estimate(), EstimatedRateGroup)] else [])
    ensures MostInvocations(readers[..n + 1]) == Max(MostInvocations(readers[..n]), readers[n].Invocations())
    ensures NonRepeating(readers[..n + 1]) == NonRepeating(readers[..n]) + if readers[n].Repeats() then [] else [n]
  {
    assert readers[..n + 1][..n] == readers[..n];
    assert readers[..n + 1] == readers[..n] + [readers[n]];
  }

  lemma OtherReaderRepresents(bySchedule: map<Key, FixedSchedule>, readers: seq<Reader>, n: nat)
    requires AllValid(readers) && n < |readers| && !readers[n].Fixed()
    requires Represents(bySchedule, readers, {}, n)
    ensures Represents(bySchedule, readers, {}, n + 1)
  {
    assert KeysOf(readers, {}, n + 1) == KeysOf(readers, {}, n);
    forall k | k in bySchedule
      ensures OffsetsUnder(readers, {}, n + 1, k) == OffsetsUnder(readers, {}, n, k)
    {
      OffsetsGrow(readers, {}, n, k);
    }
  }

  // ----------------------------------------------- unknown phases re-homed

  ghost predicate StrictlyAscending(s: seq<nat>) {
    forall i, j :: 0 <= i < j < |s| ==> s[i] < s[j]
  }

  ghost predicate NoDuplicates(s: seq<nat>) {
    forall i, j :: 0 <= i < j < |s| ==> s[i] != s[j]
  }

  function Insert(s: seq<nat>, x: nat): (r: seq<nat>)
    requires StrictlyAscending(s) && x !in s
    ensures StrictlyAscending(r)
    ensures forall y :: y in r <==> y in s || y == x
  {
    if s == [] || x < s[0] then [x] + s
    else
      assert s[0] in s;
      var rest := Insert(s[1..], x);
      assert forall y :: y in s <==> y == s[0] || y in s[1..];
      HeadBelow(s, x, rest);
      [s[0]] + rest
  }

  lemma HeadBelow(s: seq<nat>, x: nat, rest: seq<nat>)
    requires s != [] && StrictlyAscending(s) && s[0] < x
    requires forall y :: y in rest ==> y in s[1..] || y == x
    ensures forall j :: 0 <= j < |rest| ==> s[0] < rest[j]
  {
    forall j | 0 <= j < |rest| ensures s[0] < rest[j] {
      assert rest[j] in rest;
      if rest[j] != x {
        var k :| 0 <= k < |s[1..]| && s[1..][k] == rest[j];
        assert s[k + 1] == rest[j];
      }
    }
  }

  /** `sort_unstable` on positions that are all different. */
  function Sorted(s: seq<nat>): (r: seq<nat>)
    requires NoDuplicates(s)
    ensures StrictlyAscending(r)
    ensures forall y :: y in r <==> y in s
  {
    if s == [] then []
    else
      assert forall y :: y in s <==> y == s[0] || y in s[1..];
      Insert(Sorted(s[1..]), s[0])
  }

  lemma {:induction false} AscendingUnique(a: seq<nat>, b: seq<nat>)
    requires StrictlyAscending(a) && StrictlyAscending(b)
    requires forall x :: x in a <==> x in b
    ensures a == b
    decreases |a|
  {
    if a != [] { assert a[0] in a; }
    if b != [] { assert b[0] in b; }
    if a != [] {
      assert a[0] in b && b[0] in a;
      assert a[0] == b[0];
      forall x ensures x in a[1..] <==> x in b[1..] {
        assert x in a <==> x == a[0] || x in a[1..];
        assert x in b <==> x == b[0] || x in b[1..];
        assert a[0] !in a[1..] && b[0] !in b[1..];
      }
      AscendingUnique(a[1..], b[1..]);
    }
  }

  lemma {:induction false} MembersAre(readers: seq<Reader>, done: set<nat>, n: nat, key: Key)
    requires AllValid(readers)
    ensures StrictlyAscending(Members(readers, done, n, key))
    ensures forall i: nat :: i in Members(readers, done, n, key) <==> i < n && MemberOf(readers, done, i, key)
  {
    if n > 0 {
      MembersAre(readers, done, n - 1, key);
      var before := Members(readers, done, n - 1, key);
      forall i | 0 <= i < |before| ensures before[i] < n - 1 { assert before[i] in before; }
    }
  }

  method MergeLongest(with: map<u64, u64>, unknown: map<u64, u64>) returns (merged: map<u64, u64>)
    requires 0 !in with && 0 !in unknown
    ensures Instants(merged) == Instants(with) + Instants(unknown)
    ensures 0 !in merged
  {
    merged := with;
    var left := unknown.Keys;
    while left != {}
      invariant left <= unknown.Keys
      invariant 0 !in merged
      invariant Instants(merged) == Instants(with) + Instants(unknown - left)
      decreases |left|
    {
      var step :| step in left;
      RaiseAddsOffsets(merged, step, unknown[step]);
      RaiseAddsOffsets(unknown - left, step, unknown[step]);
      assert Raise(unknown - left, step, unknown[step]) == unknown - (left - {step});
      merged := Raise(merged, step, unknown[step]);
      left := left - {step};
    }
    assert unknown - {} == unknown;
    if unknown.Keys == {} { assert unknown == map[]; }
  }

  method FirstKnown(bySchedule: map<Key, FixedSchedule>, intervalMs: nat) returns (r: Option<nat>)
    ensures r.None? ==> forall k :: k in bySchedule && k.intervalMs == intervalMs ==> k.phaseMs.None?
    ensures r.Some? ==>
      && Key(intervalMs, Some(r.value)) in bySchedule
      && forall k :: k in bySchedule && k.intervalMs == intervalMs && k.phaseMs.Some? ==> r.value <= k.phaseMs.value
  {
    r := None;
    var left := bySchedule.Keys;
    while left != {}
      invariant left <= bySchedule.Keys
      invariant r.None? ==> forall k :: k in bySchedule.Keys - left && k.intervalMs == intervalMs ==> k.phaseMs.None?
      invariant r.Some? ==>
        && Key(intervalMs, Some(r.value)) in bySchedule
        && forall k :: k in bySchedule.Keys - left && k.intervalMs == intervalMs && k.phaseMs.Some? ==> r.value <= k.phaseMs.value
      decreases |left|
    {
      var k :| k in left;
      if k.intervalMs == intervalMs && k.phaseMs.Some? && (r.None? || k.phaseMs.value < r.value) {
        r := Some(k.phaseMs.value);
      }
      left := left - {k};
    }
  }

  lemma PhasesInMap(bySchedule: map<Key, FixedSchedule>, readers: seq<Reader>, done: set<nat>, intervalMs: nat)
    requires AllValid(readers) && Represents(bySchedule, readers, done, |readers|) && intervalMs !in done
    ensures forall p :: p in KnownPhases(readers, intervalMs) <==> Key(intervalMs, Some(p)) in bySchedule
  {
    forall p | p in KnownPhases(readers, intervalMs) ensures Key(intervalMs, Some(p)) in bySchedule {
      var i :| 0 <= i < |readers| && readers[i].Fixed() && readers[i].OwnKey() == Key(intervalMs, Some(p));
      assert HomeIn(readers, done, readers[i].OwnKey()) == Key(intervalMs, Some(p));
    }
  }

  lemma {:induction false} SameHomes(readers: seq<Reader>, a: set<nat>, b: set<nat>, n: nat)
    requires AllValid(readers) && n <= |readers|
    requires forall i :: 0 <= i < n && readers[i].Fixed() ==>
      HomeIn(readers, a, readers[i].OwnKey()) == HomeIn(readers, b, readers[i].OwnKey())
    ensures KeysOf(readers, a, n) == KeysOf(readers, b, n)
    ensures forall k :: Members(readers, a, n, k) == Members(readers, b, n, k)
    ensures forall k :: OffsetsUnder(readers, a, n, k) == OffsetsUnder(readers, b, n, k)
  {
    if n > 0 {
      SameHomes(readers, a, b, n - 1);
      forall k ensures OffsetsUnder(readers, a, n, k) == OffsetsUnder(readers, b, n, k) {
        OffsetsGrow(readers, a, n - 1, k);
        OffsetsGrow(readers, b, n - 1, k);
      }
    }
  }

  /** Re-homing one interval moves the readers of its unknown phase and nobody else. */
  lemma MembershipMoves(readers: seq<Reader>, done: set<nat>, intervalMs: nat, phase: nat)
    requires AllValid(readers) && intervalMs !in done
    requires KnownPhases(readers, intervalMs) != {} && phase == Least(KnownPhases(readers, intervalMs))
    ensures forall i, k :: MemberOf(readers, done + {intervalMs}, i, k) <==>
      if k == Key(intervalMs, Some(phase)) then MemberOf(readers, done, i, k) || MemberOf(readers, done, i, Key(intervalMs, None))
      else k != Key(intervalMs, None) && MemberOf(readers, done, i, k)
  {
    var unknown, known := Key(intervalMs, None), Key(intervalMs, Some(phase));
    assert Home(readers, unknown) == known;
    forall i | 0 <= i < |readers| && readers[i].Fixed()
      ensures var h := HomeIn(readers, done, readers[i].OwnKey());
              HomeIn(readers, done + {intervalMs}, readers[i].OwnKey()) == if h == unknown then known else h
    {
    }
  }

  ghost predicate IsKey(readers: seq<Reader>, done: set<nat>, k: Key)
    requires AllValid(readers)
  {
    exists i :: MemberOf(readers, done, i, k)
  }

  lemma KeysHaveMembers(readers: seq<Reader>, done: set<nat>)
    requires AllValid(readers)
    ensures forall k :: k in KeysOf(readers, done, |readers|) <==> IsKey(readers, done, k)
  {
    forall k | k in KeysOf(readers, done, |readers|) ensures IsKey(readers, done, k) {
      var i :| 0 <= i < |readers| && readers[i].Fixed() && HomeIn(readers, done, readers[i].OwnKey()) == k;
      assert MemberOf(readers, done, i, k);
    }
  }

  /** The two entries `from` and `to` merged into one. */
  ghost predicate IsMerged(merged: FixedSchedule, to: FixedSchedule, from: FixedSchedule) {
    && StrictlyAscending(merged.readers)
    && (forall i :: i in merged.readers <==> i in from.readers || i in to.readers)
    && 0 !in merged.longest
    && Instants(merged.longest) == Instants(to.longest) + Instants(from.longest)
  }

  /** One interval's unknown-phase entry moved into its first known one. */
  lemma RehomeStep(bySchedule: map<Key, FixedSchedule>, readers: seq<Reader>, done: set<nat>, intervalMs: nat,
                   phase: nat, merged: FixedSchedule)
    requires AllValid(readers) && Represents(bySchedule, readers, done, |readers|) && intervalMs !in done
    requires KnownPhases(readers, intervalMs) != {} && phase == Least(KnownPhases(readers, intervalMs))
    requires Key(intervalMs, None) in bySchedule && Key(intervalMs, Some(phase)) in bySchedule
    requires IsMerged(merged, bySchedule[Key(intervalMs, Some(phase))], bySchedule[Key(intervalMs, None)])
    ensures Represents((bySchedule - {Key(intervalMs, None)})[Key(intervalMs, Some(phase)) := merged],
                       readers, done + {intervalMs}, |readers|)
  {
    var unknown, known, n := Key(intervalMs, None), Key(intervalMs, Some(phase)), |readers|;
    var after := (bySchedule - {unknown})[known := merged];
    MembershipMoves(readers, done, intervalMs, phase);
    RehomedKeys(readers, done, intervalMs, phase);
    assert after.Keys == KeysOf(readers, done + {intervalMs}, n);
    forall k | k in after
      ensures after[k].readers == Members(readers, done + {intervalMs}, n, k)
      ensures Instants(after[k].longest) == OffsetsUnder(readers, done + {intervalMs}, n, k)
    {
      if k == known {
        RehomedEntry(readers, done, intervalMs, phase, merged, bySchedule[known], bySchedule[unknown]);
      } else {
        MembersAre(readers, done, n, k);
        MembersAre(readers, done + {intervalMs}, n, k);
        AscendingUnique(after[k].readers, Members(readers, done + {intervalMs}, n, k));
        assert OffsetsUnder(readers, done + {intervalMs}, n, k) == OffsetsUnder(readers, done, n, k);
      }
    }
  }

  lemma RehomedKeys(readers: seq<Reader>, done: set<nat>, intervalMs: nat, phase: nat)
    requires AllValid(readers) && intervalMs !in done
    requires KnownPhases(readers, intervalMs) != {} && phase == Least(KnownPhases(readers, intervalMs))
    requires Key(intervalMs, Some(phase)) in KeysOf(readers, done, |readers|)
    ensures KeysOf(readers, done + {intervalMs}, |readers|) == KeysOf(readers, done, |readers|) - {Key(intervalMs, None)}
  {
    var unknown, known := Key(intervalMs, None), Key(intervalMs, Some(phase));
    MembershipMoves(readers, done, intervalMs, phase);
    KeysHaveMembers(readers, done);
    KeysHaveMembers(readers, done + {intervalMs});
    forall k ensures IsKey(readers, done + {intervalMs}, k) <==> IsKey(readers, done, k) && k != unknown {
      if k == known {
        var i :| MemberOf(readers, done, i, known);
        assert MemberOf(readers, done + {intervalMs}, i, known);
      } else if k != unknown && IsKey(readers, done, k) {
        var i :| MemberOf(readers, done, i, k);
        assert MemberOf(readers, done + {intervalMs}, i, k);
      }
    }
  }

  lemma RehomedEntry(readers: seq<Reader>, done: set<nat>, intervalMs: nat, phase: nat,
                     merged: FixedSchedule, to: FixedSchedule, from: FixedSchedule)
    requires AllValid(readers) && intervalMs !in done
    requires KnownPhases(readers, intervalMs) != {} && phase == Least(KnownPhases(readers, intervalMs))
    requires IsMerged(merged, to, from)
    requires to.readers == Members(readers, done, |readers|, Key(intervalMs, Some(phase)))
    requires from.readers == Members(readers, done, |readers|, Key(intervalMs, None))
    requires Instants(to.longest) == OffsetsUnder(readers, done, |readers|, Key(intervalMs, Some(phase)))
    requires Instants(from.longest) == OffsetsUnder(readers, done, |readers|, Key(intervalMs, None))
    ensures merged.readers == Members(readers, done + {intervalMs}, |readers|, Key(intervalMs, Some(phase)))
    ensures Instants(merged.longest) == OffsetsUnder(readers, done + {intervalMs}, |readers|, Key(intervalMs, Some(phase)))
  {
    var unknown, known, n := Key(intervalMs, None), Key(intervalMs, Some(phase)), |readers|;
    MembershipMoves(readers, done, intervalMs, phase);
    MembersAre(readers, done, n, known);
    MembersAre(readers, done, n, unknown);
    MembersAre(readers, done + {intervalMs}, n, known);
    AscendingUnique(merged.readers, Members(readers, done + {intervalMs}, n, known));
    assert OffsetsUnder(readers, done + {intervalMs}, n, known)
        == OffsetsUnder(readers, done, n, known) + OffsetsUnder(readers, done, n, unknown);
  }

  method RehomeOne(bySchedule: map<Key, FixedSchedule>, readers: seq<Reader>, ghost done: set<nat>, interval: nat)
    returns (after: map<Key, FixedSchedule>)
    requires AllValid(readers) && Represents(bySchedule, readers, done, |readers|)
    requires interval !in done && Key(interval, None) in bySchedule
    ensures Represents(after, readers, done + {interval}, |readers|)
  {
    var phase := FirstKnown(bySchedule, interval);
    PhasesInMap(bySchedule, readers, done, interval);
    if phase.None? {
      assert KnownPhases(readers, interval) == {};
      SameHomes(readers, done, done + {interval}, |readers|);
      return bySchedule;
    }
    assert phase.value in KnownPhases(readers, interval);
    var from, to := Key(interval, None), Key(interval, Some(phase.value));
    var longest := MergeLongest(bySchedule[to].longest, bySchedule[from].longest);
    MembersAre(readers, done, |readers|, from);
    MembersAre(readers, done, |readers|, to);
    NoSharedMember(bySchedule[to].readers, bySchedule[from].readers);
    var merged := FixedSchedule(longest, Sorted(bySchedule[to].readers + bySchedule[from].readers));
    RehomeStep(bySchedule, readers, done, interval, phase.value, merged);
    after := (bySchedule - {from})[to := merged];
  }

  lemma NoSharedMember(a: seq<nat>, b: seq<nat>)
    requires StrictlyAscending(a) && StrictlyAscending(b) && forall i :: !(i in a && i in b)
    ensures NoDuplicates(a + b)
  {
    var c := a + b;
    forall i, j | 0 <= i < j < |c| ensures c[i] != c[j] {
      if i < |a| <= j { assert c[i] in a && c[j] in b; }
    }
  }

  /** Readers of unknown phase run with the first known phase on their interval. */
  method RehomeUnknownPhases(initial: map<Key, FixedSchedule>,
                             readers: seq<Reader>) returns (bySchedule: map<Key, FixedSchedule>)
    requires AllValid(readers) && Represents(initial, readers, {}, |readers|)
    ensures Represents(bySchedule, readers, Intervals(readers), |readers|)
  {
    hide Represents, HomeIn;
    bySchedule := initial;
    var pending := set k | k in initial && k.phaseMs.None? :: k.intervalMs;
    ghost var unknown := pending;
    ghost var done: set<nat> := {};
    while pending != {}
      invariant done !! pending && done + pending == unknown
      invariant Represents(bySchedule, readers, done, |readers|)
      decreases |pending|
    {
      var interval :| interval in pending;
      UnknownStillThere(initial, bySchedule, readers, done, interval);
      bySchedule := RehomeOne(bySchedule, readers, done, interval);
      done := done + {interval};
      pending := pending - {interval};
    }
    OtherIntervalsAtHome(initial, bySchedule, readers, done);
  }

  lemma OtherIntervalsAtHome(initial: map<Key, FixedSchedule>, bySchedule: map<Key, FixedSchedule>,
                             readers: seq<Reader>,
                             done: set<nat>)
    requires AllValid(readers)
    requires Represents(initial, readers, {}, |readers|) && Represents(bySchedule, readers, done, |readers|)
    requires forall k :: k in initial && k.phaseMs.None? ==> k.intervalMs in done
    ensures Represents(bySchedule, readers, Intervals(readers), |readers|)
  {
    forall i | 0 <= i < |readers| && readers[i].Fixed()
      ensures HomeIn(readers, done, readers[i].OwnKey()) == HomeIn(readers, Intervals(readers), readers[i].OwnKey())
    {
      assert HomeIn(readers, {}, readers[i].OwnKey()) in initial;
    }
    SameHomes(readers, done, Intervals(readers), |readers|);
  }

  lemma UnknownStillThere(initial: map<Key, FixedSchedule>, bySchedule: map<Key, FixedSchedule>, readers: seq<Reader>,
                          done: set<nat>, interval: nat)
    requires AllValid(readers)
    requires Represents(initial, readers, {}, |readers|) && Represents(bySchedule, readers, done, |readers|)
    requires interval !in done && exists k :: k in initial && k.phaseMs.None? && k.intervalMs == interval
    ensures Key(interval, None) in bySchedule
  {
    var i :| 0 <= i < |readers| && readers[i].Fixed() && HomeIn(readers, {}, readers[i].OwnKey()) == Key(interval, None);
    assert HomeIn(readers, done, readers[i].OwnKey()) == Key(interval, None);
  }

  // --------------------------------------------------- groups and rates

  lemma BeforeIsTotalOrder(a: Key, b: Key, c: Key)
    ensures a == b || Before(a, b) || Before(b, a)
    ensures Before(a, b) && Before(b, c) ==> Before(a, c)
    ensures !Before(a, a)
  {
  }

  method LeastKey(keys: set<Key>) returns (least: Key)
    requires keys != {}
    ensures least in keys && forall k :: k in keys && k != least ==> Before(least, k)
  {
    least :| least in keys;
    var left := keys - {least};
    while left != {}
      invariant left <= keys && least in keys && least !in left
      invariant forall k :: k in keys - left && k != least ==> Before(least, k)
      decreases |left|
    {
      var k :| k in left;
      BeforeIsTotalOrder(k, least, k);
      left := left - {k};
      if Before(k, least) {
        forall l | l in keys - left && l != k ensures Before(k, l) { BeforeIsTotalOrder(k, least, l); }
        least := k;
      }
    }
  }

  ghost predicate CountsFit(readers: seq<Reader>)
    requires AllValid(readers)
  {
    forall k :: k in GroupKeys(readers) ==> |GroupOffsets(readers, k)| < U64_LIMIT
  }

  /** `keys` lists `all` but `left`, in map order, all before what is left. */
  ghost predicate Listed(all: set<Key>, keys: seq<Key>, left: set<Key>) {
    && left <= all
    && (set k | k in keys) == all - left
    && Ascending(keys)
    && (forall k, l :: k in keys && l in left ==> Before(k, l))
  }

  lemma ListedGrows(all: set<Key>, keys: seq<Key>, left: set<Key>, key: Key)
    requires Listed(all, keys, left)
    requires key in left && (forall l :: l in left && l != key ==> Before(key, l))
    ensures Listed(all, keys + [key], left - {key})
  {
    assert forall k :: k in keys + [key] <==> k in keys || k == key;
    assert (set k | k in keys + [key]) == (set k | k in keys) + {key} == all - (left - {key});
    forall a | 0 <= a < |keys| ensures Before(keys[a], key) { assert keys[a] in keys; }
  }

  method CountGroup(longest: map<u64, u64>) returns (count: Counted)
    requires 0 !in longest
    ensures count == AsU64(|Instants(longest)|)
  {
    count := DistinctInstantsPerRequest(longest);
  }

  ghost function EntryGroup(key: Key, entry: FixedSchedule): ScheduleGroup {
    ScheduleGroup(entry.readers, PerSecond(key.intervalMs, |Instants(entry.longest)|), FixedIntervalGroup)
  }

  ghost function EntryGroups(bySchedule: map<Key, FixedSchedule>, keys: seq<Key>): seq<ScheduleGroup>
    requires forall k :: k in keys ==> k in bySchedule
  {
    if keys == [] then []
    else
      var last := keys[|keys| - 1];
      EntryGroups(bySchedule, keys[..|keys| - 1]) + [EntryGroup(last, bySchedule[last])]
  }

  lemma EntryGroupsGrow(bySchedule: map<Key, FixedSchedule>, keys: seq<Key>, key: Key)
    requires forall k :: k in keys + [key] ==> k in bySchedule
    ensures forall k :: k in keys ==> k in keys + [key]
    ensures EntryGroups(bySchedule, keys + [key]) == EntryGroups(bySchedule, keys) + [EntryGroup(key, bySchedule[key])]
  {
    assert (keys + [key])[..|keys|] == keys;
  }

  /** The map's entries in map order, each counted. */
  method GroupsInOrder(bySchedule: map<Key, FixedSchedule>)
    returns (r: Result<seq<ScheduleGroup>, DemandError>, ghost keys: seq<Key>)
    requires forall k :: k in bySchedule ==> k.intervalMs > 0 && 0 !in bySchedule[k].longest
    ensures forall k :: k in keys ==> k in bySchedule
    ensures r.Success? <==> forall k :: k in bySchedule ==> |Instants(bySchedule[k].longest)| < U64_LIMIT
    ensures r.Failure? ==> r.error == CountOverflow
    ensures r.Success? ==> Listed(bySchedule.Keys, keys, {}) && r.value == EntryGroups(bySchedule, keys)
  {
    var groups: seq<ScheduleGroup> := [];
    keys := [];
    var left := bySchedule.Keys;
    while left != {}
      invariant Listed(bySchedule.Keys, keys, left)
      invariant forall k :: k in keys ==> k in bySchedule
      invariant groups == EntryGroups(bySchedule, keys)
      invariant forall k :: k in bySchedule.Keys - left ==> |Instants(bySchedule[k].longest)| < U64_LIMIT
      decreases |left|
    {
      var key := LeastKey(left);
      var entry := bySchedule[key];
      var count := CountGroup(entry.longest);
      if count.Overflow? {
        return Failure(CountOverflow), keys;
      }
      var rate := PerSecond(key.intervalMs, count.count);
      groups := groups + [ScheduleGroup(entry.readers, rate, FixedIntervalGroup)];
      assert forall k :: k in keys + [key] ==> k in bySchedule;
      EntryGroupsGrow(bySchedule, keys, key);
      ListedGrows(bySchedule.Keys, keys, left, key);
      keys := keys + [key];
      left := left - {key};
    }
    r := Success(groups);
  }

  method FixedGroupsInOrder(bySchedule: map<Key, FixedSchedule>, readers: seq<Reader>)
    returns (r: Result<seq<ScheduleGroup>, DemandError>, ghost keys: seq<Key>)
    requires AllValid(readers) && Represents(bySchedule, readers, Intervals(readers), |readers|)
    ensures r.Success? <==> CountsFit(readers)
    ensures r.Failure? ==> r.error == CountOverflow
    ensures r.Success? ==> Ascending(keys) && (set k | k in keys) == GroupKeys(readers) && r.value == FixedGroups(readers, keys)
  {
    EntriesAreGroups(bySchedule, readers);
    r, keys := GroupsInOrder(bySchedule);
    if r.Success? {
      assert (set k | k in keys) == bySchedule.Keys - {} == GroupKeys(readers);
      SameGroups(bySchedule, readers, keys);
    }
  }

  lemma EntriesAreGroups(bySchedule: map<Key, FixedSchedule>, readers: seq<Reader>)
    requires AllValid(readers) && Represents(bySchedule, readers, Intervals(readers), |readers|)
    ensures bySchedule.Keys == GroupKeys(readers)
    ensures forall k :: k in bySchedule ==>
      && k.intervalMs > 0 && 0 !in bySchedule[k].longest
      && bySchedule[k].readers == GroupMembers(readers, k)
      && Instants(bySchedule[k].longest) == GroupOffsets(readers, k)
  {
    forall k | k in bySchedule ensures k.intervalMs > 0 { KeyHasInterval(readers, k); }
  }

  lemma {:induction false} SameGroups(bySchedule: map<Key, FixedSchedule>, readers: seq<Reader>, keys: seq<Key>)
    requires AllValid(readers) && Represents(bySchedule, readers, Intervals(readers), |readers|)
    requires forall k :: k in keys ==> k in bySchedule
    ensures EntryGroups(bySchedule, keys) == FixedGroups(readers, keys)
  {
    if keys != [] {
      SameGroups(bySchedule, readers, keys[..|keys| - 1]);
      EntriesAreGroups(bySchedule, readers);
    }
  }

  lemma KeyHasInterval(readers: seq<Reader>, key: Key)
    requires AllValid(readers) && key in GroupKeys(readers)
    ensures key.intervalMs > 0
  {
  }

  /** The groups of `readers`, evaluated together. */
  method ScheduleGroups(readers: seq<Reader>, horizonSeconds: real)
    returns (r: Result<seq<ScheduleGroup>, DemandError>, ghost keys: seq<Key>)
    requires PositiveSteps(readers) && horizonSeconds > 0.0
    ensures r.Failure? && r.error == InvalidRecurrence <==> !AllValid(readers)
    ensures r.Success? <==> AllValid(readers) && CountsFit(readers)
    ensures r.Success? ==> IsSchedule(readers, horizonSeconds, keys, r.value)
  {
    keys := [];
    var read := ReadSchedules(readers);
    if read.Failure? {
      return Failure(read.error), keys;
    }
    var (ownKeys, estimated, invocations, nonRepeating) := read.value;
    var bySchedule := RehomeUnknownPhases(ownKeys, readers);
    var fixed;
    fixed, keys := FixedGroupsInOrder(bySchedule, readers);
    if fixed.Failure? {
      return Failure(fixed.error), keys;
    }
    var groups := fixed.value + estimated;
    if nonRepeating != [] {
      groups := groups + [ScheduleGroup(nonRepeating, invocations as real / horizonSeconds, NonRepeatingGroup)];
    } else {
      assert groups + [] == groups;
    }
    r := Success(groups);
  }
}
