/**
 The rate a node is computed at for its readers, and the laws it obeys
 whatever the readers (crates/cost/src/execution_demand.rs).
 */
module EvaluationRates {
  import opened FiniteSums
  import opened OffsetCounting
  import opened Results
  import opened Schedules

  ghost function KeyRates(readers: seq<Reader>): Key -> real
    requires AllValid(readers)
  {
    (k: Key) => PerSecond(k.intervalMs, |GroupOffsets(readers, k)|)
  }

  function EstimatedTotal(readers: seq<Reader>): real {
    if readers == [] then 0.0 else EstimatedTotal(readers[..|readers| - 1]) + readers[|readers| - 1].Estimate()
  }

  /** Fixed schedules add, estimates add, and the batch runs its largest member. */
  ghost function DemandRate(readers: seq<Reader>, horizonSeconds: real): real
    requires AllValid(readers) && horizonSeconds > 0.0
  {
    SumOver(GroupKeys(readers), KeyRates(readers)) + EstimatedTotal(readers)
      + MostInvocations(readers) as real / horizonSeconds
  }

  // ------------------------------------------- the rate of the schedule

  function RateOfKind(groups: seq<ScheduleGroup>, kind: ScheduleKind): real {
    if groups == [] then 0.0
    else
      var last := groups[|groups| - 1];
      RateOfKind(groups[..|groups| - 1], kind) + (if last.schedule == kind then last.evaluationsPerSecond else 0.0)
  }

  method SumKind(groups: seq<ScheduleGroup>, kind: ScheduleKind) returns (total: real)
    ensures total == RateOfKind(groups, kind)
  {
    total := 0.0;
    for i := 0 to |groups|
      invariant total == RateOfKind(groups[..i], kind)
    {
      assert groups[..i + 1][..i] == groups[..i];
      if groups[i].schedule == kind { total := total + groups[i].evaluationsPerSecond; }
    }
    assert groups[..|groups|] == groups;
  }

  lemma {:induction false} RateOfConcat(a: seq<ScheduleGroup>, b: seq<ScheduleGroup>, kind: ScheduleKind)
    ensures RateOfKind(a + b, kind) == RateOfKind(a, kind) + RateOfKind(b, kind)
    decreases |b|
  {
    if b == [] {
      assert a + b == a;
    } else {
      RateOfConcat(a, b[..|b| - 1], kind);
      assert (a + b)[..|a + b| - 1] == a + b[..|b| - 1];
    }
  }

  lemma {:induction false} RateOfFixed(readers: seq<Reader>, keys: seq<Key>, kind: ScheduleKind)
    requires AllValid(readers) && Ascending(keys)
    ensures RateOfKind(FixedGroups(readers, keys), kind)
         == if kind == FixedIntervalGroup then SumOver((set k | k in keys), KeyRates(readers)) else 0.0
  {
    if keys != [] {
      var prefix, last := keys[..|keys| - 1], keys[|keys| - 1];
      RateOfFixed(readers, prefix, kind);
      forall i | 0 <= i < |prefix| ensures prefix[i] != last { assert Before(keys[i], keys[|keys| - 1]); }
      assert forall k :: k in keys <==> k in prefix || k == last;
      var all := set k | k in keys;
      assert all - {last} == set k | k in prefix;
      SumSplit(all, last, KeyRates(readers));
      RateOfAppended(FixedGroups(readers, prefix), FixedGroup(readers, last), kind);
    } else {
      assert (set k | k in keys) == {};
    }
  }

  lemma RateOfAppended(groups: seq<ScheduleGroup>, last: ScheduleGroup, kind: ScheduleKind)
    ensures RateOfKind(groups + [last], kind)
         == RateOfKind(groups, kind) + (if last.schedule == kind then last.evaluationsPerSecond else 0.0)
  {
    assert (groups + [last])[..|groups|] == groups;
  }

  lemma {:induction false} RateOfEstimated(readers: seq<Reader>, kind: ScheduleKind)
    ensures RateOfKind(EstimatedGroups(readers), kind) == if kind == EstimatedRateGroup then EstimatedTotal(readers) else 0.0
  {
    if readers != [] {
      var prefix, last := readers[..|readers| - 1], |readers| - 1;
      RateOfEstimated(prefix, kind);
      if readers[last].recurrence.EstimatedRate? {
        var group := ScheduleGroup([last], readers[last].Estimate(), EstimatedRateGroup);
        assert (EstimatedGroups(prefix) + [group])[..|EstimatedGroups(prefix)|] == EstimatedGroups(prefix);
      } else {
        assert EstimatedGroups(readers) == EstimatedGroups(prefix);
      }
    }
  }

  lemma {:induction false} NoBatchNoInvocations(readers: seq<Reader>)
    requires NonRepeating(readers) == []
    ensures MostInvocations(readers) == 0
  {
    if readers != [] {
      NoBatchNoInvocations(readers[..|readers| - 1]);
    }
  }

  lemma ScheduleRate(readers: seq<Reader>, horizonSeconds: real, keys: seq<Key>, groups: seq<ScheduleGroup>)
    requires AllValid(readers) && horizonSeconds > 0.0 && IsSchedule(readers, horizonSeconds, keys, groups)
    ensures RateOfKind(groups, FixedIntervalGroup) + RateOfKind(groups, EstimatedRateGroup) + RateOfKind(groups, NonRepeatingGroup)
         == DemandRate(readers, horizonSeconds)
  {
    PartRates(readers, horizonSeconds, keys, FixedIntervalGroup);
    PartRates(readers, horizonSeconds, keys, EstimatedRateGroup);
    PartRates(readers, horizonSeconds, keys, NonRepeatingGroup);
  }

  lemma PartRates(readers: seq<Reader>, horizonSeconds: real, keys: seq<Key>, kind: ScheduleKind)
    requires AllValid(readers) && horizonSeconds > 0.0 && Ascending(keys)
    ensures RateOfKind(FixedGroups(readers, keys) + EstimatedGroups(readers) + BatchGroups(readers, horizonSeconds), kind)
         == match kind
            case FixedIntervalGroup => SumOver((set k | k in keys), KeyRates(readers))
            case EstimatedRateGroup => EstimatedTotal(readers)
            case NonRepeatingGroup => MostInvocations(readers) as real / horizonSeconds
  {
    var fixed, estimated, batch := FixedGroups(readers, keys), EstimatedGroups(readers), BatchGroups(readers, horizonSeconds);
    RateOfConcat(fixed + estimated, batch, kind);
    RateOfConcat(fixed, estimated, kind);
    RateOfFixed(readers, keys, kind);
    RateOfEstimated(readers, kind);
    if batch == [] {
      NoBatchNoInvocations(readers);
    } else {
      assert batch[..0] == [];
    }
  }

  /** The sum of the groups' rates, each kind on its own first. */
  method EvaluationRate(readers: seq<Reader>, horizonSeconds: real) returns (r: Result<real, DemandError>)
    requires PositiveSteps(readers) && horizonSeconds > 0.0
    ensures r.Failure? && r.error == InvalidRecurrence <==> !AllValid(readers)
    ensures r.Success? <==> AllValid(readers) && CountsFit(readers)
    ensures r.Success? ==> r.value == DemandRate(readers, horizonSeconds)
  {
    var scheduled;
    ghost var keys;
    scheduled, keys := ScheduleGroups(readers, horizonSeconds);
    if scheduled.Failure? {
      return Failure(scheduled.error);
    }
    var groups := scheduled.value;
    var repeated := SumKind(groups, FixedIntervalGroup);
    var estimated := SumKind(groups, EstimatedRateGroup);
    // The batch is at most one group.
    var batch := SumKind(groups, NonRepeatingGroup);
    ScheduleRate(readers, horizonSeconds, keys, groups);
    r := Success(repeated + estimated + batch);
  }

  // -------------------------------------------------- grouped offsets

  /** One fixed reader: the key it is grouped under and its own offsets. */
  datatype Item = Item(key: Key, offsets: set<nat>)

  ghost function ItemKeys(items: seq<Item>): set<Key> {
    set i | 0 <= i < |items| :: items[i].key
  }

  ghost function ItemOffsets(items: seq<Item>, key: Key): set<nat> {
    set i, o | 0 <= i < |items| && items[i].key == key && o in items[i].offsets :: o
  }

  ghost function ItemRates(items: seq<Item>): Key -> real {
    (k: Key) => PerSecond(k.intervalMs, |ItemOffsets(items, k)|)
  }

  /** Every key's offsets counted once, at its interval's rate. */
  ghost function GroupedRate(items: seq<Item>): real {
    SumOver(ItemKeys(items), ItemRates(items))
  }

  ghost function AloneRate(items: seq<Item>): real {
    if items == [] then 0.0
    else AloneRate(items[..|items| - 1]) + PerSecond(items[|items| - 1].key.intervalMs, |items[|items| - 1].offsets|)
  }

  lemma PerSecondMonotone(intervalMs: nat, a: nat, b: nat)
    requires a <= b
    ensures PerSecond(intervalMs, a) <= PerSecond(intervalMs, b)
    ensures 0.0 <= PerSecond(intervalMs, a)
  {
    if intervalMs > 0 {
      var c := 1000.0 / intervalMs as real;
      assert c >= 0.0;
      assert c * a as real <= c * b as real;
    }
  }

  lemma PerSecondAdds(intervalMs: nat, a: nat, b: nat)
    ensures PerSecond(intervalMs, a + b) == PerSecond(intervalMs, a) + PerSecond(intervalMs, b)
  {
  }

  /** One key taken out of the sum, present or not. */
  lemma TakeOut(items: seq<Item>, key: Key)
    ensures GroupedRate(items)
         == SumOver(ItemKeys(items) - {key}, ItemRates(items)) + PerSecond(key.intervalMs, |ItemOffsets(items, key)|)
  {
    if key in ItemKeys(items) {
      SumSplit(ItemKeys(items), key, ItemRates(items));
    } else {
      assert ItemKeys(items) - {key} == ItemKeys(items);
      assert ItemOffsets(items, key) == {};
    }
  }

  lemma ItemOffsetsGrow(items: seq<Item>, item: Item, key: Key)
    ensures ItemOffsets(items + [item], key) == ItemOffsets(items, key) + if item.key == key then item.offsets else {}
    ensures ItemKeys(items + [item]) == ItemKeys(items) + {item.key}
  {
    var after := items + [item];
    forall k | k in ItemKeys(items) + {item.key} ensures k in ItemKeys(after) {
      if k == item.key { assert after[|items|].key == k; }
      else { var i :| 0 <= i < |items| && items[i].key == k; assert after[i].key == k; }
    }
    forall o: nat
      ensures o in ItemOffsets(after, key) <==> o in ItemOffsets(items, key) || (item.key == key && o in item.offsets)
    {
      if o in ItemOffsets(items, key) {
        var i :| 0 <= i < |items| && items[i].key == key && o in items[i].offsets;
        assert after[i].key == key && o in after[i].offsets;
      }
      if item.key == key && o in item.offsets { assert after[|items|].key == key; }
    }
  }

  /** An item adds between nothing and its own rate. */
  lemma AppendItem(items: seq<Item>, item: Item)
    ensures GroupedRate(items) <= GroupedRate(items + [item])
    ensures GroupedRate(items + [item]) <= GroupedRate(items) + PerSecond(item.key.intervalMs, |item.offsets|)
  {
    hide ItemOffsets, GroupedRate, ItemKeys, PerSecond;
    var after, key := items + [item], item.key;
    TakeOut(items, key);
    TakeOut(after, key);
    ItemOffsetsGrow(items, item, key);
    assert ItemKeys(after) - {key} == ItemKeys(items) - {key};
    forall k | k in ItemKeys(items) - {key} ensures ItemRates(items)(k) == ItemRates(after)(k) {
      ItemOffsetsGrow(items, item, k);
    }
    SumCongruence(ItemKeys(items) - {key}, ItemRates(items), ItemRates(after));
    var own := ItemOffsets(items, key);
    UnionSize(own, item.offsets);
    SubsetSize(own, own + item.offsets);
    PerSecondMonotone(key.intervalMs, |own|, |own + item.offsets|);
    PerSecondMonotone(key.intervalMs, |own + item.offsets|, |own| + |item.offsets|);
    PerSecondAdds(key.intervalMs, |own|, |item.offsets|);
  }

  lemma {:induction false} GroupingSaves(items: seq<Item>)
    ensures GroupedRate(items) <= AloneRate(items)
  {
    if items == [] {
      assert ItemKeys(items) == {};
    } else {
      var prefix := items[..|items| - 1];
      GroupingSaves(prefix);
      AppendItem(prefix, items[|items| - 1]);
      assert prefix + [items[|items| - 1]] == items;
    }
  }

  /** `after` is `before` with some of the items under `from` moved to a key nobody used. */
  ghost predicate Rekeyed(before: seq<Item>, after: seq<Item>, from: Key, to: Key) {
    && |after| == |before| && to !in ItemKeys(before) && from.intervalMs == to.intervalMs
    && forall i :: 0 <= i < |before| ==>
        && after[i].offsets == before[i].offsets
        && (after[i].key == before[i].key || (before[i].key == from && after[i].key == to))
  }

  lemma OtherKeysKept(before: seq<Item>, after: seq<Item>, from: Key, to: Key)
    requires Rekeyed(before, after, from, to)
    ensures ItemKeys(before) - {from} - {to} == ItemKeys(after) - {from} - {to}
    ensures forall k :: k != from && k != to ==> ItemRates(before)(k) == ItemRates(after)(k)
  {
    forall k | k != from && k != to
      ensures k in ItemKeys(before) <==> k in ItemKeys(after)
      ensures ItemOffsets(before, k) == ItemOffsets(after, k)
    {
      if k in ItemKeys(before) { var i :| 0 <= i < |before| && before[i].key == k; assert after[i].key == k; }
      if k in ItemKeys(after) { var i :| 0 <= i < |after| && after[i].key == k; assert before[i].key == k; }
    }
  }

  /** Splitting a group never lowers the total. */
  lemma RekeyingAdds(before: seq<Item>, after: seq<Item>, from: Key, to: Key)
    requires Rekeyed(before, after, from, to) && from != to
    ensures GroupedRate(before) <= GroupedRate(after)
  {
    TakeOutTwo(before, from, to);
    TakeOutTwo(after, from, to);
    OtherKeysKept(before, after, from, to);
    SumCongruence(ItemKeys(before) - {from} - {to}, ItemRates(before), ItemRates(after));
    assert ItemOffsets(before, to) == {};
    SplitGroup(before, after, from, to);
    PerSecondAdds(from.intervalMs, 0, 0);
  }

  lemma SplitGroup(before: seq<Item>, after: seq<Item>, from: Key, to: Key)
    requires Rekeyed(before, after, from, to) && from != to
    ensures PerSecond(from.intervalMs, |ItemOffsets(before, from)|)
         <= PerSecond(from.intervalMs, |ItemOffsets(after, from)|) + PerSecond(to.intervalMs, |ItemOffsets(after, to)|)
  {
    var whole, left, moved := ItemOffsets(before, from), ItemOffsets(after, from), ItemOffsets(after, to);
    forall o | o in whole ensures o in left + moved {
      var i :| 0 <= i < |before| && before[i].key == from && o in before[i].offsets;
      assert o in after[i].offsets && (after[i].key == from || after[i].key == to);
    }
    SubsetSize(whole, left + moved);
    UnionSize(left, moved);
    var interval := from.intervalMs;
    PerSecondMonotone(interval, |whole|, |left| + |moved|);
    PerSecondAdds(interval, |left|, |moved|);
  }

  lemma TakeOutTwo(items: seq<Item>, a: Key, b: Key)
    requires a != b
    ensures GroupedRate(items)
         == SumOver(ItemKeys(items) - {a} - {b}, ItemRates(items))
            + PerSecond(a.intervalMs, |ItemOffsets(items, a)|) + PerSecond(b.intervalMs, |ItemOffsets(items, b)|)
  {
    TakeOut(items, a);
    hide ItemOffsets, GroupedRate, PerSecond;
    if b in ItemKeys(items) {
      SumSplit(ItemKeys(items) - {a}, b, ItemRates(items));
    } else {
      assert ItemKeys(items) - {a} - {b} == ItemKeys(items) - {a};
      NoItemNoOffsets(items, b);
    }
  }

  lemma NoItemNoOffsets(items: seq<Item>, key: Key)
    requires key !in ItemKeys(items)
    ensures ItemOffsets(items, key) == {}
    ensures PerSecond(key.intervalMs, |ItemOffsets(items, key)|) == 0.0
  {
  }

  // ------------------------------------------------------- the laws

  /** A fixed reader under its key among `all`. */
  ghost function ItemOf(all: seq<Reader>, x: Reader): Item
    requires AllValid(all) && x.Fixed() && x.Valid()
  {
    Item(Home(all, x.OwnKey()), OffsetsOf(x.Geometry()))
  }

  /** The fixed ones of the first `n` readers, under their keys among `all`. */
  ghost function Items(all: seq<Reader>, n: nat): seq<Item>
    requires AllValid(all) && n <= |all|
  {
    if n == 0 then [] else Items(all, n - 1) + (if all[n - 1].Fixed() then [ItemOf(all, all[n - 1])] else [])
  }

  lemma {:induction false} ItemsAreKeys(all: seq<Reader>, n: nat)
    requires AllValid(all) && n <= |all|
    ensures ItemKeys(Items(all, n)) == KeysOf(all, Intervals(all), n)
  {
    if n > 0 {
      var x := all[n - 1];
      ItemsAreKeys(all, n - 1);
      if x.Fixed() {
        ItemOffsetsGrow(Items(all, n - 1), ItemOf(all, x), Home(all, x.OwnKey()));
        assert KeysOf(all, Intervals(all), n) == KeysOf(all, Intervals(all), n - 1) + {Home(all, x.OwnKey())};
      } else {
        assert Items(all, n) == Items(all, n - 1);
        assert KeysOf(all, Intervals(all), n) == KeysOf(all, Intervals(all), n - 1);
      }
    }
  }

  lemma {:induction false} ItemsAreGroups(all: seq<Reader>, n: nat, k: Key)
    requires AllValid(all) && n <= |all|
    ensures ItemOffsets(Items(all, n), k) == OffsetsUnder(all, Intervals(all), n, k)
  {
    if n > 0 {
      ItemsAreGroups(all, n - 1, k);
      OffsetsGrow(all, Intervals(all), n - 1, k);
      if all[n - 1].Fixed() {
        ItemOffsetsGrow(Items(all, n - 1), ItemOf(all, all[n - 1]), k);
      } else {
        assert Items(all, n) == Items(all, n - 1);
      }
    }
  }

  lemma FixedRateIsGroupedRate(readers: seq<Reader>)
    requires AllValid(readers)
    ensures SumOver(GroupKeys(readers), KeyRates(readers)) == GroupedRate(Items(readers, |readers|))
  {
    ItemsAreKeys(readers, |readers|);
    forall k ensures KeyRates(readers)(k) == ItemRates(Items(readers, |readers|))(k) {
      ItemsAreGroups(readers, |readers|, k);
    }
    SumCongruence(GroupKeys(readers), KeyRates(readers), ItemRates(Items(readers, |readers|)));
  }

  /** `a` and `b` list the same offsets, under keys that differ by `from` becoming `to` at most. */
  ghost predicate Moved(a: seq<Item>, b: seq<Item>, from: Key, to: Key) {
    && |a| == |b|
    && forall i :: 0 <= i < |a| ==>
        && b[i].offsets == a[i].offsets
        && (b[i].key == a[i].key || (a[i].key == from && b[i].key == to))
  }

  lemma {:induction false} ItemsMove(a: seq<Reader>, b: seq<Reader>, n: nat, from: Key, to: Key)
    requires AllValid(a) && AllValid(b) && n <= |a| && n <= |b| && a[..n] == b[..n]
    requires forall i :: 0 <= i < n && a[i].Fixed() ==>
      Home(b, a[i].OwnKey()) == Home(a, a[i].OwnKey()) || (Home(a, a[i].OwnKey()) == from && Home(b, a[i].OwnKey()) == to)
    ensures Moved(Items(a, n), Items(b, n), from, to)
  {
    if n > 0 {
      assert a[..n][..n - 1] == a[..n - 1] && b[..n][..n - 1] == b[..n - 1];
      assert a[n - 1] == a[..n][n - 1] == b[n - 1];
      ItemsMove(a, b, n - 1, from, to);
    }
  }

  lemma SameItems(a: seq<Item>, b: seq<Item>, key: Key)
    requires Moved(a, b, key, key)
    ensures a == b
  {
    assert forall i :: 0 <= i < |a| ==> a[i] == b[i];
  }

  lemma KnownPhasesGrow(readers: seq<Reader>, x: Reader, intervalMs: nat)
    requires AllValid(readers) && x.Valid()
    ensures AllValid(readers + [x])
    ensures KnownPhases(readers + [x], intervalMs) == KnownPhases(readers, intervalMs)
      + if x.Fixed() && x.OwnKey().intervalMs == intervalMs && x.OwnKey().phaseMs.Some? then {x.OwnKey().phaseMs.value} else {}
  {
    var all := readers + [x];
    assert forall i :: 0 <= i < |readers| ==> all[i] == readers[i];
    assert all[|readers|] == x;
    forall p | p in KnownPhases(readers, intervalMs) ensures p in KnownPhases(all, intervalMs) {
      var i :| 0 <= i < |readers| && readers[i].Fixed() && readers[i].OwnKey() == Key(intervalMs, Some(p));
      assert all[i].OwnKey() == Key(intervalMs, Some(p));
    }
  }

  lemma LeastIs(s: set<nat>, p: nat)
    requires p in s && forall x :: x in s ==> p <= x
    ensures Least(s) == p
  {
  }

  /** The readers before a new one keep their keys, unless it brings their interval's first phase. */
  lemma HomesAfter(readers: seq<Reader>, x: Reader, key: Key)
    requires AllValid(readers) && x.Valid()
    ensures AllValid(readers + [x])
    ensures Home(readers + [x], key) == Home(readers, key)
      || (x.Fixed() && x.OwnKey().phaseMs.Some? && key == Key(x.OwnKey().intervalMs, None)
          && Home(readers + [x], key) == x.OwnKey()
          && forall p :: p in KnownPhases(readers, key.intervalMs) ==> x.OwnKey().phaseMs.value < p)
  {
    KnownPhasesGrow(readers, x, key.intervalMs);
    hide KnownPhases;
    var known := KnownPhases(readers, key.intervalMs);
    if key.phaseMs.None? && x.Fixed() && x.OwnKey().phaseMs.Some? && x.OwnKey().intervalMs == key.intervalMs {
      var p := x.OwnKey().phaseMs.value;
      if known != {} && Least(known) <= p {
        LeastIs(known + {p}, Least(known));
      } else {
        LeastIs(known + {p}, p);
      }
    }
  }

  /**
   The fixed part never falls, even when the new reader's phase is the first on
   its interval and takes over the readers of unknown phase.
   */
  lemma FixedRateGrows(readers: seq<Reader>, x: Reader)
    requires AllValid(readers) && x.Valid()
    ensures AllValid(readers + [x])
    ensures GroupedRate(Items(readers, |readers|)) <= GroupedRate(Items(readers + [x], |readers| + 1))
  {
    var all, n := readers + [x], |readers|;
    hide GroupedRate, Moved, Rekeyed, Home, ItemOf, ItemKeys;
    KnownPhasesGrow(readers, x, 0);
    assert all[..n] == readers[..n] && all[n] == x;
    var unknown := if x.Fixed() then Key(x.OwnKey().intervalMs, None) else Key(0, None);
    OthersMove(readers, x, unknown);
    HomesAfter(readers, x, unknown);
    if Home(all, unknown) == Home(readers, unknown) {
      SameItems(Items(readers, n), Items(all, n), Home(readers, unknown));
    } else {
      NewKeyUnused(readers, x, n);
      HomeKeepsInterval(readers, unknown);
      MovedIsRekeyed(Items(readers, n), Items(all, n), Home(readers, unknown), x.OwnKey());
      RekeyingAdds(Items(readers, n), Items(all, n), Home(readers, unknown), x.OwnKey());
    }
    if x.Fixed() {
      AppendItem(Items(all, n), ItemOf(all, x));
    } else {
      assert Items(all, n + 1) == Items(all, n);
    }
  }

  lemma HomeKeepsInterval(readers: seq<Reader>, key: Key)
    requires AllValid(readers)
    ensures Home(readers, key).intervalMs == key.intervalMs
  {
  }

  lemma MovedIsRekeyed(before: seq<Item>, after: seq<Item>, from: Key, to: Key)
    requires Moved(before, after, from, to) && to !in ItemKeys(before) && from.intervalMs == to.intervalMs
    ensures Rekeyed(before, after, from, to)
  {
  }

  lemma OthersMove(readers: seq<Reader>, x: Reader, unknown: Key)
    requires AllValid(readers) && x.Valid()
    requires unknown == if x.Fixed() then Key(x.OwnKey().intervalMs, None) else Key(0, None)
    ensures AllValid(readers + [x])
    ensures Moved(Items(readers, |readers|), Items(readers + [x], |readers|), Home(readers, unknown), Home(readers + [x], unknown))
  {
    var all, n := readers + [x], |readers|;
    KnownPhasesGrow(readers, x, 0);
    assert all[..n] == readers[..n];
    forall i | 0 <= i < n && readers[i].Fixed()
      ensures var key := readers[i].OwnKey();
        Home(all, key) == Home(readers, key)
        || (Home(readers, key) == Home(readers, unknown) && Home(all, key) == Home(all, unknown))
    {
      HomesAfter(readers, x, readers[i].OwnKey());
    }
    ItemsMove(readers, all, n, Home(readers, unknown), Home(all, unknown));
  }

  lemma {:induction false} NewKeyUnused(readers: seq<Reader>, x: Reader, n: nat)
    requires AllValid(readers) && n <= |readers| && x.Fixed() && x.Valid() && x.OwnKey().phaseMs.Some?
    requires forall p :: p in KnownPhases(readers, x.OwnKey().intervalMs) ==> x.OwnKey().phaseMs.value < p
    ensures x.OwnKey() !in ItemKeys(Items(readers, n))
  {
    if n > 0 {
      NewKeyUnused(readers, x, n - 1);
      var r := readers[n - 1];
      if r.Fixed() {
        var item := ItemOf(readers, r);
        ItemOffsetsGrow(Items(readers, n - 1), item, item.key);
        if r.OwnKey().intervalMs == x.OwnKey().intervalMs && r.OwnKey().phaseMs.Some? {
          assert r.OwnKey().phaseMs.value in KnownPhases(readers, x.OwnKey().intervalMs);
        }
        assert item.key != x.OwnKey();
      }
    }
  }

  /** Adding a valid reader never lowers the rate. */
  lemma RateNeverFalls(readers: seq<Reader>, x: Reader, horizonSeconds: real)
    requires AllValid(readers) && x.Valid() && horizonSeconds > 0.0
    ensures AllValid(readers + [x])
    ensures DemandRate(readers, horizonSeconds) <= DemandRate(readers + [x], horizonSeconds)
  {
    var all := readers + [x];
    assert all[..|readers|] == readers && all[|readers|] == x;
    FixedRateGrows(readers, x);
    FixedRateIsGroupedRate(readers);
    FixedRateIsGroupedRate(all);
    assert x.Estimate() >= 0.0 by { EstimateNonNegative(x); }
    DivideMonotone(MostInvocations(readers), MostInvocations(all), horizonSeconds);
  }

  lemma EstimateNonNegative(x: Reader)
    requires x.Valid()
    ensures x.Estimate() >= 0.0
  {
    if x.recurrence.EstimatedRate? {
      var rate, steps := x.recurrence.expectedRate, x.Steps() as real;
      assert rate * steps >= 0.0;
    }
  }

  lemma DivideMonotone(a: nat, b: nat, h: real)
    requires a <= b && h > 0.0
    ensures a as real / h <= b as real / h
  {
  }

  // Never more than the readers one by one.

  ghost function SumOfAlone(readers: seq<Reader>, horizonSeconds: real): real
    requires AllValid(readers) && horizonSeconds > 0.0
  {
    if readers == [] then 0.0
    else SumOfAlone(readers[..|readers| - 1], horizonSeconds) + DemandRate([readers[|readers| - 1]], horizonSeconds)
  }

  ghost function OwnFixedRate(x: Reader): real
    requires x.Valid()
  {
    if x.Fixed() then PerSecond(x.OwnKey().intervalMs, |OffsetsOf(x.Geometry())|) else 0.0
  }

  lemma OneReader(x: Reader, horizonSeconds: real)
    requires x.Valid() && horizonSeconds > 0.0
    ensures AllValid([x])
    ensures DemandRate([x], horizonSeconds) == OwnFixedRate(x) + x.Estimate() + x.Invocations() as real / horizonSeconds
  {
    FixedRateIsGroupedRate([x]);
    hide GroupKeys, KeyRates, ItemRates, Home;
    assert [x][..0] == [];
    assert EstimatedTotal([x]) == EstimatedTotal([]) + x.Estimate();
    assert MostInvocations([x]) == x.Invocations();
    if x.Fixed() {
      var item := ItemOf([x], x);
      assert Items([x], 1) == Items([x], 0) + [item] == [item];
      TakeOut([item], item.key);
      assert [] + [item] == [item];
      ItemOffsetsGrow([], item, item.key);
      assert ItemOffsets([], item.key) == {} && ItemKeys([]) == {};
      assert ItemKeys([item]) - {item.key} == {};
    } else {
      assert Items([x], 1) == Items([x], 0) == [];
      assert ItemKeys([]) == {};
    }
  }

  lemma {:induction false} AloneIsOwn(all: seq<Reader>, n: nat, horizonSeconds: real)
    requires AllValid(all) && n <= |all| && horizonSeconds > 0.0
    ensures AloneRate(Items(all, n)) + EstimatedTotal(all[..n]) + MostInvocations(all[..n]) as real / horizonSeconds
         <= SumOfAlone(all[..n], horizonSeconds)
  {
    if n > 0 {
      AloneIsOwn(all, n - 1, horizonSeconds);
      var x := all[n - 1];
      assert all[..n][..n - 1] == all[..n - 1];
      OneReader(x, horizonSeconds);
      AloneGrows(all, n);
      BatchGrows(MostInvocations(all[..n - 1]), x.Invocations(), horizonSeconds);
    }
  }

  lemma AloneGrows(all: seq<Reader>, n: nat)
    requires AllValid(all) && 0 < n <= |all|
    ensures AloneRate(Items(all, n)) == AloneRate(Items(all, n - 1)) + OwnFixedRate(all[n - 1])
  {
    var x := all[n - 1];
    if x.Fixed() {
      assert (Items(all, n - 1) + [ItemOf(all, x)])[..|Items(all, n - 1)|] == Items(all, n - 1);
    } else {
      assert Items(all, n) == Items(all, n - 1);
    }
  }

  lemma BatchGrows(a: nat, b: nat, h: real)
    requires h > 0.0
    ensures Max(a, b) as real / h <= a as real / h + b as real / h
  {
    DivideMonotone(Max(a, b), a + b, h);
    DivideAdds(a, b, h);
  }

  lemma DivideAdds(a: nat, b: nat, h: real)
    requires h > 0.0
    ensures (a + b) as real / h == a as real / h + b as real / h
  {
  }

  /** The readers together never cost more than each alone. */
  lemma SharingNeverCosts(readers: seq<Reader>, horizonSeconds: real)
    requires AllValid(readers) && horizonSeconds > 0.0
    ensures DemandRate(readers, horizonSeconds) <= SumOfAlone(readers, horizonSeconds)
  {
    FixedRateIsGroupedRate(readers);
    GroupingSaves(Items(readers, |readers|));
    AloneIsOwn(readers, |readers|, horizonSeconds);
    assert readers[..|readers|] == readers;
  }

  // The order of the readers does not matter.

  ghost predicate SameReaders(a: seq<Reader>, b: seq<Reader>) {
    forall r :: r in a <==> r in b
  }

  lemma SameReadersSameGroups(a: seq<Reader>, b: seq<Reader>)
    requires SameReaders(a, b) && AllValid(a) && AllValid(b)
    ensures GroupKeys(a) == GroupKeys(b)
    ensures forall k :: GroupOffsets(a, k) == GroupOffsets(b, k)
  {
    SameHomesBothWays(a, b);
    GroupsWithin(a, b);
    SameHomesBothWays(b, a);
    GroupsWithin(b, a);
  }

  lemma SameHomesBothWays(a: seq<Reader>, b: seq<Reader>)
    requires SameReaders(a, b) && AllValid(a) && AllValid(b)
    ensures forall k :: Home(a, k) == Home(b, k)
  {
    forall interval ensures KnownPhases(a, interval) == KnownPhases(b, interval) {
      KnownPhasesWithin(a, b, interval);
      KnownPhasesWithin(b, a, interval);
    }
  }

  lemma KnownPhasesWithin(a: seq<Reader>, b: seq<Reader>, intervalMs: nat)
    requires SameReaders(a, b) && AllValid(a) && AllValid(b)
    ensures KnownPhases(a, intervalMs) <= KnownPhases(b, intervalMs)
  {
    forall p | p in KnownPhases(a, intervalMs) ensures p in KnownPhases(b, intervalMs) {
      var i :| 0 <= i < |a| && a[i].Fixed() && a[i].OwnKey() == Key(intervalMs, Some(p));
      assert a[i] in b;
      var j :| 0 <= j < |b| && b[j] == a[i];
      assert b[j].OwnKey() == Key(intervalMs, Some(p));
    }
  }

  lemma GroupsWithin(a: seq<Reader>, b: seq<Reader>)
    requires SameReaders(a, b) && AllValid(a) && AllValid(b)
    requires forall k :: Home(a, k) == Home(b, k)
    ensures GroupKeys(a) <= GroupKeys(b)
    ensures forall k :: GroupOffsets(a, k) <= GroupOffsets(b, k)
  {
    forall k | k in GroupKeys(a) ensures k in GroupKeys(b) {
      var i :| 0 <= i < |a| && a[i].Fixed() && HomeIn(a, Intervals(a), a[i].OwnKey()) == k;
      var j := MemberElsewhere(a, b, i, k);
    }
    forall k, o | o in GroupOffsets(a, k) ensures o in GroupOffsets(b, k) {
      var i :| 0 <= i < |a| && MemberOf(a, Intervals(a), i, k) && o in OffsetsOf(a[i].Geometry());
      var j := MemberElsewhere(a, b, i, k);
    }
  }

  lemma MemberElsewhere(a: seq<Reader>, b: seq<Reader>, i: nat, k: Key) returns (j: nat)
    requires SameReaders(a, b) && AllValid(a) && AllValid(b)
    requires forall k :: Home(a, k) == Home(b, k)
    requires MemberOf(a, Intervals(a), i, k)
    ensures MemberOf(b, Intervals(b), j, k) && b[j] == a[i]
  {
    assert a[i] in b;
    j :| 0 <= j < |b| && b[j] == a[i];
  }

  lemma {:induction false} EstimatedTotalOf(a: seq<Reader>, i: nat)
    requires i < |a|
    ensures EstimatedTotal(a) == EstimatedTotal(a[..i] + a[i + 1..]) + a[i].Estimate()
    ensures multiset(a) == multiset(a[..i] + a[i + 1..]) + multiset{a[i]}
  {
    var last := |a| - 1;
    assert a == a[..i] + [a[i]] + a[i + 1..];
    if i == last {
      assert a[..i] + a[i + 1..] == a[..last];
    } else {
      EstimatedTotalOf(a[..last], i);
      assert a[..last][..i] == a[..i];
      var rest := a[..i] + a[i + 1..];
      assert rest[..|rest| - 1] == a[..last][..i] + a[..last][i + 1..];
      assert rest[|rest| - 1] == a[last];
    }
  }

  lemma SameRest(a: multiset<Reader>, b: multiset<Reader>, x: Reader)
    requires a + multiset{x} == b + multiset{x}
    ensures a == b
  {
    assert a == a + multiset{x} - multiset{x};
    assert b == b + multiset{x} - multiset{x};
  }

  lemma {:induction false} EstimatesPermute(a: seq<Reader>, b: seq<Reader>)
    requires multiset(a) == multiset(b)
    ensures EstimatedTotal(a) == EstimatedTotal(b)
    decreases |a|
  {
    hide EstimatedTotal;
    if a == [] {
      assert |multiset(b)| == 0;
      assert b == [];
    } else {
      var x := a[0];
      assert x in multiset(a) && x in multiset(b);
      var j :| 0 <= j < |b| && b[j] == x;
      EstimatedTotalOf(a, 0);
      EstimatedTotalOf(b, j);
      var a', b' := a[..0] + a[0 + 1..], b[..j] + b[j + 1..];
      SameRest(multiset(a'), multiset(b'), x);
      EstimatesPermute(a', b');
    }
  }

  lemma {:induction false} MostIsMost(readers: seq<Reader>)
    ensures forall r :: r in readers ==> r.Invocations() <= MostInvocations(readers)
    ensures MostInvocations(readers) == 0 || exists r :: r in readers && r.Invocations() == MostInvocations(readers)
  {
    if readers != [] {
      var prefix, last := readers[..|readers| - 1], readers[|readers| - 1];
      MostIsMost(prefix);
      assert forall r :: r in readers <==> r in prefix || r == last;
    }
  }

  /** The rate is the same in whatever order the readers come. */
  lemma RateIgnoresOrder(a: seq<Reader>, b: seq<Reader>, horizonSeconds: real)
    requires AllValid(a) && multiset(a) == multiset(b) && horizonSeconds > 0.0
    ensures AllValid(b)
    ensures DemandRate(a, horizonSeconds) == DemandRate(b, horizonSeconds)
  {
    hide GroupKeys, GroupOffsets, EstimatedTotal, MostInvocations;
    forall r ensures r in a <==> r in b { assert r in multiset(a) <==> r in multiset(b); }
    forall i | 0 <= i < |b| ensures b[i].Valid() { assert b[i] in a; }
    SameReadersSameGroups(a, b);
    SumCongruence(GroupKeys(a), KeyRates(a), KeyRates(b));
    EstimatesPermute(a, b);
    MostIgnoresOrder(a, b);
  }

  lemma MostIgnoresOrder(a: seq<Reader>, b: seq<Reader>)
    requires SameReaders(a, b)
    ensures MostInvocations(a) == MostInvocations(b)
  {
    MostIsMost(a);
    MostIsMost(b);
  }

  // Every reader is in exactly one group.

  /** How often position `i` is listed in `groups`. */
  ghost function Listings(groups: seq<ScheduleGroup>, i: nat): nat {
    if groups == [] then 0
    else Listings(groups[..|groups| - 1], i) + (if i in groups[|groups| - 1].readers then 1 else 0)
  }

  lemma {:induction false} ListingsOfConcat(a: seq<ScheduleGroup>, b: seq<ScheduleGroup>, i: nat)
    ensures Listings(a + b, i) == Listings(a, i) + Listings(b, i)
    decreases |b|
  {
    if b == [] {
      assert a + b == a;
    } else {
      ListingsOfConcat(a, b[..|b| - 1], i);
      assert (a + b)[..|a + b| - 1] == a + b[..|b| - 1];
    }
  }

  lemma {:induction false} FixedListings(readers: seq<Reader>, keys: seq<Key>, i: nat)
    requires AllValid(readers) && Ascending(keys)
    ensures Listings(FixedGroups(readers, keys), i)
         == if exists k :: k in keys && MemberOf(readers, Intervals(readers), i, k) then 1 else 0
    ensures forall g :: g in FixedGroups(readers, keys) ==> StrictlyAscending(g.readers)
  {
    if keys != [] {
      var prefix, last := keys[..|keys| - 1], keys[|keys| - 1];
      FixedListings(readers, prefix, i);
      forall a | 0 <= a < |prefix| ensures prefix[a] != last { assert Before(keys[a], keys[|keys| - 1]); }
      MembersAre(readers, Intervals(readers), |readers|, last);
      hide AllValid, MemberOf, FixedGroup, StrictlyAscending, Before;
      var groups, group := FixedGroups(readers, prefix), FixedGroup(readers, last);
      assert FixedGroups(readers, keys) == groups + [group];
      ListingsOfOneMore(groups, group, i);
      assert forall k :: k in keys <==> k in prefix || k == last;
    }
  }

  lemma ListingsOfOneMore(groups: seq<ScheduleGroup>, group: ScheduleGroup, i: nat)
    ensures Listings(groups + [group], i) == Listings(groups, i) + if i in group.readers then 1 else 0
  {
    assert (groups + [group])[..|groups|] == groups;
  }

  lemma {:induction false} EstimatedListings(readers: seq<Reader>, i: nat)
    ensures Listings(EstimatedGroups(readers), i) == if i < |readers| && readers[i].recurrence.EstimatedRate? then 1 else 0
    ensures forall g :: g in EstimatedGroups(readers) ==> StrictlyAscending(g.readers)
  {
    if readers != [] {
      var prefix, last := readers[..|readers| - 1], |readers| - 1;
      EstimatedListings(prefix, i);
      var groups := EstimatedGroups(prefix);
      if readers[last].recurrence.EstimatedRate? {
        var group := ScheduleGroup([last], readers[last].Estimate(), EstimatedRateGroup);
        assert EstimatedGroups(readers) == groups + [group];
        assert (groups + [group])[..|groups|] == groups;
        assert i in group.readers <==> i == last;
      } else {
        assert EstimatedGroups(readers) == groups;
      }
    }
  }

  lemma {:induction false} NonRepeatingAre(readers: seq<Reader>)
    ensures StrictlyAscending(NonRepeating(readers))
    ensures forall i: nat :: i in NonRepeating(readers) <==> i < |readers| && !readers[i].Repeats()
  {
    if readers != [] {
      var prefix := readers[..|readers| - 1];
      NonRepeatingAre(prefix);
      var before := NonRepeating(prefix);
      forall j | 0 <= j < |before| ensures before[j] < |readers| - 1 { assert before[j] in before; }
    }
  }

  /** A schedule lists every reader once, in one group, and ascending within it. */
  lemma GroupsPartitionReaders(readers: seq<Reader>, horizonSeconds: real, keys: seq<Key>, groups: seq<ScheduleGroup>)
    requires AllValid(readers) && horizonSeconds > 0.0 && IsSchedule(readers, horizonSeconds, keys, groups)
    ensures forall i: nat :: Listings(groups, i) == if i < |readers| then 1 else 0
    ensures forall g :: g in groups ==> StrictlyAscending(g.readers)
  {
    var fixed, estimated, batch := FixedGroups(readers, keys), EstimatedGroups(readers), BatchGroups(readers, horizonSeconds);
    NonRepeatingAre(readers);
    FixedListings(readers, keys, 0);
    EstimatedListings(readers, 0);
    forall i: nat ensures Listings(groups, i) == if i < |readers| then 1 else 0 {
      ListingsOfConcat(fixed + estimated, batch, i);
      ListingsOfConcat(fixed, estimated, i);
      FixedListings(readers, keys, i);
      EstimatedListings(readers, i);
      BatchListings(readers, horizonSeconds, i);
      if i < |readers| && readers[i].Fixed() {
        var k := HomeIn(readers, Intervals(readers), readers[i].OwnKey());
        assert MemberOf(readers, Intervals(readers), i, k) && k in GroupKeys(readers);
        assert k in (set k | k in keys);
      }
    }
  }

  lemma BatchListings(readers: seq<Reader>, horizonSeconds: real, i: nat)
    requires horizonSeconds > 0.0
    ensures Listings(BatchGroups(readers, horizonSeconds), i) == if i in NonRepeating(readers) then 1 else 0
  {
    var batch := BatchGroups(readers, horizonSeconds);
    if batch != [] { assert batch[..0] == []; }
  }
}
