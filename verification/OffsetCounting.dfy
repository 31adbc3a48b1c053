/**
 How many distinct instants one range request evaluates at
 (crates/cost/src/execution_demand.rs). A step and a span stand for the offsets
 `0, step, 2 * step, ...` up to the span, counted back from the request's end;
 several of them are counted together without listing the offsets.
 */
module OffsetCounting {
  import opened Bitmask
  import opened FiniteSums

  const U64_LIMIT := 0x1_0000_0000_0000_0000

  type u64 = x: int | 0 <= x < U64_LIMIT

  /** One step in ms with the longest span in ms used at that step. */
  datatype Geometry = Geometry(step: u64, span: u64) {
    /** A step of 0 counts as 1, as `step.max(1)` has it. */
    function Grid(): (g: nat)
      ensures g >= 1
    {
      if step == 0 then 1 else step
    }
  }

  datatype Counted = Count(count: u64) | Overflow

  /** The offsets of one geometry: the multiples of its step up to its span. */
  ghost function OffsetsOf(g: Geometry): set<nat> {
    Multiples(g.Grid(), g.span)
  }

  ghost function Multiples(step: nat, span: nat): set<nat>
    requires step >= 1
  {
    set o: nat | 0 <= o <= span && o % step == 0
  }

  /** The offsets on at least one of `gs`. */
  ghost function AllOffsets(gs: seq<Geometry>): set<nat> {
    if gs == [] then {} else OffsetsOf(gs[0]) + AllOffsets(gs[1..])
  }

  /** The offsets common to all of `gs`. */
  ghost predicate OnEvery(gs: seq<Geometry>, o: nat) {
    forall i :: 0 <= i < |gs| ==> o in OffsetsOf(gs[i])
  }

  ghost function CommonOffsets(gs: seq<Geometry>): set<nat>
    requires gs != []
  {
    set o | o in OffsetsOf(gs[0]) && OnEvery(gs, o)
  }

  // ---------------------------------------------------------------- gcd

  /** The greatest common divisor, by Euclid's recursion. */
  function GreatestCommonDivisor(a: nat, b: nat): nat
    decreases b
  {
    if b == 0 then a else GreatestCommonDivisor(b, a % b)
  }

  /** It divides both arguments and is an integer combination of them. */
  lemma {:induction false} GcdCombination(a: nat, b: nat) returns (x: int, y: int, p: nat, q: nat)
    requires a > 0 || b > 0
    ensures GreatestCommonDivisor(a, b) >= 1
    ensures GreatestCommonDivisor(a, b) == a * x + b * y
    ensures a == GreatestCommonDivisor(a, b) * p
    ensures b == GreatestCommonDivisor(a, b) * q
    decreases b
  {
    var g := GreatestCommonDivisor(a, b);
    if b == 0 {
      x, y, p, q := 1, 0, 1, 0;
    } else {
      var x', y', p', q' := GcdCombination(b, a % b);
      var k := a / b;
      DivisionIdentity(a, b);
      x, y, p, q := y', x' - k * y', p' * k + q', p';
      EuclidStep(g, a, b, k, a % b, x', y', p', q');
    }
  }

  lemma DivisionIdentity(a: nat, b: nat)
    requires b > 0
    ensures a == b * (a / b) + a % b
  {
  }

  lemma EuclidStep(g: nat, a: nat, b: nat, k: nat, r: nat, x: int, y: int, p: nat, q: nat)
    requires a == b * k + r && b == g * p && r == g * q && g == b * x + r * y
    ensures g == a * y + b * (x - k * y)
    ensures a == g * (p * k + q)
  {
    calc {
      a * y + b * (x - k * y);
      (b * k + r) * y + b * (x - k * y);
      b * k * y + r * y + b * x - b * (k * y);
      { assert b * k * y == b * (k * y); }
      b * x + r * y;
    }
    calc {
      g * (p * k + q);
      g * (p * k) + g * q;
      { assert g * (p * k) == g * p * k; }
      b * k + r;
    }
  }

  /** The source's loop computes the recursion's value. */
  method Gcd(a0: u64, b0: u64) returns (g: u64)
    ensures g == GreatestCommonDivisor(a0, b0)
  {
    var a, b := a0, b0;
    while b != 0
      invariant GreatestCommonDivisor(a, b) == GreatestCommonDivisor(a0, b0)
      decreases b
    {
      var remainder := a % b;
      a := b;
      b := remainder;
    }
    g := a;
  }

  /** The least common multiple as the program forms it. */
  function Lcm(a: nat, b: nat): nat
    requires a > 0 && b > 0
  {
    if GreatestCommonDivisor(a, b) == 0 then 0 else a / GreatestCommonDivisor(a, b) * b
  }

  /** The multiples of `Lcm(a, b)` are exactly the common multiples. */
  lemma LcmMultiples(a: nat, b: nat, o: nat)
    requires a > 0 && b > 0
    ensures Lcm(a, b) >= 1
    ensures (o % a == 0 && o % b == 0) <==> o % Lcm(a, b) == 0
  {
    var g := GreatestCommonDivisor(a, b);
    var x, y, p, q := GcdCombination(a, b);
    QuotientIs(a, g, p);
    var l := p * b;
    assert p > 0;
    MulPositive(p, b);
    if o % a == 0 && o % b == 0 {
      var k, m := o / a, o / b;
      CommonMultiple(g, a, b, x, y, p, o, k, m);
      MultipleHasNoRemainder(l, m * x + k * y, o);
    }
    if o % l == 0 {
      var t := o / l;
      LcmIsMultiple(g, a, b, p, q, t);
      MultipleHasNoRemainder(b, p * t, o);
      MultipleHasNoRemainder(a, q * t, o);
    }
  }

  lemma CommonMultiple(g: nat, a: nat, b: nat, x: int, y: int, p: nat, o: nat, k: int, m: int)
    requires g >= 1 && g == a * x + b * y && a == g * p && o == a * k && o == b * m
    ensures o == p * b * (m * x + k * y)
  {
    var t := m * x + k * y;
    calc {
      g * o;
      (a * x + b * y) * o;
      (a * x) * o + (b * y) * o;
      (a * x) * (b * m) + (b * y) * (a * k);
      { assert (a * x) * (b * m) == (a * b) * (m * x); assert (b * y) * (a * k) == (a * b) * (k * y); }
      (a * b) * (m * x) + (a * b) * (k * y);
      (a * b) * t;
      { assert a * b == g * (p * b); }
      (g * (p * b)) * t;
      g * (p * b * t);
    }
    CancelFactor(g, o, p * b * t);
  }

  lemma LcmIsMultiple(g: nat, a: nat, b: nat, p: nat, q: nat, t: int)
    requires a == g * p && b == g * q
    ensures p * b * t == b * (p * t)
    ensures p * b * t == a * (q * t)
  {
    assert p * b == a * q by { assert p * (g * q) == (g * p) * q; }
    assert a * q * t == a * (q * t);
    assert p * b * t == b * (p * t);
  }

  lemma MulPositive(a: nat, b: nat)
    requires a > 0 && b > 0
    ensures a * b >= b
  {
  }

  lemma CancelFactor(g: nat, a: int, b: int)
    requires g >= 1
    requires g * a == g * b
    ensures a == b
  {
  }

  lemma MultipleHasNoRemainder(l: nat, t: int, o: nat)
    requires l >= 1
    requires o == l * t
    ensures o % l == 0
  {
    assert o == l * (o / l) + o % l;
    assert o % l == l * (t - o / l);
    SmallMultiple(l, t - o / l);
  }

  /** `span / step + 1` offsets lie on one step up to a span. */
  lemma {:induction false} MultiplesCount(step: nat, span: nat)
    requires step >= 1
    ensures |Multiples(step, span)| == span / step + 1
    decreases span
  {
    if span < step {
      forall o: nat | 0 < o <= span ensures o % step == o { SmallRemainder(o, step); }
      SmallRemainder(0, step);
      assert Multiples(step, span) == {0};
      QuotientIs(span, step, 0);
    } else {
      MultiplesCount(step, span - step);
      MultiplesSplit(step, span);
      QuotientLess(span, step);
    }
  }

  lemma MultiplesSplit(step: nat, span: nat)
    requires 1 <= step <= span
    ensures |Multiples(step, span)| == |Multiples(step, span - step)| + 1
  {
    var q := span / step;
    assert span == step * q + span % step;
    var top := step * q;
    assert span - step < top <= span;
    forall o: nat | o <= span
      ensures o % step == 0 <==> (o <= span - step && o % step == 0) || o == top
    {
      TopMultiple(step, span, q, o);
    }
    assert Multiples(step, span) == Multiples(step, span - step) + {top};
  }

  lemma QuotientLess(span: nat, step: nat)
    requires 1 <= step <= span
    ensures (span - step) / step == span / step - 1
  {
    var q := span / step;
    assert span == step * q + span % step;
    assert q >= 1;
    assert step * (q - 1) == step * q - step;
    QuotientIs(span - step, step, q - 1);
  }

  lemma SmallRemainder(o: nat, step: nat)
    requires o < step
    ensures o % step == o
  {
  }

  /** Only one multiple of `step` lies in the last `step` places up to `span`. */
  lemma TopMultiple(step: nat, span: nat, q: nat, o: nat)
    requires 1 <= step <= span && o <= span
    requires span - step < step * q <= span
    ensures o % step == 0 <==> (o <= span - step && o % step == 0) || o == step * q
  {
    MultipleHasNoRemainder(step, q, step * q);
    if o % step == 0 && o > span - step {
      assert o == step * (o / step);
      assert step * (o / step) - step * q == step * (o / step - q);
      SmallMultiple(step, o / step - q);
    }
  }

  // ------------------------------------------- counting an intersection

  ghost predicate IsShortestSpan(geometries: seq<Geometry>, span: nat) {
    && (forall j :: 0 <= j < |geometries| ==> span <= geometries[j].span)
    && (exists j :: 0 <= j < |geometries| && span == geometries[j].span)
  }

  method ShortestSpan(geometries: seq<Geometry>) returns (span: u64)
    requires geometries != []
    ensures IsShortestSpan(geometries, span)
  {
    span := geometries[0].span;
    for i := 1 to |geometries|
      invariant forall j :: 0 <= j < i ==> span <= geometries[j].span
      invariant exists j :: 0 <= j < i && span == geometries[j].span
    {
      if geometries[i].span < span { span := geometries[i].span; }
    }
  }

  /** Number of offsets common to all of `geometries`, through one running least common multiple. */
  method OffsetIntersectionCount(geometries: seq<Geometry>) returns (count: int)
    ensures geometries == [] ==> count == 0
    ensures geometries != [] ==> count == |CommonOffsets(geometries)|
  {
    if geometries == [] {
      return 0;
    }
    var span := ShortestSpan(geometries);
    var lcm: u64 := 1;
    for i := 0 to |geometries|
      invariant lcm >= 1 && (i > 0 ==> lcm <= span)
      invariant SameGrid(geometries[..i], lcm)
    {
      var step := geometries[i].Grid();
      var g := Gcd(lcm, step);
      SameGridStep(geometries, i, lcm);
      var next := lcm / g * step;
      // `checked_mul` fails from 2^64 on, and every span is below that.
      if next < U64_LIMIT && next <= span {
        lcm := next;
      } else {
        OnlyOriginShared(geometries, i + 1, next, span);
        return 1;
      }
    }
    assert geometries[..|geometries|] == geometries;
    SharedOffsets(geometries, lcm, span);
    count := span / lcm + 1;
  }

  /** The offsets on every grid of `gs`, spans aside, are the multiples of `lcm`. */
  ghost predicate SameGrid(gs: seq<Geometry>, lcm: nat)
    requires lcm >= 1
  {
    forall o: nat :: OnGrids(gs, o) <==> o % lcm == 0
  }

  lemma SameGridStep(gs: seq<Geometry>, i: nat, lcm: nat)
    requires i < |gs| && lcm >= 1 && SameGrid(gs[..i], lcm)
    ensures GreatestCommonDivisor(lcm, gs[i].Grid()) >= 1
    ensures Lcm(lcm, gs[i].Grid()) == lcm / GreatestCommonDivisor(lcm, gs[i].Grid()) * gs[i].Grid()
    ensures Lcm(lcm, gs[i].Grid()) >= 1
    ensures SameGrid(gs[..i + 1], Lcm(lcm, gs[i].Grid()))
  {
    var step := gs[i].Grid();
    var _, _, _, _ := GcdCombination(lcm, step);
    LcmMultiples(lcm, step, 0);
    forall o: nat
      ensures OnGrids(gs[..i + 1], o) <==> o % Lcm(lcm, step) == 0
    {
      LcmMultiples(lcm, step, o);
      OnGridsAppend(gs, i, o);
    }
  }

  lemma SharedOffsets(gs: seq<Geometry>, lcm: nat, span: nat)
    requires gs != [] && IsShortestSpan(gs, span)
    requires lcm >= 1 && SameGrid(gs, lcm)
    ensures |CommonOffsets(gs)| == span / lcm + 1
  {
    forall o: nat
      ensures o in CommonOffsets(gs) <==> o in Multiples(lcm, span)
    {
      CommonIsOnGrids(gs, span, o);
    }
    assert CommonOffsets(gs) == Multiples(lcm, span);
    MultiplesCount(lcm, span);
  }

  /** Once the running multiple of a prefix passes the shortest span, only offset 0 is left. */
  lemma OnlyOriginShared(gs: seq<Geometry>, i: nat, next: nat, span: nat)
    requires i <= |gs| && gs != [] && IsShortestSpan(gs, span)
    requires next > span && SameGrid(gs[..i], next)
    ensures |CommonOffsets(gs)| == 1
  {
    forall o | o in CommonOffsets(gs)
      ensures o == 0
    {
      CommonIsOnGrids(gs, span, o);
      OnGridsPrefix(gs, i, o);
      SmallRemainder(o, next);
    }
    forall j | 0 <= j < |gs| ensures 0 % gs[j].Grid() == 0 {
      SmallRemainder(0, gs[j].Grid());
    }
    CommonIsOnGrids(gs, span, 0);
    assert CommonOffsets(gs) == {0};
  }

  ghost predicate OnGrids(gs: seq<Geometry>, o: nat) {
    forall i :: 0 <= i < |gs| ==> o % gs[i].Grid() == 0
  }

  lemma OnGridsAppend(gs: seq<Geometry>, i: nat, o: nat)
    requires i < |gs|
    ensures OnGrids(gs[..i + 1], o) <==> OnGrids(gs[..i], o) && o % gs[i].Grid() == 0
  {
    assert gs[..i + 1] == gs[..i] + [gs[i]];
  }

  lemma OnGridsPrefix(gs: seq<Geometry>, i: nat, o: nat)
    requires i <= |gs| && OnGrids(gs, o)
    ensures OnGrids(gs[..i], o)
  {
  }

  lemma CommonIsOnGrids(gs: seq<Geometry>, span: nat, o: nat)
    requires gs != []
    requires IsShortestSpan(gs, span)
    ensures o in CommonOffsets(gs) <==> OnGrids(gs, o) && o <= span
  {
    var j :| 0 <= j < |gs| && span == gs[j].span;
    if o in CommonOffsets(gs) {
      assert o in OffsetsOf(gs[j]);
      forall i | 0 <= i < |gs| ensures o % gs[i].Grid() == 0 {
        assert o in OffsetsOf(gs[i]);
      }
    }
  }

  // ------------------------------------------------ inclusion-exclusion

  ghost function UnionOf(sets: seq<set<nat>>): set<nat> {
    if sets == [] then {} else sets[0] + UnionOf(sets[1..])
  }

  /** The intersection of the sets whose bits are set in `mask`. */
  ghost function Meet(sets: seq<set<nat>>, mask: nat): set<nat>
    requires 0 < mask < Pow2(|sets|)
  {
    if mask % 2 == 0 then Meet(sets[1..], mask / 2)
    else if mask / 2 == 0 then sets[0]
    else sets[0] * Meet(sets[1..], mask / 2)
  }

  /** What one mask adds to the running total: its intersection's size, with alternating sign. */
  ghost function Term(sets: seq<set<nat>>, mask: nat): int
    requires mask < Pow2(|sets|)
  {
    if mask == 0 then 0
    else if CountOnes(mask) % 2 == 1 then |Meet(sets, mask)|
    else -|Meet(sets, mask)|
  }

  ghost function SignedTotal(sets: seq<set<nat>>, masks: nat): int
    requires masks <= Pow2(|sets|)
  {
    if masks == 0 then 0 else SignedTotal(sets, masks - 1) + Term(sets, masks - 1)
  }

  /** Each of `sets` cut down to `s`. */
  ghost function Within(sets: seq<set<nat>>, s: set<nat>): (cut: seq<set<nat>>)
    ensures |cut| == |sets|
  {
    if sets == [] then [] else [sets[0] * s] + Within(sets[1..], s)
  }

  lemma {:induction false} MeetWithin(sets: seq<set<nat>>, s: set<nat>, mask: nat)
    requires 0 < mask < Pow2(|sets|)
    ensures Meet(Within(sets, s), mask) == s * Meet(sets, mask)
  {
    assert Within(sets, s)[1..] == Within(sets[1..], s);
    if mask % 2 == 0 || mask / 2 != 0 {
      MeetWithin(sets[1..], s, mask / 2);
    }
  }

  lemma {:induction false} UnionWithin(sets: seq<set<nat>>, s: set<nat>)
    ensures UnionOf(Within(sets, s)) == s * UnionOf(sets)
  {
    if sets != [] {
      UnionWithin(sets[1..], s);
      assert Within(sets, s)[1..] == Within(sets[1..], s);
    }
  }

  /** The masks `2m` and `2m + 1` differ in the first set only. */
  lemma {:induction false} PairedTerms(sets: seq<set<nat>>, m: nat)
    requires sets != [] && m < Pow2(|sets| - 1)
    ensures Term(sets, 2 * m) == Term(sets[1..], m)
    ensures Term(sets, 2 * m + 1)
         == if m == 0 then |sets[0]| else -Term(Within(sets[1..], sets[0]), m)
  {
    assert (2 * m) / 2 == m && (2 * m + 1) / 2 == m;
    assert CountOnes(2 * m + 1) == 1 + CountOnes(m);
    if m > 0 {
      MeetWithin(sets[1..], sets[0], m);
    }
  }

  lemma {:induction false} PairedTotal(sets: seq<set<nat>>, m: nat)
    requires sets != [] && m <= Pow2(|sets| - 1)
    ensures SignedTotal(sets, 2 * m)
         == (if m == 0 then 0 else |sets[0]|) + SignedTotal(sets[1..], m)
            - SignedTotal(Within(sets[1..], sets[0]), m)
  {
    assert Pow2(|sets|) == 2 * Pow2(|sets| - 1);
    hide Pow2, Term;
    if m > 0 {
      var rest, within, k := sets[1..], Within(sets[1..], sets[0]), m - 1;
      PairedTotal(sets, k);
      PairedTerms(sets, k);
      assert SignedTotal(sets, 2 * k + 2) == SignedTotal(sets, 2 * k) + Term(sets, 2 * k) + Term(sets, 2 * k + 1) by {
        TotalStep(sets, 2 * k);
        TotalStep(sets, 2 * k + 1);
      }
      TotalStep(rest, k);
      TotalStep(within, k);
      assert 2 * m == 2 * k + 2;
    }
  }

  lemma TotalStep(sets: seq<set<nat>>, masks: nat)
    requires masks < Pow2(|sets|)
    ensures SignedTotal(sets, masks + 1) == SignedTotal(sets, masks) + Term(sets, masks)
  {
  }

  /** The alternating sum over every non-empty mask counts the union. */
  lemma {:induction false} InclusionExclusion(sets: seq<set<nat>>)
    ensures SignedTotal(sets, Pow2(|sets|)) == |UnionOf(sets)|
    decreases |sets|
  {
    if sets == [] {
      assert SignedTotal(sets, 1) == SignedTotal(sets, 0) + Term(sets, 0);
    } else {
      var first, rest := sets[0], sets[1..];
      PairedTotal(sets, Pow2(|rest|));
      InclusionExclusion(rest);
      InclusionExclusion(Within(rest, first));
      UnionWithin(rest, first);
      assert |first + UnionOf(rest)| + |first * UnionOf(rest)| == |first| + |UnionOf(rest)|;
    }
  }

  // ------------------------------------------------- counting the union

  ghost function OffsetSets(gs: seq<Geometry>): (sets: seq<set<nat>>)
    ensures |sets| == |gs|
  {
    if gs == [] then [] else [OffsetsOf(gs[0])] + OffsetSets(gs[1..])
  }

  lemma {:induction false} UnionOfOffsetSets(gs: seq<Geometry>)
    ensures UnionOf(OffsetSets(gs)) == AllOffsets(gs)
  {
    if gs != [] {
      UnionOfOffsetSets(gs[1..]);
      assert OffsetSets(gs)[1..] == OffsetSets(gs[1..]);
    }
  }

  lemma {:induction false} SelectedMeet(gs: seq<Geometry>, mask: nat)
    requires 0 < mask < Pow2(|gs|)
    ensures Selected(gs, mask) != []
    ensures CommonOffsets(Selected(gs, mask)) == Meet(OffsetSets(gs), mask)
  {
    var rest := Selected(gs[1..], mask / 2);
    assert OffsetSets(gs)[1..] == OffsetSets(gs[1..]);
    if mask % 2 == 0 {
      SelectedMeet(gs[1..], mask / 2);
      assert Selected(gs, mask) == rest;
    } else {
      assert Selected(gs, mask) == [gs[0]] + rest;
      if mask / 2 == 0 {
        SelectedNone(gs[1..]);
      } else {
        SelectedMeet(gs[1..], mask / 2);
        forall o: nat
          ensures o in CommonOffsets([gs[0]] + rest) <==> o in OffsetsOf(gs[0]) && o in CommonOffsets(rest)
        {
          OnEveryCons(gs[0], rest, o);
        }
      }
    }
  }

  lemma OnEveryCons(g: Geometry, gs: seq<Geometry>, o: nat)
    ensures OnEvery([g] + gs, o) <==> o in OffsetsOf(g) && OnEvery(gs, o)
  {
    if OnEvery([g] + gs, o) {
      assert ([g] + gs)[0] == g;
      forall i | 0 <= i < |gs| ensures o in OffsetsOf(gs[i]) {
        assert ([g] + gs)[i + 1] == gs[i];
      }
    }
  }

  /** The offsets a map of steps to longest spans stands for. */
  ghost function Instants(longest: map<u64, u64>): set<nat> {
    set step, o | step in longest && o in OffsetsOf(Geometry(step, longest[step])) :: o
  }

  ghost predicate Lists(gs: seq<Geometry>, longest: map<u64, u64>) {
    && |gs| == |longest|
    && (forall i :: 0 <= i < |gs| ==> gs[i].step in longest && longest[gs[i].step] == gs[i].span)
    && (forall step :: step in longest ==> Geometry(step, longest[step]) in gs)
  }

  method Entries(longest: map<u64, u64>) returns (gs: seq<Geometry>)
    ensures Lists(gs, longest)
  {
    gs := [];
    var left := longest.Keys;
    while left != {}
      invariant left <= longest.Keys
      invariant |gs| + |left| == |longest|
      invariant forall i :: 0 <= i < |gs| ==> gs[i].step in longest && longest[gs[i].step] == gs[i].span
      invariant forall step :: step in longest && step !in left ==> Geometry(step, longest[step]) in gs
      decreases |left|
    {
      var step :| step in left;
      gs := gs + [Geometry(step, longest[step])];
      left := left - {step};
    }
  }

  lemma {:induction false} InAllOffsets(gs: seq<Geometry>, o: nat)
    ensures o in AllOffsets(gs) <==> exists i :: 0 <= i < |gs| && o in OffsetsOf(gs[i])
  {
    if gs != [] {
      InAllOffsets(gs[1..], o);
      if o in OffsetsOf(gs[0]) {
        assert 0 <= 0 < |gs|;
      } else if o in AllOffsets(gs[1..]) {
        var i :| 0 <= i < |gs[1..]| && o in OffsetsOf(gs[1..][i]);
        assert gs[i + 1] == gs[1..][i];
      }
      if exists i :: 0 <= i < |gs| && o in OffsetsOf(gs[i]) {
        var i :| 0 <= i < |gs| && o in OffsetsOf(gs[i]);
        if i > 0 { assert gs[1..][i - 1] == gs[i]; }
      }
    }
  }

  lemma ListedInstants(gs: seq<Geometry>, longest: map<u64, u64>)
    requires Lists(gs, longest)
    ensures AllOffsets(gs) == Instants(longest)
  {
    forall o: nat
      ensures o in AllOffsets(gs) <==> o in Instants(longest)
    {
      InAllOffsets(gs, o);
      if o in Instants(longest) {
        var step :| step in longest && o in OffsetsOf(Geometry(step, longest[step]));
        var i :| 0 <= i < |gs| && gs[i] == Geometry(step, longest[step]);
      }
    }
  }

  /** The sum over the masks, for any number of distinct steps. */
  method CountByMasks(geometries: seq<Geometry>) returns (total: int)
    ensures total == |AllOffsets(geometries)|
  {
    ghost var sets := OffsetSets(geometries);
    total := 0;
    var end := Pow2(|geometries|);
    assert SignedTotal(sets, 1) == SignedTotal(sets, 0) + Term(sets, 0);
    for mask := 1 to end
      invariant total == SignedTotal(sets, mask)
    {
      var intersection := Select(geometries, mask);
      SelectedMeet(geometries, mask);
      var count := OffsetIntersectionCount(intersection);
      if CountOnes(mask) % 2 == 1 {
        total := total + count;
      } else {
        total := total - count;
      }
    }
    InclusionExclusion(sets);
    UnionOfOffsetSets(geometries);
  }

  /** `k * step` for every `k` the range evaluates, as the explicit path lists them. */
  ghost function ListedOffsets(g: Geometry): set<nat> {
    set k: nat | 0 <= k <= g.span / g.Grid() :: k * g.step
  }

  lemma ListedAreOffsets(g: Geometry)
    ensures ListedOffsets(g) == if g.step == 0 then {0} else OffsetsOf(g)
  {
    if g.step == 0 {
      assert 0 * g.step in ListedOffsets(g);
    } else {
      assert g.span == g.step * (g.span / g.step) + g.span % g.step;
      forall o | o in ListedOffsets(g) ensures o in OffsetsOf(g) {
        var k: nat :| k <= g.span / g.step && o == k * g.step;
        MulMonotone(k, g.span / g.step, g.step);
        MultipleHasNoRemainder(g.step, k, o);
      }
      forall o | o in OffsetsOf(g) ensures o in ListedOffsets(g) {
        var k := o / g.step;
        assert o == g.step * k;
        if k > g.span / g.step { MulMonotone(g.span / g.step + 1, k, g.step); assert false; }
        assert o == k * g.step;
      }
    }
  }

  lemma MulMonotone(a: int, b: int, c: nat)
    requires a <= b
    ensures a * c <= b * c
  {
  }

  /** The explicit path: every offset put in a set. */
  method CountByListing(longest: map<u64, u64>) returns (count: nat)
    ensures count == |Instants(longest - {0}) + if 0 in longest then {0} else {}|
  {
    var geometries := Entries(longest);
    var offsets: set<nat> := {};
    for i := 0 to |geometries|
      invariant offsets == set j, o | 0 <= j < i && o in ListedOffsets(geometries[j]) :: o
    {
      var listed := ListOffsets(geometries[i]);
      offsets := offsets + listed;
    }
    ListedUnion(geometries, longest);
    count := |offsets|;
  }

  method ListOffsets(g: Geometry) returns (offsets: set<nat>)
    ensures offsets == ListedOffsets(g)
  {
    offsets := {};
    for k := 0 to g.span / g.Grid() + 1
      invariant offsets == set k': nat | k' < k :: k' * g.step
    {
      offsets := offsets + {k * g.step};
    }
    assert (set k: nat | k < g.span / g.Grid() + 1 :: k * g.step) == ListedOffsets(g);
  }

  lemma ListedUnion(gs: seq<Geometry>, longest: map<u64, u64>)
    requires Lists(gs, longest)
    ensures (set j, o | 0 <= j < |gs| && o in ListedOffsets(gs[j]) :: o)
         == Instants(longest - {0}) + if 0 in longest then {0} else {}
  {
    hide ListedOffsets, OffsetsOf;
    var listed := set j, o | 0 <= j < |gs| && o in ListedOffsets(gs[j]) :: o;
    forall o | o in listed
      ensures o in Instants(longest - {0}) || (0 in longest && o == 0)
    {
      var j :| 0 <= j < |gs| && o in ListedOffsets(gs[j]);
      ListedAreOffsets(gs[j]);
      if gs[j].step != 0 {
        assert gs[j].step in longest - {0} && o in OffsetsOf(Geometry(gs[j].step, (longest - {0})[gs[j].step]));
      }
    }
    forall o | o in Instants(longest - {0})
      ensures o in listed
    {
      var step :| step in longest - {0} && o in OffsetsOf(Geometry(step, (longest - {0})[step]));
      var j :| 0 <= j < |gs| && gs[j] == Geometry(step, longest[step]);
      ListedAreOffsets(gs[j]);
    }
    if 0 in longest {
      var j :| 0 <= j < |gs| && gs[j] == Geometry(0, longest[0]);
      ListedAreOffsets(gs[j]);
      assert 0 in listed;
    }
  }

  lemma OneStep(gs: seq<Geometry>, longest: map<u64, u64>)
    requires Lists(gs, longest) && |gs| == 1
    ensures |Instants(longest)| == gs[0].span / gs[0].Grid() + 1
  {
    ListedInstants(gs, longest);
    assert AllOffsets(gs) == OffsetsOf(gs[0]) + AllOffsets([]);
    MultiplesCount(gs[0].Grid(), gs[0].span);
  }

  function AsU64(n: nat): Counted {
    if n < U64_LIMIT then Count(n) else Overflow
  }

  /** The other steps evaluate every instant up to the zero step's span, or there is no zero step. */
  ghost predicate ZeroStepCovered(longest: map<u64, u64>) {
    0 in longest ==> OffsetsOf(Geometry(0, longest[0])) <= Instants(longest - {0}) + {0}
  }

  /**
   A step of 0 is where the paths part: the masks read it as every instant of
   its span, the explicit set as the request's end alone. They count alike
   exactly when the other steps cover that span.
   */
  lemma ListedAgreeIffCovered(longest: map<u64, u64>)
    requires 0 in longest
    ensures AsU64(|Instants(longest - {0}) + {0}|) == AsU64(|Instants(longest)|) <==> ZeroStepCovered(longest)
  {
    var zero, listed, all := OffsetsOf(Geometry(0, longest[0])), Instants(longest - {0}) + {0}, Instants(longest);
    ZeroStepInstants(longest);
    InstantsFit(longest);
    hide OffsetsOf, Instants;
    SubsetSize(listed, all);
  }

  lemma ZeroStepInstants(longest: map<u64, u64>)
    requires 0 in longest
    ensures 0 in OffsetsOf(Geometry(0, longest[0]))
    ensures Instants(longest) == Instants(longest - {0}) + OffsetsOf(Geometry(0, longest[0]))
  {
    assert 0 % 1 == 0;
    hide OffsetsOf;
    var rest := longest - {0};
    forall o: nat
      ensures o in Instants(longest) <==> o in Instants(rest) || o in OffsetsOf(Geometry(0, longest[0]))
    {
      if o in Instants(longest) {
        var step :| step in longest && o in OffsetsOf(Geometry(step, longest[step]));
        if step != 0 { assert step in rest && o in OffsetsOf(Geometry(step, rest[step])); }
      }
      if o in Instants(rest) {
        var step :| step in rest && o in OffsetsOf(Geometry(step, rest[step]));
        assert step in longest && o in OffsetsOf(Geometry(step, longest[step]));
      }
    }
  }

  lemma InstantsFit(longest: map<u64, u64>)
    ensures |Instants(longest)| <= U64_LIMIT
  {
    MultiplesCount(1, U64_LIMIT - 1);
    forall o | o in Instants(longest) ensures o in Multiples(1, U64_LIMIT - 1) {
      var step :| step in longest && o in OffsetsOf(Geometry(step, longest[step]));
      assert o % 1 == 0;
    }
    SubsetSize(Instants(longest), Multiples(1, U64_LIMIT - 1));
  }

  /** Only a unit step evaluates the instant 1, so without one a zero step of positive span is not covered. */
  lemma ZeroStepNeedsUnitStep(longest: map<u64, u64>)
    requires 0 in longest && longest[0] >= 1 && 1 !in longest
    ensures !ZeroStepCovered(longest)
  {
    var rest := longest - {0};
    assert 1 % 1 == 0;
    assert 1 in OffsetsOf(Geometry(0, longest[0]));
    if 1 in Instants(rest) {
      var step :| step in rest && 1 in OffsetsOf(Geometry(step, rest[step]));
      assert false;
    }
  }

  /** The thirteen steps 0, 2, 3, ..., 13 over a span of one millisecond. */
  const ZERO_AMONG_THIRTEEN: map<u64, u64> := map step: u64 | step < 14 && step != 1 :: 1

  /** Listed, they count one instant; by the masks' reading there are two. */
  lemma ZeroStepMisses()
    ensures |ZERO_AMONG_THIRTEEN| == 13 && 0 in ZERO_AMONG_THIRTEEN
    ensures AsU64(|Instants(ZERO_AMONG_THIRTEEN - {0}) + {0}|) != AsU64(|Instants(ZERO_AMONG_THIRTEEN)|)
  {
    MultiplesCount(1, 13);
    assert forall o: nat :: o % 1 == 0;
    assert ZERO_AMONG_THIRTEEN.Keys == Multiples(1, 13) - {1};
    ZeroStepNeedsUnitStep(ZERO_AMONG_THIRTEEN);
    ListedAgreeIffCovered(ZERO_AMONG_THIRTEEN);
  }

  /**
   The distinct instants of one request, by whichever of the three paths the
   number of steps picks: the number of offsets of their union, or an overflow
   exactly when that number does not fit.
   */
  method DistinctInstantsPerRequest(longest: map<u64, u64>) returns (count: Counted)
    ensures 0 !in longest || |longest| <= 12 ==> count == AsU64(|Instants(longest)|)
    ensures |longest| > 12 && 0 in longest ==> count == AsU64(|Instants(longest - {0}) + {0}|)
    ensures count == AsU64(|Instants(longest)|) <==> |longest| <= 12 || ZeroStepCovered(longest)
  {
    if 0 in longest { ListedAgreeIffCovered(longest); }
    if |longest| == 1 {
      var geometries := Entries(longest);
      var g := geometries[0];
      OneStep(geometries, longest);
      return AsU64(g.span / g.Grid() + 1);
    }
    if |longest| <= 12 {
      var geometries := Entries(longest);
      ListedInstants(geometries, longest);
      var total := CountByMasks(geometries);
      return AsU64(total);
    }
    if 0 !in longest { assert longest - {0} == longest; }
    var listed := CountByListing(longest);
    return AsU64(listed);
  }
}
