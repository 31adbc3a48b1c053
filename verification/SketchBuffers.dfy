/**
 How many items a KLL sketch's array holds (crates/cost/src/state_bytes.rs:198-238).
 */
module SketchBuffers {
  import opened RealBounds
  import opened Results

  const KLL_MAX_LEVELS: nat := 61

  const KLL_MAX_K: nat := 26602

  const INITIAL_BUFFER_ITEMS: nat := 16

  const U64_MAX: nat := 0xFFFF_FFFF_FFFF_FFFF

  // ------------------------------------------------------ full capacity

  /** `(2/3)^n`. */
  function Scale(n: nat): (r: real)
    ensures 0.0 < r <= 1.0
  {
    if n == 0 then 1.0 else Scale(n - 1) * (2.0 / 3.0)
  }

  /** The least integer not below `x`. */
  function Ceiling(x: real): int {
    if x == x.Floor as real then x.Floor else x.Floor + 1
  }

  /** A level's items, at least 8. */
  function LevelItems(x: real): nat
    requires x >= 0.0
  {
    if Ceiling(x) > 8 then Ceiling(x) else 8
  }

  function CappedK(k: nat): nat {
    if k > KLL_MAX_K then KLL_MAX_K else k
  }

  /** Level `i`'s share of `k` before rounding. */
  function Share(k: nat, scale: real): (r: real)
    requires scale >= 0.0
    ensures r >= 0.0
  {
    Times(k as real, 0.0, scale);
    k as real * scale
  }

  function LevelsTotal(k: nat, levels: nat): nat {
    if levels == 0 then 0 else LevelsTotal(k, levels - 1) + LevelItems(Share(k, Scale(levels - 1)))
  }

  method KllCapacityItems(k: nat) returns (total: nat)
    ensures total == LevelsTotal(CappedK(k), KLL_MAX_LEVELS)
  {
    hide Share, LevelItems;
    var capped := CappedK(k);
    var scale := 1.0;
    total := 0;
    for i := 0 to KLL_MAX_LEVELS
      invariant scale == Scale(i)
      invariant total == LevelsTotal(capped, i)
    {
      total := total + LevelItems(Share(capped, scale));
      scale := scale * (2.0 / 3.0);
    }
  }

  lemma LevelBounds(x: real)
    requires x >= 0.0
    ensures 8.0 <= LevelItems(x) as real <= x + 8.0
    ensures x <= LevelItems(x) as real
  {
    assert x.Floor as real <= x < (x.Floor + 1) as real;
  }

  /** The levels' capacities shrink geometrically: three times `k` and eight items a level bound them all. */
  lemma {:induction false} CapacityBounds(k: nat, levels: nat)
    ensures 3.0 * Share(k, 1.0 - Scale(levels)) <= LevelsTotal(k, levels) as real
    ensures LevelsTotal(k, levels) as real <= 3.0 * Share(k, 1.0 - Scale(levels)) + 8.0 * levels as real
    ensures LevelsTotal(k, levels) >= 8 * levels
  {
    hide Share, LevelItems;
    if levels > 0 {
      var n := levels - 1;
      CapacityBounds(k, n);
      LevelBounds(Share(k, Scale(n)));
      GeometricStep(k, Scale(n), Scale(levels));
      assert levels as real == n as real + 1.0;
    } else {
      NoShare(k);
    }
  }

  lemma NoShare(k: nat)
    ensures Share(k, 1.0 - Scale(0)) == 0.0
  {
  }

  lemma GeometricStep(k: nat, s: real, t: real)
    requires t == s * (2.0 / 3.0) && 0.0 <= s <= 1.0
    ensures 0.0 <= t <= 1.0
    ensures 3.0 * Share(k, 1.0 - t) == 3.0 * Share(k, 1.0 - s) + Share(k, s)
  {
    var c := k as real;
    assert c * t == (c * s) * (2.0 / 3.0);
    assert c * (1.0 - t) == c - c * t && c * (1.0 - s) == c - c * s;
  }

  // ------------------------------------------------------ a growing array

  /** A full array grows to twice its length, at least 16 items and at most the capacity. */
  function Grown(length: nat, capacity: nat): nat {
    var doubled := if 2 * length > INITIAL_BUFFER_ITEMS then 2 * length else INITIAL_BUFFER_ITEMS;
    if doubled > capacity then capacity else doubled
  }

  /** The array's length after so many rows, one at a time. */
  function LengthAfter(rows: nat, capacity: nat): nat {
    if rows == 0 then 0
    else
      var length := LengthAfter(rows - 1, capacity);
      if length < rows then Grown(length, capacity) else length
  }

  function Doubled(j: nat): (r: nat)
    ensures r >= 1
  {
    if j == 0 then 1 else 2 * Doubled(j - 1)
  }

  /** The smallest power of two that is at least `n`. */
  function NextPowerOfTwo(n: nat): nat {
    PowerFrom(n, 1)
  }

  function PowerFrom(n: nat, p: nat): nat
    requires p >= 1
    decreases n - p
  {
    if p >= n then p else PowerFrom(n, 2 * p)
  }

  lemma {:induction false} DoubledGrows(i: nat, j: nat)
    requires i < j
    ensures 2 * Doubled(i) <= Doubled(j)
  {
    if i + 1 < j { DoubledGrows(i, j - 1); }
  }

  /** The closed form: rows in sixteens rounded up to a power of two, in 64 bits, at most the capacity. */
  function BufferItems(rows: nat, capacity: nat): nat {
    var n := if rows == 0 then 1 else rows;
    var sixteens := (n + INITIAL_BUFFER_ITEMS - 1) / INITIAL_BUFFER_ITEMS;
    var items := NextPowerOfTwo(sixteens) * INITIAL_BUFFER_ITEMS;
    var saturated := if items > U64_MAX then U64_MAX else items;
    if saturated > capacity then capacity else saturated
  }

  /** The array's length is a doubling of 16 that held one row fewer but not one more, or the capacity. */
  lemma {:induction false} LengthIs(rows: nat, capacity: nat) returns (j: nat)
    requires rows >= 1 && capacity >= INITIAL_BUFFER_ITEMS
    ensures INITIAL_BUFFER_ITEMS * Doubled(j) >= rows
    ensures j > 0 ==> INITIAL_BUFFER_ITEMS * Doubled(j - 1) < rows
    ensures LengthAfter(rows, capacity)
         == if INITIAL_BUFFER_ITEMS * Doubled(j) > capacity then capacity else INITIAL_BUFFER_ITEMS * Doubled(j)
  {
    if rows == 1 {
      j := 0;
      assert LengthAfter(0, capacity) == 0;
    } else {
      var i := LengthIs(rows - 1, capacity);
      assert Doubled(i + 1) == 2 * Doubled(i);
      j := if INITIAL_BUFFER_ITEMS * Doubled(i) < rows then i + 1 else i;
    }
  }

  /** The closed form is the length the growing array reaches, for every number of rows. */
  lemma ClosedFormIsGrowth(rows: nat, capacity: nat)
    requires 1 <= rows && INITIAL_BUFFER_ITEMS <= capacity <= U64_MAX
    ensures BufferItems(rows, capacity) == LengthAfter(rows, capacity)
  {
    var j := LengthIs(rows, capacity);
    var sixteens := (rows + INITIAL_BUFFER_ITEMS - 1) / INITIAL_BUFFER_ITEMS;
    SmallestPower(sixteens, j);
  }

  lemma SmallestPower(n: nat, j: nat)
    requires n >= 1 && Doubled(j) >= n && (j > 0 ==> Doubled(j - 1) < n)
    ensures NextPowerOfTwo(n) == Doubled(j)
  {
    assert Doubled(0) == 1;
    PowerFromUpTo(n, 0, j);
  }

  lemma {:induction false} PowerFromUpTo(n: nat, i: nat, j: nat)
    requires i <= j && Doubled(j) >= n && (j > 0 ==> Doubled(j - 1) < n)
    ensures PowerFrom(n, Doubled(i)) == Doubled(j)
    decreases j - i
  {
    if i < j {
      if i < j - 1 { DoubledGrows(i, j - 1); }
      assert 2 * Doubled(i) == Doubled(i + 1);
      PowerFromUpTo(n, i + 1, j);
    }
  }

  /** The smallest `16 * 2^j` that holds the rows, at most the capacity. */
  lemma SixteenDoubled(rows: nat, capacity: nat, j: nat)
    requires rows >= 1 && capacity >= 16
    requires 16 * Doubled(j) >= rows && (j > 0 ==> 16 * Doubled(j - 1) < rows)
    ensures LengthAfter(rows, capacity) == if 16 * Doubled(j) > capacity then capacity else 16 * Doubled(j)
  {
    var i := LengthIs(rows, capacity);
    if i < j { DoublesTo(i, j - 1); }
    if j < i { DoublesTo(j, i - 1); }
  }

  lemma {:induction false} DoublesTo(i: nat, j: nat)
    requires i <= j
    ensures Doubled(i) <= Doubled(j)
  {
    if i < j { DoubledGrows(i, j); }
  }

  /** A level holds the least number of items that is at least 8 and its share of `k`. */
  lemma LevelIsLeast(x: real, n: nat)
    requires x >= 0.0
    ensures LevelItems(x) <= n <==> 8 <= n && x <= n as real
  {
    assert x.Floor as real <= x < (x.Floor + 1) as real;
  }

  /** 61 levels, the first of all of `k` and each next of two thirds; a larger `k` counts as 26602. */
  lemma CapacityInNumbers(k: nat)
    ensures LevelsTotal(CappedK(k), KLL_MAX_LEVELS) == LevelsTotal(if k > 26602 then 26602 else k, 61)
    ensures LevelsTotal(k, 1) == if k > 8 then k else 8
    ensures forall i: nat :: Scale(i + 1) * 3.0 == Scale(i) * 2.0
  {
    assert Scale(0) == 1.0 && Share(k, 1.0) == k as real;
    assert LevelsTotal(k, 1) == LevelsTotal(k, 0) + LevelItems(Share(k, Scale(0)));
  }

  lemma CapacityInRange(k: nat)
    ensures INITIAL_BUFFER_ITEMS <= LevelsTotal(CappedK(k), KLL_MAX_LEVELS) <= U64_MAX
  {
    var c := CappedK(k);
    CapacityBounds(c, KLL_MAX_LEVELS);
    AtMostWhole(c, 1.0 - Scale(KLL_MAX_LEVELS));
  }

  lemma AtMostWhole(k: nat, scale: real)
    requires 0.0 <= scale <= 1.0
    ensures Share(k, scale) <= k as real
  {
    Times(k as real, scale, 1.0);
  }

  /** For every `k` and number of rows, the items charged are the growing array's; a state folds at least one row. */
  method KllBufferItems(k: nat, rows: Option<nat>) returns (items: nat)
    ensures rows.None? ==> items == LevelsTotal(CappedK(k), KLL_MAX_LEVELS)
    ensures rows.Some? ==>
      items == LengthAfter(if rows.value == 0 then 1 else rows.value, LevelsTotal(CappedK(k), KLL_MAX_LEVELS))
  {
    var capacity := KllCapacityItems(k);
    if rows.None? { return capacity; }
    CapacityInRange(k);
    ClosedFormIsGrowth(if rows.value == 0 then 1 else rows.value, capacity);
    items := BufferItems(rows.value, capacity);
  }
}
