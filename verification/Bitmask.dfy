/**
 Subsets of a list picked by the bits of a mask, as the loops over
 `1 .. 1 << n` in the cost and accuracy crates pick them.
 */
module Bitmask {

  /** `1 << n`. */
  function Pow2(n: nat): (r: nat)
    ensures r >= 1
  {
    if n == 0 then 1 else 2 * Pow2(n - 1)
  }

  /** `mask >> bit`. */
  function Shifted(mask: nat, bit: nat): nat {
    if bit == 0 then mask else Shifted(mask, bit - 1) / 2
  }

  /** `mask & (1 << bit) != 0`. */
  predicate HasBit(mask: nat, bit: nat) {
    Shifted(mask, bit) % 2 == 1
  }

  /** `mask.count_ones()`. */
  function CountOnes(mask: nat): nat {
    if mask == 0 then 0 else mask % 2 + CountOnes(mask / 2)
  }

  /** The items whose bits are set in `mask`, in list order. */
  ghost function Selected<T>(items: seq<T>, mask: nat): seq<T> {
    if items == [] then []
    else (if mask % 2 == 1 then [items[0]] else []) + Selected(items[1..], mask / 2)
  }

  /** Filtering the list by its bits one position at a time gives `Selected`. */
  method Select<T>(items: seq<T>, mask: nat) returns (picked: seq<T>)
    ensures picked == Selected(items, mask)
    ensures mask != 0 && mask < Pow2(|items|) ==> picked != []
  {
    picked := [];
    for bit := 0 to |items|
      invariant picked + Selected(items[bit..], Shifted(mask, bit)) == Selected(items, mask)
    {
      assert items[bit..][1..] == items[bit + 1..];
      if HasBit(mask, bit) {
        picked := picked + [items[bit]];
      }
    }
    SelectedNonEmpty(items, mask);
  }

  lemma {:induction false} SelectedNonEmpty<T>(items: seq<T>, mask: nat)
    ensures mask != 0 && mask < Pow2(|items|) ==> Selected(items, mask) != []
  {
    if items != [] && mask != 0 && mask < Pow2(|items|) && mask % 2 == 0 {
      SelectedNonEmpty(items[1..], mask / 2);
    }
  }

  lemma {:induction false} SelectedNone<T>(items: seq<T>)
    ensures Selected(items, 0) == []
  {
    if items != [] { SelectedNone(items[1..]); }
  }

  /** The mask of one bit selects one item. */
  lemma {:induction false} SelectedOne<T>(items: seq<T>, i: nat)
    requires i < |items|
    ensures Selected(items, Pow2(i)) == [items[i]] && Pow2(i) < Pow2(|items|)
  {
    if i == 0 {
      SelectedNone(items[1..]);
      assert Pow2(0) == 1;
    } else {
      SelectedOne(items[1..], i - 1);
      assert Pow2(i) % 2 == 0 && Pow2(i) / 2 == Pow2(i - 1);
    }
  }

  lemma QuotientIs(a: nat, b: nat, q: nat)
    requires b > 0
    requires 0 <= a - b * q < b
    ensures a / b == q
  {
    assert a == b * (a / b) + a % b;
    assert b * (a / b) - b * q == b * (a / b - q);
    SmallMultiple(b, a / b - q);
  }

  lemma SmallMultiple(b: int, d: int)
    requires -b < b * d < b
    ensures d == 0
  {
  }
}
