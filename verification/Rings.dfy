/** Slots of a cyclic buffer: numbers less than a capacity apart never share one. */
module Rings {

  function Max(a: nat, b: nat): nat {
    if a < b then b else a
  }

  lemma NoMultipleBelow(d: int, cap: nat)
    requires cap > 0
    ensures !(0 < d * cap < cap)
  {
    if d <= 0 {
      assert d * cap <= 0;
    } else {
      assert d * cap >= cap;
    }
  }

  // Two numbers less than a capacity apart use different slots.
  lemma ModDiffers(i: nat, j: nat, cap: nat)
    requires 0 < cap && i < j < i + cap
    ensures i % cap != j % cap
  {
    var a, b := i / cap, j / cap;
    assert i == a * cap + i % cap && j == b * cap + j % cap;
    NoMultipleBelow(b - a, cap);
    assert (b - a) * cap == b * cap - a * cap;
  }

  // The remainder is the only one.
  lemma ModUnique(a: int, q: int, r: nat, cap: nat)
    requires r < cap && a == q * cap + r
    ensures a % cap == r
  {
    var d := q - a / cap;
    assert a == (a / cap) * cap + a % cap;
    assert d * cap == q * cap - (a / cap) * cap;
    NoMultipleBelow(d, cap);
    NoMultipleBelow(-d, cap);
    assert (-d) * cap == -(d * cap);
    if d != 0 {
      NonZeroMultiple(d, cap);
    }
  }

  lemma NonZeroMultiple(d: int, cap: nat)
    requires d != 0 && cap > 0
    ensures d * cap != 0
  {
  }

  // One capacity back is the same slot.
  lemma SlotOneCapacityBack(n: nat, cap: nat)
    requires cap > 0
    ensures n < cap ==> n % cap == n
    ensures n >= cap ==> (n - cap) % cap == n % cap
  {
    if n < cap {
      ModUnique(n, 0, n, cap);
    } else {
      assert (n / cap - 1) * cap == (n / cap) * cap - cap;
      ModUnique(n - cap, n / cap - 1, n % cap, cap);
    }
  }
}
