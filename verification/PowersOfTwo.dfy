/** `get_next_power_of_2`: rounding up by smearing the highest bit over all lower ones. */
module PowersOfTwo {
  import opened Bytes
  import opened Division

  function Pow2(n: nat): (p: nat)
    ensures p > 0
  {
    if n == 0 then 1 else 2 * Pow2(n - 1)
  }

  ghost predicate IsPow2(n: nat) {
    exists k: nat :: n == Pow2(k)
  }

  /** Bitwise or. */
  function Or(a: nat, b: nat): nat {
    if a == 0 then b
    else if b == 0 then a
    else (if a % 2 == 1 || b % 2 == 1 then 1 else 0) + 2 * Or(a / 2, b / 2)
  }

  /** One line of the function: `num |= num >> t`. */
  function Smear(n: nat, t: nat): nat {
    DivideBounds(n, Pow2(t));
    Or(n, n / Pow2(t))
  }

  /** The function itself, with the wrap-around of its first and last lines. */
  function NextPowerOf2(n: nat): nat
    requires n <= UINT_MAX
  {
    U32(Smear(Smear(Smear(Smear(Smear(U32(n - 1), 1), 2), 4), 8), 16) + 1)
  }

  lemma {:induction false} Pow2Adds(a: nat, b: nat)
    ensures Pow2(a + b) == Pow2(a) * Pow2(b)
  {
    if a > 0 {
      Pow2Adds(a - 1, b);
      ProductTimes(2, Pow2(a - 1), Pow2(b));
    }
  }

  lemma {:induction false} PowerDoubles(n: nat)
    ensures Pow2(n + 1) == 2 * Pow2(n)
  {
  }

  lemma {:induction false} Pow2Grows(a: nat, b: nat)
    requires a <= b
    ensures Pow2(a) <= Pow2(b)
    ensures a < b ==> 2 * Pow2(a) <= Pow2(b)
    decreases b
  {
    if a < b {
      Pow2Grows(a, b - 1);
    }
  }

  lemma {:induction false} OrBounds(a: nat, b: nat, n: nat)
    requires a < Pow2(n) && b < Pow2(n)
    ensures a <= Or(a, b) && b <= Or(a, b) < Pow2(n)
    decreases n
  {
    if a != 0 && b != 0 {
      OrBounds(a / 2, b / 2, n - 1);
    }
  }

  /** High bits that only the first number has pass through. */
  lemma {:induction false} OrKeepsHighBits(high: nat, n: nat, a: nat, b: nat)
    requires a < Pow2(n) && b < Pow2(n)
    ensures Or(high * Pow2(n) + a, b) == high * Pow2(n) + Or(a, b)
    decreases n
  {
    hide Pow2, Or;
    if n == 0 {
      PowerOfZero();
      OrOfZeros(high);
    } else {
      PowerDoubles(n - 1);
      ProductTimes(2, high, Pow2(n - 1));
      OrKeepsHighBits(high, n - 1, a / 2, b / 2);
      OrDoubles(high * Pow2(n - 1), a, b);
    }
  }

  lemma {:induction false} OrOfZeros(n: nat)
    ensures Or(n, 0) == n && Or(0, 0) == 0
  {
  }

  lemma {:induction false} OrDoubles(half: nat, a: nat, b: nat)
    requires Or(half + a / 2, b / 2) == half + Or(a / 2, b / 2)
    ensures Or(2 * half + a, b) == 2 * half + Or(a, b)
  {
    var x := 2 * half + a;
    assert x / 2 == half + a / 2 && x % 2 == a % 2;
    if x != 0 && b != 0 && a == 0 {
      assert Or(0, b / 2) == b / 2;
    }
  }

  /** The highest `t` of `n` bits are ones. */
  predicate TopOnes(x: nat, n: nat, t: nat)
    requires t <= n
  {
    Pow2(n) - Pow2(n - t) <= x < Pow2(n)
  }

  lemma {:induction false} DivisionAtLeast(x: nat, c: nat, d: nat)
    requires d > 0 && c * d <= x
    ensures c <= x / d
  {
    DivideBounds(x, d);
    DifferenceTimes(c, x / d, d);
    ProductIsFar(d, c - x / d);
  }

  lemma {:induction false} DivisionBelow(x: nat, c: nat, d: nat)
    requires d > 0 && x < c * d
    ensures x / d < c
  {
    DivideBounds(x, d);
    DifferenceTimes(x / d, c, d);
    ProductIsFar(d, x / d - c);
  }

  lemma {:induction false} QuotientRange(x: nat, top: nat, low: nat, d: nat, p: nat)
    requires d > 0 && low <= top && p <= low * d && top * d - p <= x < top * d
    ensures top - low <= x / d < top
  {
    DifferenceTimes(top, low, d);
    DivisionAtLeast(x, top - low, d);
    DivisionBelow(x, top, d);
  }

  /** Dividing a run of `t` ones by 2^t: the ones of the quotient, where `n = s + t`. */
  lemma {:induction false} ShiftedOnes(x: nat, s: nat, t: nat)
    requires TopOnes(x, s + t, t)
    ensures Pow2(s) - (if t <= s then Pow2(s - t) else 1) <= x / Pow2(t) < Pow2(s)
  {
    hide Pow2;
    Pow2Adds(s, t);
    if t <= s {
      Pow2Adds(s - t, t);
      Pow2Grows(s - t, s);
      QuotientRange(x, Pow2(s), Pow2(s - t), Pow2(t), Pow2(s));
    } else {
      Pow2Grows(s, t);
      QuotientRange(x, Pow2(s), 1, Pow2(t), Pow2(s));
    }
  }

  lemma {:induction false} OnesTimes(t: nat, s: nat)
    ensures (Pow2(t) - 1) * Pow2(s) == Pow2(t + s) - Pow2(s)
  {
    hide Pow2;
    Pow2Adds(t, s);
  }

  /** Below a run of ones the lower bits of both numbers are combined. */
  lemma {:induction false} OrBelowOnes(x: nat, s: nat, t: nat, q: nat)
    requires TopOnes(x, t + s, t) && q < Pow2(s)
    ensures Pow2(t + s) - Pow2(s) + q <= Or(x, q) < Pow2(t + s)
  {
    hide Pow2, Or;
    OnesTimes(t, s);
    var high := Pow2(t) - 1;
    var ones := high * Pow2(s);
    OrKeepsHighBits(high, s, x - ones, q);
    OrBounds(x - ones, q, s);
  }

  /** Smearing by the length of the run of ones doubles it, up to the width. */
  lemma {:induction false} SmearDoubles(x: nat, n: nat, t: nat)
    requires 0 < t <= n && TopOnes(x, n, t)
    ensures TopOnes(Smear(x, t), n, Min(2 * t, n))
  {
    hide Pow2, Or;
    var s := n - t;
    ShiftedOnes(x, s, t);
    OrBelowOnes(x, s, t, x / Pow2(t));
    PowerOfZero();
  }

  lemma {:induction false} PowerOfZero()
    ensures Pow2(0) == 1
  {
  }

  /** Position of the highest bit, plus one. */
  function Width(x: nat): (n: nat)
    ensures x < Pow2(n)
    ensures x > 0 ==> n > 0 && Pow2(n - 1) <= x
  {
    if x == 0 then 0 else Width(x / 2) + 1
  }

  lemma {:induction false} WidthBound(x: nat, n: nat)
    requires x < Pow2(n)
    ensures Width(x) <= n
    decreases n
  {
    if x > 0 {
      WidthBound(x / 2, n - 1);
    }
  }

  lemma {:induction false} SmearFills(x: nat)
    requires 0 < x <= UINT_MAX
    ensures Smear(Smear(Smear(Smear(Smear(x, 1), 2), 4), 8), 16) == Pow2(Width(x)) - 1
  {
    hide Smear, Pow2;
    var n := Width(x);
    assert Pow2(32) == 0x1_0000_0000 by { PowerOf32(); }
    WidthBound(x, 32);
    TopBit(x);
    SmearDoubles(x, n, 1);
    var x1 := Smear(x, 1);
    SmearMore(x1, n, 2);
    var x2 := Smear(x1, 2);
    SmearMore(x2, n, 4);
    var x3 := Smear(x2, 4);
    SmearMore(x3, n, 8);
    var x4 := Smear(x3, 8);
    SmearMore(x4, n, 16);
    AllOnes(Smear(x4, 16), n);
  }

  lemma {:induction false} PowerOf32()
    ensures Pow2(32) == 0x1_0000_0000 && Pow2(31) == 0x8000_0000
  {
    assert Pow2(2) == 4 && Pow2(1) == 2;
    hide Pow2;
    Pow2Adds(2, 2);
    Pow2Adds(4, 4);
    Pow2Adds(8, 8);
    Pow2Adds(16, 16);
    Pow2Adds(1, 31);
  }

  lemma {:induction false} TopBit(x: nat)
    requires x > 0
    ensures TopOnes(x, Width(x), 1)
  {
  }

  lemma {:induction false} OrZero(x: nat)
    ensures Or(x, 0) == x && Or(0, x) == x
  {
  }

  /** Once every bit is a one, smearing changes nothing. */
  lemma {:induction false} SmearMore(x: nat, n: nat, t: nat)
    requires 0 < t && 0 < n && TopOnes(x, n, Min(t, n))
    ensures TopOnes(Smear(x, t), n, Min(2 * t, n))
  {
    hide Pow2, Or;
    if t <= n {
      SmearDoubles(x, n, t);
    } else {
      Pow2Grows(n, t);
      DivisionBelow(x, 1, Pow2(t));
      OrZero(x);
    }
  }

  lemma {:induction false} AllOnes(x: nat, n: nat)
    requires n <= 32 && TopOnes(x, n, Min(32, n))
    ensures x == Pow2(n) - 1
  {
  }

  lemma {:induction false} NextPowerOf2Value(n: nat)
    requires 1 <= n <= 0x8000_0000
    ensures NextPowerOf2(n) == Pow2(Width(n - 1)) <= 0x8000_0000
  {
    hide Smear, Pow2, Width;
    PowerOf32();
    if n == 1 {
      SmearZero();
      PowerOfZero();
      WidthBound(0, 0);
    } else {
      SmearFills(n - 1);
      WidthBound(n - 1, 31);
      Pow2Grows(Width(n - 1), 31);
    }
  }

  /** The result is the least power of two that is not less than the argument. */
  lemma {:induction false} NextPowerOf2IsLeast(n: nat)
    requires 1 <= n <= 0x8000_0000
    ensures IsPow2(NextPowerOf2(n)) && n <= NextPowerOf2(n) <= 0x8000_0000
    ensures forall k: nat :: n <= Pow2(k) ==> NextPowerOf2(n) <= Pow2(k)
  {
    hide NextPowerOf2, Pow2, Width;
    NextPowerOf2Value(n);
    var w := Width(n - 1);
    forall k: nat | n <= Pow2(k)
      ensures Pow2(w) <= Pow2(k)
    {
      WidthBound(n - 1, k);
      Pow2Grows(w, k);
    }
  }

  lemma {:induction false} SmearZero()
    ensures Smear(Smear(Smear(Smear(Smear(0, 1), 2), 4), 8), 16) == 0
  {
    hide Pow2, Or;
    OrZero(0);
  }

  /** For 0 the wrap-around gives 0. */
  lemma {:induction false} NextPowerOf2OfZero()
    ensures NextPowerOf2(0) == 0
  {
    hide Smear, Pow2, Width;
    PowerOf32();
    SmearFills(UINT_MAX);
    WidthBound(UINT_MAX, 32);
    if Width(UINT_MAX) < 32 {
      Pow2Grows(Width(UINT_MAX), 31);
    }
  }

  /** Bitwise conjunction. */
  function And(a: nat, b: nat): nat {
    if a == 0 || b == 0 then 0
    else (if a % 2 == 1 && b % 2 == 1 then 1 else 0) + 2 * And(a / 2, b / 2)
  }

  /** The mask of a capacity that is a power of two brings an index of the next lap back to this one. */
  lemma {:induction false} MaskWraps(n: nat, k: nat)
    requires n < 2 * Pow2(k)
    ensures And(n, Pow2(k) - 1) == if n < Pow2(k) then n else n - Pow2(k)
  {
    if k > 0 && n > 0 {
      MaskWraps(n / 2, k - 1);
    }
  }
}
