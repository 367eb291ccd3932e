/**
  The rounding of requests in buddyMemoryManager.c: IS_POWER_OF_2, and the shift cascade of align.
  Unsigned words are naturals; the bitwise operators are defined on their binary digits.
 */
module BuddyRounding {

  function Pow2(n: nat): (p: nat)
    ensures p >= 1
  {
    if n == 0 then 1 else 2 * Pow2(n - 1)
  }

  function Or(a: nat, b: nat): nat {
    if a == 0 && b == 0 then 0
    else 2 * Or(a / 2, b / 2) + (if a % 2 == 1 || b % 2 == 1 then 1 else 0)
  }

  function And(a: nat, b: nat): nat {
    if a == 0 || b == 0 then 0
    else 2 * And(a / 2, b / 2) + (if a % 2 == 1 && b % 2 == 1 then 1 else 0)
  }

  predicate IsPowerOf2(x: nat) { x == 0 || And(x, x - 1) == 0 }

  /** align, line by line: OR in the value shifted by 1, 2, 4, 8 and 16, then add one. */
  function Align(size: nat): nat {
    var s1 := Or(size, size / 0x2);
    var s2 := Or(s1, s1 / 0x4);
    var s4 := Or(s2, s2 / 0x10);
    var s8 := Or(s4, s4 / 0x100);
    var s16 := Or(s8, s8 / 0x1_0000);
    s16 + 1
  }

  // ---------- IS_POWER_OF_2 ----------

  lemma {:induction false} AndSelf(a: nat)
    ensures And(a, a) == a
  {
    if a > 0 { AndSelf(a / 2); }
  }

  lemma {:induction false} PowersPassTheTest(n: nat)
    ensures IsPowerOf2(Pow2(n))
  {
    if n > 0 { PowersPassTheTest(n - 1); }
  }

  lemma {:induction false} OnlyPowersPassTheTest(x: nat) returns (n: nat)
    requires x > 0 && IsPowerOf2(x)
    ensures x == Pow2(n)
  {
    if x == 1 {
      n := 0;
    } else {
      if x % 2 == 1 {
        AndSelf(x / 2);
        assert false;
      }
      assert (x - 1) / 2 == x / 2 - 1;
      var k := OnlyPowersPassTheTest(x / 2);
      n := k + 1;
    }
  }

  // ---------- The shift cascade ----------

  lemma {:induction false} OrZero(a: nat)
    ensures Or(a, 0) == a
  {
    if a > 0 { OrZero(a / 2); }
  }

  /** OR-ing a number of m bits into h * 2^m + low touches only the low bits. */
  lemma {:induction false} OrLowBits(h: nat, low: nat, z: nat, m: nat)
    requires low < Pow2(m) && z < Pow2(m)
    ensures Or(h * Pow2(m) + low, z) == h * Pow2(m) + Or(low, z)
    ensures z <= Or(low, z) < Pow2(m)
  {
    if m == 0 {
      OrZero(h);
    } else {
      var high := h * Pow2(m - 1);
      var x := h * Pow2(m) + low;
      assert x == 2 * high + low;
      assert x / 2 == high + low / 2 && x % 2 == low % 2;
      OrLowBits(h, low / 2, z / 2, m - 1);
    }
  }

  /** With T = 2^n and S = 2^s: y has n bits and its top s bits (all of them, if s > n) are set. */
  ghost predicate TopBitsSet(y: nat, T: nat, S: nat) {
    y < T && (T - 1 - y) * S < T
  }

  lemma {:induction false} Pow2Add(m: nat, s: nat)
    ensures Pow2(m + s) == Pow2(m) * Pow2(s)
  {
    if s > 0 { Pow2Add(m, s - 1); }
  }

  lemma {:induction false} Pow2Monotone(m: nat, n: nat)
    ensures m <= n ==> Pow2(m) <= Pow2(n)
    ensures m < n ==> Pow2(m) < Pow2(n)
    decreases n
  {
    if m < n { Pow2Monotone(m, n - 1); }
  }

  lemma TimesMonotone(a: nat, b: nat, s: nat)
    ensures a <= b ==> a * s <= b * s
    ensures a < b && s > 0 ==> a * s < b * s
  {
  }

  /** One line of the cascade doubles the number of leading ones. */
  lemma ShiftDoublesTheOnes(y: nat, n: nat, s: nat, T: nat, S: nat)
    requires TopBitsSet(y, T, S) && T == Pow2(n) && S == Pow2(s)
    ensures TopBitsSet(Or(y, y / S), T, S * S)
  {
    if n < s {
      Pow2Monotone(n, s);
      NoMoreBits(y, T, S);
    } else {
      Pow2Add(n - s, s);
      MoreBits(y, n - s, T, S);
    }
  }

  lemma NoMoreBits(y: nat, T: nat, S: nat)
    requires TopBitsSet(y, T, S) && T < S
    ensures TopBitsSet(Or(y, y / S), T, S * S)
  {
    AllBitsSet(y, T, S);
    assert y / S == 0 by { QuotientOfSmall(y, S); }
    OrZero(y);
  }

  lemma AllBitsSet(y: nat, T: nat, S: nat)
    requires TopBitsSet(y, T, S) && T < S
    ensures y == T - 1
    ensures TopBitsSet(y, T, S * S)
  {
    TimesMonotone(1, T - 1 - y, S);
  }

  lemma QuotientOfSmall(y: nat, S: nat)
    requires y < S
    ensures y / S == 0
  {
  }

  lemma MoreBits(y: nat, m: nat, T: nat, S: nat)
    requires TopBitsSet(y, T, S) && T == Pow2(m) * S && S > 0
    ensures TopBitsSet(Or(y, y / S), T, S * S)
  {
    var o, rest := OrOfOnes(y, m, T, S);
    GapSquared(o, rest, Pow2(m), T, S);
  }

  lemma OrOfOnes(y: nat, m: nat, T: nat, S: nat) returns (o: nat, rest: nat)
    requires TopBitsSet(y, T, S) && T == Pow2(m) * S && S > 0
    ensures o == Or(y, y / S) < T && T - 1 - o <= rest && rest * S < Pow2(m)
  {
    o := Or(y, y / S);
    var P := Pow2(m);
    var gap := T - 1 - y;
    TimesMonotone(P, gap, S);
    QuotientOfOnes(y, gap, P, S);
    SplitOnes(y, gap, P, S);
    OrLowBits(S - 1, P - 1 - gap, y / S, m);
    SplitOnes(T - 1, 0, P, S);
    rest := P - 1 - y / S;
  }

  lemma SplitOnes(y: nat, gap: nat, P: nat, S: nat)
    requires y + 1 + gap == P * S && gap < P && S > 0
    ensures y == (S - 1) * P + (P - 1 - gap)
  {
  }

  lemma GapSquared(o: nat, rest: nat, P: nat, T: nat, S: nat)
    requires o < T && T - 1 - o <= rest && rest * S < P && T == P * S && S > 0
    ensures TopBitsSet(o, T, S * S)
  {
    var gap := T - 1 - o;
    TimesMonotone(gap, rest, S);
    TimesMonotone(gap * S, P, S);
    assert gap * S * S == gap * (S * S);
  }

  lemma QuotientOfOnes(y: nat, gap: nat, P: nat, S: nat)
    requires S > 0 && P > 0 && y == P * S - 1 - gap && gap < P
    ensures y / S < P && (P - 1 - y / S) * S <= gap
  {
    var z := y / S;
    assert y == z * S + y % S;
    TimesMonotone(P, z, S);
    assert (P - 1 - z) * S == P * S - S - z * S;
  }

  lemma ShiftConstants()
    ensures Pow2(1) == 0x2 && Pow2(2) == 0x4 && Pow2(4) == 0x10
    ensures Pow2(8) == 0x100 && Pow2(16) == 0x1_0000
  {
    Pow2Add(4, 4);
    Pow2Add(8, 8);
  }

  /**
    align on n-bit numbers, 0 < n <= 31, is 2^n: the least power of two above the argument.
   */
  lemma AlignIsNextPower(x: nat, n: nat)
    requires 0 < n <= 31 && Pow2(n - 1) <= x < Pow2(n)
    ensures Align(x) == Pow2(n)
  {
    ShiftConstants();
    var T := Pow2(n);
    ShiftDoublesTheOnes(x, n, 1, T, 0x2);
    var s1 := Or(x, x / 0x2);
    ShiftDoublesTheOnes(s1, n, 2, T, 0x4);
    var s2 := Or(s1, s1 / 0x4);
    ShiftDoublesTheOnes(s2, n, 4, T, 0x10);
    var s4 := Or(s2, s2 / 0x10);
    ShiftDoublesTheOnes(s4, n, 8, T, 0x100);
    var s8 := Or(s4, s4 / 0x100);
    ShiftDoublesTheOnes(s8, n, 16, T, 0x1_0000);
    Pow2Monotone(n, 31);
    assert Pow2(31) == 0x8000_0000 by { Pow2Add(16, 15); Pow2Add(8, 7); }

  }

  /** The number of bits of a positive number. */
  function Bits(x: nat): (n: nat)
    requires x > 0
    ensures n > 0 && Pow2(n - 1) <= x < Pow2(n)
  {
    if x == 1 then 1 else Bits(x / 2) + 1
  }

  /** align, for every argument below 2^31: a power of two, above x, and none lies between. */
  lemma AlignIsLeastPowerAbove(x: nat)
    requires 0 < x < Pow2(31)
    ensures exists n: nat :: Align(x) == Pow2(n)
    ensures forall n: nat :: Pow2(n) > x <==> Pow2(n) >= Align(x)
    ensures x < Align(x) <= 2 * x
  {
    var b := Bits(x);
    if b > 31 { Pow2Monotone(31, b - 1); assert false; }
    AlignIsNextPower(x, b);
    forall n: nat ensures Pow2(n) > x <==> Pow2(n) >= Align(x) {
      Pow2Monotone(n, b - 1);
      Pow2Monotone(b, n);
    }
  }
}
