/** Positional notation, and strings as C keeps them: characters up to a NUL. */
module Numerals {

  predicate IsBase(base: nat) { 2 <= base <= 36 }

  /** The character of one digit, as line 212 of Userland/string.c computes it. */
  function DigitChar(r: nat): (c: char)
    requires r < 36
  {
    if r < 10 then (r + '0' as int) as char else (r + 'A' as int - 10) as char
  }

  /** The digits are 0 to 9 and the capitals from A on. */
  lemma DigitCharIs(r: nat)
    requires r < 36
    ensures DigitChar(r) == "0123456789ABCDEFGHIJKLMNOPQRSTUVWXYZ"[r]
  {
  }

  /** What a character is worth; small letters are worth as much as capitals. */
  function CharValue(c: char): (r: nat) {
    if '0' <= c <= '9' then c as int - '0' as int
    else if 'A' <= c <= 'Z' then c as int - 'A' as int + 10
    else if 'a' <= c <= 'z' then c as int - 'a' as int + 10
    else 0
  }

  /** The digits of n, most significant first. */
  function Digits(base: nat, n: nat): (s: string)
    requires IsBase(base)
    ensures |s| > 0
    decreases n
  {
    if n < base then [DigitChar(n)] else Digits(base, n / base) + [DigitChar(n % base)]
  }

  /** The number a string of digits stands for. */
  function Value(base: nat, s: string): (n: nat) {
    if s == [] then 0 else Value(base, s[..|s| - 1]) * base + CharValue(s[|s| - 1])
  }

  predicate IsDigit(base: nat, c: char) {
    exists r: nat :: r < base && r < 36 && c == DigitChar(r)
  }

  predicate AreDigits(base: nat, s: string) {
    forall k | 0 <= k < |s| :: IsDigit(base, s[k])
  }

  predicate Canonical(base: nat, s: string) {
    s != [] && AreDigits(base, s) && (|s| > 1 ==> s[0] != '0')
  }

  lemma DigitCharWorth(base: nat, c: char)
    requires IsBase(base) && IsDigit(base, c)
    ensures CharValue(c) < base && DigitChar(CharValue(c)) == c
  {
  }

  lemma Monotone(a: nat, b: nat, c: nat)
    ensures a <= b ==> a * c <= b * c
    ensures a < b ==> a * c + c <= b * c
  {
    if a < b {
      assert b * c == a * c + (b - a) * c;
      Times(b - a, c);
    }
  }

  lemma DivModUnique(q: nat, base: nat, r: nat)
    requires r < base
    ensures (q * base + r) / base == q && (q * base + r) % base == r
  {
    var n := q * base + r;
    assert n == (n / base) * base + n % base;
    Monotone(n / base, q, base);
    Monotone(q, n / base, base);
  }

  lemma DivLess(n: nat, base: nat)
    requires base >= 2 && n >= base
    ensures 0 < n / base < n
  {
  }

  lemma ValueSnoc(base: nat, s: string, c: char)
    ensures Value(base, s + [c]) == Value(base, s) * base + CharValue(c)
  {
    assert (s + [c])[..|s|] == s;
  }

  lemma DivMod(n: nat, base: nat)
    requires base > 0
    ensures n / base * base + n % base == n
  {
  }

  /** The value of the digits is the number. */
  lemma {:induction false} ValueOfDigits(base: nat, n: nat)
    requires IsBase(base)
    ensures Value(base, Digits(base, n)) == n
    decreases n
  {
    assert IsDigit(base, DigitChar(n % base));
    DigitCharWorth(base, DigitChar(n % base));
    if n < base {
      ValueSnoc(base, "", DigitChar(n));
    } else {
      DivLess(n, base);
      ValueOfDigits(base, n / base);
      ValueSnoc(base, Digits(base, n / base), DigitChar(n % base));
      DivMod(n, base);
    }
  }

  lemma {:induction false} DigitsAreCanonical(base: nat, n: nat)
    requires IsBase(base)
    ensures Canonical(base, Digits(base, n))
    ensures n > 0 ==> Digits(base, n)[0] != '0'
    decreases n
  {
    if n < base {
      assert IsDigit(base, DigitChar(n));
    } else {
      DivLess(n, base);
      DigitsAreCanonical(base, n / base);
      assert IsDigit(base, DigitChar(n % base));
    }
  }

  lemma {:induction false} CanonicalIsPositive(base: nat, s: string)
    requires IsBase(base) && s != [] && AreDigits(base, s) && s[0] != '0'
    ensures Value(base, s) > 0
    decreases |s|
  {
    var k := |s| - 1;
    if k == 0 {
      assert IsDigit(base, s[0]);
      DigitCharWorth(base, s[0]);
    } else {
      CanonicalIsPositive(base, s[..k]);
      Times(Value(base, s[..k]), base);
    }
  }

  lemma Times(a: nat, b: nat)
    requires a > 0
    ensures a * b >= b && (b > 0 ==> a * b >= a)
  {
  }

  /** A string of digits without a leading zero is the digits of its value, and of nothing else. */
  lemma {:induction false} CanonicalIsUnique(base: nat, s: string)
    requires IsBase(base) && Canonical(base, s)
    ensures Digits(base, Value(base, s)) == s
    decreases |s|
  {
    var k := |s| - 1;
    var r := CharValue(s[k]);
    assert IsDigit(base, s[k]);
    DigitCharWorth(base, s[k]);
    if k == 0 {
      assert s[..0] == "" && s == [s[0]];
      assert Value(base, s) == r;
    } else {
      var q := Value(base, s[..k]);
      assert Canonical(base, s[..k]);
      CanonicalIsPositive(base, s[..k]);
      Times(q, base);
      DivModUnique(q, base, r);
      CanonicalIsUnique(base, s[..k]);
      assert Digits(base, Value(base, s)) == s[..k] + [s[k]];
    }
  }

  /** Digits(base, n) is the one canonical notation of n. */
  lemma DigitsIff(base: nat, n: nat, s: string)
    requires IsBase(base)
    ensures s == Digits(base, n) <==> Canonical(base, s) && Value(base, s) == n
  {
    ValueOfDigits(base, n);
    DigitsAreCanonical(base, n);
    if Canonical(base, s) { CanonicalIsUnique(base, s); }
  }

  /** A digit more on the left of what is already there. */
  lemma {:induction false} ValueFromTheLeft(base: nat, s: string, t: string)
    ensures Value(base, s + t) == Value(base, s) * Power(base, |t|) + Value(base, t)
    decreases |t|
  {
    if t == [] {
      assert s + t == s;
    } else {
      var k := |t| - 1;
      ValueFromTheLeft(base, s, t[..k]);
      assert (s + t)[..|s| + k] == s + t[..k];
      Distribute(Value(base, s), Power(base, k), Value(base, t[..k]), base);
    }
  }

  function Power(base: nat, k: nat): (p: nat) {
    if k == 0 then 1 else Power(base, k - 1) * base
  }

  lemma Distribute(a: nat, p: nat, b: nat, base: nat)
    ensures (a * p + b) * base == a * (p * base) + b * base
  {
  }

  lemma {:induction false} DigitsLength(base: nat, n: nat, k: nat)
    requires IsBase(base) && n < Power(base, k)
    ensures n > 0 ==> |Digits(base, n)| <= k
    decreases k
  {
    if n >= base {
      DivBound(n, base, Power(base, k - 1));
      assert Power(base, 0) == 1;
      DigitsLength(base, n / base, k - 1);
    }
  }

  lemma DivBound(n: nat, base: nat, p: nat)
    requires base > 0 && n < p * base
    ensures n / base < p
  {
    DivMod(n, base);
    Monotone(p, n / base, base);
  }

  /** A number's prefix of digits is never above the number. */
  lemma {:induction false} PrefixBelow(base: nat, s: string, k: nat)
    requires k <= |s| && base > 0
    ensures Value(base, s[..k]) <= Value(base, s)
    decreases |s|
  {
    if k == |s| {
      assert s[..k] == s;
    } else {
      var front := s[..|s| - 1];
      PrefixBelow(base, front, k);
      assert front[..k] == s[..k];
      if Value(base, front) > 0 { Times(Value(base, front), base); }
    }
  }

  // ---------- Signed numbers ----------

  const INT_MAX: int := 0x7fff_ffff

  /** What both numToString functions are to write. */
  function Decimal(num: int): (s: string) {
    if num < 0 then "-" + Digits(10, -num) else Digits(10, num)
  }

  // ---------- C strings ----------

  /** Where the string that starts here ends. */
  function Len(s: seq<char>): (n: nat)
    requires '\0' in s
    ensures n < |s| && s[n] == '\0' && '\0' !in s[..n]
  {
    if s[0] == '\0' then 0
    else
      assert s == [s[0]] + s[1..];
      var n := Len(s[1..]);
      assert s[..n + 1] == [s[0]] + s[1..][..n];
      n + 1
  }

  function Text(s: seq<char>): (t: string)
    requires '\0' in s
    ensures '\0' !in t && t < s
  {
    s[..Len(s)]
  }

  lemma {:induction false} TextIs(s: seq<char>, t: string)
    requires '\0' !in t && t < s && s[|t|] == '\0'
    ensures '\0' in s && Text(s) == t
    decreases |t|
  {
    if t != [] {
      assert t[0] in t && s[0] == t[0];
      TextIs(s[1..], t[1..]);
      assert t == [t[0]] + t[1..];
    }
  }

  lemma NoNulInDigits(base: nat, n: nat)
    requires IsBase(base)
    ensures '\0' !in Digits(base, n)
  {
    DigitsAreCanonical(base, n);
    var s := Digits(base, n);
    forall k | 0 <= k < |s| ensures s[k] != '\0' {
      assert IsDigit(base, s[k]);
    }
  }
}
