/**
  Numbers and text in Userland/string.c and Userland/lib.c.  A string that is read is the characters
  from the pointer on, with a NUL among them; a buffer that is written is an array.
 */
module UserString {
  import opened Numerals

  // ---------- Reversing ----------

  function Reverse(s: string): (r: string)
    ensures |r| == |s|
  {
    if s == [] then [] else [s[|s| - 1]] + Reverse(s[..|s| - 1])
  }

  lemma {:induction false} ReverseAt(s: string, k: nat)
    requires k < |s|
    ensures Reverse(s)[k] == s[|s| - 1 - k]
  {
    if k > 0 { ReverseAt(s[..|s| - 1], k - 1); }
  }

  lemma ReverseSnoc(s: string, c: char)
    ensures Reverse(s + [c]) == [c] + Reverse(s)
  {
    assert (s + [c])[..|s|] == s;
  }

  /** The loop that swaps from both ends of buffer[from..to] inwards. */
  method ReverseInPlace(buffer: array<char>, from: nat, to: nat)
    requires from < to <= buffer.Length
    modifies buffer
    ensures buffer[from..to] == Reverse(old(buffer[from..to]))
    ensures buffer[..from] == old(buffer[..from]) && buffer[to..] == old(buffer[to..])
  {
    var p1, p2 := from, to - 1;
    ghost var s := buffer[from..to];
    while p1 < p2
      invariant from <= p1 <= p2 + 1 <= to && p1 + p2 == from + to - 1
      invariant forall k | 0 <= k < buffer.Length && (k < from || to <= k || p1 <= k <= p2) ::
        buffer[k] == old(buffer[k])
      invariant forall k | from <= k < p1 :: buffer[k] == old(buffer[from + to - 1 - k])
      invariant forall k | p2 < k < to :: buffer[k] == old(buffer[from + to - 1 - k])
      decreases p2 - p1
    {
      buffer[p1], buffer[p2] := buffer[p2], buffer[p1];
      p1, p2 := p1 + 1, p2 - 1;
    }
    ghost var r := buffer[from..to];
    forall k | 0 <= k < |r| ensures r[k] == Reverse(s)[k] {
      assert r[k] == buffer[from + k] == old(buffer[to - 1 - k]) == s[|s| - 1 - k];
      ReverseAt(s, k);
    }
  }

  // ---------- Printing ----------

  /** What is still to be written after the digits in low, least significant first, of value v left. */
  function ToCome(base: nat, v: nat, more: bool): string
    requires IsBase(base)
  {
    if more then Digits(base, v) else ""
  }

  lemma LastDivision(v: nat, base: nat)
    requires base > 0
    ensures v / base == 0 <==> v < base
    ensures v < base ==> v % base == v
  {
    DivMod(v, base);
    if v < base { DivModUnique(0, base, v); }
  }

  lemma OneDigit(base: nat, v: nat, low: string)
    requires IsBase(base)
    ensures Digits(base, v) + Reverse(low)
         == ToCome(base, v / base, v / base != 0) + Reverse(low + [DigitChar(v % base)])
  {
    ReverseSnoc(low, DigitChar(v % base));
    LastDivision(v, base);
    var c := [DigitChar(v % base)];
    assert Digits(base, v) == ToCome(base, v / base, v / base != 0) + c;
    Joins(ToCome(base, v / base, v / base != 0), c, Reverse(low));
  }

  lemma Joins(a: string, b: string, c: string)
    ensures (a + b) + c == a + (b + c)
  {
  }

  /** One round of the do-while loop of uintToBase: a digit stored at p, and what is left of v. */
  method PutDigit(buffer: array<char>, from: nat, p: nat, v: nat, base: nat, ghost low: string)
    returns (left: nat, ghost low': string)
    requires IsBase(base) && from <= p < buffer.Length && buffer[from..p] == low
    modifies buffer
    ensures forall k | 0 <= k < buffer.Length && k != p :: buffer[k] == old(buffer[k])
    ensures buffer[from..p + 1] == low' && |low'| == |low| + 1
    ensures Digits(base, v) + Reverse(low) == ToCome(base, left, left != 0) + Reverse(low')
    ensures left == 0 || left < v
  {
    OneDigit(base, v, low);
    LastDivision(v, base);
    buffer[p] := DigitChar(v % base);
    low' := low + [buffer[p]];
    left := v / base;
    if left > 0 { DivLess(v, base); }
  }

  /** The do-while loop of uintToBase: the digits from the least significant on, up to p. */
  method LowDigits(value: nat, buffer: array<char>, from: nat, base: nat) returns (p: nat)
    requires IsBase(base) && from + |Digits(base, value)| < buffer.Length
    modifies buffer
    ensures p == from + |Digits(base, value)| && Reverse(buffer[from..p]) == Digits(base, value)
    ensures forall k | 0 <= k < buffer.Length && (k < from || p <= k) :: buffer[k] == old(buffer[k])
  {
    var v, more := value, true;
    ghost var low, all := "", Digits(base, value);
    p := from;
    while more
      invariant from <= p == from + |low| <= buffer.Length && buffer[from..p] == low
      invariant all == ToCome(base, v, more) + Reverse(low)
      invariant forall k | 0 <= k < buffer.Length && (k < from || p <= k) :: buffer[k] == old(buffer[k])
      decreases v, more
    {
      v, low := PutDigit(buffer, from, p, v, base, low);
      p := p + 1;
      more := v != 0;
    }
  }

  /** uintToBase: the canonical digits and a NUL, and nothing else of the buffer. */
  method UintToBase(value: nat, buffer: array<char>, from: nat, base: nat) returns (digits: nat)
    requires IsBase(base) && from + |Digits(base, value)| < buffer.Length
    modifies buffer
    ensures digits == |Digits(base, value)| && buffer[from..from + digits] == Digits(base, value)
    ensures buffer[from + digits] == '\0'
    ensures buffer[..from] == old(buffer[..from])
    ensures buffer[from + digits + 1..] == old(buffer[from + digits + 1..])
  {
    var p := LowDigits(value, buffer, from, base);
    buffer[p] := '\0';
    digits := p - from;
    ghost var after := buffer[p..];
    ReverseInPlace(buffer, from, p);
    assert buffer[p] == after[0] && buffer[p + 1..] == after[1..];
  }

  /** numToString: bufferSize is not looked at. */
  method NumToString(num: int, buffer: array<char>, bufferSize: int) returns (digits: nat)
    requires -INT_MAX <= num <= INT_MAX && |Decimal(num)| < buffer.Length
    modifies buffer
    ensures buffer[..|Decimal(num)|] == Decimal(num) && buffer[|Decimal(num)|] == '\0'
    ensures buffer[|Decimal(num)| + 1..] == old(buffer[|Decimal(num)| + 1..])
    ensures digits == |Digits(10, if num < 0 then -num else num)|
    ensures num < 0 ==> buffer[0] == '-'
  {
    var isNeg, from := 1, 0;
    if num < 0 {
      isNeg := -1;
      buffer[0] := '-';
      from := 1;
    }
    digits := UintToBase(num * isNeg, buffer, from, 10);
    assert buffer[..from + digits] == buffer[..from] + buffer[from..from + digits];
  }

  // ---------- stringToInt ----------

  /** The decimal digits a string starts with. */
  function DigitRun(t: string): (r: string)
    ensures r <= t
    ensures forall c | c in r :: '0' <= c <= '9'
    ensures |r| < |t| ==> !('0' <= t[|r|] <= '9')
  {
    if t == [] || !('0' <= t[0] <= '9') then []
    else
      assert t == [t[0]] + t[1..];
      [t[0]] + DigitRun(t[1..])
  }

  /** The string behind a minus sign, if it has one. */
  function Unsigned(t: string): string { if t != [] && t[0] == '-' then t[1..] else t }

  /** The number a string starts with. */
  function ParseInt(t: string): int {
    var sign: int := if t != [] && t[0] == '-' then -1 else 1;
    sign * Value(10, DigitRun(Unsigned(t)))
  }

  /** The digits fit an int, which the additions of stringToInt take for granted. */
  predicate FitsInt(t: string) {
    Value(10, DigitRun(Unsigned(t))) <= INT_MAX
  }

  /** The first k characters are digits. */
  predicate DigitsBefore(t: string, k: nat) {
    k <= |t| && forall j | 0 <= j < k :: '0' <= t[j] <= '9'
  }

  lemma {:induction false} RunIs(t: string, k: nat)
    requires DigitsBefore(t, k)
    requires k < |t| ==> !('0' <= t[k] <= '9')
    ensures DigitRun(t) == t[..k]
  {
    if k > 0 {
      RunIs(t[1..], k - 1);
      assert t[..k] == [t[0]] + t[1..][..k - 1];
    }
  }

  lemma {:induction false} RunStartsWith(t: string, k: nat)
    requires DigitsBefore(t, k)
    ensures k <= |DigitRun(t)| && DigitRun(t)[..k] == t[..k]
  {
    if k > 0 {
      RunStartsWith(t[1..], k - 1);
      assert t[..k] == [t[0]] + t[1..][..k - 1];
    }
  }

  /** The digits read so far are worth no more than all of them, so that an int holds them. */
  lemma RunPrefix(t: string, k: nat)
    requires DigitsBefore(t, k)
    ensures k <= |DigitRun(t)| && DigitRun(t)[..k] == t[..k]
    ensures Value(10, t[..k]) <= Value(10, DigitRun(t))
  {
    RunStartsWith(t, k);
    PrefixBelow(10, DigitRun(t), k);
  }

  lemma OneMore(t: string, k: nat)
    requires DigitsBefore(t, k) && k < |t| && '0' <= t[k] <= '9'
    ensures DigitsBefore(t, k + 1)
    ensures Value(10, t[..k + 1]) == Value(10, t[..k]) * 10 + (t[k] as int - '0' as int)
  {
    ValueSnoc(10, t[..k], t[k]);
    assert t[..k + 1] == t[..k] + [t[k]];
  }

  /** The loop of stringToInt, from position from on. */
  method ReadDigits(str: seq<char>, from: nat, ghost body: string) returns (result: int)
    requires '\0' in str && from <= Len(str) && body == str[from..Len(str)]
    requires Value(10, DigitRun(body)) <= INT_MAX
    ensures result == Value(10, DigitRun(body))
  {
    result := 0;
    var i := from;
    ghost var end, k := Len(str), 0;
    while str[i] != '\0'
      invariant i == from + k <= end && DigitsBefore(body, k)
      invariant result == Value(10, body[..k]) <= INT_MAX
      decreases end - i
    {
      if i == end { assert false; }
      assert str[i] == body[k];
      if str[i] >= '0' && str[i] <= '9' {
        OneMore(body, k);
        RunPrefix(body, k + 1);
        result := result * 10 + (str[i] as int - '0' as int);
        i := i + 1;
        k := k + 1;
      } else {
        break;
      }
    }
    RunIs(body, k);
  }

  method StringToInt(str: seq<char>) returns (result: int)
    requires '\0' in str && FitsInt(Text(str))
    ensures result == ParseInt(Text(str))
  {
    var sign, i := 1, 0;
    if str[0] == '-' {
      sign, i := -1, 1;
    }
    assert Unsigned(Text(str)) == str[i..Len(str)];
    result := ReadDigits(str, i, str[i..Len(str)]);
    result := result * sign;
  }

  lemma DigitsAreDecimal(n: nat)
    ensures DigitRun(Digits(10, n)) == Digits(10, n) && Digits(10, n)[0] != '-'
  {
    var s := Digits(10, n);
    DigitsAreCanonical(10, n);
    forall k | 0 <= k < |s| ensures '0' <= s[k] <= '9' {
      assert IsDigit(10, s[k]);
    }
    RunIs(s, |s|);
    assert s[..|s|] == s;
  }

  /** Reading back what was printed, for every int above INT_MIN. */
  lemma DecimalRoundTrip(num: int)
    requires -INT_MAX <= num <= INT_MAX
    ensures FitsInt(Decimal(num)) && ParseInt(Decimal(num)) == num
    ensures '\0' !in Decimal(num)
  {
    var n := if num < 0 then -num else num;
    DigitsAreDecimal(n);
    ValueOfDigits(10, n);
    NoNulInDigits(10, n);
    if num < 0 { assert Decimal(num)[1..] == Digits(10, n); }
  }

  /** Both directions, through one buffer. */
  method PrintAndRead(num: int, buffer: array<char>) returns (read: int)
    requires -INT_MAX <= num <= INT_MAX && |Decimal(num)| < buffer.Length
    modifies buffer
    ensures read == num
  {
    var _ := NumToString(num, buffer, buffer.Length);
    DecimalRoundTrip(num);
    TextIs(buffer[..], Decimal(num));
    read := StringToInt(buffer[..]);
  }

  // ---------- stringHexToNum ----------

  predicate IsHexChar(c: char) { '0' <= c <= '9' || 'A' <= c <= 'F' || 'a' <= c <= 'f' }

  predicate IsH(c: char) { c == 'h' || c == 'H' }

  predicate Prefixed(t: string) { |t| >= 2 && t[0] == '0' && (t[1] == 'x' || t[1] == 'X') }

  /** Hexadecimal digits up to the end or the first blank. */
  predicate HexUpToBlank(t: string) {
    t == [] || t[0] == ' ' || (IsHexChar(t[0]) && HexUpToBlank(t[1..]))
  }

  /** All hexadecimal digits in front of place e, which is the end or holds a blank. */
  predicate BlankAt(t: string, e: nat) {
    e <= |t| && (e < |t| ==> t[e] == ' ') && forall k | 0 <= k < e :: t[k] in "0123456789ABCDEFabcdef"
  }

  lemma HexCharIs(c: char)
    ensures IsHexChar(c) <==> c in "0123456789ABCDEFabcdef"
  {
    assert forall d: char | '0' <= d <= '9' :: d in "0123456789";
    assert forall d: char | 'A' <= d <= 'F' :: d in "ABCDEF";
    assert forall d: char | 'a' <= d <= 'f' :: d in "abcdef";
  }

  /** Behind 0x isHex accepts hexadecimal digits up to the end or to the first blank, whatever follows that. */
  lemma {:induction false} HexUpToBlankIff(t: string)
    ensures HexUpToBlank(t) <==> exists e: nat :: BlankAt(t, e)
  {
    if t == [] || t[0] == ' ' {
      assert BlankAt(t, 0);
    } else {
      HexCharIs(t[0]);
      HexUpToBlankIff(t[1..]);
      if e: nat :| BlankAt(t[1..], e) {
        assert IsHexChar(t[0]) ==> BlankAt(t, e + 1);
      }
      if e: nat :| BlankAt(t, e) {
        assert e > 0 && t[0] in "0123456789ABCDEFabcdef";
        assert BlankAt(t[1..], e - 1);
      }
    }
  }

  /** What isHex recognises; the first character is never looked at for the h. */
  predicate IsHexText(t: string) {
    if Prefixed(t) then HexUpToBlank(t[2..]) else exists k :: 1 <= k < |t| && IsH(t[k])
  }

  function HexWorth(c: char): (n: nat) { if IsHexChar(c) then CharValue(c) else 0 }

  /** What the hexadecimal digits are worth, small ones like capitals; everything else counts as 0. */
  lemma HexWorthIs(c: char)
    ensures HexWorth('0') == 0 && HexWorth('1') == 1 && HexWorth('2') == 2 && HexWorth('3') == 3 && HexWorth('4') == 4
    ensures HexWorth('5') == 5 && HexWorth('6') == 6 && HexWorth('7') == 7 && HexWorth('8') == 8 && HexWorth('9') == 9
    ensures HexWorth('A') == 10 && HexWorth('B') == 11 && HexWorth('C') == 12
    ensures HexWorth('D') == 13 && HexWorth('E') == 14 && HexWorth('F') == 15
    ensures HexWorth('a') == 10 && HexWorth('b') == 11 && HexWorth('c') == 12
    ensures HexWorth('d') == 13 && HexWorth('e') == 14 && HexWorth('f') == 15
    ensures c !in "0123456789ABCDEFabcdef" ==> HexWorth(c) == 0
  {
    assert forall d: char | '0' <= d <= '9' :: d in "0123456789";
    assert forall d: char | 'A' <= d <= 'F' :: d in "ABCDEF";
    assert forall d: char | 'a' <= d <= 'f' :: d in "abcdef";
  }

  function HexValue(s: string): (n: nat) {
    if s == [] then 0 else HexValue(s[..|s| - 1]) * 16 + HexWorth(s[|s| - 1])
  }

  /** Where the number ends: at the first h, or with the string. */
  function HexEnd(t: string): (e: nat)
    ensures e <= |t| && (e < |t| ==> IsH(t[e])) && forall k | 0 <= k < e :: !IsH(t[k])
  {
    if t == [] || IsH(t[0]) then 0 else
      var e := HexEnd(t[1..]);
      assert forall k | 0 < k < e + 1 :: t[k] == t[1..][k - 1];
      e + 1
  }

  /** An empty string is not to be asked about: the first comparison steps past its NUL. */
  method IsHex(number: seq<char>) returns (yes: bool)
    requires '\0' in number && Text(number) != []
    ensures yes <==> IsHexText(Text(number))
  {
    ghost var t := Text(number);
    if number[0] == '0' && (number[1] == 'x' || number[1] == 'X') {
      assert |t| >= 2;
      var i := 2;
      while number[i] != '\0' && number[i] != ' '
        invariant 2 <= i <= |t|
        invariant HexUpToBlank(t[2..]) <==> HexUpToBlank(t[i..])
        decreases |t| - i
      {
        assert t[i..][1..] == t[i + 1..] && number[i] == t[i];
        if !((number[i] >= '0' && number[i] <= '9') || (number[i] >= 'A' && number[i] <= 'F')
             || (number[i] >= 'a' && number[i] <= 'f')) {
          return false;
        }
        i := i + 1;
      }
      return true;
    }
    var i := 1;
    while number[i] != '\0' && number[i] != 'h' && number[i] != 'H'
      invariant 1 <= i <= |t|
      invariant forall k | 1 <= k < i :: !IsH(t[k])
      decreases |t| - i
    {
      i := i + 1;
    }
    return number[i] != '\0';
  }

  lemma {:induction false} FirstH(t: string, e: nat)
    requires e <= |t| && (e < |t| ==> IsH(t[e])) && forall k | 0 <= k < e :: !IsH(t[k])
    ensures HexEnd(t) == e
  {
    if e > 0 {
      assert !IsH(t[0]);
      FirstH(t[1..], e - 1);
    }
  }

  /** Where stringHexToNum takes the digits to start; the character there is not counted. */
  function HexStart(t: string): nat { if Prefixed(t) then 1 else 0 }

  /**
    stringHexToNum, 0 for what is no number.  A number has up to seven counted digits, so that neither the
    sum nor the power of sixteen leaves an int, and does not begin with the h that ends it.
   */
  method StringHexToNum(number: seq<char>) returns (toReturn: int)
    requires '\0' in number && Text(number) != []
    requires var t := Text(number); IsHexText(t) ==> !IsH(t[0]) && HexEnd(t) - HexStart(t) <= 8
    ensures var t := Text(number);
      && (!IsHexText(t) ==> toReturn == 0)
      && (IsHexText(t) ==> HexStart(t) < HexEnd(t) && toReturn == HexValue(t[HexStart(t) + 1..HexEnd(t)]))
  {
    ghost var t := Text(number);
    var yes := IsHex(number);
    if !yes { return 0; }
    var start, i := 0, 0;
    if number[start] == '0' && (number[start + 1] == 'X' || number[start + 1] == 'x') { start := start + 1; }
    while number[i] != '\0' && number[i] != 'h' && number[i] != 'H'
      invariant 0 <= i <= |t| && start == HexStart(t)
      invariant forall k | 0 <= k < i :: !IsH(t[k])
      decreases |t| - i
    {
      i := i + 1;
    }
    FirstH(t, i);
    assert number[start + 1..i] == t[start + 1..i];
    toReturn := SumDigits(number, start, i - 1, t[start + 1..i]);
  }

  lemma Regroup(a: nat, w: nat, base: nat)
    ensures (a * 16 + w) * base == a * (base * 16) + w * base
  {
  }

  lemma OneHexDigit(w: nat, base: nat, sum: nat)
    requires w <= 15 && sum < base
    ensures sum + w * base < base * 16
  {
    Monotone(w, 15, base);
  }

  /** The digits of s from k on have been summed up. */
  ghost predicate Summed(s: string, k: nat, base: nat, sum: nat) {
    k <= |s| && HexValue(s) == HexValue(s[..k]) * base + sum && sum < base == Power(16, |s| - k)
  }

  lemma SumOneMore(s: string, k: nat, base: nat, sum: nat)
    requires 0 < k <= |s| <= 7 && Summed(s, k, base, sum)
    ensures Summed(s, k - 1, base * 16, sum + HexWorth(s[k - 1]) * base)
    ensures base * 16 <= 0x1000_0000
  {
    var w := HexWorth(s[k - 1]);
    assert s[..k][..k - 1] == s[..k - 1];
    Regroup(HexValue(s[..k - 1]), w, base);
    OneHexDigit(w, base, sum);
    StaysAnInt(|s| - k);
  }

  /** The three ranges of characters that count. */
  method DigitWorth(c: char) returns (worth: nat)
    ensures worth == HexWorth(c)
  {
    worth := 0;
    if c >= '0' && c <= '9' {
      worth := c as int - 48;
    } else if c >= 'A' && c <= 'F' {
      worth := c as int - 55;
    } else if c >= 'a' && c <= 'f' {
      worth := c as int - 87;
    }
  }

  /** One round of the second loop of stringHexToNum; with seven digits neither result leaves an int. */
  method AddDigit(c: char, toReturn: nat, base: nat, ghost s: string, ghost k: nat)
    returns (sum: nat, nextBase: nat)
    requires 0 < k <= |s| <= 7 && c == s[k - 1] && Summed(s, k, base, toReturn)
    ensures Summed(s, k - 1, nextBase, sum) && nextBase <= 0x1000_0000
  {
    SumOneMore(s, k, base, toReturn);
    var worth := DigitWorth(c);
    sum, nextBase := toReturn + worth * base, base * 16;
  }

  /** The sum over the digits of s, which stand behind start, from the last to the first. */
  method SumDigits(number: seq<char>, start: nat, last: nat, ghost s: string) returns (toReturn: nat)
    requires start <= last < |number| && last - start <= 7 && s == number[start + 1..last + 1]
    ensures toReturn == HexValue(s)
  {
    var i := last;
    toReturn := 0;
    var base: nat := 1;
    ghost var k: nat := |s|;
    assert s[..k] == s;
    while start != i
      invariant i == start + k && k <= |s| && Summed(s, k, base, toReturn)
      decreases i
    {
      toReturn, base := AddDigit(number[i], toReturn, base, s, k);
      i := i - 1;
      k := k - 1;
    }
    assert s[..0] == "";
  }

  lemma StaysAnInt(k: nat)
    requires k < 7
    ensures Power(16, k) * 16 <= 0x1000_0000
  {
    assert Power(16, 3) == 4096;
    assert Power(16, 6) == 0x100_0000;
    GrowsWith(k, 6);
  }

  lemma {:induction false} GrowsWith(j: nat, k: nat)
    requires j <= k
    ensures Power(16, j) <= Power(16, k)
  {
    if j < k { GrowsWith(j, k - 1); }
  }

  lemma {:induction false} HexDigitsValue(s: string)
    requires AreDigits(16, s)
    ensures HexValue(s) == Value(16, s)
  {
    if s != [] {
      assert IsDigit(16, s[|s| - 1]);
      HexDigitsValue(s[..|s| - 1]);
    }
  }

  lemma {:induction false} DigitsAreHex(s: string)
    requires AreDigits(16, s)
    ensures HexUpToBlank(s)
    ensures forall k | 0 <= k < |s| :: !IsH(s[k])
  {
    forall k | 0 <= k < |s| ensures !IsH(s[k]) {
      assert IsDigit(16, s[k]);
    }
    if s != [] {
      assert IsDigit(16, s[0]);
      forall k | 0 <= k < |s[1..]| ensures IsDigit(16, s[1..][k]) {
        assert IsDigit(16, s[k + 1]);
      }
      DigitsAreHex(s[1..]);
    }
  }

  /** Reading back "0x" and the sixteen-base digits, for every number below 2^28. */
  lemma HexRoundTrip(n: nat)
    requires n < 0x1000_0000
    ensures var t := "0x" + Digits(16, n);
      && Prefixed(t) && IsHexText(t) && HexEnd(t) == |t| <= 9
      && HexValue(t[2..HexEnd(t)]) == n && '\0' !in t
  {
    var s := Digits(16, n);
    var t := "0x" + s;
    DigitsAreCanonical(16, n);
    NoNulInDigits(16, n);
    DigitsAreHex(s);
    HexDigitsValue(s);
    ValueOfDigits(16, n);
    assert t[2..] == s && t[2..|t|] == s;
    forall k | 0 <= k < |t| ensures !IsH(t[k]) {
      if k >= 2 { assert t[k] == s[k - 2]; }
    }
    FirstH(t, |t|);
    SevenDigits(n);
  }

  /** Digits with an h behind them are a number in the trailing form. */
  lemma TrailingForm(s: string)
    requires AreDigits(16, s) && s != []
    ensures var t := s + "h"; !Prefixed(t) && IsHexText(t) && !IsH(t[0]) && HexEnd(t) == |s| && '\0' !in t
  {
    var t := s + "h";
    DigitsAreHex(s);
    forall k | 0 <= k < |s| ensures !IsH(t[k]) && t[k] != 'x' && t[k] != 'X' && t[k] != '\0' {
      assert IsDigit(16, s[k]);
    }
    assert IsH(t[|s|]);
    FirstH(t, |s|);
  }

  /** What the digits but for the first are worth. */
  lemma FirstDigitWorth(s: string)
    requires AreDigits(16, s) && s != []
    ensures Value(16, s) == CharValue(s[0]) * Power(16, |s| - 1) + HexValue(s[1..])
  {
    assert s == s[..1] + s[1..] && s[..1] == [s[0]];
    ValueFromTheLeft(16, [s[0]], s[1..]);
    ValueSnoc(16, "", s[0]);
    HexDigitsValue(s[1..]);
  }

  /** The first digit of a number other than 0 counts. */
  lemma FirstDigitCounts(n: nat)
    ensures HexValue(Digits(16, n)[1..]) == n <==> n == 0
  {
    var s := Digits(16, n);
    DigitsAreCanonical(16, n);
    ValueOfDigits(16, n);
    FirstDigitWorth(s);
    assert IsDigit(16, s[0]);
    if n > 0 {
      GrowsWith(0, |s| - 1);
      NonZeroTimes(CharValue(s[0]), Power(16, |s| - 1));
    }
  }

  /** The trailing form loses its first digit: of the numbers themselves only 0 is read back. */
  lemma TrailingHReadsBackIff(n: nat)
    ensures var t := Digits(16, n) + "h";
      && IsHexText(t) && HexStart(t) == 0 && HexEnd(t) == |t| - 1
      && (HexValue(t[1..HexEnd(t)]) == n <==> n == 0)
  {
    var s := Digits(16, n);
    DigitsAreCanonical(16, n);
    TrailingForm(s);
    FirstDigitCounts(n);
    assert (s + "h")[1..|s|] == s[1..];
  }

  lemma NonZeroTimes(a: nat, b: nat)
    requires a > 0 && b > 0
    ensures a * b > 0
  {
  }

  /** With a zero in front every number is read back. */
  lemma LeadingZeroReadsBack(n: nat)
    ensures var t := "0" + Digits(16, n) + "h";
      IsHexText(t) && HexStart(t) == 0 && HexEnd(t) == |t| - 1 && HexValue(t[1..HexEnd(t)]) == n
  {
    var s := Digits(16, n);
    DigitsAreCanonical(16, n);
    ValueOfDigits(16, n);
    HexDigitsValue(s);
    assert IsDigit(16, DigitChar(0));
    TrailingForm("0" + s);
    assert ("0" + s + "h")[1..|s| + 1] == s;
  }

  lemma SevenDigits(n: nat)
    requires n < 0x1000_0000
    ensures |Digits(16, n)| <= 7
  {
    assert Power(16, 2) == 256;
    assert Power(16, 4) == 65536;
    assert Power(16, 6) == 0x100_0000;
    assert Power(16, 7) == 0x1000_0000;
    DigitsLength(16, n, 7);
  }
}
