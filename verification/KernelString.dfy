/** numToString of Kernel/string.c: counts the digits first and fills the buffer from their end. */
module KernelString {
  import opened Numerals

  /** Counting by division gives the number of canonical digits. */
  method CountDigits(num: nat) returns (digitcount: nat)
    requires num > 0
    ensures digitcount == |Digits(10, num)|
  {
    var aux := num;
    digitcount := 0;
    while aux > 0
      invariant |Digits(10, num)| == digitcount + if aux > 0 then |Digits(10, aux)| else 0
      decreases aux
    {
      aux := aux / 10;
      digitcount := digitcount + 1;
    }
  }

  /** What is still to be filled in when num is left: the digits in front of those already there. */
  ghost predicate Filled(all: string, num: nat, i: nat) {
    i <= |all| && if num > 0 then all[..|all| - i] == Digits(10, num) else i == |all|
  }

  lemma FillOne(all: string, num: nat, i: nat)
    requires num > 0 && Filled(all, num, i)
    ensures i < |all| && all[|all| - 1 - i] == DigitChar(num % 10)
    ensures Filled(all, num / 10, i + 1)
  {
    var s := all[..|all| - i];
    if num >= 10 {
      assert s[..|s| - 1] == Digits(10, num / 10);
      assert all[..|all| - (i + 1)] == s[..|s| - 1];
    }
  }

  /** The digit loop, backwards from place startPos. */
  method FillDigits(num: nat, buffer: array<char>, from: nat, digitcount: nat)
    requires num > 0 && digitcount == |Digits(10, num)| && from + digitcount <= buffer.Length
    modifies buffer
    ensures buffer[from..from + digitcount] == Digits(10, num)
    ensures forall k | 0 <= k < buffer.Length && (k < from || from + digitcount <= k) :: buffer[k] == old(buffer[k])
  {
    var rest, i := num, 0;
    ghost var all := Digits(10, num);
    assert all[..|all|] == all;
    var startPos := from + digitcount - 1;
    while i < digitcount
      invariant 0 <= i <= digitcount && rest >= 0 && Filled(all, rest, i)
      invariant i < digitcount ==> rest > 0
      invariant forall k | digitcount - i <= k < digitcount :: buffer[from + k] == all[k]
      invariant forall k | 0 <= k < buffer.Length && (k < from || from + digitcount <= k) :: buffer[k] == old(buffer[k])
    {
      FillOne(all, rest, i);
      buffer[startPos - i] := ((rest % 10) + '0' as int) as char;
      rest := rest / 10;
      i := i + 1;
    }
  }

  lemma SignThenDigits(s: string, num: int, isNeg: nat, digitcount: nat)
    requires num != 0 && isNeg == (if num < 0 then 1 else 0) && isNeg + digitcount <= |s|
    requires s[isNeg..isNeg + digitcount] == Digits(10, if num < 0 then -num else num)
    requires num < 0 ==> s[0] == '-'
    ensures s[..isNeg + digitcount] == Decimal(num)
  {
    assert s[..isNeg + digitcount] == s[..isNeg] + s[isNeg..isNeg + digitcount];
  }

  predicate Written(num: int, bufferSize: int) {
    bufferSize >= 2 && |Decimal(num)| <= bufferSize
  }

  /**
    numToString of the kernel, told that the buffer has bufferSize places: the same characters as in
    userland, and their number, when they fit.  The guard does not count the NUL, so that a text of
    exactly bufferSize characters needs one place more than was announced.
   */
  method NumToString(num: int, buffer: array<char>, bufferSize: int) returns (r: nat)
    requires -INT_MAX <= num <= INT_MAX && bufferSize <= buffer.Length
    requires Written(num, bufferSize) ==> |Decimal(num)| < buffer.Length
    modifies buffer
    ensures r == if bufferSize >= 2 && |Decimal(num)| <= bufferSize then |Decimal(num)| else 0
    ensures Written(num, bufferSize) ==> buffer[..r] == Decimal(num) && buffer[r] == '\0'
    ensures Written(num, bufferSize) ==> buffer[r + 1..] == old(buffer[r + 1..])
    ensures !Written(num, bufferSize) ==> bufferSize < 2 || num > 0 ==> buffer[..] == old(buffer[..])
    ensures !Written(num, bufferSize) && bufferSize >= 2 && num < 0 ==> buffer[..] == old(buffer[..])[0 := '-']
  {
    if bufferSize < 2 { return 0; }
    if num == 0 {
      buffer[0] := '0';
      buffer[1] := '\0';
      assert DigitChar(0) == '0' && Decimal(num) == "0";
      return 1;
    }
    var isNeg, n := 0, num;
    if num < 0 {
      buffer[0] := '-';
      n := -num;
      isNeg := 1;
    }
    var digitcount := CountDigits(n);
    var startPos := digitcount + isNeg - 1;
    if startPos + 1 > bufferSize { return 0; }
    buffer[startPos + 1] := '\0';
    FillDigits(n, buffer, isNeg, digitcount);
    SignThenDigits(buffer[..], num, isNeg, digitcount);
    return startPos + 1;
  }
}
