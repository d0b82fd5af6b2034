/** The two Translation functions of Lab 4: loops into fixed buffers. */
module Printers {
  import opened Naturals
  import opened Numerals

  const LONG_LIMIT: int := 0x8000_0000_0000_0000  // 2^63

  predicate IsLong(x: int) {
    -LONG_LIMIT <= x < LONG_LIMIT
  }

  /** Unary minus on a 64-bit long; it wraps for the smallest one. */
  function Negate(x: int): int
    requires IsLong(x)
  {
    if x == -LONG_LIMIT then x else -x
  }

  // ----- base 3

  /** What tr_tri writes; for the smallest long its digit loop does not run. */
  function TernaryText(x: int): string
    requires IsLong(x)
  {
    if x >= 0 then Digits(x, 3)
    else if x == -LONG_LIMIT then "-"
    else "-" + Digits(-x, 3)
  }

  function DecodeTernary(s: string): int {
    if s != [] && s[0] == '-' then -Value(s[1..], 3) else Value(s, 3)
  }

  /** The text decodes to the number exactly when the number is not the smallest long. */
  lemma TernaryRoundTrip(x: int)
    requires IsLong(x)
    ensures DecodeTernary(TernaryText(x)) == x <==> x != -LONG_LIMIT
  {
    var n := if x >= 0 then x else -x;
    DigitsValue(n, 3);
    DigitsLead(n, 3);
    if x < 0 {
      assert ("-" + Digits(n, 3))[1..] == Digits(n, 3);
      assert "-"[1..] == [];
    }
  }

  lemma TernaryInjective(x: int, y: int)
    requires IsLong(x) && IsLong(y) && TernaryText(x) == TernaryText(y)
    ensures x == y
  {
    TernaryRoundTrip(x);
    TernaryRoundTrip(y);
    if x < 0 && y < 0 {
      DigitsLead(-x, 3);
      DigitsLead(-y, 3);
    }
    if x >= 0 { DigitsLead(x, 3); }
    if y >= 0 { DigitsLead(y, 3); }
  }

  /** Zero is "0"; any other numeral has no leading zero. */
  lemma TernaryNoLeadingZero(x: int)
    requires IsLong(x) && x != -LONG_LIMIT
    ensures if x == 0 then TernaryText(x) == "0"
            else if x > 0 then TernaryText(x)[0] != '0'
            else |TernaryText(x)| > 1 && TernaryText(x)[0] == '-' && TernaryText(x)[1] != '0'
  {
    DigitsLead(if x >= 0 then x else -x, 3);
  }

  function Pow3(k: nat): nat {
    if k == 0 then 1 else 3 * Pow3(k - 1)
  }

  lemma TripleProduct(x: int, y: int)
    ensures 3 * (x * y) == (3 * x) * y
  {
  }

  lemma {:induction false} Pow3Add(a: nat, b: nat)
    ensures Pow3(a + b) == Pow3(a) * Pow3(b)
    decreases a
  {
    if a > 0 {
      Pow3Add(a - 1, b);
      TripleProduct(Pow3(a - 1), Pow3(b));
    }
  }

  /** A long has at most 40 ternary digits. */
  lemma LongBelowPow3()
    ensures LONG_LIMIT < Pow3(40)
  {
    assert Pow3(2) == 9;
    assert Pow3(4) == 81;
    assert Pow3(5) == 243;
    Pow3Add(5, 5);
    Pow3Add(10, 10);
    Pow3Add(20, 20);
  }

  /** The digits still to come in front of those already stored in reverse. */
  ghost function TernaryPending(x: nat, stored: seq<char>): string {
    (if x == 0 then [] else Digits(x, 3)) + Reversed(stored)
  }

  ghost function Reversed(s: seq<char>): (r: seq<char>)
    ensures |r| == |s|
    ensures forall i :: 0 <= i < |s| ==> r[i] == s[|s| - 1 - i]
  {
    seq(|s|, i requires 0 <= i < |s| => s[|s| - 1 - i])
  }

  lemma TernaryStep(x: nat, stored: seq<char>)
    requires x > 0
    ensures TernaryPending(x / 3, stored + [DigitChar(x % 3)]) == TernaryPending(x, stored)
  {
    assert Reversed(stored + [DigitChar(x % 3)]) == [DigitChar(x % 3)] + Reversed(stored);
    if x < 3 {
      assert [] + ([DigitChar(x)] + Reversed(stored)) == [DigitChar(x)] + Reversed(stored);
    }
  }

  /** The digit loop of tr_tri, lowest digit first: at most 40 writes into a buffer of 42. */
  method StoreTernary(n: int, temp: array<char>) returns (pos: nat)
    requires -LONG_LIMIT <= n <= LONG_LIMIT && n != 0 && temp.Length == 42
    modifies temp
    ensures pos <= 40 && Reversed(temp[..pos]) == if n > 0 then Digits(n, 3) else []
  {
    hide Digits;
    var x := n;
    pos := 0;
    LongBelowPow3();
    TernaryStart(n);
    while x > 0
      invariant pos <= 40 && (n > 0 ==> 0 <= x < Pow3(40 - pos)) && (n <= 0 ==> x == n && pos == 0)
      invariant n > 0 ==> TernaryPending(x, temp[..pos]) == Digits(n, 3)
      decreases x
    {
      TernaryStep(x, temp[..pos]);
      temp[pos] := DigitChar(x % 3);
      assert temp[..pos + 1] == temp[..pos] + [DigitChar(x % 3)];
      x, pos := x / 3, pos + 1;
    }
    assert n > 0 ==> TernaryPending(0, temp[..pos]) == Reversed(temp[..pos]);
  }

  lemma TernaryStart(n: int)
    ensures n > 0 ==> TernaryPending(n, []) == Digits(n, 3)
  {
  }

  /** tr_tri: the result is the text with its end mark and is filled exactly. */
  method TranslateTernary(x0: int) returns (result: array<char>)
    requires IsLong(x0)
    ensures fresh(result) && result[..] == TernaryText(x0) + ['\0']
  {
    if x0 == 0 {
      result := new char[2] ['0', '\0'];
      assert result[..] == "0" + ['\0'];
      return;
    }
    var isNegative := x0 < 0;
    var x := if isNegative then Negate(x0) else x0;
    var temp := new char[42];
    var pos := StoreTernary(x, temp);
    var resultSize := pos + if isNegative then 2 else 1;
    result := new char[resultSize];
    var j := 0;
    if isNegative {
      result[j] := '-';
      j := j + 1;
    }
    hide Digits, Reversed;
    CopyReversed(temp, pos, result, j);
    result[j + pos] := '\0';
    assert result[j..j + pos] == Reversed(temp[..pos]);
    SignFirst(result[..], if isNegative then "-" else "", Reversed(temp[..pos]));
  }

  /** The loop that copies the stored digits in reverse behind the sign. */
  method CopyReversed(temp: array<char>, pos: nat, result: array<char>, start: nat)
    requires pos <= temp.Length && start + pos < result.Length && temp != result
    modifies result
    ensures result[start..start + pos] == Reversed(temp[..pos])
    ensures forall q :: 0 <= q < start ==> result[q] == old(result[q])
  {
    var j, i := start, pos - 1;
    while i >= 0
      invariant -1 <= i < pos && j == start + (pos - 1 - i)
      invariant forall q :: 0 <= q < start ==> result[q] == old(result[q])
      invariant forall q :: start <= q < j ==> result[q] == temp[pos - 1 - (q - start)]
    {
      result[j] := temp[i];
      j, i := j + 1, i - 1;
    }
  }

  lemma SignFirst(r: seq<char>, sign: string, digits: string)
    requires |r| == |sign| + |digits| + 1 && |sign| <= 1 && (sign != [] ==> r[0] == sign[0])
    requires r[|sign|..|sign| + |digits|] == digits && r[|r| - 1] == '\0'
    ensures r == sign + digits + ['\0']
  {
    assert r == r[..|sign|] + r[|sign|..|sign| + |digits|] + r[|sign| + |digits|..];
  }

  // ----- base 2

  const BITS: nat := 64
  const WORD: int := 0x1_0000_0000_0000_0000  // 2^64

  /** What tr_bin writes: the numeral, or a minus sign and the 64-bit pattern of a negative number. */
  function BinaryText(x: int): string
    requires IsLong(x)
  {
    if x >= 0 then Digits(x, 2) else "-" + Bits(WORD + x, BITS)
  }

  function DecodeBinary(s: string): int {
    if s != [] && s[0] == '-' then Value(s[1..], 2) - WORD else Value(s, 2)
  }

  lemma LongInWord()
    ensures Pow2(63) == LONG_LIMIT && Pow2(64) == WORD
  {
    assert Pow2(8) == 0x100;
    assert Pow2(16) == 0x1_0000;
    assert Pow2(24) == 0x100_0000;
    assert Pow2(32) == 0x1_0000_0000;
    assert Pow2(40) == 0x100_0000_0000;
    assert Pow2(48) == 0x1_0000_0000_0000;
    assert Pow2(56) == 0x100_0000_0000_0000;
    assert Pow2(63) == LONG_LIMIT;
  }

  /** Every long is recovered, the negative ones from the pattern behind the sign. */
  lemma BinaryRoundTrip(x: int)
    requires IsLong(x)
    ensures DecodeBinary(BinaryText(x)) == x
  {
    LongInWord();
    if x >= 0 {
      DigitsValue(x, 2);
      DigitsLead(x, 2);
    } else {
      BitsValue(WORD + x, BITS);
      var bits := Bits(WORD + x, BITS);
      assert ("-" + bits)[1..] == bits;
    }
  }

  /** Zero is "0"; any other non-negative number starts with 1. */
  lemma BinaryNoLeadingZero(x: int)
    requires 0 <= x < LONG_LIMIT
    ensures if x == 0 then BinaryText(x) == "0" else BinaryText(x)[0] == '1'
  {
    DigitsLead(x, 2);
    if x > 0 {
      DigitsAt(x, 2, |Digits(x, 2)| - 1);
    }
  }

  /** The digits of tr_tri behind the sign, from the right, are those of the magnitude in base 3. */
  lemma TernaryDigits(x: int, i: nat)
    requires IsLong(x) && x != -LONG_LIMIT
    ensures var s, sign := TernaryText(x), if x < 0 then 1 else 0;
      i < |s| - sign ==> s[|s| - 1 - i] == "012"[Shifted(if x < 0 then -x else x, 3, i) % 3]
  {
    hide Digits, Shifted;
    var a := if x < 0 then -x else x;
    if i < |Digits(a, 3)| {
      DigitsAt(a, 3, i);
    }
  }

  /** The digits of tr_bin behind the sign, from the right, are those of the number modulo 2^64. */
  lemma BinaryDigits(x: int, i: nat)
    requires IsLong(x)
    ensures var s, sign := BinaryText(x), if x < 0 then 1 else 0;
      i < |s| - sign ==> s[|s| - 1 - i] == "01"[Shifted(if x < 0 then WORD + x else x, 2, i) % 2]
  {
    hide Digits, Bits, Shifted;
    if x < 0 {
      if i < BITS {
        BitsAt(WORD + x, BITS, i);
      }
    } else if i < |Digits(x, 2)| {
      DigitsAt(x, 2, i);
    }
  }

  /** Sign and magnitude is not what a negative number gets: -1 has 64 digits. */
  lemma NegativeIsPattern(x: int)
    requires -LONG_LIMIT <= x < 0
    ensures |BinaryText(x)| == 65 && BinaryText(x)[..2] == "-1"
  {
    LongInWord();
    BitsLead(WORD + x, BITS);
  }

  /** The n digits that the loop writes for what is left of x. */
  function LoopBits(x: nat, n: nat, isNegative: bool): string {
    if isNegative then FlippedBits(x, n) else Bits(x, n)
  }

  /** The loop of tr_bin that fills the buffer from its end. */
  method FillBits(n: nat, isNegative: bool, temp: array<char>)
    requires temp.Length == BITS
    modifies temp
    ensures temp[..] == LoopBits(n, BITS, isNegative)
  {
    var x := n;
    var i := BITS - 1;
    while i >= 0
      invariant -1 <= i < BITS
      invariant LoopBits(x, i + 1, isNegative) + temp[i + 1..] == LoopBits(n, BITS, isNegative)
      decreases i
    {
      ghost var rest := temp[i + 1..];
      temp[i] := DigitChar(if isNegative then 1 - x % 2 else x % 2);
      assert temp[i..] == [temp[i]] + rest;
      x := x / 2;
      i := i - 1;
    }
  }

  /** The scan for the first digit that is not zero. */
  method FirstDigit(temp: array<char>) returns (firstDigit: nat)
    requires temp.Length == BITS
    ensures firstDigit < BITS
    ensures if Strip(temp[..]) != [] then temp[firstDigit..] == Strip(temp[..]) else firstDigit == BITS - 1
  {
    firstDigit := 0;
    while firstDigit < BITS && temp[firstDigit] == '0'
      invariant firstDigit <= BITS && Strip(temp[firstDigit..]) == Strip(temp[..])
    {
      assert temp[firstDigit..][1..] == temp[firstDigit + 1..];
      firstDigit := firstDigit + 1;
    }
    if firstDigit == BITS {
      firstDigit := firstDigit - 1;
    }
  }

  lemma LoopMeaning(x: int)
    requires IsLong(x) && x != 0
    ensures var bits := LoopBits(if x < 0 then -(x + 1) else x, BITS, x < 0);
      BinaryText(x) == (if x < 0 then "-" else "") + Strip(bits) && Strip(bits) != []
  {
    LongInWord();
    if x < 0 {
      FlippedIsComplement(-(x + 1), BITS);
      BitsLead(WORD + x, BITS);
    } else {
      StripBits(x, BITS);
      DigitsLead(x, 2);
      assert "" + Digits(x, 2) == Digits(x, 2);
    }
  }

  /** tr_bin: the result is the text with its end mark and is filled exactly. */
  method TranslateBinary(x0: int) returns (result: array<char>)
    requires IsLong(x0)
    ensures fresh(result) && result[..] == BinaryText(x0) + ['\0']
  {
    if x0 == 0 {
      result := new char[2] ['0', '\0'];
      assert result[..] == "0" + ['\0'];
      return;
    }
    hide Strip, Digits, Bits, FlippedBits, BinaryText, LoopBits;
    var temp := new char[BITS];
    var isNegative := x0 < 0;
    var x := if isNegative then -(x0 + 1) else x0;
    LoopMeaning(x0);
    FillBits(x, isNegative, temp);
    var firstDigit := FirstDigit(temp);
    var resultSize := BITS - firstDigit + if isNegative then 2 else 1;
    result := new char[resultSize];
    var j := 0;
    if isNegative {
      result[j] := '-';
      j := j + 1;
    }
    CopyFrom(temp, firstDigit, result, j);
    result[j + BITS - firstDigit] := '\0';
    SignFirst(result[..], if isNegative then "-" else "", temp[firstDigit..]);
  }

  /** The loop that copies the digits behind the sign. */
  method CopyFrom(temp: array<char>, first: nat, result: array<char>, start: nat)
    requires first <= temp.Length && start + temp.Length - first < result.Length && temp != result
    modifies result
    ensures result[start..start + temp.Length - first] == temp[first..]
    ensures forall q :: 0 <= q < start ==> result[q] == old(result[q])
  {
    var j := start;
    for i := first to temp.Length
      invariant j == start + i - first
      invariant forall q :: 0 <= q < start ==> result[q] == old(result[q])
      invariant forall q :: start <= q < j ==> result[q] == temp[q - start + first]
    {
      result[j] := temp[i];
      j := j + 1;
    }
  }
}
