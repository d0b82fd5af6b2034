/** Positional numerals as text: the reference meaning of what the two printers of Lab 4 write. */
module Numerals {
  import opened Naturals

  function DigitChar(d: nat): (c: char)
    requires d < 10
    ensures c == "0123456789"[d] && DigitValue(c) == d
  {
    '0' + d as char
  }

  function DigitValue(c: char): int {
    c as int - '0' as int
  }

  /** The canonical numeral of x in base b. */
  function Digits(x: nat, b: nat): string
    requires 2 <= b <= 10
  {
    if x < b then [DigitChar(x)] else Digits(x / b, b) + [DigitChar(x % b)]
  }

  /** Horner evaluation. */
  function Value(s: string, b: nat): int {
    if s == [] then 0 else Value(s[..|s| - 1], b) * b + DigitValue(s[|s| - 1])
  }

  lemma ValueSnoc(s: string, c: char, b: nat)
    ensures Value(s + [c], b) == Value(s, b) * b + DigitValue(c)
  {
    assert (s + [c])[..|s|] == s;
  }

  lemma {:induction false} DigitsValue(x: nat, b: nat)
    requires 2 <= b <= 10
    ensures Value(Digits(x, b), b) == x
    decreases x
  {
    hide Value, DigitChar, DigitValue;
    if x < b {
      OneDigit(x, b);
    } else {
      var y, d := x / b, x % b;
      DigitsValue(y, b);
      DivMod(x, b);
      assert Digits(x, b) == Digits(y, b) + [DigitChar(d)];
      NextDigit(Digits(y, b), y, d, b);
    }
  }

  lemma NextDigit(s: string, y: nat, d: nat, b: nat)
    requires Value(s, b) == y && d < 10
    ensures Value(s + [DigitChar(d)], b) == y * b + d
  {
    hide Value, DigitChar, DigitValue;
    ValueSnoc(s, DigitChar(d), b);
  }

  lemma OneDigit(x: nat, b: nat)
    requires x < 10
    ensures Value([DigitChar(x)], b) == x
  {
    ValueSnoc([], DigitChar(x), b);
    assert [] + [DigitChar(x)] == [DigitChar(x)];
  }

  lemma DivMod(x: nat, b: nat)
    requires b > 0
    ensures x / b * b + x % b == x
  {
  }

  lemma {:induction false} DigitsLead(x: nat, b: nat)
    requires 2 <= b <= 10
    ensures Digits(x, b) != [] && Digits(x, b)[0] != '-' && (x > 0 ==> Digits(x, b)[0] != '0')
    decreases x
  {
    if x >= b {
      DigitsLead(x / b, b);
    }
  }

  // ----- fixed width binary

  /** x after i integer divisions by b. */
  function Shifted(x: nat, b: nat, i: nat): nat
    requires 2 <= b <= 10
    decreases i
  {
    if i == 0 then x else Shifted(x / b, b, i - 1)
  }

  /** The digit with the weight b^i stands at place i from the right. */
  lemma {:induction false} DigitsAt(x: nat, b: nat, i: nat)
    requires 2 <= b <= 10 && i < |Digits(x, b)|
    ensures Digits(x, b)[|Digits(x, b)| - 1 - i] == "0123456789"[Shifted(x, b, i) % b]
    decreases i
  {
    if x >= b {
      var y, d := x / b, x % b;
      assert Digits(x, b) == Digits(y, b) + [DigitChar(d)];
      assert i > 0 ==> Shifted(x, b, i) == Shifted(y, b, i - 1);
      if i > 0 {
        DigitsAt(y, b, i - 1);
      }
    } else {
      SmallModulo(x, b);
    }
  }

  lemma SmallModulo(x: nat, b: nat)
    requires x < b
    ensures x % b == x
  {
  }

  lemma {:induction false} BitsAt(x: nat, n: nat, i: nat)
    requires i < n
    ensures Bits(x, n)[n - 1 - i] == "01"[Shifted(x, 2, i) % 2]
    decreases n
  {
    assert Bits(x, n) == Bits(x / 2, n - 1) + [DigitChar(x % 2)];
    if i > 0 {
      BitsAt(x / 2, n - 1, i - 1);
    }
  }

  /** The n lowest binary digits of x, highest first. */
  function Bits(x: nat, n: nat): (s: string)
    ensures |s| == n
  {
    if n == 0 then [] else Bits(x / 2, n - 1) + [DigitChar(x % 2)]
  }

  /** The same digits complemented. */
  function FlippedBits(x: nat, n: nat): (s: string)
    ensures |s| == n
  {
    if n == 0 then [] else FlippedBits(x / 2, n - 1) + [DigitChar(1 - x % 2)]
  }

  lemma {:induction false} FlippedIsComplement(x: nat, n: nat)
    requires x < Pow2(n)
    ensures FlippedBits(x, n) == Bits(Pow2(n) - 1 - x, n)
    decreases n
  {
    if n > 0 {
      var y := Pow2(n) - 1 - x;
      assert y / 2 == Pow2(n - 1) - 1 - x / 2 && y % 2 == 1 - x % 2;
      FlippedIsComplement(x / 2, n - 1);
    }
  }

  lemma {:induction false} BitsValue(x: nat, n: nat)
    requires x < Pow2(n)
    ensures Value(Bits(x, n), 2) == x
    decreases n
  {
    if n > 0 {
      BitsValue(x / 2, n - 1);
      ValueSnoc(Bits(x / 2, n - 1), DigitChar(x % 2), 2);
    }
  }

  /** The upper half of the numbers of n bits starts with a one. */
  lemma {:induction false} BitsLead(x: nat, n: nat)
    requires n > 0 && Pow2(n - 1) <= x < Pow2(n)
    ensures Bits(x, n)[0] == '1'
    decreases n
  {
    if n > 1 {
      BitsLead(x / 2, n - 1);
    }
  }

  /** The text without its leading zeros. */
  function Strip(s: string): string {
    if s != [] && s[0] == '0' then Strip(s[1..]) else s
  }

  lemma {:induction false} StripSnoc(s: string, c: char)
    ensures Strip(s + [c]) == if Strip(s) == [] then Strip([c]) else Strip(s) + [c]
    decreases |s|
  {
    if s == [] {
      assert s + [c] == [c];
    } else if s[0] == '0' {
      assert (s + [c])[1..] == s[1..] + [c];
      StripSnoc(s[1..], c);
    }
  }

  /** Without leading zeros, fixed width binary is the canonical numeral. */
  lemma {:induction false} StripBits(x: nat, n: nat)
    requires x < Pow2(n)
    ensures Strip(Bits(x, n)) == if x == 0 then [] else Digits(x, 2)
    decreases n
  {
    if n > 0 {
      StripBits(x / 2, n - 1);
      StripSnoc(Bits(x / 2, n - 1), DigitChar(x % 2));
    }
  }
}
