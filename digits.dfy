/** Decimal numerals as JavaScript's `parseInt(s, 10)`, `Number.prototype.toString()`
    and `String.prototype.padStart` treat them, on unbounded naturals. */
module Digits {

  predicate IsDigit(c: char) {
    '0' <= c <= '9'
  }

  predicate AllDigits(s: string) {
    forall k :: 0 <= k < |s| ==> IsDigit(s[k])
  }

  function DigitValue(c: char): (d: nat)
    requires IsDigit(c)
    ensures d < 10
  {
    (c as int) - ('0' as int)
  }

  function DigitChar(d: nat): (c: char)
    requires d < 10
    ensures IsDigit(c) && DigitValue(c) == d
    ensures c == '0' <==> d == 0
  {
    (('0' as int) + d) as char
  }

  /** The number a string of decimal digits denotes (`parseInt(s, 10)` on such a string). */
  function Value(s: string): nat
    requires AllDigits(s)
  {
    if s == [] then 0 else 10 * Value(s[..|s| - 1]) + DigitValue(s[|s| - 1])
  }

  /** `n.toString()`: the decimal numeral of n, without leading zeros. */
  function Show(n: nat): (s: string)
    ensures |s| > 0
  {
    if n < 10 then [DigitChar(n)] else Show(n / 10) + [DigitChar(n % 10)]
  }

  /** The numeral is made of digits and starts with '0' only when n is zero. */
  lemma {:induction false} ShowIsNumeral(n: nat)
    ensures AllDigits(Show(n))
    ensures Show(n)[0] == '0' <==> n == 0
  {
    if n >= 10 {
      ShowIsNumeral(n / 10);
      assert Show(n)[0] == Show(n / 10)[0];
    }
  }

  /** Reading back a numeral gives the number it was made from. */
  lemma {:induction false} ValueOfShow(n: nat)
    ensures AllDigits(Show(n)) && Value(Show(n)) == n
  {
    ShowIsNumeral(n);
    if n >= 10 {
      var prefix := Show(n / 10);
      ValueOfShow(n / 10);
      assert (prefix + [DigitChar(n % 10)])[..|prefix|] == prefix;
    }
  }

  /** A numeral without leading zeros is the numeral of its value. */
  lemma {:induction false} ShowOfValue(s: string)
    requires AllDigits(s) && |s| > 0 && (s[0] == '0' ==> |s| == 1)
    ensures Show(Value(s)) == s
  {
    if |s| > 1 {
      var front := s[..|s| - 1];
      assert front[0] == s[0];
      ShowOfValue(front);
      assert Value(front) > 0 by {
        PositiveValue(front);
      }
      DivModTen(Value(front), DigitValue(s[|s| - 1]));
      assert s == front + [s[|s| - 1]];
    }
  }

  /** Dividing `10 * a + d` by ten gives a, remainder d. */
  lemma DivModTen(a: nat, d: nat)
    requires d < 10
    ensures (10 * a + d) / 10 == a && (10 * a + d) % 10 == d
  {
  }

  /** A numeral whose first digit is not zero denotes a positive number. */
  lemma {:induction false} PositiveValue(s: string)
    requires AllDigits(s) && |s| > 0 && s[0] != '0'
    ensures Value(s) > 0
  {
    if |s| > 1 {
      var front := s[..|s| - 1];
      assert front[0] == s[0];
      PositiveValue(front);
    }
  }

  function Repeat(c: char, n: nat): (r: string)
    ensures |r| == n && forall k :: 0 <= k < n ==> r[k] == c
  {
    seq(n, _ => c)
  }

  /** `s.padStart(width, fill)` with a one-character fill: s itself when it is
      at least `width` long, otherwise s behind enough copies of fill to reach `width`. */
  function PadStart(s: string, width: nat, fill: char): (r: string)
    ensures |r| == if |s| >= width then |s| else width
  {
    if |s| >= width then s else Repeat(fill, width - |s|) + s
  }

  /** The padded string ends with s and everything before it is the fill. */
  lemma PadStartContents(s: string, width: nat, fill: char)
    ensures var r := PadStart(s, width, fill);
      && r[|r| - |s|..] == s
      && forall k :: 0 <= k < |r| - |s| ==> r[k] == fill
  {
  }

  /** Leading zeros do not change the value of a numeral. */
  lemma {:induction false} ValueIgnoresLeadingZeros(z: nat, s: string)
    requires AllDigits(s)
    ensures AllDigits(Repeat('0', z) + s)
    ensures Value(Repeat('0', z) + s) == Value(s)
  {
    var zeros := Repeat('0', z);
    if s == [] {
      assert zeros + s == zeros;
      ZerosAreZero(z);
    } else {
      var front := s[..|s| - 1];
      ValueIgnoresLeadingZeros(z, front);
      assert (zeros + s)[..|zeros + s| - 1] == zeros + front;
    }
  }

  lemma {:induction false} ZerosAreZero(z: nat)
    ensures AllDigits(Repeat('0', z)) && Value(Repeat('0', z)) == 0
  {
    if z > 0 {
      ZerosAreZero(z - 1);
      assert Repeat('0', z)[..z - 1] == Repeat('0', z - 1);
    }
  }
}
