/**
 * Decimal text of non-negative integers below 10^21, as JavaScript's
 * `Number.prototype.toString()` writes an integral number (from 10^21 on it switches to
 * exponent form), and `String.prototype.padStart` with a one-character filler.
 * `ParseNat` reads the text back; it is the partner that shows no information is lost.
 */
module Decimal {

  predicate IsDigit(c: char) {
    '0' <= c <= '9'
  }

  predicate AllDigits(s: string) {
    forall i :: 0 <= i < |s| ==> IsDigit(s[i])
  }

  function DigitValue(c: char): (d: nat)
    requires IsDigit(c)
    ensures d < 10
  {
    c as int - '0' as int
  }

  function DigitChar(d: nat): (c: char)
    requires d < 10
    ensures IsDigit(c) && DigitValue(c) == d
  {
    (d + '0' as int) as char
  }

  /** The shortest decimal numeral of `n`: digits only, never a leading zero except for 0 itself. */
  function NatToString(n: nat): (s: string)
    ensures |s| >= 1 && AllDigits(s)
    ensures s[0] == '0' <==> n == 0
    ensures |s| == 1 <==> n < 10
    decreases n
  {
    if n < 10 then [DigitChar(n)] else NatToString(n / 10) + [DigitChar(n % 10)]
  }

  /** The value of a numeral; leading zeros contribute nothing. */
  function ParseNat(s: string): nat
    requires AllDigits(s)
    decreases |s|
  {
    if s == [] then 0 else ParseNat(s[..|s| - 1]) * 10 + DigitValue(s[|s| - 1])
  }

  lemma {:induction false} ParseNatToString(n: nat)
    ensures ParseNat(NatToString(n)) == n
    decreases n
  {
    var s := NatToString(n);
    if n >= 10 {
      ParseNatToString(n / 10);
      assert s[..|s| - 1] == NatToString(n / 10);
    }
  }

  lemma NatToStringInjective(m: nat, n: nat)
    ensures NatToString(m) == NatToString(n) <==> m == n
  {
    ParseNatToString(m);
    ParseNatToString(n);
  }

  /** A leading '0' does not change the value of a numeral. */
  lemma {:induction false} ParseNatLeadingZero(s: string)
    requires AllDigits(s)
    ensures AllDigits("0" + s) && ParseNat("0" + s) == ParseNat(s)
    decreases |s|
  {
    var z := "0" + s;
    assert AllDigits(z) by {
      forall i | 0 <= i < |z| ensures IsDigit(z[i]) {
        if i > 0 { assert z[i] == s[i - 1]; }
      }
    }
    if s != [] {
      var init := s[..|s| - 1];
      ParseNatLeadingZero(init);
      assert z[..|z| - 1] == "0" + init;
    }
  }

  /** `s.padStart(width, fill)` for a one-character `fill`. */
  function PadStart(s: string, width: nat, fill: char): (r: string)
    ensures |r| == if |s| >= width then |s| else width
    ensures r[|r| - |s|..] == s
    ensures forall i :: 0 <= i < |r| - |s| ==> r[i] == fill
    decreases width - |s|
  {
    if |s| >= width then s else PadStart([fill] + s, width, fill)
  }

  /**
   * `n.toString().padStart(2, '0')`: one '0' goes before a single digit, and numerals
   * of two or more digits, three-digit ones included, are left as they are.
   */
  function TwoDigits(n: nat): (s: string)
    ensures n < 10 ==> s == ['0', DigitChar(n)]
    ensures n >= 10 ==> s == NatToString(n)
    ensures |s| >= 2 && AllDigits(s)
  {
    var d := NatToString(n);
    if n < 10 then
      PadOneDigit(d);
      assert d == [DigitChar(n)];
      PadStart(d, 2, '0')
    else PadStart(d, 2, '0')
  }

  lemma PadOneDigit(d: string)
    requires |d| == 1
    ensures PadStart(d, 2, '0') == ['0'] + d
  {
    assert PadStart(d, 2, '0') == PadStart(['0'] + d, 2, '0');
  }

  /** The padded text still reads back as `n`. */
  lemma TwoDigitsReadsBack(n: nat)
    ensures ParseNat(TwoDigits(n)) == n
  {
    ParseNatToString(n);
    if n < 10 {
      ParseNatLeadingZero(NatToString(n));
    }
  }
}
