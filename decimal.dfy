/** Decimal text of non-negative integers: JavaScript's String(n) for integral
    numbers, String.prototype.padStart(2, "0"), and reading digits back. */
module Decimal {

  predicate IsDigit(c: char) { '0' <= c <= '9' }

  predicate AllDigits(s: string) { forall i :: 0 <= i < |s| ==> IsDigit(s[i]) }

  function DigitChar(d: nat): (c: char)
    requires d < 10
    ensures IsDigit(c)
  {
    ('0' as int + d) as char
  }

  function DigitValue(c: char): (d: nat)
    requires IsDigit(c)
    ensures d < 10 && DigitChar(d) == c
  {
    c as int - '0' as int
  }

  /** String(n): the shortest decimal numeral of n, without leading zeros. */
  function NatToString(n: nat): (r: string)
    ensures 1 <= |r| && AllDigits(r)
    ensures r[0] == '0' ==> n == 0
    decreases n
  {
    if n < 10 then [DigitChar(n)] else NatToString(n / 10) + [DigitChar(n % 10)]
  }

  /** String(n) for an integer that may be negative: a '-' for a negative n,
      then the digits of |n| with no padding, which read back as |n|. */
  function IntToString(n: int): (r: string)
    ensures 1 <= |r|
    ensures n < 0 <==> r[0] == '-'
    ensures var ds := if n < 0 then r[1..] else r;
      1 <= |ds| && AllDigits(ds) && (ds[0] == '0' ==> n == 0) &&
      DecimalValue(ds) == (if n < 0 then -n else n)
  {
    if n < 0 then
      NatToStringRoundTrip(-n);
      assert ("-" + NatToString(-n))[1..] == NatToString(-n);
      "-" + NatToString(-n)
    else
      NatToStringRoundTrip(n);
      NatToString(n)
  }

  /** s.padStart(2, "0"): left-pads with zeros up to two characters, never truncates. */
  function PadStart2(s: string): (r: string)
    ensures |r| == if |s| < 2 then 2 else |s|
    ensures r[|r| - |s|..] == s
    ensures forall i :: 0 <= i < |r| - |s| ==> r[i] == '0'
  {
    if |s| >= 2 then s else if |s| == 1 then "0" + s else "00"
  }

  /** String(n).padStart(2, "0"). */
  function Pad2(n: nat): string
  {
    PadStart2(NatToString(n))
  }

  /** The number a string of decimal digits denotes. */
  function DecimalValue(s: string): nat
    requires AllDigits(s)
    decreases |s|
  {
    if s == [] then 0 else DecimalValue(s[..|s| - 1]) * 10 + DigitValue(s[|s| - 1])
  }

  /** Reading String(n) back gives n. */
  lemma {:induction false} NatToStringRoundTrip(n: nat)
    ensures DecimalValue(NatToString(n)) == n
    decreases n
  {
    var r := NatToString(n);
    if n >= 10 {
      NatToStringRoundTrip(n / 10);
      assert r[..|r| - 1] == NatToString(n / 10);
    }
  }

  /** Leading zeros do not change the value of a digit string. */
  lemma {:induction false} LeadingZeroValue(s: string)
    requires AllDigits(s)
    ensures AllDigits("0" + s) && DecimalValue("0" + s) == DecimalValue(s)
    decreases |s|
  {
    if s != [] {
      var t := "0" + s;
      assert t[..|t| - 1] == "0" + s[..|s| - 1];
      LeadingZeroValue(s[..|s| - 1]);
    }
  }

  /** For 0 <= n < 100 the zero-padded numeral has exactly two digits and reads back as n. */
  lemma TwoDigits(n: nat)
    requires n < 100
    ensures |Pad2(n)| == 2 && AllDigits(Pad2(n)) && DecimalValue(Pad2(n)) == n
  {
    NatToStringRoundTrip(n);
    if n < 10 {
      LeadingZeroValue(NatToString(n));
    } else {
      assert NatToString(n / 10) == [DigitChar(n / 10)];
    }
  }

  /** The numeral of n has exactly four digits exactly when 1000 <= n <= 9999:
      fewer below that range, more above it. */
  lemma FourDigits(n: nat)
    ensures n < 1000 ==> |NatToString(n)| < 4
    ensures 1000 <= n <= 9999 ==> |NatToString(n)| == 4
    ensures 9999 < n ==> |NatToString(n)| > 4
  {
    var a, b, c, d := n / 10, n / 100, n / 1000, n / 10000;
    if n >= 10 {
      assert |NatToString(n)| == |NatToString(a)| + 1;
      if n >= 100 {
        assert a >= 10 && a / 10 == b;
        assert |NatToString(a)| == |NatToString(b)| + 1;
        if n >= 1000 {
          assert b >= 10 && b / 10 == c;
          assert |NatToString(b)| == |NatToString(c)| + 1;
          if n >= 10000 {
            assert c >= 10 && c / 10 == d;
            assert |NatToString(c)| == |NatToString(d)| + 1;
          } else {
            assert c < 10;
          }
        } else {
          assert b < 10;
        }
      } else {
        assert a < 10;
      }
    }
  }
}
