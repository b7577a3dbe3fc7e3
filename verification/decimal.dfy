/**
 * Decimal rendering of integers, as JavaScript's `String(n)` produces it for
 * integral numbers, `padStart` with a fill character, and the matching
 * parser used to state that the rendering loses nothing.
 */
module Decimal {
  import opened Wrappers

  predicate IsDigit(c: char) {
    '0' <= c <= '9'
  }

  predicate AllDigits(s: string) {
    forall k | 0 <= k < |s| :: IsDigit(s[k])
  }

  function DigitChar(d: nat): (c: char)
    requires d < 10
    ensures IsDigit(c)
  {
    ('0' as int + d) as char
  }

  function DigitValue(c: char): (d: nat)
    requires IsDigit(c)
    ensures d < 10
  {
    c as int - '0' as int
  }

  /** Decimal digits of `n`, most significant first, without leading zeros. */
  function NatToString(n: nat): (s: string)
    ensures |s| >= 1 && AllDigits(s)
    ensures |s| == 1 <==> n < 10
    ensures n >= 10 ==> s[0] != '0'
  {
    if n < 10 then [DigitChar(n)] else NatToString(n / 10) + [DigitChar(n % 10)]
  }

  /** `String(i)` for an integral number: an optional minus sign, then digits. */
  function IntToString(i: int): string {
    if i < 0 then "-" + NatToString(-i) else NatToString(i)
  }

  /** Value of a string of decimal digits (leading zeros allowed). */
  function DigitsValue(s: string): nat
    requires AllDigits(s)
  {
    if |s| == 0 then 0 else DigitsValue(s[..|s| - 1]) * 10 + DigitValue(s[|s| - 1])
  }

  /** An unsigned decimal numeral: one digit or more, nothing else. */
  function ParseNat(s: string): Option<nat> {
    if |s| > 0 && AllDigits(s) then Some(DigitsValue(s)) else None
  }

  /** A decimal numeral with an optional leading minus sign. */
  function ParseInt(s: string): Option<int> {
    var digits := if |s| > 0 && s[0] == '-' then s[1..] else s;
    var sign := if |s| > 0 && s[0] == '-' then -1 else 1;
    match ParseNat(digits)
    case Some(n) => Some(sign * n)
    case None => None
  }

  lemma {:induction false} NatToStringRoundTrip(n: nat)
    ensures ParseNat(NatToString(n)) == Some(n)
  {
    var s := NatToString(n);
    if n < 10 {
      assert s == [DigitChar(n)];
      assert s[..0] == [];
      assert DigitsValue(s) == DigitsValue(s[..0]) * 10 + DigitValue(s[0]);
      assert DigitValue(DigitChar(n)) == n;
    } else {
      NatToStringRoundTrip(n / 10);
      assert s[..|s| - 1] == NatToString(n / 10);
      assert DigitValue(s[|s| - 1]) == n % 10;
    }
  }

  lemma IntToStringRoundTrip(i: int)
    ensures ParseInt(IntToString(i)) == Some(i)
  {
    var s := IntToString(i);
    if i < 0 {
      NatToStringRoundTrip(-i);
      assert s[1..] == NatToString(-i);
    } else {
      NatToStringRoundTrip(i);
      assert s[0] != '-';
    }
  }

  /** `s.padStart(width, fill)`: `s` preceded by enough copies of `fill` to
      reach `width` characters; a string already that long is unchanged. */
  function PadStart(s: string, width: nat, fill: char): (r: string)
    ensures |s| >= width ==> r == s
    ensures |s| < width ==> |r| == width && r[width - |s|..] == s
    ensures forall k | 0 <= k < |r| - |s| :: r[k] == fill
  {
    if |s| >= width then s else seq(width - |s|, _ => fill) + s
  }

  /** `String(n).padStart(2, '0')`. */
  function Pad2(n: int): string {
    PadStart(IntToString(n), 2, '0')
  }

  /** Leading zeros do not change the value of a numeral. */
  lemma {:induction false} LeadingZero(s: string)
    requires AllDigits(s)
    ensures AllDigits("0" + s) && DigitsValue("0" + s) == DigitsValue(s)
  {
    var t := "0" + s;
    if |s| > 0 {
      assert t[..|t| - 1] == "0" + s[..|s| - 1];
      LeadingZero(s[..|s| - 1]);
    }
  }

  /** Two-digit padding of a value in 0..99 is exactly two digits that read
      back as that value. */
  lemma Pad2Exact(n: int)
    requires 0 <= n < 100
    ensures |Pad2(n)| == 2 && AllDigits(Pad2(n))
    ensures ParseNat(Pad2(n)) == Some(n)
  {
    var d := NatToString(n);
    NatToStringRoundTrip(n);
    if n < 10 {
      assert Pad2(n) == "0" + d;
      LeadingZero(d);
    } else {
      assert NatToString(n / 10) == [DigitChar(n / 10)];
      assert |d| == 2;
    }
  }
}
