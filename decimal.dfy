/**
 * Python's `str()` of a non-negative integer: its canonical decimal form
 * (digits only, no sign, no leading zero except in "0" itself), and the
 * parser that inverts it. Object ids become file names and segment labels
 * through this conversion.
 */
module Decimal {
  import opened Wrappers

  predicate IsDigit(c: char) {
    '0' <= c <= '9'
  }

  predicate IsDigits(s: string) {
    forall i :: 0 <= i < |s| ==> IsDigit(s[i])
  }

  /** The form `str(n)` takes for an int `n >= 0`. */
  predicate Canonical(s: string) {
    |s| > 0 && IsDigits(s) && (s[0] == '0' ==> |s| == 1)
  }

  function DigitChar(d: nat): (c: char)
    requires d < 10
    ensures IsDigit(c) && (c as int) - ('0' as int) == d
  {
    (('0' as int) + d) as char
  }

  function DigitValue(c: char): (d: nat)
    requires IsDigit(c)
    ensures d < 10 && DigitChar(d) == c
  {
    (c as int) - ('0' as int)
  }

  /** `str(n)` for `n >= 0`. */
  function NatToString(n: nat): (s: string)
    ensures Canonical(s)
    ensures n < 10 <==> |s| == 1
  {
    if n < 10 then [DigitChar(n)] else NatToString(n / 10) + [DigitChar(n % 10)]
  }

  /** The value of a string of decimal digits (most significant first). */
  function DigitsToNat(s: string): nat
    requires IsDigits(s)
  {
    if |s| == 0 then 0 else 10 * DigitsToNat(s[..|s| - 1]) + DigitValue(s[|s| - 1])
  }

  /** `int(s)` restricted to the strings `str` produces. */
  function ParseNat(s: string): Option<nat> {
    if Canonical(s) then Some(DigitsToNat(s)) else None
  }

  lemma {:induction false} DigitsToNatOfNatToString(n: nat)
    ensures DigitsToNat(NatToString(n)) == n
  {
    var s := NatToString(n);
    if n >= 10 {
      DigitsToNatOfNatToString(n / 10);
      assert s[..|s| - 1] == NatToString(n / 10);
    }
  }

  /** A canonical string longer than one digit denotes a positive number. */
  lemma {:induction false} CanonicalPositive(s: string)
    requires Canonical(s) && s[0] != '0'
    ensures DigitsToNat(s) > 0
  {
    if |s| > 1 {
      var t := s[..|s| - 1];
      assert t[0] == s[0];
      CanonicalPositive(t);
    }
  }

  lemma {:induction false} NatToStringOfDigitsToNat(s: string)
    requires Canonical(s)
    ensures NatToString(DigitsToNat(s)) == s
  {
    if |s| > 1 {
      var t := s[..|s| - 1];
      var d := DigitValue(s[|s| - 1]);
      assert t[0] == s[0];
      CanonicalPositive(t);
      NatToStringOfDigitsToNat(t);
      var m := DigitsToNat(t);
      var n := 10 * m + d;
      assert n / 10 == m && n % 10 == d;
      assert s == t + [s[|s| - 1]];
    }
  }

  /** Parsing inverts `str`: the decimal form of an id determines the id. */
  lemma ParseNatOfNatToString(n: nat)
    ensures ParseNat(NatToString(n)) == Some(n)
  {
    DigitsToNatOfNatToString(n);
  }

  /** And `str` inverts parsing on every string the parser accepts. */
  lemma NatToStringOfParseNat(s: string)
    ensures ParseNat(s).Some? ==> NatToString(ParseNat(s).value) == s
  {
    if Canonical(s) {
      NatToStringOfDigitsToNat(s);
    }
  }

  lemma NatToStringInjective(a: nat, b: nat)
    ensures NatToString(a) == NatToString(b) <==> a == b
  {
    if NatToString(a) == NatToString(b) {
      ParseNatOfNatToString(a);
      ParseNatOfNatToString(b);
    }
  }
}
