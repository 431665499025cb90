/** Decimal rendering of Java `int` values, as string concatenation
    (`"" + n`, i.e. `Integer.toString`) produces it, and its inverse. */
module Decimal {
  import opened Common

  predicate IsDigit(c: char) { '0' <= c <= '9' }

  predicate AllDigits(s: string) { forall i :: 0 <= i < |s| ==> IsDigit(s[i]) }

  function DigitChar(d: nat): (c: char)
    requires d < 10
    ensures IsDigit(c) && c as int - '0' as int == d
  {
    (d + '0' as int) as char
  }

  /** Digits with no leading zero, except "0" itself. */
  predicate CanonicalNat(s: string)
  {
    1 <= |s| && AllDigits(s) && (s[0] == '0' ==> |s| == 1)
  }

  /** How `Integer.toString` writes an `int`: canonical digits, preceded by
      '-' for a negative value (so never "-0"). */
  predicate CanonicalInt(s: string)
  {
    CanonicalNat(s) || (2 <= |s| && s[0] == '-' && s[1] != '0' && CanonicalNat(s[1..]))
  }

  /** Decimal digits of `n`, most significant first, without leading zeros. */
  function NatToString(n: nat): (s: string)
    ensures CanonicalNat(s)
    ensures s[0] == '0' ==> n == 0
    decreases n
  {
    if n < 10 then [DigitChar(n)] else NatToString(n / 10) + [DigitChar(n % 10)]
  }

  /** `Integer.toString(n)`: a leading minus sign for negative values. */
  function IntToString(n: int): (s: string)
    ensures CanonicalInt(s)
    ensures forall i :: 0 <= i < |s| ==> s[i] != ':'
  {
    if n < 0 then "-" + NatToString(-n) else NatToString(n)
  }

  /** The value of a string of decimal digits (the empty string reads as 0). */
  function ParseNat(s: string): nat
    requires AllDigits(s)
  {
    if s == [] then 0 else ParseNat(s[..|s| - 1]) * 10 + (s[|s| - 1] as int - '0' as int)
  }

  /** `Integer.parseInt` restricted to what `IntToString` produces. */
  function ParseInt(s: string): Option<int>
  {
    if 2 <= |s| && s[0] == '-' && AllDigits(s[1..]) then Some(0 - ParseNat(s[1..]) as int)
    else if 1 <= |s| && AllDigits(s) then Some(ParseNat(s))
    else None
  }

  lemma {:induction false} ParseNatToString(n: nat)
    ensures ParseNat(NatToString(n)) == n
    decreases n
  {
    var s := NatToString(n);
    if n >= 10 {
      ParseNatToString(n / 10);
      assert s[..|s| - 1] == NatToString(n / 10);
    }
  }

  /** Rendering an `int` and reading it back gives the same `int`. */
  lemma IntToStringRoundTrip(n: int)
    ensures ParseInt(IntToString(n)) == Some(n)
  {
    var s := IntToString(n);
    if n < 0 {
      ParseNatToString(-n);
      assert s[1..] == NatToString(-n);
    } else {
      ParseNatToString(n);
    }
  }

  /** Digits whose first one is not '0' have a positive value. */
  lemma {:induction false} ParseNatPositive(s: string)
    requires 1 <= |s| && AllDigits(s) && s[0] != '0'
    ensures ParseNat(s) >= 1
  {
    if |s| > 1 {
      ParseNatPositive(s[..|s| - 1]);
    }
  }

  /** Canonical digits are the rendering of their own value: there is one
      canonical way to write each natural number. */
  lemma {:induction false} NatToStringOfParse(s: string)
    requires CanonicalNat(s)
    ensures NatToString(ParseNat(s)) == s
  {
    if |s| > 1 {
      var init := s[..|s| - 1];
      ParseNatPositive(init);
      NatToStringOfParse(init);
      var n := ParseNat(s);
      assert n / 10 == ParseNat(init) && n % 10 == s[|s| - 1] as int - '0' as int;
      assert s == init + [s[|s| - 1]];
    }
  }

  /** A canonical rendering of an `int` is the one `IntToString` gives, so the
      round trip fixes the text and not just the value. */
  lemma CanonicalIntUnique(s: string)
    requires CanonicalInt(s)
    ensures ParseInt(s).Some? && IntToString(ParseInt(s).value) == s
  {
    if CanonicalNat(s) {
      NatToStringOfParse(s);
    } else {
      var d := s[1..];
      NatToStringOfParse(d);
      ParseNatPositive(d);
      assert s == "-" + d;
    }
  }
}
