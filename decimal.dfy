/** Decimal rendering of integers, as done by Java's Integer.toString and by string
    concatenation of an int, and its inverse. */
module Decimal {

  predicate IsDigit(c: char) {
    '0' <= c <= '9'
  }

  function DigitChar(d: nat): (c: char)
    requires d < 10
    ensures IsDigit(c)
  {
    (('0' as int) + d) as char
  }

  function DigitValue(c: char): (d: nat)
    requires IsDigit(c)
    ensures d < 10
  {
    (c as int) - ('0' as int)
  }

  predicate AllDigits(s: string) {
    forall i :: 0 <= i < |s| ==> IsDigit(s[i])
  }

  /** The shortest decimal rendering of a natural number: no leading zero except for 0 itself. */
  function NatToString(n: nat): (s: string)
    ensures |s| >= 1 && AllDigits(s)
    ensures |s| > 1 ==> s[0] != '0'
    decreases n
  {
    if n < 10 then [DigitChar(n)] else NatToString(n / 10) + [DigitChar(n % 10)]
  }

  /** The form of Integer.toString's output: an optional minus sign, then one or more digits
      without a leading zero, except for "0" itself, which has no sign. */
  predicate IsCanonicalInt(s: string) {
    && |s| >= 1
    && (s[0] == '-' ==> |s| >= 2 && AllDigits(s[1..]) && s[1] != '0')
    && (s[0] != '-' ==> AllDigits(s) && (|s| > 1 ==> s[0] != '0'))
  }

  /** Integer.toString(i): a minus sign followed by the digits of |i| when i is negative. */
  function IntToString(i: int): (s: string)
    ensures IsCanonicalInt(s) && (s[0] == '-' <==> i < 0)
  {
    if i < 0 then "-" + NatToString(-i) else NatToString(i)
  }

  /** Reads a string of decimal digits back as a natural number. */
  function ParseNat(s: string): nat
    requires AllDigits(s)
  {
    if s == [] then 0 else ParseNat(s[..|s| - 1]) * 10 + DigitValue(s[|s| - 1])
  }

  /** Reads back what IntToString writes. */
  function ParseInt(s: string): int
    requires |s| >= 1
    requires s[0] == '-' ==> AllDigits(s[1..])
    requires s[0] != '-' ==> AllDigits(s)
  {
    if s[0] == '-' then -(ParseNat(s[1..]) as int) else ParseNat(s)
  }

  lemma {:induction false} ParseNatToString(n: nat)
    ensures ParseNat(NatToString(n)) == n
    decreases n
  {
    if n >= 10 {
      var s := NatToString(n);
      assert s[..|s| - 1] == NatToString(n / 10);
      ParseNatToString(n / 10);
    }
  }

  /** Rendering an int and parsing it back returns the int: the rendering loses nothing. */
  lemma IntToStringRoundTrip(i: int)
    ensures var s := IntToString(i);
            |s| >= 1 && (s[0] == '-' <==> i < 0) &&
            (s[0] == '-' ==> AllDigits(s[1..])) && (s[0] != '-' ==> AllDigits(s)) &&
            ParseInt(s) == i
  {
    if i < 0 {
      assert IntToString(i)[1..] == NatToString(-i);
      ParseNatToString(-i);
    } else {
      ParseNatToString(i);
    }
  }

  /** A digit string that does not begin with 0 reads as a positive number. */
  lemma {:induction false} ParseNatPositive(s: string)
    requires |s| >= 1 && AllDigits(s) && s[0] != '0'
    ensures ParseNat(s) >= 1
  {
    if |s| > 1 {
      ParseNatPositive(s[..|s| - 1]);
    }
  }

  /** A digit string without a leading zero is the rendering of the number it reads as. */
  lemma {:induction false} NatToStringOfParse(s: string)
    requires |s| >= 1 && AllDigits(s) && (|s| > 1 ==> s[0] != '0')
    ensures NatToString(ParseNat(s)) == s
    decreases |s|
  {
    var init, d := s[..|s| - 1], DigitValue(s[|s| - 1]);
    assert DigitChar(d) == s[|s| - 1];
    assert s == init + [s[|s| - 1]];
    var p := ParseNat(init);
    assert ParseNat(s) == p * 10 + d;
    if |s| > 1 {
      ParseNatPositive(init);
      NatToStringOfParse(init);
      LastDigit(p, d);
      assert NatToString(p * 10 + d) == NatToString(p) + [DigitChar(d)];
    } else {
      assert init == [];
    }
  }

  /** Appending the digit `d` to `p` and splitting it off again. */
  lemma LastDigit(p: nat, d: nat)
    requires d < 10
    ensures (p * 10 + d) / 10 == p && (p * 10 + d) % 10 == d
  {
  }

  /** IntToString is the only canonical rendering: every string of the canonical form is the
      rendering of the int it reads as. */
  lemma IntToStringOfCanonical(s: string)
    requires IsCanonicalInt(s)
    ensures IntToString(ParseInt(s)) == s
  {
    if s[0] == '-' {
      NatToStringOfParse(s[1..]);
      ParseNatPositive(s[1..]);
      assert s == "-" + s[1..];
    } else {
      NatToStringOfParse(s);
    }
  }

  /** Different natural numbers have different renderings. */
  lemma NatToStringInjective(m: nat, n: nat)
    requires NatToString(m) == NatToString(n)
    ensures m == n
  {
    ParseNatToString(m);
    ParseNatToString(n);
  }

  /** The length of the run of decimal digits at the start of a string. */
  function LeadingDigits(s: string): (n: nat)
    ensures n <= |s|
  {
    if s != [] && IsDigit(s[0]) then 1 + LeadingDigits(s[1..]) else 0
  }

  lemma {:induction false} LeadingDigitsOfConcat(a: string, t: string)
    requires AllDigits(a)
    requires t == [] || !IsDigit(t[0])
    ensures LeadingDigits(a + t) == |a|
  {
    if a != [] {
      assert (a + t)[1..] == a[1..] + t;
      LeadingDigitsOfConcat(a[1..], t);
    } else {
      assert a + t == t;
    }
  }

  /** A key made of a decimal prefix followed by a string that does not begin with a digit
      determines both parts: the prefix is the maximal run of leading digits. */
  lemma DigitPrefixUnique(m: nat, t: string, n: nat, u: string)
    requires t == [] || !IsDigit(t[0])
    requires u == [] || !IsDigit(u[0])
    requires NatToString(m) + t == NatToString(n) + u
    ensures m == n && t == u
  {
    var a, b := NatToString(m), NatToString(n);
    LeadingDigitsOfConcat(a, t);
    LeadingDigitsOfConcat(b, u);
    assert a == (a + t)[..|a|] == (b + u)[..|b|] == b;
    NatToStringInjective(m, n);
    assert t == (a + t)[|a|..] == (b + u)[|b|..] == u;
  }
}
