/**
 * Base-10 parsing of signed 64-bit integers, as the query handler uses it for
 * `since`, `until` and `limit`: an optional `+` or `-`, then one or more ASCII
 * digits, and a value that fits in 64 bits. Anything else is rejected.
 * `FormatInt` is the decimal rendering that parsing inverts.
 */
module Decimal {
  import opened Wrappers
  import opened Models

  predicate InInt64(n: int) {
    -0x8000_0000_0000_0000 <= n < 0x8000_0000_0000_0000
  }

  predicate IsDigit(c: char) {
    '0' <= c <= '9'
  }

  predicate AllDigits(s: string) {
    forall i :: 0 <= i < |s| ==> IsDigit(s[i])
  }

  predicate IsSign(c: char) {
    c == '+' || c == '-'
  }

  /** The value of a string of decimal digits, most significant first. */
  function DigitsValue(s: string): nat
    requires AllDigits(s)
  {
    if s == [] then 0
    else DigitsValue(s[..|s| - 1]) * 10 + (s[|s| - 1] as int - '0' as int)
  }

  /** What follows the optional leading sign. */
  function Unsigned(s: string): (u: string)
    ensures |u| <= |s|
  {
    if |s| > 0 && IsSign(s[0]) then s[1..] else s
  }

  /** An optional sign followed by one or more ASCII digits. */
  predicate WellFormed(s: string) {
    |Unsigned(s)| > 0 && AllDigits(Unsigned(s))
  }

  /** The integer a well-formed string spells: its digits, negated after a `-`. */
  function SpelledValue(s: string): int
    requires WellFormed(s)
  {
    if s[0] == '-' then -(DigitsValue(Unsigned(s)) as int) else DigitsValue(Unsigned(s))
  }

  /**
   * Parses `s` as a base-10 signed 64-bit integer; `None` is a syntax or range error.
   * A string is accepted exactly when it is well formed and the value it spells fits
   * in 64 bits, and then that value is the result.
   */
  function ParseInt64(s: string): (r: Option<int64>)
    ensures r.Some? <==> WellFormed(s) && InInt64(SpelledValue(s))
    ensures r.Some? ==> r.value as int == SpelledValue(s)
    ensures r.Some? ==> forall i :: 0 <= i < |s| ==> IsDigit(s[i]) || (i == 0 && IsSign(s[i]))
    ensures r.Some? ==> (r.value < 0 ==> s[0] == '-')
  {
    var body := Unsigned(s);
    if |body| == 0 || !AllDigits(body) then None
    else
      var magnitude: int := DigitsValue(body);
      var v: int := if s[0] == '-' then -magnitude else magnitude;
      if InInt64(v) then Some(v as int64) else None
  }

  function Digit(d: nat): (c: char)
    requires d < 10
    ensures IsDigit(c)
  {
    ('0' as int + d) as char
  }

  /** The shortest decimal rendering of `n`. */
  function FormatNat(n: nat): string
  {
    if n < 10 then [Digit(n)] else FormatNat(n / 10) + [Digit(n % 10)]
  }

  /** The decimal rendering of `n`, with a leading `-` when it is negative. */
  function FormatInt(n: int): string
  {
    if n < 0 then "-" + FormatNat(-n) else FormatNat(n)
  }

  lemma {:induction false} FormatNatIsDigits(n: nat)
    ensures |FormatNat(n)| > 0
    ensures AllDigits(FormatNat(n))
    ensures DigitsValue(FormatNat(n)) == n
  {
    var s := FormatNat(n);
    if n >= 10 {
      FormatNatIsDigits(n / 10);
      assert s[..|s| - 1] == FormatNat(n / 10);
      assert s[|s| - 1] == Digit(n % 10);
    }
  }

  /**
   * Parsing inverts formatting: every integer's decimal rendering parses back to
   * that integer when it fits in 64 bits, and is rejected as out of range otherwise.
   */
  lemma ParseFormatRoundTrip(n: int)
    ensures ParseInt64(FormatInt(n)) == if InInt64(n) then Some(n as int64) else None
  {
    var s := FormatInt(n);
    if n < 0 {
      FormatNatIsDigits(-n);
      assert Unsigned(s) == FormatNat(-n);
    } else {
      FormatNatIsDigits(n);
      assert IsDigit(s[0]);
      assert Unsigned(s) == s;
    }
  }

  /** A leading zero does not change the value of a digit string. */
  lemma {:induction false} LeadingZeroValue(d: string)
    requires AllDigits(d)
    ensures AllDigits("0" + d) && DigitsValue("0" + d) == DigitsValue(d)
    decreases |d|
  {
    var z := "0" + d;
    assert AllDigits(z) by {
      forall i | 0 <= i < |z| ensures IsDigit(z[i]) {
        if i > 0 { assert z[i] == d[i - 1]; }
      }
    }
    if d != [] {
      LeadingZeroValue(d[..|d| - 1]);
      assert z[..|z| - 1] == "0" + d[..|d| - 1];
      assert z[|z| - 1] == d[|d| - 1];
    }
  }

  /** A leading `+` is accepted and ignored: "+5" reads as "5". */
  lemma LeadingPlusIgnored(d: string)
    requires |d| > 0 && AllDigits(d)
    ensures ParseInt64("+" + d) == ParseInt64(d)
  {
    assert Unsigned("+" + d) == d;
    assert IsDigit(d[0]) && Unsigned(d) == d;
  }

  /** A leading zero after the optional sign is ignored: "007" reads as "07", "-05" as "-5". */
  lemma LeadingZeroIgnored(sign: string, d: string)
    requires sign == "" || sign == "+" || sign == "-"
    requires |d| > 0 && AllDigits(d)
    ensures ParseInt64(sign + "0" + d) == ParseInt64(sign + d)
  {
    LeadingZeroValue(d);
    assert Unsigned(sign + "0" + d) == "0" + d;
    assert Unsigned(sign + d) == d;
  }

  /** "-0" is zero; a sign alone and the empty string are syntax errors. */
  lemma SignedEdgeCases()
    ensures ParseInt64("-0") == Some(0)
    ensures ParseInt64("+") == None && ParseInt64("-") == None && ParseInt64("") == None
  {
    assert Unsigned("-0") == "0";
  }
}
