/**
  Python's int() applied to a decimal literal, and str() applied to an int,
  restricted to ASCII: an optional sign followed by one or more digits.
 */
module Decimal {
  import opened Options

  predicate IsDigit(c: char) {
    '0' <= c <= '9'
  }

  predicate AllDigits(s: string) {
    forall i :: 0 <= i < |s| ==> IsDigit(s[i])
  }

  function DigitValue(c: char): (d: nat)
    requires IsDigit(c)
    ensures d < 10
  {
    c as nat - '0' as nat
  }

  function DigitChar(d: nat): (c: char)
    requires d < 10
    ensures IsDigit(c) && DigitValue(c) == d
  {
    ('0' as nat + d) as char
  }

  /** The value of a digit string, most significant digit first. */
  function DigitsValue(s: string): nat
    requires AllDigits(s)
    decreases |s|
  {
    if |s| == 0 then 0 else DigitsValue(s[..|s| - 1]) * 10 + DigitValue(s[|s| - 1])
  }

  /** The literals int() accepts here: a sign ("", "+" or "-") followed by at least one digit. */
  ghost predicate IsIntLiteral(s: string) {
    exists sign: string, digits: string {:trigger sign + digits} ::
      (sign == "" || sign == "+" || sign == "-") && s == sign + digits && digits != [] && AllDigits(digits)
  }

  /** int(s): the integer a decimal literal denotes, or None where Python raises ValueError. */
  function ParseInt(s: string): Option<int> {
    if |s| > 0 && (s[0] == '-' || s[0] == '+') then
      if |s| > 1 && AllDigits(s[1..]) then
        var magnitude: int := DigitsValue(s[1..]);
        Some(if s[0] == '-' then -magnitude else magnitude)
      else
        None
    else if |s| > 0 && AllDigits(s) then
      Some(DigitsValue(s))
    else
      None
  }

  /** str(n) for a natural number: decimal digits without leading zeros. */
  function FormatNat(n: nat): (s: string)
    ensures s != [] && AllDigits(s)
    ensures s[0] == '0' ==> n == 0 && s == "0"
    decreases n
  {
    if n < 10 then [DigitChar(n)] else FormatNat(n / 10) + [DigitChar(n % 10)]
  }

  /** str(i) for an integer: a minus sign for negative values, then the digits of |i|. */
  function FormatInt(i: int): string {
    if i < 0 then "-" + FormatNat(-i) else FormatNat(i)
  }

  /** A canonical literal, the form str() produces. */
  predicate IsCanonical(s: string) {
    if |s| > 0 && s[0] == '-' then
      |s| > 1 && AllDigits(s[1..]) && s[1] != '0'
    else
      |s| > 0 && AllDigits(s) && (s[0] == '0' ==> s == "0")
  }

  /** ParseInt succeeds exactly on the literals IsIntLiteral describes. */
  lemma ParseIntAcceptsLiterals(s: string)
    ensures ParseInt(s).Some? <==> IsIntLiteral(s)
  {
    if ParseInt(s).Some? {
      if s[0] == '-' || s[0] == '+' {
        assert s == s[..1] + s[1..];
        assert s[..1] == "-" || s[..1] == "+";
      } else {
        assert s == "" + s;
      }
    }
    if IsIntLiteral(s) {
      var sign: string, digits: string :|
        (sign == "" || sign == "+" || sign == "-") && s == sign + digits && digits != [] && AllDigits(digits);
      if sign == "" {
        assert s == digits;
        assert IsDigit(s[0]);
      } else {
        assert s[0] == sign[0];
        assert s[1..] == digits;
      }
    }
  }

  lemma {:induction false} DigitsValueOfFormatNat(n: nat)
    ensures DigitsValue(FormatNat(n)) == n
    decreases n
  {
    if n >= 10 {
      var s := FormatNat(n);
      assert s[..|s| - 1] == FormatNat(n / 10);
      DigitsValueOfFormatNat(n / 10);
    }
  }

  /** int(str(i)) == i. */
  lemma ParseFormatRoundTrip(i: int)
    ensures IsCanonical(FormatInt(i))
    ensures ParseInt(FormatInt(i)) == Some(i)
  {
    var n: nat := if i < 0 then -i else i;
    DigitsValueOfFormatNat(n);
    var d := FormatNat(n);
    if i < 0 {
      assert FormatInt(i)[1..] == d;
      assert d[0] != '0';
    } else {
      assert FormatInt(i) == d;
      assert !(d[0] == '-' || d[0] == '+') by { assert IsDigit(d[0]); }
    }
  }

  lemma {:induction false} DigitsValuePositive(s: string)
    requires AllDigits(s) && s != [] && s[0] != '0'
    ensures DigitsValue(s) > 0
    decreases |s|
  {
    if |s| > 1 {
      DigitsValuePositive(s[..|s| - 1]);
    }
  }

  lemma {:induction false} FormatNatOfDigits(s: string)
    requires AllDigits(s) && s != [] && (s[0] == '0' ==> s == "0")
    ensures FormatNat(DigitsValue(s)) == s
    decreases |s|
  {
    if |s| > 1 {
      var p := s[..|s| - 1];
      FormatNatOfDigits(p);
      DigitsValuePositive(p);
      var v := DigitsValue(p);
      var d := DigitValue(s[|s| - 1]);
      assert (v * 10 + d) / 10 == v && (v * 10 + d) % 10 == d;
      assert DigitChar(d) == s[|s| - 1];
      assert s == p + [s[|s| - 1]];
    } else {
      assert DigitChar(DigitValue(s[0])) == s[0];
    }
  }

  /** str(int(s)) == s exactly when s is canonical: int() forgets a '+' sign and leading zeros. */
  lemma FormatParseRoundTrip(s: string)
    requires ParseInt(s).Some?
    ensures FormatInt(ParseInt(s).value) == s <==> IsCanonical(s)
  {
    if IsCanonical(s) {
      if s[0] == '-' {
        FormatNatOfDigits(s[1..]);
        DigitsValuePositive(s[1..]);
        assert s == "-" + s[1..];
      } else {
        FormatNatOfDigits(s);
      }
    }
    if FormatInt(ParseInt(s).value) == s {
      ParseFormatRoundTrip(ParseInt(s).value);
    }
  }

  lemma {:induction false} DigitsValueLeadingZero(s: string)
    requires AllDigits(s)
    ensures AllDigits("0" + s) && DigitsValue("0" + s) == DigitsValue(s)
    decreases |s|
  {
    if |s| > 0 {
      var p := s[..|s| - 1];
      DigitsValueLeadingZero(p);
      assert ("0" + s)[..|s|] == "0" + p;
    }
  }

  /** A leading zero does not change the value int() reads: int("007") == int("7"). */
  lemma ParseIntLeadingZero(s: string)
    requires s != [] && AllDigits(s)
    ensures ParseInt("0" + s) == ParseInt(s)
  {
    DigitsValueLeadingZero(s);
  }

  /** A sign in front of a digit string: '+' keeps int()'s value, '-' negates it. */
  lemma ParseIntSigned(d: string)
    requires d != [] && AllDigits(d)
    ensures ParseInt(d).Some?
    ensures ParseInt("+" + d) == ParseInt(d)
    ensures ParseInt("-" + d) == Some(-ParseInt(d).value)
  {
    assert ("+" + d)[1..] == d;
    assert ("-" + d)[1..] == d;
    assert IsDigit(d[0]);
  }
}
