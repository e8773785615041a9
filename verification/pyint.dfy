/** Python's `int(text)` on a string, as the probes and the bucket check use it. */
module PyInt {
  import opened Wrappers
  import opened Strings

  predicate IsSign(c: char) {
    c == '+' || c == '-'
  }

  /** An optional sign followed by one or more ASCII digits. */
  predicate IntLiteral(t: string) {
    if |t| > 0 && IsSign(t[0]) then |t| > 1 && AllDigits(t[1..]) else |t| > 0 && AllDigits(t)
  }

  /** `int(text)`: surrounding whitespace is ignored, then an optional sign and decimal
      digits; anything else raises ValueError, here None. */
  function ParseInt(text: string): (r: Option<int>)
    ensures r.Some? <==> IntLiteral(Strip(text))
    ensures r.Some? && r.value < 0 ==> Strip(text)[0] == '-'
  {
    ReadLiteral(Strip(text))
  }

  /** The value of an already stripped string. */
  function ReadLiteral(t: string): (r: Option<int>)
    ensures r.Some? <==> IntLiteral(t)
    ensures r.Some? && r.value < 0 ==> t[0] == '-'
  {
    if |t| > 0 && IsSign(t[0]) then
      if |t| > 1 && AllDigits(t[1..]) then
        var v: int := DecimalValue(t[1..]);
        Some(if t[0] == '-' then -v else v)
      else None
    else if |t| > 0 && AllDigits(t) then Some(DecimalValue(t))
    else None
  }

  /** Python's `str(n)` for any integer. */
  function IntToString(n: int): (r: string)
    ensures |r| > 0
  {
    if n < 0 then "-" + NatToString(-n) else NatToString(n)
  }

  /** A string without surrounding whitespace strips to itself. */
  lemma StripTight(s: string)
    requires |s| > 0 && !IsSpace(s[0]) && !IsSpace(s[|s| - 1])
    ensures Strip(s) == s
  {
    StripExact(s, 0, |s|);
    assert s[0..|s|] == s;
  }

  lemma DigitIsPlain(c: char)
    requires IsDigit(c)
    ensures !IsSpace(c) && !IsSign(c)
  {
  }

  /** Digits, bare or after '-', read back as their value or its negation. */
  lemma ParseDigits(d: string)
    requires |d| > 0 && AllDigits(d)
    ensures ParseInt(d) == Some(DecimalValue(d))
  {
    DigitIsPlain(d[0]);
    DigitIsPlain(d[|d| - 1]);
    StripTight(d);
  }

  lemma ReadNegated(t: string)
    requires |t| > 1 && t[0] == '-' && AllDigits(t[1..])
    ensures ReadLiteral(t) == Some(-(DecimalValue(t[1..]) as int))
  {
  }

  lemma ParseNegatedDigits(d: string)
    requires |d| > 0 && AllDigits(d)
    ensures ParseInt("-" + d) == Some(-(DecimalValue(d) as int))
  {
    var s := "-" + d;
    DigitIsPlain(d[|d| - 1]);
    assert s[0] == '-' && s[|s| - 1] == d[|d| - 1] && s[1..] == d;
    StripTight(s);
    ReadNegated(s);
  }

  /** `int(str(n)) == n`. */
  lemma ParseIntRoundTrip(n: int)
    ensures ParseInt(IntToString(n)) == Some(n)
  {
    if n < 0 {
      var m: nat := -n;
      var d := NatToString(m);
      assert IntToString(n) == "-" + d;
      NatToStringRoundTrip(m);
      ParseNegatedDigits(d);
    } else {
      var d := NatToString(n);
      assert IntToString(n) == d;
      NatToStringRoundTrip(n);
      ParseDigits(d);
    }
  }

  /** A character that is neither whitespace, sign nor digit makes `int` fail. */
  lemma ParseIntRejects(text: string, k: nat)
    requires k < |text| && !IsSpace(text[k]) && !IsSign(text[k]) && !IsDigit(text[k])
    ensures ParseInt(text) == None
  {
    var t := Strip(text);
    var i, j :| 0 <= i <= j <= |text| && t == text[i..j]
      && (forall m :: 0 <= m < i ==> IsSpace(text[m]))
      && (forall m :: j <= m < |text| ==> IsSpace(text[m]));
    assert i <= k < j;
    assert t[k - i] == text[k];
    if IsSign(t[0]) {
      assert k - i != 0;
      assert t[1..][k - i - 1] == text[k];
    }
  }
}
