/** Decimal numbers as ai.py reads them: Python's int(s) on a string (base 10) and str.isdigit(),
    restricted to the ASCII digits '0'..'9'. */
module PyInt {
  import opened Wrappers
  import opened Text

  predicate IsDigit(c: char) {
    '0' <= c <= '9'
  }

  predicate AllDigits(s: string) {
    forall i :: 0 <= i < |s| ==> IsDigit(s[i])
  }

  /** Python's s.isdigit(): non-empty and made of digits only. */
  predicate IsDigitString(s: string) {
    s != [] && AllDigits(s)
  }

  function DigitValue(c: char): nat
    requires IsDigit(c)
  {
    c as int - '0' as int
  }

  function DigitChar(d: nat): (c: char)
    requires d < 10
    ensures IsDigit(c) && DigitValue(c) == d
  {
    ('0' as int + d) as char
  }

  /** The value of a string of decimal digits, most significant digit first. */
  function DecimalValue(s: string): nat
    requires AllDigits(s)
  {
    if s == [] then 0 else 10 * DecimalValue(s[..|s| - 1]) + DigitValue(s[|s| - 1])
  }

  /** The decimal rendering Python's str() gives a natural number: no leading zeros. */
  function NatToDecimal(n: nat): (s: string)
    ensures IsDigitString(s)
    ensures s[0] != '0' || n == 0
  {
    if n < 10 then [DigitChar(n)] else NatToDecimal(n / 10) + [DigitChar(n % 10)]
  }

  lemma {:induction false} DecimalRoundTrip(n: nat)
    ensures DecimalValue(NatToDecimal(n)) == n
  {
    if n >= 10 {
      DecimalRoundTrip(n / 10);
      var s := NatToDecimal(n);
      assert s[..|s| - 1] == NatToDecimal(n / 10);
    }
  }

  /** The digits-and-underscores body Python's int() accepts after an optional sign:
      it starts and ends with a digit and never has two underscores in a row. */
  predicate IsDigitGroup(s: string) {
    && s != []
    && IsDigit(s[0]) && IsDigit(s[|s| - 1])
    && (forall i :: 0 <= i < |s| ==> IsDigit(s[i]) || s[i] == '_')
    && NoDoubleUnderscore(s)
  }

  predicate NoDoubleUnderscore(s: string) {
    |s| < 2 || ((s[0] != '_' || s[1] != '_') && NoDoubleUnderscore(s[1..]))
  }

  function RemoveUnderscores(s: string): (r: string)
    requires forall i :: 0 <= i < |s| ==> IsDigit(s[i]) || s[i] == '_'
    ensures AllDigits(r)
    ensures AllDigits(s) ==> r == s
  {
    if s == [] then []
    else (if s[0] == '_' then [] else [s[0]]) + RemoveUnderscores(s[1..])
  }

  function GroupValue(s: string): nat
    requires IsDigitGroup(s)
  {
    DecimalValue(RemoveUnderscores(s))
  }

  /** Python's int(s) for a str argument in base 10: surrounding whitespace is ignored, one
      optional sign, then a digit group; anything else raises ValueError, here None. */
  function ParseInt(s: string): (r: Option<int>)
    ensures r.Some? <==> IsIntLiteral(Strip(s))
    ensures r.Some? && r.value < 0 ==> Strip(s)[0] == '-'
  {
    ParseSigned(Strip(s))
  }

  /** The literals int() accepts once the whitespace is stripped: a digit group with at most one
      sign in front. */
  predicate IsIntLiteral(t: string) {
    IsDigitGroup(t) || (t != [] && (t[0] == '-' || t[0] == '+') && IsDigitGroup(t[1..]))
  }

  /** int() on a string that has no surrounding whitespace. */
  function ParseSigned(t: string): (r: Option<int>)
    ensures r.Some? <==> IsIntLiteral(t)
    ensures r.Some? && r.value < 0 ==> t[0] == '-'
  {
    if t == [] then None
    else if t[0] == '-' || t[0] == '+' then
      if IsDigitGroup(t[1..]) then
        var v: int := GroupValue(t[1..]);
        Some(if t[0] == '-' then -v else v)
      else None
    else if IsDigitGroup(t) then Some(GroupValue(t))
    else None
  }

  /** Python's str(n) for an int. */
  function IntToString(n: int): (s: string)
    ensures s != [] && IsStripped(s)
  {
    if n < 0 then ['-'] + NatToDecimal(-n) else NatToDecimal(n)
  }

  lemma {:induction false} DigitStringIsGroup(d: string)
    requires IsDigitString(d)
    ensures IsDigitGroup(d) && GroupValue(d) == DecimalValue(d)
  {
    if |d| >= 2 {
      DigitStringIsGroup(d[1..]);
    }
  }

  lemma ParseUnsigned(d: string)
    requires IsDigitString(d) && IsStripped(d)
    ensures ParseInt(d) == Some(DecimalValue(d) as int)
  {
    StripOfStripped(d);
    DigitStringIsGroup(d);
    assert d[0] != '-' && d[0] != '+';
  }

  lemma SignedNegative(d: string)
    requires IsDigitGroup(d)
    ensures ParseSigned(['-'] + d) == Some(-(GroupValue(d) as int))
  {
    assert (['-'] + d)[1..] == d;
  }

  lemma NegativeIsStripped(d: string)
    requires IsDigitGroup(d)
    ensures Strip(['-'] + d) == ['-'] + d
  {
    var s := ['-'] + d;
    assert s[0] == '-' && s[|s| - 1] == d[|d| - 1];
    StripOfStripped(s);
  }

  lemma ParseNegative(d: string)
    requires IsDigitGroup(d)
    ensures ParseInt(['-'] + d) == Some(-(GroupValue(d) as int))
  {
    NegativeIsStripped(d);
    SignedNegative(d);
  }

  /** int() reads back what str() writes, for every integer. */
  lemma ParseIntRoundTrip(n: int)
    ensures ParseInt(IntToString(n)) == Some(n)
  {
    var m: nat := if n < 0 then -n else n;
    var d := NatToDecimal(m);
    DecimalRoundTrip(m);
    DigitStringIsGroup(d);
    if n < 0 {
      ParseNegative(d);
    } else {
      ParseUnsigned(d);
    }
  }

  /** Stripping before calling int(), as ai.py does, changes nothing. */
  lemma ParseIntOfStripped(s: string)
    ensures ParseInt(Strip(s)) == ParseInt(s)
  {
    StripIdempotent(s);
  }
}
