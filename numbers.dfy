/**
 * Python's `int(s)` on a string (base 10) and `str(n)` on an int, over ASCII digits.
 */
module Numbers {
  import opened Strings
  import opened Wrappers

  predicate IsDigit(c: char) {
    '0' <= c <= '9'
  }

  function DigitChar(d: nat): (c: char)
    requires d < 10
    ensures IsDigit(c) && c as int - '0' as int == d
  {
    ('0' as int + d) as char
  }

  /** Decimal digits of `n`, most significant first, without leading zeros. */
  function NatToDigits(n: nat): (s: string)
    ensures |s| > 0 && forall i :: 0 <= i < |s| ==> IsDigit(s[i])
    ensures |s| > 1 ==> s[0] != '0'
    decreases n
  {
    if n < 10 then [DigitChar(n)] else NatToDigits(n / 10) + [DigitChar(n % 10)]
  }

  /** `str(n)`: optional minus sign followed by the decimal digits of `|n|`. */
  function IntToString(n: int): string {
    if n < 0 then "-" + NatToDigits(-n) else NatToDigits(n)
  }

  /** Value of a string of decimal digits. */
  function DigitsValue(d: string): nat
    requires forall i :: 0 <= i < |d| ==> IsDigit(d[i])
    decreases |d|
  {
    if |d| == 0 then 0
    else
      assert IsDigit(d[|d| - 1]);
      DigitsValue(d[..|d| - 1]) * 10 + (d[|d| - 1] as int - '0' as int)
  }

  /** The body of a base-10 integer literal as `int()` accepts it: digits, with single underscores between digits. */
  predicate IsDigitBody(d: string) {
    && |d| > 0
    && IsDigit(d[0])
    && IsDigit(d[|d| - 1])
    && (forall i :: 0 <= i < |d| ==> IsDigit(d[i]) || d[i] == '_')
    && (forall i :: 0 <= i < |d| - 1 ==> !(d[i] == '_' && d[i + 1] == '_'))
  }

  function DropUnderscores(d: string): (r: string)
    ensures forall i :: 0 <= i < |r| ==> r[i] != '_' && r[i] in d
    ensures (forall i :: 0 <= i < |d| ==> d[i] != '_') ==> r == d
    decreases |d|
  {
    if |d| == 0 then [] else if d[0] == '_' then DropUnderscores(d[1..]) else [d[0]] + DropUnderscores(d[1..])
  }

  function ParseDigits(d: string): (r: Option<nat>)
    ensures r.Some? <==> IsDigitBody(d)
  {
    if IsDigitBody(d) then Some(DigitsValue(DropUnderscores(d))) else None
  }

  /** An optional sign followed by a digit body: the literals `int()` accepts once stripped. */
  predicate IsIntLiteral(t: string) {
    if |t| > 0 && (t[0] == '-' || t[0] == '+') then IsDigitBody(t[1..]) else IsDigitBody(t)
  }

  /** An optional sign followed by a digit body. */
  function ParseSigned(t: string): (r: Option<int>)
    ensures r.Some? <==> IsIntLiteral(t)
    ensures r.Some? ==> |t| > 0 && forall i :: 0 <= i < |t| ==> !IsSpace(t[i])
    ensures r.Some? ==> (r.value < 0 ==> t[0] == '-')
  {
    if |t| > 0 && (t[0] == '-' || t[0] == '+') then
      match ParseDigits(t[1..])
      case Some(n) => Some(if t[0] == '-' then -(n as int) else n as int)
      case None => None
    else
      match ParseDigits(t)
      case Some(n) => Some(n)
      case None => None
  }

  /**
   * `int(s)`: surrounding whitespace is ignored, then an optional sign and a digit body.
   * Whatever parses has no whitespace left once stripped.
   */
  function ParseInt(s: string): (r: Option<int>)
    ensures r.Some? <==> IsIntLiteral(Strip(s))
    ensures r.Some? ==> |Strip(s)| > 0 && forall i :: 0 <= i < |Strip(s)| ==> !IsSpace(Strip(s)[i])
  {
    ParseSigned(Strip(s))
  }

  /** A sample input with a sign that `int()` accepts. */
  lemma ParseIntSigned()
    ensures ParseInt("-7") == Some(-7)
  {
    var m := "-7";
    StripNoSpaceEnds(m);
    assert m[1..] == "7";
    assert IsDigitBody("7");
    assert DropUnderscores("7") == "7";
    assert DigitsValue("7") == 7;
    assert ParseDigits(m[1..]) == Some(7);
    assert ParseSigned(m) == Some(-7);
  }

  /** Sample inputs `int()` refuses: a trailing letter, a doubled underscore, an empty line. */
  lemma ParseIntRefuses()
    ensures ParseInt("12a") == None
    ensures ParseInt("1__0") == None
    ensures ParseInt("") == None
  {
    var a := "12a";
    StripNoSpaceEnds(a);
    assert !IsDigit(a[|a| - 1]);
    assert !IsIntLiteral(a);
    var b := "1__0";
    StripNoSpaceEnds(b);
    assert b[1] == '_' && b[2] == '_';
    assert !IsIntLiteral(b);
    StripNoSpaceEnds("");
    assert !IsIntLiteral("");
  }

  lemma {:induction false} DigitsValueOfNatToDigits(n: nat)
    ensures DigitsValue(NatToDigits(n)) == n
    decreases n
  {
    if n >= 10 {
      var s := NatToDigits(n / 10);
      DigitsValueOfNatToDigits(n / 10);
      assert (s + [DigitChar(n % 10)])[..|s|] == s;
    }
  }

  lemma ParseDigitsOfNatToDigits(m: nat)
    ensures ParseDigits(NatToDigits(m)) == Some(m)
  {
    var d := NatToDigits(m);
    assert IsDigitBody(d);
    assert DropUnderscores(d) == d;
    DigitsValueOfNatToDigits(m);
  }

  lemma ParseSignedOfIntToString(n: int)
    ensures ParseSigned(IntToString(n)) == Some(n)
  {
    var m: nat := if n < 0 then -n else n;
    var d := NatToDigits(m);
    ParseDigitsOfNatToDigits(m);
    if n < 0 {
      assert ("-" + d)[1..] == d;
      assert ParseDigits(("-" + d)[1..]) == Some(m);
    } else {
      assert IsDigit(d[0]) && d[0] != '-' && d[0] != '+';
      assert ParseDigits(d) == Some(m);
    }
  }

  /** `int(str(n)) == n`. */
  lemma ParseIntOfIntToString(n: int)
    ensures ParseInt(IntToString(n)) == Some(n)
  {
    var s := IntToString(n);
    assert IsDigit(s[|s| - 1]);
    StripNoSpaceEnds(s);
    ParseSignedOfIntToString(n);
  }

  /** `int()` gives the same answer on a string and on its stripped form. */
  lemma ParseIntOfStrip(s: string)
    ensures ParseInt(Strip(s)) == ParseInt(s)
  {
    var t := Strip(s);
    StripNoSpaceEnds(t);
    assert Strip(t) == t;
  }
}
