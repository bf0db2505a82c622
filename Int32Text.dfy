/** Decimal text of an Int32: the invariant-culture formatting an interpolated
    string uses, and the parsing `Convert.ToInt32(string)` performs. */
module Int32Text {
  import opened Primitives

  predicate IsDigit(c: char) {
    '0' <= c <= '9'
  }

  predicate AllDigits(s: string) {
    forall i :: 0 <= i < |s| ==> IsDigit(s[i])
  }

  function DigitChar(d: int): (c: char)
    requires 0 <= d < 10
    ensures IsDigit(c) && c as int - '0' as int == d
  {
    ('0' as int + d) as char
  }

  /** The shortest decimal digits of n (no leading zeros, "0" for zero). */
  function NatText(n: nat): (s: string)
    ensures |s| >= 1 && AllDigits(s)
  {
    if n < 10 then [DigitChar(n)] else NatText(n / 10) + [DigitChar(n % 10)]
  }

  /** The number a string of decimal digits denotes. */
  function DigitsValue(s: string): nat
    requires AllDigits(s)
  {
    if s == [] then 0 else DigitsValue(s[..|s| - 1]) * 10 + (s[|s| - 1] as int - '0' as int)
  }

  lemma {:induction false} DigitsValueNatText(n: nat)
    ensures DigitsValue(NatText(n)) == n
  {
    if n >= 10 {
      var s := NatText(n);
      assert s[..|s| - 1] == NatText(n / 10);
      DigitsValueNatText(n / 10);
    }
  }

  /** `{iterations}` in an interpolated string: an optional '-' and the digits. */
  function Format(n: int32): (s: string)
    ensures forall i :: 0 <= i < |s| ==> IsDigit(s[i]) || s[i] == '-'
  {
    if n < 0 then "-" + NatText(-(n as int)) else NatText(n)
  }

  /** The white space `Int32.Parse` allows before and after the number. */
  predicate IsParseWhite(c: char) {
    c == ' ' || '\t' <= c <= '\r'
  }

  function TrimStart(s: string): (t: string)
    ensures |t| > 0 ==> !IsParseWhite(t[0])
  {
    if |s| > 0 && IsParseWhite(s[0]) then TrimStart(s[1..]) else s
  }

  function TrimEnd(s: string): (t: string)
    ensures |t| > 0 ==> !IsParseWhite(t[|t| - 1])
  {
    if |s| > 0 && IsParseWhite(s[|s| - 1]) then TrimEnd(s[..|s| - 1]) else s
  }

  /** A signed decimal number with its sign applied, or a FormatException when
      the text is not one. */
  function SignedValue(t: string): (r: Result<int>)
    ensures r.Err? ==> r.error == FormatException
  {
    var negative := |t| > 0 && t[0] == '-';
    var digits := if |t| > 0 && (t[0] == '-' || t[0] == '+') then t[1..] else t;
    if |digits| == 0 || !AllDigits(digits) then Err(FormatException)
    else
      var magnitude: int := DigitsValue(digits);
      Ok(if negative then -magnitude else magnitude)
  }

  /** `Convert.ToInt32(string)`: white space around an optionally signed run of
      decimal digits; a FormatException for any other text and an
      OverflowException for a number outside Int32. */
  function Parse(s: string): (r: Result<int32>)
    ensures r.Err? ==> r.error in {FormatException, OverflowException}
  {
    match SignedValue(TrimEnd(TrimStart(s)))
    case Err(e) => Err(e)
    case Ok(v) => if IsInt32(v) then Ok(v) else Err(OverflowException)
  }

  /** Parsing the formatted text of any Int32 gives that Int32 back. */
  lemma {:induction false} ParseFormat(n: int32)
    ensures Parse(Format(n)) == Ok(n)
  {
    var s := Format(n);
    var m: nat := if n < 0 then -(n as int) else n;
    var digits := NatText(m);
    assert TrimStart(s) == s by {
      assert !IsParseWhite(s[0]);
    }
    assert TrimEnd(s) == s by {
      assert !IsParseWhite(s[|s| - 1]);
    }
    DigitsValueNatText(m);
    if n < 0 {
      assert s[1..] == digits;
      assert SignedValue(s) == Ok(n as int);
    } else {
      assert SignedValue(s) == Ok(n as int);
    }
  }

  /** Text with a character other than a digit, a sign or white space never
      parses. */
  lemma {:induction false} ParseRejectsForeignChar(s: string, i: int)
    requires 0 <= i < |s|
    requires !IsDigit(s[i]) && s[i] != '-' && s[i] != '+' && !IsParseWhite(s[i])
    ensures Parse(s) == Err(FormatException)
  {
    ForeignCharSurvivesTrim(s, i);
  }

  lemma {:induction false} ForeignCharSurvivesTrim(s: string, i: int)
    requires 0 <= i < |s|
    requires !IsDigit(s[i]) && s[i] != '-' && s[i] != '+' && !IsParseWhite(s[i])
    ensures var t := TrimEnd(TrimStart(s));
            exists j :: 0 <= j < |t| && t[j] == s[i]
  {
    var a := TrimStart(s);
    var k := ForeignCharInTrimStart(s, i);
    var b := TrimEnd(a);
    ForeignCharInTrimEnd(a, k);
  }

  lemma {:induction false} ForeignCharInTrimStart(s: string, i: int) returns (k: int)
    requires 0 <= i < |s| && !IsParseWhite(s[i])
    ensures 0 <= k < |TrimStart(s)| && TrimStart(s)[k] == s[i]
  {
    if IsParseWhite(s[0]) {
      assert i > 0;
      k := ForeignCharInTrimStart(s[1..], i - 1);
    } else {
      k := i;
    }
  }

  lemma {:induction false} ForeignCharInTrimEnd(s: string, i: int)
    requires 0 <= i < |s| && !IsParseWhite(s[i])
    ensures 0 <= i < |TrimEnd(s)| && TrimEnd(s)[i] == s[i]
  {
    if IsParseWhite(s[|s| - 1]) {
      ForeignCharInTrimEnd(s[..|s| - 1], i);
    }
  }
}
