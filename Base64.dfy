/** Standard, padded base64 (section 4 of RFC 4648) as produced by
    `Convert.ToBase64String` and accepted by `Convert.FromBase64String`. */
module Base64 {
  import opened Primitives

  /** The symbol for a 6-bit value: A-Z, a-z, 0-9, '+', '/'. */
  function Symbol(v: int): (c: char)
    requires 0 <= v < 64
    ensures SymbolValue(c) == Some(v)
  {
    if v < 26 then ('A' as int + v) as char
    else if v < 52 then ('a' as int + (v - 26)) as char
    else if v < 62 then ('0' as int + (v - 52)) as char
    else if v == 62 then '+'
    else '/'
  }

  /** The 6-bit value of a symbol, or None for a character outside the alphabet. */
  function SymbolValue(c: char): (r: Option<int>)
    ensures r.Some? ==> 0 <= r.value < 64
    ensures c == '=' ==> r.None?
  {
    if 'A' <= c <= 'Z' then Some(c as int - 'A' as int)
    else if 'a' <= c <= 'z' then Some(c as int - 'a' as int + 26)
    else if '0' <= c <= '9' then Some(c as int - '0' as int + 52)
    else if c == '+' then Some(62)
    else if c == '/' then Some(63)
    else None
  }

  predicate IsSymbol(c: char) {
    SymbolValue(c).Some?
  }

  /** What an encoder may emit: alphabet symbols and the pad character. */
  predicate IsEncodingChar(c: char) {
    IsSymbol(c) || c == '='
  }

  /** Four symbols for three bytes. */
  function EncodeBlock(b0: byte, b1: byte, b2: byte): string {
    [Symbol(b0 / 4), Symbol(b0 % 4 * 16 + b1 / 16), Symbol(b1 % 16 * 4 + b2 / 64), Symbol(b2 % 64)]
  }

  /** `Convert.ToBase64String`: every three bytes become four symbols and a short
      final group is completed with '=' padding. */
  function Encode(b: seq<byte>): (s: string)
    ensures |s| == 4 * ((|b| + 2) / 3)
    decreases |b|
  {
    if |b| == 0 then ""
    else if |b| == 1 then [Symbol(b[0] / 4), Symbol(b[0] % 4 * 16), '=', '=']
    else if |b| == 2 then [Symbol(b[0] / 4), Symbol(b[0] % 4 * 16 + b[1] / 16), Symbol(b[1] % 16 * 4), '=']
    else
      assert (|b| + 2) / 3 == (|b[3..]| + 2) / 3 + 1;
      EncodeBlock(b[0], b[1], b[2]) + Encode(b[3..])
  }

  /** The encoder emits only alphabet symbols and the pad character, so a
      character outside those never occurs in its output. */
  lemma {:induction false} EncodeChars(b: seq<byte>, c: char)
    requires !IsEncodingChar(c)
    ensures forall i :: 0 <= i < |Encode(b)| ==> IsEncodingChar(Encode(b)[i])
    ensures c !in Encode(b)
    decreases |b|
  {
    if |b| >= 3 {
      EncodeChars(b[3..], c);
      var block, rest := EncodeBlock(b[0], b[1], b[2]), Encode(b[3..]);
      assert Encode(b) == block + rest;
      forall i | 0 <= i < |Encode(b)| ensures IsEncodingChar(Encode(b)[i]) {
        if i >= 4 {
          assert Encode(b)[i] == rest[i - 4];
        }
      }
    }
  }

  /** The characters `Convert.FromBase64String` skips wherever they appear. */
  predicate IsSkippedWhite(c: char) {
    c == ' ' || c == '\t' || c == '\r' || c == '\n'
  }

  function RemoveWhite(s: string): (t: string)
    ensures forall i :: 0 <= i < |t| ==> !IsSkippedWhite(t[i])
    ensures |t| <= |s|
  {
    if s == [] then []
    else if IsSkippedWhite(s[0]) then RemoveWhite(s[1..])
    else [s[0]] + RemoveWhite(s[1..])
  }

  lemma {:induction false} RemoveWhiteNoWhite(s: string)
    requires forall i :: 0 <= i < |s| ==> !IsSkippedWhite(s[i])
    ensures RemoveWhite(s) == s
  {
    if s != [] {
      RemoveWhiteNoWhite(s[1..]);
    }
  }

  /** The three bytes of a group of four symbols with values v0..v3. */
  function DecodeValues(v0: int, v1: int, v2: int, v3: int): seq<byte>
    requires 0 <= v0 < 64 && 0 <= v1 < 64 && 0 <= v2 < 64 && 0 <= v3 < 64
  {
    [v0 * 4 + v1 / 16, v1 % 16 * 16 + v2 / 4, v2 % 4 * 64 + v3]
  }

  /** A group of four that is not the last one: four symbols, no padding. */
  function DecodeFull(q: string): (r: Option<seq<byte>>)
    requires |q| == 4
    ensures r.Some? ==> |r.value| == 3
  {
    var v0, v1, v2, v3 := SymbolValue(q[0]), SymbolValue(q[1]), SymbolValue(q[2]), SymbolValue(q[3]);
    if v0.Some? && v1.Some? && v2.Some? && v3.Some? then
      Some(DecodeValues(v0.value, v1.value, v2.value, v3.value))
    else None
  }

  /** The last group of four: four symbols, or two or three symbols followed by
      padding. Bits of the last symbol that fall past the final byte are ignored. */
  function DecodeFinal(q: string): (r: Option<seq<byte>>)
    requires |q| == 4
    ensures r.Some? ==> 1 <= |r.value| <= 3
    ensures r.Some? && |r.value| < 3 ==> q[3] == '='
  {
    var v0, v1, v2, v3 := SymbolValue(q[0]), SymbolValue(q[1]), SymbolValue(q[2]), SymbolValue(q[3]);
    if v0.None? || v1.None? then None
    else if q[2] == '=' && q[3] == '=' then Some([v0.value * 4 + v1.value / 16])
    else if v2.Some? && q[3] == '=' then Some([v0.value * 4 + v1.value / 16, v1.value % 16 * 16 + v2.value / 4])
    else if v2.Some? && v3.Some? then Some(DecodeValues(v0.value, v1.value, v2.value, v3.value))
    else None
  }

  /** Whole groups of four, the last of which may be padded; a trailing group
      of one to three characters is malformed. */
  function DecodeGroups(t: string): (r: Result<seq<byte>>)
    ensures r.Err? ==> r.error == FormatException
    decreases |t|
  {
    if |t| == 0 then Ok([])
    else if |t| < 4 then Err(FormatException)
    else if |t| == 4 then
      match DecodeFinal(t)
      case None => Err(FormatException)
      case Some(bs) => Ok(bs)
    else
      match DecodeFull(t[..4])
      case None => Err(FormatException)
      case Some(bs) =>
        match DecodeGroups(t[4..])
        case Err(e) => Err(e)
        case Ok(rest) => Ok(bs + rest)
  }

  /** `Convert.FromBase64String`: white space is skipped, the rest must be whole
      groups of four with padding only at the end; anything else raises a
      FormatException. */
  function Decode(s: string): (r: Result<seq<byte>>)
    ensures r.Err? ==> r.error == FormatException
  {
    DecodeGroups(RemoveWhite(s))
  }

  lemma {:induction false} BlockRoundTrip(b0: byte, b1: byte, b2: byte)
    ensures DecodeFull(EncodeBlock(b0, b1, b2)) == Some([b0, b1, b2])
    ensures DecodeFinal(EncodeBlock(b0, b1, b2)) == Some([b0, b1, b2])
  {
    var v0, v1, v2, v3 := b0 / 4, b0 % 4 * 16 + b1 / 16, b1 % 16 * 4 + b2 / 64, b2 % 64;
    assert v1 / 16 == b0 % 4 && v1 % 16 == b1 / 16;
    assert v2 / 4 == b1 % 16 && v2 % 4 == b2 / 64;
    assert DecodeValues(v0, v1, v2, v3) == [b0, b1, b2];
  }

  lemma {:induction false} DecodeGroupsEncode(b: seq<byte>)
    ensures DecodeGroups(Encode(b)) == Ok(b)
    decreases |b|
  {
    if |b| == 0 {
    } else if |b| == 1 {
      OneByteRoundTrip(b);
    } else if |b| == 2 {
      TwoBytesRoundTrip(b);
    } else if |b| == 3 {
      BlockRoundTrip(b[0], b[1], b[2]);
      assert Encode(b) == EncodeBlock(b[0], b[1], b[2]) by {
        assert b[3..] == [];
      }
      assert [b[0], b[1], b[2]] == b;
    } else {
      DecodeGroupsEncode(b[3..]);
      LongerRoundTrip(b);
    }
  }

  lemma {:induction false} OneByteRoundTrip(b: seq<byte>)
    requires |b| == 1
    ensures DecodeGroups(Encode(b)) == Ok(b)
  {
    var v1 := b[0] % 4 * 16;
    assert v1 / 16 == b[0] % 4;
    assert DecodeFinal(Encode(b)) == Some([b[0]]);
    assert [b[0]] == b;
  }

  lemma {:induction false} TwoBytesRoundTrip(b: seq<byte>)
    requires |b| == 2
    ensures DecodeGroups(Encode(b)) == Ok(b)
  {
    var v1, v2 := b[0] % 4 * 16 + b[1] / 16, b[1] % 16 * 4;
    assert v1 / 16 == b[0] % 4 && v1 % 16 == b[1] / 16 && v2 / 4 == b[1] % 16;
    assert DecodeFinal(Encode(b)) == Some([b[0], b[1]]);
    assert [b[0], b[1]] == b;
  }

  /** One full group in front of an encoding that already decodes. */
  lemma {:induction false} LongerRoundTrip(b: seq<byte>)
    requires |b| > 3
    requires DecodeGroups(Encode(b[3..])) == Ok(b[3..])
    ensures DecodeGroups(Encode(b)) == Ok(b)
  {
    var block, rest := EncodeBlock(b[0], b[1], b[2]), Encode(b[3..]);
    assert Encode(b) == block + rest;
    BlockRoundTrip(b[0], b[1], b[2]);
    GroupsCons(block, rest);
    assert [b[0], b[1], b[2]] + b[3..] == b;
  }

  /** A full group in front of further groups decodes to its three bytes
      followed by the bytes of the rest. */
  lemma {:induction false} GroupsCons(q: string, rest: string)
    requires |q| == 4 && |rest| > 0
    ensures DecodeFull(q).Some? && DecodeGroups(rest).Ok? ==>
      DecodeGroups(q + rest) == Ok(DecodeFull(q).value + DecodeGroups(rest).value)
  {
    assert (q + rest)[..4] == q && (q + rest)[4..] == rest;
  }

  lemma {:induction false} EncodingCharNotWhite(c: char)
    requires IsEncodingChar(c)
    ensures !IsSkippedWhite(c)
  {
  }

  /** Decoding inverts encoding. */
  lemma {:induction false} DecodeEncode(b: seq<byte>)
    ensures Decode(Encode(b)) == Ok(b)
  {
    var s := Encode(b);
    EncodeChars(b, ' ');
    forall i | 0 <= i < |s| ensures !IsSkippedWhite(s[i]) {
      EncodingCharNotWhite(s[i]);
    }
    RemoveWhiteNoWhite(s);
    DecodeGroupsEncode(b);
  }

  /** Encoding is injective: distinct byte sequences have distinct texts. */
  lemma {:induction false} EncodeInjective(a: seq<byte>, b: seq<byte>)
    requires Encode(a) == Encode(b)
    ensures a == b
  {
    DecodeEncode(a);
    DecodeEncode(b);
  }

  /** The texts `Convert.FromBase64String` accepts once white space is removed:
      whole groups of four; every character an alphabet symbol except that the
      last group may end in "=" or "=="; no padding anywhere else. */
  predicate WellFormedGroups(t: string) {
    && |t| % 4 == 0
    && (forall j :: 0 <= j < |t| - 2 ==> IsSymbol(t[j]))
    && (|t| >= 4 ==>
          && (IsSymbol(t[|t| - 2]) || (t[|t| - 2] == '=' && t[|t| - 1] == '='))
          && (IsSymbol(t[|t| - 1]) || t[|t| - 1] == '='))
  }

  /** Decoding succeeds exactly on well-formed texts. */
  lemma {:induction false} DecodeAccepts(s: string)
    ensures Decode(s).Ok? <==> WellFormedGroups(RemoveWhite(s))
  {
    DecodeGroupsAccepts(RemoveWhite(s));
  }

  lemma {:induction false} DecodeGroupsAccepts(t: string)
    ensures DecodeGroups(t).Ok? <==> WellFormedGroups(t)
    decreases |t|
  {
    if |t| > 4 {
      DecodeGroupsAccepts(t[4..]);
      WellFormedCons(t);
    }
  }

  /** A text longer than one group is well formed exactly when its first group
      is four symbols and the rest is well formed. */
  lemma {:induction false} WellFormedCons(t: string)
    requires |t| > 4
    ensures WellFormedGroups(t) <==>
      (forall j :: 0 <= j < 4 ==> IsSymbol(t[j])) && WellFormedGroups(t[4..])
  {
    var rest := t[4..];
    assert |t| % 4 == 0 <==> |rest| % 4 == 0;
    if |t| % 4 == 0 {
      assert |t| >= 8;
      assert t[|t| - 2] == rest[|rest| - 2] && t[|t| - 1] == rest[|rest| - 1];
      assert (forall j :: 0 <= j < |t| - 2 ==> IsSymbol(t[j])) <==>
        (forall j :: 0 <= j < 4 ==> IsSymbol(t[j])) && (forall j :: 0 <= j < |rest| - 2 ==> IsSymbol(rest[j])) by {
        forall j | 4 <= j < |t| - 2 ensures t[j] == rest[j - 4] {
        }
      }
    }
  }

  /** A character that is neither in the alphabet, nor the pad, nor skipped
      white space makes decoding fail. */
  lemma {:induction false} DecodeRejectsForeignChar(s: string, i: int)
    requires 0 <= i < |s| && !IsEncodingChar(s[i]) && !IsSkippedWhite(s[i])
    ensures Decode(s) == Err(FormatException)
  {
    var t := RemoveWhite(s);
    var j := RemoveWhiteKeeps(s, i);
    DecodeAccepts(s);
    if |t| >= 4 && j >= |t| - 2 {
      assert j == |t| - 2 || j == |t| - 1;
    }
  }

  /** A character that is not skipped white space survives white-space removal. */
  lemma {:induction false} RemoveWhiteKeeps(s: string, i: int) returns (j: int)
    requires 0 <= i < |s| && !IsSkippedWhite(s[i])
    ensures 0 <= j < |RemoveWhite(s)| && RemoveWhite(s)[j] == s[i]
    decreases |s|
  {
    if i == 0 {
      j := 0;
    } else {
      var k := RemoveWhiteKeeps(s[1..], i - 1);
      j := if IsSkippedWhite(s[0]) then k else k + 1;
    }
  }
}
