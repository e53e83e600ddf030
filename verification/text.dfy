/**
 Character-level helpers shared by the bridge: decimal rendering of
 numbers, ASCII lower-casing of menu values, and the UTF-16 code units that
 JavaScript's `charCodeAt` reports for a string.
 */
module Text {
  import opened Options

  /** A UTF-16 code unit: what `charCodeAt` returns and what the emulator's keyboard channel receives. */
  type CodeUnit = x: int | 0 <= x < 0x1_0000

  predicate IsDigit(c: char) {
    '0' <= c <= '9'
  }

  predicate AllDigits(s: string) {
    forall i :: 0 <= i < |s| ==> IsDigit(s[i])
  }

  function DigitChar(d: nat): (c: char)
    requires d < 10
    ensures IsDigit(c)
  {
    ('0' as int + d) as char
  }

  function DigitValue(c: char): (d: nat)
    requires IsDigit(c)
    ensures d < 10 && DigitChar(d) == c
  {
    c as int - '0' as int
  }

  /** A decimal numeral as a template literal writes one: digits only, and no leading zero unless it is "0" itself. */
  predicate Canonical(s: string) {
    |s| > 0 && AllDigits(s) && (s[0] == '0' ==> |s| == 1)
  }

  /** The decimal rendering of a non-negative integer, as a template literal renders it: no sign, no leading zero. */
  function Dec(n: nat): (r: string)
    ensures Canonical(r)
  {
    if n < 10 then [DigitChar(n)] else Dec(n / 10) + [DigitChar(n % 10)]
  }

  /** Reads a run of decimal digits back as a number; the empty run reads as zero. */
  function ParseDec(s: string): nat
    requires AllDigits(s)
  {
    if s == [] then 0 else 10 * ParseDec(s[..|s| - 1]) + DigitValue(s[|s| - 1])
  }

  /** Reading back a rendered number gives the number: `Dec` loses nothing. */
  lemma {:induction false} ParseDecOfDec(n: nat)
    ensures ParseDec(Dec(n)) == n
  {
    var r := Dec(n);
    if n >= 10 {
      assert r[..|r| - 1] == Dec(n / 10);
      ParseDecOfDec(n / 10);
    }
  }

  /** A run of digits that reads as zero is all zeros. */
  lemma {:induction false} ParseDecZero(s: string)
    requires AllDigits(s) && ParseDec(s) == 0
    ensures forall i :: 0 <= i < |s| ==> s[i] == '0'
  {
    if s != [] {
      var p := s[..|s| - 1];
      ParseDecZero(p);
      assert forall i :: 0 <= i < |p| ==> s[i] == p[i];
    }
  }

  /** Rendering a canonical numeral's value gives the numeral back: `Dec` and `ParseDec` are inverse on canonical text. */
  lemma {:induction false} DecOfParseDec(s: string)
    requires Canonical(s)
    ensures Dec(ParseDec(s)) == s
    decreases |s|
  {
    var n := ParseDec(s);
    var p := s[..|s| - 1];
    var v := DigitValue(s[|s| - 1]);
    if |s| == 1 {
      assert p == [] && ParseDec(p) == 0;
      assert n == 10 * ParseDec(p) + v;
    } else {
      assert p[0] == s[0];
      if ParseDec(p) == 0 {
        ParseDecZero(p);
        assert false;
      }
      assert n == 10 * ParseDec(p) + v;
      assert n / 10 == ParseDec(p) && n % 10 == v;
      DecOfParseDec(p);
      assert s == p + [s[|s| - 1]];
    }
  }

  /** Distinct numbers render differently. */
  lemma DecInjective(m: nat, n: nat)
    requires Dec(m) == Dec(n)
    ensures m == n
  {
    ParseDecOfDec(m);
    ParseDecOfDec(n);
  }

  /** Lower-cases the ASCII letters A-Z and leaves every other character alone. */
  function LowerChar(c: char): (r: char)
    ensures !('A' <= r <= 'Z')
    ensures 'A' <= c <= 'Z' ==> r as int == c as int + 32
    ensures !('A' <= c <= 'Z') ==> r == c
  {
    if 'A' <= c <= 'Z' then (c as int + 32) as char else c
  }

  /** The lower-casing applied to menu values before they are compared. */
  function ToLower(s: string): (r: string)
    ensures |r| == |s|
    ensures forall i :: 0 <= i < |s| ==> r[i] == LowerChar(s[i])
  {
    if s == [] then [] else [LowerChar(s[0])] + ToLower(s[1..])
  }

  predicate HasNoUpper(s: string) {
    forall i :: 0 <= i < |s| ==> !('A' <= s[i] <= 'Z')
  }

  /** A string without upper-case letters is its own lower-case form, and lower-casing twice is lower-casing once. */
  lemma ToLowerFixesLower(s: string)
    ensures HasNoUpper(s) <==> ToLower(s) == s
    ensures ToLower(ToLower(s)) == ToLower(s)
  {
    if ToLower(s) == s {
      forall i | 0 <= i < |s| ensures !('A' <= s[i] <= 'Z') {
        assert s[i] == LowerChar(s[i]);
      }
    }
  }

  predicate IsHighSurrogate(u: CodeUnit) {
    0xD800 <= u < 0xDC00
  }

  predicate IsLowSurrogate(u: CodeUnit) {
    0xDC00 <= u < 0xE000
  }

  /** The UTF-16 code units of one character: one unit in the basic plane, a surrogate pair above it. */
  function Utf16(c: char): (r: seq<CodeUnit>)
    ensures c as int < 0x1_0000 <==> |r| == 1
    ensures c as int < 0x1_0000 ==> r[0] == c as int && !IsHighSurrogate(r[0]) && !IsLowSurrogate(r[0])
    ensures c as int >= 0x1_0000 ==> |r| == 2 && IsHighSurrogate(r[0]) && IsLowSurrogate(r[1])
  {
    var v := c as int;
    if v < 0x1_0000 then [v]
    else [0xD800 + (v - 0x1_0000) / 0x400, 0xDC00 + (v - 0x1_0000) % 0x400]
  }

  /** The code units of a string in order, i.e. `charCodeAt(0)`, ..., `charCodeAt(length - 1)`. */
  function CodeUnits(s: string): (r: seq<CodeUnit>)
    ensures |r| >= |s|
  {
    if s == [] then [] else Utf16(s[0]) + CodeUnits(s[1..])
  }

  /** Joins a surrogate pair back into the character it encodes. */
  function FromPair(hi: CodeUnit, lo: CodeUnit): char
    requires IsHighSurrogate(hi) && IsLowSurrogate(lo)
  {
    (0x1_0000 + (hi - 0xD800) * 0x400 + (lo - 0xDC00)) as char
  }

  /** Decodes a sequence of code units; a lone or misplaced surrogate is malformed. */
  function DecodeUtf16(u: seq<CodeUnit>): Option<string>
    decreases |u|
  {
    if u == [] then Some([])
    else if IsHighSurrogate(u[0]) then
      if |u| >= 2 && IsLowSurrogate(u[1]) then
        match DecodeUtf16(u[2..])
        case Some(rest) => Some([FromPair(u[0], u[1])] + rest)
        case None => None
      else None
    else if IsLowSurrogate(u[0]) then None
    else
      match DecodeUtf16(u[1..])
      case Some(rest) => Some([u[0] as char] + rest)
      case None => None
  }

  lemma PairRoundTrip(c: char)
    requires c as int >= 0x1_0000
    ensures FromPair(Utf16(c)[0], Utf16(c)[1]) == c
  {
    var v := c as int - 0x1_0000;
    assert (v / 0x400) * 0x400 + v % 0x400 == v;
  }

  /** The keyboard codes sent for a string identify it exactly: decoding them gives the string back. */
  lemma {:induction false} DecodeCodeUnits(s: string)
    ensures DecodeUtf16(CodeUnits(s)) == Some(s)
  {
    if s != [] {
      var u := CodeUnits(s);
      var head := Utf16(s[0]);
      DecodeCodeUnits(s[1..]);
      if s[0] as int < 0x1_0000 {
        assert u[1..] == CodeUnits(s[1..]);
        assert u[0] as char == s[0];
        assert [s[0]] + s[1..] == s;
      } else {
        assert u[2..] == CodeUnits(s[1..]);
        PairRoundTrip(s[0]);
        assert [s[0]] + s[1..] == s;
      }
    }
  }

  predicate InBasicPlane(s: string) {
    forall i :: 0 <= i < |s| ==> s[i] as int < 0x1_0000
  }

  /** In the basic multilingual plane there is one code unit per character, equal to the character's value. */
  lemma {:induction false} CodeUnitsBasicPlane(s: string)
    requires InBasicPlane(s)
    ensures |CodeUnits(s)| == |s|
    ensures forall i :: 0 <= i < |s| ==> CodeUnits(s)[i] == s[i] as int
  {
    if s != [] {
      CodeUnitsBasicPlane(s[1..]);
    }
  }

  /** Code units of a concatenation are the concatenation of code units. */
  lemma {:induction false} CodeUnitsAppend(a: string, b: string)
    ensures CodeUnits(a + b) == CodeUnits(a) + CodeUnits(b)
  {
    if a != [] {
      assert (a + b)[0] == a[0];
      assert (a + b)[1..] == a[1..] + b;
      CodeUnitsAppend(a[1..], b);
      assert CodeUnits(a + b) == Utf16(a[0]) + (CodeUnits(a[1..]) + CodeUnits(b));
    } else {
      assert a + b == b;
    }
  }
}
