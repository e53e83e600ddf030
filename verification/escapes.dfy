/**
 The escape-sequence builders behind the "clear", "move cursor" and
 "colored text" blocks, and a parser for the Control Sequence Introducer
 (CSI) form `ESC [ p1 ; p2 ; ... final` (ECMA-48 section 5.4) that serves as
 their inverse: every contract below is stated by decoding what was built.
 */
module Escapes {
  import opened Options
  import opened Text

  /** The escape character (0x1B) that opens every control sequence. */
  const Esc: char := 27 as char

  /** A control sequence: numeric parameters and the final character that names the function. */
  datatype Csi = Csi(params: seq<nat>, final: char)

  /** Parameters in decimal, separated by ';'. */
  function Params(ps: seq<nat>): string
    requires |ps| > 0
    decreases |ps|
  {
    if |ps| == 1 then Dec(ps[0]) else Dec(ps[0]) + ";" + Params(ps[1..])
  }

  /** The first position of `c` in `s`, if any. */
  function IndexOf(s: string, c: char): (r: Option<nat>)
    ensures r.None? ==> forall i :: 0 <= i < |s| ==> s[i] != c
    ensures r.Some? ==> r.value < |s| && s[r.value] == c && forall i :: 0 <= i < r.value ==> s[i] != c
  {
    if s == [] then None
    else if s[0] == c then Some(0)
    else match IndexOf(s[1..], c)
      case None => None
      case Some(i) => Some(i + 1)
  }

  /** Splits a parameter string at ';' and reads each run of digits; a run must be written as `Dec` writes numbers. */
  function ParseParams(b: string): Option<seq<nat>>
    decreases |b|
  {
    match IndexOf(b, ';')
    case None =>
      if Canonical(b) then Some([ParseDec(b)]) else None
    case Some(i) =>
      if Canonical(b[..i]) then
        match ParseParams(b[i + 1..])
        case Some(rest) => Some([ParseDec(b[..i])] + rest)
        case None => None
      else None
  }

  /** Decodes a complete control sequence, or reports that the text is not one. */
  function Parse(t: string): Option<Csi>
  {
    if |t| >= 3 && t[0] == Esc && t[1] == '[' then
      match ParseParams(t[2..|t| - 1])
      case Some(ps) => Some(Csi(ps, t[|t| - 1]))
      case None => None
    else None
  }

  lemma {:induction false} NoSeparatorInDigits(d: string)
    requires AllDigits(d)
    ensures IndexOf(d, ';') == None
  {
  }

  lemma {:induction false} SeparatorAfterDigits(d: string, tail: string)
    requires AllDigits(d)
    ensures IndexOf(d + ";" + tail, ';') == Some(|d|)
  {
    var b := d + ";" + tail;
    assert b[|d|] == ';';
    assert forall i :: 0 <= i < |d| ==> b[i] == d[i];
  }

  lemma HeadTail(ps: seq<nat>)
    requires |ps| > 0
    ensures [ps[0]] + ps[1..] == ps
    ensures |ps| == 1 ==> ps == [ps[0]]
  {
  }

  lemma ParseOneParam(p: nat)
    ensures ParseParams(Dec(p)) == Some([p])
  {
    NoSeparatorInDigits(Dec(p));
    ParseDecOfDec(p);
  }

  lemma ParseFirstParam(p: nat, tail: string)
    ensures ParseParams(Dec(p) + ";" + tail) ==
      match ParseParams(tail)
      case Some(rest) => Some([p] + rest)
      case None => None
  {
    var d := Dec(p);
    var b := d + ";" + tail;
    ParseDecOfDec(p);
    SeparatorAfterDigits(d, tail);
    assert b[..|d|] == d;
    assert b[|d| + 1..] == tail;
  }

  lemma {:induction false} ParseParamsOfParams(ps: seq<nat>)
    requires |ps| > 0
    ensures ParseParams(Params(ps)) == Some(ps)
    decreases |ps|
  {
    HeadTail(ps);
    if |ps| == 1 {
      ParseOneParam(ps[0]);
    } else {
      ParseFirstParam(ps[0], Params(ps[1..]));
      ParseParamsOfParams(ps[1..]);
    }
  }

  /** Whatever the parser accepts is exactly what `Params` writes for the numbers it reads. */
  lemma {:induction false} ParamsOfParseParams(b: string)
    requires ParseParams(b).Some?
    ensures |ParseParams(b).value| > 0 && Params(ParseParams(b).value) == b
    decreases |b|
  {
    match IndexOf(b, ';')
    case None =>
      DecOfParseDec(b);
    case Some(i) =>
      var d := b[..i];
      var tail := b[i + 1..];
      DecOfParseDec(d);
      ParamsOfParseParams(tail);
      var ps := ParseParams(b).value;
      assert ps == [ParseDec(d)] + ParseParams(tail).value;
      assert ps[1..] == ParseParams(tail).value;
      assert b == d + ";" + tail;
  }

  /** Writes a control sequence out; decoding the text gives the sequence back. */
  function Render(c: Csi): (r: string)
    requires |c.params| > 0
    ensures Parse(r) == Some(c)
    ensures |r| >= 4 && r[0] == Esc && r[1] == '[' && r[|r| - 1] == c.final
  {
    var r := [Esc, '['] + Params(c.params) + [c.final];
    ParseParamsOfParams(c.params);
    assert r[2..|r| - 1] == Params(c.params);
    r
  }

  /** Decoding is exact: a text that decodes to a sequence is that sequence's rendering, character for character. */
  lemma RenderOfParse(t: string)
    requires Parse(t).Some?
    ensures |Parse(t).value.params| > 0 && Render(Parse(t).value) == t
  {
    var c := Parse(t).value;
    ParamsOfParseParams(t[2..|t| - 1]);
    assert t == [t[0], t[1]] + t[2..|t| - 1] + [t[|t| - 1]];
  }

  /** Two texts that decode to the same sequence are the same text. */
  lemma ParseInjective(t: string, u: string)
    requires Parse(t).Some? && Parse(t) == Parse(u)
    ensures t == u
  {
    RenderOfParse(t);
    RenderOfParse(u);
  }

  /**
   A JavaScript number as `Scratch.Cast.toNumber` delivers it: finite or an
   infinity. The conversion turns NaN (and any text that does not read as a
   number) into 0, so NaN never reaches the cursor block.
   */
  datatype JsNumber = Finite(value: real) | Infinity(negative: bool)

  /** What `isFinite(n) && Math.floor(n) === n && n >= 0` accepts: a non-negative whole number. */
  predicate IsCellIndex(n: JsNumber) {
    n.Finite? && n.value.Floor as real == n.value && n.value >= 0.0
  }

  function CellIndex(n: JsNumber): nat
    requires IsCellIndex(n)
  {
    n.value.Floor
  }

  /** Cursor position (CUP, final 'H'): one-based row first, then one-based column; nothing for an invalid coordinate. */
  function CursorTo(x: JsNumber, y: JsNumber): (r: Option<string>)
    ensures r.Some? <==> IsCellIndex(x) && IsCellIndex(y)
    ensures r.Some? ==> Parse(r.value) == Some(Csi([CellIndex(y) + 1, CellIndex(x) + 1], 'H'))
  {
    if IsCellIndex(x) && IsCellIndex(y) then
      Some(Render(Csi([CellIndex(y) + 1, CellIndex(x) + 1], 'H')))
    else None
  }

  /** The erase targets in the order of their Erase-in-Display parameter 0, 1, 2, 3. */
  const EraseNames: seq<string> := ["after", "before", "screen", "scrollback"]

  /** Erase in Display (ED, final 'J') for a target named case-insensitively; nothing for any other name. */
  function EraseSequence(kind: string): (r: Option<string>)
    ensures r.Some? <==> ToLower(kind) in EraseNames
    ensures r.Some? ==>
      var p := Parse(r.value);
      && p.Some? && p.value.final == 'J' && |p.value.params| == 1
      && p.value.params[0] < |EraseNames| && EraseNames[p.value.params[0]] == ToLower(kind)
  {
    var k := ToLower(kind);
    if k == "after" then Some(Render(Csi([0], 'J')))
    else if k == "before" then Some(Render(Csi([1], 'J')))
    else if k == "screen" then Some(Render(Csi([2], 'J')))
    else if k == "scrollback" then Some(Render(Csi([3], 'J')))
    else None
  }

  /** The erase block ignores letter case: the name and its lower-case form emit the same thing. */
  lemma EraseIgnoresCase(kind: string)
    ensures EraseSequence(kind) == EraseSequence(ToLower(kind))
  {
    ToLowerFixesLower(kind);
  }

  /** A colour channel as `Scratch.Cast.toRgbColorList` delivers it. */
  type Channel = x: int | 0 <= x < 256

  datatype Rgb = Rgb(red: Channel, green: Channel, blue: Channel)

  /** Select Graphic Rendition 0: back to the default colours. */
  function Reset(): (r: string)
    ensures |r| == 4 && Parse(r) == Some(Csi([0], 'm'))
  {
    Render(Csi([0], 'm'))
  }

  /** The SGR selector for a 24-bit colour: 48 for a background, 38 for anything else. */
  function ColorSelector(kind: string): nat
  {
    if ToLower(kind) == "background" then 48 else 38
  }

  /** Text between a 24-bit colour sequence (SGR 38;2 or 48;2 with r;g;b) and a reset. */
  function ColoredText(text: string, color: Rgb, kind: string): (r: string)
    ensures |r| >= |text| + 8
    ensures Parse(r[..|r| - |text| - 4])
      == Some(Csi([ColorSelector(kind), 2, color.red, color.green, color.blue], 'm'))
    ensures r[|r| - |text| - 4..|r| - 4] == text
    ensures Parse(r[|r| - 4..]) == Some(Csi([0], 'm'))
  {
    var open := Render(Csi([ColorSelector(kind), 2, color.red, color.green, color.blue], 'm'));
    var r := open + text + Reset();
    assert r[..|r| - |text| - 4] == open;
    assert r[|r| - |text| - 4..|r| - 4] == text;
    assert r[|r| - 4..] == Reset();
    r
  }

  /** Moving to column 3, row 5 (zero-based) emits exactly ESC[6;4H; a negative, fractional or infinite coordinate emits nothing. */
  lemma CursorToExamples()
    ensures CursorTo(Finite(3.0), Finite(5.0)) == Some([Esc] + "[6;4H")
    ensures CursorTo(Finite(-1.0), Finite(0.0)) == None
    ensures CursorTo(Finite(0.5), Finite(0.0)) == None
    ensures CursorTo(Finite(0.0), Infinity(false)) == None
  {
    var ps: seq<nat> := [6, 4];
    assert ps[1..] == [4];
    assert Params(ps) == "6;4";
    assert Render(Csi(ps, 'H')) == [Esc] + "[6;4H";
  }

  /** A zero-padded parameter is not how the bridge writes numbers, so it does not decode. */
  lemma ZeroPaddedRejected()
    ensures Parse([Esc] + "[06;4H") == None
  {
    var b := "06;4";
    assert ([Esc] + "[06;4H")[2..6] == b;
    assert b[2] == ';' && b[0] != ';' && b[1] != ';';
    assert IndexOf(b, ';') == Some(2);
    assert !Canonical(b[..2]);
  }

  lemma ColoredTextParts(text: string, color: Rgb, kind: string)
    ensures ColoredText(text, color, kind)
      == Render(Csi([ColorSelector(kind), 2, color.red, color.green, color.blue], 'm')) + text + Reset()
  {
  }

  lemma RenderText(c: Csi, t: string)
    requires |c.params| > 0 && Params(c.params) == t
    ensures Render(c) == [Esc] + "[" + t + [c.final]
  {
  }

  lemma ResetText()
    ensures Reset() == [Esc] + "[0m"
  {
    assert Params([0]) == "0";
    RenderText(Csi([0], 'm'), "0");
  }

  lemma ParamsCons(p: nat, ps: seq<nat>)
    requires |ps| > 0
    ensures Params([p] + ps) == Dec(p) + ";" + Params(ps)
  {
    assert ([p] + ps)[1..] == ps;
  }

  lemma Params3(a: nat, b: nat, c: nat)
    ensures Params([a, b, c]) == Dec(a) + ";" + Dec(b) + ";" + Dec(c)
  {
    ParamsCons(b, [c]);
    assert [b] + [c] == [b, c];
    ParamsCons(a, [b, c]);
    assert [a] + [b, c] == [a, b, c];
    AppendAssoc(Dec(a) + ";", Dec(b) + ";", Dec(c));
  }

  lemma AppendAssoc(a: string, b: string, c: string)
    ensures a + (b + c) == a + b + c
  {
  }

  lemma Params4(a: nat, b: nat, c: nat, d: nat)
    ensures Params([a, b, c, d]) == Dec(a) + ";" + Dec(b) + ";" + Dec(c) + ";" + Dec(d)
  {
    Params3(b, c, d);
    ParamsCons(a, [b, c, d]);
    assert [a] + [b, c, d] == [a, b, c, d];
    AppendAssoc(Dec(a) + ";", Dec(b) + ";" + Dec(c) + ";", Dec(d));
    AppendAssoc(Dec(a) + ";", Dec(b) + ";" + Dec(c), ";");
    AppendAssoc(Dec(a) + ";", Dec(b) + ";", Dec(c));
    AppendAssoc(Dec(a) + ";", Dec(b), ";");
  }

  lemma Params5(a: nat, b: nat, c: nat, d: nat, e: nat)
    ensures Params([a, b, c, d, e]) == Dec(a) + ";" + Dec(b) + ";" + Dec(c) + ";" + Dec(d) + ";" + Dec(e)
  {
    Params4(b, c, d, e);
    ParamsCons(a, [b, c, d, e]);
    assert [a] + [b, c, d, e] == [a, b, c, d, e];
    var x := Dec(a) + ";";
    AppendAssoc(x, Dec(b) + ";" + Dec(c) + ";" + Dec(d) + ";", Dec(e));
    AppendAssoc(x, Dec(b) + ";" + Dec(c) + ";" + Dec(d), ";");
    AppendAssoc(x, Dec(b) + ";" + Dec(c) + ";", Dec(d));
    AppendAssoc(x, Dec(b) + ";" + Dec(c), ";");
    AppendAssoc(x, Dec(b) + ";", Dec(c));
    AppendAssoc(x, Dec(b), ";");
  }

  lemma ColorParams(sel: nat, color: Rgb)
    ensures Params([sel, 2, color.red, color.green, color.blue])
      == Dec(sel) + ";2;" + Dec(color.red) + ";" + Dec(color.green) + ";" + Dec(color.blue)
  {
    Params5(sel, 2, color.red, color.green, color.blue);
    assert Dec(2) == "2";
    AppendAssoc(Dec(sel) + ";", "2", ";");
  }

  /** The opening colour sequence, as its template literal writes it: ESC[48;2;r;g;bm for a background, ESC[38;2;r;g;bm otherwise. */
  lemma OpeningText(color: Rgb, kind: string)
    ensures Render(Csi([ColorSelector(kind), 2, color.red, color.green, color.blue], 'm'))
      == [Esc] + "[" + (if ToLower(kind) == "background" then "48" else "38") + ";2;"
         + Dec(color.red) + ";" + Dec(color.green) + ";" + Dec(color.blue) + "m"
  {
    var sel := ColorSelector(kind);
    var s := if ToLower(kind) == "background" then "48" else "38";
    assert Dec(sel) == s;
    var r, g, b := Dec(color.red), Dec(color.green), Dec(color.blue);
    ColorParams(sel, color);
    RenderText(Csi([sel, 2, color.red, color.green, color.blue], 'm'), s + ";2;" + r + ";" + g + ";" + b);
    var e := [Esc] + "[";
    AppendAssoc(e, s + ";2;" + r + ";" + g + ";", b);
    AppendAssoc(e, s + ";2;" + r + ";" + g, ";");
    AppendAssoc(e, s + ";2;" + r + ";", g);
    AppendAssoc(e, s + ";2;" + r, ";");
    AppendAssoc(e, s + ";2;", r);
    AppendAssoc(e, s, ";2;");
  }

  /**
   The colour block's exact output, as its template literal writes it: the
   opening sequence, the text, then ESC[0m.
   */
  lemma ColoredTextExact(text: string, color: Rgb, kind: string)
    ensures ColoredText(text, color, kind)
      == [Esc] + "[" + (if ToLower(kind) == "background" then "48" else "38") + ";2;"
         + Dec(color.red) + ";" + Dec(color.green) + ";" + Dec(color.blue) + "m"
         + text + ([Esc] + "[0m")
  {
    ColoredTextParts(text, color, kind);
    OpeningText(color, kind);
    ResetText();
  }

  /** The cursor block's exact output for valid cells: ESC[, the one-based row, ';', the one-based column, 'H'. */
  lemma CursorToExact(x: JsNumber, y: JsNumber)
    requires IsCellIndex(x) && IsCellIndex(y)
    ensures CursorTo(x, y) == Some([Esc] + "[" + Dec(CellIndex(y) + 1) + ";" + Dec(CellIndex(x) + 1) + "H")
  {
    var row, col := CellIndex(y) + 1, CellIndex(x) + 1;
    var t := Dec(row) + ";" + Dec(col);
    ParamsCons(row, [col]);
    assert [row] + [col] == [row, col];
    RenderText(Csi([row, col], 'H'), t);
    var e := [Esc] + "[";
    AppendAssoc(e, Dec(row) + ";", Dec(col));
    AppendAssoc(e, Dec(row), ";");
  }


}
