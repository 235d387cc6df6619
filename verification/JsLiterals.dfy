// String literals as scripts/apply-i18n-translations.ts prints them, and as
// section 12.9.4 of ECMA-262 reads them back (strict-mode code, since locale
// files are modules).
module JsLiterals {
  import opened Prelude

  /** A UTF-16 code unit, and a string of them. */
  type Unit = u: int | 0 <= u < 0x1_0000
  type Text = seq<Unit>

  const TAB: Unit := 0x09
  const LF: Unit := 0x0A
  const CR: Unit := 0x0D
  const QUOTE: Unit := 0x27
  const BACKSLASH: Unit := 0x5C
  const LS: Unit := 0x2028
  const PS: Unit := 0x2029

  // ------------------------------------------------------------------
  // Printing
  // ------------------------------------------------------------------

  function HexUnit(v: int): Unit
    requires 0 <= v < 16
  {
    if v < 10 then 0x30 + v else 0x61 + (v - 10)
  }

  /** Four lower-case hexadecimal digits, zero-padded. */
  function Hex4(u: Unit): Text {
    [HexUnit(u / 16 / 16 / 16), HexUnit(u / 16 / 16 % 16), HexUnit(u / 16 % 16), HexUnit(u % 16)]
  }

  predicate NeedsEscape(u: Unit) {
    u == BACKSLASH || u == QUOTE || u < 0x20 || u == LS || u == PS
  }

  function EscapeUnit(u: Unit): Text {
    if !NeedsEscape(u) then [u]
    else if u == BACKSLASH then [BACKSLASH, BACKSLASH]
    else if u == QUOTE then [BACKSLASH, QUOTE]
    else if u == LF then [BACKSLASH, 0x6E]
    else if u == CR then [BACKSLASH, 0x72]
    else if u == TAB then [BACKSLASH, 0x74]
    else [BACKSLASH, 0x75] + Hex4(u)
  }

  function Escaped(s: Text): Text {
    if s == [] then [] else EscapeUnit(s[0]) + Escaped(s[1..])
  }

  function JsString(s: Text): Text {
    [QUOTE] + Escaped(s) + [QUOTE]
  }

  // ------------------------------------------------------------------
  // Reading
  // ------------------------------------------------------------------

  function HexValue(u: Unit): Option<int> {
    if 0x30 <= u <= 0x39 then Some(u - 0x30)
    else if 0x61 <= u <= 0x66 then Some(u - 0x61 + 10)
    else if 0x41 <= u <= 0x46 then Some(u - 0x41 + 10)
    else None
  }

  /** The value of exactly `n` hexadecimal digits at the front. */
  function HexRun(t: Text, n: nat, acc: int): Option<int> {
    if n == 0 then Some(acc)
    else if t == [] then None
    else match HexValue(t[0])
      case None => None
      case Some(v) => HexRun(t[1..], n - 1, acc * 16 + v)
  }

  /** The digits of a braced escape, up to its closing brace; at least one, at most 0x10FFFF. */
  function BracedRun(t: Text, acc: int, some: bool): (r: Option<(int, Text)>)
    ensures r.Some? ==> |r.value.1| < |t|
  {
    if t == [] || acc > 0x10_FFFF then None
    else if t[0] == 0x7D then (if some then Some((acc, t[1..])) else None)
    else match HexValue(t[0])
      case None => None
      case Some(v) => BracedRun(t[1..], acc * 16 + v, true)
  }

  function CodePointUnits(cp: int): Text
    requires 0 <= cp
  {
    if cp < 0x1_0000 then [cp]
    else if cp <= 0x10_FFFF then [0xD800 + (cp - 0x1_0000) / 0x400, 0xDC00 + (cp - 0x1_0000) % 0x400]
    else []
  }

  function HexEscape(v: int, t: Text, n: nat): (r: Option<(Text, Text)>)
    ensures r.Some? ==> |r.value.1| <= |t|
  {
    if 0 <= v < 0x1_0000 && n <= |t| then
      var u: Unit := v;
      Some(([u], t[n..]))
    else None
  }

  /** What follows a backslash: the units it stands for, and the rest. */
  function ScanEscape(t: Text): (r: Option<(Text, Text)>)
    ensures r.Some? ==> |r.value.1| < |t|
  {
    if t == [] then None
    else
      var e, rest := t[0], t[1..];
      if e == CR && rest != [] && rest[0] == LF then Some(([], rest[1..]))
      else if e == LF || e == CR || e == LS || e == PS then Some(([], rest))
      else if e == 0x62 then Some(([0x08], rest))
      else if e == 0x66 then Some(([0x0C], rest))
      else if e == 0x6E then Some(([LF], rest))
      else if e == 0x72 then Some(([CR], rest))
      else if e == 0x74 then Some(([TAB], rest))
      else if e == 0x76 then Some(([0x0B], rest))
      else if e == 0x78 then
        match HexRun(rest, 2, 0)
        case Some(v) => HexEscape(v, rest, 2)
        case None => None
      else if e == 0x75 && rest != [] && rest[0] == 0x7B then
        match BracedRun(rest[1..], 0, false)
        case Some((cp, after)) => if 0 <= cp <= 0x10_FFFF then Some((CodePointUnits(cp), after)) else None
        case None => None
      else if e == 0x75 then
        match HexRun(rest, 4, 0)
        case Some(v) => HexEscape(v, rest, 4)
        case None => None
      else if e == 0x30 && !(rest != [] && 0x30 <= rest[0] <= 0x39) then Some(([0], rest))
      else if 0x30 <= e <= 0x39 then None
      else Some(([e], rest))
  }

  /** The body of a single-quoted literal: its value, and what follows the closing quote. */
  function ScanBody(t: Text): (r: Option<(Text, Text)>)
    ensures r.Some? ==> |r.value.1| < |t|
    decreases |t|
  {
    if t == [] || t[0] == LF || t[0] == CR then None
    else if t[0] == QUOTE then Some(([], t[1..]))
    else
      var first := if t[0] == BACKSLASH then ScanEscape(t[1..]) else Some(([t[0]], t[1..]));
      if first.None? then None
      else match ScanBody(first.value.1)
        case None => None
        case Some((value, rest)) => Some((first.value.0 + value, rest))
  }

  function ScanLiteral(t: Text): (r: Option<(Text, Text)>)
    ensures r.Some? ==> |r.value.1| < |t|
  {
    if t == [] || t[0] != QUOTE then None else ScanBody(t[1..])
  }

  // ------------------------------------------------------------------
  // The round trip
  // ------------------------------------------------------------------

  lemma HexUnitValue(v: int)
    requires 0 <= v < 16
    ensures HexValue(HexUnit(v)) == Some(v)
  {
  }

  lemma Hex4Value(u: Unit, rest: Text)
    ensures HexRun(Hex4(u) + rest, 4, 0) == Some(u)
  {
    var t := Hex4(u) + rest;
    var d3, d2, d1, d0 := u / 16 / 16 / 16, u / 16 / 16 % 16, u / 16 % 16, u % 16;
    HexUnitValue(d3);
    HexUnitValue(d2);
    HexUnitValue(d1);
    HexUnitValue(d0);
    assert t[1..][0] == HexUnit(d2) && t[1..][1..][0] == HexUnit(d1) && t[1..][1..][1..][0] == HexUnit(d0);
    assert HexRun(t[1..][1..][1..], 1, d3 * 256 + d2 * 16 + d1) == Some(u);
    assert HexRun(t[1..][1..], 2, d3 * 16 + d2) == Some(u);
    assert HexRun(t[1..], 3, d3) == Some(u);
  }

  lemma Hex4Digits(u: Unit)
    ensures |Hex4(u)| == 4 && forall x | x in Hex4(u) :: 0x30 <= x <= 0x66
  {
  }

  lemma ScanHexEscape(u: Unit, rest: Text)
    ensures ScanEscape([0x75] + Hex4(u) + rest) == Some(([u], rest))
  {
    Hex4Digits(u);
    Hex4Value(u, rest);
    hide Hex4, HexRun;
    var t, digits := [0x75] + Hex4(u) + rest, Hex4(u) + rest;
    assert t[0] == 0x75 && t[1..] == digits && digits[4..] == rest;
    assert digits[0] == Hex4(u)[0] && digits[0] in Hex4(u);
  }

  lemma ScanEscapedUnit(u: Unit, rest: Text)
    requires NeedsEscape(u)
    ensures EscapeUnit(u)[0] == BACKSLASH && ScanEscape(EscapeUnit(u)[1..] + rest) == Some(([u], rest))
  {
    hide Hex4, HexRun;
    var e := EscapeUnit(u);
    if u == BACKSLASH || u == QUOTE || u == LF || u == CR || u == TAB {
      assert (e[1..] + rest)[1..] == rest;
    } else {
      assert e[1..] == [0x75] + Hex4(u);
      ScanHexEscape(u, rest);
    }
  }

  lemma ScanUnit(u: Unit, tail: Text, value: Text, rest: Text)
    requires ScanBody(tail) == Some((value, rest))
    ensures ScanBody(EscapeUnit(u) + tail) == Some(([u] + value, rest))
  {
    var t := EscapeUnit(u) + tail;
    if NeedsEscape(u) {
      ScanEscapedUnit(u, tail);
      assert t[0] == BACKSLASH && t[1..] == EscapeUnit(u)[1..] + tail;
    } else {
      assert t[0] == u && t[1..] == tail;
    }
  }

  lemma {:induction false} ScanEscaped(s: Text, rest: Text)
    ensures ScanBody(Escaped(s) + [QUOTE] + rest) == Some((s, rest))
  {
    if s == [] {
      assert [] + [QUOTE] + rest == [QUOTE] + rest && ([QUOTE] + rest)[1..] == rest;
    } else {
      ScanEscaped(s[1..], rest);
      EscapedSplits(s, rest);
      ScanUnit(s[0], Escaped(s[1..]) + [QUOTE] + rest, s[1..], rest);
      assert s == [s[0]] + s[1..];
    }
  }

  lemma EscapedSplits(s: Text, rest: Text)
    requires s != []
    ensures Escaped(s) + [QUOTE] + rest == EscapeUnit(s[0]) + (Escaped(s[1..]) + [QUOTE] + rest)
  {
    var e, tail := EscapeUnit(s[0]), Escaped(s[1..]);
    assert Escaped(s) == e + tail;
    Assoc(e, tail, [QUOTE]);
    Assoc(e, tail + [QUOTE], rest);
  }

  /** A printed literal evaluates to its string and ends at its own closing quote, whatever follows. */
  lemma LiteralRoundTrip(s: Text, rest: Text)
    ensures ScanLiteral(JsString(s) + rest) == Some((s, rest))
  {
    ScanEscaped(s, rest);
    assert (JsString(s) + rest)[1..] == Escaped(s) + [QUOTE] + rest;
  }

  predicate IsLineTerminator(u: Unit) {
    u == LF || u == CR || u == LS || u == PS
  }

  lemma EscapedUnitIsOneLine(u: Unit)
    ensures forall x | x in EscapeUnit(u) :: x >= 0x20 && !IsLineTerminator(x)
  {
    Hex4Digits(u);
  }

  /** A printed literal stays on one line: nothing below a space, no line terminator of any kind. */
  lemma {:induction false} EscapedIsOneLine(s: Text)
    ensures forall u | u in Escaped(s) :: u >= 0x20 && !IsLineTerminator(u)
  {
    if s == [] {
    } else {
      EscapedIsOneLine(s[1..]);
      EscapedUnitIsOneLine(s[0]);
    }
  }

  lemma LiteralIsOneLine(s: Text)
    ensures forall u | u in JsString(s) :: u >= 0x20 && !IsLineTerminator(u)
  {
    EscapedIsOneLine(s);
  }
}
