// Text on disk: a string of UTF-16 code units, written as UTF-8 and read back.
module StoredText {
  import opened Prelude
  import opened JsLiterals
  import Utf8

  type Byte = Utf8.Byte

  const REPLACEMENT: Unit := 0xFFFD

  predicate IsHigh(u: Unit) {
    0xD800 <= u < 0xDC00
  }

  predicate IsLow(u: Unit) {
    0xDC00 <= u < 0xE000
  }

  predicate IsSurrogate(u: Unit) {
    IsHigh(u) || IsLow(u)
  }

  predicate StartsPair(t: Text) {
    |t| >= 2 && IsHigh(t[0]) && IsLow(t[1])
  }

  // ------------------------------------------------------------------
  // Writing and reading
  // ------------------------------------------------------------------

  /** What the encoder sees of one unit outside a pair: a surrogate on its own is replaced. */
  function Single(u: Unit): Unit {
    if IsSurrogate(u) then REPLACEMENT else u
  }

  function PairScalar(high: Unit, low: Unit): (n: int)
    requires IsHigh(high) && IsLow(low)
    ensures 0x1_0000 <= n < 0x11_0000
  {
    0x1_0000 + (high - 0xD800) * 0x400 + (low - 0xDC00)
  }

  /** The scalar values a string is written as. */
  function Scalars(t: Text): string {
    if t == [] then ""
    else if StartsPair(t) then [PairScalar(t[0], t[1]) as char] + Scalars(t[2..])
    else [Single(t[0]) as char] + Scalars(t[1..])
  }

  function WriteText(t: Text): seq<Byte> {
    Utf8.Encode(Scalars(t))
  }

  function Units(s: string): Text {
    if s == "" then [] else CodePointUnits(s[0] as int) + Units(s[1..])
  }

  function ReadText(bytes: seq<Byte>): Option<Text> {
    match Utf8.Decode(bytes)
    case None => None
    case Some(s) => Some(Units(s))
  }

  /** The string that comes back from disk: every surrogate without its partner is replaced. */
  function Stored(t: Text): Text {
    if t == [] then []
    else if StartsPair(t) then [t[0], t[1]] + Stored(t[2..])
    else [Single(t[0])] + Stored(t[1..])
  }

  lemma UnitsCons(c: char, s: string)
    ensures Units([c] + s) == CodePointUnits(c as int) + Units(s)
  {
    assert ([c] + s)[1..] == s;
  }

  lemma {:induction false} UnitsOfScalars(t: Text)
    ensures Units(Scalars(t)) == Stored(t)
  {
    if t == [] {
    } else if StartsPair(t) {
      UnitsOfScalars(t[2..]);
      UnitsCons(PairScalar(t[0], t[1]) as char, Scalars(t[2..]));
    } else {
      UnitsOfScalars(t[1..]);
      UnitsCons(Single(t[0]) as char, Scalars(t[1..]));
    }
  }

  lemma WriteReadsStored(t: Text)
    ensures ReadText(WriteText(t)) == Some(Stored(t))
  {
    Utf8.DecodeEncode(Scalars(t));
    UnitsOfScalars(t);
  }

  // ------------------------------------------------------------------
  // What survives
  // ------------------------------------------------------------------

  /** A surrogate at position `i` has its partner. */
  predicate PairedAt(t: Text, i: nat)
    requires i < |t|
  {
    && (IsHigh(t[i]) ==> i + 1 < |t| && IsLow(t[i + 1]))
    && (IsLow(t[i]) ==> i > 0 && IsHigh(t[i - 1]))
  }

  /** Every surrogate has its partner. */
  ghost predicate WellFormed(t: Text) {
    forall i | 0 <= i < |t| :: PairedAt(t, i)
  }

  lemma WellFormedAfter(front: Text, rest: Text)
    requires (|front| == 1 && !IsSurrogate(front[0])) || (|front| == 2 && StartsPair(front))
    ensures WellFormed(front + rest) <==> WellFormed(rest)
  {
    var t, n := front + rest, |front|;
    assert forall i | n <= i < |t| :: t[i] == rest[i - n];
    if WellFormed(t) {
      forall i | 0 <= i < |rest| ensures PairedAt(rest, i) {
        assert PairedAt(t, i + n);
      }
    }
    if WellFormed(rest) {
      forall i | 0 <= i < |t| ensures PairedAt(t, i) {
        if i >= n { assert PairedAt(rest, i - n); }
        if n < |t| { assert PairedAt(rest, 0); }
      }
    }
  }

  lemma {:induction false} StoredIsWellFormed(t: Text)
    ensures WellFormed(Stored(t))
  {
    if t == [] {
    } else if StartsPair(t) {
      StoredIsWellFormed(t[2..]);
      WellFormedAfter([t[0], t[1]], Stored(t[2..]));
    } else {
      StoredIsWellFormed(t[1..]);
      WellFormedAfter([Single(t[0])], Stored(t[1..]));
    }
  }

  /** A text comes back unchanged exactly when every surrogate in it has its partner. */
  lemma {:induction false} StoredSameIff(t: Text)
    ensures Stored(t) == t <==> WellFormed(t)
  {
    if t == [] {
    } else if StartsPair(t) {
      StoredSameIff(t[2..]);
      WellFormedAfter([t[0], t[1]], t[2..]);
      assert t == [t[0], t[1]] + t[2..];
      assert Stored(t)[2..] == Stored(t[2..]);
    } else if IsSurrogate(t[0]) {
      assert Stored(t)[0] == REPLACEMENT && !PairedAt(t, 0);
    } else {
      StoredSameIff(t[1..]);
      WellFormedAfter([t[0]], t[1..]);
      assert t == [t[0]] + t[1..];
      assert Stored(t)[1..] == Stored(t[1..]);
    }
  }

  lemma StoredTwice(t: Text)
    ensures Stored(Stored(t)) == Stored(t)
  {
    StoredIsWellFormed(t);
    StoredSameIff(Stored(t));
  }

  lemma ScalarsPair(high: Unit, low: Unit, rest: Text)
    requires IsHigh(high) && IsLow(low)
    ensures Scalars([high, low] + rest) == [PairScalar(high, low) as char] + Scalars(rest)
  {
    assert ([high, low] + rest)[2..] == rest;
  }

  lemma ScalarsSingle(u: Unit, rest: Text)
    requires !IsSurrogate(u)
    ensures Scalars([u] + rest) == [u as char] + Scalars(rest)
  {
    assert ([u] + rest)[1..] == rest;
  }

  lemma {:induction false} ScalarsOfStored(t: Text)
    ensures Scalars(Stored(t)) == Scalars(t)
  {
    if t == [] {
    } else if StartsPair(t) {
      ScalarsOfStored(t[2..]);
      ScalarsPair(t[0], t[1], Stored(t[2..]));
    } else {
      ScalarsOfStored(t[1..]);
      ScalarsSingle(Single(t[0]), Stored(t[1..]));
    }
  }

  /** Two texts give the same file exactly when they come back the same. */
  lemma SameFileIff(s: Text, t: Text)
    ensures WriteText(s) == WriteText(t) <==> Stored(s) == Stored(t)
  {
    WriteReadsStored(s);
    WriteReadsStored(t);
    ScalarsOfStored(s);
    ScalarsOfStored(t);
  }

  // ------------------------------------------------------------------
  // Where it may be taken apart
  // ------------------------------------------------------------------

  lemma StoredPlain(t: Text)
    requires forall u | u in t :: !IsSurrogate(u)
    ensures Stored(t) == t
  {
    forall i | 0 <= i < |t| ensures PairedAt(t, i) {
      assert t[i] in t;
    }
    StoredSameIff(t);
  }

  lemma StoredPair(high: Unit, low: Unit, rest: Text)
    requires IsHigh(high) && IsLow(low)
    ensures Stored([high, low] + rest) == [high, low] + Stored(rest)
  {
    assert ([high, low] + rest)[2..] == rest;
  }

  lemma StoredSingle(u: Unit, rest: Text)
    requires !StartsPair([u] + rest)
    ensures Stored([u] + rest) == [Single(u)] + Stored(rest)
  {
    assert ([u] + rest)[1..] == rest;
  }

  lemma AppendAfterPair(high: Unit, low: Unit, a: Text, b: Text)
    requires IsHigh(high) && IsLow(low) && Stored(a + b) == Stored(a) + Stored(b)
    ensures Stored([high, low] + (a + b)) == Stored([high, low] + a) + Stored(b)
  {
    StoredPair(high, low, a + b);
    StoredPair(high, low, a);
    Assoc([high, low], Stored(a), Stored(b));
  }

  lemma AppendAfterSingle(u: Unit, a: Text, b: Text)
    requires !StartsPair([u] + (a + b)) && !StartsPair([u] + a) && Stored(a + b) == Stored(a) + Stored(b)
    ensures Stored([u] + (a + b)) == Stored([u] + a) + Stored(b)
  {
    StoredSingle(u, a + b);
    StoredSingle(u, a);
    Assoc([Single(u)], Stored(a), Stored(b));
  }

  /** Storing works piecewise unless the cut runs through a pair. */
  lemma {:induction false} StoredAppend(a: Text, b: Text)
    requires a != [] && b != [] ==> !(IsHigh(a[|a| - 1]) && IsLow(b[0]))
    ensures Stored(a + b) == Stored(a) + Stored(b)
  {
    hide Stored;
    if a == [] {
      StoredPlain(a);
      assert a + b == b;
    } else if StartsPair(a) {
      StoredAppend(a[2..], b);
      AppendAfterPair(a[0], a[1], a[2..], b);
      assert a == [a[0], a[1]] + a[2..] && a + b == [a[0], a[1]] + (a[2..] + b);
    } else {
      StoredAppend(a[1..], b);
      assert a == [a[0]] + a[1..] && a + b == [a[0]] + (a[1..] + b);
      AppendAfterSingle(a[0], a[1..], b);
    }
  }

  /** A separator that is no surrogate stays where it is. */
  lemma StoredAround(a: Text, x: Unit, b: Text)
    requires !IsSurrogate(x)
    ensures Stored(a + [x] + b) == Stored(a) + [x] + Stored(b)
  {
    StoredAppend(a + [x], b);
    StoredAppend(a, [x]);
    StoredPlain([x]);
  }

  lemma {:induction false} StoredUnits(t: Text)
    ensures forall u | u in Stored(t) :: u in t || u == REPLACEMENT
  {
    if t == [] {
    } else if StartsPair(t) {
      StoredUnits(t[2..]);
      assert t == [t[0], t[1]] + t[2..];
    } else {
      StoredUnits(t[1..]);
      assert t == [t[0]] + t[1..];
    }
  }

  lemma EscapedCons(u: Unit, rest: Text)
    ensures Escaped([u] + rest) == EscapeUnit(u) + Escaped(rest)
  {
    assert ([u] + rest)[1..] == rest;
  }

  lemma EscapeUnitIsPlain(u: Unit)
    ensures IsSurrogate(u) ==> EscapeUnit(u) == [u]
    ensures !IsSurrogate(u) ==> Stored(EscapeUnit(u)) == EscapeUnit(u)
    ensures IsLow(EscapeUnit(u)[0]) <==> IsLow(u)
    ensures !IsSurrogate(u) ==> !IsHigh(EscapeUnit(u)[|EscapeUnit(u)| - 1])
  {
    Hex4Digits(u);
    if !IsSurrogate(u) {
      StoredPlain(EscapeUnit(u));
    }
  }

  lemma {:induction false} StoredEscaped(s: Text)
    ensures Stored(Escaped(s)) == Escaped(Stored(s))
  {
    if s == [] {
    } else if StartsPair(s) {
      StoredEscaped(s[2..]);
      EscapedPair(s[0], s[1], s[2..]);
      EscapedPair(s[0], s[1], Stored(s[2..]));
      assert s == [s[0], s[1]] + s[2..];
      StoredPair(s[0], s[1], Escaped(s[2..]));
    } else {
      StoredEscaped(s[1..]);
      EscapedCons(Single(s[0]), Stored(s[1..]));
      StoredEscapedSingle(s[0], s[1..]);
    }
  }

  lemma EscapedPair(high: Unit, low: Unit, rest: Text)
    requires IsHigh(high) && IsLow(low)
    ensures Escaped([high, low] + rest) == [high, low] + Escaped(rest)
  {
    hide EscapeUnit, Escaped;
    EscapeUnitIsPlain(high);
    EscapeUnitIsPlain(low);
    assert [high, low] + rest == [high] + ([low] + rest);
    EscapedCons(high, [low] + rest);
    EscapedCons(low, rest);
  }

  lemma StoredEscapedSingle(u: Unit, rest: Text)
    requires !StartsPair([u] + rest)
    ensures Stored(EscapeUnit(u) + Escaped(rest)) == EscapeUnit(Single(u)) + Stored(Escaped(rest))
  {
    EscapeUnitIsPlain(u);
    if rest != [] {
      EscapeUnitIsPlain(rest[0]);
      assert Escaped(rest)[0] == EscapeUnit(rest[0])[0] && ([u] + rest)[1] == rest[0];
    }
    StoredAppend(EscapeUnit(u), Escaped(rest));
    if IsSurrogate(u) {
      assert [u][1..] == [];
    }
  }

  /** The literal of a string is stored as the literal of the stored string. */
  lemma StoredLiteral(s: Text)
    ensures Stored(JsString(s)) == JsString(Stored(s))
  {
    StoredEscaped(s);
    Assoc([QUOTE], Escaped(s), [QUOTE]);
    StoredAround([], QUOTE, Escaped(s) + [QUOTE]);
    StoredAround(Escaped(s), QUOTE, []);
    assert Escaped(s) + [QUOTE] + [] == Escaped(s) + [QUOTE];
    assert [] + [QUOTE] + (Escaped(s) + [QUOTE]) == JsString(s);
    assert Stored([]) + [QUOTE] + Stored(Escaped(s) + [QUOTE]) == [QUOTE] + Escaped(Stored(s)) + [QUOTE];
  }
}
