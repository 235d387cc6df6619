// Base64 as RFC 4648 defines it in sections 4 and 5, with the strictness of
// section 3.5: padding exactly as written, and no stray trailing bits.
module Base64 {
  import opened Prelude
  import opened Utf8

  type Sextet = v: int | 0 <= v < 64

  datatype Alphabet = Standard | UrlSafe

  function Symbol(a: Alphabet, v: Sextet): char {
    if v < 26 then 'A' + v as char
    else if v < 52 then 'a' + (v - 26) as char
    else if v < 62 then '0' + (v - 52) as char
    else if v == 62 then (if a.Standard? then '+' else '-')
    else (if a.Standard? then '/' else '_')
  }

  function Value(a: Alphabet, c: char): Option<Sextet> {
    if 'A' <= c <= 'Z' then Some((c - 'A') as int)
    else if 'a' <= c <= 'z' then Some((c - 'a') as int + 26)
    else if '0' <= c <= '9' then Some((c - '0') as int + 52)
    else if c == (if a.Standard? then '+' else '-') then Some(62)
    else if c == (if a.Standard? then '/' else '_') then Some(63)
    else None
  }

  lemma ValueSymbol(a: Alphabet, c: char, v: Sextet)
    ensures Value(a, c) == Some(v) <==> c == Symbol(a, v)
  {
  }

  function Symbols(a: Alphabet, vs: seq<Sextet>): (s: string)
    ensures |s| == |vs|
  {
    seq(|vs|, i requires 0 <= i < |vs| => Symbol(a, vs[i]))
  }

  function Values(a: Alphabet, s: string): Option<seq<Sextet>> {
    if s == "" then Some([])
    else match Value(a, s[0])
      case None => None
      case Some(v) =>
        match Values(a, s[1..])
        case None => None
        case Some(vs) => Some([v] + vs)
  }

  lemma {:induction false} ValuesSymbols(a: Alphabet, s: string, vs: seq<Sextet>)
    ensures Values(a, s) == Some(vs) <==> s == Symbols(a, vs)
  {
    if s == "" || vs == [] {
    } else {
      ValueSymbol(a, s[0], vs[0]);
      ValuesSymbols(a, s[1..], vs[1..]);
      assert Symbols(a, vs)[1..] == Symbols(a, vs[1..]);
      assert Symbols(a, vs) == [Symbol(a, vs[0])] + Symbols(a, vs)[1..];
      assert s == [s[0]] + s[1..] && vs == [vs[0]] + vs[1..];
    }
  }

  // A group of three bytes as four sextets, and back.
  function Sextet0(b0: int): int { b0 / 4 }
  function Sextet1(b0: int, b1: int): int { b0 % 4 * 16 + b1 / 16 }
  function Sextet2(b1: int, b2: int): int { b1 % 16 * 4 + b2 / 64 }
  function Sextet3(b2: int): int { b2 % 64 }

  function Byte0(v0: int, v1: int): int { v0 * 4 + v1 / 16 }
  function Byte1(v1: int, v2: int): int { v1 % 16 * 16 + v2 / 4 }
  function Byte2(v2: int, v3: int): int { v2 % 4 * 64 + v3 }

  function GroupUp(b0: Byte, b1: Byte, b2: Byte): (vs: seq<Sextet>)
    ensures |vs| == 4
  {
    [Sextet0(b0), Sextet1(b0, b1), Sextet2(b1, b2), Sextet3(b2)]
  }

  function GroupDown(v0: Sextet, v1: Sextet, v2: Sextet, v3: Sextet): (bs: seq<Byte>)
    ensures |bs| == 3
  {
    [Byte0(v0, v1), Byte1(v1, v2), Byte2(v2, v3)]
  }

  function ToSextets(b: seq<Byte>): seq<Sextet> {
    if |b| == 0 then []
    else if |b| == 1 then [Sextet0(b[0]), Sextet1(b[0], 0)]
    else if |b| == 2 then [Sextet0(b[0]), Sextet1(b[0], b[1]), Sextet2(b[1], 0)]
    else GroupUp(b[0], b[1], b[2]) + ToSextets(b[3..])
  }

  function FromSextets(v: seq<Sextet>): Option<seq<Byte>> {
    if |v| == 0 then Some([])
    else if |v| == 1 then None
    else if |v| == 2 then (if v[1] % 16 == 0 then Some([Byte0(v[0], v[1])]) else None)
    else if |v| == 3 then (if v[2] % 4 == 0 then Some([Byte0(v[0], v[1]), Byte1(v[1], v[2])]) else None)
    else match FromSextets(v[4..])
      case None => None
      case Some(rest) => Some(GroupDown(v[0], v[1], v[2], v[3]) + rest)
  }

  // A quotient and a remainder put together come apart again.
  lemma Div4(q: int, r: int)
    requires 0 <= r < 4
    ensures (q * 4 + r) / 4 == q && (q * 4 + r) % 4 == r
  {
  }

  lemma Div16(q: int, r: int)
    requires 0 <= r < 16
    ensures (q * 16 + r) / 16 == q && (q * 16 + r) % 16 == r
  {
  }

  lemma Div64(q: int, r: int)
    requires 0 <= r < 64
    ensures (q * 64 + r) / 64 == q && (q * 64 + r) % 64 == r
  {
  }

  lemma GroupDownUp(b0: Byte, b1: Byte, b2: Byte)
    ensures var v0, v1, v2, v3 := Sextet0(b0), Sextet1(b0, b1), Sextet2(b1, b2), Sextet3(b2);
      && Byte0(v0, v1) == b0 && Byte1(v1, v2) == b1 && Byte2(v2, v3) == b2
      && (b1 == 0 ==> v1 % 16 == 0) && (b2 == 0 ==> v2 % 4 == 0)
  {
    Div16(b0 % 4, b1 / 16);
    Div4(b1 % 16, b2 / 64);
  }

  lemma GroupUpDown(v0: Sextet, v1: Sextet, v2: Sextet, v3: Sextet)
    ensures var b0, b1, b2 := Byte0(v0, v1), Byte1(v1, v2), Byte2(v2, v3);
      && Sextet0(b0) == v0 && Sextet1(b0, b1) == v1 && Sextet2(b1, b2) == v2 && Sextet3(b2) == v3
      && (v1 % 16 == 0 && v2 == 0 ==> b1 == 0) && (v2 % 4 == 0 && v3 == 0 ==> b2 == 0)
  {
    Div4(v0, v1 / 16);
    Div16(v1 % 16, v2 / 4);
    Div64(v2 % 4, v3);
  }

  lemma UpStep(b: seq<Byte>)
    requires |b| >= 3
    ensures var g, v := GroupUp(b[0], b[1], b[2]), ToSextets(b);
      |v| >= 4 && v[0] == g[0] && v[1] == g[1] && v[2] == g[2] && v[3] == g[3] && v[4..] == ToSextets(b[3..])
  {
  }

  lemma DownStep(v: seq<Sextet>, rest: seq<Byte>)
    requires |v| >= 4 && FromSextets(v[4..]) == Some(rest)
    ensures FromSextets(v) == Some(GroupDown(v[0], v[1], v[2], v[3]) + rest)
  {
  }

  lemma {:induction false} FromToSextets(b: seq<Byte>)
    ensures FromSextets(ToSextets(b)) == Some(b)
  {
    hide Sextet0, Sextet1, Sextet2, Sextet3, Byte0, Byte1, Byte2;
    if |b| == 1 {
      GroupDownUp(b[0], 0, 0);
      assert b == [b[0]];
    } else if |b| == 2 {
      GroupDownUp(b[0], b[1], 0);
      assert b == [b[0], b[1]];
    } else if |b| >= 3 {
      FromToSextets(b[3..]);
      UpStep(b);
      DownStep(ToSextets(b), b[3..]);
      GroupDownUp(b[0], b[1], b[2]);
      TakeDrop(b, 3);
      assert b[..3] == [b[0], b[1], b[2]];
    }
  }

  lemma {:induction false} ToFromSextets(v: seq<Sextet>)
    ensures FromSextets(v).Some? ==> ToSextets(FromSextets(v).value) == v
  {
    hide Sextet0, Sextet1, Sextet2, Sextet3, Byte0, Byte1, Byte2;
    if FromSextets(v).None? {
    } else {
      if |v| == 2 {
        GroupUpDown(v[0], v[1], 0, 0);
        assert v == [v[0], v[1]];
      } else if |v| == 3 {
        GroupUpDown(v[0], v[1], v[2], 0);
        assert v == [v[0], v[1], v[2]];
      } else if |v| >= 4 {
        ToFromSextets(v[4..]);
        GroupUpDown(v[0], v[1], v[2], v[3]);
        assert FromSextets(v).value[3..] == FromSextets(v[4..]).value;
        TakeDrop(v, 4);
        assert v[..4] == [v[0], v[1], v[2], v[3]];
      }
    }
  }

  /** Four symbols for three bytes, rounded up, and never one left over. */
  lemma {:induction false} SextetCount(b: seq<Byte>)
    ensures var n := |ToSextets(b)|; 4 * |b| <= 3 * n <= 4 * |b| + 2 && n % 4 != 1
  {
    if |b| < 3 {
    } else {
      SextetCount(b[3..]);
      var n := |ToSextets(b[3..])|;
      assert |ToSextets(b)| == n + 4;
      Div4(n / 4 + 1, n % 4);
    }
  }

  /** The padding that brings `n` symbols to a whole number of groups. */
  function Padding(n: nat): string {
    if n % 4 == 2 then "==" else if n % 4 == 3 then "=" else ""
  }

  function Encode64(a: Alphabet, padded: bool, b: seq<Byte>): string {
    var symbols := Symbols(a, ToSextets(b));
    if padded then symbols + Padding(|symbols|) else symbols
  }

  /** The text without its final padding; at most two characters are padding. */
  function Unpadded(s: string): string {
    if |s| >= 2 && s[|s| - 2..] == "==" then s[..|s| - 2]
    else if |s| >= 1 && s[|s| - 1] == '=' then s[..|s| - 1]
    else s
  }

  function DecodeSymbols(a: Alphabet, s: string): Option<seq<Byte>> {
    match Values(a, s)
    case None => None
    case Some(vs) => FromSextets(vs)
  }

  function Decode64(a: Alphabet, padded: bool, s: string): Option<seq<Byte>> {
    if !padded then DecodeSymbols(a, s)
    else if |s| % 4 != 0 then None
    else DecodeSymbols(a, Unpadded(s))
  }

  lemma DecodeSymbolsIff(a: Alphabet, s: string, b: seq<Byte>)
    ensures DecodeSymbols(a, s) == Some(b) <==> s == Symbols(a, ToSextets(b))
  {
    FromToSextets(b);
    ValuesSymbols(a, s, ToSextets(b));
    if DecodeSymbols(a, s) == Some(b) {
      ToFromSextets(Values(a, s).value);
    }
  }

  lemma SymbolsUnpadded(a: Alphabet, vs: seq<Sextet>)
    requires |vs| % 4 != 1
    ensures Unpadded(Symbols(a, vs) + Padding(|vs|)) == Symbols(a, vs)
  {
    var s := Symbols(a, vs);
    forall i | 0 <= i < |s| ensures s[i] != '=' {
      ValueSymbol(a, s[i], vs[i]);
    }
    var t := s + Padding(|vs|);
    assert t[..|s|] == s;
    if |vs| % 4 == 2 {
      assert t[|s|..] == "==";
    } else if s != "" {
      assert t[|s| - 1] == s[|s| - 1];
      assert |t| >= 2 ==> t[|t| - 2..] == [t[|t| - 2], t[|t| - 1]];
    }
  }

  lemma FourLess(n: nat)
    requires n % 4 == 0
    ensures n >= 2 ==> (n - 2) % 4 == 2
    ensures n >= 1 ==> (n - 1) % 4 == 3
  {
  }

  lemma PaddingIs(n: nat)
    ensures n % 4 == 2 ==> Padding(n) == "=="
    ensures n % 4 == 3 ==> Padding(n) == "="
    ensures n % 4 == 0 ==> Padding(n) == ""
  {
  }

  lemma UnpaddedPadding(s: string)
    requires |s| % 4 == 0
    ensures s == Unpadded(s) + Padding(|Unpadded(s)|)
  {
    hide Padding;
    FourLess(|s|);
    var n := |Unpadded(s)|;
    PaddingIs(n);
    TakeDrop(s, n);
    if |s| >= 2 && s[|s| - 2..] == "==" {
      assert n == |s| - 2;
    } else if |s| >= 1 && s[|s| - 1] == '=' {
      assert n == |s| - 1 && s[n..] == "=";
    } else {
      assert n == |s| && s[n..] == "";
    }
  }

  /** Each decoder accepts exactly what its encoder writes. */
  lemma DecodeIff(a: Alphabet, padded: bool, s: string, b: seq<Byte>)
    ensures Decode64(a, padded, s) == Some(b) <==> s == Encode64(a, padded, b)
  {
    if !padded {
      DecodeSymbolsIff(a, s, b);
    } else {
      SextetCount(b);
      DecodeSymbolsIff(a, Unpadded(s), b);
      PaddedWhole(a, ToSextets(b));
      if |s| % 4 == 0 {
        UnpaddedPadding(s);
      }
    }
  }

  lemma PaddedWhole(a: Alphabet, vs: seq<Sextet>)
    requires |vs| % 4 != 1
    ensures var s := Symbols(a, vs) + Padding(|vs|); |s| % 4 == 0 && Unpadded(s) == Symbols(a, vs)
  {
    SymbolsUnpadded(a, vs);
    Div4(|vs| / 4 + 1, 0);
  }

  /** The two alphabets agree wherever both read a text. */
  lemma {:induction false} ValuesAgree(s: string)
    ensures Values(Standard, s).Some? && Values(UrlSafe, s).Some? ==> Values(Standard, s) == Values(UrlSafe, s)
  {
    if s == "" {
    } else {
      ValuesAgree(s[1..]);
    }
  }

  lemma {:induction false} ValuesRefusePadding(a: Alphabet, s: string)
    requires s != "" && s[|s| - 1] == '='
    ensures Values(a, s).None?
  {
    if |s| <= 1 {
    } else {
      ValuesRefusePadding(a, s[1..]);
    }
  }

  /** A text read by several of the four decoders means the same bytes to each. */
  lemma DecodersAgree(a1: Alphabet, p1: bool, a2: Alphabet, p2: bool, s: string)
    requires Decode64(a1, p1, s).Some? && Decode64(a2, p2, s).Some?
    ensures Decode64(a1, p1, s) == Decode64(a2, p2, s)
  {
    if p1 != p2 && s != "" && s[|s| - 1] == '=' {
      ValuesRefusePadding(a1, s);
      ValuesRefusePadding(a2, s);
    }
    ValuesAgree(s);
    ValuesAgree(Unpadded(s));
  }

  /** The symbols in order of value, as tables 1 and 2 of RFC 4648 list them. */
  lemma SymbolTable(a: Alphabet, v: Sextet)
    ensures v < 26 ==> Symbol(a, v) as int == 65 + v
    ensures 26 <= v < 52 ==> Symbol(a, v) as int == 71 + v
    ensures 52 <= v < 62 ==> Symbol(a, v) as int == v - 4
    ensures Symbol(Standard, 62) == '+' && Symbol(Standard, 63) == '/'
    ensures Symbol(UrlSafe, 62) == '-' && Symbol(UrlSafe, 63) == '_'
  {
  }

  /** The number that digits in a base stand for, the first one weighing most. */
  function NumberOf(digits: seq<int>, base: int): int {
    if digits == [] then 0 else NumberOf(digits[..|digits| - 1], base) * base + digits[|digits| - 1]
  }

  lemma NumberOfSnoc(d: seq<int>, x: int, base: int)
    ensures NumberOf(d + [x], base) == NumberOf(d, base) * base + x
  {
    assert (d + [x])[..|d + [x]| - 1] == d;
  }

  lemma NumberOfTwo(a: int, b: int, base: int)
    ensures NumberOf([a], base) == a && NumberOf([a, b], base) == a * base + b
  {
    hide NumberOf;
    NumberOfNone(base);
    NumberOfSnoc([], a, base);
    NumberOfSnoc([a], b, base);
    assert [] + [a] == [a] && [a] + [b] == [a, b];
  }

  lemma NumberOfNone(base: int)
    ensures NumberOf([], base) == 0
  {
  }

  lemma NumberOfFour(a: int, b: int, c: int, d: int, base: int)
    ensures NumberOf([a, b, c], base) == (a * base + b) * base + c
    ensures NumberOf([a, b, c, d], base) == ((a * base + b) * base + c) * base + d
  {
    hide NumberOf;
    NumberOfTwo(a, b, base);
    NumberOfSnoc([a, b], c, base);
    NumberOfSnoc([a, b, c], d, base);
    assert [a, b] + [c] == [a, b, c] && [a, b, c] + [d] == [a, b, c, d];
  }

  /** The first group of four symbols and three bytes stand for the same 24-bit number. */
  lemma GroupIsNumber(b: seq<Byte>)
    requires |b| >= 3
    ensures var v := ToSextets(b);
      && |v| >= 4 && ToSextets(b)[4..] == ToSextets(b[3..])
      && NumberOf(b[..3], 256) == NumberOf(v[..4], 64)
  {
    var v := ToSextets(b);
    NumberOfFour(b[0], b[1], b[2], 0, 256);
    NumberOfFour(v[0], v[1], v[2], v[3], 64);
    hide NumberOf;
    assert b[..3] == [b[0], b[1], b[2]] && v[..4] == [v[0], v[1], v[2], v[3]];
  }

  /** A short last group is the number of its bytes with zero bits after them. */
  lemma LastGroupIsNumber(b: seq<Byte>)
    ensures |b| == 1 ==> |ToSextets(b)| == 2 && NumberOf(b, 256) * 16 == NumberOf(ToSextets(b), 64)
    ensures |b| == 2 ==> |ToSextets(b)| == 3 && NumberOf(b, 256) * 4 == NumberOf(ToSextets(b), 64)
  {
    hide NumberOf;
    var v := ToSextets(b);
    if |b| == 1 {
      NumberOfTwo(b[0], 0, 256);
      NumberOfTwo(v[0], v[1], 64);
      assert b == [b[0]] && v == [v[0], v[1]];
    } else if |b| == 2 {
      NumberOfTwo(b[0], b[1], 256);
      NumberOfFour(v[0], v[1], v[2], 0, 64);
      assert b == [b[0], b[1]] && v == [v[0], v[1], v[2]];
    }
  }
}
