// UTF-8, as far as the wire formats need it: encoding, strict decoding, and the
// fact that each undoes the other.
module Utf8 {
  import opened Prelude

  type Byte = b: int | 0 <= b < 256

  predicate IsScalar(n: int) {
    0 <= n < 0xD800 || 0xE000 <= n < 0x11_0000
  }

  function EncodeScalar(n: int): (bytes: seq<Byte>)
    requires IsScalar(n)
    ensures 1 <= |bytes| <= 4
  {
    if n < 0x80 then [n]
    else if n < 0x800 then [0xC0 + n / 64, 0x80 + n % 64]
    else if n < 0x1_0000 then [0xE0 + n / 64 / 64, 0x80 + n / 64 % 64, 0x80 + n % 64]
    else [0xF0 + n / 64 / 64 / 64, 0x80 + n / 64 / 64 % 64, 0x80 + n / 64 % 64, 0x80 + n % 64]
  }

  function Encode(s: string): seq<Byte> {
    if s == "" then [] else EncodeScalar(s[0] as int) + Encode(s[1..])
  }

  /** One scalar of each length: A, e acute, the euro sign, a face. */
  lemma EncodingExamples()
    ensures EncodeScalar(0x41) == [0x41] && EncodeScalar(0xE9) == [0xC3, 0xA9]
    ensures EncodeScalar(0x20AC) == [0xE2, 0x82, 0xAC] && EncodeScalar(0x1_F600) == [0xF0, 0x9F, 0x98, 0x80]
  {
  }

  /** The scalar the leading bytes spell, with their number, before any validity check. */
  function Spelled(b: seq<Byte>): (int, nat)
    requires b != []
  {
    var lead: int := b[0];
    if lead < 0x80 then (lead, 1)
    else if 0xC0 <= lead < 0xE0 && |b| >= 2 then (Shift(lead - 0xC0, b[1]), 2)
    else if 0xE0 <= lead < 0xF0 && |b| >= 3 then (Shift(Shift(lead - 0xE0, b[1]), b[2]), 3)
    else if 0xF0 <= lead < 0xF8 && |b| >= 4 then (Shift(Shift(Shift(lead - 0xF0, b[1]), b[2]), b[3]), 4)
    else (-1, 0)
  }

  /** Takes in the six bits of a continuation byte. */
  function Shift(n: int, continuation: int): int {
    n * 64 + (continuation - 0x80)
  }

  /** Strict decoding: overlong forms, surrogates and stray bytes are refused. */
  function Decode(b: seq<Byte>): Option<string> {
    if b == [] then Some("")
    else
      var (n, k) := Spelled(b);
      if IsScalar(n) && k > 0 && EncodeScalar(n) == b[..k] then
        match Decode(b[k..])
        case None => None
        case Some(rest) => Some([n as char] + rest)
      else None
  }

  lemma SpelledEncoding(n: int, rest: seq<Byte>)
    requires IsScalar(n)
    ensures Spelled(EncodeScalar(n) + rest) == (n, |EncodeScalar(n)|)
  {
    var b := EncodeScalar(n) + rest;
    if 0x80 <= n {
      assert b[0] == EncodeScalar(n)[0] && b[1] == EncodeScalar(n)[1];
      if 0x800 <= n {
        assert b[2] == EncodeScalar(n)[2];
        if 0x1_0000 <= n {
          assert b[3] == EncodeScalar(n)[3];
        }
      }
    }
  }

  lemma {:induction false} DecodeEncode(s: string)
    ensures Decode(Encode(s)) == Some(s)
  {
    if s == "" {
    } else {
      var first, rest := EncodeScalar(s[0] as int), Encode(s[1..]);
      SpelledEncoding(s[0] as int, rest);
      assert (first + rest)[..|first|] == first && (first + rest)[|first|..] == rest;
      DecodeEncode(s[1..]);
      assert s == [s[0]] + s[1..];
    }
  }

  lemma {:induction false} EncodeDecode(b: seq<Byte>)
    ensures Decode(b).Some? ==> Encode(Decode(b).value) == b
  {
    if b == [] || Decode(b).None? {
    } else {
      var (n, k) := Spelled(b);
      EncodeDecode(b[k..]);
      EncodeCons(n as char, Decode(b[k..]).value);
      TakeDrop(b, k);
    }
  }

  lemma EncodeCons(c: char, rest: string)
    ensures Encode([c] + rest) == EncodeScalar(c as int) + Encode(rest)
  {
    assert ([c] + rest)[1..] == rest;
  }

  lemma EncodeInjective(s: string, t: string)
    requires Encode(s) == Encode(t)
    ensures s == t
  {
    DecodeEncode(s);
    DecodeEncode(t);
  }

  /** Plain ASCII text takes one byte a character. */
  lemma {:induction false} AsciiLength(s: string)
    requires forall c | c in s :: c < 128 as char
    ensures |Encode(s)| == |s|
  {
    if s == "" {
    } else {
      assert s[0] in s && forall c | c in s[1..] :: c in s;
      AsciiLength(s[1..]);
    }
  }
}
