// Key decoding and the integration-handoff payload of src/api/rest.rs.
module Handoff {
  import opened Prelude
  import opened Utf8
  import opened Base64

  /** The Unicode White_Space characters, which is what trimming removes. */
  predicate IsWhitespace(c: char) {
    || 0x09 as char <= c <= 0x0D as char || c == ' ' || c == 0x85 as char || c == 0xA0 as char
    || c == 0x1680 as char || 0x2000 as char <= c <= 0x200A as char
    || c == 0x2028 as char || c == 0x2029 as char || c == 0x202F as char
    || c == 0x205F as char || c == 0x3000 as char
  }

  /** The 25 code points of that property. */
  lemma WhitespaceIff(c: char)
    ensures IsWhitespace(c) <==> c as int in {
      9, 10, 11, 12, 13, 32, 0x85, 0xA0, 0x1680, 0x2000, 0x2001, 0x2002, 0x2003, 0x2004, 0x2005, 0x2006, 0x2007,
      0x2008, 0x2009, 0x200A, 0x2028, 0x2029, 0x202F, 0x205F, 0x3000}
  {
  }

  /** One of the four decoders: an alphabet, and whether it wants padding. */
  datatype Decoder = Decoder(alphabet: Alphabet, padded: bool)

  const ATTEMPTS: seq<Decoder> :=
    [Decoder(UrlSafe, false), Decoder(UrlSafe, true), Decoder(Standard, true), Decoder(Standard, false)]

  /** The first decoder in `order` that reads `s` as 32 bytes. */
  function FirstKey(order: seq<Decoder>, s: string): Option<seq<Byte>> {
    if order == [] then None
    else
      var decoded := Decode64(order[0].alphabet, order[0].padded, s);
      if decoded.Some? && |decoded.value| == 32 then decoded else FirstKey(order[1..], s)
  }

  predicate IsRawKey(s: string) {
    |Encode(s)| == 32 && forall c | c in s :: c !in "+/-_="
  }

  datatype KeyError = NotAKey(length: nat)

  /** The raw-key shortcut, then the decoders in the given order. */
  function KeyBytesWith(order: seq<Decoder>, key: string): Result<seq<Byte>, KeyError> {
    var trimmed := Trim(key, IsWhitespace);
    if IsRawKey(trimmed) then Ok(Encode(trimmed))
    else match FirstKey(order, trimmed)
      case Some(bytes) => Ok(bytes)
      case None => Err(NotAKey(|Encode(trimmed)|))
  }

  function KeyBytesFromString(key: string): Result<seq<Byte>, KeyError> {
    KeyBytesWith(ATTEMPTS, key)
  }

  /** Some decoder in `order` writes `b` as `s`. */
  ghost predicate WrittenBy(order: seq<Decoder>, s: string, b: seq<Byte>) {
    exists d :: d in order && s == Encode64(d.alphabet, d.padded, b)
  }

  lemma {:induction false} FirstKeyIff(order: seq<Decoder>, s: string, b: seq<Byte>)
    ensures FirstKey(order, s) == Some(b) <==> |b| == 32 && WrittenBy(order, s, b)
  {
    if order == [] {
    } else {
      var d := order[0];
      assert order == [d] + order[1..];
      FirstKeyIff(order[1..], s, b);
      DecodeIff(d.alphabet, d.padded, s, b);
      if WrittenBy(order, s, b) {
        var e :| e in order && s == Encode64(e.alphabet, e.padded, b);
        DecodeIff(e.alphabet, e.padded, s, b);
        if Decode64(d.alphabet, d.padded, s).Some? {
          DecodersAgree(d.alphabet, d.padded, e.alphabet, e.padded, s);
        }
      }
      if FirstKey(order[1..], s) == Some(b) {
        var e :| e in order[1..] && s == Encode64(e.alphabet, e.padded, b);
        assert e in order;
      }
      if FirstKey(order, s) == Some(b) && Decode64(d.alphabet, d.padded, s) == Some(b) {
        assert d in order;
      }
    }
  }

  lemma FirstKeyFinds(order: seq<Decoder>, s: string, b: seq<Byte>)
    requires |b| == 32 && WrittenBy(order, s, b)
    ensures FirstKey(order, s) == Some(b)
  {
    FirstKeyIff(order, s, b);
  }

  /** The order of the attempts cannot change the outcome. */
  lemma AttemptOrderIsIrrelevant(order1: seq<Decoder>, order2: seq<Decoder>, s: string)
    requires forall d :: d in order1 <==> d in order2
    ensures FirstKey(order1, s) == FirstKey(order2, s)
  {
    if FirstKey(order1, s).Some? {
      FirstKeyIff(order1, s, FirstKey(order1, s).value);
      FirstKeyFinds(order2, s, FirstKey(order1, s).value);
    } else if FirstKey(order2, s).Some? {
      FirstKeyIff(order2, s, FirstKey(order2, s).value);
      FirstKeyFinds(order1, s, FirstKey(order2, s).value);
    }
  }

  predicate IsPlain(c: char) {
    c < 128 as char && !IsWhitespace(c)
  }

  lemma SymbolsArePlain(a: Alphabet, vs: seq<Sextet>)
    ensures forall c | c in Symbols(a, vs) :: IsPlain(c)
  {
    forall v: Sextet ensures IsPlain(Symbol(a, v)) {
    }
  }

  lemma EncodingIsPlain(a: Alphabet, padded: bool, b: seq<Byte>)
    ensures forall c | c in Encode64(a, padded, b) :: IsPlain(c)
  {
    hide IsPlain;
    SymbolsArePlain(a, ToSextets(b));
    assert IsPlain('=') by { PadIsPlain(); }
  }

  lemma PadIsPlain()
    ensures IsPlain('=')
  {
  }

  /** An encoded key is 43 or 44 characters. */
  lemma EncodedKeyLength(a: Alphabet, padded: bool, b: seq<Byte>)
    requires |b| == 32
    ensures |Encode64(a, padded, b)| == if padded then 44 else 43
  {
    hide ToSextets;
    SextetCount(b);
    assert |ToSextets(b)| == 43;
  }

  /** The raw-key shortcut never takes a text that any decoder reads as a key. */
  lemma RawKeysAreNotEncoded(order: seq<Decoder>, s: string)
    requires |Encode(s)| == 32
    ensures FirstKey(order, s).None?
  {
    if FirstKey(order, s).Some? {
      var b := FirstKey(order, s).value;
      FirstKeyIff(order, s, b);
      var d :| d in order && s == Encode64(d.alphabet, d.padded, b);
      EncodedKeyLength(d.alphabet, d.padded, b);
      EncodingIsPlain(d.alphabet, d.padded, b);
      AsciiLength(s);
    }
  }

  /**
   * A text is accepted as the key `b` exactly when `b` has 32 bytes and the
   * trimmed text is either `b` itself, written without any of the characters
   * `+ / - _ =`, or an encoding of `b` by one of the decoders, in whatever order
   * they are tried.
   */
  lemma KeyBytesIff(order: seq<Decoder>, key: string, b: seq<Byte>)
    ensures var s := Trim(key, IsWhitespace);
      KeyBytesWith(order, key) == Ok(b) <==>
        |b| == 32 && ((IsRawKey(s) && b == Encode(s)) || WrittenBy(order, s, b))
  {
    var s := Trim(key, IsWhitespace);
    FirstKeyIff(order, s, b);
    if IsRawKey(s) {
      RawKeysAreNotEncoded(order, s);
    }
  }

  /** A refused text is reported with its trimmed length in bytes. */
  lemma KeyRefusedIff(order: seq<Decoder>, key: string, n: nat)
    ensures var s := Trim(key, IsWhitespace);
      KeyBytesWith(order, key) == Err(NotAKey(n)) <==>
        n == |Encode(s)| && forall b | |b| == 32 :: !(IsRawKey(s) && b == Encode(s)) && !WrittenBy(order, s, b)
  {
    hide Trim, IsRawKey, WrittenBy;
    var r := KeyBytesWith(order, key);
    forall b: seq<Byte> ensures r == Ok(b) <==>
      |b| == 32 && ((IsRawKey(Trim(key, IsWhitespace)) && b == Encode(Trim(key, IsWhitespace)))
                    || WrittenBy(order, Trim(key, IsWhitespace), b))
    {
      KeyBytesIff(order, key, b);
    }
    if r.Ok? { KeyBytesIff(order, key, r.value); }
  }

  /** A text of 32 bytes with nothing to trim is a key only if it holds none of the characters set aside. */
  lemma RawKeyIff(order: seq<Decoder>, s: string)
    requires |Encode(s)| == 32 && Trimmed(s, IsWhitespace)
    ensures KeyBytesWith(order, s) == if forall c | c in s :: c !in "+/-_=" then Ok(Encode(s)) else Err(NotAKey(32))
  {
    assert "" + s + "" == s;
    TrimOf("", s, "", IsWhitespace);
    RawKeysAreNotEncoded(order, s);
  }

  /** Thirty-two underscores are 32 bytes of ASCII and are refused. */
  lemma RawKeyRefused()
    ensures var s := seq(32, _ => '_'); |Encode(s)| == 32 && KeyBytesFromString(s) == Err(NotAKey(32))
  {
    hide KeyBytesWith;
    var s := seq(32, _ => '_');
    AsciiLength(s);
    assert s[0] == '_' && '_' in "+/-_=";
    RawKeyIff(ATTEMPTS, s);
  }

  /** Every encoding of every key comes back, whatever blanks surround it. */
  lemma EncodedKeyRoundTrip(b: seq<Byte>, a: Alphabet, padded: bool, pre: string, post: string)
    requires |b| == 32 && AllOf(pre, IsWhitespace) && AllOf(post, IsWhitespace)
    ensures KeyBytesFromString(pre + Encode64(a, padded, b) + post) == Ok(b)
  {
    var s := Encode64(a, padded, b);
    EncodedKeyLength(a, padded, b);
    EncodingIsPlain(a, padded, b);
    assert s[0] in s && s[|s| - 1] in s;
    TrimOf(pre, s, post, IsWhitespace);
    assert Decoder(a, padded) in ATTEMPTS;
    KeyBytesIff(ATTEMPTS, pre + s + post, b);
  }

  // ------------------------------------------------------------------
  // The handoff payload
  // ------------------------------------------------------------------

  /** Authenticated encryption, as a pair of functions: key, nonce, text; and key, nonce, text with tag. */
  datatype Cipher = Cipher(
    seal: (seq<Byte>, seq<Byte>, seq<Byte>) -> (seq<Byte>, seq<Byte>),
    open: (seq<Byte>, seq<Byte>, seq<Byte>) -> Option<seq<Byte>>)
  {
    /** Sealing gives a 16-byte tag, and opening the text followed by its tag undoes it. */
    ghost predicate Sound() {
      forall key, nonce, plain | |key| == 32 && |nonce| == 16 ::
        && |seal(key, nonce, plain).1| == 16
        && open(key, nonce, seal(key, nonce, plain).0 + seal(key, nonce, plain).1) == Some(plain)
    }
  }

  datatype HandoffError = BadKey(length: nat) | BadBase64 | TooShort | DecryptFailed | NotUtf8

  function OpenPayload(cipher: Cipher, key: seq<Byte>, payload: seq<Byte>): Result<string, HandoffError> {
    if |payload| < 32 then Err(TooShort)
    else match cipher.open(key, payload[..16], payload[32..] + payload[16..32])
      case None => Err(DecryptFailed)
      case Some(plain) =>
        match Decode(plain)
        case None => Err(NotUtf8)
        case Some(text) => Ok(text)
  }

  function Opened(cipher: Cipher, blob: string, keyText: string): Result<string, HandoffError> {
    match KeyBytesFromString(keyText)
    case Err(NotAKey(n)) => Err(BadKey(n))
    case Ok(key) =>
      match Decode64(Standard, true, Trim(blob, IsWhitespace))
      case None => Err(BadBase64)
      case Some(payload) => OpenPayload(cipher, key, payload)
  }

  method DecryptHandoffBlob(cipher: Cipher, blob: string, keyText: string) returns (r: Result<string, HandoffError>)
    ensures r == Opened(cipher, blob, keyText)
  {
    var key := KeyBytesFromString(keyText);
    if key.Err? {
      return Err(BadKey(key.error.length));
    }
    var decoded := Decode64(Standard, true, Trim(blob, IsWhitespace));
    if decoded.None? {
      return Err(BadBase64);
    }
    var combined := decoded.value;
    if |combined| < 32 {
      return Err(TooShort);
    }
    var iv, tag, ciphertext := combined[0..16], combined[16..32], combined[32..];
    var ctWithTag := [];
    ctWithTag := ctWithTag + ciphertext;
    ctWithTag := ctWithTag + tag;
    assert iv == combined[..16] && ctWithTag == combined[32..] + combined[16..32];
    var plain := cipher.open(key.value, iv, ctWithTag);
    if plain.None? {
      return Err(DecryptFailed);
    }
    var text := Decode(plain.value);
    return if text.None? then Err(NotUtf8) else Ok(text.value);
  }

  /** The blob, blanks around it aside, is the base64 text of nonce, tag and body. */
  ghost predicate Carries(blob: string, iv: seq<Byte>, tag: seq<Byte>, body: seq<Byte>) {
    |iv| == 16 && |tag| == 16 && Trim(blob, IsWhitespace) == Encode64(Standard, true, iv + tag + body)
  }

  lemma DecodesTo(blob: string, b: seq<Byte>)
    ensures Decode64(Standard, true, Trim(blob, IsWhitespace)) == Some(b) <==>
      Trim(blob, IsWhitespace) == Encode64(Standard, true, b)
  {
    DecodeIff(Standard, true, Trim(blob, IsWhitespace), b);
  }

  lemma CarriesIff(blob: string, iv: seq<Byte>, tag: seq<Byte>, body: seq<Byte>)
    ensures Carries(blob, iv, tag, body) <==>
      var p := Decode64(Standard, true, Trim(blob, IsWhitespace));
      p.Some? && |p.value| >= 32 && iv == p.value[..16] && tag == p.value[16..32] && body == p.value[32..]
  {
    hide Decode64, Encode64, Trim;
    var p := Decode64(Standard, true, Trim(blob, IsWhitespace));
    DecodesTo(blob, iv + tag + body);
    if p.Some? && |p.value| >= 32 {
      var all := p.value;
      assert all[..16] + all[16..32] + all[32..] == all;
    }
    if |iv| == 16 && |tag| == 16 {
      var all := iv + tag + body;
      assert all[..16] == iv && all[16..32] == tag && all[32..] == body;
    }
  }

  /**
   * A blob opens to a text exactly when the key text is accepted and the blob
   * carries nonce, tag and body that the cipher opens to that text's UTF-8.
   */
  lemma OpenedIff(cipher: Cipher, blob: string, keyText: string, text: string)
    ensures Opened(cipher, blob, keyText) == Ok(text) <==>
      exists key, iv, tag, body ::
        && KeyBytesFromString(keyText) == Ok(key) && Carries(blob, iv, tag, body)
        && cipher.open(key, iv, body + tag) == Some(Encode(text))
  {
    hide KeyBytesFromString, Decode64, Trim, Carries;
    DecodeEncode(text);
    if Opened(cipher, blob, keyText) == Ok(text) {
      var key, p := KeyBytesFromString(keyText).value, Decode64(Standard, true, Trim(blob, IsWhitespace)).value;
      CarriesIff(blob, p[..16], p[16..32], p[32..]);
      EncodeDecode(cipher.open(key, p[..16], p[32..] + p[16..32]).value);
    }
    if key, iv, tag, body :| KeyBytesFromString(keyText) == Ok(key) && Carries(blob, iv, tag, body)
                             && cipher.open(key, iv, body + tag) == Some(Encode(text)) {
      CarriesIff(blob, iv, tag, body);
    }
  }

  /** Each refusal, by the first thing that is wrong. */
  lemma OpenedErrors(cipher: Cipher, blob: string, keyText: string)
    ensures var s, key, r := Trim(blob, IsWhitespace), KeyBytesFromString(keyText), Opened(cipher, blob, keyText);
      && (forall n :: r == Err(BadKey(n)) <==> key == Err(NotAKey(n)))
      && (r == Err(BadBase64) <==> key.Ok? && forall b :: s != Encode64(Standard, true, b))
      && (r == Err(TooShort) <==> key.Ok? && exists b :: |b| < 32 && s == Encode64(Standard, true, b))
      && (r == Err(DecryptFailed) <==>
            key.Ok? && exists iv, tag, body ::
              Carries(blob, iv, tag, body) && cipher.open(key.value, iv, body + tag).None?)
      && (r == Err(NotUtf8) <==>
            key.Ok? && exists iv, tag, body ::
              && Carries(blob, iv, tag, body) && cipher.open(key.value, iv, body + tag).Some?
              && forall text :: cipher.open(key.value, iv, body + tag) != Some(Encode(text)))
  {
    EncodingErrors(cipher, blob, keyText);
    CipherErrors(cipher, blob, keyText);
  }

  lemma EncodingErrors(cipher: Cipher, blob: string, keyText: string)
    ensures var s, key, r := Trim(blob, IsWhitespace), KeyBytesFromString(keyText), Opened(cipher, blob, keyText);
      && (forall n :: r == Err(BadKey(n)) <==> key == Err(NotAKey(n)))
      && (r == Err(BadBase64) <==> key.Ok? && forall b :: s != Encode64(Standard, true, b))
      && (r == Err(TooShort) <==> key.Ok? && exists b :: |b| < 32 && s == Encode64(Standard, true, b))
  {
    hide KeyBytesFromString, Decode64, Encode64, Trim;
    forall b ensures Decode64(Standard, true, Trim(blob, IsWhitespace)) == Some(b) <==>
      Trim(blob, IsWhitespace) == Encode64(Standard, true, b)
    {
      DecodesTo(blob, b);
    }
  }

  lemma NotEncodedIff(b: seq<Byte>)
    ensures Decode(b).None? <==> forall text :: b != Encode(text)
  {
    EncodeDecode(b);
    forall text ensures b == Encode(text) ==> Decode(b).Some? {
      DecodeEncode(text);
    }
  }

  lemma CipherErrors(cipher: Cipher, blob: string, keyText: string)
    ensures var key, r := KeyBytesFromString(keyText), Opened(cipher, blob, keyText);
      && (r == Err(DecryptFailed) <==>
            key.Ok? && exists iv, tag, body ::
              Carries(blob, iv, tag, body) && cipher.open(key.value, iv, body + tag).None?)
      && (r == Err(NotUtf8) <==>
            key.Ok? && exists iv, tag, body ::
              && Carries(blob, iv, tag, body) && cipher.open(key.value, iv, body + tag).Some?
              && forall text :: cipher.open(key.value, iv, body + tag) != Some(Encode(text)))
  {
    hide KeyBytesFromString, Decode64, Trim, Carries, Decode, Encode;
    forall iv, tag, body ensures Carries(blob, iv, tag, body) <==>
      var p := Decode64(Standard, true, Trim(blob, IsWhitespace));
      p.Some? && |p.value| >= 32 && iv == p.value[..16] && tag == p.value[16..32] && body == p.value[32..]
    {
      CarriesIff(blob, iv, tag, body);
    }
    var key, p := KeyBytesFromString(keyText), Decode64(Standard, true, Trim(blob, IsWhitespace));
    if key.Ok? && p.Some? && |p.value| >= 32 {
      var iv, tag, body := p.value[..16], p.value[16..32], p.value[32..];
      assert Carries(blob, iv, tag, body);
      var plain := cipher.open(key.value, iv, body + tag);
      if plain.Some? { NotEncodedIff(plain.value); }
    }
  }

  /** The sender's layout: nonce, then tag, then text. */
  function Sealed(cipher: Cipher, key: seq<Byte>, iv: seq<Byte>, text: string): string {
    var (body, tag) := cipher.seal(key, iv, Encode(text));
    Encode64(Standard, true, iv + tag + body)
  }

  lemma EncodedIsTrimmed(b: seq<Byte>)
    ensures Trimmed(Encode64(Standard, true, b), IsWhitespace)
  {
    var s := Encode64(Standard, true, b);
    EncodingIsPlain(Standard, true, b);
    assert s != "" ==> s[0] in s && s[|s| - 1] in s;
  }

  /** What the backend seals under a key, this end opens under any accepted spelling of the key. */
  lemma HandoffRoundTrip(cipher: Cipher, key: seq<Byte>, keyText: string, iv: seq<Byte>, text: string,
                         pre: string, post: string)
    requires cipher.Sound() && KeyBytesFromString(keyText) == Ok(key) && |iv| == 16
    requires AllOf(pre, IsWhitespace) && AllOf(post, IsWhitespace)
    ensures Opened(cipher, pre + Sealed(cipher, key, iv, text) + post, keyText) == Ok(text)
  {
    KeyBytesIff(ATTEMPTS, keyText, key);
    var (body, tag) := cipher.seal(key, iv, Encode(text));
    var payload := iv + tag + body;
    EncodedIsTrimmed(payload);
    TrimOf(pre, Sealed(cipher, key, iv, text), post, IsWhitespace);
    DecodeIff(Standard, true, Sealed(cipher, key, iv, text), payload);
    assert payload[..16] == iv && payload[16..32] == tag && payload[32..] == body;
    DecodeEncode(text);
  }
}
