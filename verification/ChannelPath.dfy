// Channel-message routes of src/api/rest.rs: the path the edit and delete calls
// build, how it reads back, and what a 404 on it is taken to mean.
module ChannelPath {
  import opened Prelude
  import Utf8
  import opened Handoff

  type Byte = Utf8.Byte

  // ------------------------------------------------------------------
  // Percent-encoding (RFC 3986, sections 2.1 and 2.3)
  // ------------------------------------------------------------------

  predicate IsUnreserved(b: int) {
    0x30 <= b <= 0x39 || 0x41 <= b <= 0x5A || 0x61 <= b <= 0x7A || b == 0x2D || b == 0x2E || b == 0x5F || b == 0x7E
  }

  /** Letters, digits and four marks stand for themselves; any other byte is a percent sign and two capital digits. */
  lemma EncodeByteIs(b: Byte)
    ensures |EncodeByte(b)| == 1 <==>
      48 <= b <= 57 || 65 <= b <= 90 || 97 <= b <= 122 || b in {'-' as int, '.' as int, '_' as int, '~' as int}
    ensures |EncodeByte(b)| == 1 ==> EncodeByte(b)[0] as int == b
    ensures |EncodeByte(b)| != 1 ==>
      var hex := "0123456789ABCDEF"; EncodeByte(b) == ['%', hex[b / 16], hex[b % 16]]
  {
  }

  function HexDigit(v: int): char
    requires 0 <= v < 16
  {
    if v < 10 then '0' + v as char else 'A' + (v - 10) as char
  }

  function HexValue(c: char): Option<int> {
    if '0' <= c <= '9' then Some((c - '0') as int)
    else if 'A' <= c <= 'F' then Some((c - 'A') as int + 10)
    else if 'a' <= c <= 'f' then Some((c - 'a') as int + 10)
    else None
  }

  function EncodeByte(b: Byte): string {
    if IsUnreserved(b) then [b as char] else ['%', HexDigit(b / 16), HexDigit(b % 16)]
  }

  function EncodeBytes(bytes: seq<Byte>): string {
    if bytes == [] then "" else EncodeByte(bytes[0]) + EncodeBytes(bytes[1..])
  }

  function PercentEncode(s: string): string {
    EncodeBytes(Utf8.Encode(s))
  }

  function PercentDecode(s: string): Option<seq<Byte>> {
    if s == "" then Some([])
    else if s[0] == '%' then
      if |s| < 3 then None
      else match (HexValue(s[1]), HexValue(s[2]), PercentDecode(s[3..]))
        case (Some(h), Some(l), Some(rest)) => Some([h * 16 + l] + rest)
        case _ => None
    else if s[0] as int >= 128 then None
    else match PercentDecode(s[1..])
      case None => None
      case Some(rest) => Some([s[0] as int] + rest)
  }

  lemma HexRoundTrip(v: int)
    requires 0 <= v < 16
    ensures HexValue(HexDigit(v)) == Some(v)
  {
  }

  lemma {:induction false} DecodeEncodedBytes(bytes: seq<Byte>)
    ensures PercentDecode(EncodeBytes(bytes)) == Some(bytes)
  {
    if bytes == [] {
    } else {
      var b, rest := bytes[0], EncodeBytes(bytes[1..]);
      DecodeEncodedBytes(bytes[1..]);
      HexRoundTrip(b / 16);
      HexRoundTrip(b % 16);
      var s := EncodeByte(b) + rest;
      assert s[|EncodeByte(b)|..] == rest;
      assert bytes == [b] + bytes[1..];
    }
  }

  /** A segment read back from a path decodes to the text it was made from. */
  lemma PercentRoundTrip(s: string)
    ensures PercentDecode(PercentEncode(s)) == Some(Utf8.Encode(s))
    ensures Utf8.Decode(PercentDecode(PercentEncode(s)).value) == Some(s)
  {
    DecodeEncodedBytes(Utf8.Encode(s));
    Utf8.DecodeEncode(s);
  }

  lemma EncodeInjective(s: string, t: string)
    requires PercentEncode(s) == PercentEncode(t)
    ensures s == t
  {
    PercentRoundTrip(s);
    PercentRoundTrip(t);
  }

  predicate IsEncodedChar(c: char) {
    c == '%' || (c as int < 128 && IsUnreserved(c as int))
  }

  lemma {:induction false} EncodedChars(bytes: seq<Byte>)
    ensures forall c | c in EncodeBytes(bytes) :: IsEncodedChar(c)
    ensures bytes != [] ==> EncodeBytes(bytes) != ""
  {
    if bytes == [] {
    } else {
      EncodedChars(bytes[1..]);
    }
  }

  lemma EncodedSegment(s: string)
    ensures '/' !in PercentEncode(s) && '?' !in PercentEncode(s)
    ensures s != "" ==> PercentEncode(s) != ""
  {
    EncodedChars(Utf8.Encode(s));
  }

  predicate IsPlainChar(c: char) {
    c as int < 128 && IsUnreserved(c as int)
  }

  /** Text made of unreserved characters alone is its own encoding. */
  lemma {:induction false} PlainEncodesToItself(s: string)
    requires forall c | c in s :: IsPlainChar(c)
    ensures PercentEncode(s) == s
  {
    if s == "" {
    } else {
      assert s[0] in s && forall c | c in s[1..] :: c in s;
      PlainEncodesToItself(s[1..]);
      var rest := Utf8.Encode(s[1..]);
      assert Utf8.Encode(s) == [s[0] as int] + rest;
      assert ([s[0] as int] + rest)[1..] == rest;
      assert s == [s[0]] + s[1..];
    }
  }

  // ------------------------------------------------------------------
  // Building the path and resolving it
  // ------------------------------------------------------------------

  function MessagePath(channel: string, messageId: string): string {
    "channels" + "/" + PercentEncode(channel) + "/" + "messages" + "/" + PercentEncode(messageId)
  }

  const DOTS := {".", "%2e", "%2E"}

  predicate IsDot(segment: string) {
    segment in DOTS
  }

  predicate IsDotDot(segment: string) {
    exists a, b | a in DOTS && b in DOTS :: segment == a + b
  }

  /** The ways to write a dot segment, as URL resolution knows them. */
  lemma DotSegments(s: string)
    ensures IsDot(s) <==> s in {".", "%2e", "%2E"}
    ensures IsDotDot(s) <==>
      s in {"..", ".%2e", ".%2E", "%2e.", "%2e%2e", "%2e%2E", "%2E.", "%2E%2e", "%2E%2E"}
  {
    assert "." + "." == ".." && "." + "%2e" == ".%2e" && "." + "%2E" == ".%2E";
    assert "%2e" + "." == "%2e." && "%2e" + "%2e" == "%2e%2e" && "%2e" + "%2E" == "%2e%2E";
    assert "%2E" + "." == "%2E." && "%2E" + "%2e" == "%2E%2e" && "%2E" + "%2E" == "%2E%2E";
  }

  /** Dot-segment removal: `done` holds the segments kept so far. */
  function RemoveDots(segments: seq<string>, done: seq<string>): seq<string> {
    if segments == [] then done
    else
      var last := |segments| == 1;
      if IsDotDot(segments[0]) then
        var shorter := if done == [] then [] else done[..|done| - 1];
        RemoveDots(segments[1..], if last then shorter + [""] else shorter)
      else if IsDot(segments[0]) then
        RemoveDots(segments[1..], if last then done + [""] else done)
      else RemoveDots(segments[1..], done + [segments[0]])
  }

  /** The path of the URL that joining a relative path to a bare-host base gives. */
  function UrlPath(relative: string): string {
    var segments := RemoveDots(Split(relative, '/'), []);
    if segments == [] then "/" else "/" + Join(segments, '/')
  }

  // ------------------------------------------------------------------
  // Reading a path
  // ------------------------------------------------------------------

  function NonEmpty(segments: seq<string>): seq<string> {
    if segments == [] then []
    else (if segments[0] == "" then [] else [segments[0]]) + NonEmpty(segments[1..])
  }

  predicate WindowAt(segments: seq<string>, k: nat) {
    k + 4 <= |segments| && segments[k] == "channels" && segments[k + 2] == "messages"
  }

  /** The pair in the first window from position `k` on. */
  function FirstWindow(segments: seq<string>, k: nat): Option<(string, string)>
    decreases |segments| - k
  {
    if k + 4 > |segments| then None
    else if WindowAt(segments, k) then Some((segments[k + 1], segments[k + 3]))
    else FirstWindow(segments, k + 1)
  }

  function Parsed(path: string): Option<(string, string)> {
    FirstWindow(NonEmpty(Split(path, '/')), 0)
  }

  method ParseMessagePath(path: string) returns (r: Option<(string, string)>)
    ensures r == Parsed(path)
  {
    var segments := NonEmpty(Split(path, '/'));
    if |segments| == 4 && segments[0] == "channels" && segments[2] == "messages" {
      return Some((segments[1], segments[3]));
    }
    var k := 0;
    while k + 4 <= |segments|
      invariant k <= |segments|
      invariant FirstWindow(segments, 0) == FirstWindow(segments, k)
    {
      var window := segments[k..k + 4];
      if window[0] == "channels" && window[2] == "messages" {
        return Some((window[1], window[3]));
      }
      k := k + 1;
    }
    return None;
  }

  /** Four neighbours read `channels`, something, `messages`, something. */
  ghost predicate Shows(segments: seq<string>, i: nat, channel: string, messageId: string) {
    i + 4 <= |segments| && segments[i..i + 4] == ["channels", channel, "messages", messageId]
  }

  lemma WindowAtIff(segments: seq<string>, k: nat)
    ensures WindowAt(segments, k) <==> exists c, m :: Shows(segments, k, c, m)
    ensures WindowAt(segments, k) ==> Shows(segments, k, segments[k + 1], segments[k + 3])
  {
    if WindowAt(segments, k) {
      assert segments[k..k + 4] == ["channels", segments[k + 1], "messages", segments[k + 3]];
      assert Shows(segments, k, segments[k + 1], segments[k + 3]);
    }
    forall c, m | Shows(segments, k, c, m) ensures WindowAt(segments, k) {
      assert segments[k..k + 4][0] == segments[k] && segments[k..k + 4][2] == segments[k + 2];
    }
  }

  lemma {:induction false} FirstWindowFrom(segments: seq<string>, k: nat, r: (string, string))
    ensures FirstWindow(segments, k) == Some(r) <==>
      exists i: nat :: k <= i && WindowAt(segments, i) && r == (segments[i + 1], segments[i + 3])
                       && forall j: nat | k <= j < i :: !WindowAt(segments, j)
    decreases |segments| - k
  {
    if k + 4 > |segments| || WindowAt(segments, k) {
    } else {
      FirstWindowFrom(segments, k + 1, r);
    }
  }

  lemma FirstShown(segments: seq<string>, i: nat, r: (string, string))
    requires Shows(segments, i, r.0, r.1) && forall j: nat, c, m | j < i :: !Shows(segments, j, c, m)
    ensures FirstWindow(segments, 0) == Some(r)
  {
    WindowAtIff(segments, i);
    assert segments[i..i + 4][1] == segments[i + 1] && segments[i..i + 4][3] == segments[i + 3];
    forall j: nat | j < i ensures !WindowAt(segments, j) {
      WindowAtIff(segments, j);
    }
    FirstWindowFrom(segments, 0, r);
  }

  /** The window found is the first one there is; nothing is found only when there is none. */
  lemma FirstWindowIff(segments: seq<string>, r: (string, string))
    ensures FirstWindow(segments, 0) == Some(r) <==>
      exists i: nat :: Shows(segments, i, r.0, r.1) && forall j: nat, c, m | j < i :: !Shows(segments, j, c, m)
  {
    hide FirstWindow;
    if FirstWindow(segments, 0) == Some(r) {
      FirstWindowFrom(segments, 0, r);
      var i: nat :| WindowAt(segments, i) && r == (segments[i + 1], segments[i + 3])
                    && forall j: nat | j < i :: !WindowAt(segments, j);
      WindowAtIff(segments, i);
      forall j: nat, c, m | j < i ensures !Shows(segments, j, c, m) {
        WindowAtIff(segments, j);
      }
    }
    forall i: nat | Shows(segments, i, r.0, r.1) && forall j: nat, c, m | j < i :: !Shows(segments, j, c, m)
      ensures FirstWindow(segments, 0) == Some(r)
    {
      FirstShown(segments, i, r);
    }
  }

  /** Behind any prefix that holds no window of its own, the route is found whole. */
  lemma PrefixedRouteIsFound(pre: seq<string>, channel: string, messageId: string, post: seq<string>)
    requires var segments := pre + ["channels", channel, "messages", messageId] + post;
      forall j: nat | j < |pre| :: !WindowAt(segments, j)
    ensures FirstWindow(pre + ["channels", channel, "messages", messageId] + post, 0) == Some((channel, messageId))
  {
    var segments := pre + ["channels", channel, "messages", messageId] + post;
    FirstWindowFrom(segments, 0, (channel, messageId));
    assert WindowAt(segments, |pre|);
  }

  // ------------------------------------------------------------------
  // The round trip
  // ------------------------------------------------------------------

  lemma DotVariants(s: string)
    ensures IsDot(PercentEncode(s)) <==> s == "."
    ensures IsDotDot(PercentEncode(s)) <==> s == ".."
  {
    PlainEncodesToItself(".");
    PlainEncodesToItself("..");
    PercentRoundTrip(s);
    PercentRoundTrip(".");
    PercentRoundTrip("..");
    var e := PercentEncode(s);
    if IsDot(e) {
      DecodeDotThen(e, "");
      assert e + "" == e;
      Utf8.EncodeInjective(s, ".");
    }
    if IsDotDot(e) {
      var a, b :| a in DOTS && b in DOTS && e == a + b;
      DecodeDotThen(b, "");
      assert b + "" == b;
      DecodeDotThen(a, b);
      Utf8.EncodeInjective(s, "..");
    }
    assert ".." == "." + ".";
  }

  lemma DecodeDotThen(dot: string, rest: string)
    requires dot in DOTS
    ensures PercentDecode(dot + rest) ==
      match PercentDecode(rest) case None => None case Some(bytes) => Some([0x2E] + bytes)
  {
    assert (dot + rest)[|dot|..] == rest;
    if dot != "." {
      assert dot[0] == '%' && dot[1] == '2' && (dot[2] == 'e' || dot[2] == 'E');
    }
  }

  lemma MessagePathSegments(channel: string, messageId: string)
    ensures Split(MessagePath(channel, messageId), '/') ==
      ["channels", PercentEncode(channel), "messages", PercentEncode(messageId)]
  {
    var c, m := PercentEncode(channel), PercentEncode(messageId);
    EncodedSegment(channel);
    EncodedSegment(messageId);
    JoinFour("channels", c, "messages", m);
    SplitJoin(["channels", c, "messages", m], '/');
  }

  lemma JoinFour(a: string, b: string, c: string, d: string)
    ensures Join([a, b, c, d], '/') == a + "/" + b + "/" + c + "/" + d
  {
    assert [a, b, c, d][1..] == [b, c, d] && [b, c, d][1..] == [c, d] && [c, d][1..] == [d];
    assert Join([c, d], '/') == c + ['/'] + d;
    assert Join([b, c, d], '/') == b + ['/'] + (c + ['/'] + d);
  }

  lemma {:induction false} NonEmptyKeepsAll(segments: seq<string>)
    requires forall s | s in segments :: s != ""
    ensures NonEmpty(segments) == segments
  {
    if segments == [] {
    } else {
      assert segments[0] in segments && forall s | s in segments[1..] :: s in segments;
      NonEmptyKeepsAll(segments[1..]);
    }
  }

  lemma NonEmptyCons(x: string, rest: seq<string>)
    ensures NonEmpty([x] + rest) == NonEmpty([x]) + NonEmpty(rest)
  {
    assert ([x] + rest)[1..] == rest && [x][1..] == [];
  }

  lemma SlashPath(segments: seq<string>)
    requires |segments| > 0 && forall s | s in segments :: '/' !in s
    ensures NonEmpty(Split("/" + Join(segments, '/'), '/')) == NonEmpty(segments)
  {
    var joined := Join(segments, '/');
    SplitJoin(segments, '/');
    SplitPiece("", joined, '/');
    assert "" + ['/'] + joined == "/" + joined;
    NonEmptyCons("", segments);
  }

  /**
   * The built path is read back as exactly its two encoded segments, unless one
   * of the two texts is a dot segment, which the URL swallows; then nothing is
   * read.
   */
  lemma BuiltPathReadsBack(channel: string, messageId: string)
    requires channel != "" && messageId != ""
    ensures Parsed(UrlPath(MessagePath(channel, messageId))) ==
      if channel in {".", ".."} || messageId in {".", ".."} then None
      else Some((PercentEncode(channel), PercentEncode(messageId)))
  {
    var c, m := PercentEncode(channel), PercentEncode(messageId);
    MessagePathSegments(channel, messageId);
    DotVariants(channel);
    DotVariants(messageId);
    EncodedSegment(channel);
    EncodedSegment(messageId);
    var four := ["channels", c, "messages", m];
    RemoveDotsShape(four, []);
    SlashPath(RemoveDots(four, []));
    FourSegments(c, m);
  }

  lemma FourSegments(c: string, m: string)
    requires c != "" && m != ""
    ensures FirstWindow(NonEmpty(RemoveDots(["channels", c, "messages", m], [])), 0) ==
      if IsDot(c) || IsDotDot(c) || IsDot(m) || IsDotDot(m) then None else Some((c, m))
  {
    var kept := RemoveDots(["channels", c, "messages", m], []);
    RemoveDotsOfFour(c, m);
    if IsDot(c) || IsDotDot(c) || IsDot(m) || IsDotDot(m) {
      NonEmptyShorter(kept);
    } else {
      NonEmptyKeepsAll(kept);
      assert WindowAt(kept, 0);
    }
  }

  lemma RemoveDotsOfFour(c: string, m: string)
    ensures RemoveDots(["channels", c, "messages", m], []) ==
      (if IsDotDot(c) then [] else if IsDot(c) then ["channels"] else ["channels", c])
      + (if IsDotDot(m) then [""] else if IsDot(m) then ["messages", ""] else ["messages", m])
  {
    NotDots();
    var four := ["channels", c, "messages", m];
    assert four[1..] == [c, "messages", m] && four[1..][1..] == ["messages", m] && four[1..][1..][1..] == [m];
    var done := if IsDotDot(c) then [] else if IsDot(c) then ["channels"] else ["channels", c];
    assert [] + ["channels"] == ["channels"] && ["channels"] + [c] == ["channels", c];
    assert RemoveDots(four, []) == RemoveDots([c, "messages", m], ["channels"]);
    assert RemoveDots([c, "messages", m], ["channels"]) == RemoveDots(["messages", m], done);
    assert RemoveDots(["messages", m], done) == RemoveDots([m], done + ["messages"]);
    RemoveDotsOfLast(m, done);
  }

  lemma RemoveDotsOfLast(m: string, done: seq<string>)
    ensures RemoveDots([m], done + ["messages"]) ==
      done + (if IsDotDot(m) then [""] else if IsDot(m) then ["messages", ""] else ["messages", m])
  {
    var all := done + ["messages"];
    assert all[..|all| - 1] == done && [m][1..] == [];
    assert all + [""] == done + ["messages", ""] && all + [m] == done + ["messages", m];
  }

  /** What is left of the channel in the path asked for: `..` takes the collection with it. */
  function ChannelPart(channel: string): string {
    if channel == ".." then ""
    else if channel == "." then "channels/"
    else "channels/" + PercentEncode(channel) + "/"
  }

  function MessagePart(messageId: string): string {
    if messageId == ".." then ""
    else if messageId == "." then "messages/"
    else "messages/" + PercentEncode(messageId)
  }

  /**
   * The path a request really goes to, for any two texts: a dot segment shortens
   * it, so an edit or delete of message `..` addresses its channel.
   */
  lemma RequestGoesTo(channel: string, messageId: string)
    ensures UrlPath(MessagePath(channel, messageId)) == "/" + ChannelPart(channel) + MessagePart(messageId)
  {
    hide IsDot, IsDotDot, ChannelPart, MessagePart, MessagePath, PercentEncode;
    MessagePathSegments(channel, messageId);
    DotVariants(channel);
    DotVariants(messageId);
    RemoveDotsOfFour(PercentEncode(channel), PercentEncode(messageId));
    ChannelSegmentsJoin(channel);
    MessageSegmentsJoin(messageId);
    JoinedParts(ChannelSegments(channel), MessageSegments(messageId), ChannelPart(channel), MessagePart(messageId));
  }

  function ChannelSegments(channel: string): seq<string> {
    if channel == ".." then [] else if channel == "." then ["channels"] else ["channels", PercentEncode(channel)]
  }

  function MessageSegments(messageId: string): seq<string> {
    if messageId == ".." then [""]
    else if messageId == "." then ["messages", ""]
    else ["messages", PercentEncode(messageId)]
  }

  lemma ChannelSegmentsJoin(channel: string)
    ensures var front := ChannelSegments(channel);
      ChannelPart(channel) == if front == [] then "" else Join(front, '/') + "/"
  {
    hide PercentEncode;
    assert ["channels", PercentEncode(channel)][1..] == [PercentEncode(channel)];
  }

  lemma MessageSegmentsJoin(messageId: string)
    ensures MessagePart(messageId) == Join(MessageSegments(messageId), '/')
  {
    hide PercentEncode;
    assert ["messages", PercentEncode(messageId)][1..] == [PercentEncode(messageId)] && ["messages", ""][1..] == [""];
  }

  lemma JoinedParts(front: seq<string>, back: seq<string>, head: string, tail: string)
    requires front == [] ==> head == ""
    requires front != [] ==> head == Join(front, '/') + "/"
    requires back != [] && tail == Join(back, '/')
    ensures "/" + Join(front + back, '/') == "/" + head + tail
  {
    if front == [] {
      assert front + back == back;
    } else {
      JoinAppend(front, back, '/');
    }
  }

  /** Resolving adds no slash and never ends with nothing. */
  lemma {:induction false} RemoveDotsShape(segments: seq<string>, done: seq<string>)
    requires (forall s | s in segments :: '/' !in s) && (forall s | s in done :: '/' !in s)
    ensures forall s | s in RemoveDots(segments, done) :: '/' !in s
    ensures segments != [] ==> RemoveDots(segments, done) != []
  {
    if segments == [] {
    } else {
      var last, rest := |segments| == 1, segments[1..];
      var shorter := if done == [] then [] else done[..|done| - 1];
      if IsDotDot(segments[0]) {
        RemoveDotsShape(rest, if last then shorter + [""] else shorter);
      } else if IsDot(segments[0]) {
        RemoveDotsShape(rest, if last then done + [""] else done);
      } else {
        RemoveDotsShape(rest, done + [segments[0]]);
      }
    }
  }

  lemma NotDots()
    ensures !IsDot("channels") && !IsDotDot("channels") && !IsDot("messages") && !IsDotDot("messages")
  {
    forall a, b | a in DOTS && b in DOTS ensures (a + b)[0] == '.' || (a + b)[0] == '%' {
    }
    assert "channels"[0] == 'c' && "messages"[0] == 'm';
  }

  lemma {:induction false} NonEmptyShorter(segments: seq<string>)
    ensures |NonEmpty(segments)| <= |segments|
    ensures "" in segments ==> |NonEmpty(segments)| < |segments|
  {
    if segments == [] {
    } else {
      NonEmptyShorter(segments[1..]);
      assert segments == [segments[0]] + segments[1..];
    }
  }

  // ------------------------------------------------------------------
  // What a failed call reports
  // ------------------------------------------------------------------

  datatype Verb = GET | POST | PATCH | DELETE

  datatype ApiError =
    | ChannelRequired
    | MessageIdRequired
    | WebhooksBlocked
    | Unauthorized(verb: Verb, path: string)
    | ChannelEditUnsupported(provider: string, messageId: string)
    | MessageNotFound(provider: string, messageId: string)
    | MessagePathNotFound
    | AnnouncementNotFound
    | OtherStatus(status: nat)

  predicate Contains(s: string, part: string) {
    exists i | 0 <= i <= |s| :: part <= s[i..]
  }

  /** Whether a 404 body came from no route matching; `isJson` is the JSON parser's verdict. */
  predicate IsUnmatchedRoute404(body: string, isJson: string -> bool) {
    var trimmed := Trim(body, IsWhitespace);
    trimmed == "" || !isJson(trimmed)
  }

  predicate IsAnnouncementsLatest(path: string) {
    SuffixOf(["announcements", "latest"], NonEmpty(Split(path, '/')))
  }

  /** The error for a non-success answer on an authenticated call. */
  function Classify(verb: Verb, path: string, status: nat, body: string, isJson: string -> bool): ApiError {
    if status == 401 then Unauthorized(verb, path)
    else if status != 404 then OtherStatus(status)
    else
      var parsed := Parsed(path);
      var messageLike := Contains(path, "/channels/") && Contains(path, "/messages/");
      if verb == PATCH && (parsed.Some? || messageLike) && IsUnmatchedRoute404(body, isJson) then
        match parsed
        case Some((provider, id)) => ChannelEditUnsupported(provider, id)
        case None => ChannelEditUnsupported("unknown", "unknown")
      else if parsed.Some? then MessageNotFound(parsed.value.0, parsed.value.1)
      else if verb == DELETE && messageLike then MessagePathNotFound
      else if verb == GET && IsAnnouncementsLatest(path) then AnnouncementNotFound
      else OtherStatus(status)
  }

  /** Question marks read as slashes, so that a path splits at either. */
  function Slashed(path: string): string {
    seq(|path|, i requires 0 <= i < |path| => if path[i] == '?' then '/' else path[i])
  }

  predicate NamesWebhooks(path: string) {
    exists piece | piece in Split(Slashed(path), '/') :: Lower(piece) == "webhooks"
  }

  function ChannelName(channel: string): string {
    Trim(Trim(channel, IsWhitespace), c => c == '/')
  }

  /** Blanks come off the channel's name first, and then slashes. */
  lemma ChannelNameOf(pre: string, a: string, name: string, b: string, post: string)
    requires AllOf(pre, IsWhitespace) && AllOf(post, IsWhitespace) && Trimmed(a + name + b, IsWhitespace)
    requires (forall c | c in a + b :: c == '/') && (name == "" || (name[0] != '/' && name[|name| - 1] != '/'))
    ensures ChannelName(pre + (a + name + b) + post) == name
  {
    hide IsWhitespace;
    TrimOf(pre, a + name + b, post, IsWhitespace);
    forall i | 0 <= i < |a| ensures a[i] == '/' { assert a[i] in a + b; }
    forall i | 0 <= i < |b| ensures b[i] == '/' { assert b[i] in a + b; }
    TrimOf(a, name, b, c => c == '/');
  }

  /** What an edit or delete call reports when the backend answers with a non-success status. */
  function CallError(verb: Verb, channel: string, messageId: string, status: nat, body: string,
                     isJson: string -> bool): ApiError
  {
    var name := ChannelName(channel);
    if name == "" then ChannelRequired
    else if messageId == "" then MessageIdRequired
    else
      var path := MessagePath(name, messageId);
      if NamesWebhooks(path) then WebhooksBlocked
      else Classify(verb, UrlPath(path), status, body, isJson)
  }

  lemma LowerIsWord(s: string)
    ensures Lower(PercentEncode(s)) == "webhooks" <==> Lower(s) == "webhooks"
  {
    var e := PercentEncode(s);
    if Lower(s) == "webhooks" {
      LettersArePlain(s);
      PlainEncodesToItself(s);
    }
    if Lower(e) == "webhooks" {
      LettersArePlain(e);
      PlainEncodesToItself(e);
      EncodeInjective(s, e);
    }
  }

  lemma LettersArePlain(s: string)
    requires Lower(s) == "webhooks"
    ensures forall c | c in s :: IsPlainChar(c)
  {
    assert |s| == |Lower(s)|;
    forall c | c in s ensures IsPlainChar(c) {
      var i :| 0 <= i < |s| && s[i] == c;
      assert Lower(s)[i] == LowerChar(c);
    }
  }

  /** `piece` stands in `s` between `a` and `b`, with separators or nothing next to it. */
  ghost predicate Stands(s: string, sep: char, a: string, piece: string, b: string) {
    && s == a + piece + b && sep !in piece
    && (a == "" || a[|a| - 1] == sep) && (b == "" || b[0] == sep)
  }

  lemma PieceStands(s: string, sep: char, piece: string) returns (a: string, b: string)
    requires piece in Split(s, sep)
    ensures Stands(s, sep, a, piece, b)
  {
    var pieces := Split(s, sep);
    SplitPieces(s, sep);
    JoinSplit(s, sep);
    hide Split;
    var i :| 0 <= i < |pieces| && pieces[i] == piece;
    assert pieces == pieces[..i] + [piece] + pieces[i + 1..];
    a, b := JoinedAround(pieces[..i], piece, pieces[i + 1..], sep);
  }

  lemma JoinedAround(front: seq<string>, piece: string, back: seq<string>, sep: char) returns (a: string, b: string)
    ensures Join(front + [piece] + back, sep) == a + piece + b
    ensures (a == "" || a[|a| - 1] == sep) && (b == "" || b[0] == sep)
  {
    a := if front == [] then "" else Join(front, sep) + [sep];
    b := if back == [] then "" else [sep] + Join(back, sep);
    JoinedBefore(piece, back, sep);
    if front == [] {
      assert front + [piece] + back == [piece] + back;
      assert a + piece + b == piece + b;
    } else {
      JoinAppend(front, [piece] + back, sep);
      Assoc(front, [piece], back);
      Assoc(a, piece, b);
    }
  }

  lemma JoinedBefore(piece: string, back: seq<string>, sep: char)
    ensures Join([piece] + back, sep) == piece + if back == [] then "" else [sep] + Join(back, sep)
  {
    assert ([piece] + back)[1..] == back;
    if back == [] {
      assert [piece] + back == [piece] && piece + "" == piece;
    }
  }

  lemma LeadingPiece(piece: string, b: string, sep: char)
    requires sep !in piece && (b == "" || b[0] == sep)
    ensures piece in Split(piece + b, sep)
  {
    hide Split;
    if b == "" {
      SplitPiece(piece, "", sep);
      assert piece + b == piece && [piece][0] == piece;
    } else {
      SplitPiece(piece, b[1..], sep);
      assert b == [sep] + b[1..];
      Assoc(piece, [sep], b[1..]);
      assert ([piece] + Split(b[1..], sep))[0] == piece;
    }
  }

  lemma StandingIsPiece(s: string, sep: char, a: string, piece: string, b: string)
    requires Stands(s, sep, a, piece, b)
    ensures piece in Split(s, sep)
  {
    hide Split;
    LeadingPiece(piece, b, sep);
    Assoc(a, piece, b);
    if a == "" {
      assert s == piece + b;
    } else {
      var front := a[..|a| - 1];
      assert a == front + [sep];
      SplitAppend(front, piece + b, sep);
    }
  }

  lemma WordHasNoSeparators(w: string)
    requires Lower(w) == "webhooks"
    ensures '/' !in w && '?' !in w && Slashed(w) == w
  {
    LettersArePlain(w);
  }

  lemma SlashedParts(a: string, w: string, b: string)
    ensures Slashed(a + w + b) == Slashed(a) + Slashed(w) + Slashed(b)
  {
  }

  /** The word, in any case, between slashes, question marks or the ends of the path. */
  ghost predicate WordAt(path: string, a: string, w: string, b: string) {
    && path == a + w + b && Lower(w) == "webhooks"
    && (a == "" || a[|a| - 1] == '/' || a[|a| - 1] == '?') && (b == "" || b[0] == '/' || b[0] == '?')
  }

  /** A piece of the slashed path that holds neither separator stands in the path itself. */
  lemma StandsInPath(path: string, a: string, piece: string, b: string)
    requires Stands(Slashed(path), '/', a, piece, b)
    ensures var n, m := |a|, |a| + |piece|;
      && m <= |path| && path[n..m] == piece
      && (n > 0 ==> path[n - 1] == '/' || path[n - 1] == '?') && (m < |path| ==> path[m] == '/' || path[m] == '?')
  {
    var n, m := |a|, |a| + |piece|;
    var t := Slashed(path);
    forall i | n <= i < m ensures path[i] == piece[i - n] {
      assert t[i] == piece[i - n] && piece[i - n] in piece;
    }
    assert n > 0 ==> t[n - 1] == a[n - 1];
    assert m < |path| ==> t[m] == b[0];
  }

  lemma GateFiresAt(path: string) returns (a: string, w: string, b: string)
    requires NamesWebhooks(path)
    ensures WordAt(path, a, w, b)
  {
    w :| w in Split(Slashed(path), '/') && Lower(w) == "webhooks";
    a, b := PieceStands(Slashed(path), '/', w);
    StandsInPath(path, a, w, b);
    var n, m := |a|, |a| + |w|;
    a, b := path[..n], path[m..];
  }

  lemma GateFires(path: string, a: string, w: string, b: string)
    requires WordAt(path, a, w, b)
    ensures NamesWebhooks(path)
  {
    WordHasNoSeparators(w);
    SlashedParts(a, w, b);
    StandingIsPiece(Slashed(path), '/', Slashed(a), w, Slashed(b));
  }

  /** On any path, the gate fires exactly for the word standing by itself. */
  lemma NamesWebhooksIff(path: string)
    ensures NamesWebhooks(path) <==> exists a, w, b :: WordAt(path, a, w, b)
  {
    hide NamesWebhooks, WordAt;
    if NamesWebhooks(path) {
      var a, w, b := GateFiresAt(path);
    }
    forall a, w, b | WordAt(path, a, w, b) ensures NamesWebhooks(path) {
      GateFires(path, a, w, b);
    }
  }

  /** The local webhook gate fires exactly when the channel or the message id is that word. */
  lemma WebhookGate(channel: string, messageId: string)
    ensures NamesWebhooks(MessagePath(channel, messageId)) <==>
      Lower(channel) == "webhooks" || Lower(messageId) == "webhooks"
  {
    MessagePathSegments(channel, messageId);
    EncodedSegment(channel);
    EncodedSegment(messageId);
    var c, m := PercentEncode(channel), PercentEncode(messageId);
    var path := MessagePath(channel, messageId);
    NothingSlashed(c, m);
    assert Lower("channels")[0] == 'c' && Lower("messages")[0] == 'm' && "webhooks"[0] == 'w';
    GateOverFour("channels", c, "messages", m);
    LowerIsWord(channel);
    LowerIsWord(messageId);
  }

  lemma NothingSlashed(c: string, m: string)
    requires '?' !in c && '?' !in m
    ensures var path := "channels" + "/" + c + "/" + "messages" + "/" + m; Slashed(path) == path
  {
    var path := "channels" + "/" + c + "/" + "messages" + "/" + m;
    assert '?' !in path;
  }

  lemma GateOverFour(a: string, c: string, b: string, m: string)
    requires Lower(a) != "webhooks" && Lower(b) != "webhooks"
    ensures (exists piece | piece in [a, c, b, m] :: Lower(piece) == "webhooks") <==>
      Lower(c) == "webhooks" || Lower(m) == "webhooks"
  {
    assert [a, c, b, m][1] == c && [a, c, b, m][3] == m;
  }

  /** The body is JSON once the blanks around it are gone, so some handler answered. */
  ghost predicate HoldsJson(body: string, isJson: string -> bool) {
    exists pre, text, post ::
      && body == pre + text + post && AllOf(pre, IsWhitespace) && AllOf(post, IsWhitespace)
      && text != "" && Trimmed(text, IsWhitespace) && isJson(text)
  }

  lemma UnmatchedIff(body: string, isJson: string -> bool)
    ensures IsUnmatchedRoute404(body, isJson) <==> !HoldsJson(body, isJson)
  {
    hide IsWhitespace;
    var pre, post := TrimParts(body, IsWhitespace);
    forall pre, text, post | body == pre + text + post && AllOf(pre, IsWhitespace) && AllOf(post, IsWhitespace)
                             && Trimmed(text, IsWhitespace)
      ensures text == Trim(body, IsWhitespace)
    {
      TrimOf(pre, text, post, IsWhitespace);
    }
  }

  lemma BlankBodyHoldsNone(body: string, isJson: string -> bool)
    requires AllOf(body, IsWhitespace)
    ensures !HoldsJson(body, isJson)
  {
    assert "" + "" + body == body;
    TrimOf("", "", body, IsWhitespace);
    UnmatchedIff(body, isJson);
  }

  /**
   * A 404 on a call for a real message always carries that message's encoded
   * ids: on delete as not-found; on edit as not-found when the body holds JSON,
   * and as an unsupported route for any other body, a blank one included.
   */
  lemma NotFoundNamesTheMessage(channel: string, messageId: string, body: string, isJson: string -> bool)
    requires ChannelName(channel) !in {"", ".", ".."} && messageId !in {"", ".", ".."}
    requires Lower(ChannelName(channel)) != "webhooks" && Lower(messageId) != "webhooks"
    ensures var c, m := PercentEncode(ChannelName(channel)), PercentEncode(messageId);
      && CallError(DELETE, channel, messageId, 404, body, isJson) == MessageNotFound(c, m)
      && CallError(PATCH, channel, messageId, 404, body, isJson) ==
           (if HoldsJson(body, isJson) then MessageNotFound(c, m) else ChannelEditUnsupported(c, m))
      && (AllOf(body, IsWhitespace) ==> CallError(PATCH, channel, messageId, 404, body, isJson).ChannelEditUnsupported?)
  {
    hide HoldsJson;
    WebhookGate(ChannelName(channel), messageId);
    BuiltPathReadsBack(ChannelName(channel), messageId);
    UnmatchedIff(body, isJson);
    if AllOf(body, IsWhitespace) { BlankBodyHoldsNone(body, isJson); }
  }

  /** A delete reports its message missing exactly for a 404 on a name that is no dot segment and no webhook. */
  lemma DeleteNotFoundIff(channel: string, messageId: string, status: nat, body: string, isJson: string -> bool)
    ensures CallError(DELETE, channel, messageId, status, body, isJson).MessageNotFound? <==>
      && status == 404
      && ChannelName(channel) !in {"", ".", ".."} && messageId !in {"", ".", ".."}
      && Lower(ChannelName(channel)) != "webhooks" && Lower(messageId) != "webhooks"
  {
    var name := ChannelName(channel);
    if name != "" && messageId != "" {
      WebhookGate(name, messageId);
      BuiltPathReadsBack(name, messageId);
    }
  }

  /** An edit reports its own message's route as unsupported exactly for an unmatched-route 404 on such a name. */
  lemma EditUnsupportedIff(channel: string, messageId: string, status: nat, body: string, isJson: string -> bool)
    ensures
      var own := ChannelEditUnsupported(PercentEncode(ChannelName(channel)), PercentEncode(messageId));
      CallError(PATCH, channel, messageId, status, body, isJson) == own <==>
      && status == 404 && !HoldsJson(body, isJson)
      && ChannelName(channel) !in {"", ".", ".."} && messageId !in {"", ".", ".."}
      && Lower(ChannelName(channel)) != "webhooks" && Lower(messageId) != "webhooks"
  {
    var name := ChannelName(channel);
    if name != "" && messageId != "" {
      WebhookGate(name, messageId);
      BuiltPathReadsBack(name, messageId);
      DotsStayDots(name);
      DotsStayDots(messageId);
      UnmatchedIff(body, isJson);
    }
  }

  lemma DotsStayDots(s: string)
    ensures s in {".", ".."} ==> PercentEncode(s) != "unknown"
  {
    PlainEncodesToItself(".");
    PlainEncodesToItself("..");
  }

  /**
   * The local checks come first, in this order; then a rejected session, on any
   * verb, and every status other than not-found, with the path asked for.
   */
  lemma CallOutcome(verb: Verb, channel: string, messageId: string, status: nat, body: string, isJson: string -> bool)
    ensures var name, r := ChannelName(channel), CallError(verb, channel, messageId, status, body, isJson);
      var blocked := Lower(name) == "webhooks" || Lower(messageId) == "webhooks";
      && (r == ChannelRequired <==> name == "")
      && (r == MessageIdRequired <==> name != "" && messageId == "")
      && (r == WebhooksBlocked <==> name != "" && messageId != "" && blocked)
      && (forall v, p :: r == Unauthorized(v, p) <==>
            name != "" && messageId != "" && !blocked && status == 401
            && v == verb && p == "/" + ChannelPart(name) + MessagePart(messageId))
      && (status !in {401, 404} && name != "" && messageId != "" && !blocked ==> r == OtherStatus(status))
      && (status == 404 && name != "" && messageId != "" && !blocked ==>
            r == Classify(verb, "/" + ChannelPart(name) + MessagePart(messageId), 404, body, isJson))
  {
    hide ChannelName, MessagePath, UrlPath, NamesWebhooks, ChannelPart, MessagePart, Parsed, Contains,
      IsUnmatchedRoute404, IsAnnouncementsLatest;
    var name := ChannelName(channel);
    if name != "" && messageId != "" {
      WebhookGate(name, messageId);
      RequestGoesTo(name, messageId);
    }
  }

  /** Some piece that is neither the first nor the last is `w`. */
  ghost predicate HasInner(pieces: seq<string>, w: string) {
    exists i :: 0 < i < |pieces| - 1 && pieces[i] == w
  }

  lemma ContainsIff(path: string, w: string)
    requires '/' !in w
    ensures Contains(path, "/" + w + "/") <==> HasInner(Split(path, '/'), w)
  {
    hide Split, Contains, HasInner;
    if Contains(path, "/" + w + "/") {
      var a, b := Around(path, "/" + w + "/");
      InnerSplits(a, w, b);
      assert a + ("/" + w + "/") + b == a + "/" + w + "/" + b;
    }
    if HasInner(Split(path, '/'), w) {
      var front, back := AroundPiece(Split(path, '/'), w);
      JoinSplit(path, '/');
      InnerJoins(front, w, back);
    }
  }

  lemma Around(s: string, part: string) returns (a: string, b: string)
    requires Contains(s, part)
    ensures s == a + part + b
  {
    var i :| 0 <= i <= |s| && part <= s[i..];
    a, b := s[..i], s[i..][|part|..];
  }

  lemma AroundPiece(pieces: seq<string>, w: string) returns (front: seq<string>, back: seq<string>)
    requires HasInner(pieces, w)
    ensures pieces == front + [w] + back && front != [] && back != []
  {
    var i :| 0 < i < |pieces| - 1 && pieces[i] == w;
    front, back := pieces[..i], pieces[i + 1..];
  }

  lemma InnerSplits(a: string, w: string, b: string)
    requires '/' !in w
    ensures HasInner(Split(a + "/" + w + "/" + b, '/'), w)
  {
    hide Split;
    SplitPiece(w, b, '/');
    SplitAppend(a, w + ['/'] + b, '/');
    assert a + "/" + w + "/" + b == a + ['/'] + (w + ['/'] + b);
    assert (Split(a, '/') + ([w] + Split(b, '/')))[|Split(a, '/')|] == w;
  }

  lemma InnerJoins(front: seq<string>, w: string, back: seq<string>)
    requires front != [] && back != []
    ensures Contains(Join(front + [w] + back, '/'), "/" + w + "/")
  {
    JoinAppend(front, [w] + back, '/');
    assert front + [w] + back == front + ([w] + back) && ([w] + back)[1..] == back;
    var a, b := Join(front, '/'), Join(back, '/');
    var all := Join(front + [w] + back, '/');
    assert all == a + ("/" + w + "/" + b);
    assert all[|a|..] == "/" + w + "/" + b;
  }

  /** What a 404 is taken to mean, by the path's pieces, the verb and the body. */
  lemma NotFoundIff(verb: Verb, path: string, body: string, isJson: string -> bool)
    ensures var r, parsed := Classify(verb, path, 404, body, isJson), Parsed(path);
      var inner := HasInner(Split(path, '/'), "channels") && HasInner(Split(path, '/'), "messages");
      && (forall p, id :: r == MessageNotFound(p, id) <==>
            parsed == Some((p, id)) && (verb == PATCH ==> HoldsJson(body, isJson)))
      && (forall p, id :: r == ChannelEditUnsupported(p, id) <==>
            && verb == PATCH && !HoldsJson(body, isJson)
            && (parsed == Some((p, id)) || (parsed.None? && inner && p == "unknown" && id == "unknown")))
      && (r == MessagePathNotFound <==> verb == DELETE && parsed.None? && inner)
      && (r == AnnouncementNotFound <==> verb == GET && parsed.None? && IsAnnouncementsLatest(path))
      && (r.MessageNotFound? || r.ChannelEditUnsupported? || r == MessagePathNotFound || r == AnnouncementNotFound
          || r == OtherStatus(404))
  {
    hide Parsed, HoldsJson, HasInner, IsAnnouncementsLatest, Contains, IsUnmatchedRoute404, Split;
    UnmatchedIff(body, isJson);
    assert "/" + "channels" + "/" == "/channels/" && "/" + "messages" + "/" == "/messages/";
    ContainsIff(path, "channels");
    ContainsIff(path, "messages");
  }

  lemma {:induction false} NonEmptyAppend(a: seq<string>, b: seq<string>)
    ensures NonEmpty(a + b) == NonEmpty(a) + NonEmpty(b)
  {
    if a == [] {
      assert a + b == b;
    } else {
      NonEmptyAppend(a[1..], b);
      NonEmptyCons(a[0], a[1..]);
      NonEmptyCons(a[0], a[1..] + b);
      assert a == [a[0]] + a[1..] && a + b == [a[0]] + (a[1..] + b);
      Assoc(NonEmpty([a[0]]), NonEmpty(a[1..]), NonEmpty(b));
    }
  }

  /**
   * The announcement route is recognised by its last two pieces, behind any
   * prefix, with or without trailing slashes, and no other route is.
   */
  lemma AnnouncementIff(pre: seq<string>, a: string, b: string, post: seq<string>)
    requires (forall s | s in pre :: '/' !in s) && '/' !in a && '/' !in b && a != "" && b != ""
    requires forall s | s in post :: s == ""
    ensures IsAnnouncementsLatest("/" + Join(pre + [a, b] + post, '/')) <==> a == "announcements" && b == "latest"
  {
    var route := [a, b];
    SlashPath(pre + route + post);
    NonEmptyAppend(pre + route, post);
    NonEmptyAppend(pre, route);
    NonEmptyKeepsAll(route);
    NoneLeft(post);
    var kept := NonEmpty(pre);
    assert NonEmpty(pre + route + post) == kept + route;
    assert (kept + route)[|kept|..] == route;
    assert route[0] == a && route[1] == b;
    assert ["announcements", "latest"][0] == "announcements" && ["announcements", "latest"][1] == "latest";
  }

  lemma {:induction false} NoneLeft(segments: seq<string>)
    requires forall s | s in segments :: s == ""
    ensures NonEmpty(segments) == []
  {
    if segments == [] {
    } else {
      assert segments[0] in segments && forall s | s in segments[1..] :: s in segments;
      NoneLeft(segments[1..]);
    }
  }
}
