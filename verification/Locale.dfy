// The locale writer of scripts/apply-i18n-translations.ts: merging translations,
// printing the file, and reading it back.
module Locale {
  import opened Prelude
  import opened JsLiterals
  import opened StoredText

  type Messages = map<Text, Text>
  type Pairs = seq<(Text, Text)>

  /** Printable ASCII source text in code units; any other character would read as a space. */
  function Ascii(s: string): (t: Text)
    ensures forall u | u in t :: 0x20 <= u < 0x7F
  {
    seq(|s|, i requires 0 <= i < |s| => if ' ' <= s[i] <= '~' then s[i] as int else 0x20)
  }

  // ------------------------------------------------------------------
  // Writing a locale file
  // ------------------------------------------------------------------

  function EntryLine(key: Text, value: Text): Text {
    [0x20, 0x20] + JsString(key) + [0x3A, 0x20] + JsString(value) + [0x2C]
  }

  function EntryLines(pairs: Pairs): seq<Text> {
    if pairs == [] then [] else [EntryLine(pairs[0].0, pairs[0].1)] + EntryLines(pairs[1..])
  }

  /** The keys that have a value, with it, in the order given. */
  function PairsOf(keys: seq<Text>, values: Messages): Pairs {
    if keys == [] then []
    else (if keys[0] in values then [(keys[0], values[keys[0]])] else []) + PairsOf(keys[1..], values)
  }

  /** The lines above the entries; the last one opens the object literal. */
  function HeadLines(langLabel: Text): seq<Text> {
    [Ascii("import type { TranslationMap } from './types';"),
     [],
     Ascii("// ") + langLabel + Ascii(" translations. Keys mirror en.ts; missing/"),
     Ascii("// English-identical values") + Ascii(" fall back to English via I18nContext.resolveEn()."),
     Ascii("const messages: TranslationMap = {")]
  }

  const TAIL_LINES: seq<Text> := [[0x7D, 0x3B], [], Ascii("export default messages;"), []]

  /** Builds the lines and writes them to the file as UTF-8. */
  method WriteLocale(langLabel: Text, enKeysInOrder: seq<Text>, values: Messages) returns (file: seq<Byte>)
    ensures file == Written(HeadLines(langLabel), enKeysInOrder, values)
  {
    var lines := HeadLines(langLabel);
    for i := 0 to |enKeysInOrder|
      invariant lines + EntryLines(PairsOf(enKeysInOrder[i..], values)) ==
        HeadLines(langLabel) + EntryLines(PairsOf(enKeysInOrder, values))
    {
      var k := enKeysInOrder[i];
      ghost var rest := PairsOf(enKeysInOrder[i + 1..], values);
      assert enKeysInOrder[i..][1..] == enKeysInOrder[i + 1..];
      if k !in values {
        assert [] + rest == rest;
        continue;
      }
      assert ([(k, values[k])] + rest)[1..] == rest;
      Assoc(lines, [EntryLine(k, values[k])], EntryLines(rest));
      lines := lines + [EntryLine(k, values[k])];
    }
    assert enKeysInOrder[|enKeysInOrder|..] == [] && lines + [] == lines;
    lines := lines + TAIL_LINES;
    file := WriteText(Join(lines, LF));
  }

  /** The file text with the given head lines, entries, and closing lines. */
  function FileText(head: seq<Text>, pairs: Pairs): Text {
    Join(head + EntryLines(pairs) + TAIL_LINES, LF)
  }

  function Written(head: seq<Text>, keys: seq<Text>, values: Messages): seq<Byte> {
    WriteText(FileText(head, PairsOf(keys, values)))
  }

  // ------------------------------------------------------------------
  // Reading it back
  // ------------------------------------------------------------------

  function SkipSpace(t: Text): (r: Text)
    ensures |r| <= |t|
  {
    if t != [] && (t[0] == 0x20 || t[0] == LF) then SkipSpace(t[1..]) else t
  }

  /** One `key: value` property and what follows it. */
  function ReadProperty(t: Text): (r: Option<((Text, Text), Text)>)
    ensures r.Some? ==> |r.value.1| < |t|
  {
    match ScanLiteral(t)
    case None => None
    case Some((key, t1)) =>
      var t2 := SkipSpace(t1);
      if t2 == [] || t2[0] != 0x3A then None
      else match ScanLiteral(SkipSpace(t2[1..]))
        case None => None
        case Some((value, t3)) => Some(((key, value), t3))
  }

  /** The properties of an object literal, from after its opening brace, and what follows its closing one. */
  function ReadObject(t: Text): Option<(Pairs, Text)>
    decreases |t|
  {
    var t0 := SkipSpace(t);
    if t0 != [] && t0[0] == 0x7D then Some(([], t0[1..]))
    else match ReadProperty(t0)
      case None => None
      case Some((pair, t1)) =>
        var t2 := SkipSpace(t1);
        if t2 != [] && t2[0] == 0x7D then Some(([pair], t2[1..]))
        else if t2 == [] || t2[0] != 0x2C then None
        else match ReadObject(t2[1..])
          case None => None
          case Some((rest, t3)) => Some(([pair] + rest, t3))
  }

  /** What follows the first line. */
  function RestOfLine(t: Text): (r: Text)
    ensures t != [] ==> |r| < |t|
  {
    if t == [] then [] else if IsLineTerminator(t[0]) then t[1..] else RestOfLine(t[1..])
  }

  const COMMENT: Text := [0x2F, 0x2F]
  const IMPORT: Text := Ascii("import ")

  /** Drops comments, imports and blank lines. */
  function DropTrivia(t: Text): Text
    decreases |t|
  {
    if t != [] && (IsLineTerminator(t[0]) || COMMENT <= t || IMPORT <= t) then DropTrivia(RestOfLine(t)) else t
  }

  function Strip(t: Text, prefix: Text): Option<Text> {
    if prefix <= t then Some(t[|prefix|..]) else None
  }

  /** The name before a colon, and the text from the colon on. */
  function UpToColon(t: Text): (Text, Text) {
    if t == [] || t[0] == 0x3A then ([], t)
    else
      var r := UpToColon(t[1..]);
      ([t[0]] + r.0, r.1)
  }

  /** The name that a translation map is declared under, and what follows its opening brace. */
  function ReadDeclaration(t: Text): Option<(Text, Text)> {
    match Strip(t, Ascii("const "))
    case None => None
    case Some(t1) =>
      var (name, t2) := UpToColon(t1);
      match Strip(t2, Ascii(": TranslationMap = {"))
      case None => None
      case Some(t3) => Some((name, t3))
  }

  /** Whether what follows the object ends its declaration and makes `name` the default export. */
  predicate Exports(t: Text, name: Text) {
    match Strip(SkipSpace(t), [0x3B])
    case None => false
    case Some(t1) => SkipSpace(t1) == Ascii("export default ") + name + [0x3B, LF]
  }

  const TYPE_IMPORT: Text := Ascii("import type { TranslationMap } from './types';")

  /** The entries of the map that a module declares and exports, its type imported first. */
  function ReadModule(text: Text): Option<Pairs> {
    if !(TYPE_IMPORT + [LF] <= text) then None
    else match ReadDeclaration(DropTrivia(text))
      case None => None
      case Some((name, t1)) =>
        match ReadObject(t1)
        case None => None
        case Some((pairs, t2)) => if Exports(t2, name) then Some(pairs) else None
  }

  /** The pairs of a locale file, in order: those of the map that it declares and exports. */
  function ReadLocale(file: seq<Byte>): Option<Pairs> {
    match ReadText(file)
    case None => None
    case Some(text) => ReadModule(text)
  }

  lemma SkipSpaceOf(pre: Text, t: Text)
    requires forall u | u in pre :: u == 0x20 || u == LF
    requires t != [] && t[0] != 0x20 && t[0] != LF
    ensures SkipSpace(pre + t) == t
  {
    if pre == [] {
      assert pre + t == t;
    } else {
      assert pre[0] in pre && (pre + t)[1..] == pre[1..] + t && forall u | u in pre[1..] :: u in pre;
      SkipSpaceOf(pre[1..], t);
    }
  }

  lemma ReadPropertyOf(key: Text, value: Text, rest: Text)
    ensures ReadProperty(JsString(key) + [0x3A, 0x20] + JsString(value) + rest) == Some(((key, value), rest))
  {
    var afterKey := [0x3A, 0x20] + JsString(value) + rest;
    assert JsString(key) + [0x3A, 0x20] + JsString(value) + rest == JsString(key) + afterKey;
    LiteralRoundTrip(key, afterKey);
    assert SkipSpace(afterKey) == afterKey;
    var v := JsString(value) + rest;
    assert afterKey[1..] == [0x20] + v;
    SkipSpaceOf([0x20], v);
    LiteralRoundTrip(value, rest);
  }

  /** What follows the closing brace. */
  function AfterObject(): Text {
    [0x3B] + ([LF, LF] + (Ascii("export default messages;") + [LF]))
  }

  lemma TailText()
    ensures Join(TAIL_LINES, LF) == [0x7D] + AfterObject()
  {
    var closing: Text := Ascii("export default messages;");
    var tail := TAIL_LINES;
    assert tail[1..] == [[], closing, []] && tail[1..][1..] == [closing, []] && tail[1..][1..][1..] == [[]];
    assert Join([closing, []], LF) == closing + [LF] + [];
    assert Join([[], closing, []], LF) == [] + [LF] + (closing + [LF] + []);
  }

  lemma AsciiAppend(a: string, b: string)
    ensures Ascii(a + b) == Ascii(a) + Ascii(b)
  {
  }

  lemma AfterObjectExports()
    ensures Exports(AfterObject(), Ascii("messages"))
  {
    var closing: Text := Ascii("export default messages;");
    AsciiAppend("export default ", "messages");
    AsciiAppend("export default " + "messages", ";");
    assert "export default " + "messages" + ";" == "export default messages;";
    var last := closing + [LF];
    assert SkipSpace(AfterObject()) == AfterObject() && AfterObject()[1..] == [LF, LF] + last;
    SkipSpaceOf([LF, LF], last);
    assert Ascii(";") == [0x3B];
    assert last == Ascii("export default ") + Ascii("messages") + [0x3B, LF];
  }

  /** The entry lines, joined in front of the closing lines, read back as their pairs. */
  lemma {:induction false} ReadEntries(pairs: Pairs)
    ensures ReadObject(Join(EntryLines(pairs) + TAIL_LINES, LF)) == Some((pairs, AfterObject()))
  {
    hide EntryLine, AfterObject;
    if pairs == [] {
      assert EntryLines(pairs) + TAIL_LINES == TAIL_LINES;
      TailText();
      assert ([0x7D] + AfterObject())[1..] == AfterObject();
    } else {
      ReadEntries(pairs[1..]);
      var (k, v) := pairs[0];
      var lines := EntryLines(pairs[1..]) + TAIL_LINES;
      assert EntryLines(pairs) + TAIL_LINES == [EntryLine(k, v)] + lines;
      assert ([EntryLine(k, v)] + lines)[1..] == lines;
      EntryThenRest(k, v, Join(lines, LF));
      assert pairs == [(k, v)] + pairs[1..];
    }
  }

  lemma EntryThenRest(k: Text, v: Text, rest: Text)
    requires ReadObject(rest).Some?
    ensures ReadObject(EntryLine(k, v) + [LF] + rest) ==
      Some(([(k, v)] + ReadObject(rest).value.0, ReadObject(rest).value.1))
  {
    var property := JsString(k) + [0x3A, 0x20] + JsString(v);
    var after := [0x2C] + ([LF] + rest);
    EntryShape(k, v, rest);
    SkipSpaceOf([0x20, 0x20], property + after);
    ReadPropertyOf(k, v, after);
    assert SkipSpace(after) == after && after[1..] == [LF] + rest;
    NewlineSkipped(rest);
  }

  lemma EntryShape(k: Text, v: Text, rest: Text)
    ensures EntryLine(k, v) + [LF] + rest ==
      [0x20, 0x20] + (JsString(k) + [0x3A, 0x20] + JsString(v) + ([0x2C] + ([LF] + rest)))
  {
  }

  lemma NewlineSkipped(rest: Text)
    ensures ReadObject([LF] + rest) == ReadObject(rest)
  {
    assert ([LF] + rest)[1..] == rest;
    assert SkipSpace([LF] + rest) == SkipSpace(rest);
  }

  predicate OneLine(line: Text) {
    forall u | u in line :: !IsLineTerminator(u)
  }

  lemma {:induction false} RestOfLineIs(line: Text, end: Unit, rest: Text)
    requires OneLine(line) && IsLineTerminator(end)
    ensures RestOfLine(line + [end] + rest) == rest
  {
    var t := line + [end] + rest;
    if line == [] {
      assert t[1..] == rest;
    } else {
      assert t[1..] == line[1..] + [end] + rest && line[0] in line;
      RestOfLineIs(line[1..], end, rest);
    }
  }

  /** A blank line, a comment or an import. */
  predicate IsTrivia(line: Text) {
    OneLine(line) && (line == [] || COMMENT <= line || IMPORT <= line)
  }

  lemma TriviaDropped(line: Text, rest: Text)
    requires IsTrivia(line)
    ensures DropTrivia(line + [LF] + rest) == DropTrivia(rest)
  {
    RestOfLineIs(line, LF, rest);
    PrefixStays(line, [LF] + rest);
    assert line + [LF] + rest == line + ([LF] + rest);
  }

  lemma PrefixStays(line: Text, rest: Text)
    ensures COMMENT <= line ==> COMMENT <= line + rest
    ensures IMPORT <= line ==> IMPORT <= line + rest
  {
  }

  lemma {:induction false} TriviaLinesDropped(lines: seq<Text>, rest: seq<Text>)
    requires rest != [] && forall l | l in lines :: IsTrivia(l)
    ensures DropTrivia(Join(lines + rest, LF)) == DropTrivia(Join(rest, LF))
  {
    hide IsTrivia;
    if lines == [] {
      assert lines + rest == rest;
    } else {
      assert (lines + rest)[1..] == lines[1..] + rest && lines[0] in lines && forall l | l in lines[1..] :: l in lines;
      TriviaLinesDropped(lines[1..], rest);
      TriviaDropped(lines[0], Join(lines[1..] + rest, LF));
    }
  }

  const DECLARATION: Text := Ascii("const ") + Ascii("messages") + Ascii(": TranslationMap = {")

  lemma {:induction false} UpToColonOf(name: Text, t: Text)
    requires 0x3A !in name && t != [] && t[0] == 0x3A
    ensures UpToColon(name + t) == (name, t)
  {
    if name == [] {
      assert name + t == t;
    } else {
      assert (name + t)[1..] == name[1..] + t && name[0] in name;
      UpToColonOf(name[1..], t);
      assert name == [name[0]] + name[1..];
    }
  }

  lemma DeclarationReads(rest: Text)
    ensures ReadDeclaration(DECLARATION + rest) == Some((Ascii("messages"), rest))
  {
    var c, name, open := Ascii("const "), Ascii("messages"), Ascii(": TranslationMap = {");
    DeclarationCut(c, name, open, rest);
    UpToColonOf(name, open + rest);
  }

  lemma DeclarationCut(c: Text, name: Text, open: Text, rest: Text)
    ensures Strip(c + name + open + rest, c) == Some(name + (open + rest))
    ensures Strip(open + rest, open) == Some(rest)
  {
    assert c + name + open + rest == c + (name + (open + rest));
  }

  lemma DeclarationIsNoTrivia(rest: Text)
    ensures DropTrivia(DECLARATION + rest) == DECLARATION + rest
  {
    assert (DECLARATION + rest)[0] == 0x63 && IMPORT[0] == 0x69;
  }

  /** The type's import, lines of no consequence, and then the declaration that opens the object. */
  ghost predicate IsHead(head: seq<Text>) {
    && |head| > 1 && head[0] == TYPE_IMPORT && head[|head| - 1] == DECLARATION
    && forall l | l in head[..|head| - 1] :: IsTrivia(l)
  }

  lemma HeadLinesAreHead(langLabel: Text)
    requires OneLine(langLabel)
    ensures IsHead(HeadLines(langLabel))
  {
    var head := HeadLines(langLabel);
    DeclarationText();
    ImportText();
    CommentText(langLabel);
    assert head[..4] == [head[0], head[1], head[2], head[3]];
  }

  lemma DeclarationText()
    ensures Ascii("const messages: TranslationMap = {") == DECLARATION
  {
    AsciiAppend("const ", "messages");
    AsciiAppend("const " + "messages", ": TranslationMap = {");
    assert "const " + "messages" + ": TranslationMap = {" == "const messages: TranslationMap = {";
  }

  lemma AsciiPrefix(p: string, s: string)
    requires p <= s
    ensures Ascii(p) <= Ascii(s) && OneLine(Ascii(s))
  {
  }

  lemma ImportText()
    ensures IsTrivia(Ascii("import type { TranslationMap } from './types';"))
  {
    hide Ascii;
    AsciiPrefix("import ", "import type { TranslationMap } from './types';");
  }

  lemma CommentIsTrivia(s: string, mid: Text, rest: string)
    requires "//" <= s && OneLine(mid)
    ensures IsTrivia(Ascii(s) + mid + Ascii(rest)) && IsTrivia(Ascii(s))
  {
    AsciiPrefix("//", s);
    assert Ascii("//") == COMMENT;
    PrefixStays(Ascii(s), mid + Ascii(rest));
    assert Ascii(s) + mid + Ascii(rest) == Ascii(s) + (mid + Ascii(rest));
  }

  lemma CommentText(langLabel: Text)
    requires OneLine(langLabel)
    ensures IsTrivia(Ascii("// ") + langLabel + Ascii(" translations. Keys mirror en.ts; missing/"))
    ensures IsTrivia(Ascii("// English-identical values") + Ascii(" fall back to English via I18nContext.resolveEn()."))
  {
    hide Ascii, IsTrivia;
    CommentIsTrivia("// ", langLabel, " translations. Keys mirror en.ts; missing/");
    CommentIsTrivia("// English-identical values", [], " fall back to English via I18nContext.resolveEn().");
    var line := Ascii("// English-identical values");
    assert line + [] == line;
  }

  // ------------------------------------------------------------------
  // What the file keeps
  // ------------------------------------------------------------------

  function StoredPairs(pairs: Pairs): Pairs {
    seq(|pairs|, i requires 0 <= i < |pairs| => (Stored(pairs[i].0), Stored(pairs[i].1)))
  }

  function StoredLines(lines: seq<Text>): seq<Text> {
    seq(|lines|, i requires 0 <= i < |lines| => Stored(lines[i]))
  }

  lemma {:induction false} StoredJoin(lines: seq<Text>)
    requires lines != []
    ensures Stored(Join(lines, LF)) == Join(StoredLines(lines), LF)
  {
    if |lines| == 1 {
    } else {
      StoredJoin(lines[1..]);
      StoredAround(lines[0], LF, Join(lines[1..], LF));
      assert StoredLines(lines)[1..] == StoredLines(lines[1..]);
    }
  }

  lemma StoredEntryLine(key: Text, value: Text)
    ensures Stored(EntryLine(key, value)) == EntryLine(Stored(key), Stored(value))
  {
    var indent: Text, colon: Text, comma: Text := [0x20, 0x20], [0x3A, 0x20], [0x2C];
    var k, v := JsString(key), JsString(value);
    StoredAppend(indent + k + colon + v, comma);
    StoredAppend(indent + k + colon, v);
    StoredAppend(indent + k, colon);
    StoredAppend(indent, k);
    StoredPlain(indent);
    StoredPlain(colon);
    StoredPlain(comma);
    StoredLiteral(key);
    StoredLiteral(value);
  }

  lemma {:induction false} StoredEntryLines(pairs: Pairs)
    ensures StoredLines(EntryLines(pairs)) == EntryLines(StoredPairs(pairs))
  {
    hide EntryLine, Stored;
    if pairs == [] {
    } else {
      StoredEntryLines(pairs[1..]);
      StoredEntryLine(pairs[0].0, pairs[0].1);
      assert StoredPairs(pairs)[1..] == StoredPairs(pairs[1..]);
    }
  }

  lemma StoredTail()
    ensures StoredLines(TAIL_LINES) == TAIL_LINES
  {
    forall l | l in TAIL_LINES ensures Stored(l) == l {
      StoredPlain(l);
    }
  }

  lemma StoredFile(head: seq<Text>, pairs: Pairs)
    ensures Stored(FileText(head, pairs)) == FileText(StoredLines(head), StoredPairs(pairs))
  {
    var entries := EntryLines(pairs);
    StoredJoin(head + entries + TAIL_LINES);
    StoredEntryLines(pairs);
    StoredTail();
    assert StoredLines(head + entries + TAIL_LINES) ==
      StoredLines(head) + StoredLines(entries) + StoredLines(TAIL_LINES);
  }

  lemma StoredTrivia(line: Text)
    requires IsTrivia(line)
    ensures IsTrivia(Stored(line))
  {
    StoredUnits(line);
    StoredPlain(COMMENT);
    StoredPlain(IMPORT);
    if COMMENT <= line {
      StoredPrefix(COMMENT, line);
    } else if IMPORT <= line {
      StoredPrefix(IMPORT, line);
    }
  }

  lemma StoredPrefix(prefix: Text, line: Text)
    requires prefix <= line && prefix != [] && !IsHigh(prefix[|prefix| - 1]) && Stored(prefix) == prefix
    ensures prefix <= Stored(line)
  {
    assert line == prefix + line[|prefix|..];
    StoredAppend(prefix, line[|prefix|..]);
  }

  lemma StoredHead(head: seq<Text>)
    requires IsHead(head)
    ensures IsHead(StoredLines(head))
  {
    hide IsTrivia, Stored, Ascii;
    var n := |head| - 1;
    StoredPlain(DECLARATION);
    StoredPlain(TYPE_IMPORT);
    forall l | l in StoredLines(head)[..n] ensures IsTrivia(l) {
      var i :| 0 <= i < n && l == Stored(head[i]);
      assert head[i] in head[..n];
      StoredTrivia(head[i]);
    }
  }

  lemma JoinStarts(lines: seq<Text>)
    requires |lines| > 1
    ensures lines[0] + [LF] <= Join(lines, LF)
  {
  }

  /** A file with such a head reads as its pairs. */
  lemma ReadModuleOf(head: seq<Text>, pairs: Pairs)
    requires IsHead(head)
    ensures ReadModule(FileText(head, pairs)) == Some(pairs)
  {
    hide IsTrivia, ReadObject, ReadDeclaration, DropTrivia, EntryLines, Exports;
    var n := |head| - 1;
    var body := EntryLines(pairs) + TAIL_LINES;
    var lines := [DECLARATION] + body;
    JoinStarts(head + EntryLines(pairs) + TAIL_LINES);
    assert head == head[..n] + [DECLARATION];
    assert head + EntryLines(pairs) + TAIL_LINES == head[..n] + lines;
    TriviaLinesDropped(head[..n], lines);
    assert lines[1..] == body;
    assert Join(lines, LF) == DECLARATION + ([LF] + Join(body, LF));
    DeclarationIsNoTrivia([LF] + Join(body, LF));
    DeclarationReads([LF] + Join(body, LF));
    NewlineSkipped(Join(body, LF));
    ReadEntries(pairs);
    AfterObjectExports();
  }

  /** A written file reads back as its ordered pairs, with every key and value as stored. */
  lemma FileRoundTrip(head: seq<Text>, pairs: Pairs)
    requires IsHead(head)
    ensures ReadLocale(WriteText(FileText(head, pairs))) == Some(StoredPairs(pairs))
  {
    hide IsHead, ReadModule;
    WriteReadsStored(FileText(head, pairs));
    StoredFile(head, pairs);
    StoredHead(head);
    ReadModuleOf(StoredLines(head), StoredPairs(pairs));
  }

  lemma {:induction false} StoredPairsSameIff(pairs: Pairs)
    ensures StoredPairs(pairs) == pairs <==> forall p | p in pairs :: WellFormed(p.0) && WellFormed(p.1)
  {
    if pairs == [] {
    } else {
      StoredSameIff(pairs[0].0);
      StoredSameIff(pairs[0].1);
      StoredPairsSameIff(pairs[1..]);
      assert pairs == [pairs[0]] + pairs[1..];
      assert StoredPairs(pairs) == [StoredPairs(pairs)[0]] + StoredPairs(pairs[1..]);
    }
  }

  /** The pairs come back as they were exactly when no key or value holds a surrogate without its partner. */
  lemma LocaleRoundTrip(langLabel: Text, pairs: Pairs)
    requires OneLine(langLabel)
    ensures var read := ReadLocale(WriteText(FileText(HeadLines(langLabel), pairs)));
      && read == Some(StoredPairs(pairs))
      && (read == Some(pairs) <==> forall p | p in pairs :: WellFormed(p.0) && WellFormed(p.1))
  {
    HeadLinesAreHead(langLabel);
    FileRoundTrip(HeadLines(langLabel), pairs);
    StoredPairsSameIff(pairs);
  }

  // ------------------------------------------------------------------
  // Merging
  // ------------------------------------------------------------------

  /** New translation, else existing translation, else English. */
  function MergedValue(translations: Messages, existing: Messages, en: Messages, k: Text): Text
    requires k in en
  {
    if k in translations then translations[k]
    else if k in existing then existing[k]
    else en[k]
  }

  function Merged(translations: Messages, existing: Messages, en: Messages): Messages {
    map k | k in en :: MergedValue(translations, existing, en, k)
  }

  predicate Updates(translations: Messages, existing: Messages, k: Text) {
    k in translations && (k !in existing || existing[k] != translations[k])
  }

  function CountUpdates(translations: Messages, existing: Messages, keys: seq<Text>): nat {
    if keys == [] then 0
    else (if Updates(translations, existing, keys[0]) then 1 else 0) + CountUpdates(translations, existing, keys[1..])
  }

  /** `keys` lists the keys of `m` once each. */
  ghost predicate KeysOf(keys: seq<Text>, m: Messages) {
    (forall i, j | 0 <= i < j < |keys| :: keys[i] != keys[j]) && (forall k :: k in keys <==> k in m)
  }

  datatype Applied = Applied(updated: nat, total: nat, file: seq<Byte>)

  datatype ApplyError = RefusesEnglish

  /** `existing` is what the locale file held before, nothing when it did not load (`LoadOrEmpty`). */
  method ApplyLocale(locale: string, langLabel: Text, translations: Messages, existing: Messages,
                     enKeys: seq<Text>, en: Messages)
    returns (r: Result<Applied, ApplyError>)
    requires KeysOf(enKeys, en)
    ensures r.Err? <==> locale == "en"
    ensures r.Ok? ==> r.value == Applied(CountUpdates(translations, existing, enKeys), |enKeys|,
                                         Written(HeadLines(langLabel), enKeys, Merged(translations, existing, en)))
  {
    if locale == "en" {
      return Err(RefusesEnglish);
    }
    var updated, total, merged := MergeLoop(translations, existing, enKeys, en);
    MergedComplete(merged, translations, existing, en, enKeys);
    var file := WriteLocale(langLabel, enKeys, merged);
    return Ok(Applied(updated, total, file));
  }

  method MergeLoop(translations: Messages, existing: Messages, enKeys: seq<Text>, en: Messages)
    returns (updated: nat, total: nat, merged: Messages)
    requires forall k | k in enKeys :: k in en
    ensures updated == CountUpdates(translations, existing, enKeys) && total == |enKeys|
    ensures MergedSoFar(merged, translations, existing, en, enKeys)
  {
    updated, total, merged := 0, 0, map[];
    for i := 0 to |enKeys|
      invariant total == i
      invariant updated == CountUpdates(translations, existing, enKeys[..i])
      invariant MergedSoFar(merged, translations, existing, en, enKeys[..i])
    {
      var k := enKeys[i];
      assert k in enKeys && enKeys[..i + 1] == enKeys[..i] + [k];
      MergedStep(merged, translations, existing, en, enKeys[..i], k);
      CountStep(translations, existing, enKeys[..i], k);
      total := total + 1;
      if k in translations {
        var newVal := translations[k];
        if k !in existing || newVal != existing[k] {
          updated := updated + 1;
        }
        merged := merged[k := newVal];
      } else if k in existing {
        merged := merged[k := existing[k]];
      } else {
        merged := merged[k := en[k]];
      }
    }
    assert enKeys[..|enKeys|] == enKeys;
  }

  lemma {:induction false} CountStep(translations: Messages, existing: Messages, keys: seq<Text>, k: Text)
    ensures CountUpdates(translations, existing, keys + [k]) ==
      CountUpdates(translations, existing, keys) + if Updates(translations, existing, k) then 1 else 0
  {
    if keys == [] {
      assert keys + [k] == [k];
    } else {
      CountStep(translations, existing, keys[1..], k);
      assert (keys + [k])[1..] == keys[1..] + [k];
    }
  }

  lemma MergedStep(merged: Messages, translations: Messages, existing: Messages, en: Messages, keys: seq<Text>, k: Text)
    requires MergedSoFar(merged, translations, existing, en, keys) && k in en
    ensures MergedSoFar(merged[k := MergedValue(translations, existing, en, k)], translations, existing, en, keys + [k])
  {
  }

  ghost predicate MergedSoFar(
    merged: Messages, translations: Messages, existing: Messages, en: Messages, keys: seq<Text>)
  {
    && (forall k :: k in merged <==> k in keys)
    && forall k | k in merged :: k in en && merged[k] == MergedValue(translations, existing, en, k)
  }

  lemma MergedComplete(merged: Messages, translations: Messages, existing: Messages, en: Messages, keys: seq<Text>)
    requires KeysOf(keys, en) && MergedSoFar(merged, translations, existing, en, keys)
    ensures merged == Merged(translations, existing, en)
  {
  }

  function UpdatedKeys(translations: Messages, existing: Messages, keys: seq<Text>): set<Text> {
    set k | k in keys && Updates(translations, existing, k)
  }

  lemma UpdatedKeysCons(translations: Messages, existing: Messages, k: Text, rest: seq<Text>)
    ensures UpdatedKeys(translations, existing, [k] + rest) ==
      UpdatedKeys(translations, existing, rest) + if Updates(translations, existing, k) then {k} else {}
  {
  }

  /** The number reported is how many English keys the input gives a value they did not have. */
  lemma CountIsSize(translations: Messages, existing: Messages, keys: seq<Text>)
    requires forall i, j | 0 <= i < j < |keys| :: keys[i] != keys[j]
    ensures CountUpdates(translations, existing, keys) ==
      |set k | k in keys && k in translations && !(k in existing && existing[k] == translations[k])|
  {
    CountIsUpdated(translations, existing, keys);
    assert UpdatedKeys(translations, existing, keys) ==
      set k | k in keys && k in translations && !(k in existing && existing[k] == translations[k]);
  }

  lemma {:induction false} CountIsUpdated(translations: Messages, existing: Messages, keys: seq<Text>)
    requires forall i, j | 0 <= i < j < |keys| :: keys[i] != keys[j]
    ensures CountUpdates(translations, existing, keys) == |UpdatedKeys(translations, existing, keys)|
  {
    if keys == [] {
      assert UpdatedKeys(translations, existing, keys) == {};
    } else {
      CountIsUpdated(translations, existing, keys[1..]);
      UpdatedKeysCons(translations, existing, keys[0], keys[1..]);
      TakeDrop(keys, 1);
      assert keys[..1] == [keys[0]] && keys[0] !in UpdatedKeys(translations, existing, keys[1..]);
    }
  }
}
