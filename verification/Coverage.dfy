// The coverage gate of scripts/i18n-coverage.ts, and what it says about the files
// the locale writer leaves.
module Coverage {
  import opened Prelude
  import opened JsLiterals
  import opened StoredText
  import opened Locale
  import opened LocaleRuns

  // ------------------------------------------------------------------
  // The order of the reports
  // ------------------------------------------------------------------

  /** Comparison of strings by code units, as the default array sort uses it. */
  predicate Less(a: Text, b: Text) {
    b != [] && (a == [] || a[0] < b[0] || (a[0] == b[0] && Less(a[1..], b[1..])))
  }

  ghost predicate Ascending(s: seq<Text>) {
    forall i, j | 0 <= i < j < |s| :: Less(s[i], s[j])
  }

  /** Puts `x` in its place among keys already in order. */
  function Insert(s: seq<Text>, x: Text): seq<Text> {
    if s == [] then [x]
    else if Less(x, s[0]) then [x] + s
    else [s[0]] + Insert(s[1..], x)
  }

  function Sorted(s: seq<Text>): seq<Text> {
    if s == [] then [] else Insert(Sorted(s[1..]), s[0])
  }

  /** The first differing unit decides, or the shorter text if there is none. */
  ghost predicate DiffersAt(a: Text, b: Text, i: nat) {
    i <= |a| && i < |b| && a[..i] == b[..i] && (i == |a| || a[i] < b[i])
  }

  lemma SharedFirst(a: Text, b: Text)
    ensures forall i: nat | DiffersAt(a, b, i) && i > 0 :: a != [] && b != [] && a[0] == b[0]
  {
    forall i: nat | DiffersAt(a, b, i) && i > 0 ensures a != [] && b != [] && a[0] == b[0] {
      assert a[..i][0] == b[..i][0];
    }
  }

  lemma {:induction false} LessIff(a: Text, b: Text)
    ensures Less(a, b) <==> exists i: nat :: DiffersAt(a, b, i)
  {
    SharedFirst(a, b);
    if a == [] || b == [] || a[0] != b[0] {
      assert b != [] && (a == [] || a[0] < b[0]) ==> DiffersAt(a, b, 0);
      assert forall i: nat | DiffersAt(a, b, i) :: i == 0;
    } else {
      LessIff(a[1..], b[1..]);
      if i: nat :| DiffersAt(a[1..], b[1..], i) {
        assert a[..i + 1] == [a[0]] + a[1..][..i] && b[..i + 1] == [b[0]] + b[1..][..i];
        assert DiffersAt(a, b, i + 1);
      }
      if i: nat :| DiffersAt(a, b, i) {
        assert a[1..][..i - 1] == a[..i][1..] && b[1..][..i - 1] == b[..i][1..];
        assert DiffersAt(a[1..], b[1..], i - 1);
      }
    }
  }

  lemma {:induction false} LessTransitive(a: Text, b: Text, c: Text)
    requires Less(a, b) && Less(b, c)
    ensures Less(a, c)
  {
    if a == [] || !(a[0] == b[0] == c[0]) {
    } else {
      LessTransitive(a[1..], b[1..], c[1..]);
    }
  }

  lemma {:induction false} LessTotal(a: Text, b: Text)
    ensures Less(a, b) || Less(b, a) || a == b
    ensures !(Less(a, b) && Less(b, a)) && !Less(a, a)
  {
    if a == [] {
    } else {
      LessTotal(a[1..], a[1..]);
      if b != [] {
        LessTotal(a[1..], b[1..]);
        assert a == [a[0]] + a[1..] && b == [b[0]] + b[1..];
      }
    }
  }

  lemma {:induction false} InsertAscending(s: seq<Text>, x: Text)
    requires Ascending(s) && x !in s
    ensures Ascending(Insert(s, x)) && forall y :: y in Insert(s, x) <==> y == x || y in s
  {
    if s == [] {
    } else {
      assert s == [s[0]] + s[1..];
      LessTotal(x, s[0]);
      if Less(x, s[0]) {
        forall j | 0 <= j < |s| ensures Less(x, s[j]) {
          if j > 0 { LessTransitive(x, s[0], s[j]); }
        }
      } else {
        InsertAscending(s[1..], x);
        var rest := Insert(s[1..], x);
        forall j | 0 <= j < |rest| ensures Less(s[0], rest[j]) {
          assert rest[j] in rest;
        }
      }
    }
  }

  lemma {:induction false} SortedAscending(s: seq<Text>)
    requires forall i, j | 0 <= i < j < |s| :: s[i] != s[j]
    ensures Ascending(Sorted(s)) && forall y :: y in Sorted(s) <==> y in s
  {
    if s == [] {
    } else {
      SortedAscending(s[1..]);
      InsertAscending(Sorted(s[1..]), s[0]);
      assert s == [s[0]] + s[1..];
    }
  }

  /** `s` lists the keys in `keys`, in order, once each. */
  ghost predicate ListsInOrder(s: seq<Text>, keys: set<Text>) {
    Ascending(s) && forall k :: k in s <==> k in keys
  }

  /** The keys of `from` passing the test, gathered in table order and then sorted. */
  method DiffKeys(en: Messages, other: Messages) returns (missing: seq<Text>, extra: seq<Text>)
    ensures ListsInOrder(missing, en.Keys - other.Keys)
    ensures ListsInOrder(extra, other.Keys - en.Keys)
  {
    missing := KeysOutside(en, other.Keys);
    extra := KeysOutside(other, en.Keys);
  }

  method KeysOutside(m: Messages, known: set<Text>) returns (keys: seq<Text>)
    ensures ListsInOrder(keys, m.Keys - known)
  {
    keys := [];
    var todo := m.Keys;
    while todo != {}
      invariant todo <= m.Keys
      invariant forall k :: k in keys <==> k in m.Keys - todo - known
      invariant forall i, j | 0 <= i < j < |keys| :: keys[i] != keys[j]
      decreases todo
    {
      var k :| k in todo;
      assert k !in keys;
      todo := todo - {k};
      if k !in known {
        keys := keys + [k];
      }
    }
    SortedAscending(keys);
    keys := Sorted(keys);
  }

  predicate IsJsSpace(u: Unit) {
    || 0x09 <= u <= 0x0D || u == 0x20 || u == 0xA0 || u == 0x1680 || 0x2000 <= u <= 0x200A
    || u == LS || u == PS || u == 0x202F || u == 0x205F || u == 0x3000 || u == 0xFEFF
  }

  predicate Blank(t: Text) {
    Trim(t, IsJsSpace) == []
  }

  /** The units that trimming removes: white space and line terminators of ECMA-262, sections 12.2 and 12.3. */
  lemma JsSpaceIff(u: Unit)
    ensures IsJsSpace(u) <==> u in {
      0x09, 0x0A, 0x0B, 0x0C, 0x0D, 0x20, 0xA0, 0x1680, 0x2000, 0x2001, 0x2002, 0x2003, 0x2004, 0x2005, 0x2006,
      0x2007, 0x2008, 0x2009, 0x200A, 0x2028, 0x2029, 0x202F, 0x205F, 0x3000, 0xFEFF}
  {
  }

  lemma BlankIff(t: Text)
    ensures Blank(t) <==> forall u | u in t :: IsJsSpace(u)
  {
    hide IsJsSpace;
    var pre, post := TrimParts(t, IsJsSpace);
    if Blank(t) {
      assert t == pre + post;
    } else {
      assert t[|pre|] == Trim(t, IsJsSpace)[0] && t[|pre|] in t;
    }
  }

  function Untranslated(en: Messages, other: Messages): set<Text> {
    set k | k in other && k in en && other[k] == en[k] && !Blank(other[k])
  }

  method FindUntranslated(en: Messages, other: Messages) returns (keys: seq<Text>)
    ensures ListsInOrder(keys, Untranslated(en, other))
  {
    keys := [];
    var todo := other.Keys;
    while todo != {}
      invariant todo <= other.Keys
      invariant forall k :: k in keys <==> k !in todo && k in Untranslated(en, other)
      invariant forall i, j | 0 <= i < j < |keys| :: keys[i] != keys[j]
      decreases todo
    {
      var k :| k in todo;
      assert k !in keys;
      todo := todo - {k};
      if k !in en {
        continue;
      }
      if other[k] == en[k] && Trim(other[k], IsJsSpace) != [] {
        keys := keys + [k];
      }
    }
    SortedAscending(keys);
    keys := Sorted(keys);
  }

  /** Ordered lists of the same keys are the same list, so the reports are determined. */
  lemma {:induction false} OrderedListUnique(s: seq<Text>, t: seq<Text>, keys: set<Text>)
    requires ListsInOrder(s, keys) && ListsInOrder(t, keys)
    ensures s == t
  {
    EmptyListIff(s, keys);
    EmptyListIff(t, keys);
    if s == [] {
    } else {
      assert s[0] in s && t[0] in t;
      SameFirst(s, t, keys);
      assert s == [s[0]] + s[1..] && t == [t[0]] + t[1..];
      FirstIsNotInRest(s);
      FirstIsNotInRest(t);
      OrderedListUnique(s[1..], t[1..], keys - {s[0]});
    }
  }

  lemma EmptyListIff(s: seq<Text>, keys: set<Text>)
    requires ListsInOrder(s, keys)
    ensures s == [] <==> keys == {}
  {
    SetEq(keys, set k | k in s);
    assert s == [] || s[0] in keys;
  }

  lemma FirstIsNotInRest(s: seq<Text>)
    requires Ascending(s) && s != []
    ensures s[0] !in s[1..] && Ascending(s[1..])
  {
    forall j | 0 < j < |s| ensures s[j] != s[0] {
      LessTotal(s[0], s[j]);
    }
  }

  lemma SameFirst(s: seq<Text>, t: seq<Text>, keys: set<Text>)
    requires ListsInOrder(s, keys) && ListsInOrder(t, keys) && s != [] && t != []
    ensures s[0] == t[0]
  {
    assert s[0] in s && t[0] in t;
    FirstIsLeast(s, t[0], keys);
    FirstIsLeast(t, s[0], keys);
    LessTotal(s[0], t[0]);
  }

  lemma FirstIsLeast(s: seq<Text>, k: Text, keys: set<Text>)
    requires ListsInOrder(s, keys) && s != [] && k in keys
    ensures s[0] == k || Less(s[0], k)
  {
    var i :| 0 <= i < |s| && s[i] == k;
  }

  lemma GateVerdict(en: Messages, values: Messages, loaded: Messages, missing: seq<Text>, extra: seq<Text>)
    requires en.Keys == values.Keys && HoldsStored(loaded, values)
    requires ListsInOrder(missing, en.Keys - loaded.Keys) && ListsInOrder(extra, loaded.Keys - en.Keys)
    ensures missing == [] && extra == [] <==> forall k | k in en :: WellFormed(k)
    ensures forall k | k in en && !WellFormed(k) :: k in missing
  {
    hide HoldsStored, WellFormed;
    KeysHeldSameIff(loaded, values);
    EmptyListIff(missing, en.Keys - loaded.Keys);
    EmptyListIff(extra, loaded.Keys - en.Keys);
    assert forall k | k in values.Keys :: k in en;
  }

  /**
   * Whatever is merged into whatever was there, the written file passes the
   * gate, no key missing and none extra, exactly when every English key is well
   * formed; a key that is not is reported missing.
   */
  lemma MergePassesGateIff(head: seq<Text>, enKeys: seq<Text>, en: Messages, translations: Messages, existing: Messages,
                           missing: seq<Text>, extra: seq<Text>)
    requires IsHead(head) && KeysOf(enKeys, en)
    requires var loaded := LoadOrEmpty(Written(head, enKeys, Merged(translations, existing, en)));
      ListsInOrder(missing, en.Keys - loaded.Keys) && ListsInOrder(extra, loaded.Keys - en.Keys)
    ensures ReadLocale(Written(head, enKeys, Merged(translations, existing, en))).Some?
    ensures missing == [] && extra == [] <==> forall k | k in en :: WellFormed(k)
    ensures forall k | k in en && !WellFormed(k) :: k in missing
  {
    hide HoldsStored, WellFormed, Written, ReadLocale, LoadOrEmpty, ListsInOrder;
    var merged := Merged(translations, existing, en);
    WrittenLoads(head, enKeys, merged);
    GateVerdict(en, merged, LoadOrEmpty(Written(head, enKeys, merged)), missing, extra);
  }

  /**
   * In the written file, a key that fell back to English is reported exactly
   * when its English is not blank and the file holds it under the key. When
   * English keys stay distinct, that is when key and English are well formed.
   */
  lemma FallbackIsReportedIff(head: seq<Text>, enKeys: seq<Text>, en: Messages,
                              translations: Messages, existing: Messages, k: Text)
    requires IsHead(head) && KeysOf(enKeys, en)
    requires k in en && k !in translations && k !in existing
    ensures var merged := Merged(translations, existing, en);
      k in Untranslated(en, LoadOrEmpty(Written(head, enKeys, merged))) <==>
        HeldUnder(enKeys, merged, k) == Some(en[k]) && !Blank(en[k])
    ensures KeysApart(en) ==>
      (HeldUnder(enKeys, Merged(translations, existing, en), k) == Some(en[k]) <==> WellFormed(k) && WellFormed(en[k]))
  {
    hide HeldUnder, Written, LoadOrEmpty, Blank, WellFormed;
    var merged := Merged(translations, existing, en);
    WrittenHolds(head, enKeys, merged, k);
    if KeysApart(en) {
      HeldApart(enKeys, merged, k);
      StoredSameIff(en[k]);
    }
  }
}
