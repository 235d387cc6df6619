// Running scripts/apply-i18n-translations.ts again: what a locale file holds once
// written and loaded, and what the next run makes of it.
module LocaleRuns {
  import opened Prelude
  import opened JsLiterals
  import opened StoredText
  import opened Locale

  // ------------------------------------------------------------------
  // Loading
  // ------------------------------------------------------------------

  /** Loading evaluates the object literal: later entries win. */
  function Load(pairs: Pairs): Messages {
    if pairs == [] then map[]
    else map[pairs[0].0 := pairs[0].1] + Load(pairs[1..])
  }

  /** What a run finds in the file: nothing when it does not load. */
  function LoadOrEmpty(file: seq<Byte>): Messages {
    match ReadLocale(file)
    case None => map[]
    case Some(pairs) => Load(pairs)
  }

  lemma {:induction false} LoadedFrom(pairs: Pairs)
    ensures forall p | p in pairs :: p.0 in Load(pairs)
    ensures forall k | k in Load(pairs) :: (k, Load(pairs)[k]) in pairs
  {
    if pairs == [] {
    } else {
      LoadedFrom(pairs[1..]);
      assert pairs == [pairs[0]] + pairs[1..];
    }
  }

  lemma {:induction false} InPairsOf(keys: seq<Text>, values: Messages, p: (Text, Text))
    ensures p in PairsOf(keys, values) <==> p.0 in keys && p.0 in values && p.1 == values[p.0]
  {
    if keys == [] {
    } else {
      InPairsOf(keys[1..], values, p);
      assert keys == [keys[0]] + keys[1..];
    }
  }

  /** `x` is how some key of `values` comes back, with the value that key had. */
  ghost predicate ComesFrom(loaded: Messages, values: Messages, x: Text) {
    x in loaded && exists k :: k in values && x == Stored(k) && loaded[x] == Stored(values[k])
  }

  /** `loaded` is what the file keeps of `values`: every key as stored, and nothing else. */
  ghost predicate HoldsStored(loaded: Messages, values: Messages) {
    && (forall k | k in values :: Stored(k) in loaded)
    && (forall x | x in loaded :: ComesFrom(loaded, values, x))
  }

  lemma StoredPairsHold(keys: seq<Text>, values: Messages)
    requires KeysOf(keys, values)
    ensures HoldsStored(Load(StoredPairs(PairsOf(keys, values))), values)
  {
    hide Stored, PairsOf, Load;
    var pairs := PairsOf(keys, values);
    var back := StoredPairs(pairs);
    LoadedFrom(back);
    forall k | k in values ensures Stored(k) in Load(back) {
      InPairsOf(keys, values, (k, values[k]));
      var i :| 0 <= i < |pairs| && pairs[i] == (k, values[k]);
      assert back[i] in back;
    }
    forall x | x in Load(back) ensures ComesFrom(Load(back), values, x) {
      var i :| 0 <= i < |back| && back[i] == (x, Load(back)[x]);
      InPairsOf(keys, values, pairs[i]);
      assert pairs[i] in pairs;
    }
  }

  lemma WrittenLoads(head: seq<Text>, keys: seq<Text>, values: Messages)
    requires IsHead(head) && KeysOf(keys, values)
    ensures ReadLocale(Written(head, keys, values)).Some?
    ensures HoldsStored(LoadOrEmpty(Written(head, keys, values)), values)
  {
    hide ReadLocale, StoredPairs, HoldsStored;
    FileRoundTrip(head, PairsOf(keys, values));
    StoredPairsHold(keys, values);
  }

  /** The last of `keys` that is stored as `x`. */
  function LastStoredAs(keys: seq<Text>, x: Text): Option<Text> {
    if keys == [] then None
    else
      match LastStoredAs(keys[1..], x)
      case Some(k) => Some(k)
      case None => if Stored(keys[0]) == x then Some(keys[0]) else None
  }

  lemma {:induction false} LastStoredAsIff(keys: seq<Text>, x: Text, k: Text)
    ensures LastStoredAs(keys, x) == Some(k) <==>
      Stored(k) == x && exists i :: 0 <= i < |keys| && keys[i] == k && forall j | i < j < |keys| :: Stored(keys[j]) != x
    ensures LastStoredAs(keys, x).None? <==> forall i | 0 <= i < |keys| :: Stored(keys[i]) != x
  {
    hide Stored;
    if keys == [] {
    } else {
      LastStoredAsIff(keys[1..], x, k);
      assert forall i | 0 < i < |keys| :: keys[i] == keys[1..][i - 1];
    }
  }

  /** What the file holds under `x`, if anything: the value of the last key stored so. */
  function HeldUnder(keys: seq<Text>, values: Messages, x: Text): Option<Text>
    requires forall k | k in keys :: k in values
  {
    match LastStoredAs(keys, x)
    case None => None
    case Some(k) => LastIsKey(keys, x); Some(Stored(values[k]))
  }

  lemma {:induction false} LastIsKey(keys: seq<Text>, x: Text)
    ensures LastStoredAs(keys, x).Some? ==>
      LastStoredAs(keys, x).value in keys && Stored(LastStoredAs(keys, x).value) == x
  {
    if keys == [] {
    } else {
      LastIsKey(keys[1..], x);
      assert keys == [keys[0]] + keys[1..];
    }
  }

  function Lookup(m: Messages, x: Text): Option<Text> {
    if x in m then Some(m[x]) else None
  }

  lemma {:induction false} LoadedLast(keys: seq<Text>, values: Messages, x: Text)
    requires forall k | k in keys :: k in values
    ensures Lookup(Load(StoredPairs(PairsOf(keys, values))), x) == HeldUnder(keys, values, x)
  {
    hide Stored;
    if keys == [] {
    } else {
      var k, rest := keys[0], keys[1..];
      assert keys == [k] + rest;
      LoadedLast(rest, values, x);
      StoredPairsCons((k, values[k]), PairsOf(rest, values));
    }
  }

  /** The written file, loaded, for any keys whatsoever. */
  lemma WrittenHolds(head: seq<Text>, keys: seq<Text>, values: Messages, x: Text)
    requires IsHead(head) && forall k | k in keys :: k in values
    ensures Lookup(LoadOrEmpty(Written(head, keys, values)), x) == HeldUnder(keys, values, x)
  {
    hide HeldUnder;
    FileRoundTrip(head, PairsOf(keys, values));
    LoadedLast(keys, values, x);
  }

  /** English keys that stay distinct in the file; well-formed keys always do. */
  ghost predicate KeysApart(m: Messages) {
    forall k, l | k in m && l in m && Stored(k) == Stored(l) :: k == l
  }

  lemma WellFormedKeysApart(m: Messages)
    requires forall k | k in m :: WellFormed(k)
    ensures KeysApart(m)
  {
    forall k | k in m ensures Stored(k) == k {
      StoredSameIff(k);
    }
  }

  /** When keys stay distinct, each that is well formed holds its own value, and no other key is there. */
  lemma HeldApart(keys: seq<Text>, values: Messages, k: Text)
    requires KeysOf(keys, values) && KeysApart(values) && k in values
    ensures HeldUnder(keys, values, k) == if WellFormed(k) then Some(Stored(values[k])) else None
  {
    StoredSameIff(k);
    LastIsKey(keys, k);
    LastStoredAsIff(keys, k, k);
    if LastStoredAs(keys, k).Some? {
      StoredIsWellFormed(LastStoredAs(keys, k).value);
    } else {
      var i :| 0 <= i < |keys| && keys[i] == k;
    }
  }

  lemma Origin(loaded: Messages, values: Messages, x: Text) returns (k: Text)
    requires HoldsStored(loaded, values) && x in loaded
    ensures k in values && x == Stored(k) && loaded[x] == Stored(values[k])
    ensures WellFormed(x) && WellFormed(loaded[x])
  {
    assert ComesFrom(loaded, values, x);
    k :| k in values && x == Stored(k) && loaded[x] == Stored(values[k]);
    StoredIsWellFormed(k);
    StoredIsWellFormed(values[k]);
  }

  /** The keys survive exactly when they are all well formed; one that is not is gone. */
  lemma KeysHeldSameIff(loaded: Messages, values: Messages)
    requires HoldsStored(loaded, values)
    ensures forall k | k in values && !WellFormed(k) :: k !in loaded
    ensures loaded.Keys == values.Keys <==> forall k | k in values :: WellFormed(k)
  {
    hide ComesFrom, WellFormed, Stored;
    forall x | x in loaded ensures WellFormed(x) {
      var k := Origin(loaded, values, x);
    }
    if forall k | k in values :: WellFormed(k) {
      forall k | k in values ensures k in loaded {
        StoredSameIff(k);
      }
      forall x | x in loaded ensures x in values {
        var k := Origin(loaded, values, x);
        StoredSameIff(k);
      }
    }
  }

  lemma HeldSameIff(loaded: Messages, values: Messages)
    requires HoldsStored(loaded, values)
    ensures loaded == values <==> forall k | k in values :: WellFormed(k) && WellFormed(values[k])
  {
    hide HoldsStored, WellFormed, Stored;
    KeysHeldSameIff(loaded, values);
    forall x | x in loaded ensures WellFormed(loaded[x]) {
      var k := Origin(loaded, values, x);
    }
    if forall k | k in values :: WellFormed(k) && WellFormed(values[k]) {
      forall x | x in loaded ensures loaded[x] == values[x] {
        var k := Origin(loaded, values, x);
        StoredSameIff(k);
        StoredSameIff(values[k]);
      }
    }
  }

  /**
   * The file an apply run writes loads as exactly the merged messages just when
   * every key and value in it is well formed.
   */
  lemma LoadsAsMergedIff(head: seq<Text>, enKeys: seq<Text>, en: Messages, translations: Messages, existing: Messages)
    requires IsHead(head) && KeysOf(enKeys, en)
    ensures var merged := Merged(translations, existing, en);
      && ReadLocale(Written(head, enKeys, merged)).Some?
      && (LoadOrEmpty(Written(head, enKeys, merged)) == merged <==>
            forall k | k in merged :: WellFormed(k) && WellFormed(merged[k]))
  {
    hide HoldsStored, WellFormed, Written, LoadOrEmpty, ReadLocale;
    var merged := Merged(translations, existing, en);
    WrittenLoads(head, enKeys, merged);
    HeldSameIff(LoadOrEmpty(Written(head, enKeys, merged)), merged);
  }

  // ------------------------------------------------------------------
  // Running again
  // ------------------------------------------------------------------

  /** The translated English keys under which the file does not hold the translation. */
  ghost function Unsettled(enKeys: seq<Text>, merged: Messages, translations: Messages): set<Text>
    requires forall k | k in enKeys :: k in merged
  {
    set k | k in enKeys && k in translations && HeldUnder(enKeys, merged, k) != Some(translations[k])
  }

  /** The translated English keys that cannot be held as given, or whose translation cannot. */
  ghost function Unstorable(translations: Messages, en: Messages): set<Text> {
    set k | k in en && k in translations && !(WellFormed(k) && WellFormed(translations[k]))
  }

  /**
   * Every run after the first counts exactly the translations that the file does
   * not hold under their keys. When English keys stay distinct, these are the
   * ones that it cannot hold, so the run is idle just when there are none.
   */
  lemma SecondRunCounts(head: seq<Text>, enKeys: seq<Text>, en: Messages, translations: Messages, existing: Messages)
    requires IsHead(head) && KeysOf(enKeys, en)
    ensures var merged := Merged(translations, existing, en);
      CountUpdates(translations, LoadOrEmpty(Written(head, enKeys, merged)), enKeys) ==
        |Unsettled(enKeys, merged, translations)|
    ensures KeysApart(en) ==>
      Unsettled(enKeys, Merged(translations, existing, en), translations) == Unstorable(translations, en)
  {
    hide HeldUnder, Written, LoadOrEmpty, WellFormed;
    var merged := Merged(translations, existing, en);
    var loaded := LoadOrEmpty(Written(head, enKeys, merged));
    forall k | k in enKeys ensures Updates(translations, loaded, k) <==> k in Unsettled(enKeys, merged, translations) {
      WrittenHolds(head, enKeys, merged, k);
    }
    CountIsUpdated(translations, loaded, enKeys);
    SetEq(UpdatedKeys(translations, loaded, enKeys), Unsettled(enKeys, merged, translations));
    if KeysApart(en) {
      UnsettledApart(enKeys, en, translations, existing);
    }
  }

  lemma UnsettledApart(enKeys: seq<Text>, en: Messages, translations: Messages, existing: Messages)
    requires KeysOf(enKeys, en) && KeysApart(en)
    ensures Unsettled(enKeys, Merged(translations, existing, en), translations) == Unstorable(translations, en)
  {
    hide HeldUnder, WellFormed;
    forall k | k in en && k in translations
      ensures HeldUnder(enKeys, Merged(translations, existing, en), k) == Some(translations[k]) <==>
        WellFormed(k) && WellFormed(translations[k])
    {
      HeldApart(enKeys, Merged(translations, existing, en), k);
      StoredSameIff(translations[k]);
    }
  }

  lemma NoneUnstorableIff(translations: Messages, en: Messages)
    ensures |Unstorable(translations, en)| == 0 <==>
      forall k | k in en && k in translations :: WellFormed(k) && WellFormed(translations[k])
  {
    hide WellFormed;
    forall k | k in en && k in translations
      ensures k in Unstorable(translations, en) <==> !(WellFormed(k) && WellFormed(translations[k]))
    {
    }
    if Unstorable(translations, en) != {} {
      var k :| k in Unstorable(translations, en);
      assert k in en && k in translations;
    }
  }

  /** One lone surrogate in a translation is rewritten, and counted, by every run from then on. */
  lemma LoneSurrogateNeverSettles(head: seq<Text>, existing: Messages)
    requires IsHead(head)
    ensures var key: Text := [0x6B];
      var en: Messages, translations: Messages := map[key := [0x78]], map[key := [0xD83D]];
      var loaded := LoadOrEmpty(Written(head, [key], Merged(translations, existing, en)));
      key in loaded && loaded[key] == [0xFFFD] && CountUpdates(translations, loaded, [key]) == 1
  {
    hide Written, LoadOrEmpty, ReadLocale, HoldsStored;
    var key: Text := [0x6B];
    var en: Messages, translations: Messages := map[key := [0x78]], map[key := [0xD83D]];
    var merged := Merged(translations, existing, en);
    StoredPlain(key);
    WrittenHolds(head, [key], merged, key);
    assert [0xD83D as Unit][1..] == [] && [key][1..] == [];
  }

  lemma {:induction false} SameStoredPairsIff(keys: seq<Text>, a: Messages, b: Messages)
    requires forall k | k in keys :: k in a && k in b
    ensures StoredPairs(PairsOf(keys, a)) == StoredPairs(PairsOf(keys, b)) <==>
      forall k | k in keys :: Stored(a[k]) == Stored(b[k])
  {
    if keys == [] {
    } else {
      var k, rest := keys[0], keys[1..];
      assert keys == [k] + rest;
      SameStoredPairsIff(rest, a, b);
      StoredPairsCons((k, a[k]), PairsOf(rest, a));
      StoredPairsCons((k, b[k]), PairsOf(rest, b));
    }
  }

  lemma StoredPairsCons(p: (Text, Text), rest: Pairs)
    ensures StoredPairs([p] + rest) == [(Stored(p.0), Stored(p.1))] + StoredPairs(rest)
    ensures StoredPairs([p] + rest)[1..] == StoredPairs(rest)
  {
  }

  /** Two runs write the same file exactly when every value is stored the same. */
  lemma SameWrittenIff(head: seq<Text>, keys: seq<Text>, a: Messages, b: Messages)
    requires IsHead(head) && forall k | k in keys :: k in a && k in b
    ensures Written(head, keys, a) == Written(head, keys, b) <==> forall k | k in keys :: Stored(a[k]) == Stored(b[k])
  {
    var pa, pb := PairsOf(keys, a), PairsOf(keys, b);
    FileRoundTrip(head, pa);
    FileRoundTrip(head, pb);
    SameStoredPairsIff(keys, a, b);
    StoredFile(head, pa);
    StoredFile(head, pb);
    SameFileIff(FileText(head, pa), FileText(head, pb));
  }

  /** What a run takes for an untranslated key from the file of the run before. */
  function Carried(enKeys: seq<Text>, en: Messages, merged: Messages, k: Text): Text
    requires k in en && forall l | l in enKeys :: l in merged
  {
    match HeldUnder(enKeys, merged, k)
    case None => en[k]
    case Some(v) => v
  }

  /**
   * A second run writes the same file exactly when what it carries over for the
   * untranslated keys is stored as before: the value of the last key stored so,
   * or English when the file has no such key. When English keys stay distinct,
   * that fails just for a key that the file cannot hold and that had a value of
   * its own before the first run.
   */
  lemma SecondRunWritesSameIff(head: seq<Text>, enKeys: seq<Text>, en: Messages,
                               translations: Messages, existing: Messages)
    requires IsHead(head) && KeysOf(enKeys, en)
    ensures var merged := Merged(translations, existing, en);
      var first := Written(head, enKeys, merged);
      Written(head, enKeys, Merged(translations, LoadOrEmpty(first), en)) == first <==>
        forall k | k in en && k !in translations :: Stored(Carried(enKeys, en, merged, k)) == Stored(merged[k])
  {
    hide HeldUnder, Written, LoadOrEmpty;
    var merged := Merged(translations, existing, en);
    var loaded := LoadOrEmpty(Written(head, enKeys, merged));
    var again := Merged(translations, loaded, en);
    SameWrittenIff(head, enKeys, again, merged);
    forall k | k in en ensures again[k] == if k in translations then merged[k] else Carried(enKeys, en, merged, k) {
      WrittenHolds(head, enKeys, merged, k);
    }
  }

  lemma CarriedApart(enKeys: seq<Text>, en: Messages, translations: Messages, existing: Messages, k: Text)
    requires KeysOf(enKeys, en) && KeysApart(en) && k in en && k !in translations
    ensures var merged := Merged(translations, existing, en);
      Stored(Carried(enKeys, en, merged, k)) == Stored(merged[k]) <==>
        (k in existing && !WellFormed(k) ==> Stored(existing[k]) == Stored(en[k]))
  {
    hide HeldUnder, WellFormed;
    var merged := Merged(translations, existing, en);
    HeldApart(enKeys, merged, k);
    StoredTwice(merged[k]);
  }

  /**
   * With well-formed English keys, a second run always writes the same file, and
   * reports no updates exactly when every translation used is well formed.
   */
  lemma SecondRunIsIdleIff(head: seq<Text>, enKeys: seq<Text>, en: Messages, translations: Messages, existing: Messages)
    requires IsHead(head) && KeysOf(enKeys, en) && forall k | k in en :: WellFormed(k)
    ensures var first := Written(head, enKeys, Merged(translations, existing, en));
      var loaded := LoadOrEmpty(first);
      && Written(head, enKeys, Merged(translations, loaded, en)) == first
      && (CountUpdates(translations, loaded, enKeys) == 0 <==>
            forall k | k in en && k in translations :: WellFormed(translations[k]))
  {
    hide WellFormed, KeysApart, Written, LoadOrEmpty, MergedValue, Unsettled, CountUpdates;
    WellFormedKeysApart(en);
    SecondRunCounts(head, enKeys, en, translations, existing);
    NoneUnstorableIff(translations, en);
    WellFormedWritesSame(head, enKeys, en, translations, existing);
  }

  lemma WellFormedWritesSame(head: seq<Text>, enKeys: seq<Text>, en: Messages,
                             translations: Messages, existing: Messages)
    requires IsHead(head) && KeysOf(enKeys, en) && forall k | k in en :: WellFormed(k)
    ensures var first := Written(head, enKeys, Merged(translations, existing, en));
      Written(head, enKeys, Merged(translations, LoadOrEmpty(first), en)) == first
  {
    hide WellFormed, KeysApart, Written, LoadOrEmpty, Carried;
    WellFormedKeysApart(en);
    SecondRunWritesSameIff(head, enKeys, en, translations, existing);
    forall k | k in en && k !in translations
      ensures Stored(Carried(enKeys, en, Merged(translations, existing, en), k)) ==
        Stored(Merged(translations, existing, en)[k])
    {
      CarriedApart(enKeys, en, translations, existing, k);
    }
  }
}
