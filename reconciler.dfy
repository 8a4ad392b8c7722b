/**
 The per-language body of the tool's main loop: find the extra keys, remove
 them if asked, add every missing base key as an untranslated copy, and
 rebuild the catalog in ascending key order for writing.
 */
module Reconciler {
  import opened Keys
  import opened Catalog

  /** What the tool reports about one language. */
  datatype Report = Report(
    extraKeys: seq<string>,
    extraCount: nat,
    addedCount: nat,
    keyCount: nat,
    verdict: Verdict)

  /** The language keys that are not base keys, in the order the codec lists them. */
  method FindExtraKeys(baseKeys: seq<string>, lang: Catalog) returns (extraKeys: seq<string>, extraStringCount: nat)
    ensures Distinct(extraKeys) && Elems(extraKeys) == lang.Keys - Elems(baseKeys)
    ensures extraStringCount == |extraKeys| == |lang.Keys - Elems(baseKeys)|
  {
    var langKeys := KeysOf(lang);
    extraKeys := [];
    extraStringCount := 0;
    for k := 0 to |langKeys|
      invariant Distinct(extraKeys)
      invariant Elems(extraKeys) == Elems(langKeys[..k]) - Elems(baseKeys)
      invariant extraStringCount == |extraKeys|
    {
      var langKey := langKeys[k];
      assert langKeys[..k + 1] == langKeys[..k] + [langKey];
      if langKey !in baseKeys {
        assert langKey !in Elems(langKeys[..k]);
        assert langKey !in Elems(extraKeys);
        assert Elems(extraKeys + [langKey]) == Elems(extraKeys) + {langKey};
        extraKeys := extraKeys + [langKey];
        extraStringCount := extraStringCount + 1;
      }
    }
    assert langKeys[..|langKeys|] == langKeys;
    DistinctCard(extraKeys);
  }

  /** Deletes the given keys when extras are to be removed; otherwise changes nothing. */
  method RemoveExtraKeys(lang: Catalog, extraKeys: seq<string>, removeExtra: bool) returns (langData: Catalog)
    ensures removeExtra ==> langData.Keys == lang.Keys - Elems(extraKeys)
    ensures removeExtra ==> forall k :: k in langData ==> langData[k] == lang[k]
    ensures !removeExtra ==> langData == lang
  {
    langData := lang;
    for i := 0 to |extraKeys|
      invariant langData == if removeExtra then lang - Elems(extraKeys[..i]) else lang
    {
      assert extraKeys[..i + 1] == extraKeys[..i] + [extraKeys[i]];
      if removeExtra {
        langData := langData - {extraKeys[i]};
      }
    }
    assert extraKeys[..|extraKeys|] == extraKeys;
  }

  lemma AddOneCard(s: set<string>, x: string)
    requires x !in s
    ensures |s + {x}| == |s| + 1
  {
  }

  /**
   Adds every base key whose lookup in the plain object `lang` gives null or
   undefined, in base-key order, as an untranslated copy. A base key named
   like a member of `Object.prototype` that `lang` lacks is found by the
   lookup and so is not added.
   */
  method AddMissingKeys(base: Catalog, baseKeys: seq<string>, lang: Catalog)
    returns (langData: Catalog, addedStringCount: nat)
    requires Distinct(baseKeys) && Elems(baseKeys) == base.Keys
    requires CanFill(base, lang, OBJECT_PROTOTYPE)
    ensures langData == Filled(base, lang, base.Keys, OBJECT_PROTOTYPE)
    ensures addedStringCount == |MissingKeys(base, lang, OBJECT_PROTOTYPE)|
  {
    langData := lang;
    addedStringCount := 0;
    ghost var done: set<string> := {};
    ghost var missing: set<string> := {};
    for j := 0 to |baseKeys|
      invariant done == Elems(baseKeys[..j]) && done <= base.Keys
      invariant langData == Filled(base, lang, done, OBJECT_PROTOTYPE)
      invariant missing == MissingAmong(lang, done, OBJECT_PROTOTYPE)
      invariant addedStringCount == |missing|
    {
      var key := baseKeys[j];
      assert done + {key} == Elems(baseKeys[..j + 1]) && key !in done && key in base by {
        PrefixStep(baseKeys, j);
      }
      FilledStep(base, lang, done, key, langData, OBJECT_PROTOTYPE);
      done := done + {key};
      var langValue := Lookup(langData, key, OBJECT_PROTOTYPE);
      if !Nullish(langValue) {
        continue;
      }
      AddOneCard(missing, key);
      missing := missing + {key};
      var baseValue := BaseText(base[key]);
      langData := langData[key := Record(baseValue, Undefined, Str(UNTRANSLATED))];
      addedStringCount := addedStringCount + 1;
    }
    PrefixAll(baseKeys);
  }

  /** The entries of `langData` copied in ascending key order: the file to write. */
  method SortedLines(langData: Catalog) returns (written: seq<Line>)
    ensures written == Canonical(langData)
  {
    var keys := KeysOf(langData);
    var sortedKeys := SortKeys(keys);
    written := [];
    for i := 0 to |sortedKeys|
      invariant written == Lines(langData, sortedKeys[..i])
    {
      LinesStep(langData, sortedKeys, i);
      written := written + [(sortedKeys[i], langData[sortedKeys[i]])];
    }
    assert sortedKeys[..|sortedKeys|] == sortedKeys;
  }

  /** Compares the final number of keys with the number of base keys. */
  method CountVerdict(count: nat, baseKeys: seq<string>) returns (verdict: Verdict)
    ensures verdict == VerdictOf(count, |baseKeys|)
    ensures verdict == Complete <==> count == |baseKeys|
    ensures verdict == Over <==> count > |baseKeys|
    ensures verdict == Under <==> count < |baseKeys|
  {
    if count == |baseKeys| {
      verdict := Complete;
    } else if count > |baseKeys| {
      verdict := Over;
    } else {
      verdict := Under;
    }
  }

  /** The extras step and the synthesis step for one language: the catalog
      the tool keeps, the extra keys and the two per-language counters. */
  method ReconcileCatalog(base: Catalog, baseKeys: seq<string>, lang: Catalog, removeExtra: bool)
    returns (langData: Catalog, extraKeys: seq<string>, extraStringCount: nat, addedStringCount: nat)
    requires Distinct(baseKeys) && Elems(baseKeys) == base.Keys
    requires CanFill(base, lang, OBJECT_PROTOTYPE)
    ensures langData == Reconciled(base, lang, removeExtra, OBJECT_PROTOTYPE)
    ensures Distinct(extraKeys) && Elems(extraKeys) == ExtraKeys(base, lang)
    ensures extraStringCount == |ExtraKeys(base, lang)|
    ensures addedStringCount == |MissingKeys(base, lang, OBJECT_PROTOTYPE)|
  {
    extraKeys, extraStringCount := FindExtraKeys(baseKeys, lang);
    var pruned := RemoveExtraKeys(lang, extraKeys, removeExtra);
    assert pruned == Pruned(base, lang, removeExtra);
    assert CanFill(base, pruned, OBJECT_PROTOTYPE)
        && MissingKeys(base, pruned, OBJECT_PROTOTYPE) == MissingKeys(base, lang, OBJECT_PROTOTYPE) by {
      PrunedKeepsBase(base, lang, removeExtra, OBJECT_PROTOTYPE);
    }
    langData, addedStringCount := AddMissingKeys(base, baseKeys, pruned);
  }

  /**
   Reconciles `lang` against `base`, whose keys are `baseKeys` (the tool passes
   them sorted). Returns the catalog kept in memory, the lines written to the
   file, and the report.
   */
  method ReconcileLanguage(base: Catalog, baseKeys: seq<string>, lang: Catalog, removeExtra: bool)
    returns (langData: Catalog, written: seq<Line>, report: Report)
    requires Distinct(baseKeys) && Elems(baseKeys) == base.Keys
    requires CanFill(base, lang, OBJECT_PROTOTYPE)
    ensures langData == Reconciled(base, lang, removeExtra, OBJECT_PROTOTYPE)
    ensures written == Canonical(langData)
    ensures Distinct(report.extraKeys) && Elems(report.extraKeys) == ExtraKeys(base, lang)
    ensures report.extraCount == |ExtraKeys(base, lang)|
    ensures report.addedCount == |MissingKeys(base, lang, OBJECT_PROTOTYPE)|
    ensures report.keyCount == |langData|
    ensures report.verdict == VerdictOf(|langData|, |base|)
  {
    var extraKeys, extraStringCount, addedStringCount;
    langData, extraKeys, extraStringCount, addedStringCount := ReconcileCatalog(base, baseKeys, lang, removeExtra);
    written := SortedLines(langData);
    var count := |langData.Keys|;
    var verdict := CountVerdict(count, baseKeys);
    assert |langData| == count && |base| == |base.Keys| == |baseKeys| by {
      DistinctCard(baseKeys);
    }
    report := Report(extraKeys, extraStringCount, addedStringCount, count, verdict);
  }
}
