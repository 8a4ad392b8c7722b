/**
 One language's strings catalog as the strings-file codec hands it to the
 tool, and the specification of one reconciliation against the base catalog.

 A catalog maps each key to a JavaScript value. With comments requested the
 codec gives records with `text` and `comment` properties; the tool also
 accepts raw values and records that carry their string in `value`.
 */
module Catalog {
  import opened Keys

  /** The JavaScript values the reconciliation inspects. Of an object only the
      three properties the tool reads or writes are kept. */
  datatype Value =
    | Undefined
    | Null
    | Str(s: string)
    | Record(text: Value, value: Value, comment: Value)
    | Builtin  // a method or object that a plain object inherits from `Object.prototype`

  type Catalog = map<string, Value>

  /** An entry in the written file: a key and its value, in file order. */
  type Line = (string, Value)

  /** The comment that marks an entry copied from the base language. */
  const UNTRANSLATED: string := "UNTRANSLATED"

  /** JavaScript truthiness. */
  predicate Truthy(v: Value)
  {
    match v
    case Undefined => false
    case Null => false
    case Str(s) => s != ""
    case Record(_, _, _) => true
    case Builtin => true
  }

  /** `v == null` in JavaScript (loose equality): null or undefined. */
  predicate Nullish(v: Value)
  {
    v.Undefined? || v.Null?
  }

  /**
   The names a plain JavaScript object inherits from `Object.prototype`
   (ECMAScript 2022, section 20.1.3 and Annex B.2.2). Reading one of them from
   an object that does not hold it itself finds a function, or for
   `__proto__` the prototype object: never `null` or `undefined`.
   */
  const OBJECT_PROTOTYPE: set<string> := {
    "constructor", "hasOwnProperty", "isPrototypeOf", "propertyIsEnumerable",
    "toLocaleString", "toString", "valueOf", "__proto__",
    "__defineGetter__", "__defineSetter__", "__lookupGetter__", "__lookupSetter__"
  }

  /**
   `c[k]` in JavaScript, for an object holding the entries of `c` whose
   prototype chain provides the names in `proto`: the object's own entry,
   else an inherited member, else `undefined`. The tool's catalogs are plain
   objects (`proto` is `OBJECT_PROTOTYPE`); an own-property lookup (a key is
   missing when `!Object.hasOwn(c, k) || c[k] == null`) is the instance with
   `proto` empty.
   */
  function Lookup(c: Catalog, k: string, proto: set<string>): Value
  {
    if k in c then c[k] else if k in proto then Builtin else Undefined
  }

  /** `c[k] != null`: the lookup finds a usable entry. */
  predicate Present(c: Catalog, k: string, proto: set<string>)
  {
    !Nullish(Lookup(c, k, proto))
  }

  /** JavaScript `a || b`. */
  function Or(a: Value, b: Value): Value
  {
    if Truthy(a) then a else b
  }

  /**
   The base text of an entry: for an object, its `text`, else its `value`,
   else the object itself; any other value as it is. An entry that is `null`
   has type 'object' but no properties, so the tool cannot read it.
   */
  function BaseText(e: Value): Value
    requires !e.Null?
  {
    if e.Record? then Or(e.text, Or(e.value, e)) else e
  }

  /** The fallback chain always yields a value: for an object a truthy one,
      `text` when that is truthy, `value` before the object itself. */
  lemma BaseTextFallback(e: Value)
    requires !e.Null?
    ensures e.Record? ==> Truthy(BaseText(e))
    ensures e.Record? ==> BaseText(e) in [e.text, e.value, e]
    ensures e.Record? && Truthy(e.text) ==> BaseText(e) == e.text
    ensures e.Record? && !Truthy(e.text) && Truthy(e.value) ==> BaseText(e) == e.value
    ensures e.Record? && BaseText(e) != e.text && BaseText(e) != e.value ==> !Truthy(e.text) && !Truthy(e.value)
    ensures !e.Record? ==> BaseText(e) == e
  {
  }

  /** Keys the language has and the base lacks. */
  function ExtraKeys(base: Catalog, lang: Catalog): set<string>
  {
    lang.Keys - base.Keys
  }

  /** The extra keys that survive the extras step. */
  function KeptExtras(base: Catalog, lang: Catalog, removeExtra: bool): set<string>
  {
    if removeExtra then {} else ExtraKeys(base, lang)
  }

  /** The language catalog after the extras step. */
  function Pruned(base: Catalog, lang: Catalog, removeExtra: bool): Catalog
  {
    if removeExtra then lang - ExtraKeys(base, lang) else lang
  }

  /** Base keys among `ks` whose lookup in `c` gives null or undefined. */
  function MissingAmong(c: Catalog, ks: set<string>, proto: set<string>): set<string>
  {
    set k | k in ks && !Present(c, k, proto)
  }

  /** Base keys the language lacks, as the lookup sees it. */
  function MissingKeys(base: Catalog, c: Catalog, proto: set<string>): set<string>
  {
    MissingAmong(c, base.Keys, proto)
  }

  /** Base keys that `c` does not hold but whose lookup finds an inherited member. */
  function Shadowed(base: Catalog, c: Catalog, proto: set<string>): set<string>
  {
    set k | k in base && k !in c && k in proto
  }

  /** Every base entry the tool would have to read is readable: a `null` base
      entry is only tolerated where the lookup in the language finds a value. */
  predicate CanFill(base: Catalog, c: Catalog, proto: set<string>)
  {
    forall k :: k in base && base[k].Null? ==> Present(c, k, proto)
  }

  /** `c` with every key of `ks` whose lookup fails filled from the base. */
  function Filled(base: Catalog, c: Catalog, ks: set<string>, proto: set<string>): Catalog
    requires ks <= base.Keys && CanFill(base, c, proto)
  {
    map k | k in c.Keys + (ks - proto) ::
      if k in ks && !Present(c, k, proto) then Record(BaseText(base[k]), Undefined, Str(UNTRANSLATED)) else c[k]
  }

  /** Filling one more base key `k` into `filled`, the catalog filled so far:
      the key is present exactly when it was present in `c`, and otherwise
      adding its untranslated copy gives the catalog filled one key further. */
  lemma FilledStep(base: Catalog, c: Catalog, ks: set<string>, k: string, filled: Catalog, proto: set<string>)
    requires ks <= base.Keys && CanFill(base, c, proto)
    requires k in base && k !in ks
    requires filled == Filled(base, c, ks, proto)
    ensures Lookup(filled, k, proto) == Lookup(c, k, proto)
    ensures Present(c, k, proto) ==> filled == Filled(base, c, ks + {k}, proto)
    ensures Present(c, k, proto) ==> MissingAmong(c, ks + {k}, proto) == MissingAmong(c, ks, proto)
    ensures !Present(c, k, proto) ==> !base[k].Null?
    ensures !Present(c, k, proto) ==>
      filled[k := Record(BaseText(base[k]), Undefined, Str(UNTRANSLATED))] == Filled(base, c, ks + {k}, proto)
    ensures !Present(c, k, proto) ==>
      MissingAmong(c, ks + {k}, proto) == MissingAmong(c, ks, proto) + {k} && k !in MissingAmong(c, ks, proto)
  {
    var after := Filled(base, c, ks + {k}, proto);
    if Present(c, k, proto) {
      assert after.Keys == filled.Keys;
    } else {
      assert after.Keys == filled.Keys + {k};
    }
  }

  /** The extras step does not touch the base keys. */
  lemma PrunedKeepsBase(base: Catalog, lang: Catalog, removeExtra: bool, proto: set<string>)
    ensures forall k :: k in base ==> (k in Pruned(base, lang, removeExtra) <==> k in lang)
    ensures forall k :: k in base && k in lang ==> Pruned(base, lang, removeExtra)[k] == lang[k]
    ensures MissingKeys(base, Pruned(base, lang, removeExtra), proto) == MissingKeys(base, lang, proto)
    ensures Shadowed(base, Pruned(base, lang, removeExtra), proto) == Shadowed(base, lang, proto)
    ensures CanFill(base, lang, proto) ==> CanFill(base, Pruned(base, lang, removeExtra), proto)
  {
  }

  /** The catalog the tool keeps for one language. */
  function Reconciled(base: Catalog, lang: Catalog, removeExtra: bool, proto: set<string>): Catalog
    requires CanFill(base, lang, proto)
  {
    Filled(base, Pruned(base, lang, removeExtra), base.Keys, proto)
  }

  /** The lines of `c` taken in the order of `ks`. */
  function Lines(c: Catalog, ks: seq<string>): (r: seq<Line>)
    requires forall k :: k in ks ==> k in c
    ensures |r| == |ks|
    ensures forall i :: 0 <= i < |ks| ==> r[i] == (ks[i], c[ks[i]])
  {
    seq(|ks|, i requires 0 <= i < |ks| => (ks[i], c[ks[i]]))
  }

  /** Taking one more key appends its line. */
  lemma LinesStep(c: Catalog, ks: seq<string>, i: nat)
    requires i < |ks| && forall k :: k in ks ==> k in c
    ensures Lines(c, ks[..i + 1]) == Lines(c, ks[..i]) + [(ks[i], c[ks[i]])]
  {
  }

  /** The file the tool writes for `c`: every entry, keys ascending. */
  ghost function Canonical(c: Catalog): seq<Line>
  {
    Lines(c, SortedKeys(c.Keys))
  }

  /** Reading a file back: one entry per line, a later line for the same key wins. */
  function ToCatalog(ls: seq<Line>): (c: Catalog)
    ensures c.Keys == set i | 0 <= i < |ls| :: ls[i].0
  {
    if ls == [] then map[]
    else
      var init := ToCatalog(ls[..|ls| - 1]);
      var last := ls[|ls| - 1];
      assert (set i | 0 <= i < |ls| :: ls[i].0) == init.Keys + {last.0} by {
        forall i | 0 <= i < |ls| - 1
          ensures ls[..|ls| - 1][i].0 == ls[i].0
        {
        }
      }
      init[last.0 := last.1]
  }

  /** Completeness verdict printed after a language is written. */
  datatype Verdict = Complete | Over | Under

  function VerdictOf(count: nat, baseCount: nat): Verdict
  {
    if count == baseCount then Complete
    else if count > baseCount then Over
    else Under
  }

  // ---------------------------------------------------------------------------
  // Properties of one reconciliation

  /** The final key set: the base keys other than the shadowed ones, plus the
      language's own keys unless extras are removed. All base keys are there
      exactly when none is shadowed. */
  lemma ReconciledKeys(base: Catalog, lang: Catalog, removeExtra: bool, proto: set<string>)
    requires CanFill(base, lang, proto)
    ensures Reconciled(base, lang, removeExtra, proto).Keys
         == (base.Keys - Shadowed(base, lang, proto)) + KeptExtras(base, lang, removeExtra)
    ensures base.Keys <= Reconciled(base, lang, removeExtra, proto).Keys <==> Shadowed(base, lang, proto) == {}
    ensures removeExtra ==> Reconciled(base, lang, removeExtra, proto).Keys == base.Keys - Shadowed(base, lang, proto)
    ensures !removeExtra ==>
      Reconciled(base, lang, removeExtra, proto).Keys == (base.Keys - Shadowed(base, lang, proto)) + lang.Keys
    ensures forall k :: k in ExtraKeys(base, lang) ==> (k in Reconciled(base, lang, removeExtra, proto) <==> !removeExtra)
  {
    PrunedKeepsBase(base, lang, removeExtra, proto);
  }

  /** A key whose lookup already finds a usable own entry keeps that entry,
      unless it is an extra key being removed. */
  lemma ReconciledKeepsExisting(base: Catalog, lang: Catalog, removeExtra: bool, proto: set<string>, k: string)
    requires CanFill(base, lang, proto)
    requires k in lang && Present(lang, k, proto) && (k in base || !removeExtra)
    ensures k in Reconciled(base, lang, removeExtra, proto)
    ensures Reconciled(base, lang, removeExtra, proto)[k] == lang[k]
  {
  }

  /** Extra keys that are kept keep their entries, even null or undefined ones. */
  lemma ReconciledKeepsExtras(base: Catalog, lang: Catalog, proto: set<string>, k: string)
    requires CanFill(base, lang, proto)
    requires k in ExtraKeys(base, lang)
    ensures k in Reconciled(base, lang, false, proto) && Reconciled(base, lang, false, proto)[k] == lang[k]
  {
  }

  /** Each missing base key gets exactly the base text with the UNTRANSLATED comment. */
  lemma ReconciledFillsMissing(base: Catalog, lang: Catalog, removeExtra: bool, proto: set<string>, k: string)
    requires CanFill(base, lang, proto)
    requires k in MissingKeys(base, lang, proto)
    ensures k in Reconciled(base, lang, removeExtra, proto)
    ensures Reconciled(base, lang, removeExtra, proto)[k] == Record(BaseText(base[k]), Undefined, Str(UNTRANSLATED))
  {
    PrunedKeepsBase(base, lang, removeExtra, proto);
  }

  /** A shadowed base key is neither filled nor counted: the lookup finds the inherited member. */
  lemma ReconciledSkipsShadowed(base: Catalog, lang: Catalog, removeExtra: bool, proto: set<string>, k: string)
    requires CanFill(base, lang, proto)
    requires k in Shadowed(base, lang, proto)
    ensures k !in Reconciled(base, lang, removeExtra, proto)
    ensures k !in MissingKeys(base, lang, proto)
  {
  }

  /** After synthesis the lookup finds a usable entry for every base key. */
  lemma ReconciledComplete(base: Catalog, lang: Catalog, removeExtra: bool, proto: set<string>)
    requires CanFill(base, lang, proto)
    ensures MissingKeys(base, Reconciled(base, lang, removeExtra, proto), proto) == {}
    ensures CanFill(base, Reconciled(base, lang, removeExtra, proto), proto)
    ensures Shadowed(base, Reconciled(base, lang, removeExtra, proto), proto) == Shadowed(base, lang, proto)
  {
    var out := Reconciled(base, lang, removeExtra, proto);
    PrunedKeepsBase(base, lang, removeExtra, proto);
    forall k | k in base
      ensures Present(out, k, proto)
    {
      if k in MissingKeys(base, lang, proto) {
        ReconciledFillsMissing(base, lang, removeExtra, proto, k);
      }
    }
  }

  /** A catalog whose keys are `own` plus keys outside it has `|kept|` more entries than `own` has keys. */
  lemma SizeOfExtension(out: Catalog, own: set<string>, kept: set<string>)
    requires out.Keys == own + kept && own !! kept
    ensures |out| == |own| + |kept|
  {
    assert |out| == |out.Keys|;
  }

  /** Taking a subset away removes as many elements as the subset has. */
  lemma SizeOfDifference(s: set<string>, t: set<string>)
    requires t <= s
    ensures |s - t| == |s| - |t|
  {
    assert s == (s - t) + t;
  }

  /** The final size: the base size less the shadowed keys, plus the extras when they are kept. */
  lemma ReconciledSize(base: Catalog, lang: Catalog, removeExtra: bool, proto: set<string>)
    requires CanFill(base, lang, proto)
    ensures |Reconciled(base, lang, removeExtra, proto)|
         == |base| - |Shadowed(base, lang, proto)| + |KeptExtras(base, lang, removeExtra)|
  {
    var sh := Shadowed(base, lang, proto);
    ReconciledKeys(base, lang, removeExtra, proto);
    SizeOfExtension(Reconciled(base, lang, removeExtra, proto), base.Keys - sh, KeptExtras(base, lang, removeExtra));
    SizeOfDifference(base.Keys, sh);
    assert |base| == |base.Keys|;
  }

  /** The verdict weighs the shadowed base keys against the kept extras. */
  lemma VerdictAfterReconcile(base: Catalog, lang: Catalog, removeExtra: bool, proto: set<string>)
    requires CanFill(base, lang, proto)
    ensures VerdictOf(|Reconciled(base, lang, removeExtra, proto)|, |base|) == Under
        <==> |Shadowed(base, lang, proto)| > |KeptExtras(base, lang, removeExtra)|
    ensures VerdictOf(|Reconciled(base, lang, removeExtra, proto)|, |base|) == Over
        <==> |KeptExtras(base, lang, removeExtra)| > |Shadowed(base, lang, proto)|
    ensures VerdictOf(|Reconciled(base, lang, removeExtra, proto)|, |base|) == Complete
        <==> |KeptExtras(base, lang, removeExtra)| == |Shadowed(base, lang, proto)|
  {
    ReconciledSize(base, lang, removeExtra, proto);
    assert Shadowed(base, lang, proto) <= base.Keys && |base| == |base.Keys|;
  }

  /** When no base key is shadowed (in particular when no base key is named
      like an inherited member), the "missing" warning cannot be reached and
      the "over" warning is printed exactly when extras are kept and exist. */
  lemma VerdictWithoutShadowing(base: Catalog, lang: Catalog, removeExtra: bool, proto: set<string>)
    requires CanFill(base, lang, proto) && base.Keys !! proto
    ensures Shadowed(base, lang, proto) == {}
    ensures base.Keys <= Reconciled(base, lang, removeExtra, proto).Keys
    ensures VerdictOf(|Reconciled(base, lang, removeExtra, proto)|, |base|) != Under
    ensures VerdictOf(|Reconciled(base, lang, removeExtra, proto)|, |base|) == Over
        <==> !removeExtra && ExtraKeys(base, lang) != {}
    ensures VerdictOf(|Reconciled(base, lang, removeExtra, proto)|, |base|) == Complete
        <==> removeExtra || ExtraKeys(base, lang) == {}
  {
    assert Shadowed(base, lang, proto) == {};
    ReconciledKeys(base, lang, removeExtra, proto);
    VerdictAfterReconcile(base, lang, removeExtra, proto);
  }

  /** A base key named `toString` that the language lacks: the lookup finds
      the inherited method, so nothing is added and the language ends one
      string short, with the "missing" verdict. */
  lemma InheritedNameLeftMissing()
    ensures Shadowed(map["toString" := Str("x")], map[], OBJECT_PROTOTYPE) == {"toString"}
    ensures MissingKeys(map["toString" := Str("x")], map[], OBJECT_PROTOTYPE) == {}
    ensures Reconciled(map["toString" := Str("x")], map[], true, OBJECT_PROTOTYPE) == map[]
    ensures VerdictOf(|Reconciled(map["toString" := Str("x")], map[], true, OBJECT_PROTOTYPE)|, 1) == Under
  {
    var base: Catalog := map["toString" := Str("x")];
    var empty: Catalog := map[];
    assert "toString" in OBJECT_PROTOTYPE;
    assert Shadowed(base, empty, OBJECT_PROTOTYPE) == {"toString"};
    assert Reconciled(base, empty, true, OBJECT_PROTOTYPE).Keys == {};
  }

  /** With an own-property lookup the same language gets the untranslated
      copy and is complete. */
  lemma OwnLookupFillsInheritedName()
    ensures Reconciled(map["toString" := Str("x")], map[], true, {})
         == map["toString" := Record(Str("x"), Undefined, Str(UNTRANSLATED))]
    ensures VerdictOf(|Reconciled(map["toString" := Str("x")], map[], true, {})|, 1) == Complete
  {
    var base: Catalog := map["toString" := Str("x")];
    var empty: Catalog := map[];
    assert Reconciled(base, empty, true, {}).Keys == {"toString"};
  }

  /** With an own-property lookup no base key is shadowed, so the tool's
      evident intent holds: every base key is present afterwards, the
      "missing" warning cannot be reached, and the language is complete
      unless extras are kept. */
  lemma OwnLookupComplete(base: Catalog, lang: Catalog, removeExtra: bool)
    requires CanFill(base, lang, {})
    ensures base.Keys <= Reconciled(base, lang, removeExtra, {}).Keys
    ensures |Reconciled(base, lang, removeExtra, {})| == |base| + |KeptExtras(base, lang, removeExtra)|
    ensures VerdictOf(|Reconciled(base, lang, removeExtra, {})|, |base|) != Under
    ensures VerdictOf(|Reconciled(base, lang, removeExtra, {})|, |base|) == Complete
        <==> removeExtra || ExtraKeys(base, lang) == {}
  {
    VerdictWithoutShadowing(base, lang, removeExtra, {});
    ReconciledSize(base, lang, removeExtra, {});
  }

  /** Reconciling the result again adds nothing, finds the same extras (none
      when they were removed) and leaves the catalog as it is. */
  lemma ReconcileIdempotent(base: Catalog, lang: Catalog, removeExtra: bool, proto: set<string>)
    requires CanFill(base, lang, proto)
    ensures CanFill(base, Reconciled(base, lang, removeExtra, proto), proto)
    ensures MissingKeys(base, Reconciled(base, lang, removeExtra, proto), proto) == {}
    ensures ExtraKeys(base, Reconciled(base, lang, removeExtra, proto)) == KeptExtras(base, lang, removeExtra)
    ensures Reconciled(base, Reconciled(base, lang, removeExtra, proto), removeExtra, proto)
         == Reconciled(base, lang, removeExtra, proto)
  {
    var out := Reconciled(base, lang, removeExtra, proto);
    ReconciledComplete(base, lang, removeExtra, proto);
    ReconciledKeys(base, lang, removeExtra, proto);
    var again := Reconciled(base, out, removeExtra, proto);
    ReconciledKeys(base, out, removeExtra, proto);
    assert ExtraKeys(base, out) == KeptExtras(base, lang, removeExtra);
    forall k | k in again
      ensures k in out && again[k] == out[k]
    {
      if k in base {
        ReconciledKeepsExisting(base, out, removeExtra, proto, k);
      }
    }
  }

  // ---------------------------------------------------------------------------
  // Properties of the written file

  /** The written file lists every entry of the catalog once, keys strictly ascending. */
  lemma CanonicalSorted(c: Catalog)
    ensures StrictlySorted(seq(|Canonical(c)|, i requires 0 <= i < |Canonical(c)| => Canonical(c)[i].0))
    ensures |Canonical(c)| == |c|
    ensures forall i :: 0 <= i < |Canonical(c)| ==> Canonical(c)[i].0 in c && Canonical(c)[i].1 == c[Canonical(c)[i].0]
    ensures forall k :: k in c ==> exists i :: 0 <= i < |Canonical(c)| && Canonical(c)[i].0 == k
  {
    var ks := SortedKeys(c.Keys);
    var ls := Canonical(c);
    assert seq(|ls|, i requires 0 <= i < |ls| => ls[i].0) == ks;
    SortedIsDistinct(ks);
    DistinctCard(ks);
    assert |c| == |c.Keys|;
    forall k | k in c
      ensures exists i :: 0 <= i < |ls| && ls[i].0 == k
    {
      assert k in Elems(ks);
      var i :| 0 <= i < |ks| && ks[i] == k;
      assert ls[i].0 == k;
    }
  }

  /** Reading back lines with distinct keys gives each key its line's value. */
  lemma {:induction false} ToCatalogLines(c: Catalog, ks: seq<string>)
    requires Distinct(ks) && forall k :: k in ks ==> k in c
    ensures ToCatalog(Lines(c, ks)) == map k | k in Elems(ks) :: c[k]
  {
    if ks != [] {
      var n := |ks| - 1;
      assert Lines(c, ks)[..n] == Lines(c, ks[..n]);
      ToCatalogLines(c, ks[..n]);
      assert Elems(ks) == Elems(ks[..n]) + {ks[n]} by {
        assert ks == ks[..n] + [ks[n]];
      }
    }
  }

  /** Reading the written file back gives the catalog that was written. */
  lemma ToCatalogCanonical(c: Catalog)
    ensures ToCatalog(Canonical(c)) == c
  {
    var ks := SortedKeys(c.Keys);
    SortedIsDistinct(ks);
    ToCatalogLines(c, ks);
  }
}
