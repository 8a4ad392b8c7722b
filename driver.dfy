/**
 The tool's main loop over the project directory: which folders count as
 languages, the language code taken from a folder name, one reconciliation
 per language whose strings file can be read, and the two counters reported
 at the end.
 */
module Driver {
  import opened Keys
  import opened Catalog
  import opened Reconciler

  /** What reading a language's strings file gives: its catalog, or a failure. */
  datatype LoadResult = Loaded(catalog: Catalog) | Unreadable

  /** An entry of the project directory, with what reading its strings file would give. */
  datatype Folder = Folder(name: string, strings: LoadResult)

  /** A file written by the run: the folder it is written into, the language
      code the tool reports for it, and the lines of its strings file. */
  datatype Output = Output(folder: string, language: string, lines: seq<Line>)

  /** The localization bundle suffix of a language folder. */
  const BUNDLE_SUFFIX: string := ".lproj"

  predicate EndsWith(s: string, suffix: string)
  {
    |suffix| <= |s| && s[|s| - |suffix|..] == suffix
  }

  /** A bundle folder other than the two that may hold the base language. */
  predicate IsLanguageFolder(name: string)
  {
    EndsWith(name, BUNDLE_SUFFIX) && name != "Base.lproj" && name != "en.lproj"
  }

  predicate OccursAt(s: string, pat: string, i: int)
  {
    0 <= i && i + |pat| <= |s| && s[i..i + |pat|] == pat
  }

  /** `s.replace(pat, "")` with a string pattern: only the first occurrence goes. */
  function RemoveFirst(s: string, pat: string): string
    decreases |s|
  {
    if |pat| == 0 || |s| < |pat| then s
    else if s[..|pat|] == pat then s[|pat|..]
    else [s[0]] + RemoveFirst(s[1..], pat)
  }

  /** The language code of a folder: its name with the bundle suffix replaced by nothing. */
  function LanguageCode(folderName: string): string
  {
    RemoveFirst(folderName, BUNDLE_SUFFIX)
  }

  /** An occurrence in the tail of `s` is an occurrence in `s`, one position further on. */
  lemma OccursInTail(s: string, pat: string, j: nat)
    requires |s| > 0
    ensures OccursAt(s[1..], pat, j) <==> OccursAt(s, pat, j + 1)
  {
    if j + 1 + |pat| <= |s| {
      assert s[1..][j..j + |pat|] == s[j + 1..j + 1 + |pat|];
    }
  }

  /** The first occurrence of the pattern is the one removed. */
  lemma {:induction false} RemoveFirstAt(s: string, pat: string, i: nat)
    requires |pat| > 0 && OccursAt(s, pat, i)
    requires forall j :: 0 <= j < i ==> !OccursAt(s, pat, j)
    ensures RemoveFirst(s, pat) == s[..i] + s[i + |pat|..]
    decreases i
  {
    if i > 0 {
      assert !OccursAt(s, pat, 0);
      forall j | 0 <= j < i - 1
        ensures !OccursAt(s[1..], pat, j)
      {
        OccursInTail(s, pat, j);
      }
      OccursInTail(s, pat, i - 1);
      RemoveFirstAt(s[1..], pat, i - 1);
      assert s[..i] == [s[0]] + s[1..][..i - 1];
      assert s[i + |pat|..] == s[1..][i - 1 + |pat|..];
    }
  }

  /** Without an occurrence of the pattern, nothing changes. */
  lemma {:induction false} RemoveFirstAbsent(s: string, pat: string)
    requires forall j :: 0 <= j ==> !OccursAt(s, pat, j)
    ensures RemoveFirst(s, pat) == s
    decreases |s|
  {
    if |pat| > 0 && |s| >= |pat| {
      assert !OccursAt(s, pat, 0);
      forall j | 0 <= j
        ensures !OccursAt(s[1..], pat, j)
      {
        OccursInTail(s, pat, j);
      }
      RemoveFirstAbsent(s[1..], pat);
      assert s == [s[0]] + s[1..];
    }
  }

  /** For a folder whose name holds the suffix only at its end, the code is the name without it. */
  lemma LanguageCodeOfFolder(name: string)
    requires IsLanguageFolder(name)
    requires forall j :: 0 <= j < |name| - |BUNDLE_SUFFIX| ==> !OccursAt(name, BUNDLE_SUFFIX, j)
    ensures LanguageCode(name) == name[..|name| - |BUNDLE_SUFFIX|]
    ensures LanguageCode(name) + BUNDLE_SUFFIX == name
  {
    var i := |name| - |BUNDLE_SUFFIX|;
    assert OccursAt(name, BUNDLE_SUFFIX, i);
    RemoveFirstAt(name, BUNDLE_SUFFIX, i);
    assert name[i + |BUNDLE_SUFFIX|..] == [];
    assert name == name[..i] + name[i..];
  }

  /** Only the first occurrence goes: a folder whose name carries the suffix
      twice over (`fr.lproj.lproj`) keeps one of them in its code (`fr.lproj`). */
  lemma LanguageCodeFirstOccurrence(code: string)
    requires forall j :: 0 <= j < |code| ==> !OccursAt(code + BUNDLE_SUFFIX + BUNDLE_SUFFIX, BUNDLE_SUFFIX, j)
    ensures LanguageCode(code + BUNDLE_SUFFIX + BUNDLE_SUFFIX) == code + BUNDLE_SUFFIX
  {
    var name := code + BUNDLE_SUFFIX + BUNDLE_SUFFIX;
    var i := |code|;
    assert name[i..i + |BUNDLE_SUFFIX|] == BUNDLE_SUFFIX;
    RemoveFirstAt(name, BUNDLE_SUFFIX, i);
    assert name[..i] == code && name[i + |BUNDLE_SUFFIX|..] == BUNDLE_SUFFIX;
  }

  /** The tool reconciles a folder when it is a language folder and its strings file can be read. */
  predicate Processes(f: Folder)
  {
    IsLanguageFolder(f.name) && f.strings.Loaded?
  }

  /** The folders the tool reconciles, in directory order. */
  function Processed(dirs: seq<Folder>): seq<Folder>
  {
    if dirs == [] then []
    else Processed(dirs[..|dirs| - 1]) + (if Processes(dirs[|dirs| - 1]) then [dirs[|dirs| - 1]] else [])
  }

  /** Exactly the language folders whose file was read are processed. */
  lemma {:induction false} ProcessedMembers(dirs: seq<Folder>)
    ensures |Processed(dirs)| <= |dirs|
    ensures forall f :: f in Processed(dirs) <==> f in dirs && Processes(f)
  {
    if dirs != [] {
      var init := dirs[..|dirs| - 1];
      ProcessedMembers(init);
      assert dirs == init + [dirs[|dirs| - 1]];
    }
  }

  /** No two directory entries share a name, as in a directory listing. */
  predicate DistinctNames(fs: seq<Folder>)
  {
    forall i, j :: 0 <= i < j < |fs| ==> fs[i].name != fs[j].name
  }

  /** No folder is processed twice over. */
  lemma {:induction false} ProcessedDistinct(dirs: seq<Folder>)
    requires DistinctNames(dirs)
    ensures DistinctNames(Processed(dirs))
  {
    if dirs != [] {
      var n := |dirs| - 1;
      var init := dirs[..n];
      var last := dirs[n];
      assert DistinctNames(init);
      ProcessedDistinct(init);
      var p := Processed(init);
      if Processes(last) {
        ProcessedMembers(init);
        forall i | 0 <= i < |p|
          ensures p[i].name != last.name
        {
          assert p[i] in init;
          var j :| 0 <= j < n && init[j] == p[i];
        }
        assert Processed(dirs) == p + [last];
      }
    }
  }

  /** Every catalog the tool reconciles can be filled from the base (see `CanFill`). */
  predicate Readable(base: Catalog, dirs: seq<Folder>)
  {
    forall f :: f in dirs && Processes(f) ==> CanFill(base, f.strings.catalog, OBJECT_PROTOTYPE)
  }

  /** Keys added for one folder: its missing base keys, when its file was read. */
  function AddedFor(base: Catalog, f: Folder): nat
  {
    if f.strings.Loaded? then |MissingKeys(base, f.strings.catalog, OBJECT_PROTOTYPE)| else 0
  }

  /** The sum of the keys added over the given folders. */
  function TotalAdded(base: Catalog, fs: seq<Folder>): nat
  {
    if fs == [] then 0 else TotalAdded(base, fs[..|fs| - 1]) + AddedFor(base, fs[|fs| - 1])
  }

  /** The file written for a processed folder. */
  ghost function OutputFor(base: Catalog, f: Folder, removeExtra: bool): Output
    requires f.strings.Loaded? && CanFill(base, f.strings.catalog, OBJECT_PROTOTYPE)
  {
    Output(f.name, LanguageCode(f.name), Canonical(Reconciled(base, f.strings.catalog, removeExtra, OBJECT_PROTOTYPE)))
  }

  ghost predicate AllFillable(base: Catalog, fs: seq<Folder>)
  {
    forall f :: f in fs ==> f.strings.Loaded? && CanFill(base, f.strings.catalog, OBJECT_PROTOTYPE)
  }

  /** The files written for the given folders, in order. */
  ghost function Outputs(base: Catalog, fs: seq<Folder>, removeExtra: bool): seq<Output>
    requires AllFillable(base, fs)
  {
    if fs == [] then []
    else
      assert fs == fs[..|fs| - 1] + [fs[|fs| - 1]];
      Outputs(base, fs[..|fs| - 1], removeExtra) + [OutputFor(base, fs[|fs| - 1], removeExtra)]
  }

  lemma ProcessedFillable(base: Catalog, dirs: seq<Folder>)
    requires Readable(base, dirs)
    ensures AllFillable(base, Processed(dirs))
  {
    ProcessedMembers(dirs);
  }

  /** One more directory entry: the folder is reconciled or skipped. */
  lemma ProcessedStep(dirs: seq<Folder>, i: nat)
    requires i < |dirs|
    ensures Processed(dirs[..i + 1]) == Processed(dirs[..i]) + (if Processes(dirs[i]) then [dirs[i]] else [])
  {
    assert dirs[..i + 1][..i] == dirs[..i];
  }

  lemma OutputsStep(base: Catalog, fs: seq<Folder>, f: Folder, removeExtra: bool)
    requires AllFillable(base, fs) && f.strings.Loaded? && CanFill(base, f.strings.catalog, OBJECT_PROTOTYPE)
    ensures AllFillable(base, fs + [f])
    ensures Outputs(base, fs + [f], removeExtra) == Outputs(base, fs, removeExtra) + [OutputFor(base, f, removeExtra)]
  {
    assert (fs + [f])[..|fs|] == fs;
  }

  lemma TotalAddedStep(base: Catalog, fs: seq<Folder>, f: Folder)
    ensures TotalAdded(base, fs + [f]) == TotalAdded(base, fs) + AddedFor(base, f)
  {
    assert (fs + [f])[..|fs|] == fs;
  }

  /** A skipped directory entry leaves the processed folders as they were. */
  lemma SkipStep(dirs: seq<Folder>, i: nat)
    requires i < |dirs| && !Processes(dirs[i])
    ensures Processed(dirs[..i + 1]) == Processed(dirs[..i])
  {
    ProcessedStep(dirs, i);
  }

  /** A reconciled folder adds its file to the outputs and its added keys to the total. */
  lemma ProcessStep(base: Catalog, dirs: seq<Folder>, i: nat, removeExtra: bool, written: seq<Line>, added: nat)
    requires i < |dirs| && Processes(dirs[i]) && CanFill(base, dirs[i].strings.catalog, OBJECT_PROTOTYPE)
    requires AllFillable(base, Processed(dirs[..i]))
    requires written == Canonical(Reconciled(base, dirs[i].strings.catalog, removeExtra, OBJECT_PROTOTYPE))
    requires added == |MissingKeys(base, dirs[i].strings.catalog, OBJECT_PROTOTYPE)|
    ensures Processed(dirs[..i + 1]) == Processed(dirs[..i]) + [dirs[i]]
    ensures AllFillable(base, Processed(dirs[..i + 1]))
    ensures TotalAdded(base, Processed(dirs[..i + 1])) == TotalAdded(base, Processed(dirs[..i])) + added
    ensures Outputs(base, Processed(dirs[..i + 1]), removeExtra)
         == Outputs(base, Processed(dirs[..i]), removeExtra) + [Output(dirs[i].name, LanguageCode(dirs[i].name), written)]
  {
    ProcessedStep(dirs, i);
    OutputsStep(base, Processed(dirs[..i]), dirs[i], removeExtra);
    TotalAddedStep(base, Processed(dirs[..i]), dirs[i]);
  }

  /**
   The main loop: reconciles every processed language against the base and
   returns the number of languages processed, the number of keys added over
   all of them, and the files written.
   */
  method Run(base: Catalog, dirs: seq<Folder>, removeExtra: bool)
    returns (processedCount: nat, totalAddedStrings: nat, outputs: seq<Output>)
    requires Readable(base, dirs)
    ensures AllFillable(base, Processed(dirs))
    ensures processedCount == |Processed(dirs)|
    ensures totalAddedStrings == TotalAdded(base, Processed(dirs))
    ensures outputs == Outputs(base, Processed(dirs), removeExtra)
  {
    var baseKeyList := KeysOf(base);
    var baseKeys := SortKeys(baseKeyList);
    processedCount := 0;
    totalAddedStrings := 0;
    outputs := [];
    for i := 0 to |dirs|
      invariant AllFillable(base, Processed(dirs[..i]))
      invariant processedCount == |Processed(dirs[..i])|
      invariant totalAddedStrings == TotalAdded(base, Processed(dirs[..i]))
      invariant outputs == Outputs(base, Processed(dirs[..i]), removeExtra)
    {
      var folderName := dirs[i].name;
      if !EndsWith(folderName, BUNDLE_SUFFIX) {
        SkipStep(dirs, i);
        continue;
      }
      if folderName == "Base.lproj" || folderName == "en.lproj" {
        SkipStep(dirs, i);
        continue;
      }
      var language := LanguageCode(folderName);
      if dirs[i].strings.Unreadable? {
        SkipStep(dirs, i);
        continue;
      }
      var langData := dirs[i].strings.catalog;
      assert dirs[i] in dirs;
      SortedIsDistinct(baseKeys);
      var reconciled, written, report := ReconcileLanguage(base, baseKeys, langData, removeExtra);
      ProcessStep(base, dirs, i, removeExtra, written, report.addedCount);
      if report.addedCount > 0 {
        totalAddedStrings := totalAddedStrings + report.addedCount;
      }
      outputs := outputs + [Output(folderName, language, written)];
      processedCount := processedCount + 1;
    }
    assert dirs[..|dirs|] == dirs;
  }

  // ---------------------------------------------------------------------------
  // Properties of a run

  /** The closing message says that all languages were already complete
      exactly when no processed language lacked a base key. */
  lemma {:induction false} TotalAddedZero(base: Catalog, fs: seq<Folder>)
    ensures TotalAdded(base, fs) == 0 <==>
      forall f :: f in fs && f.strings.Loaded? ==> MissingKeys(base, f.strings.catalog, OBJECT_PROTOTYPE) == {}
  {
    if fs != [] {
      var init := fs[..|fs| - 1];
      TotalAddedZero(base, init);
      assert fs == init + [fs[|fs| - 1]];
    }
  }

  /** A directory entry after a run: a processed folder holds the file the run wrote. */
  ghost function Rewrite(base: Catalog, f: Folder, removeExtra: bool): Folder
  {
    if Processes(f) && CanFill(base, f.strings.catalog, OBJECT_PROTOTYPE) then
      Folder(f.name, Loaded(ToCatalog(OutputFor(base, f, removeExtra).lines)))
    else f
  }

  /** The project directory after a run. */
  ghost function Rewritten(base: Catalog, dirs: seq<Folder>, removeExtra: bool): (r: seq<Folder>)
    ensures |r| == |dirs|
  {
    if dirs == [] then []
    else Rewritten(base, dirs[..|dirs| - 1], removeExtra) + [Rewrite(base, dirs[|dirs| - 1], removeExtra)]
  }

  /** Reading back a written file gives the reconciled catalog, which is complete and reconciles to itself. */
  lemma RewriteFolder(base: Catalog, f: Folder, removeExtra: bool)
    requires Processes(f) && CanFill(base, f.strings.catalog, OBJECT_PROTOTYPE)
    ensures Rewrite(base, f, removeExtra).strings.catalog == Reconciled(base, f.strings.catalog, removeExtra, OBJECT_PROTOTYPE)
    ensures Processes(Rewrite(base, f, removeExtra))
    ensures CanFill(base, Rewrite(base, f, removeExtra).strings.catalog, OBJECT_PROTOTYPE)
    ensures AddedFor(base, Rewrite(base, f, removeExtra)) == 0
    ensures OutputFor(base, Rewrite(base, f, removeExtra), removeExtra) == OutputFor(base, f, removeExtra)
  {
    var out := Reconciled(base, f.strings.catalog, removeExtra, OBJECT_PROTOTYPE);
    ToCatalogCanonical(out);
    ReconcileIdempotent(base, f.strings.catalog, removeExtra, OBJECT_PROTOTYPE);
  }

  lemma ProcessedSnoc(fs: seq<Folder>, f: Folder)
    ensures Processed(fs + [f]) == Processed(fs) + (if Processes(f) then [f] else [])
  {
    assert (fs + [f])[..|fs|] == fs;
  }

  lemma ReadableSnoc(base: Catalog, fs: seq<Folder>, f: Folder)
    requires Readable(base, fs) && (Processes(f) ==> CanFill(base, f.strings.catalog, OBJECT_PROTOTYPE))
    ensures Readable(base, fs + [f])
  {
  }

  /**
   Running the tool again over the files it wrote, with the same base and
   flag, processes the same languages, adds no key and writes the same files.
   */
  lemma {:induction false} RunIdempotent(base: Catalog, dirs: seq<Folder>, removeExtra: bool)
    requires Readable(base, dirs)
    ensures Readable(base, Rewritten(base, dirs, removeExtra))
    ensures AllFillable(base, Processed(dirs))
    ensures AllFillable(base, Processed(Rewritten(base, dirs, removeExtra)))
    ensures |Processed(Rewritten(base, dirs, removeExtra))| == |Processed(dirs)|
    ensures TotalAdded(base, Processed(Rewritten(base, dirs, removeExtra))) == 0
    ensures Outputs(base, Processed(Rewritten(base, dirs, removeExtra)), removeExtra)
         == Outputs(base, Processed(dirs), removeExtra)
  {
    ProcessedFillable(base, dirs);
    if dirs != [] {
      var n := |dirs| - 1;
      var init := dirs[..n];
      var last := dirs[n];
      assert dirs == init + [last];
      assert Readable(base, init);
      RunIdempotent(base, init, removeExtra);
      var rinit := Rewritten(base, init, removeExtra);
      var rlast := Rewrite(base, last, removeExtra);
      var r := Rewritten(base, dirs, removeExtra);
      assert r == rinit + [rlast];
      ProcessedSnoc(init, last);
      ProcessedSnoc(rinit, rlast);
      var p := Processed(init);
      var rp := Processed(rinit);
      ProcessedFillable(base, init);
      if Processes(last) {
        assert last in dirs;
        RewriteFolder(base, last, removeExtra);
        ReadableSnoc(base, rinit, rlast);
        assert Processed(r) == rp + [rlast];
        assert Processed(dirs) == p + [last];
        OutputsStep(base, p, last, removeExtra);
        OutputsStep(base, rp, rlast, removeExtra);
        TotalAddedStep(base, rp, rlast);
        assert TotalAdded(base, Processed(r)) == 0;
        assert Outputs(base, Processed(r), removeExtra) == Outputs(base, Processed(dirs), removeExtra);
      } else {
        assert rlast == last;
        ReadableSnoc(base, rinit, rlast);
        assert Processed(r) == rp;
        assert Processed(dirs) == p;
      }
    }
  }
}
