# StringSanity reconciliation, modelled in Dafny

StringSanity is a command-line tool for iOS projects. It reads the base
language's `Localizable.strings` file. Then it goes through every `*.lproj`
folder of the project directory other than `Base.lproj` and `en.lproj` whose
strings file can be read, and brings that language's file into line with
the base, in five steps:

- it reports the keys that the base does not have (the extra keys);
- if run with `--remove-extra`, it deletes them;
- for every base key whose lookup `langData[key]` gives null or undefined, it
  adds a copy of the base text marked with the comment `UNTRANSLATED` (a
  base key named like an inherited member is not looked up as missing; see
  shadowed keys below);
- it writes the file back with its keys in ascending order;
- it prints whether the language now has as many strings as the base, more,
  or fewer.

At the end it reports how many languages it processed and how many strings
it added across all of them.

The model has four modules:

- `Keys` (keys.dfy): string order and sorted key lists. It models the two
  JavaScript calls `Object.keys` (`KeysOf`) and `Array.prototype.sort`
  (`SortKeys`, an insertion sort). `SortKeys` is proved equal to the unique
  strictly ascending enumeration `SortedKeys` of the key set.
- `Catalog` (catalog.dfy): JavaScript values (`Value`), JavaScript
  truthiness and loose `== null`, the property lookup `langData[key]`
  (`Lookup`), and the base-text fallback chain. It also holds the
  specification of one reconciliation as functions: `ExtraKeys`, `Pruned`,
  `MissingKeys`, `Shadowed`, `Filled`, `Reconciled` and `Canonical` (the
  sorted file), with their lemmas.
- `Reconciler` (reconciler.dfy): the tool's per-language loop body as
  imperative methods over `map` and `seq` state. Each method is proved
  against the specification functions of `Catalog`.
- `Driver` (driver.dfy): the folder filter, the language code
  (`replace(".lproj", "")`, first occurrence only), and the main loop with
  its two counters. It also proves that a second run over the written files
  changes nothing.

The lookup `langData[key]` on a plain JavaScript object also finds the
members every object inherits from `Object.prototype` (`toString`,
`constructor`, `valueOf`, and the rest listed in `OBJECT_PROTOTYPE`). The
specification functions take the set of inherited names as a parameter
`proto`. The tool's own run is the instance `proto == OBJECT_PROTOTYPE`. An
own-property lookup together with the `!= null` test
(`!Object.hasOwn(langData, key) || langData[key] == null` for "missing") is
the instance `proto == {}`. A base
key that the language lacks but whose name is inherited is *shadowed*: the
lookup finds the inherited member, so the tool neither adds nor counts it.

The values the `i18n-strings-files` codec reads are parameters:

- a folder carries `Loaded(catalog)` or `Unreadable`;
- a written file is the sequence of its `(key, value)` entries in write
  order;
- reading such a file back is `ToCatalog`: entries in order, a later entry
  overriding an earlier one.

## Model

| member | source | states |
|---|---|---|
| Keys.KeysOf | cli.js:95 | `Object.keys` lists every key of the object exactly once, in an order left open |
| Keys.SortKeys | cli.js:65 | sorting a list of distinct keys gives the same keys, strictly ascending, as long as the input, and exactly the unique ascending enumeration of the key set |
| Keys.SortedUnique | cli.js:148 | a set of keys has only one strictly ascending listing, so the written order depends on the key set alone and not on the order `Object.keys` returned |
| Catalog.BaseTextFallback | cli.js:128-134 | for an object the base text is `text` if truthy, else `value` if truthy, else the object itself, so it is always truthy; any other entry is used as it is |
| Catalog.ReconciledKeys | cli.js:95-144 | the final key set is the base keys minus the shadowed ones, plus the extras when they are kept; it contains all base keys exactly when none is shadowed; an extra key survives exactly when removal is off |
| Catalog.ReconciledKeepsExisting | cli.js:121-124 | a key the language holds with a non-null, non-undefined entry keeps that entry unchanged, unless it is an extra key being removed |
| Catalog.ReconciledKeepsExtras | cli.js:105-119 | without removal, every extra key stays with its entry, even a null one |
| Catalog.ReconciledFillsMissing | cli.js:121-144 | each base key whose lookup gives null or undefined gets exactly `{text: baseText, comment: "UNTRANSLATED"}` and no `value` |
| Catalog.ReconciledSkipsShadowed | cli.js:122-124 | a shadowed base key is not added to the catalog and not counted as missing |
| Catalog.ReconciledComplete | cli.js:121-144 | afterwards the lookup finds a usable entry for every base key, and the shadowed keys are the same as before |
| Catalog.ReconciledSize | cli.js:160 | the final number of keys is the base count, less the shadowed keys, plus the number of extras when they are kept |
| Catalog.VerdictAfterReconcile | cli.js:160-167 | the verdict is "missing" exactly when the shadowed keys outnumber the kept extras, "extra" exactly when the kept extras outnumber them, and complete when the two are equal |
| Catalog.VerdictWithoutShadowing | cli.js:160-167 | when no base key has an inherited name, every base key is present afterwards, the "missing" warning is unreachable, and the "extra" warning is printed exactly when removal is off and extras exist |
| Catalog.InheritedNameLeftMissing | cli.js:121-124 | base `{toString: "x"}` and an empty language: nothing is missing by the lookup, nothing is added, the catalog stays empty and the verdict is "missing" |
| Catalog.OwnLookupFillsInheritedName | cli.js:121-144 | on the same input an own-property lookup adds `{text: "x", comment: "UNTRANSLATED"}` and the verdict is complete |
| Catalog.OwnLookupComplete | cli.js:121-167 | with an own-property lookup every base key is present afterwards, the size is the base count plus the kept extras, "missing" is unreachable, and the language is complete exactly when extras are removed or there are none |
| Catalog.ReconcileIdempotent | cli.js:91-158 | reconciling the result again finds nothing missing, the same extras (none after removal), and returns the same catalog |
| Catalog.CanonicalSorted | cli.js:146-150 | the written file has each entry of the catalog exactly once, with its value, keys strictly ascending |
| Catalog.ToCatalogLines | cli.js:146-150 | reading back the lines of distinct keys gives each listed key its value |
| Catalog.ToCatalogCanonical | cli.js:146-158 | reading back the written file gives exactly the catalog that was written |
| Reconciler.FindExtraKeys | cli.js:95-103 | the extra keys are, without repetition, exactly the language keys not among the base keys, and `extraStringCount` is their number |
| Reconciler.RemoveExtraKeys | cli.js:105-112 | with removal the listed keys are deleted and every other entry is kept as it was; without removal the catalog is unchanged |
| Reconciler.AddMissingKeys | cli.js:121-144 | the result is the catalog with every base key whose lookup on the plain object gives null or undefined filled by the untranslated copy, and `addedStringCount` is the number of such keys after the extras step |
| Reconciler.SortedLines | cli.js:146-150 | the rebuilt listing is the catalog's entries in ascending key order |
| Reconciler.ReconcileCatalog | cli.js:91-144 | the extras and synthesis steps together give the reconciled catalog, the extra keys without repetition, their count, and the number of keys added |
| Reconciler.CountVerdict | cli.js:160-167 | the verdict is complete, "extra" or "missing" exactly when the final count is equal to, above or below the base count |
| Reconciler.ReconcileLanguage | cli.js:91-167 | the whole per-language body: it returns the reconciled catalog, the file it writes, the extra keys and their count, the added count and the verdict |
| Driver.RemoveFirstAt | cli.js:76 | `replace` with a string pattern deletes the first occurrence and only that one |
| Driver.RemoveFirstAbsent | cli.js:76 | a name without the pattern is left as it is |
| Driver.LanguageCodeOfFolder | cli.js:72-76 | for a language folder whose name has `.lproj` only at its end, the code is the name without the suffix, and code plus suffix gives the name back |
| Driver.LanguageCodeFirstOccurrence | cli.js:76 | a name that is a code followed by `.lproj` twice (`fr.lproj.lproj`) has the code followed by one `.lproj` (`fr.lproj`): only the first occurrence goes |
| Driver.ProcessedMembers | cli.js:72-89 | the processed folders are exactly the `.lproj` folders other than `Base.lproj` and `en.lproj` whose strings file could be read |
| Driver.ProcessedDistinct | cli.js:71-89 | when directory entries have distinct names, no folder is processed twice |
| Driver.Run | cli.js:68-170 | `processedCount` is the number of processed folders; `totalAddedStrings` is the sum of their added counts; the files written are, in directory order, each processed folder's reconciled catalog in sorted order, written into that folder |
| Driver.TotalAddedZero | cli.js:176-181 | the total added is zero exactly when no processed language had a base key whose lookup gave null or undefined, which is when "All languages already have complete translations" is printed; a shadowed key does not count, so the message can appear while a language lacks one |
| Driver.RunIdempotent | cli.js:71-170 | a second run over the files the first run wrote, with the same base and flag, processes the same languages, adds nothing and writes the same files |

## Left out

- Reading the project directory, probing for `Base.lproj` and then `en.lproj`
  as the base folder, and building file paths (cli.js:37-61) are not modelled.
  They are file-system I/O. The directory listing and the base catalog are
  parameters of `Driver.Run`.
- The `i18n-strings-files` codec (cli.js:64, 85, 158) is not modelled. It is
  a library whose format and parser are not part of this model. A read is
  given as `Loaded`/`Unreadable`, and a write as the ordered entry sequence.
  A written file is assumed to read back as its entries in written order,
  the last entry winning (`ToCatalog`). It is also assumed that every value
  comes back unchanged. That includes a synthesized record whose `text` is
  not a string, such as the whole base record, which is what the fallback
  gives for a base entry with empty `text` and no `value` (cli.js:131).
  `Driver.RunIdempotent` (equal written files on the second run) and
  `Catalog.ToCatalogCanonical` depend on that assumption.
- Console output, `Date()`, the dotted lines and the usage and
  argument handling (cli.js:12-35, 187-189) are not modelled. They are
  presentation. `removeExtra` is a parameter of `Driver.Run`.
- An exception from parsing the base file (cli.js:64) is not modelled. It
  is thrown by the codec and ends the run.
- Values are JavaScript values cut down to what the tool reads: `undefined`,
  `null`, strings, objects with only `text`, `value` and `comment`, and
  `Builtin` for a member inherited from `Object.prototype`. Numbers, booleans
  and other properties are not modelled. An own key named `__proto__`, which
  a plain object cannot hold as an ordinary entry, is not modelled either.
- Key order is lexicographic order on Dafny characters, which are Unicode
  code points. JavaScript compares UTF-16 code units, and the two orders
  differ only for keys with characters outside the Basic Multilingual Plane.
  JavaScript objects also list integer-like keys ("0", "42") first and in
  numeric order, whatever they were inserted as. That changes what the codec
  would receive for such keys, and it is not modelled.
- Reconciler.ReconcileLanguage: its `CanFill` precondition excludes the one
  input on which the source throws. That input is a base entry that is
  `null` (typeof is 'object') and whose lookup in the language gives null
  or undefined, where reading `.text` raises a TypeError. The same
  precondition is on `Reconciler.ReconcileCatalog` and
  `Reconciler.AddMissingKeys`.
- Driver.Run: it requires `CanFill` for every processed language (see
  `Readable`), so a run that the TypeError above stops halfway is not
  modelled.
- Machine translation is not modelled. It has no counterpart in cli.js.

## Findings

| source | as written | input that shows it | evidently intended | confidence | as-written member | corrected member |
|---|---|---|---|---|---|---|
| cli.js:123-124 | `langData[key] != null` treats a key the language lacks as present when its name is inherited from `Object.prototype`, so the key is never added and the language ends short | base `{"toString": "x"}`, empty language: nothing added, 0 of 1 strings, "missing" warning | add every base key the language does not hold itself or holds as null or undefined, that is, treat a key as missing when `Object.hasOwn(langData, key)` is false or `langData[key] == null` | not executed | Catalog.InheritedNameLeftMissing | Catalog.OwnLookupComplete |

The Reconciler and Driver methods follow the code as written
(`OBJECT_PROTOTYPE`). The corrected behaviour is the same specification with
an own-property lookup (`proto == {}`). `Catalog.OwnLookupFillsInheritedName`
shows it on the input above, and `Catalog.OwnLookupComplete` proves its
intended properties for all inputs.
