/** The `AutoTranslate` class: it reads the translation files of every domain
    through the language-file manager, finds the dotted keys a target language
    lacks, translates them through a backend with their placeholders guarded,
    and hands the result back to the manager. The manager, the backend and
    the callback are collaborators: the manager is a value (its file table,
    the contents of each file, each file's modification time), the backend a
    function from source text to translated text, and the callback a counter.
    The configured source language is a parameter. */
module AutoTranslate {
  import opened PhpArrays
  import opened DotNotation
  import opened Placeholders

  /** What the language-file manager knows: for each domain (file key) the
      path of its file in each language, the array each file returns, and the
      modification time of each file. */
  datatype Manager = Manager(
    files: PArray<PArray<string>>,
    content: string -> PArray<Value>,
    mtime: string -> int)

  /** Which domains a gathering loop admits: `All` is `getTranslations`,
      `UpToDate(source)` is the loop of `getUpdatedTranslations`, which also
      needs a source file no newer than the target file. */
  datatype Filter = All | UpToDate(source: string)

  predicate Admits(m: Manager, filter: Filter, langFiles: PArray<string>, lang: string)
  {
    Get(langFiles, lang).Some? &&
    match filter
    case All => true
    case UpToDate(source) =>
      Get(langFiles, source).Some? &&
      !(m.mtime(Get(langFiles, source).value) > m.mtime(Get(langFiles, lang).value))
  }

  /** The loop over `files()`: every admitted domain is set to the contents of
      its file for `lang`, in the order of the file table. */
  function Gather(m: Manager, fs: seq<(string, PArray<string>)>, lang: string, filter: Filter): PArray<Value>
  {
    if fs == [] then []
    else
      var acc := Gather(m, fs[..|fs| - 1], lang, filter);
      var d := fs[|fs| - 1];
      if Admits(m, filter, d.1, lang) then Put(acc, d.0, Arr(m.content(Get(d.1, lang).value))) else acc
  }

  /** `getTranslations($lang)` as a value. */
  function TranslationsOf(m: Manager, lang: string): PArray<Value>
  {
    Gather(m, m.files, lang, All)
  }

  /** What the gathering loop holds for one domain. */
  function Gathered(m: Manager, fs: PArray<PArray<string>>, lang: string, filter: Filter, d: string): Option<Value>
  {
    var f := Get(fs, d);
    if f.Some? && Admits(m, filter, f.value, lang) then Some(Arr(m.content(Get(f.value, lang).value))) else None
  }

  /** Each domain of the result holds the contents of its file for `lang`,
      and exactly the admitted domains are present. */
  lemma {:induction false} GatherGet(m: Manager, fs: PArray<PArray<string>>, lang: string, filter: Filter, d: string)
    ensures Get(Gather(m, fs, lang, filter), d) == Gathered(m, fs, lang, filter, d)
  {
    if fs != [] {
      var n := |fs|;
      var last := fs[n - 1];
      assert fs[..n - 1] + [last] == fs;
      DistinctPrefix(fs[..n - 1], [last]);
      var prefix: PArray<PArray<string>> := fs[..n - 1];
      GatherGet(m, prefix, lang, filter, d);
      FirstKeyFresh(prefix, [last]);
      PutFresh(prefix, last.0, last.1);
      GetPut(prefix, last.0, last.1, d);
      var acc := Gather(m, prefix, lang, filter);
      if Admits(m, filter, last.1, lang) {
        GetPut(acc, last.0, Arr(m.content(Get(last.1, lang).value)), d);
      }
    }
  }

  /** Every domain an up-to-date gathering keeps is also in the plain one, with
      the same contents. */
  lemma GatherWithin(m: Manager, lang: string, source: string)
    ensures forall e :: e in Gather(m, m.files, lang, UpToDate(source)) ==> e in TranslationsOf(m, lang)
  {
    var g := Gather(m, m.files, lang, UpToDate(source));
    forall e | e in g ensures e in TranslationsOf(m, lang) {
      var i :| 0 <= i < |g| && g[i] == e;
      GetAt(g, i);
      GatherGet(m, m.files, lang, UpToDate(source), e.0);
      GatherGet(m, m.files, lang, All, e.0);
      GetIn(TranslationsOf(m, lang), e.0, e.1);
    }
  }

  /** When every domain that has a file for `lang` is admitted, the filter
      changes nothing. */
  lemma {:induction false} GatherAllAdmitted(m: Manager, fs: seq<(string, PArray<string>)>, lang: string, filter: Filter)
    requires forall i :: 0 <= i < |fs| && Get(fs[i].1, lang).Some? ==> Admits(m, filter, fs[i].1, lang)
    ensures Gather(m, fs, lang, filter) == Gather(m, fs, lang, All)
  {
    if fs != [] {
      GatherAllAdmitted(m, fs[..|fs| - 1], lang, filter);
    }
  }

  /** When no domain is admitted, nothing is gathered. */
  lemma {:induction false} GatherNoneAdmitted(m: Manager, fs: seq<(string, PArray<string>)>, lang: string, filter: Filter)
    requires forall i :: 0 <= i < |fs| ==> !Admits(m, filter, fs[i].1, lang)
    ensures Gather(m, fs, lang, filter) == []
  {
    if fs != [] {
      GatherNoneAdmitted(m, fs[..|fs| - 1], lang, filter);
    }
  }

  /** `getTranslations($lang)`: every domain with a file for `lang`, set to
      that file's contents. */
  method GetTranslations(m: Manager, lang: string) returns (r: PArray<Value>)
    ensures r == TranslationsOf(m, lang)
  {
    r := [];
    for i := 0 to |m.files|
      invariant r == Gather(m, m.files[..i], lang, All)
    {
      assert m.files[..i + 1][..i] == m.files[..i];
      var (fileKeyName, languagesFile) := m.files[i];
      if Get(languagesFile, lang).None? {
        continue;
      }
      var allTranslations := m.content(Get(languagesFile, lang).value);
      r := Put(r, fileKeyName, Arr(allTranslations));
    }
    assert m.files[..|m.files|] == m.files;
  }

  /** `getSourceTranslations()`, with the configured source language as a parameter. */
  method GetSourceTranslations(m: Manager, sourceLanguage: string) returns (r: PArray<Value>)
    ensures r == TranslationsOf(m, sourceLanguage)
  {
    r := GetTranslations(m, sourceLanguage);
  }

  // ---------------------------------------------------------------------------
  // Missing and updated keys

  /** `collect(Arr::dot($source))->only(array_diff(array_keys(Arr::dot($source)),
      array_keys(Arr::dot($target))))`: the dotted source entries whose key
      the target does not have, in source order. */
  function MissingEntries(source: PArray<Value>, target: PArray<Value>): (r: PArray<Value>)
    ensures forall e :: e in r <==> e in Dot(source, "") && e.0 !in FlatKeys(target, "")
    ensures IsSubsequence(r, Dot(source, ""))
  {
    var dottedSource := Dot(source, "");
    var dottedLang := Dot(target, "");
    DotKeys(target, "");
    EntryKeys(dottedSource);
    Only(dottedSource, ArrayDiff(Keys(dottedSource), Keys(dottedLang)))
  }

  /** `getMissingTranslations($lang)`. */
  method GetMissingTranslations(m: Manager, sourceLanguage: string, lang: string) returns (r: PArray<Value>)
    ensures r == MissingEntries(TranslationsOf(m, sourceLanguage), TranslationsOf(m, lang))
  {
    var source := GetSourceTranslations(m, sourceLanguage);
    var target := GetTranslations(m, lang);
    var dottedSource := Dot(source, "");
    var dottedLang := Dot(target, "");
    var diff := ArrayDiff(Keys(dottedSource), Keys(dottedLang));
    r := Only(dottedSource, diff);
  }

  /** `getUpdatedTranslations($lang)`. A domain's target file counts only when
      the domain also has a source file and that file is not newer; all the
      other domains are translated from scratch. */
  method GetUpdatedTranslations(m: Manager, sourceLanguage: string, lang: string) returns (r: PArray<Value>)
    ensures r == MissingEntries(TranslationsOf(m, sourceLanguage), Gather(m, m.files, lang, UpToDate(sourceLanguage)))
  {
    var sourceTranslations := GetSourceTranslations(m, sourceLanguage);
    var langTranslations: PArray<Value> := [];
    for i := 0 to |m.files|
      invariant langTranslations == Gather(m, m.files[..i], lang, UpToDate(sourceLanguage))
    {
      assert m.files[..i + 1][..i] == m.files[..i];
      var (fileKeyName, languagesFile) := m.files[i];
      if Get(languagesFile, lang).None? {
        continue;
      }
      if Get(languagesFile, sourceLanguage).None? {
        continue;
      }
      if m.mtime(Get(languagesFile, sourceLanguage).value) > m.mtime(Get(languagesFile, lang).value) {
        continue;
      }
      var trans := m.content(Get(languagesFile, lang).value);
      langTranslations := Put(langTranslations, fileKeyName, Arr(trans));
    }
    assert m.files[..|m.files|] == m.files;
    var dottedSource := Dot(sourceTranslations, "");
    var dottedLang := Dot(langTranslations, "");
    var diff := ArrayDiff(Keys(dottedSource), Keys(dottedLang));
    r := Only(dottedSource, diff);
  }

  /** Against an empty target every dotted source entry is missing. */
  lemma MissingFromEmptyTarget(source: PArray<Value>)
    ensures MissingEntries(source, []) == Dot(source, "")
  {
    var dotted := Dot(source, "");
    assert Dot([], "") == [];
    ArrayDiffNone(Keys(dotted));
    OnlyAll(dotted, Keys(dotted));
  }

  /** An empty source has nothing missing. */
  lemma MissingFromEmptySource(target: PArray<Value>)
    ensures MissingEntries([], target) == []
  {
    assert Dot([], "") == [];
  }

  /** A target that holds everything the source holds, empty arrays included,
      has nothing missing. */
  lemma MissingFromItself(source: PArray<Value>)
    ensures MissingEntries(source, source) == []
  {
    var r := MissingEntries(source, source);
    DotKeys(source, "");
    EntryKeys(Dot(source, ""));
    HeadIn(r);
  }

  /** A target with fewer entries leaves more missing. */
  lemma MissingAntitone(source: PArray<Value>, small: PArray<Value>, large: PArray<Value>)
    requires forall e :: e in small ==> e in large
    ensures forall e :: e in MissingEntries(source, large) ==> e in MissingEntries(source, small)
  {
    FlatKeysMonotone(small, large, "");
  }

  /** Every key `getMissingTranslations` reports, `getUpdatedTranslations`
      reports too. */
  lemma UpdatedCoversMissing(m: Manager, sourceLanguage: string, lang: string)
    ensures forall e :: e in MissingEntries(TranslationsOf(m, sourceLanguage), TranslationsOf(m, lang)) ==>
      e in MissingEntries(TranslationsOf(m, sourceLanguage), Gather(m, m.files, lang, UpToDate(sourceLanguage)))
  {
    GatherWithin(m, lang, sourceLanguage);
    MissingAntitone(TranslationsOf(m, sourceLanguage), Gather(m, m.files, lang, UpToDate(sourceLanguage)), TranslationsOf(m, lang));
  }

  /** When every target file has a source file that is not newer, updated and
      missing keys coincide. */
  lemma UpdatedIsMissingWhenUpToDate(m: Manager, sourceLanguage: string, lang: string)
    requires forall i :: 0 <= i < |m.files| && Get(m.files[i].1, lang).Some? ==>
      Admits(m, UpToDate(sourceLanguage), m.files[i].1, lang)
    ensures MissingEntries(TranslationsOf(m, sourceLanguage), Gather(m, m.files, lang, UpToDate(sourceLanguage))) ==
      MissingEntries(TranslationsOf(m, sourceLanguage), TranslationsOf(m, lang))
  {
    GatherAllAdmitted(m, m.files, lang, UpToDate(sourceLanguage));
  }

  /** When no target file is up to date, every dotted source entry is reported. */
  lemma UpdatedAllWhenStale(m: Manager, sourceLanguage: string, lang: string)
    requires forall i :: 0 <= i < |m.files| ==> !Admits(m, UpToDate(sourceLanguage), m.files[i].1, lang)
    ensures MissingEntries(TranslationsOf(m, sourceLanguage), Gather(m, m.files, lang, UpToDate(sourceLanguage))) ==
      Dot(TranslationsOf(m, sourceLanguage), "")
  {
    GatherNoneAdmitted(m, m.files, lang, UpToDate(sourceLanguage));
    MissingFromEmptyTarget(TranslationsOf(m, sourceLanguage));
  }

  /** A domain whose target file is missing, or whose source file is missing
      or newer than its target file, is translated from scratch: every dotted
      source entry under it is reported, whatever else is up to date. */
  lemma StaleDomainMissing(m: Manager, sourceLanguage: string, lang: string, d: string)
    requires forall i :: 0 <= i < |m.files| ==> '.' !in m.files[i].0
    requires '.' !in d
    requires Gathered(m, m.files, lang, UpToDate(sourceLanguage), d) == None
    ensures forall e :: e in Dot(TranslationsOf(m, sourceLanguage), "") && (e.0 == d || d + "." <= e.0) ==>
      e in MissingEntries(TranslationsOf(m, sourceLanguage), Gather(m, m.files, lang, UpToDate(sourceLanguage)))
  {
    var target := Gather(m, m.files, lang, UpToDate(sourceLanguage));
    forall i | 0 <= i < |target| ensures '.' !in target[i].0 && target[i].0 != d {
      var k := target[i].0;
      GetAt(target, i);
      GatherGet(m, m.files, lang, UpToDate(sourceLanguage), k);
      var j := IndexOf(Keys(m.files), k);
      assert m.files[j].0 == k;
    }
    FlatKeysOutside(target, d);
  }

  // ---------------------------------------------------------------------------
  // Translation

  /** `findVariables($value)`: the match list for a string, null for anything else. */
  function FindVariablesOf(v: Value): (r: Option<seq<string>>)
    ensures r.Some? <==> v.Str?
  {
    if v.Str? then Some(FindVariables(v.s)) else None
  }

  /** What `translate` makes of one dotted value: an empty string is kept, any
      other string goes to the backend and gets its placeholders back, and a
      value that is not a string (null, an empty array) comes out as null. */
  function TranslateValue(backend: string -> string, v: Value): Value
  {
    if v == Str("") then v
    else if v.Str? then Str(Restore(FindVariables(v.s), backend(v.s)))
    else Null
  }

  /** Translated values are strings or null, so leaves stay leaves. */
  lemma TranslateValueLeaf(backend: string -> string)
    ensures LeafPreserving(v => TranslateValue(backend, v))
    ensures forall v :: TranslateValue(backend, v).Str? || TranslateValue(backend, v) == Null
  {
  }

  /** When the backend returns as many tokens as it was given, the translated
      string carries exactly the source's placeholders, in order. */
  lemma TranslateKeepsPlaceholders(backend: string -> string, s: string)
    requires s != ""
    requires |FindVariables(backend(s))| == |FindVariables(s)|
    ensures TranslateValue(backend, Str(s)).Str?
    ensures FindVariables(TranslateValue(backend, Str(s)).s) == FindVariables(s)
  {
    RestoreTokens(FindVariables(s), backend(s));
    assert FindVariables(s)[..|FindVariables(s)|] == FindVariables(s);
  }

  /** A backend that returns its input leaves every value a string was, unchanged. */
  lemma TranslateIdentity(backend: string -> string, s: string)
    requires backend(s) == s
    ensures TranslateValue(backend, Str(s)) == Str(s)
  {
    RestoreOwnTokens(s);
  }

  /** The dotted array with every value translated in place. */
  function TranslateDotted(backend: string -> string, dotted: PArray<Value>): (r: PArray<Value>)
    ensures Keys(r) == Keys(dotted)
  {
    MapValues(v => TranslateValue(backend, v), dotted)
  }

  /** The texts `translate` sends to the backend, in order. */
  function Sent(dotted: seq<(string, Value)>): (r: seq<string>)
    ensures |r| <= |dotted|
  {
    if dotted == [] then []
    else
      var v := dotted[|dotted| - 1].1;
      Sent(dotted[..|dotted| - 1]) + (if v.Str? && v.s != "" then [v.s] else [])
  }

  /** The backend receives every non-empty string value and nothing else. */
  lemma {:induction false} SentTexts(dotted: seq<(string, Value)>)
    ensures forall t :: t in Sent(dotted) ==> t != "" && exists i :: 0 <= i < |dotted| && dotted[i].1 == Str(t)
    ensures forall i :: 0 <= i < |dotted| && dotted[i].1.Str? && dotted[i].1.s != "" ==> dotted[i].1.s in Sent(dotted)
  {
    if dotted != [] {
      var n := |dotted|;
      var prefix := dotted[..n - 1];
      SentTexts(prefix);
      assert forall i :: 0 <= i < n - 1 ==> prefix[i] == dotted[i];
    }
  }

  /** `array_undot($dottedArray, $initialArray)`: `Arr::set` of each entry in order. */
  method ArrayUndot(dottedArray: PArray<Value>, initialArray: PArray<Value>) returns (r: PArray<Value>)
    ensures r == Undot(dottedArray, initialArray)
  {
    r := initialArray;
    for i := 0 to |dottedArray|
      invariant r == Undot(dottedArray[..i], initialArray)
    {
      var (key, value) := dottedArray[i];
      assert dottedArray[..i + 1][..i] == dottedArray[..i];
      r := SetPath(r, Split(key), value);
    }
    assert dottedArray[..|dottedArray|] == dottedArray;
  }

  /** The first `i` values of `dotted` are translated, the rest are still the source's. */
  predicate TranslatedUpTo(backend: string -> string, source: seq<(string, Value)>, dotted: seq<(string, Value)>, i: nat)
  {
    i <= |source| && |dotted| == |source| &&
    (forall j :: 0 <= j < i ==> dotted[j] == (source[j].0, TranslateValue(backend, source[j].1))) &&
    (forall j :: i <= j < |source| ==> dotted[j] == source[j])
  }

  lemma TranslatedStep(backend: string -> string, source: seq<(string, Value)>, dotted: seq<(string, Value)>, i: nat)
    requires i < |source| && TranslatedUpTo(backend, source, dotted, i)
    ensures TranslatedUpTo(backend, source, dotted[i := (source[i].0, TranslateValue(backend, source[i].1))], i + 1)
  {
  }

  lemma TranslatedAll(backend: string -> string, source: PArray<Value>, dotted: seq<(string, Value)>)
    requires TranslatedUpTo(backend, source, dotted, |source|)
    ensures dotted == TranslateDotted(backend, source)
  {
  }

  lemma SentStep(source: seq<(string, Value)>, i: nat)
    requires i < |source|
    ensures Sent(source[..i + 1]) ==
      Sent(source[..i]) + (if source[i].1.Str? && source[i].1.s != "" then [source[i].1.s] else [])
  {
    assert source[..i + 1][..i] == source[..i];
  }

  /** `translate($targetLanguage, $data, $callback)`: the texts sent to the
      backend and the number of callbacks are returned beside the tree. The
      target language only configures the backend, which is `backend` here. */
  method Translate(backend: string -> string, data: PArray<Value>, hasCallback: bool)
    returns (r: PArray<Value>, sent: seq<string>, callbacks: nat)
    ensures r == Undot(TranslateDotted(backend, Dot(data, "")), [])
    ensures sent == Sent(Dot(data, ""))
    ensures callbacks == if hasCallback then |Dot(data, "")| else 0
  {
    var source := Dot(data, "");
    var dottedSource := source;
    sent := [];
    callbacks := 0;
    for i := 0 to |source|
      invariant TranslatedUpTo(backend, source, dottedSource, i)
      invariant sent == Sent(source[..i])
      invariant callbacks == if hasCallback then i else 0
    {
      SentStep(source, i);
      TranslatedStep(backend, source, dottedSource, i);
      ghost var before := dottedSource;
      var (key, value) := source[i];
      if value == Str("") {
        PutAt(dottedSource, i, value);
        dottedSource := Put(dottedSource, key, value);
        if hasCallback {
          callbacks := callbacks + 1;
        }
        continue;
      }
      var variables := FindVariablesOf(value);
      var translated := value;
      if value.Str? {
        translated := Str(backend(value.s));
        sent := sent + [value.s];
      }
      PutAt(dottedSource, i, translated);
      dottedSource := Put(dottedSource, key, translated);
      var restored := ReplaceTranslatedVariablesWithOld(variables, if translated.Str? then translated.s else "");
      var result := if restored.Some? then Str(restored.value) else Null;
      assert result == TranslateValue(backend, value);
      PutAt(dottedSource, i, result);
      dottedSource := Put(dottedSource, key, result);
      assert dottedSource == before[i := (key, result)];
      if hasCallback {
        callbacks := callbacks + 1;
      }
    }
    assert source[..|source|] == source;
    TranslatedAll(backend, source, dottedSource);
    r := ArrayUndot(dottedSource, []);
  }

  /** For a tree whose keys hold no dot, `translate` keeps the shape of the
      tree and translates each leaf on its own. */
  lemma TranslateTree(backend: string -> string, data: PArray<Value>)
    requires DotFreeKeys(data)
    ensures Undot(TranslateDotted(backend, Dot(data, "")), []) == MapLeaves(v => TranslateValue(backend, v), data)
  {
    TranslateValueLeaf(backend);
    UndotMapDot(v => TranslateValue(backend, v), data);
  }

  /** For a tree whose keys hold no dot, flattening what `translate` returns
      gives back the translated dotted entries: same keys, same order. */
  lemma TranslateFlatKeys(backend: string -> string, data: PArray<Value>)
    requires DotFreeKeys(data)
    ensures Dot(Undot(TranslateDotted(backend, Dot(data, "")), []), "") == TranslateDotted(backend, Dot(data, ""))
    ensures Keys(Dot(Undot(TranslateDotted(backend, Dot(data, "")), []), "")) == Keys(Dot(data, ""))
  {
    var f := v => TranslateValue(backend, v);
    TranslateTree(backend, data);
    TranslateValueLeaf(backend);
    var t: PArray<Value> := MapLeaves(f, data);
    DotFreeMapLeaves(f, data);
    DotIsJoinedLeaves(t, "");
    LeavesMapLeaves(f, data);
    JoinedMapPaths(f, "", Leaves(data));
    DotIsJoinedLeaves(data, "");
  }

  /** The pipeline of the console command: the entries missing from the
      target, translated and set back, form the source tree cut down to the
      missing keys with each leaf translated, and flattening that tree gives
      the translated missing entries again, keys and order included. */
  lemma TranslateMissing(backend: string -> string, source: PArray<Value>, target: PArray<Value>)
    requires DotFreeKeys(source)
    ensures
      var missingKeys := ArrayDiff(Keys(Dot(source, "")), Keys(Dot(target, "")));
      var written := Undot(TranslateDotted(backend, Dot(MissingEntries(source, target), "")), []);
      written == MapLeaves(v => TranslateValue(backend, v), Prune(source, "", missingKeys)) &&
      Dot(written, "") == TranslateDotted(backend, MissingEntries(source, target))
  {
    var missingKeys := ArrayDiff(Keys(Dot(source, "")), Keys(Dot(target, "")));
    var missing := MissingEntries(source, target);
    DotPrune(source, missingKeys);
    var pruned: PArray<Value> := Prune(source, "", missingKeys);
    assert Dot(pruned, "") == missing;
    DotLeaves(pruned);
    DotFlat(missing);
    TranslateTree(backend, pruned);
    TranslateFlatKeys(backend, pruned);
  }

  /** The leaf of the scenario below: one placeholder, handed back in place
      of the backend's own. */
  lemma GreetingValue(backend: string -> string)
    requires backend("Hello " + ":name") == "Bonjour " + ":X"
    ensures TranslateValue(backend, Str("Hello " + ":name")) == Str("Bonjour " + ":name")
  {
    assert "Hello " + ":name" + "" == "Hello " + ":name";
    assert "Bonjour " + ":X" + "" == "Bonjour " + ":X";
    assert "Bonjour " + ":name" + "" == "Bonjour " + ":name";
    HelloTokens();
    BonjourRestore();
  }

  /** A one-entry domain `greeting.hi = "Hello :name"` sent to a backend that
      answers "Bonjour :X" comes back as the same tree, with the source's
      placeholder put back into the answer. */
  lemma GreetingScenario(backend: string -> string)
    requires backend("Hello " + ":name") == "Bonjour " + ":X"
    ensures
      var data: PArray<Value> := [("greeting", Arr([("hi", Str("Hello " + ":name"))]))];
      Undot(TranslateDotted(backend, Dot(data, "")), []) == [("greeting", Arr([("hi", Str("Bonjour " + ":name"))]))]
  {
    var inner: PArray<Value> := [("hi", Str("Hello " + ":name"))];
    var data: PArray<Value> := [("greeting", Arr(inner))];
    assert DotFreeKeys(inner) by {
      assert inner[1..] == [];
    }
    assert DotFreeKeys(data) by {
      assert data[0].1 == Arr(inner) && data[1..] == [];
    }
    TranslateTree(backend, data);
    var f := v => TranslateValue(backend, v);
    GreetingValue(backend);
    MapLeavesAt(f, inner, 0);
    assert MapLeaves(f, inner) == [("hi", Str("Bonjour " + ":name"))];
    MapLeavesAt(f, data, 0);
  }

  // ---------------------------------------------------------------------------
  // Writing back

  /** `[$language => $item]`. */
  function Wrap(language: string, item: Value): Value
  {
    Arr([(language, item)])
  }

  /** The item a wrapped value holds for `language`, if it is one. */
  function Unwrap(language: string, w: Value): Option<Value>
  {
    if w.Arr? && |w.entries| == 1 && w.entries[0].0 == language then Some(w.entries[0].1) else None
  }

  /** `array_map` of the wrapping over one domain's translations. */
  function WrapAll(language: string, translations: PArray<Value>): (r: PArray<Value>)
    ensures Keys(r) == Keys(translations)
  {
    MapValues(item => Wrap(language, item), translations)
  }

  /** Unwrapping undoes the wrapping, key by key. */
  lemma UnwrapWrapAll(language: string, translations: PArray<Value>)
    ensures Keys(WrapAll(language, translations)) == Keys(translations)
    ensures forall i :: 0 <= i < |translations| ==>
      Unwrap(language, WrapAll(language, translations)[i].1) == Some(translations[i].1)
  {
  }

  /** The calls `fillLanguageFiles` makes to `fillKeys`, and whether it gets
      through the whole array: `array_map` throws on a domain value that is not
      an array, which ends the loop. */
  datatype Fill = Fill(calls: seq<(string, PArray<Value>)>, completed: bool)

  function FillPlan(language: string, data: seq<(string, Value)>): (r: Fill)
    ensures |r.calls| <= |data|
    ensures forall i :: 0 <= i < |r.calls| ==>
      data[i].1.Arr? && r.calls[i] == (data[i].0, WrapAll(language, data[i].1.entries))
    ensures r.completed <==> forall i :: 0 <= i < |data| ==> data[i].1.Arr?
    ensures r.completed ==> |r.calls| == |data|
    ensures !r.completed ==> |r.calls| < |data| && !data[|r.calls|].1.Arr?
  {
    if data == [] then Fill([], true)
    else if !data[0].1.Arr? then Fill([], false)
    else
      var rest := FillPlan(language, data[1..]);
      Fill([(data[0].0, WrapAll(language, data[0].1.entries))] + rest.calls, rest.completed)
  }

  /** `fillLanguageFiles($language, $data)`: for each domain, its
      translations wrapped under `language` are passed to `fillKeys`, here
      recorded in order; `completed` is false when a domain value that is not
      an array stops the loop. */
  method FillLanguageFiles(language: string, data: PArray<Value>)
    returns (calls: seq<(string, PArray<Value>)>, completed: bool)
    ensures Fill(calls, completed) == FillPlan(language, data)
  {
    calls := [];
    for i := 0 to |data|
      invariant |calls| == i
      invariant forall j :: 0 <= j < i ==> data[j].1.Arr? && calls[j] == (data[j].0, WrapAll(language, data[j].1.entries))
    {
      var (languageFileKey, translations) := data[i];
      if !translations.Arr? {
        FillPlanStops(language, data, i);
        return calls, false;
      }
      var wrapped := WrapAll(language, translations.entries);
      calls := calls + [(languageFileKey, wrapped)];
    }
    FillPlanStops(language, data, |data|);
    completed := true;
  }

  /** The plan is determined by where the first domain value that is not an array sits. */
  lemma {:induction false} FillPlanStops(language: string, data: seq<(string, Value)>, i: nat)
    requires i <= |data|
    requires forall j :: 0 <= j < i ==> data[j].1.Arr?
    requires i < |data| ==> !data[i].1.Arr?
    ensures |FillPlan(language, data).calls| == i
    ensures FillPlan(language, data).completed <==> i == |data|
  {
    if i > 0 {
      FillPlanStops(language, data[1..], i - 1);
    }
  }

  // ---------------------------------------------------------------------------
  // An empty domain file on its way back

  /** For a new target language with no files yet, a source domain whose file
      returns an empty array is reported as missing, `translate` turns it into
      null, and `fillLanguageFiles` stops at it: the domains after it are never
      written. */
  lemma EmptyDomainStopsFill(backend: string -> string, language: string, source: PArray<Value>, i: nat)
    requires DotFreeKeys(source)
    requires i < |source| && source[i].1 == Arr([])
    ensures
      var written := Undot(TranslateDotted(backend, Dot(MissingEntries(source, []), "")), []);
      i < |written| && written[i] == (source[i].0, Null) &&
      !FillPlan(language, written).completed && |FillPlan(language, written).calls| <= i
  {
    MissingFromEmptyTarget(source);
    DotLeaves(source);
    DotFlat(Dot(source, ""));
    TranslateTree(backend, source);
    MapLeavesAt(v => TranslateValue(backend, v), source, i);
  }

  /** One value as `translate` evidently means to treat it: a string is
      translated with its placeholders put back, and anything else is kept
      as it is instead of becoming null. */
  function TranslateValueKept(backend: string -> string, v: Value): Value
  {
    if v.Str? then TranslateValue(backend, v) else v
  }

  /** The correction changes exactly the arrays: strings are translated as
      before, null stays null either way, and an array is kept instead of
      becoming null. */
  lemma KeptDiffersOnArrays(backend: string -> string, v: Value)
    ensures TranslateValueKept(backend, v) != TranslateValue(backend, v) <==> v.Arr?
  {
  }

  lemma KeptLeafPreserving(backend: string -> string)
    ensures LeafPreserving(v => TranslateValueKept(backend, v))
  {
  }

  /** With values that are not strings kept, a tree of domain arrays stays a
      tree of domain arrays, so `fillLanguageFiles` writes every domain. */
  lemma KeptDomainsFill(backend: string -> string, language: string, source: PArray<Value>)
    requires DotFreeKeys(source)
    requires forall i :: 0 <= i < |source| ==> source[i].1.Arr?
    ensures
      var written := Undot(MapValues(v => TranslateValueKept(backend, v), Dot(MissingEntries(source, []), "")), []);
      FillPlan(language, written).completed && |FillPlan(language, written).calls| == |source|
  {
    var f := v => TranslateValueKept(backend, v);
    KeptLeafPreserving(backend);
    MissingFromEmptyTarget(source);
    DotLeaves(source);
    DotFlat(Dot(source, ""));
    UndotMapDot(f, source);
    forall i | 0 <= i < |source| ensures MapLeaves(f, source)[i].1.Arr? {
      MapLeavesAt(f, source, i);
    }
  }
}
