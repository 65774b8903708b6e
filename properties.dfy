/** What the localization manager promises, proved about the step functions of `LocalizationModel`. */
module LocalizationProperties {
  import opened Wrappers
  import opened Strings
  import opened LocalizationModel

  // ---------------------------------------------------------------- normalization

  /** A normalized code is left as it is by normalization. */
  lemma NormalizedIsFixpoint(lang: string)
    requires IsNormalized(lang)
    ensures NormalizeLanguage(lang) == lang
  {
    if lang != "" {
      assert Trim(lang) == lang;
      UpperCaseFixpoint(lang);
    }
  }

  /** A string with no lower-case letter is left alone by `ToUpperInvariant`. */
  lemma UpperCaseFixpoint(s: string)
    requires forall i :: 0 <= i < |s| ==> !IsLowerAscii(s[i])
    ensures ToUpperInvariant(s) == s
  {
    assert forall i :: 0 <= i < |s| ==> ToUpperInvariant(s)[i] == s[i];
  }

  /**
   * A code normalizes to the upper-cased middle of itself: some slice
   * `lang[a..a + |r|]` with only white space around it, upper-cased letter by letter.
   */
  lemma NormalizeKeepsMiddle(lang: string)
    ensures var r := NormalizeLanguage(lang);
            exists a: nat :: TrimmedAt(lang, a, |r|) && forall i :: 0 <= i < |r| ==> r[i] == UpperChar(lang[a + i])
  {
    var t := Trim(lang);
    TrimKeepsMiddle(lang);
    var a: nat :| TrimmedAt(lang, a, |t|) && forall i :: 0 <= i < |t| ==> t[i] == lang[a + i];
    UpperMiddle(lang, a, t, NormalizeLanguage(lang));
  }

  /** Upper-casing a slice of `lang` upper-cases the characters of `lang` it covers. */
  lemma UpperMiddle(lang: string, a: nat, t: string, r: string)
    requires TrimmedAt(lang, a, |t|) && forall i :: 0 <= i < |t| ==> t[i] == lang[a + i]
    requires |r| == |t| && forall i :: 0 <= i < |t| ==> r[i] == UpperChar(t[i])
    ensures exists a: nat :: TrimmedAt(lang, a, |r|) && forall i :: 0 <= i < |r| ==> r[i] == UpperChar(lang[a + i])
  {
    assert forall i :: 0 <= i < |r| ==> r[i] == UpperChar(lang[a + i]);
  }

  /** Normalizing twice is normalizing once. */
  lemma NormalizeIdempotent(lang: string)
    ensures NormalizeLanguage(NormalizeLanguage(lang)) == NormalizeLanguage(lang)
  {
    NormalizedIsFixpoint(NormalizeLanguage(lang));
  }

  /** The constructor's state already satisfies the invariant. */
  lemma InitialStateValid(currentLanguage: string, defaultLanguage: string)
    ensures Valid(InitialState(currentLanguage, defaultLanguage))
  {
  }

  // ---------------------------------------------------------------- loading

  /** `file` is parsed and its name normalizes to `lang`, so the loop installs it under `lang`. */
  predicate Installs(file: TextAsset, lang: string)
  {
    Parsed(file) && NormalizeLanguage(file.name) == lang
  }

  /** The last file installed under `lang`, or -1 when there is none. */
  function LastSource(files: seq<TextAsset>, lang: string): (i: int)
    ensures -1 <= i < |files|
    ensures 0 <= i ==> Installs(files[i], lang)
  {
    if files == [] then -1
    else if Installs(files[|files| - 1], lang) then |files| - 1
    else LastSource(files[..|files| - 1], lang)
  }

  /** No file after `LastSource` is installed under `lang`. */
  lemma {:induction false} LastSourceIsLast(files: seq<TextAsset>, lang: string)
    ensures forall j :: LastSource(files, lang) < j < |files| ==> !Installs(files[j], lang)
  {
    if files != [] && !Installs(files[|files| - 1], lang) {
      var init := files[..|files| - 1];
      LastSourceIsLast(init, lang);
      forall j | LastSource(files, lang) < j < |files|
        ensures !Installs(files[j], lang)
      {
        if j < |init| {
          assert files[j] == init[j];
        }
      }
    }
  }

  /** The loop alone, outside strict mode: it never throws and the last installing file wins. */
  lemma {:induction false} LoadFilesTables(config: Config, files: seq<TextAsset>, lang: string)
    requires !config.strictMode
    ensures LoadFiles(config, files).outcome == Pass
    ensures lang in LoadFiles(config, files).texts <==> LastSource(files, lang) >= 0
    ensures lang in LoadFiles(config, files).texts ==>
              LoadFiles(config, files).texts[lang] == TableOf(files[LastSource(files, lang)])
  {
    if files != [] {
      var init := files[..|files| - 1];
      LoadFilesTables(config, init, lang);
      if !Installs(files[|files| - 1], lang) {
        assert LastSource(files, lang) == LastSource(init, lang);
        if LastSource(init, lang) >= 0 {
          assert files[LastSource(init, lang)] == init[LastSource(init, lang)];
        }
      }
    }
  }

  /**
   * Non-strict loading never throws; it installs a table under `lang` exactly
   * when some parsed file normalizes to `lang` (even if that table is empty),
   * and the table is the one built from the LAST such file.
   */
  lemma LoadedTables(config: Config, files: seq<TextAsset>, lang: string)
    requires !config.strictMode
    ensures LoadAll(config, files).outcome == Pass
    ensures lang in LoadAll(config, files).texts <==> LastSource(files, lang) >= 0
    ensures lang in LoadAll(config, files).texts ==>
              LoadAll(config, files).texts[lang] == TableOf(files[LastSource(files, lang)])
  {
    LoadFilesTables(config, files, lang);
  }

  lemma AppendAssociative<T>(a: seq<T>, b: seq<T>, c: seq<T>)
    ensures (a + b) + c == a + (b + c)
  {
  }

  /** One more turn of the load loop, after turns that all returned normally. */
  lemma LoadFilesNext(config: Config, files: seq<TextAsset>, i: nat)
    requires i < |files| && LoadFiles(config, files[..i]).outcome == Pass
    ensures var prior := LoadFiles(config, files[..i]);
            var last := LoadFile(config, prior.texts, files[i]);
            LoadFiles(config, files[..i + 1]) == LoadProgress(last.texts, prior.log + last.log, last.outcome)
  {
    assert files[..i + 1][..i] == files[..i];
  }

  /** Once the load loop has thrown, the later files change nothing. */
  lemma {:induction false} LoadFilesStopsAtFailure(config: Config, files: seq<TextAsset>, i: nat)
    requires i <= |files| && LoadFiles(config, files[..i]).outcome.Fail?
    ensures LoadFiles(config, files) == LoadFiles(config, files[..i])
    decreases |files| - i
  {
    if i < |files| {
      var next := files[..i + 1];
      assert next[..i] == files[..i];
      LoadFilesStopsAtFailure(config, files, i + 1);
    } else {
      assert files[..i] == files;
    }
  }

  /** A file strict mode accepts: it parsed and its table is not empty. */
  predicate Good(file: TextAsset)
  {
    Parsed(file) && |TableOf(file)| > 0
  }

  /** The position of the first file strict mode rejects, or the number of files. */
  function FirstBad(files: seq<TextAsset>): (k: nat)
    ensures k <= |files|
    ensures forall i :: 0 <= i < k ==> Good(files[i])
    ensures k < |files| ==> !Good(files[k])
  {
    if files == [] then 0
    else
      var k := FirstBad(files[..|files| - 1]);
      if k < |files| - 1 || !Good(files[|files| - 1]) then k else |files|
  }

  /** On a good file strict and lenient loading do the same; strict mode throws on any other. */
  lemma StrictLoadFile(config: Config, texts: Store, file: TextAsset)
    requires config.strictMode
    ensures Good(file) ==> LoadFile(config, texts, file) == LoadFile(config.(strictMode := false), texts, file)
    ensures !Good(file) ==> LoadFile(config, texts, file).outcome.Fail? && LoadFile(config, texts, file).texts == texts
  {
  }

  /** The strict load loop has already thrown before the last file: nothing changes. */
  lemma StrictLoadFilesAfterBad(config: Config, files: seq<TextAsset>)
    requires config.strictMode && files != []
    requires FirstBad(files[..|files| - 1]) < |files| - 1
    requires LoadFiles(config, files[..|files| - 1]).outcome.Fail?
    requires LoadFiles(config, files[..|files| - 1]).texts
          == LoadFiles(config.(strictMode := false), files[..|files| - 1][..FirstBad(files[..|files| - 1])]).texts
    ensures LoadFiles(config, files).texts
         == LoadFiles(config.(strictMode := false), files[..FirstBad(files)]).texts
    ensures LoadFiles(config, files).outcome.Fail? && FirstBad(files) < |files|
  {
    var init := files[..|files| - 1];
    var k := FirstBad(init);
    assert FirstBad(files) == k;
    assert files[..k] == init[..k];
  }

  /** Lenient loading never throws. */
  lemma {:induction false} LenientLoadPasses(config: Config, files: seq<TextAsset>)
    requires !config.strictMode
    ensures LoadFiles(config, files).outcome == Pass
  {
    if files != [] {
      LenientLoadPasses(config, files[..|files| - 1]);
    }
  }

  /** The strict load loop reaches a good last file with every earlier file good. */
  lemma StrictLoadFilesLastGood(config: Config, files: seq<TextAsset>)
    requires config.strictMode && files != [] && Good(files[|files| - 1])
    requires LoadFiles(config, files[..|files| - 1]).outcome.Pass?
    requires LoadFiles(config, files[..|files| - 1]).texts
          == LoadFiles(config.(strictMode := false), files[..|files| - 1]).texts
    ensures LoadFiles(config, files).texts == LoadFiles(config.(strictMode := false), files).texts
    ensures LoadFiles(config, files).outcome.Pass?
  {
    var lenient := config.(strictMode := false);
    var init := files[..|files| - 1];
    LenientLoadPasses(lenient, init);
    StrictLoadFile(config, LoadFiles(config, init).texts, files[|files| - 1]);
  }

  /** The strict load loop reaches a bad last file with every earlier file good. */
  lemma StrictLoadFilesLastBad(config: Config, files: seq<TextAsset>)
    requires config.strictMode && files != [] && !Good(files[|files| - 1])
    requires LoadFiles(config, files[..|files| - 1]).outcome.Pass?
    ensures LoadFiles(config, files).texts == LoadFiles(config, files[..|files| - 1]).texts
    ensures LoadFiles(config, files).outcome.Fail?
  {
    StrictLoadFile(config, LoadFiles(config, files[..|files| - 1]).texts, files[|files| - 1]);
  }

  /** The strict load loop reaches the last file with every earlier file good. */
  lemma StrictLoadFilesAfterGood(config: Config, files: seq<TextAsset>)
    requires config.strictMode && files != []
    requires FirstBad(files[..|files| - 1]) == |files| - 1
    requires LoadFiles(config, files[..|files| - 1]).outcome.Pass?
    requires LoadFiles(config, files[..|files| - 1]).texts
          == LoadFiles(config.(strictMode := false), files[..|files| - 1]).texts
    ensures LoadFiles(config, files).texts
         == LoadFiles(config.(strictMode := false), files[..FirstBad(files)]).texts
    ensures LoadFiles(config, files).outcome.Pass? <==> FirstBad(files) == |files|
  {
    if Good(files[|files| - 1]) {
      StrictLoadFilesLastGood(config, files);
      assert FirstBad(files) == |files|;
      assert files[..|files|] == files;
    } else {
      StrictLoadFilesLastBad(config, files);
      assert FirstBad(files) == |files| - 1;
    }
  }

  /** The strict loop keeps exactly what the lenient loop installs from the files before the first bad one. */
  lemma {:induction false} StrictLoadFiles(config: Config, files: seq<TextAsset>)
    requires config.strictMode
    ensures LoadFiles(config, files).texts
         == LoadFiles(config.(strictMode := false), files[..FirstBad(files)]).texts
    ensures LoadFiles(config, files).outcome.Pass? <==> FirstBad(files) == |files|
  {
    if files != [] {
      var init := files[..|files| - 1];
      StrictLoadFiles(config, init);
      if FirstBad(init) < |init| {
        StrictLoadFilesAfterBad(config, files);
      } else {
        assert init[..FirstBad(init)] == init;
        StrictLoadFilesAfterGood(config, files);
      }
    }
  }

  /**
   * Strict loading stops at the first file that fails to parse or is empty:
   * the store holds exactly what lenient loading installs from the files before
   * it, and the load returns normally only if there are files and all are good.
   */
  lemma StrictLoad(config: Config, files: seq<TextAsset>)
    requires config.strictMode
    ensures LoadAll(config, files).texts
         == LoadAll(config.(strictMode := false), files[..FirstBad(files)]).texts
    ensures LoadAll(config, files).outcome.Pass? <==> |files| > 0 && FirstBad(files) == |files|
  {
    StrictLoadFiles(config, files);
  }

  /** Every code the loop installs a table under is normalized. */
  lemma {:induction false} LoadFilesNormalized(config: Config, files: seq<TextAsset>)
    ensures forall lang :: lang in LoadFiles(config, files).texts ==> IsNormalized(lang)
  {
    if files != [] {
      LoadFilesNormalized(config, files[..|files| - 1]);
    }
  }

  /** Loading installs tables under normalized codes only and touches nothing but the store and the log. */
  lemma LoadPreservesValid(config: Config, s: State, files: seq<TextAsset>)
    requires Valid(s)
    ensures Valid(LoadStep(config, s, files).state)
  {
    LoadFilesNormalized(config, files);
  }

  // ---------------------------------------------------------------- lookup

  /** An empty key gives "" and changes nothing. */
  lemma GetEmptyKey(config: Config, s: State)
    ensures GetStep(config, s, "") == Step(s, Success(""))
  {
  }

  /** A non-empty value in the current language is returned as is, and nothing is recorded. */
  lemma GetFound(config: Config, s: State, key: string)
    requires key != "" && Translation(s.allTexts, s.currentLanguage, key) != ""
    ensures GetStep(config, s, key) == Step(s, Success(Translation(s.allTexts, s.currentLanguage, key)))
  {
  }

  /**
   * A miss in the current language with a non-empty default value: the id
   * `lang:key` is recorded; the first time it is warned about (and in strict
   * mode thrown), otherwise the default value is returned.
   */
  lemma GetFallback(config: Config, s: State, key: string)
    requires key != "" && Translation(s.allTexts, s.currentLanguage, key) == ""
    requires Translation(s.allTexts, s.defaultLanguage, key) != ""
    ensures var id := MissingId(s.currentLanguage, key);
            var message := MissingKey(key, s.currentLanguage, true);
            var g := GetStep(config, s, key);
            && g.state == s.(missingKeys := s.missingKeys + {id}, log := g.state.log)
            && g.state.log == s.log + (if id in s.missingKeys then [] else LogWarning(config, message))
            && g.result == if config.strictMode && id !in s.missingKeys then Failure(message)
                           else Success(Translation(s.allTexts, s.defaultLanguage, key))
  {
  }

  /** A miss in both languages: as above, but the result is the formatted placeholder. */
  lemma GetPlaceholder(config: Config, s: State, key: string)
    requires key != "" && Translation(s.allTexts, s.currentLanguage, key) == ""
    requires Translation(s.allTexts, s.defaultLanguage, key) == ""
    ensures var id := MissingId(s.currentLanguage, key);
            var message := MissingKey(key, s.currentLanguage, false);
            var g := GetStep(config, s, key);
            && g.state == s.(missingKeys := s.missingKeys + {id}, log := g.state.log)
            && g.state.log == s.log + (if id in s.missingKeys then [] else LogWarning(config, message))
            && g.result == if config.strictMode && id !in s.missingKeys then Failure(message)
                           else Success(Format(config.missingKeyFormat, key))
  {
  }

  /** With the default format "[{0}]", a key missing everywhere comes back as "[key]". */
  lemma DefaultPlaceholderForMissingKey(s: State, key: string, level: LocalizationLogLevel)
    requires key != "" && Translation(s.allTexts, s.currentLanguage, key) == ""
    requires Translation(s.allTexts, s.defaultLanguage, key) == ""
    ensures GetStep(Config(DefaultMissingKeyFormat, level, false), s, key).result == Success("[" + key + "]")
  {
    DefaultPlaceholder(key);
  }

  /** The non-empty values of one table. */
  function Usable(table: map<string, string>): (u: map<string, string>)
    ensures forall k :: k in u <==> k in table && table[k] != ""
    ensures forall k :: k in u ==> u[k] == table[k]
  {
    map k | k in table && table[k] != "" :: table[k]
  }

  /** The translations `Get` can see: the default language's, overlaid by the current language's. */
  function Visible(s: State): map<string, string>
  {
    (if s.defaultLanguage in s.allTexts then Usable(s.allTexts[s.defaultLanguage]) else map[])
    + (if s.currentLanguage in s.allTexts then Usable(s.allTexts[s.currentLanguage]) else map[])
  }

  /**
   * Outside strict mode `Get` never throws, and for a non-empty key it returns
   * the visible translation, or the placeholder when there is none.
   */
  lemma GetMatchesVisibleTable(config: Config, s: State, key: string)
    requires !config.strictMode && key != ""
    ensures GetStep(config, s, key).result
         == Success(if key in Visible(s) then Visible(s)[key] else Format(config.missingKeyFormat, key))
  {
  }

  /** Asking again for the same key changes nothing and never throws, even in strict mode. */
  lemma RepeatedGetIsQuiet(config: Config, s: State, key: string)
    ensures var first := GetStep(config, s, key);
            var second := GetStep(config, first.state, key);
            second == Step(first.state, Success(Resolve(config, s, key)))
  {
  }

  /** A call a caller can make between two reloads. */
  datatype Call = GetCall(key: string) | SetLanguageCall(newLang: string)

  /** The state after making each call in turn; a thrown miss or unknown language is caught and the run goes on. */
  function Run(config: Config, s: State, calls: seq<Call>): State
  {
    if calls == [] then s
    else
      var t := Run(config, s, calls[..|calls| - 1]);
      match calls[|calls| - 1]
      case GetCall(key) => GetStep(config, t, key).state
      case SetLanguageCall(newLang) => SetLanguageStep(config, t, newLang).state
  }

  /** How many missing-key warnings for id `id` a stretch of console output holds. */
  function Reports(log: seq<Diagnostic>, id: string): nat
  {
    if log == [] then 0
    else
      var d := log[|log| - 1];
      Reports(log[..|log| - 1], id)
      + if d.channel == Warning && d.message.MissingKey? && MissingId(d.message.lang, d.message.key) == id then 1 else 0
  }

  lemma {:induction false} ReportsAppend(a: seq<Diagnostic>, b: seq<Diagnostic>, id: string)
    ensures Reports(a + b, id) == Reports(a, id) + Reports(b, id)
  {
    if b == [] {
      assert a + b == a;
    } else {
      assert (a + b)[..|a + b| - 1] == a + b[..|b| - 1];
      assert (a + b)[|a + b| - 1] == b[|b| - 1];
      ReportsAppend(a, b[..|b| - 1], id);
    }
  }

  /**
   * From `s` to `t` the tables and the default language stay, the recorded ids
   * only grow, the earlier console output is kept, and what was added warns about
   * `id` at most once, and only if `id` was recorded on the way.
   */
  predicate WarnsAtMostOnce(s: State, t: State, id: string)
  {
    && t.allTexts == s.allTexts && t.defaultLanguage == s.defaultLanguage
    && s.missingKeys <= t.missingKeys
    && |s.log| <= |t.log| && t.log[..|s.log|] == s.log
    && Reports(t.log[|s.log|..], id) <= if id in t.missingKeys && id !in s.missingKeys then 1 else 0
  }

  /** One `Get` adds at most one warning, and only for the id it newly records. */
  lemma GetReports(config: Config, t: State, key: string, id: string)
    ensures var u := GetStep(config, t, key).state;
            && u == t.(missingKeys := u.missingKeys, log := u.log)
            && WarnsAtMostOnce(t, u, id)
  {
    var u := GetStep(config, t, key).state;
    var added := u.log[|t.log|..];
    if added != [] {
      var missId := MissingId(t.currentLanguage, key);
      assert |added| == 1 && added[..0] == [];
      assert missId !in t.missingKeys && missId in u.missingKeys;
      assert added[0].message.lang == t.currentLanguage && added[0].message.key == key;
    }
  }

  /**
   * One `SetLanguage` keeps the recorded ids exactly (a miss recorded under one
   * language stays recorded when the caller switches away and back) and adds no
   * missing-key warning.
   */
  lemma SetLanguageReports(config: Config, t: State, newLang: string, id: string)
    ensures var u := SetLanguageStep(config, t, newLang).state;
            && u.missingKeys == t.missingKeys
            && WarnsAtMostOnce(t, u, id)
            && Reports(u.log[|t.log|..], id) == 0
  {
    var u := SetLanguageStep(config, t, newLang).state;
    var added := u.log[|t.log|..];
    if added != [] {
      assert |added| == 1 && added[..0] == [];
      assert !added[0].message.MissingKey?;
    }
  }

  /** Two stretches that each warn at most once per newly recorded id compose. */
  lemma ReportsCompose(s: State, t: State, u: State, id: string)
    requires WarnsAtMostOnce(s, t, id) && WarnsAtMostOnce(t, u, id)
    ensures WarnsAtMostOnce(s, u, id)
  {
    assert u.log[|s.log|..] == t.log[|s.log|..] + u.log[|t.log|..];
    ReportsAppend(t.log[|s.log|..], u.log[|t.log|..], id);
  }

  /**
   * Between two reloads every id is warned about at most once, however the caller
   * interleaves `Get` and `SetLanguage`: a run keeps the earlier output and the
   * recorded ids, adds no warning for an id that was already recorded, and at most
   * one for an id it records. Switching from "FR" to "EN" and back does not make
   * a miss recorded under "FR" warn again.
   */
  lemma {:induction false} ReportedAtMostOnce(config: Config, s: State, calls: seq<Call>, id: string)
    ensures WarnsAtMostOnce(s, Run(config, s, calls), id)
  {
    if calls != [] {
      var init := calls[..|calls| - 1];
      ReportedAtMostOnce(config, s, init, id);
      var t := Run(config, s, init);
      match calls[|calls| - 1]
      case GetCall(key) =>
        GetReports(config, t, key, id);
        ReportsCompose(s, t, GetStep(config, t, key).state, id);
      case SetLanguageCall(newLang) =>
        SetLanguageReports(config, t, newLang, id);
        ReportsCompose(s, t, SetLanguageStep(config, t, newLang).state, id);
    } else {
      assert s.log[|s.log|..] == [];
    }
  }

  /**
   * An id recorded before a run is never warned about during it: with "FR:title"
   * recorded, switching to "EN", back to "FR" and asking for "title" stays quiet.
   */
  lemma RecordedStaysQuiet(config: Config, s: State, calls: seq<Call>, id: string)
    requires id in s.missingKeys
    ensures var t := Run(config, s, calls);
            id in t.missingKeys && |s.log| <= |t.log| && Reports(t.log[|s.log|..], id) == 0
  {
    ReportedAtMostOnce(config, s, calls, id);
  }

  // ---------------------------------------------------------------- switching

  /** A code that normalizes to the current language: nothing happens, no notification. */
  lemma SetLanguageSame(config: Config, s: State, newLang: string)
    requires NormalizeLanguage(newLang) == s.currentLanguage
    ensures SetLanguageStep(config, s, newLang) == Step(s, Pass)
  {
  }

  /** A code with no table: the language stays, no notification; a warning, and in strict mode a throw. */
  lemma SetLanguageUnknown(config: Config, s: State, newLang: string)
    requires NormalizeLanguage(newLang) != s.currentLanguage
    requires NormalizeLanguage(newLang) !in s.allTexts
    ensures var lang := NormalizeLanguage(newLang);
            (SetLanguageStep(config, s, newLang)
             == Step(s.(log := s.log + LogWarning(config, UnknownLanguage(lang))),
                     if config.strictMode then Fail(UnknownLanguage(lang)) else Pass))
  {
  }

  /** A different code with a table: it becomes current and exactly one notification fires. */
  lemma SetLanguageSwitch(config: Config, s: State, newLang: string)
    requires NormalizeLanguage(newLang) != s.currentLanguage
    requires NormalizeLanguage(newLang) in s.allTexts
    ensures SetLanguageStep(config, s, newLang)
         == Step(s.(currentLanguage := NormalizeLanguage(newLang), notifications := s.notifications + 1), Pass)
  {
  }

  /** On a valid state, asking for the current language again changes nothing and notifies no one. */
  lemma SetLanguageCurrentIsNoOp(config: Config, s: State)
    requires Valid(s)
    ensures SetLanguageStep(config, s, s.currentLanguage) == Step(s, Pass)
  {
    NormalizedIsFixpoint(s.currentLanguage);
  }

  /** Switching depends only on the normalized code: " fr " and "FR" act alike. */
  lemma SetLanguageIgnoresSpellings(config: Config, s: State, newLang: string)
    ensures SetLanguageStep(config, s, newLang) == SetLanguageStep(config, s, NormalizeLanguage(newLang))
  {
    NormalizeIdempotent(newLang);
  }

  /** After a switch the current language is always one with a table, and the invariant holds. */
  lemma SetLanguagePreservesValid(config: Config, s: State, newLang: string)
    requires Valid(s)
    ensures Valid(SetLanguageStep(config, s, newLang).state)
    ensures var t := SetLanguageStep(config, s, newLang).state;
            t.currentLanguage != s.currentLanguage ==> t.currentLanguage in t.allTexts
  {
  }

  // ---------------------------------------------------------------- reloading

  /**
   * `Reload` forgets every reported miss, rebuilds the store from the files
   * alone (whatever it held before), keeps both language codes, and fires one
   * notification unless the load threw.
   */
  lemma ReloadFacts(config: Config, s: State, files: seq<TextAsset>)
    ensures var r := ReloadStep(config, s, files);
            var l := LoadAll(config, files);
            && r.state == State(s.currentLanguage, s.defaultLanguage, l.texts, {},
                                s.notifications + (if l.outcome.Pass? then 1 else 0),
                                s.log + Log(config, Reloading, Verbose) + l.log)
            && r.result == l.outcome
  {
  }

  /** Outside strict mode a reload always returns normally and notifies exactly once. */
  lemma ReloadNonStrict(config: Config, s: State, files: seq<TextAsset>)
    requires !config.strictMode
    ensures ReloadStep(config, s, files).result == Pass
    ensures ReloadStep(config, s, files).state.notifications == s.notifications + 1
    ensures ReloadStep(config, s, files).state.missingKeys == {}
  {
    LenientLoadPasses(config, files);
  }

  /** After a reload a miss is warned about again, even if it had been reported before. */
  lemma MissReportedAgainAfterReload(config: Config, s: State, files: seq<TextAsset>, key: string)
    requires Rank(config.logLevel) >= Rank(Warnings)
    requires var r := ReloadStep(config, s, files).state;
             key != "" && Translation(r.allTexts, r.currentLanguage, key) == ""
    ensures var r := ReloadStep(config, s, files).state;
            var g := GetStep(config, r, key).state;
            Reports(g.log[|r.log|..], MissingId(r.currentLanguage, key)) == 1
  {
    var r := ReloadStep(config, s, files).state;
    var g := GetStep(config, r, key).state;
    var d := g.log[|r.log|..];
    assert |d| == 1 && d[..0] == [];
  }

  /** A reload keeps both codes and installs tables under normalized codes only. */
  lemma ReloadPreservesValid(config: Config, s: State, files: seq<TextAsset>)
    requires Valid(s)
    ensures Valid(ReloadStep(config, s, files).state)
  {
    LoadFilesNormalized(config, files);
  }

  // ---------------------------------------------------------------- examples

  /** The store of the worked example: EN = {hello: Hello, bye: Bye}, FR = {hello: Bonjour}. */
  function ExampleState(): State
  {
    State("FR", "EN", map["EN" := map["hello" := "Hello", "bye" := "Bye"], "FR" := map["hello" := "Bonjour"]],
          {}, 0, [])
  }

  /**
   * With default EN and current FR, "hello" is found in FR, "bye" falls back to
   * EN with one warning for FR:bye, and "nope" gives "[nope]".
   */
  lemma FallbackExample()
    ensures var config := Config(DefaultMissingKeyFormat, Warnings, false);
            var s := ExampleState();
            && GetStep(config, s, "hello") == Step(s, Success("Bonjour"))
            && GetStep(config, s, "bye")
               == Step(s.(missingKeys := {"FR:bye"}, log := [Diagnostic(Warning, MissingKey("bye", "FR", true))]),
                       Success("Bye"))
            && GetStep(config, s, "nope").result == Success("[nope]")
  {
    var s := ExampleState();
    assert Translation(s.allTexts, "FR", "hello") == "Bonjour";
    assert Translation(s.allTexts, "FR", "bye") == "" && Translation(s.allTexts, "EN", "bye") == "Bye";
    assert Translation(s.allTexts, "FR", "nope") == "" && Translation(s.allTexts, "EN", "nope") == "";
    assert MissingId("FR", "bye") == "FR:bye";
    DefaultPlaceholder("nope");
    assert "[" + "nope" + "]" == "[nope]";
    var config := Config(DefaultMissingKeyFormat, Warnings, false);
    assert GetStep(config, s, "hello") == Step(s, Success("Bonjour"));
    assert GetStep(config, s, "bye").result == Success("Bye");
    assert GetStep(config, s, "bye").state.log == [Diagnostic(Warning, MissingKey("bye", "FR", true))];
    assert GetStep(config, s, "nope").result == Success("[nope]");
  }

  /** In the same example, switching to the unloaded "de" keeps FR and notifies no one. */
  lemma UnknownLanguageExample()
    ensures var config := Config(DefaultMissingKeyFormat, Warnings, false);
            var t := SetLanguageStep(config, ExampleState(), "de");
            && t.state.currentLanguage == "FR"
            && t.state.notifications == 0
            && t.state.log == [Diagnostic(Warning, UnknownLanguage("DE"))]
  {
    var de := "de";
    assert !IsWhiteSpace(de[0]) && !IsWhiteSpace(de[1]);
    assert Trim(de) == de;
    assert ToUpperInvariant(de) == "DE";
    assert NormalizeLanguage("de") == "DE";
    var s := ExampleState();
    assert "DE" !in s.allTexts;
  }

  /**
   * Ids are plain strings, so two different (language, key) pairs can share one:
   * once key "A:b" was missed under "EN", a miss of key "b" under "EN:A" is never
   * warned about, and does not throw even in strict mode.
   */
  lemma MissingIdsCanCollide(config: Config, s: State)
    requires s.currentLanguage == "EN:A"
    requires MissingId("EN", "A:b") in s.missingKeys
    requires Translation(s.allTexts, "EN:A", "b") == ""
    ensures MissingId("EN", "A:b") == MissingId("EN:A", "b")
    ensures GetStep(config, s, "b") == Step(s, Success(Resolve(config, s, "b")))
  {
    assert MissingId("EN", "A:b") == MissingId("EN:A", "b");
  }
}
