/**
 * The `LocalizationManager` component itself: its fields are updated in place
 * by each public operation, and each method is proved to take exactly the
 * step the pure model prescribes.
 */
module Manager {
  import opened Wrappers
  import opened Strings
  import opened Tables
  import opened LocalizationModel
  import opened LocalizationProperties

  class LocalizationManager {
    var CurrentLanguage: string
    var DefaultLanguage: string
    const missingKeyFormat: string
    const logLevel: LocalizationLogLevel
    const strictMode: bool

    /** Normalized language code to key to value. */
    var allTexts: Store
    /** The `lang:key` ids already reported missing. */
    var missingKeys: set<string>
    /** How many times `OnLanguageChanged` has been raised. */
    var notifications: nat
    /** Everything written to the Unity console. */
    var log: seq<Diagnostic>

    function Settings(): Config
    {
      Config(missingKeyFormat, logLevel, strictMode)
    }

    function Model(): State
      reads this
    {
      State(CurrentLanguage, DefaultLanguage, allTexts, missingKeys, notifications, log)
    }

    ghost predicate Valid()
      reads this
    {
      LocalizationModel.Valid(Model())
    }

    /** The serialized fields as set in the inspector, then the two codes normalized as `Awake` does. */
    constructor (currentLanguage: string, defaultLanguage: string,
                 missingKeyFormat: string, logLevel: LocalizationLogLevel, strictMode: bool)
      ensures Valid()
      ensures Model() == InitialState(currentLanguage, defaultLanguage)
      ensures Settings() == Config(missingKeyFormat, logLevel, strictMode)
    {
      this.missingKeyFormat := missingKeyFormat;
      this.logLevel := logLevel;
      this.strictMode := strictMode;
      CurrentLanguage := NormalizeLanguage(currentLanguage);
      DefaultLanguage := NormalizeLanguage(defaultLanguage);
      allTexts := map[];
      missingKeys := {};
      notifications := 0;
      log := [];
      InitialStateValid(currentLanguage, defaultLanguage);
    }

    /** Clears the store and installs one table per language file that parses. */
    method LoadAllLanguages(files: seq<TextAsset>) returns (outcome: Outcome<Message>)
      requires Valid()
      modifies this`allTexts, this`log
      ensures Valid()
      ensures Model() == LoadStep(Settings(), old(Model()), files).state
      ensures outcome == LoadStep(Settings(), old(Model()), files).result
    {
      LoadPreservesValid(Settings(), Model(), files);
      allTexts := map[];
      var header := if |files| == 0 then LogWarning(Settings(), NoFilesFound) else [];
      log := log + header;
      if |files| == 0 && strictMode {
        return Fail(NoFilesFound);
      }
      ghost var start := log;
      outcome := LoadFiles(files);
      ghost var body := LocalizationModel.LoadFiles(Settings(), files);
      AppendAssociative(old(log), header, body.log);
      if outcome.Fail? {
        return;
      }
      var total := Log(Settings(), LanguagesLoaded(|allTexts|), Verbose);
      log := log + total;
      AppendAssociative(old(log), header + body.log, total);
    }

    /** The loop of `LoadAllLanguages` over the files, starting from an empty store. */
    method LoadFiles(files: seq<TextAsset>) returns (outcome: Outcome<Message>)
      requires allTexts == map[]
      modifies this`allTexts, this`log
      ensures allTexts == LocalizationModel.LoadFiles(Settings(), files).texts
      ensures log == old(log) + LocalizationModel.LoadFiles(Settings(), files).log
      ensures outcome == LocalizationModel.LoadFiles(Settings(), files).outcome
    {
      ghost var config := Settings();
      ghost var progress := LocalizationModel.LoadFiles(config, files[..0]);
      var i := 0;
      while i < |files|
        invariant 0 <= i <= |files|
        invariant progress == LocalizationModel.LoadFiles(config, files[..i])
        invariant progress.outcome == Pass
        invariant allTexts == progress.texts
        invariant log == old(log) + progress.log
      {
        LoadFilesNext(config, files, i);
        ghost var step := LocalizationModel.LoadFile(config, progress.texts, files[i]);
        var installed := LoadFile(files[i]);
        AppendAssociative(old(log), progress.log, step.log);
        progress := LoadProgress(step.texts, progress.log + step.log, step.outcome);
        if installed.Fail? {
          LoadFilesStopsAtFailure(config, files, i + 1);
          return installed;
        }
        i := i + 1;
      }
      assert files[..i] == files;
      return Pass;
    }

    /** One turn of the load loop: parse check, table building, empty check, installation. */
    method LoadFile(file: TextAsset) returns (outcome: Outcome<Message>)
      modifies this`allTexts, this`log
      ensures allTexts == LocalizationModel.LoadFile(Settings(), old(allTexts), file).texts
      ensures log == old(log) + LocalizationModel.LoadFile(Settings(), old(allTexts), file).log
      ensures outcome == LocalizationModel.LoadFile(Settings(), old(allTexts), file).outcome
    {
      var lang := NormalizeLanguage(file.name);
      var data := file.parsed;
      if data.Null? || data.value.entries.Null? {
        log := log + LogError(Settings(), ParseFailed(file.name));
        if strictMode {
          return Fail(ParseFailed(file.name));
        }
        return Pass;
      }
      var dict := ToDictionary(data.value);
      assert dict == TableOf(file);
      outcome := InstallTable(lang, dict);
    }

    /** The empty-table check and the installation of `dict` as the table of `lang`. */
    method InstallTable(lang: string, dict: map<string, string>) returns (outcome: Outcome<Message>)
      modifies this`allTexts, this`log
      ensures allTexts == LocalizationModel.InstallTable(Settings(), old(allTexts), lang, dict).texts
      ensures log == old(log) + LocalizationModel.InstallTable(Settings(), old(allTexts), lang, dict).log
      ensures outcome == LocalizationModel.InstallTable(Settings(), old(allTexts), lang, dict).outcome
    {
      var warned := [];
      if |dict| == 0 {
        warned := LogWarning(Settings(), LanguageEmpty(lang));
        log := log + warned;
        if strictMode {
          return Fail(LanguageEmpty(lang));
        }
      }
      allTexts := allTexts[lang := dict];
      var loaded := Log(Settings(), LanguageLoaded(lang, |dict|), Verbose);
      log := log + loaded;
      AppendAssociative(old(log), warned, loaded);
      return Pass;
    }

    /** The translation of `key`: current language, then default language, then the placeholder. */
    method Get(key: string) returns (r: Result<string, Message>)
      requires Valid()
      modifies this`missingKeys, this`log
      ensures Valid()
      ensures Model() == GetStep(Settings(), old(Model()), key).state
      ensures r == GetStep(Settings(), old(Model()), key).result
    {
      if key == "" {
        return Success("");
      }
      if CurrentLanguage in allTexts && key in allTexts[CurrentLanguage] && allTexts[CurrentLanguage][key] != "" {
        return Success(allTexts[CurrentLanguage][key]);
      }
      if DefaultLanguage in allTexts && key in allTexts[DefaultLanguage] && allTexts[DefaultLanguage][key] != "" {
        var fallbackValue := allTexts[DefaultLanguage][key];
        var logged := LogMissingKey(key, CurrentLanguage, true);
        if logged.Fail? {
          return Failure(logged.error);
        }
        return Success(fallbackValue);
      }
      var logged := LogMissingKey(key, CurrentLanguage, false);
      if logged.Fail? {
        return Failure(logged.error);
      }
      return Success(Format(missingKeyFormat, key));
    }

    /** Switches to `newLang` when it names another loaded language, and then notifies. */
    method SetLanguage(newLang: string) returns (outcome: Outcome<Message>)
      requires Valid()
      modifies this`CurrentLanguage, this`notifications, this`log
      ensures Valid()
      ensures Model() == SetLanguageStep(Settings(), old(Model()), newLang).state
      ensures outcome == SetLanguageStep(Settings(), old(Model()), newLang).result
    {
      SetLanguagePreservesValid(Settings(), Model(), newLang);
      ghost var step := SetLanguageStep(Settings(), Model(), newLang);
      var lang := NormalizeLanguage(newLang);
      if CurrentLanguage == lang {
        return Pass;
      }
      if lang !in allTexts {
        log := log + LogWarning(Settings(), UnknownLanguage(lang));
        if strictMode {
          return Fail(UnknownLanguage(lang));
        }
        return Pass;
      }
      CurrentLanguage := lang;
      notifications := notifications + 1;
      assert Model() == step.state;
      return Pass;
    }

    /** Forgets reported misses, reloads every file and notifies. */
    method Reload(files: seq<TextAsset>) returns (outcome: Outcome<Message>)
      requires Valid()
      modifies this`missingKeys, this`log, this`allTexts, this`notifications
      ensures Valid()
      ensures Model() == ReloadStep(Settings(), old(Model()), files).state
      ensures outcome == ReloadStep(Settings(), old(Model()), files).result
    {
      missingKeys := {};
      log := log + Log(Settings(), Reloading, Verbose);
      outcome := LoadAllLanguages(files);
      if outcome.Fail? {
        return;
      }
      notifications := notifications + 1;
    }

    /** Records the miss of `lang:key` the first time, warns, and throws in strict mode. */
    method LogMissingKey(key: string, lang: string, fallback: bool) returns (outcome: Outcome<Message>)
      requires Valid()
      modifies this`missingKeys, this`log
      ensures Valid()
      ensures Model() == LogMissingKeyStep(Settings(), old(Model()), key, lang, fallback).state
      ensures outcome == LogMissingKeyStep(Settings(), old(Model()), key, lang, fallback).result
    {
      var id := lang + ":" + key;
      if id in missingKeys {
        return Pass;
      }
      missingKeys := missingKeys + {id};
      var message := MissingKey(key, lang, fallback);
      log := log + LogWarning(Settings(), message);
      if strictMode {
        return Fail(message);
      }
      return Pass;
    }
  }
}
