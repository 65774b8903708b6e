/**
 * The localization manager as a pure state machine: its fields as a `State`,
 * its serialized settings as a `Config`, and one step function per public
 * operation. The class in module `Manager` is proved to follow these steps.
 */
module LocalizationModel {
  import opened Wrappers
  import opened Strings
  import opened Tables

  /** `LocalizationLogLevel`, in increasing verbosity. */
  datatype LocalizationLogLevel = None | ErrorsOnly | Warnings | Verbose

  function Rank(level: LocalizationLogLevel): nat
  {
    match level
    case None => 0
    case ErrorsOnly => 1
    case Warnings => 2
    case Verbose => 3
  }

  /** The conditions the manager reports; a strict-mode exception carries one too. */
  datatype Message =
    | NoFilesFound
    | ParseFailed(fileName: string)
    | LanguageEmpty(lang: string)
    | LanguageLoaded(lang: string, count: nat)
    | LanguagesLoaded(count: nat)
    | MissingKey(key: string, lang: string, fallback: bool)
    | UnknownLanguage(lang: string)
    | Reloading

  /** Which Unity console channel a line went to. */
  datatype Channel = Info | Warning | Error

  datatype Diagnostic = Diagnostic(channel: Channel, message: Message)

  /** The serialized settings that no operation changes. */
  datatype Config = Config(missingKeyFormat: string, logLevel: LocalizationLogLevel, strictMode: bool)

  /** A language file found under the localization resources, with what the JSON decoder made of it. */
  datatype TextAsset = TextAsset(name: string, parsed: Nullable<LocalizationData>)

  type Store = map<string, map<string, string>>

  /**
   * The manager's changing fields: the two language codes, the table store,
   * the ids already reported missing, how many times `OnLanguageChanged`
   * fired, and the console output so far.
   */
  datatype State = State(
    currentLanguage: string,
    defaultLanguage: string,
    allTexts: Store,
    missingKeys: set<string>,
    notifications: nat,
    log: seq<Diagnostic>)

  /** An operation's new state together with what it returned or threw. */
  datatype Step<+T> = Step(state: State, result: T)

  /** `Log(message, level)`: one info line when the log level admits `level`. */
  function Log(config: Config, message: Message, level: LocalizationLogLevel): (r: seq<Diagnostic>)
    ensures r == [] || r == [Diagnostic(Info, message)]
    ensures r != [] <==> || level == None || config.logLevel == Verbose || config.logLevel == level
                         || (config.logLevel == Warnings && level == ErrorsOnly)
  {
    if Rank(config.logLevel) < Rank(level) then [] else [Diagnostic(Info, message)]
  }

  /** `LogWarning(message)`: one warning line from level `Warnings` up. */
  function LogWarning(config: Config, message: Message): (r: seq<Diagnostic>)
    ensures r == [] || r == [Diagnostic(Warning, message)]
    ensures r != [] <==> config.logLevel in {Warnings, Verbose}
  {
    if Rank(config.logLevel) < Rank(Warnings) then [] else [Diagnostic(Warning, message)]
  }

  /** `LogError(message)`: one error line from level `ErrorsOnly` up. */
  function LogError(config: Config, message: Message): (r: seq<Diagnostic>)
    ensures r == [] || r == [Diagnostic(Error, message)]
    ensures r != [] <==> config.logLevel != None
  {
    if Rank(config.logLevel) < Rank(ErrorsOnly) then [] else [Diagnostic(Error, message)]
  }

  /**
   * `NormalizeLanguage`: "" for a null or empty code, otherwise the trimmed,
   * upper-cased code.
   */
  function NormalizeLanguage(lang: string): (r: string)
    ensures lang == "" ==> r == ""
    ensures |r| <= |lang|
    ensures r == "" <==> forall i :: 0 <= i < |lang| ==> IsWhiteSpace(lang[i])
    ensures IsNormalized(r)
  {
    if lang == "" then ""
    else
      var t := Trim(lang);
      var r := ToUpperInvariant(t);
      assert r != [] ==> r[0] == UpperChar(t[0]) && r[|r| - 1] == UpperChar(t[|t| - 1]);
      r
  }

  /** A code with no white space at either end and no lower-case letter. */
  predicate IsNormalized(lang: string)
  {
    && (lang == [] || (!IsWhiteSpace(lang[0]) && !IsWhiteSpace(lang[|lang| - 1])))
    && forall i :: 0 <= i < |lang| ==> !IsLowerAscii(lang[i])
  }

  /** The state a freshly awoken manager starts from (its codes normalized, nothing loaded). */
  function InitialState(currentLanguage: string, defaultLanguage: string): State
  {
    State(NormalizeLanguage(currentLanguage), NormalizeLanguage(defaultLanguage), map[], {}, 0, [])
  }

  /** The invariant every operation keeps: every language code the manager holds is normalized. */
  predicate Valid(s: State)
  {
    && IsNormalized(s.currentLanguage)
    && IsNormalized(s.defaultLanguage)
    && forall lang :: lang in s.allTexts ==> IsNormalized(lang)
  }

  // ---------------------------------------------------------------- loading

  /** Where a load stands: the tables installed so far, the lines logged, and whether it threw. */
  datatype LoadProgress = LoadProgress(texts: Store, log: seq<Diagnostic>, outcome: Outcome<Message>)

  /** The decoder produced data whose `entries` array is present. */
  predicate Parsed(file: TextAsset)
  {
    file.parsed.NonNull? && file.parsed.value.entries.NonNull?
  }

  function TableOf(file: TextAsset): map<string, string>
    requires Parsed(file)
  {
    Table(file.parsed.value.entries.value)
  }

  /** One pass of the load loop's body for `file`, on top of the tables `texts`. */
  function LoadFile(config: Config, texts: Store, file: TextAsset): LoadProgress
  {
    var lang := NormalizeLanguage(file.name);
    if !Parsed(file) then
      LoadProgress(texts, LogError(config, ParseFailed(file.name)),
                   if config.strictMode then Fail(ParseFailed(file.name)) else Pass)
    else
      InstallTable(config, texts, lang, TableOf(file))
  }

  /** The rest of the loop body once `lang`'s file has decoded to `dict`: the empty check, then installation. */
  function InstallTable(config: Config, texts: Store, lang: string, dict: map<string, string>): LoadProgress
  {
    var warned := if |dict| == 0 then LogWarning(config, LanguageEmpty(lang)) else [];
    if |dict| == 0 && config.strictMode then
      LoadProgress(texts, warned, Fail(LanguageEmpty(lang)))
    else
      LoadProgress(texts[lang := dict], warned + Log(config, LanguageLoaded(lang, |dict|), Verbose), Pass)
  }

  /** The load loop over `files` in order, from an empty store, stopping at the first throw. */
  function LoadFiles(config: Config, files: seq<TextAsset>): LoadProgress
  {
    if files == [] then LoadProgress(map[], [], Pass)
    else
      var prior := LoadFiles(config, files[..|files| - 1]);
      if prior.outcome.Fail? then prior
      else
        var last := LoadFile(config, prior.texts, files[|files| - 1]);
        LoadProgress(last.texts, prior.log + last.log, last.outcome)
  }

  /** `LoadAllLanguages`: clear the store, warn (or throw) when there are no files, run the loop. */
  function LoadAll(config: Config, files: seq<TextAsset>): LoadProgress
  {
    var header := if |files| == 0 then LogWarning(config, NoFilesFound) else [];
    if |files| == 0 && config.strictMode then
      LoadProgress(map[], header, Fail(NoFilesFound))
    else
      var body := LoadFiles(config, files);
      if body.outcome.Fail? then LoadProgress(body.texts, header + body.log, body.outcome)
      else LoadProgress(body.texts, header + body.log + Log(config, LanguagesLoaded(|body.texts|), Verbose), Pass)
  }

  /** The manager's state after `LoadAllLanguages`: the store replaced, the lines appended. */
  function LoadStep(config: Config, s: State, files: seq<TextAsset>): Step<Outcome<Message>>
  {
    var r := LoadAll(config, files);
    Step(s.(allTexts := r.texts, log := s.log + r.log), r.outcome)
  }

  // ---------------------------------------------------------------- lookup

  /** The value stored for `key` in language `lang`; a missing table or key reads as "". */
  function Translation(texts: Store, lang: string, key: string): string
  {
    if lang in texts && key in texts[lang] then texts[lang][key] else ""
  }

  /** The id under which a miss is remembered. */
  function MissingId(lang: string, key: string): string
  {
    lang + ":" + key
  }

  /** The string `Get` hands back when nothing throws: current, then default, then the placeholder. */
  function Resolve(config: Config, s: State, key: string): string
  {
    if key == "" then ""
    else if Translation(s.allTexts, s.currentLanguage, key) != "" then Translation(s.allTexts, s.currentLanguage, key)
    else if Translation(s.allTexts, s.defaultLanguage, key) != "" then Translation(s.allTexts, s.defaultLanguage, key)
    else Format(config.missingKeyFormat, key)
  }

  /** `LogMissingKey`: the first miss of an id records it, warns, and throws in strict mode. */
  function LogMissingKeyStep(config: Config, s: State, key: string, lang: string, fallback: bool): Step<Outcome<Message>>
  {
    var id := MissingId(lang, key);
    if id in s.missingKeys then Step(s, Pass)
    else
      var message := MissingKey(key, lang, fallback);
      Step(s.(missingKeys := s.missingKeys + {id}, log := s.log + LogWarning(config, message)),
           if config.strictMode then Fail(message) else Pass)
  }

  /** `Get(key)`. */
  function GetStep(config: Config, s: State, key: string): Step<Result<string, Message>>
  {
    if key == "" || Translation(s.allTexts, s.currentLanguage, key) != "" then
      Step(s, Success(Resolve(config, s, key)))
    else
      var fallback := Translation(s.allTexts, s.defaultLanguage, key) != "";
      var logged := LogMissingKeyStep(config, s, key, s.currentLanguage, fallback);
      Step(logged.state,
           if logged.result.Fail? then Failure(logged.result.error) else Success(Resolve(config, s, key)))
  }

  // ---------------------------------------------------------------- switching and reloading

  /** `SetLanguage(newLang)`. */
  function SetLanguageStep(config: Config, s: State, newLang: string): Step<Outcome<Message>>
  {
    var lang := NormalizeLanguage(newLang);
    if s.currentLanguage == lang then Step(s, Pass)
    else if lang !in s.allTexts then
      Step(s.(log := s.log + LogWarning(config, UnknownLanguage(lang))),
           if config.strictMode then Fail(UnknownLanguage(lang)) else Pass)
    else Step(s.(currentLanguage := lang, notifications := s.notifications + 1), Pass)
  }

  /** `Reload()`: forget reported misses, reload every file, then notify. */
  function ReloadStep(config: Config, s: State, files: seq<TextAsset>): Step<Outcome<Message>>
  {
    var cleared := s.(missingKeys := {}, log := s.log + Log(config, Reloading, Verbose));
    var loaded := LoadStep(config, cleared, files);
    if loaded.result.Fail? then loaded
    else Step(loaded.state.(notifications := loaded.state.notifications + 1), Pass)
  }
}
