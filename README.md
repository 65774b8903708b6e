# UnityLiteL10n LocalizationManager in Dafny

UnityLiteL10n is a small localization component for Unity. At start-up, and
again on every reload, it reads one JSON file per language. Each file holds an
array of `{ key, value }` entries, and the file name is the language code. It
builds one key-to-value table per language, keyed by a normalized code: trimmed
and upper-cased. Afterwards:

- `Get(key)` returns the translation in the current language. It falls back to
  the default language, and then to a placeholder built from a format
  (`"[{0}]"` by default).
- `SetLanguage` switches the current language.
- `Reload` rebuilds everything.

Every miss is recorded under the id `lang:key` and warned about once until the
next reload. Console output is filtered by a log level. In strict mode each
reported problem also throws, after its warning or error is logged; a miss
already recorded is not reported again and does not throw.

The project has six modules:

- `Wrappers` (`wrappers.dfy`): `Nullable`, `Result` and `Outcome`.
- `Strings` (`strings.dfy`): the string operations used:
  - `Trim`, with the .NET white-space set;
  - `ToUpperInvariant`;
  - `string.Format` with a single `{0}` argument.
- `Tables` (`tables.dfy`): `LocalizationEntry` and `LocalizationData`, and
  `ToDictionary` as a loop proved equal to the fold `Table`.
- `LocalizationModel` (`model.dfy`): the manager's state as a value, and one
  step function per operation. The step function gives the new state and the
  result or the strict-mode throw.
- `LocalizationProperties` (`properties.dfy`): what the component promises,
  proved about the step functions.
- `Manager` (`manager.dfy`): the `LocalizationManager` class. Its fields are
  updated in place, and each method is proved to take exactly the step of
  `LocalizationModel`. The constructor establishes, and each public method
  keeps, the invariant `Valid`: every language code in the state is
  normalized. The loop helpers `LoadFiles`, `LoadFile` and `InstallTable` are
  specified by their steps alone.

The model represents the environment as follows:

- A throw is a `Fail`/`Failure` carrying the condition. State changes made
  before the throw are kept, as in the code.
- The Unity console is a sequence of `Diagnostic`s, each with its channel (log,
  warning, error).
- The `OnLanguageChanged` event is a counter of how often it was raised.
- The files are an input sequence of `TextAsset`s, each with its name and its
  decoded contents. The contents are `Null` when the decoder returned null; a
  decoded object whose `entries` is null is kept as such.

## Model

| member | source | states |
|---|---|---|
| Tables.ToDictionary | Scripts/LocalizationManager.cs:19-31 | A null `entries` array gives the empty table. Otherwise the loop builds exactly `Table(entries)`: every entry in order, empty keys skipped, a later entry overwriting an earlier one. |
| Tables.TableLookup | Scripts/LocalizationManager.cs:19-31 | A key is in the table if and only if it is non-empty and some entry carries it. Its value is then the value of the last entry with that key. |
| Tables.TableKeys | Scripts/LocalizationManager.cs:19-31 | The table's keys are exactly the non-empty keys of the entries. |
| Strings.IsWhiteSpace | Scripts/LocalizationManager.cs:175 | The characters `Trim` removes: the .NET white-space set, that is U+0009 to U+000D, U+0020, U+0085, U+00A0, U+1680, U+2000 to U+200A, U+2028, U+2029, U+202F, U+205F and U+3000. |
| Strings.TrimStart | Scripts/LocalizationManager.cs:175 | The result is a suffix of the input. Everything dropped is white space, and the result does not start with white space. |
| Strings.TrimEnd | Scripts/LocalizationManager.cs:175 | The result is a prefix of the input. Everything dropped is white space, and the result does not end with white space. |
| Strings.Trim | Scripts/LocalizationManager.cs:175 | The result is never longer than the input and neither starts nor ends with white space. It is empty exactly when the input is all white space. A string whose ends are not white space is returned unchanged. |
| Strings.TrimKeepsMiddle | Scripts/LocalizationManager.cs:175 | What `Trim` returns is a contiguous middle of the input, character for character, with only white space before it and after it. |
| Strings.ToUpperInvariant | Scripts/LocalizationManager.cs:175 | Keeps the length and maps each character `a`..`z` to `A`..`Z`, leaving every other character as it is. |
| LocalizationProperties.UpperCaseFixpoint | Scripts/LocalizationManager.cs:175 | A string with no lower-case ASCII letter is returned unchanged by upper-casing. |
| LocalizationModel.NormalizeLanguage | Scripts/LocalizationManager.cs:171-176 | An empty code gives "". The result is never longer than the input. It is empty exactly when the input is all white space. It is always normalized: no white space at either end and no lower-case ASCII letter. |
| LocalizationProperties.NormalizeKeepsMiddle | Scripts/LocalizationManager.cs:171-176 | The normalized code is the input's middle upper-cased: some contiguous slice of the input with only white space around it, each character passed through the upper-casing map. |
| LocalizationProperties.NormalizedIsFixpoint | Scripts/LocalizationManager.cs:171-176 | A code that is already normalized is returned unchanged. |
| LocalizationProperties.NormalizeIdempotent | Scripts/LocalizationManager.cs:171-176 | Normalizing twice gives the same result as normalizing once. |
| LocalizationModel.Log | Scripts/LocalizationManager.cs:195-199 | Logs exactly one info line carrying the message, or nothing. It logs when the message's level is `None`, when the level set is `Verbose` or equal to the message's level, or for an `ErrorsOnly` message at level `Warnings`. |
| LocalizationModel.LogWarning | Scripts/LocalizationManager.cs:201-205 | Logs exactly one warning line carrying the message, or nothing. It logs exactly at the levels `Warnings` and `Verbose`. |
| LocalizationModel.LogError | Scripts/LocalizationManager.cs:207-211 | Logs exactly one error line carrying the message, or nothing. It logs at every level except `None`. |
| Manager.LocalizationManager.constructor | Scripts/LocalizationManager.cs:71-72 | Both configured codes are stored normalized. The store, the recorded misses and the console start empty, and the settings are kept as given. |
| LocalizationProperties.InitialStateValid | Scripts/LocalizationManager.cs:71-72 | The state right after the two codes are normalized satisfies the invariant. |
| Manager.LocalizationManager.LoadAllLanguages | Scripts/LocalizationManager.cs:77-118 | Clears the store. With no files it warns, and in strict mode throws. It runs the loop, then logs the number of languages when nothing threw. The new state and the result are exactly `LoadStep`'s, and the invariant is kept. |
| Manager.LocalizationManager.LoadFiles | Scripts/LocalizationManager.cs:90-115 | The loop over the files, from an empty store, leaves exactly the tables, console lines and outcome of the fold `LoadFiles`, stopping at the first throw. |
| Manager.LocalizationManager.LoadFile | Scripts/LocalizationManager.cs:92-114 | One pass of the loop body. A file that did not decode logs an error and throws in strict mode, without installing anything. Otherwise it does what `InstallTable` does with the file's table. |
| Manager.LocalizationManager.InstallTable | Scripts/LocalizationManager.cs:106-114 | An empty table is warned about, and in strict mode throws before installation. Otherwise the table is installed under the code, replacing any earlier one, and a verbose line gives its size. |
| LocalizationProperties.LoadedTables | Scripts/LocalizationManager.cs:77-118 | Outside strict mode, loading never throws, for files the decoder does not reject with an exception. A code has a table if and only if some decoded file normalizes to it, even an empty one. Its table is the one built from the last such file. |
| LocalizationProperties.LoadFilesTables | Scripts/LocalizationManager.cs:90-115 | The same fact for the loop alone: a later file with the same normalized name replaces an earlier one. |
| LocalizationProperties.LastSourceIsLast | Scripts/LocalizationManager.cs:113 | No file after the one `LastSource` picks would install a table under that code. |
| LocalizationProperties.LenientLoadPasses | Scripts/LocalizationManager.cs:96-111 | Outside strict mode, none of the per-file problems throws. |
| LocalizationProperties.StrictLoadFile | Scripts/LocalizationManager.cs:96-114 | In strict mode, a file that decodes to a non-empty table is handled as in lenient mode. Any other file throws and leaves the store as it was. |
| LocalizationProperties.StrictLoadFiles | Scripts/LocalizationManager.cs:90-115 | The strict loop keeps exactly what the lenient loop installs from the files before the first bad file. It returns normally if and only if there is no bad file. |
| LocalizationProperties.StrictLoad | Scripts/LocalizationManager.cs:77-118 | In strict mode the store holds the lenient result for the files before the first undecodable or empty one. The load returns normally if and only if there are files and all of them are good. |
| LocalizationProperties.LoadFilesNormalized | Scripts/LocalizationManager.cs:92-113 | Every code the loop installs a table under is normalized. |
| LocalizationProperties.LoadPreservesValid | Scripts/LocalizationManager.cs:77-118 | Loading keeps the invariant. |
| Manager.LocalizationManager.Get | Scripts/LocalizationManager.cs:120-142 | Tries the current language, then the default, then the placeholder, recording and warning about the miss in between. The new state and the result are exactly `GetStep`'s, and the invariant is kept. |
| LocalizationProperties.GetEmptyKey | Scripts/LocalizationManager.cs:122-123 | An empty key gives "" and changes nothing. |
| LocalizationProperties.GetFound | Scripts/LocalizationManager.cs:125-130 | A non-empty value in the current language is returned, and nothing is recorded or logged. |
| LocalizationProperties.GetFallback | Scripts/LocalizationManager.cs:132-138 | A miss with a non-empty default value records `lang:key`. The first time, it logs one fallback warning, and in strict mode throws. Otherwise it returns the default value. |
| LocalizationProperties.GetPlaceholder | Scripts/LocalizationManager.cs:140-141 | A miss in both languages is recorded and warned about the same way. The result is the missing-key format applied to the key. |
| LocalizationProperties.DefaultPlaceholderForMissingKey | Scripts/LocalizationManager.cs:140-141 | Outside strict mode, with the default format, a key missing everywhere comes back as `[key]`. |
| Strings.FormatSingleSlot | Scripts/LocalizationManager.cs:141 | A format with exactly one `{0}` gives the text around it with the argument in place of the slot. |
| Strings.Format | Scripts/LocalizationManager.cs:141 | A format with no `{0}` slot comes back unchanged, whatever the argument. |
| Strings.DefaultPlaceholder | Scripts/LocalizationManager.cs:51 | The default format `[{0}]` wraps the argument in square brackets. |
| LocalizationProperties.GetMatchesVisibleTable | Scripts/LocalizationManager.cs:120-142 | Outside strict mode, `Get` on a non-empty key never throws. It returns the key's entry in the merged view of the usable translations (current overriding default), or the placeholder when there is none. |
| LocalizationProperties.RepeatedGetIsQuiet | Scripts/LocalizationManager.cs:178-181 | Asking for the same key twice: the second call changes nothing, logs nothing, never throws and returns the same text. |
| Manager.LocalizationManager.LogMissingKey | Scripts/LocalizationManager.cs:178-193 | An id already recorded does nothing. Otherwise the id `lang:key` is recorded and one warning is logged, and in strict mode the call throws. The new state is exactly `LogMissingKeyStep`'s. |
| LocalizationProperties.GetReports | Scripts/LocalizationManager.cs:178-193 | One `Get` changes only the recorded ids and the console. It keeps the earlier output and the recorded ids, and adds at most one missing-key warning for an id, only for an id it newly records. |
| LocalizationProperties.SetLanguageReports | Scripts/LocalizationManager.cs:144-161 | One `SetLanguage` keeps the recorded ids exactly, keeps the earlier output and adds no missing-key warning. |
| LocalizationProperties.ReportedAtMostOnce | Scripts/LocalizationManager.cs:178-193 | Across any run of `Get` and `SetLanguage` calls, in any order, each `lang:key` id is warned about at most once, and never if it was recorded before the run. The tables and the default language stay as they were. |
| LocalizationProperties.RecordedStaysQuiet | Scripts/LocalizationManager.cs:181 | An id recorded before a run of `Get` and `SetLanguage` calls stays recorded and is never warned about during it, so switching away from a language and back does not repeat its warnings. |
| LocalizationProperties.MissingIdsCanCollide | Scripts/LocalizationManager.cs:180-181 | The id is a plain string, so the pairs (`EN`, `A:b`) and (`EN:A`, `b`) share one. Once the first pair's miss is recorded, a `Get` of `b` under `EN:A` that misses changes nothing: it is never warned about and does not throw, even in strict mode. |
| Manager.LocalizationManager.SetLanguage | Scripts/LocalizationManager.cs:144-161 | Switches to the normalized code, or warns and, in strict mode, throws. The new state and the result are exactly `SetLanguageStep`'s, and the invariant is kept. |
| LocalizationProperties.SetLanguageSame | Scripts/LocalizationManager.cs:146-149 | A code that normalizes to the current language changes nothing and raises no notification. |
| LocalizationProperties.SetLanguageUnknown | Scripts/LocalizationManager.cs:151-157 | A code without a table keeps the language and notifies no one. It logs one warning and throws exactly in strict mode. |
| LocalizationProperties.SetLanguageSwitch | Scripts/LocalizationManager.cs:159-160 | A different code with a table becomes current, and exactly one notification is raised. Nothing else changes. |
| LocalizationProperties.SetLanguageCurrentIsNoOp | Scripts/LocalizationManager.cs:146-149 | On a state satisfying the invariant, switching to the current language changes nothing and raises no notification. |
| LocalizationProperties.SetLanguageIgnoresSpellings | Scripts/LocalizationManager.cs:146 | Switching depends only on the normalized code, so " fr " and "FR" act alike. |
| LocalizationProperties.SetLanguagePreservesValid | Scripts/LocalizationManager.cs:144-161 | The invariant is kept, and a changed current language always has a table. |
| Manager.LocalizationManager.Reload | Scripts/LocalizationManager.cs:163-169 | Forgets the recorded misses, logs the reload and reloads. It notifies unless the load threw. The new state is exactly `ReloadStep`'s. |
| LocalizationProperties.ReloadFacts | Scripts/LocalizationManager.cs:163-169 | After a reload, the store depends only on the files, whatever it held before. Both codes are kept, no miss is recorded, and one notification is raised exactly when the load did not throw. |
| LocalizationProperties.ReloadNonStrict | Scripts/LocalizationManager.cs:163-169 | Outside strict mode, a reload always returns normally and notifies exactly once, for files the decoder does not reject with an exception. |
| LocalizationProperties.MissReportedAgainAfterReload | Scripts/LocalizationManager.cs:165 | After a reload, a key still missing is warned about again, exactly once, when warnings are enabled. |
| LocalizationProperties.ReloadPreservesValid | Scripts/LocalizationManager.cs:163-169 | A reload keeps the invariant. |
| LocalizationProperties.FallbackExample | Scripts/LocalizationManager.cs:120-142 | Worked example with EN = {hello, bye}, FR = {hello}, current FR and default EN: "hello" gives "Bonjour"; "bye" gives "Bye" with one warning for `FR:bye`; "nope" gives "[nope]". |
| LocalizationProperties.UnknownLanguageExample | Scripts/LocalizationManager.cs:144-157 | In the same example, switching to "de" (normalized to "DE", which has no table) keeps FR. It logs one warning and notifies no one. |

## Left out

- Unity lifecycle: the singleton `Instance`, the duplicate check and `DontDestroyOnLoad` in `Awake` are not modelled. The constructor only normalizes the two codes. The first load is a separate call of `LoadAllLanguages`.
- `Resources.LoadAll` is replaced by the `files` parameter, taken in the order given.
- `JsonUtility.FromJson` is not modelled: each file carries what the decoder returned, `Null` when it returned null (as for empty text), or an object whose `entries` may be null.
- The decoder is assumed never to throw. `FromJson` throws `ArgumentException` on malformed JSON, and nothing in `LoadAllLanguages` catches it, so in both modes such a file stops the load partway and makes `Reload` throw before it notifies. That exception is not modelled.
- Null strings are read as "". For keys, values and language codes this matches the code, which tests each with `string.IsNullOrEmpty` or stores it unchanged.
- A null `missingKeyFormat` is not modelled: the code would throw `ArgumentNullException` from `string.Format` on the first key missing everywhere, while the model, reading it as "", returns "".
- A null element inside `entries` is not represented. The source would throw a null-reference exception on it; `JsonUtility` does not produce one.
- Console messages are structured `Message` values. The English wording and the `[UnityLiteL10n]` prefix are not modelled.
- Strict-mode exceptions are `Fail(message)` values. The exception type and text are not modelled.
- `OnLanguageChanged` is a counter of invocations. The subscribers are not modelled.
- `missingKeyFormat`, `logLevel` and `strictMode` are fixed per manager. Changing them in the inspector at run time is not modelled.
- Direct writes to the public `CurrentLanguage`/`DefaultLanguage` fields that bypass `SetLanguage` are not modelled. The invariant that both codes are normalized relies on that.
- Strings.ToUpperInvariant: only ASCII letters are upper-cased. The invariant culture's mapping of other letters (`é`, `ß`, Greek, Cyrillic, and so on) is not modelled.
- Strings.Format: only the `{0}` placeholder is modelled. Brace escapes (`{{`, `}}`), other indices, alignment and format specifiers, and the `FormatException` for malformed formats are not modelled. Outside a `{0}` slot such text is copied as written; a `{0}` inside an escape such as `{{0}}` is still replaced (giving `{k}` for key `k`), where .NET prints `{0}`.
- The code has no duplicate-key policy (a later entry silently overwrites an earlier one), no key trimming (keys are used exactly as written) and no translation-coverage audit, so the model has none either.
- Scripts/LocalizedText.cs, Demo/Scripts/LanguageSwitcher.cs and Demo/Scripts/UiUtils.cs are not part of this model.
