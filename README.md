# rtag in Dafny

rtag is a small command-line tool that keeps release tags in a `.rtag` text
file, one tag per line, and pushes them to git as `release-<timestamp>-<tag>`.
This project models its core and proves properties of that model. It has
five parts:

- the tag store (`tagstore.dfy`);
- the commands built on it (`workflow.dfy`);
- the language table and locale detection (`languages.dfy`);
- the language-selection chains of the main package (`i18n.dfy`) and of the
  older `rtag` package (`rtag_i18n.dfy`).

`text.dfy` holds the Go string primitives they rely on: `strings.TrimSpace`,
`strings.ToLower`, `strings.Contains` and `bufio.ScanLines` line splitting.
`environment.dfy` holds `os.Getenv` over an environment passed in as a map.

**Tag store.** The class `TagStore.Store` holds the file's state as a
`FileState`, which is one of:

- missing;
- unreadable;
- present with its text.

It also holds whether the file can be recreated. The methods `ReadTags`,
`WriteTags`, `AddTag` and `RemoveTag` (through `FilterTags`) carry the loops of `readTags`,
`writeTags`, `addTag` and `removeTag`. Each is proved against a
specification function:

- `ReadTagsOf`;
- `Serialize`;
- `AddEffect`;
- `RemoveEffect`.

Lemmas then prove the promised properties of those functions:

- parse after serialise is the identity on well-formed tags;
- a successful add appends at the end;
- a successful remove filters out every occurrence and keeps the order;
- uniqueness is preserved;
- a failed operation leaves the file as it was, the one write error modelled
  being that the file cannot be created.

`rtag/rtag.go` repeats these functions and the command handlers line for
line, with only the messages changed. One model covers both.

**Push and the interactive loop.** git is seen only through the runs it is
asked to make. Each run is an argument vector plus whether it succeeded, and
an oracle `succeeds: nat -> bool` supplies the outcome of the k-th run. The
clock is a timestamp parameter.

Standard input is a sequence of complete lines:

- a final line without a newline makes `ReadString` fail, so it counts as
  the end of input;
- `SessionOf` is the specification of the interactive session;
- `Replay` gives the store after its adds.

**Languages.** Go iterates the language map in an unspecified order, and
`DetectLanguageFromLocale` returns the first language in that order with a
matching key. Each detection therefore takes the iteration order as a
parameter. The lemmas prove what holds for every order:

- the result matches the locale, or no language matches and it is English;
- when only one language matches, the order does not matter;
- every matching language is reached by some order.

`FrenchIsAmbiguous` shows that the choice is real: "french" contains the
English key "en".

**Language selection.** These are given as inputs:

- the environment;
- the config files, as a map from path to contents;
- the outputs of the macOS `defaults` and Windows PowerShell probes (`None`
  when the command fails);
- one iteration order for each of the seven locale detections that system
  detection may make.

The package globals `currentLang` and `messages` are the fields of a
`Localizer` class. A message table is named by its language.

**Behaviour of the code worth knowing.**

- Uniqueness of the stored tags holds only for well-formed tags (non-empty,
  trimmed, without a newline).
  - `runAdd` passes its argument to `addTag` untrimmed.
  - The duplicate check compares that raw string with the trimmed tags it
    read back.
  - So adding `" v1"` to a store holding `v1` succeeds, and the file then
    reads back `v1` twice. `TagStore.UntrimmedAddDuplicates` proves this.
  - Likewise adding `"v1\nv2"` (`rtag add "$(printf 'v1\nv2')"`) to a
    store holding `v1` succeeds, and the file then reads back `v1`, `v1`,
    `v2`. `TagStore.NewlineAddDuplicates` proves this.
  - The uniqueness lemmas (`AddAppends`, `ReplayGrowsStore`) hold for
    well-formed tags, which is all the interactive loop ever adds.
- Locale detection is not deterministic: it depends on map iteration order.

## Model

| member | source | states |
|---|---|---|
| Text.Trim | cmd.go:222 | the trimmed line neither starts nor ends with Unicode white space |
| Text.Lines | cmd.go:220-221 | the scanner's lines contain no newline |
| Text.LinesCons | cmd.go:239 | a line written with its newline scans back as exactly that line, followed by the lines of the rest |
| Text.LinesLast | cmd.go:220-221 | a non-empty last line with no newline after it (and no final carriage return) is still read, as itself |
| Text.ToLower | languages.go:75 | the length is kept; no character of the result has anything left to lower; a character that is already lower case is kept, and every other one is changed |
| Text.ToLowerIdempotent | languages.go:75 | lowering twice is lowering once |
| Text.Contains | languages.go:81 | the search is true exactly when the key occurs at some position of the locale |
| TagStore.Keep | cmd.go:219-226 | the scan keeps at most one tag per line, and a string is kept exactly when it is non-blank and the trimmed form of some line |
| TagStore.ScanTags | cmd.go:219-226 | the scanner loop yields the trimmed non-blank lines, in line order |
| TagStore.KeepTags | cmd.go:221-225 | every tag kept by the scan is non-empty, trimmed and a single line |
| TagStore.ParseTags | cmd.go:219-226 | the tags of a file text are exactly the non-blank trimmed lines the scanner yields, at most one per line |
| TagStore.ParsedAreTags | cmd.go:219-226 | every tag read from any file text is non-empty, trimmed and a single line |
| TagStore.Serialize | cmd.go:238-242 | the text is empty exactly when there are no tags; otherwise it starts with the first tag followed by a newline and ends with a newline |
| TagStore.ParseSerialize | cmd.go:238-242 | reading back what writeTags wrote gives the same tags when each is non-empty, trimmed and newline-free |
| TagStore.ReadWriteRead | cmd.go:231-245 | rewriting what was read does not change what is read, and a second rewrite gives the same file text |
| TagStore.Without | cmd.go:273-279 | the filtered list holds exactly the tags other than the removed one, and is no longer |
| TagStore.WithoutAppend | cmd.go:273-279 | filtering distributes over concatenation, so the relative order of the remaining tags is kept |
| TagStore.WithoutCounts | cmd.go:273-279 | the removed tag has no occurrence left; every other tag keeps its number of occurrences |
| TagStore.WithoutAbsent | cmd.go:273-279 | filtering out a tag that is not there changes nothing |
| TagStore.WithoutNoDuplicates | cmd.go:273-279 | filtering keeps a duplicate-free list duplicate-free |
| TagStore.WithoutKeepsTags | cmd.go:273-279 | filtering keeps only well-formed tags when given well-formed tags |
| TagStore.ReadTagsOf | cmd.go:209-229 | a missing file reads as no tags; an unreadable one, and only that, fails; a present one yields its parsed tags |
| TagStore.ReadAreTags | cmd.go:209-229 | tags read from any file are well-formed |
| TagStore.AddEffect | cmd.go:247-262 | read error exactly on an unreadable file, duplicate error exactly when the tag is present, write error exactly when it is absent and the file cannot be created; never not-found; on every error the file is unchanged, a write error being that the file cannot be created |
| TagStore.AddAppends | cmd.go:254-261 | a successful add of a well-formed tag reads back as the old tags followed by the new one, and keeps a duplicate-free store duplicate-free |
| TagStore.UntrimmedAddDuplicates | cmd.go:123-136 | adding " v1" to a store holding v1 succeeds and the store then reads back v1 twice |
| TagStore.NewlineAddDuplicates | cmd.go:123-136 | adding "v1\nv2" to a store holding v1 succeeds and the store then reads back v1, v1, v2 |
| TagStore.RemoveEffect | cmd.go:264-286 | read error exactly on an unreadable file, not-found exactly when the tag is absent, write error exactly when it is present and the file cannot be created; never duplicate; on every error the file is unchanged, a write error being that the file cannot be created |
| TagStore.RemoveFilters | cmd.go:271-285 | a successful remove reads back as the old tags with every occurrence of the tag filtered out, and keeps a duplicate-free store duplicate-free |
| TagStore.Store.constructor | cmd.go:15 | the store stands for the one `.rtag` file of the working directory, starting in the given file state and writability |
| TagStore.Store.ReadTags | cmd.go:209-229 | the scanner loop returns what ReadTagsOf specifies for the current file; the older package repeats this at rtag/rtag.go:164-184 |
| TagStore.Store.WriteTags | cmd.go:231-245 | succeeds exactly when the file can be created, and then the file holds each tag followed by a newline; otherwise the file is unchanged; the older package repeats this at rtag/rtag.go:186-200 |
| TagStore.Store.AddTag | cmd.go:247-262 | the outcome and the new file are those AddEffect gives for the old file; the older package repeats this at rtag/rtag.go:202-217 |
| TagStore.Store.FilterTags | cmd.go:271-279 | the loop leaves exactly the tags other than the one removed, in order (Without), and notes whether that tag was present at all |
| TagStore.Store.RemoveTag | cmd.go:264-286 | the outcome and the new file are those RemoveEffect gives for the old file; the older package repeats this at rtag/rtag.go:219-241 |
| Workflow.ReleaseName | cmd.go:337 | the name is `release-`, the timestamp, `-` and the tag: it starts with `release-`, the timestamp follows it, and it ends with `-` followed by the tag, with nothing else added |
| Workflow.PushTags | cmd.go:331-354 | the runs are one `git tag release-<ts>-<tag>` per tag in order, all with the same timestamp, then exactly one `git push origin --tags`, whatever fails; the older package repeats this at rtag/rtag.go:286-309 |
| Workflow.OnePushLast | cmd.go:347-353 | the push is the last run and no other run is a push |
| Workflow.FailuresDoNotStop | cmd.go:336-345 | which runs fail does not change which commands are issued or their order |
| Workflow.PushTraceUnique | cmd.go:331-354 | the runs are determined by the tags, the timestamp and the outcomes |
| Workflow.ReleaseNameInjective | cmd.go:337 | under timestamps of one length, equal release names mean equal timestamps and equal tags |
| Workflow.PushScenario | cmd.go:331-354 | pushing v1 and v2 at 202401011200 tags release-202401011200-v1 and -v2, then pushes |
| Workflow.RunPush | cmd.go:138-180 | --all pushes every stored tag and wins over an argument; an unreadable store, an empty store under --all, a tag not in the store or no selection at all make no git run; the older package repeats this at rtag/rtag.go:93-135 |
| Workflow.SessionOf | cmd.go:291-328 | a session tries at most one tag per input line, every tag it tries is the trimmed form of some input line, and it ends by "exit" only when some line trims to "exit" |
| Workflow.SessionTags | cmd.go:299-310 | every tag the interactive loop tries to add is non-empty, trimmed, a single line and not "exit" |
| Workflow.SessionStopsReading | cmd.go:300-327 | once the session ends by "exit" or by an answer other than y/yes, no further input is read |
| Workflow.SessionTriesEveryTag | cmd.go:291-327 | when each entered line is a tag other than "exit" and each answer is y/yes, the session tries every trimmed line, in order, and ends only when input runs out |
| Workflow.ReplayGrowsStore | cmd.go:310-314 | after the session's adds, a readable store holds its old tags followed by exactly the tags whose add succeeded, and stays duplicate-free |
| Workflow.InteractiveAddTag | cmd.go:288-329 | the loop ends as SessionOf says, and its attempts and the new file are those of adding the session's tags one after another; the older package repeats this at rtag/rtag.go:243-284 |
| Workflow.ReplayAddsAll | cmd.go:247-265 | adding distinct well-formed tags not yet stored to a readable, writable store: every add succeeds, and the store lists its old tags followed by exactly those tags in insertion order |
| Workflow.StoreScenario | cmd.go:247-286 | adding v1 then v2 to a missing store reads back v1, v2; removing v1 from a store holding only v1 leaves it empty |
| Workflow.RunList | cmd.go:182-198 | an unreadable store is reported, an empty one says so, otherwise every tag is listed in store order |
| Workflow.RunInit | cmd.go:105-121 | an unreadable store changes nothing, a non-empty one is only listed, an empty or missing one starts the interactive loop |
| Workflow.RunAdd | cmd.go:123-136 | with an argument, exactly that string is added once; without one, the interactive loop runs |
| Workflow.RunRm | cmd.go:200-207 | the single argument is removed as removeTag specifies |
| Languages.SupportedLanguages | languages.go:25-52 | the table has exactly the keys en, zh, fr, ru, and each entry's code is its key |
| Languages.IsValidLanguage | languages.go:55-59 | valid exactly for en, zh, fr and ru, compared case-sensitively |
| Languages.GetLanguageFromString | languages.go:62-67 | a valid code comes back with true, anything else as en with false; the code returned is always valid |
| Languages.AnyKeyIn | languages.go:80-84 | the inner loop finds a key exactly when some key occurs in the locale |
| Languages.DetectLanguageFromLocale | languages.go:71-73 | an empty locale gives en |
| Languages.DetectSound | languages.go:79-87 | the result is supported, and either matches the locale or is en with no language matching |
| Languages.DetectCaseInsensitive | languages.go:75 | detection gives the same result for a locale and its lowered form |
| Languages.DetectUniqueMatch | languages.go:79-85 | when exactly one language matches, every iteration order detects it |
| Languages.DetectAnyMatchPossible | languages.go:79-85 | every matching language is the result under some iteration order |
| Languages.FrenchIsAmbiguous | languages.go:79-85 | "french" is detected as en in one order and as fr in another |
| Languages.KelvinSignIsHongKong | languages.go:75-85 | the locale "H" followed by the Kelvin sign lowers to "hk" and is detected as zh under every iteration order |
| I18n.GetConfigPath | i18n.go:139-156 | a set XDG_CONFIG_HOME gives `<XDG_CONFIG_HOME>/rtag/config`; otherwise a set HOME gives `<HOME>/.config/rtag/config`; otherwise a set USERPROFILE gives `<USERPROFILE>/.rtag/config`; there is a path exactly when one of them is set |
| I18n.ConfigPathPrecedence | i18n.go:139-156 | a set XDG_CONFIG_HOME hides HOME and USERPROFILE; a set HOME hides USERPROFILE |
| I18n.LoadSavedLanguage | i18n.go:98-114 | the result is the trimmed file contents when there is a path, the file is readable and the contents are a supported code; otherwise "" |
| I18n.SaveLanguage | i18n.go:117-136 | no config path is an error with no write; a failed directory creation or file open leaves every file as it was; a write cut short leaves the config file truncated to the part written; a failed close after a full write is an error with the code on disk; a save succeeds exactly when all steps succeed, and then the config file holds the code and every other file is unchanged |
| I18n.FailedSaveLoad | i18n.go:117-136 | after a failed save of a supported code, the next load gives the old preference when nothing was written, none when the write was cut short, and the new code when only the close failed |
| I18n.SaveThenLoad | i18n.go:117-136 | a supported code that was saved is the one loaded next |
| I18n.LocaleVarsFromSound | i18n.go:44-52 | a non-English result of the scan over the locale variables matches one of the variables it looked at |
| I18n.LocaleVarsFromEnglish | i18n.go:44-52 | the scan gives English exactly when every variable it looks at detects English |
| I18n.MacOSLanguage | i18n.go:68-76 | a failed probe gives en; a successful probe gives the language detected from its output; the result is supported, and when not en it matches the probe output |
| I18n.WindowsLanguage | i18n.go:79-95 | a USERLANG detecting a language other than en wins; otherwise a failed probe gives en and a successful one gives the language detected from its output; the result is supported, and when not en it matches USERLANG or the probe output |
| I18n.SystemLanguageProbes | i18n.go:42-95 | when every locale variable detects en, a macOS output matching only a language c other than en gives c; when the macOS probe and USERLANG also give en, a PowerShell output matching only c gives c |
| I18n.SystemLanguageSound | i18n.go:42-65 | a system language other than en is matched by some consulted source: a locale variable, the macOS probe, USERLANG or the PowerShell probe |
| I18n.DetectSystemLanguage | i18n.go:42-65 | the loop over LANG, LC_ALL, LC_MESSAGES, LANGUAGE, then the probes, yields SystemLanguage, a supported code |
| I18n.SystemLanguageValid | i18n.go:42-65 | system detection always yields a supported code |
| I18n.EnglishVariableSkipped | i18n.go:46-52 | with LANG=en and LC_ALL=fr the system language is fr: an English match does not stop the scan |
| I18n.DetectLanguage | i18n.go:22-39 | the result is the lowered RTAG_LANG, the saved preference or the system language |
| I18n.DetectLanguagePrecedence | i18n.go:22-39 | a supported lowered RTAG_LANG wins, then a saved preference, then system detection; the result is supported |
| I18n.InvalidRtagLangIgnored | i18n.go:24-28 | an RTAG_LANG that is no supported code gives the same result as no RTAG_LANG |
| I18n.Localizer.constructor | i18n.go:11-12 | the state starts as en with no message table |
| I18n.Localizer.SetLanguage | i18n.go:159-167 | the current language is always the one given; the table is its own when one exists, else English |
| I18n.Localizer.InitI18n | i18n.go:15-19 | the detected language becomes current and its own table is active |
| RtagI18n.DetectLanguage | rtag/i18n.go:177-204 | the result is en or zh, and zh exactly when RTAG_LANG is a Chinese alias, or is no English alias and LANG or LC_ALL mentions zh in any case |
| RtagI18n.UnrecognisedRtagLangIgnored | rtag/i18n.go:179-188 | an RTAG_LANG that is no alias gives the same result as no RTAG_LANG |
| RtagI18n.EnglishAliasBeatsLang | rtag/i18n.go:179-193 | RTAG_LANG=en gives en even with LANG=zh_CN, which alone gives zh |
| RtagI18n.Localizer.constructor | rtag/i18n.go:68-69 | the state starts as en with no message table |
| RtagI18n.Localizer.SetLanguage | rtag/i18n.go:207-215 | the current language is the one given; the Chinese table is chosen for zh only, English otherwise |
| RtagI18n.Localizer.InitI18n | rtag/i18n.go:170-174 | the detected language becomes current, and the Chinese table is active exactly when it is zh |

## Left out

- Command construction and dispatch with cobra: framework wiring with no logic. `RunRm` takes the exactly-one-argument guarantee as its precondition.
- Real file, standard-input and subprocess I/O.
  - The `.rtag` file is a `FileState`.
  - Whether `os.Create` succeeds is the `writable` flag.
  - Standard input is a sequence of lines.
  - git outcomes come from an oracle.
  - The probe outputs and config files are inputs.
- TagStore.Store.WriteTags: does not model an `Fprintln` that fails after `os.Create` succeeded. In the source that leaves `.rtag` truncated to a prefix of the tags and add or remove report the write error. The model's only write error is `os.Create` failing, which changes nothing.
- TagStore.AddEffect, TagStore.RemoveEffect: "on every error the file is unchanged" holds in the source only when the write error comes from `os.Create`, for the reason on the line above.
- The scanner's read errors and every open error other than a missing file are one `Unreadable` state, given as the initial file state.
- The scanner's 64 KiB line limit (`bufio.MaxScanTokenSize`) is not modelled, because `ParseTags` reads lines of any length and every write yields a readable file. In the source, `runAdd` and the interactive loop accept a tag of 64 KiB or more, `writeTags` writes it, and every later `readTags` fails with `bufio.ErrTooLong`.
- TagStore.ParseSerialize, TagStore.ReadWriteRead, TagStore.AddAppends, Workflow.ReplayGrowsStore, Workflow.ReplayAddsAll: hold in the source only while every line of `.rtag` is shorter than 64 KiB, for the reason on the line above.
- The clock and Go's `200601021504` layout: the timestamp is a parameter.
- Text.ToLower: maps only part of Unicode case mapping, because a full Unicode table is outside the scope of this model. It maps the ASCII, Latin-1 and basic Cyrillic capitals, capital I with dot above (to `i`), the Kelvin sign (to `k`) and the Angstrom sign. These are all the capitals that lower to a character of a table key, so matching against the table is as in Go.
- Text.ToLower: the contract says that a capital is changed, not which character it becomes. That mapping is `LowerChar`, which the detection proofs unfold.
- Strings are sequences of Unicode scalar values, so text that is not valid UTF-8 cannot be represented. That covers `.rtag` contents, config files, environment values and probe output. Go keeps such bytes in its strings, and `strings.ToLower` turns them into U+FFFD.
- I18n.SaveLanguage: `os.MkdirAll` creating only some of the directories is not modelled, because directories are not part of the file map. The part of a cut-short write is counted in characters, not bytes.
- `filepath.Join` path cleaning: paths are joined with a plain "/".
- The message texts (`messages.go`, the Chinese literals in `rtag/`): a table is named only by its language.
- `lang.go` and `rtag/lang.go` (display of languages and the language-setting command) are not part of this model.
- `GetLanguage` and `T` only read the fields of `Localizer`.
- The printed transcript of every command.
