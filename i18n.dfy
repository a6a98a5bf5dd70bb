/** Language selection of the main package: the configuration path, the
    saved preference, system detection and the priority chain between
    them, and the current-language state. The environment, the config file
    contents and the outputs of the macOS and Windows probes are inputs. */
module I18n {
  import opened Text
  import opened Languages
  import opened Environment

  datatype Option<T> = None | Some(value: T)

  /** Config file contents by path; a path that is absent cannot be read. */
  type Files = map<string, string>

  /** getConfigPath: XDG_CONFIG_HOME, then HOME, then USERPROFILE; the first
      that is set decides, and with none of them there is no path. */
  function GetConfigPath(env: Env): (p: string)
    ensures p == "" <==> Getenv(env, "XDG_CONFIG_HOME") == "" && Getenv(env, "HOME") == "" && Getenv(env, "USERPROFILE") == ""
    ensures Getenv(env, "XDG_CONFIG_HOME") != "" ==> p == Getenv(env, "XDG_CONFIG_HOME") + "/rtag/config"
    ensures Getenv(env, "XDG_CONFIG_HOME") == "" && Getenv(env, "HOME") != "" ==> p == Getenv(env, "HOME") + "/.config/rtag/config"
    ensures Getenv(env, "XDG_CONFIG_HOME") == "" && Getenv(env, "HOME") == "" && Getenv(env, "USERPROFILE") != "" ==>
              p == Getenv(env, "USERPROFILE") + "/.rtag/config"
  {
    var configHome := Getenv(env, "XDG_CONFIG_HOME");
    if configHome != "" then configHome + "/rtag/config"
    else
      var homeDir := Getenv(env, "HOME");
      if homeDir != "" then homeDir + "/.config/rtag/config"
      else
        var userProfile := Getenv(env, "USERPROFILE");
        if userProfile != "" then userProfile + "/.rtag/config"
        else ""
  }

  /** A variable of higher priority hides those below it: once
      XDG_CONFIG_HOME is set, HOME and USERPROFILE do not matter, and once
      HOME is set, USERPROFILE does not. */
  lemma ConfigPathPrecedence(env: Env, home: string, userProfile: string)
    ensures Getenv(env, "XDG_CONFIG_HOME") != "" ==>
              GetConfigPath(env["HOME" := home]["USERPROFILE" := userProfile]) == GetConfigPath(env)
    ensures Getenv(env, "XDG_CONFIG_HOME") == "" && Getenv(env, "HOME") != "" ==>
              GetConfigPath(env["USERPROFILE" := userProfile]) == GetConfigPath(env)
  {
    var e1 := env["HOME" := home]["USERPROFILE" := userProfile];
    assert Getenv(e1, "XDG_CONFIG_HOME") == Getenv(env, "XDG_CONFIG_HOME");
    var e2 := env["USERPROFILE" := userProfile];
    assert Getenv(e2, "XDG_CONFIG_HOME") == Getenv(env, "XDG_CONFIG_HOME");
    assert Getenv(e2, "HOME") == Getenv(env, "HOME");
  }

  /** loadSavedLanguage: the trimmed contents of the config file when they
      are a supported code, and "" otherwise. */
  function LoadSavedLanguage(env: Env, files: Files): (r: string)
    ensures r == "" || IsValidLanguage(r)
    ensures r != "" <==>
              var path := GetConfigPath(env);
              path != "" && path in files && IsValidLanguage(Trim(files[path]))
    ensures r != "" ==> r == Trim(files[GetConfigPath(env)])
  {
    var configPath := GetConfigPath(env);
    if configPath == "" then ""
    else if configPath !in files then ""
    else
      var lang := Trim(files[configPath]);
      if IsValidLanguage(lang) then lang else ""
  }

  /** How saveLanguage ends. */
  datatype SaveOutcome = Saved | NoConfigPath | MkdirFailed | WriteFailed

  /** saveLanguage: with no config path nothing is written; otherwise the
      directory is created and the code written as the whole file.
      os.WriteFile first opens the file, truncating it, then writes, then
      closes it, and reports the first error of the three. Whether the
      directory, the open and the close succeed is given by dirOk, openOk
      and closeOk, and written is how much of the code the write gets out
      before it stops. */
  function SaveLanguage(env: Env, files: Files, dirOk: bool, openOk: bool, written: nat, closeOk: bool, lang: string): (r: (SaveOutcome, Files))
    ensures r.0 == NoConfigPath <==> GetConfigPath(env) == ""
    ensures r.0 == MkdirFailed <==> GetConfigPath(env) != "" && !dirOk
    ensures r.0 == Saved <==> GetConfigPath(env) != "" && dirOk && openOk && written >= |lang| && closeOk
    ensures r.0 == Saved ==> r.1 == files[GetConfigPath(env) := lang]
    ensures r.0 == WriteFailed && openOk && written < |lang| ==> r.1 == files[GetConfigPath(env) := lang[..written]]
    ensures r.0 == WriteFailed && openOk && written >= |lang| ==> !closeOk && r.1 == files[GetConfigPath(env) := lang]
    ensures r.0 != Saved && (r.0 != WriteFailed || !openOk) ==> r.1 == files
  {
    var configPath := GetConfigPath(env);
    if configPath == "" then (NoConfigPath, files)
    else if !dirOk then (MkdirFailed, files)
    else if !openOk then (WriteFailed, files)
    else if written < |lang| then (WriteFailed, files[configPath := lang[..written]])
    else if !closeOk then (WriteFailed, files[configPath := lang])
    else (Saved, files[configPath := lang])
  }

  /** A saved supported code is what is loaded next. */
  lemma SaveThenLoad(env: Env, files: Files, dirOk: bool, openOk: bool, written: nat, closeOk: bool, lang: string)
    requires IsValidLanguage(lang)
    requires SaveLanguage(env, files, dirOk, openOk, written, closeOk, lang).0 == Saved
    ensures LoadSavedLanguage(env, SaveLanguage(env, files, dirOk, openOk, written, closeOk, lang).1) == lang
  {
    SaveThenLoadText(env, files, lang);
  }

  /** After a failed save of a supported code, the next load gives the old
      preference when nothing was written, no preference when the write was
      cut short, and the new code when only the close failed. */
  lemma FailedSaveLoad(env: Env, files: Files, dirOk: bool, openOk: bool, written: nat, closeOk: bool, lang: string)
    requires IsValidLanguage(lang)
    requires SaveLanguage(env, files, dirOk, openOk, written, closeOk, lang).0 != Saved
    ensures var after := LoadSavedLanguage(env, SaveLanguage(env, files, dirOk, openOk, written, closeOk, lang).1);
            && (GetConfigPath(env) == "" || !dirOk || !openOk ==> after == LoadSavedLanguage(env, files))
            && (GetConfigPath(env) != "" && dirOk && openOk && written < |lang| ==> after == "")
            && (GetConfigPath(env) != "" && dirOk && openOk && written >= |lang| ==> after == lang)
  {
    var path := GetConfigPath(env);
    if path != "" && dirOk && openOk {
      if written < |lang| {
        assert |lang[..written]| < 2;
      } else {
        SaveThenLoadText(env, files, lang);
      }
    }
  }

  /** The code written in full is the code loaded. */
  lemma SaveThenLoadText(env: Env, files: Files, lang: string)
    requires IsValidLanguage(lang) && GetConfigPath(env) != ""
    ensures LoadSavedLanguage(env, files[GetConfigPath(env) := lang]) == lang
  {
    assert IsTrimmed(lang);
    TrimTrimmed(lang);
  }

  /** The variables detectSystemLanguage looks at, in order. */
  const LocaleVars: seq<string> := ["LANG", "LC_ALL", "LC_MESSAGES", "LANGUAGE"]

  /** The table iteration orders of the seven locale detections system
      detection may make: one per locale variable, then the macOS probe,
      then USERLANG, then the PowerShell probe. */
  predicate AreIterationOrders(orders: seq<seq<string>>) {
    |orders| == 7 && forall i :: 0 <= i < 7 ==> IsIterationOrder(orders[i])
  }

  /** The first locale variable, from index i on, that is set and detects a
      language other than English; English when there is none. */
  function LocaleVarsFrom(env: Env, orders: seq<seq<string>>, i: nat): string
    requires AreIterationOrders(orders) && i <= |LocaleVars|
    decreases |LocaleVars| - i
  {
    if i == |LocaleVars| then LangEN
    else
      var value := Getenv(env, LocaleVars[i]);
      if value != "" && DetectLanguageFromLocale(value, orders[i]) != LangEN then DetectLanguageFromLocale(value, orders[i])
      else LocaleVarsFrom(env, orders, i + 1)
  }

  /** getMacOSSystemLanguage, given the output of `defaults read -g
      AppleLanguages` (None when the command fails). */
  function MacOSLanguage(output: Option<string>, order: seq<string>): (r: string)
    requires IsIterationOrder(order)
    ensures IsValidLanguage(r)
    ensures output.None? ==> r == LangEN
    ensures r != LangEN ==> output.Some? && Matches(output.value, r)
    ensures output.Some? ==> r == DetectLanguageFromLocale(output.value, order)
  {
    if output.None? then LangEN
    else
      DetectSound(output.value, order);
      DetectLanguageFromLocale(output.value, order)
  }

  /** getWindowsSystemLanguage: USERLANG when it detects a non-English
      language, else the culture name printed by PowerShell (None when the
      command fails). */
  function WindowsLanguage(env: Env, output: Option<string>, userOrder: seq<string>, outputOrder: seq<string>): (r: string)
    requires IsIterationOrder(userOrder) && IsIterationOrder(outputOrder)
    ensures IsValidLanguage(r)
    ensures r != LangEN ==> Matches(Getenv(env, "USERLANG"), r) || (output.Some? && Matches(output.value, r))
    ensures DetectLanguageFromLocale(Getenv(env, "USERLANG"), userOrder) != LangEN ==> r == DetectLanguageFromLocale(Getenv(env, "USERLANG"), userOrder)
    ensures output.None? && DetectLanguageFromLocale(Getenv(env, "USERLANG"), userOrder) == LangEN ==> r == LangEN
    ensures output.Some? && DetectLanguageFromLocale(Getenv(env, "USERLANG"), userOrder) == LangEN ==>
              r == DetectLanguageFromLocale(output.value, outputOrder)
  {
    var userLang := Getenv(env, "USERLANG");
    DetectSound(userLang, userOrder);
    if userLang != "" && DetectLanguageFromLocale(userLang, userOrder) != LangEN then DetectLanguageFromLocale(userLang, userOrder)
    else if output.None? then LangEN
    else
      DetectSound(output.value, outputOrder);
      DetectLanguageFromLocale(output.value, outputOrder)
  }

  /** detectSystemLanguage: the locale variables, then the macOS probe, then
      the Windows probe, each consulted only while everything before it
      gave English. */
  function SystemLanguage(env: Env, macOutput: Option<string>, winOutput: Option<string>, orders: seq<seq<string>>): string
    requires AreIterationOrders(orders)
  {
    var fromEnv := LocaleVarsFrom(env, orders, 0);
    if fromEnv != LangEN then fromEnv
    else
      var macLang := MacOSLanguage(macOutput, orders[4]);
      if macLang != LangEN then macLang
      else
        var winLang := WindowsLanguage(env, winOutput, orders[5], orders[6]);
        if winLang != LangEN then winLang else LangEN
  }

  /** detectSystemLanguage as the loop over the locale variables. */
  method DetectSystemLanguage(env: Env, macOutput: Option<string>, winOutput: Option<string>, orders: seq<seq<string>>) returns (lang: string)
    requires AreIterationOrders(orders)
    ensures lang == SystemLanguage(env, macOutput, winOutput, orders)
    ensures IsValidLanguage(lang)
  {
    SystemLanguageValid(env, macOutput, winOutput, orders);
    for i := 0 to |LocaleVars|
      invariant LocaleVarsFrom(env, orders, i) == LocaleVarsFrom(env, orders, 0)
    {
      var envValue := Getenv(env, LocaleVars[i]);
      if envValue != "" {
        var detected := DetectLanguageFromLocale(envValue, orders[i]);
        if detected != LangEN {
          return detected;
        }
      }
    }
    var macLang := MacOSLanguage(macOutput, orders[4]);
    if macLang != LangEN {
      return macLang;
    }
    var winLang := WindowsLanguage(env, winOutput, orders[5], orders[6]);
    if winLang != LangEN {
      return winLang;
    }
    return LangEN;
  }

  lemma {:induction false} LocaleVarsFromValid(env: Env, orders: seq<seq<string>>, i: nat)
    requires AreIterationOrders(orders) && i <= |LocaleVars|
    ensures IsValidLanguage(LocaleVarsFrom(env, orders, i))
    decreases |LocaleVars| - i
  {
    if i < |LocaleVars| {
      var value := Getenv(env, LocaleVars[i]);
      DetectSound(value, orders[i]);
      LocaleVarsFromValid(env, orders, i + 1);
    }
  }

  /** System detection always yields a supported code. */
  lemma SystemLanguageValid(env: Env, macOutput: Option<string>, winOutput: Option<string>, orders: seq<seq<string>>)
    requires AreIterationOrders(orders)
    ensures IsValidLanguage(SystemLanguage(env, macOutput, winOutput, orders))
  {
    LocaleVarsFromValid(env, orders, 0);
    if macOutput.Some? {
      DetectSound(macOutput.value, orders[4]);
    }
    DetectSound(Getenv(env, "USERLANG"), orders[5]);
    if winOutput.Some? {
      DetectSound(winOutput.value, orders[6]);
    }
  }

  /** The scan of the locale variables from index i: a non-English result
      matches one of the variables it looked at. */
  lemma {:induction false} LocaleVarsFromSound(env: Env, orders: seq<seq<string>>, i: nat)
    requires AreIterationOrders(orders) && i <= |LocaleVars|
    ensures var r := LocaleVarsFrom(env, orders, i);
            r != LangEN ==> exists j :: i <= j < |LocaleVars| && Matches(Getenv(env, LocaleVars[j]), r)
    decreases |LocaleVars| - i
  {
    if i < |LocaleVars| {
      var value := Getenv(env, LocaleVars[i]);
      var detected := DetectLanguageFromLocale(value, orders[i]);
      if value != "" && detected != LangEN {
        DetectSound(value, orders[i]);
        assert LocaleVarsFrom(env, orders, i) == detected;
        assert Matches(Getenv(env, LocaleVars[i]), detected);
      } else {
        assert LocaleVarsFrom(env, orders, i) == LocaleVarsFrom(env, orders, i + 1);
        LocaleVarsFromSound(env, orders, i + 1);
      }
    }
  }

  /** The scan gives English exactly when every variable it looks at
      detects English. */
  lemma {:induction false} LocaleVarsFromEnglish(env: Env, orders: seq<seq<string>>, i: nat)
    requires AreIterationOrders(orders) && i <= |LocaleVars|
    ensures LocaleVarsFrom(env, orders, i) == LangEN <==>
            forall j :: i <= j < |LocaleVars| ==> DetectLanguageFromLocale(Getenv(env, LocaleVars[j]), orders[j]) == LangEN
    decreases |LocaleVars| - i
  {
    if i < |LocaleVars| {
      LocaleVarsFromEnglish(env, orders, i + 1);
      var here := DetectLanguageFromLocale(Getenv(env, LocaleVars[i]), orders[i]);
      assert LocaleVarsFrom(env, orders, i) == LangEN <==> here == LangEN && LocaleVarsFrom(env, orders, i + 1) == LangEN;
    }
  }

  /** A non-English system language is one that some consulted source
      matches: a locale variable, the macOS probe, USERLANG or the PowerShell
      probe. */
  lemma SystemLanguageSound(env: Env, macOutput: Option<string>, winOutput: Option<string>, orders: seq<seq<string>>)
    requires AreIterationOrders(orders)
    ensures var r := SystemLanguage(env, macOutput, winOutput, orders);
            r != LangEN ==>
              || (exists j :: 0 <= j < |LocaleVars| && Matches(Getenv(env, LocaleVars[j]), r))
              || (macOutput.Some? && Matches(macOutput.value, r))
              || Matches(Getenv(env, "USERLANG"), r)
              || (winOutput.Some? && Matches(winOutput.value, r))
  {
    LocaleVarsFromSound(env, orders, 0);
  }

  /** Once every locale variable detects English the probes decide: a macOS
      output matching only the language c gives c, and when that probe and
      USERLANG give English, a PowerShell output matching only c gives c. */
  lemma SystemLanguageProbes(env: Env, macOutput: Option<string>, winOutput: Option<string>, orders: seq<seq<string>>, c: string)
    requires AreIterationOrders(orders)
    requires forall j :: 0 <= j < |LocaleVars| ==> DetectLanguageFromLocale(Getenv(env, LocaleVars[j]), orders[j]) == LangEN
    requires IsValidLanguage(c) && c != LangEN
    ensures macOutput.Some? && OnlyMatch(macOutput.value, c) ==>
              SystemLanguage(env, macOutput, winOutput, orders) == c
    ensures && (macOutput.None? || DetectLanguageFromLocale(macOutput.value, orders[4]) == LangEN)
            && DetectLanguageFromLocale(Getenv(env, "USERLANG"), orders[5]) == LangEN
            && winOutput.Some? && OnlyMatch(winOutput.value, c)
            ==> SystemLanguage(env, macOutput, winOutput, orders) == c
  {
    LocaleVarsFromEnglish(env, orders, 0);
    if macOutput.Some? && OnlyMatch(macOutput.value, c) {
      DetectUniqueMatch(macOutput.value, orders[4], c);
    }
    if winOutput.Some? && OnlyMatch(winOutput.value, c) {
      DetectUniqueMatch(winOutput.value, orders[6], c);
    }
  }

  /** The locale matches c and no other supported language. */
  ghost predicate OnlyMatch(locale: string, c: string) {
    Matches(locale, c) && forall d :: IsValidLanguage(d) && d != c ==> !Matches(locale, d)
  }

  lemma ContainsSameLength(s: string, sub: string)
    requires |s| == |sub|
    ensures Contains(s, sub) <==> s == sub
  {
    if Contains(s, sub) {
      var i: nat :| OccursAt(s, sub, i);
      assert i == 0;
    } else {
      assert !OccursAt(s, sub, 0);
    }
  }

  /** A two-letter string contains a key of two letters or more only when
      it is that key. */
  lemma {:induction false} TwoLetterKeys(s: string, keys: seq<string>)
    requires |s| == 2
    requires forall j :: 0 <= j < |keys| ==> |keys[j]| >= 2
    ensures AnyKeyIn(s, keys) <==> s in keys
  {
    if keys != [] {
      if |keys[0]| == 2 {
        ContainsSameLength(s, keys[0]);
      } else {
        assert !Contains(s, keys[0]);
      }
      TwoLetterKeys(s, keys[1..]);
      assert s in keys <==> s == keys[0] || s in keys[1..];
    }
  }

  /** Every locale key has at least two letters. */
  lemma KeysAtLeastTwo(d: string)
    ensures forall j :: 0 <= j < |LocaleKeys(d)| ==> |LocaleKeys(d)[j]| >= 2
  {
  }

  /** A lower-case two-letter locale matches a language exactly when it is
      one of that language's keys. */
  lemma TwoLetterMatches(locale: string, d: string)
    requires |locale| == 2 && ToLower(locale) == locale
    ensures Matches(locale, d) <==> locale in LocaleKeys(d)
  {
    KeysAtLeastTwo(d);
    TwoLetterKeys(locale, LocaleKeys(d));
  }

  /** The codes are lower case. */
  lemma CodeLowered(code: string)
    requires IsValidLanguage(code)
    ensures ToLower(code) == code
  {
    assert |code| == 2;
    assert LowerChar(code[0]) == code[0] && LowerChar(code[1]) == code[1];
  }

  /** A code is a locale key of its own language only. */
  lemma CodeIsOwnKey(code: string, d: string)
    requires IsValidLanguage(code) && IsValidLanguage(d)
    ensures code in LocaleKeys(d) <==> d == code
  {
    var keys := LocaleKeys(d);
    assert |code| == 2;
    if d == LangEN {
      assert keys == ["en", "english"];
    } else if d == LangZH {
      assert keys == ["zh", "chinese", "cn", "tw", "hk", "mo"];
    } else if d == LangFR {
      assert keys == ["fr", "french", "francais"];
    } else {
      assert keys[..2] == ["ru", "russian"] && |keys| == 3 && |keys[2]| == 7;
    }
  }

  /** A code used as a locale matches one language: its own. */
  lemma OwnCodeOnly(code: string, d: string)
    requires IsValidLanguage(code) && IsValidLanguage(d)
    ensures Matches(code, d) <==> d == code
  {
    CodeLowered(code);
    TwoLetterMatches(code, d);
    CodeIsOwnKey(code, d);
  }

  /** A two-letter code used as a locale matches exactly its own language. */
  lemma CodeMatchesItself(code: string)
    requires IsValidLanguage(code)
    ensures Matches(code, code)
    ensures forall d :: IsValidLanguage(d) && d != code ==> !Matches(code, d)
  {
    OwnCodeOnly(code, code);
    forall d | IsValidLanguage(d) && d != code
      ensures !Matches(code, d)
    {
      OwnCodeOnly(code, d);
    }
  }

  /** An English locale variable does not stop the scan: with LANG=en and
      LC_ALL=fr the system language is French, whatever the probes say. */
  lemma EnglishVariableSkipped(env: Env, macOutput: Option<string>, winOutput: Option<string>, orders: seq<seq<string>>)
    requires AreIterationOrders(orders)
    requires Getenv(env, "LANG") == "en" && Getenv(env, "LC_ALL") == "fr"
    ensures SystemLanguage(env, macOutput, winOutput, orders) == LangFR
  {
    CodeMatchesItself(LangEN);
    CodeMatchesItself(LangFR);
    DetectUniqueMatch("en", orders[0], LangEN);
    DetectUniqueMatch("fr", orders[1], LangFR);
    assert LocaleVarsFrom(env, orders, 1) == LangFR;
  }

  /** detectLanguage: a valid lowered RTAG_LANG, then the saved preference,
      then system detection. */
  function DetectLanguage(env: Env, files: Files, macOutput: Option<string>, winOutput: Option<string>, orders: seq<seq<string>>): (r: string)
    requires AreIterationOrders(orders)
    ensures || r == ToLower(Getenv(env, "RTAG_LANG"))
            || r == LoadSavedLanguage(env, files)
            || r == SystemLanguage(env, macOutput, winOutput, orders)
  {
    var envLang := Getenv(env, "RTAG_LANG");
    if envLang != "" && GetLanguageFromString(ToLower(envLang)).1 then GetLanguageFromString(ToLower(envLang)).0
    else
      var savedLang := LoadSavedLanguage(env, files);
      if savedLang != "" && GetLanguageFromString(savedLang).1 then GetLanguageFromString(savedLang).0
      else SystemLanguage(env, macOutput, winOutput, orders)
  }

  /** The priority chain: RTAG_LANG wins when it names a supported code in
      any case, then a saved preference, then system detection; the result
      is always supported. */
  lemma DetectLanguagePrecedence(env: Env, files: Files, macOutput: Option<string>, winOutput: Option<string>, orders: seq<seq<string>>)
    requires AreIterationOrders(orders)
    ensures IsValidLanguage(DetectLanguage(env, files, macOutput, winOutput, orders))
    ensures IsValidLanguage(ToLower(Getenv(env, "RTAG_LANG"))) ==>
              DetectLanguage(env, files, macOutput, winOutput, orders) == ToLower(Getenv(env, "RTAG_LANG"))
    ensures !IsValidLanguage(ToLower(Getenv(env, "RTAG_LANG"))) && LoadSavedLanguage(env, files) != "" ==>
              DetectLanguage(env, files, macOutput, winOutput, orders) == LoadSavedLanguage(env, files)
    ensures !IsValidLanguage(ToLower(Getenv(env, "RTAG_LANG"))) && LoadSavedLanguage(env, files) == "" ==>
              DetectLanguage(env, files, macOutput, winOutput, orders) == SystemLanguage(env, macOutput, winOutput, orders)
  {
    SystemLanguageValid(env, macOutput, winOutput, orders);
    if Getenv(env, "RTAG_LANG") == "" {
      assert ToLower(Getenv(env, "RTAG_LANG")) == "";
    }
  }

  /** The two environments agree on every variable except name. */
  ghost predicate AgreeExcept(e1: Env, e2: Env, name: string) {
    forall v :: v != name ==> Getenv(e1, v) == Getenv(e2, v)
  }

  lemma {:induction false} LocaleVarsFromAgree(e1: Env, e2: Env, orders: seq<seq<string>>, i: nat)
    requires AreIterationOrders(orders) && i <= |LocaleVars|
    requires AgreeExcept(e1, e2, "RTAG_LANG")
    ensures LocaleVarsFrom(e1, orders, i) == LocaleVarsFrom(e2, orders, i)
    decreases |LocaleVars| - i
  {
    if i < |LocaleVars| {
      var name := LocaleVars[i];
      assert name != "RTAG_LANG";
      assert Getenv(e1, name) == Getenv(e2, name);
      LocaleVarsFromAgree(e1, e2, orders, i + 1);
    }
  }

  /** System detection and the config path do not read RTAG_LANG. */
  lemma SystemIgnoresRtagLang(e1: Env, e2: Env, files: Files, macOutput: Option<string>, winOutput: Option<string>, orders: seq<seq<string>>)
    requires AreIterationOrders(orders)
    requires AgreeExcept(e1, e2, "RTAG_LANG")
    ensures SystemLanguage(e1, macOutput, winOutput, orders) == SystemLanguage(e2, macOutput, winOutput, orders)
    ensures LoadSavedLanguage(e1, files) == LoadSavedLanguage(e2, files)
  {
    LocaleVarsFromAgree(e1, e2, orders, 0);
    assert Getenv(e1, "USERLANG") == Getenv(e2, "USERLANG");
    assert Getenv(e1, "XDG_CONFIG_HOME") == Getenv(e2, "XDG_CONFIG_HOME");
    assert Getenv(e1, "HOME") == Getenv(e2, "HOME");
    assert Getenv(e1, "USERPROFILE") == Getenv(e2, "USERPROFILE");
  }

  /** An RTAG_LANG that is not a supported code is ignored, as if unset. */
  lemma InvalidRtagLangIgnored(env: Env, files: Files, macOutput: Option<string>, winOutput: Option<string>, orders: seq<seq<string>>)
    requires AreIterationOrders(orders)
    requires !IsValidLanguage(ToLower(Getenv(env, "RTAG_LANG")))
    ensures DetectLanguage(env, files, macOutput, winOutput, orders)
         == DetectLanguage(env - {"RTAG_LANG"}, files, macOutput, winOutput, orders)
  {
    var env' := env - {"RTAG_LANG"};
    forall v | v != "RTAG_LANG"
      ensures Getenv(env', v) == Getenv(env, v)
    {
      GetenvUnset(env, "RTAG_LANG", v);
    }
    SystemIgnoresRtagLang(env, env', files, macOutput, winOutput, orders);
  }

  /** The message tables that exist (the keys of GetAllMessages). */
  const MessageLanguages: set<string> := {LangEN, LangZH, LangFR, LangRU}

  /** The active message table, named by its language; NoMessages is the
      zero value before any language is set. */
  datatype Messages = NoMessages | MessagesFor(lang: string)

  /** The package state: the current language and the active messages. */
  class Localizer {
    var currentLang: string
    var messages: Messages

    constructor()
      ensures currentLang == LangEN && messages == NoMessages
    {
      currentLang := LangEN;
      messages := NoMessages;
    }

    /** SetLanguage: the current language is always the one given; the
        messages are its table when one exists and English otherwise. */
    method SetLanguage(lang: string)
      modifies this
      ensures currentLang == lang
      ensures lang in MessageLanguages ==> messages == MessagesFor(lang)
      ensures lang !in MessageLanguages ==> messages == MessagesFor(LangEN)
    {
      currentLang := lang;
      if lang in MessageLanguages {
        messages := MessagesFor(lang);
      } else {
        messages := MessagesFor(LangEN);
      }
    }

    /** InitI18n: detect the language and set it, so that the active table
        is that language's own. */
    method InitI18n(env: Env, files: Files, macOutput: Option<string>, winOutput: Option<string>, orders: seq<seq<string>>)
      requires AreIterationOrders(orders)
      modifies this
      ensures currentLang == DetectLanguage(env, files, macOutput, winOutput, orders)
      ensures messages == MessagesFor(currentLang)
    {
      var lang := DetectLanguage(env, files, macOutput, winOutput, orders);
      DetectLanguagePrecedence(env, files, macOutput, winOutput, orders);
      SetLanguage(lang);
    }
  }
}
