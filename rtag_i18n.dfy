/** Language selection of the older rtag package: only English and Chinese,
    chosen from RTAG_LANG aliases, then LANG, then LC_ALL. */
module RtagI18n {
  import opened Text
  import opened Environment

  const LangEN: string := "en"
  const LangZH: string := "zh"

  const ChineseAliases: set<string> := {"zh", "zh_cn", "chinese"}
  const EnglishAliases: set<string> := {"en", "en_us", "english"}

  /** The variable is set and, lowered, contains "zh". */
  predicate MentionsChinese(env: Env, name: string) {
    Getenv(env, name) != "" && Contains(ToLower(Getenv(env, name)), "zh")
  }

  /** detectLanguage: a recognised RTAG_LANG alias decides; otherwise LANG,
      then LC_ALL, mentioning "zh" in any case gives Chinese; otherwise
      English. */
  function DetectLanguage(env: Env): (r: string)
    ensures r == LangEN || r == LangZH
    ensures r == LangZH <==>
              || ToLower(Getenv(env, "RTAG_LANG")) in ChineseAliases
              || (ToLower(Getenv(env, "RTAG_LANG")) !in EnglishAliases
                  && (MentionsChinese(env, "LANG") || MentionsChinese(env, "LC_ALL")))
  {
    var envLang := Getenv(env, "RTAG_LANG");
    if envLang != "" && ToLower(envLang) in ChineseAliases then LangZH
    else if envLang != "" && ToLower(envLang) in EnglishAliases then LangEN
    else if MentionsChinese(env, "LANG") then LangZH
    else if MentionsChinese(env, "LC_ALL") then LangZH
    else LangEN
  }

  /** An RTAG_LANG that is no alias is ignored, as if unset. */
  lemma UnrecognisedRtagLangIgnored(env: Env)
    requires ToLower(Getenv(env, "RTAG_LANG")) !in ChineseAliases + EnglishAliases
    ensures DetectLanguage(env) == DetectLanguage(env - {"RTAG_LANG"})
  {
    GetenvUnset(env, "RTAG_LANG", "LANG");
    GetenvUnset(env, "RTAG_LANG", "LC_ALL");
    assert ToLower(Getenv(env - {"RTAG_LANG"}, "RTAG_LANG")) == "";
  }

  /** "zh" occurs in a string that starts with it. */
  lemma StartsWithZh(s: string)
    requires |s| >= 2 && s[..2] == "zh"
    ensures Contains(s, "zh")
  {
    assert OccursAt(s, "zh", 0);
  }

  /** RTAG_LANG=en beats LANG=zh_CN: the alias is checked first. */
  lemma EnglishAliasBeatsLang(env: Env)
    requires Getenv(env, "RTAG_LANG") == "en" && Getenv(env, "LANG") == "zh_CN"
    ensures DetectLanguage(env) == LangEN
    ensures DetectLanguage(env - {"RTAG_LANG"}) == LangZH
  {
    assert ToLower("en") == "en";
    assert ToLower("zh_CN") == "zh_cn";
    StartsWithZh("zh_cn");
    GetenvUnset(env, "RTAG_LANG", "LANG");
    assert ToLower("") == "";
  }

  /** The message tables of the package; NoMessages is the zero value before
      any language is set. */
  datatype Messages = NoMessages | EnglishMessages | ChineseMessages

  /** The package state: the current language and the active messages. */
  class Localizer {
    var currentLang: string
    var messages: Messages

    constructor()
      ensures currentLang == LangEN && messages == NoMessages
    {
      currentLang := LangEN;
      messages := NoMessages;
    }

    /** SetLanguage: the current language is the one given; the Chinese
        table is chosen for zh only, English for every other value. */
    method SetLanguage(lang: string)
      modifies this
      ensures currentLang == lang
      ensures messages == if lang == LangZH then ChineseMessages else EnglishMessages
    {
      currentLang := lang;
      if lang == LangZH {
        messages := ChineseMessages;
      } else {
        messages := EnglishMessages;
      }
    }

    /** InitI18n: the detected language is set, and its own table is active. */
    method InitI18n(env: Env)
      modifies this
      ensures currentLang == DetectLanguage(env)
      ensures currentLang == LangZH <==> messages == ChineseMessages
      ensures messages != NoMessages
    {
      var lang := DetectLanguage(env);
      SetLanguage(lang);
    }
  }
}
