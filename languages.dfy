/** The table of supported languages, language-code validation and
    detection of a language from a locale string. Go iterates the table map
    in an unspecified order, so detection takes that order as a parameter:
    its result is some matching language, not a fixed one. */
module Languages {
  import opened Text

  const LangEN: string := "en"
  const LangZH: string := "zh"
  const LangFR: string := "fr"
  const LangRU: string := "ru"

  /** Metadata of one supported language; the locale keys are the
      substrings that identify it in a locale string. */
  datatype LanguageInfo = LanguageInfo(code: string, name: string, nativeName: string, localeKeys: seq<string>)

  /** The table entry of a supported language (the last one for any other
      string). */
  function Info(code: string): LanguageInfo {
    if code == LangEN then LanguageInfo(LangEN, "English", "English", ["en", "english"])
    else if code == LangZH then LanguageInfo(LangZH, "Chinese", "\U{4E2D}\U{6587}", ["zh", "chinese", "cn", "tw", "hk", "mo"])
    else if code == LangFR then LanguageInfo(LangFR, "French", "Fran\U{E7}ais", ["fr", "french", "francais"])
    else LanguageInfo(LangRU, "Russian", "\U{420}\U{443}\U{441}\U{441}\U{43A}\U{438}\U{439}",
                      ["ru", "russian", "\U{440}\U{443}\U{441}\U{441}\U{43A}\U{438}\U{439}"])
  }

  /** GetSupportedLanguages: the four languages, keyed by code, each entry
      carrying its own code. */
  function SupportedLanguages(): (m: map<string, LanguageInfo>)
    ensures m.Keys == {LangEN, LangZH, LangFR, LangRU}
    ensures forall c :: c in m ==> m[c].code == c && m[c].localeKeys != []
  {
    map[LangEN := Info(LangEN), LangZH := Info(LangZH), LangFR := Info(LangFR), LangRU := Info(LangRU)]
  }

  /** IsValidLanguage: exactly the four codes, compared case-sensitively. */
  function IsValidLanguage(lang: string): (r: bool)
    ensures r <==> lang == LangEN || lang == LangZH || lang == LangFR || lang == LangRU
  {
    lang in SupportedLanguages()
  }

  /** GetLanguageFromString: a valid code is returned with true; anything
      else gives English with false. */
  function GetLanguageFromString(lang: string): (r: (string, bool))
    ensures r.1 <==> IsValidLanguage(lang)
    ensures r.1 ==> r.0 == lang
    ensures !r.1 ==> r.0 == LangEN
    ensures IsValidLanguage(r.0)
  {
    if IsValidLanguage(lang) then (lang, true) else (LangEN, false)
  }

  /** The locale keys of a supported language (none for any other string). */
  function LocaleKeys(code: string): seq<string> {
    if IsValidLanguage(code) then Info(code).localeKeys else []
  }

  /** The inner search: some key occurs in s. */
  function AnyKeyIn(s: string, keys: seq<string>): (r: bool)
    ensures r <==> exists j :: 0 <= j < |keys| && Contains(s, keys[j])
  {
    if keys == [] then false
    else Contains(s, keys[0]) || AnyKeyIn(s, keys[1..])
  }

  /** The language code matches the locale: one of its keys occurs in the
      lowered locale. */
  predicate Matches(locale: string, code: string) {
    AnyKeyIn(ToLower(locale), LocaleKeys(code))
  }

  const AllCodes: seq<string> := [LangEN, LangZH, LangFR, LangRU]

  /** An order in which Go may iterate the table: each code exactly once. */
  predicate IsIterationOrder(order: seq<string>) {
    && |order| == |AllCodes|
    && (forall c :: c in AllCodes ==> c in order)
    && (forall c :: c in order ==> c in AllCodes)
  }

  /** The outer search in the given iteration order, with its early return. */
  function FirstMatch(lowered: string, order: seq<string>): string {
    if order == [] then LangEN
    else if AnyKeyIn(lowered, LocaleKeys(order[0])) then order[0]
    else FirstMatch(lowered, order[1..])
  }

  /** DetectLanguageFromLocale with the table visited in the given order. */
  function DetectLanguageFromLocale(locale: string, order: seq<string>): (r: string)
    requires IsIterationOrder(order)
    ensures locale == "" ==> r == LangEN
  {
    if locale == "" then LangEN else FirstMatch(ToLower(locale), order)
  }

  lemma {:induction false} FirstMatchSound(lowered: string, order: seq<string>)
    ensures || (FirstMatch(lowered, order) in order && AnyKeyIn(lowered, LocaleKeys(FirstMatch(lowered, order))))
            || (FirstMatch(lowered, order) == LangEN && forall c :: c in order ==> !AnyKeyIn(lowered, LocaleKeys(c)))
  {
    if order != [] && !AnyKeyIn(lowered, LocaleKeys(order[0])) {
      FirstMatchSound(lowered, order[1..]);
    }
  }

  /** The result matches the locale, or it is English and no language
      matches at all. */
  lemma DetectSound(locale: string, order: seq<string>)
    requires IsIterationOrder(order)
    ensures IsValidLanguage(DetectLanguageFromLocale(locale, order))
    ensures Matches(locale, DetectLanguageFromLocale(locale, order))
            || (DetectLanguageFromLocale(locale, order) == LangEN && forall c :: IsValidLanguage(c) ==> !Matches(locale, c))
  {
    if locale == "" {
      forall c | IsValidLanguage(c)
        ensures !Matches(locale, c)
      {
        assert ToLower(locale) == "";
      }
    } else {
      FirstMatchSound(ToLower(locale), order);
      assert forall c :: IsValidLanguage(c) ==> c in AllCodes;
    }
  }

  /** Detection is case-insensitive. */
  lemma DetectCaseInsensitive(locale: string, order: seq<string>)
    requires IsIterationOrder(order)
    ensures DetectLanguageFromLocale(ToLower(locale), order) == DetectLanguageFromLocale(locale, order)
  {
    ToLowerIdempotent(locale);
  }

  lemma {:induction false} FirstMatchUnique(lowered: string, order: seq<string>, c: string)
    requires c in order
    requires AnyKeyIn(lowered, LocaleKeys(c))
    requires forall d :: d in order && d != c ==> !AnyKeyIn(lowered, LocaleKeys(d))
    ensures FirstMatch(lowered, order) == c
  {
    if order[0] != c {
      FirstMatchUnique(lowered, order[1..], c);
    }
  }

  /** When exactly one language matches, the iteration order does not matter. */
  lemma DetectUniqueMatch(locale: string, order: seq<string>, c: string)
    requires IsIterationOrder(order)
    requires IsValidLanguage(c) && Matches(locale, c)
    requires forall d :: IsValidLanguage(d) && d != c ==> !Matches(locale, d)
    ensures DetectLanguageFromLocale(locale, order) == c
  {
    if locale == "" {
      assert false;
    }
    FirstMatchUnique(ToLower(locale), order, c);
  }

  /** An iteration order that visits c first. */
  function OrderFirst(c: string): (order: seq<string>)
    requires IsValidLanguage(c)
    ensures IsIterationOrder(order) && order[0] == c
  {
    if c == LangEN then AllCodes
    else if c == LangZH then [LangZH, LangEN, LangFR, LangRU]
    else if c == LangFR then [LangFR, LangEN, LangZH, LangRU]
    else [LangRU, LangEN, LangZH, LangFR]
  }

  /** Every matching language is a possible result. */
  lemma DetectAnyMatchPossible(locale: string, c: string)
    requires IsValidLanguage(c) && Matches(locale, c)
    ensures exists order :: IsIterationOrder(order) && DetectLanguageFromLocale(locale, order) == c
  {
    if locale == "" {
      assert false;
    }
    var order := OrderFirst(c);
    assert DetectLanguageFromLocale(locale, order) == c;
  }

  /** "french" contains the English key "en" as well as the French keys, so
      it is detected as English or as French depending on the order. */
  lemma FrenchIsAmbiguous()
    ensures DetectLanguageFromLocale("french", AllCodes) == LangEN
    ensures DetectLanguageFromLocale("french", OrderFirst(LangFR)) == LangFR
  {
    assert ToLower("french") == "french";
    assert OccursAt("french", "en", 2);
    assert OccursAt("french", "french", 0);
    assert Matches("french", LangEN);
    assert Matches("french", LangFR);
  }

  /** The Kelvin sign lowers to 'k', so "H\U{212A}" reads as the Hong Kong
      key "hk" and is Chinese under every iteration order. */
  lemma KelvinSignIsHongKong(order: seq<string>)
    requires IsIterationOrder(order)
    ensures DetectLanguageFromLocale("H\U{212A}", order) == LangZH
  {
    KelvinSignMatchesOnlyChinese();
    DetectUniqueMatch("H\U{212A}", order, LangZH);
  }

  lemma KelvinSignMatchesOnlyChinese()
    ensures Matches("H\U{212A}", LangZH)
    ensures forall d :: IsValidLanguage(d) && d != LangZH ==> !Matches("H\U{212A}", d)
  {
    KelvinSignLowered();
    forall d | IsValidLanguage(d)
      ensures Matches("H\U{212A}", d) <==> d == LangZH
    {
      HongKongKeyOnlyChinese(d);
    }
  }

  /** Among the table's keys, "hk" contains only the Chinese key "hk". */
  lemma HongKongKeyOnlyChinese(d: string)
    requires IsValidLanguage(d)
    ensures AnyKeyIn("hk", LocaleKeys(d)) <==> d == LangZH
  {
    if d == LangZH {
      assert OccursAt("hk", "hk", 0);
      assert Contains("hk", LocaleKeys(d)[4]);
    } else if d == LangEN {
      assert !Contains("hk", "en");
    } else if d == LangFR {
      assert !Contains("hk", "fr");
    } else {
      assert !Contains("hk", "ru");
    }
  }

  lemma KelvinSignLowered()
    ensures ToLower("H\U{212A}") == "hk"
  {
    var lowered := ToLower("H\U{212A}");
    assert lowered[0] == 'h' && lowered[1] == 'k';
  }
}
