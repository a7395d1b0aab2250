/**
 * The language-selection cases of the library's test suite: a store with
 * the languages `en` and `default`, a context whose default is `default`,
 * and a language given by the request, by the session or by the header.
 */
module I18nContextExamples {
  import opened Wrappers
  import opened Text
  import ArrayCache
  import opened AcceptLanguage
  import opened AcceptLanguageExamples
  import opened AcceptLanguageVectors
  import opened I18nContext

  /** A store with the languages `en` and `default` and no messages. */
  function TwoLanguages(): ArrayCache.Table {
    var t := ArrayCache.RawTable(["en", "default"], map["en" := map[], "default" := map[]]);
    assert t.Valid();
    t
  }

  function Fixture(): Context {
    NewContext(TwoLanguages(), "default")
  }

  lemma FixtureLanguages()
    ensures AvailableLanguages(Fixture()) == ["en", "default"]
    ensures Allowed(Fixture(), "en") && Allowed(Fixture(), "default")
    ensures !Allowed(Fixture(), "") && !Allowed(Fixture(), "fr")
  {
  }

  /** A request for `en` is honoured and remembered; `""` and `fr` fall back to the default. */
  lemma FromRequest()
    ensures var r := GetCurrentLanguage(Fixture(), Request(Some("en"), None), map[]);
      r.lang == "en" && r.session == map[UseLang := "en"]
    ensures var r := GetCurrentLanguage(Fixture(), Request(None, None), map[]);
      r.lang == "default" && r.session == map[UseLang := "default"]
    ensures var r := GetCurrentLanguage(Fixture(), Request(Some(""), None), map[]);
      r.lang == "default" && r.session == map[UseLang := "default"]
    ensures var r := GetCurrentLanguage(Fixture(), Request(Some("fr"), None), map[]);
      r.lang == "default" && r.session == map[UseLang := "default"]
  {
    FixtureLanguages();
    ParseAbsentAndEmpty();
  }

  /**
   * A session holding `en` is honoured; `""` and `fr` fall back to the
   * default, and so does a session without `uselang` (PHP's `null`, which
   * `isset` rejects) when there is no header either.
   */
  lemma FromSession()
    ensures var r := GetCurrentLanguage(Fixture(), Request(None, None), map[UseLang := "en"]);
      r.lang == "en" && r.session == map[UseLang := "en"]
    ensures var r := GetCurrentLanguage(Fixture(), Request(None, None), map[]);
      r.lang == "default" && r.session == map[UseLang := "default"]
    ensures var r := GetCurrentLanguage(Fixture(), Request(None, None), map[UseLang := ""]);
      r.lang == "default" && r.session == map[UseLang := "default"]
    ensures var r := GetCurrentLanguage(Fixture(), Request(None, None), map[UseLang := "fr"]);
      r.lang == "default" && r.session == map[UseLang := "default"]
  {
    FixtureLanguages();
    ParseAbsentAndEmpty();
  }

  /** With neither override, a header whose first available preference is `lang` selects `lang` and remembers it. */
  lemma ChosenFromHeader(c: Context, req: Request, lang: string)
    requires c.currentLang.None? && req.uselang.None? && lang != Qqx
    requires FirstAvailable(ParseAcceptLanguage(req.acceptLanguage), AvailableLanguages(c)) == Some(lang)
    ensures var r := GetCurrentLanguage(c, req, map[]);
      r.lang == lang && r.session == map[UseLang := lang]
  {
    assert Requested(c, req, map[]) == lang;
    assert lang in AvailableLanguages(c);
  }

  /** With neither override, a header none of whose preferences is available selects the default. */
  lemma DefaultFromHeader(c: Context, req: Request)
    requires c.currentLang.None? && req.uselang.None?
    requires FirstAvailable(ParseAcceptLanguage(req.acceptLanguage), AvailableLanguages(c)) == None
    ensures GetCurrentLanguage(c, req, map[]).lang == c.defaultLanguage
  {
    assert Requested(c, req, map[]) == c.defaultLanguage;
  }

  /** Of the mixed header's preferences, `en` is the first the fixture has. */
  lemma FirstOfMixed(wants: seq<string>, available: seq<string>)
    requires wants == ["baz", "en-us", "en", "default", "bar"] && available == ["en", "default"]
    ensures FirstAvailable(wants, available) == Some("en")
  {
    assert wants[0] !in available && wants[1] !in available;
    assert wants[2] in available;
  }

  /** `bar;q=0.8,baz,en-us,en,default` selects `en`, the best preference the store has. */
  lemma FromHeader(es: seq<string>)
    requires es == ["bar;q=0.8", "baz", "en-us", "en", "default"]
    ensures var r := GetCurrentLanguage(Fixture(), Request(None, Some(Join(es, ','))), map[]);
      r.lang == "en" && r.session == map[UseLang := "en"]
  {
    MixedWeights(es);
    FixtureLanguages();
    FirstOfMixed(["baz", "en-us", "en", "default", "bar"], ["en", "default"]);
    ChosenFromHeader(Fixture(), Request(None, Some(Join(es, ','))), "en");
  }

  /** An absent header leaves the fixture at its default. */
  lemma NoHeader()
    ensures GetCurrentLanguage(Fixture(), Request(None, None), map[]).lang == "default"
  {
    ParseAbsentAndEmpty();
    DefaultFromHeader(Fixture(), Request(None, None));
  }

  /** An empty header asks for the empty tag, which the fixture lacks. */
  lemma EmptyHeader()
    ensures GetCurrentLanguage(Fixture(), Request(None, Some("")), map[]).lang == "default"
  {
    FixtureLanguages();
    ParseAbsentAndEmpty();
    assert FirstAvailable([""], ["en", "default"]) == None;
    DefaultFromHeader(Fixture(), Request(None, Some("")));
  }

  /** The header `fr` asks only for `fr`. */
  lemma OnlyFr(h: string)
    requires h == "fr"
    ensures ParseAcceptLanguage(Some(h)) == ["fr"]
  {
    assert h[0] != ',' && h[1] != ',' && h[0] != ';' && h[1] != ';';
    assert !IsSpace(h[0]) && !IsSpace(h[1]);
    BareHeader(h);
    assert ToLower(h) == "fr";
    BareTag(h, "fr");
  }

  /** A header naming only a language the fixture lacks falls back to the default. */
  lemma UnknownHeader(h: string)
    requires h == "fr"
    ensures GetCurrentLanguage(Fixture(), Request(None, Some(h)), map[]).lang == "default"
  {
    FixtureLanguages();
    OnlyFr(h);
    assert FirstAvailable(["fr"], ["en", "default"]) == None;
    DefaultFromHeader(Fixture(), Request(None, Some(h)));
  }

  /** An absent, an empty and an unknown header all give the default. */
  lemma HeaderFallsBack()
    ensures GetCurrentLanguage(Fixture(), Request(None, None), map[]).lang == "default"
    ensures GetCurrentLanguage(Fixture(), Request(None, Some("")), map[]).lang == "default"
    ensures GetCurrentLanguage(Fixture(), Request(None, Some("fr")), map[]).lang == "default"
  {
    NoHeader();
    EmptyHeader();
    UnknownHeader("fr");
  }
}
