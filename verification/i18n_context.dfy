/**
 * The language context: the message store, the configured default language
 * and the current language, which is detected lazily on first use.
 *
 * The PHP superglobals become explicit values: the request's `uselang`
 * parameter and Accept-Language header are an input, and the session is a
 * map threaded through every call that may write it.
 */
module I18nContext {
  import opened Wrappers
  import opened ArrayCache
  import AcceptLanguage

  /** The debug pseudo-language: messages render as their keys. */
  const Qqx: string := "qqx"

  /** The request parameter and session key that carry a chosen language. */
  const UseLang: string := "uselang"

  /** The default language when the constructor is given none. */
  const FallbackDefault: string := "en"

  /** What the context reads from the request: `$_REQUEST['uselang']` and the Accept-Language header. */
  datatype Request = Request(uselang: Option<string>, acceptLanguage: Option<string>)

  /** `$_SESSION`; a key that is absent or holds null is not set. */
  type Session = map<string, string>

  /** An `I18nContext`: its store, its default language and the current language once chosen. */
  datatype Context = Context(cache: Table, defaultLanguage: string, currentLang: Option<string>)

  /** The result of an operation that may choose a language: that language, the context and the session after it. */
  datatype Chosen = Chosen(lang: string, ctx: Context, session: Session)

  /** `new I18nContext($cache, $defaultLanguage)`. */
  function NewContext(cache: Table, defaultLanguage: string := FallbackDefault): (c: Context)
    ensures c.cache == cache && c.defaultLanguage == defaultLanguage
    ensures c.currentLang.None?
  {
    Context(cache, defaultLanguage, None)
  }

  /** `setDefaultLangauge`: replaces the default and nothing else. */
  function SetDefaultLanguage(c: Context, lang: string): (r: Context)
    ensures r.defaultLanguage == lang
    ensures r.cache == c.cache && r.currentLang == c.currentLang
  {
    c.(defaultLanguage := lang)
  }

  /** `getDefaultLanguage`: setting the default back to it leaves the context as it was. */
  function GetDefaultLanguage(c: Context): (r: string)
    ensures SetDefaultLanguage(c, r) == c
  {
    c.defaultLanguage
  }

  /** `getAvailableLanguages`: the languages of the store, in the store's order. */
  function AvailableLanguages(c: Context): (r: seq<string>)
    ensures forall l :: l in r <==> l in c.cache.messages
  {
    ArrayCache.AvailableLanguages(c.cache)
  }

  /** A language the context may settle on: `qqx`, one the store has, or the default. */
  predicate Allowed(c: Context, lang: string) {
    lang == Qqx || lang in AvailableLanguages(c) || lang == c.defaultLanguage
  }

  /**
   * `setCurrentLanguage`: `qqx` is taken as is and the session left alone;
   * any other language the store lacks becomes the default, and the choice
   * is remembered in the session.
   */
  function SetCurrentLanguage(c: Context, s: Session, lang: string): (r: Chosen)
    ensures r.ctx.cache == c.cache && r.ctx.defaultLanguage == c.defaultLanguage
    ensures r.ctx.currentLang == Some(r.lang)
    ensures Allowed(c, r.lang)
    ensures r.lang == lang <==> Allowed(c, lang)
    ensures r.lang != lang ==> r.lang == c.defaultLanguage
    ensures lang == Qqx ==> r.session == s
    ensures lang != Qqx ==> UseLang in r.session && r.session[UseLang] == r.lang
    ensures forall k :: k != UseLang ==> (k in r.session <==> k in s)
    ensures forall k :: k != UseLang && k in s ==> r.session[k] == s[k]
  {
    if lang == Qqx then
      Chosen(lang, c.(currentLang := Some(lang)), s)
    else
      var chosen := if lang in AvailableLanguages(c) then lang else c.defaultLanguage;
      Chosen(chosen, c.(currentLang := Some(chosen)), s[UseLang := chosen])
  }

  /**
   * `array_intersect($wants, $available)` followed by `current()`: the first
   * wanted language that is available, if any.
   */
  function FirstAvailable(wants: seq<string>, available: seq<string>): (r: Option<string>)
    ensures r.None? <==> forall i :: 0 <= i < |wants| ==> wants[i] !in available
    ensures r.Some? ==>
      exists i :: 0 <= i < |wants| && wants[i] == r.value && r.value in available
        && forall j :: 0 <= j < i ==> wants[j] !in available
  {
    if |wants| == 0 then None
    else if wants[0] in available then Some(wants[0])
    else
      var r := FirstAvailable(wants[1..], available);
      assert r.Some? ==>
        exists i :: 1 <= i < |wants| && wants[i] == r.value && r.value in available
          && forall j :: 0 <= j < i ==> wants[j] !in available
      by {
        if r.Some? {
          var i :| 0 <= i < |wants[1..]| && wants[1..][i] == r.value && r.value in available
            && forall j :: 0 <= j < i ==> wants[1..][j] !in available;
          assert wants[i + 1] == r.value;
          forall j | 0 <= j < i + 1
            ensures wants[j] !in available
          {
            if j > 0 {
              assert wants[j] == wants[1..][j - 1];
            }
          }
        }
      }
      r
  }

  /**
   * The language detection asks for: the request's `uselang`, else the
   * session's, else the first available preference of the header, else the
   * default. `isset` treats an empty string as set.
   */
  function Requested(c: Context, req: Request, s: Session): (r: string)
    ensures req.uselang.Some? ==> r == req.uselang.value
    ensures req.uselang.None? && UseLang in s ==> r == s[UseLang]
    ensures req.uselang.None? && UseLang !in s ==>
      var wants := AcceptLanguage.ParseAcceptLanguage(req.acceptLanguage);
      || (exists i :: 0 <= i < |wants| && r == wants[i] && wants[i] in AvailableLanguages(c)
            && forall j :: 0 <= j < i ==> wants[j] !in AvailableLanguages(c))
      || ((forall i :: 0 <= i < |wants| ==> wants[i] !in AvailableLanguages(c)) && r == c.defaultLanguage)
  {
    if req.uselang.Some? then req.uselang.value
    else if UseLang in s then s[UseLang]
    else
      match FirstAvailable(AcceptLanguage.ParseAcceptLanguage(req.acceptLanguage), AvailableLanguages(c))
      case Some(l) => l
      case None => c.defaultLanguage
  }

  /**
   * `getCurrentLanguage`: a language already chosen is returned as is, with
   * nothing changed; otherwise the requested language is passed through
   * `setCurrentLanguage`.
   */
  function GetCurrentLanguage(c: Context, req: Request, s: Session): (r: Chosen)
    ensures c.currentLang.Some? ==> r == Chosen(c.currentLang.value, c, s)
    ensures c.currentLang.None? ==> Allowed(c, r.lang)
    ensures r.ctx.cache == c.cache && r.ctx.defaultLanguage == c.defaultLanguage
    ensures r.ctx.currentLang == Some(r.lang)
  {
    match c.currentLang
    case Some(l) => Chosen(l, c, s)
    case None => SetCurrentLanguage(c, s, Requested(c, req, s))
  }

  // ---------------------------------------------------------------------
  // Properties of language selection
  // ---------------------------------------------------------------------

  /** The default language read back is the one last set. */
  lemma DefaultLanguageRoundTrip(c: Context, a: string, b: string)
    ensures GetDefaultLanguage(SetDefaultLanguage(c, a)) == a
    ensures SetDefaultLanguage(SetDefaultLanguage(c, a), b) == SetDefaultLanguage(c, b)
  {
  }

  /** After `setCurrentLanguage`, `getCurrentLanguage` returns that choice whatever the request and session say. */
  lemma SetThenGet(c: Context, s: Session, lang: string, req: Request, s2: Session)
    ensures var chosen := SetCurrentLanguage(c, s, lang);
      GetCurrentLanguage(chosen.ctx, req, s2) == Chosen(chosen.lang, chosen.ctx, s2)
  {
  }

  /** Detection happens once: later calls return the same language, change nothing and ignore new inputs. */
  lemma DetectOnce(c: Context, req: Request, s: Session, req2: Request, s2: Session)
    ensures var first := GetCurrentLanguage(c, req, s);
      GetCurrentLanguage(first.ctx, req2, s2) == Chosen(first.lang, first.ctx, s2)
  {
  }

  /** Setting the same language twice is the same as setting it once. */
  lemma SetCurrentIdempotent(c: Context, s: Session, lang: string)
    ensures var once := SetCurrentLanguage(c, s, lang);
      SetCurrentLanguage(once.ctx, once.session, lang) == once
  {
    var once := SetCurrentLanguage(c, s, lang);
    if lang != Qqx {
      assert once.session[UseLang := once.lang] == once.session;
    }
  }

  /**
   * A request's `uselang` decides the language, checked against the store;
   * the session and the header are not consulted.
   */
  lemma RequestWins(c: Context, req: Request, s: Session, l: string)
    requires c.currentLang.None? && req.uselang == Some(l)
    ensures var r := GetCurrentLanguage(c, req, s);
      && (Allowed(c, l) ==> r.lang == l)
      && (!Allowed(c, l) ==> r.lang == c.defaultLanguage)
      && forall h: Option<string>, s2: Session ::
        GetCurrentLanguage(c, Request(req.uselang, h), s2).lang == r.lang
  {
  }

  /** Without a request override, the session's `uselang` decides, checked against the store; the header is not consulted. */
  lemma SessionNext(c: Context, req: Request, s: Session)
    requires c.currentLang.None? && req.uselang.None? && UseLang in s
    ensures var r := GetCurrentLanguage(c, req, s);
      && (Allowed(c, s[UseLang]) ==> r.lang == s[UseLang])
      && (!Allowed(c, s[UseLang]) ==> r.lang == c.defaultLanguage)
      && forall h: Option<string> :: GetCurrentLanguage(c, Request(None, h), s).lang == r.lang
  {
  }

  /**
   * With neither override, the language is the first preference of the
   * header that the store has, or the default when there is none.
   */
  lemma HeaderLast(c: Context, req: Request, s: Session)
    requires c.currentLang.None? && req.uselang.None? && UseLang !in s
    ensures var r := GetCurrentLanguage(c, req, s);
      var wants := AcceptLanguage.ParseAcceptLanguage(req.acceptLanguage);
      && ((exists i :: 0 <= i < |wants| && r.lang == wants[i] && wants[i] in AvailableLanguages(c)
            && forall j :: 0 <= j < i ==> wants[j] !in AvailableLanguages(c))
          || ((forall i :: 0 <= i < |wants| ==> wants[i] !in AvailableLanguages(c)) && r.lang == c.defaultLanguage))
  {
    var q := Requested(c, req, s);
    assert Allowed(c, q);
  }

  /** A freshly detected language other than `qqx` is written to the session; nothing else in it changes. */
  lemma DetectedIsRemembered(c: Context, req: Request, s: Session)
    requires c.currentLang.None?
    ensures var r := GetCurrentLanguage(c, req, s);
      && (r.lang != Qqx ==> UseLang in r.session && r.session[UseLang] == r.lang)
      && forall k :: k != UseLang ==> (k in r.session <==> k in s) && (k in s ==> r.session[k] == s[k])
  {
  }
}
