/**
 * An interface message: a key, its parameters and an output format, rendered
 * in the context's current language.
 *
 * The PHP object holds a reference to its context and caches the looked-up
 * text in a field. Here a message is a value, and every operation that may
 * choose the current language or fill the cache takes the context, the
 * request and the session and returns them together with the new message.
 */
module Messages {
  import opened Wrappers
  import ArrayCache
  import opened I18nContext
  import Substitution
  import Html

  /** A parameter value: a string, PHP `null`, or a PHP array. */
  datatype Value = Null | Str(s: string) | List(items: seq<Value>)

  /** How `toString` renders the text. */
  datatype Format = PlainText | EscapedHtml

  /**
   * A `Message`: its key, its parameters, its format and the cached result
   * of the store lookup (`None` until the first lookup).
   */
  datatype Message = Message(key: string, params: seq<Value>, format: Format, cached: Option<ArrayCache.Hit>)

  /** The result of a message operation: its answer, and the message, context and session after it. */
  datatype Outcome<T> = Outcome(value: T, msg: Message, ctx: Context, session: Session)

  /** `new Message($key, $params, $ctx)`, which is also what `I18nContext::message` returns. */
  function NewMessage(key: string, params: seq<Value> := []): (m: Message)
    ensures m.key == key && m.params == params
    ensures m.format == PlainText && m.cached.None?
  {
    Message(key, params, PlainText, None)
  }

  /**
   * `params(...)`: the arguments are appended to the parameters, unless the
   * first one is an array, in which case its elements are appended and the
   * other arguments are dropped.
   */
  function Params(m: Message, args: seq<Value>): (r: Message)
    ensures r.key == m.key && r.format == m.format && r.cached == m.cached
    ensures |r.params| >= |m.params| && r.params[..|m.params|] == m.params
    ensures (|args| == 0 || !args[0].List?) ==> r.params[|m.params|..] == args
    ensures |args| > 0 && args[0].List? ==> r.params[|m.params|..] == args[0].items
  {
    var added := if |args| > 0 && args[0].List? then args[0].items else args;
    m.(params := m.params + added)
  }

  /** A parameter as `strtr` reads it: `null` is empty and an array is the word `Array`. */
  function ValueText(v: Value): string {
    match v
    case Null => ""
    case Str(s) => s
    case List(_) => "Array"
  }

  /** The placeholder table `toString` builds: `$n` stands for the n-th parameter's text. */
  function Replacements(params: seq<Value>): (r: Substitution.Pairs)
    ensures |r| == |params|
    ensures forall n :: 0 <= n < |params| ==> r[n] == (Substitution.Key(n + 1), ValueText(params[n]))
  {
    Substitution.Placeholders(seq(|params|, i requires 0 <= i < |params| => ValueText(params[i])))
  }

  /**
   * `fetchMessage`: the first lookup asks the store for the key in the
   * current language and then the default language, and caches the answer,
   * a miss included; later calls return the cached answer and consult
   * nothing.
   */
  function Fetch(m: Message, c: Context, req: Request, s: Session): (r: Outcome<ArrayCache.Hit>)
    ensures m.cached.Some? ==> r == Outcome(m.cached.value, m, c, s)
    ensures r.msg == m.(cached := Some(r.value))
    ensures r.ctx.cache == c.cache && r.ctx.defaultLanguage == c.defaultLanguage
    ensures m.cached.None? ==> r.ctx.currentLang == Some(GetCurrentLanguage(c, req, s).lang)
    ensures m.cached.None? ==>
      var langs := [r.ctx.currentLang.value, c.defaultLanguage];
      && (r.value.Found? <==> exists l :: l in langs && ArrayCache.Has(c.cache, l, m.key))
      && (ArrayCache.Has(c.cache, langs[0], m.key) ==> r.value == ArrayCache.Found(ArrayCache.TextOf(c.cache, langs[0], m.key)))
      && (!ArrayCache.Has(c.cache, langs[0], m.key) && ArrayCache.Has(c.cache, langs[1], m.key) ==>
            r.value == ArrayCache.Found(ArrayCache.TextOf(c.cache, langs[1], m.key)))
  {
    match m.cached
    case Some(hit) => Outcome(hit, m, c, s)
    case None =>
      var cur := GetCurrentLanguage(c, req, s);
      var langs := [cur.lang, GetDefaultLanguage(cur.ctx)];
      var hit := ArrayCache.Get(cur.ctx.cache, m.key, ArrayCache.Many(langs));
      assert hit.Found? && !ArrayCache.Has(c.cache, langs[0], m.key) ==> hit == ArrayCache.Found(ArrayCache.TextOf(c.cache, langs[1], m.key)) by {
        if hit.Found? && !ArrayCache.Has(c.cache, langs[0], m.key) {
          var i :| 0 <= i < 2 && ArrayCache.Has(c.cache, langs[i], m.key) && hit.text == ArrayCache.TextOf(c.cache, langs[i], m.key);
          assert i == 1;
        }
      }
      Outcome(hit, m.(cached := Some(hit)), cur.ctx, cur.session)
  }

  /**
   * `exists`: whether the lookup finds a text. For a message not yet looked
   * up, that is whether the current or the default language has the key.
   */
  function Exists(m: Message, c: Context, req: Request, s: Session): (r: Outcome<bool>)
    ensures m.cached.Some? ==> r.value == m.cached.value.Found? && r.ctx == c && r.session == s
    ensures m.cached.None? ==>
      && r.ctx.currentLang.Some?
      && (r.value <==> ArrayCache.Has(c.cache, r.ctx.currentLang.value, m.key) || ArrayCache.Has(c.cache, c.defaultLanguage, m.key))
    ensures r.ctx.cache == c.cache && r.ctx.defaultLanguage == c.defaultLanguage
    ensures r.msg.key == m.key && r.msg.params == m.params && r.msg.cached.Some? && r.value == r.msg.cached.value.Found?
  {
    var f := Fetch(m, c, req, s);
    assert m.cached.None? ==>
      && f.ctx.currentLang.value in [f.ctx.currentLang.value, c.defaultLanguage]
      && c.defaultLanguage in [f.ctx.currentLang.value, c.defaultLanguage];
    Outcome(f.value.Found?, f.msg, f.ctx, f.session)
  }

  /**
   * `isBlank`: the lookup finds nothing or the empty text. For a message not
   * yet looked up: neither language has the key, or the current language
   * holds it empty, or only the default has it and holds it empty.
   */
  function IsBlank(m: Message, c: Context, req: Request, s: Session): (r: Outcome<bool>)
    ensures m.cached.Some? ==> (r.value <==> !m.cached.value.Found? || m.cached.value.text == "") && r.ctx == c && r.session == s
    ensures m.cached.None? ==> r.ctx.currentLang.Some?
    ensures m.cached.None? ==>
      var cur := r.ctx.currentLang.value;
      var def := c.defaultLanguage;
      (r.value <==>
        || (!ArrayCache.Has(c.cache, cur, m.key) && !ArrayCache.Has(c.cache, def, m.key))
        || (ArrayCache.Has(c.cache, cur, m.key) && ArrayCache.TextOf(c.cache, cur, m.key) == "")
        || (!ArrayCache.Has(c.cache, cur, m.key) && ArrayCache.Has(c.cache, def, m.key) && ArrayCache.TextOf(c.cache, def, m.key) == ""))
    ensures r.ctx.cache == c.cache && r.ctx.defaultLanguage == c.defaultLanguage
    ensures r.msg.key == m.key && r.msg.params == m.params && r.msg.cached.Some?
  {
    var f := Fetch(m, c, req, s);
    assert m.cached.None? ==>
      && f.ctx.currentLang.value in [f.ctx.currentLang.value, c.defaultLanguage]
      && c.defaultLanguage in [f.ctx.currentLang.value, c.defaultLanguage];
    Outcome(f.value == ArrayCache.NotFound || f.value == ArrayCache.Found(""), f.msg, f.ctx, f.session)
  }

  /** The text a key renders as when the store has no message for it. */
  function MissingMarker(key: string): string {
    "<" + key + ">"
  }

  /** The text of a lookup, or the marker of a missing key. */
  function RawText(key: string, hit: ArrayCache.Hit): string {
    match hit
    case Found(t) => t
    case NotFound => MissingMarker(key)
  }

  /**
   * `toString`: in `qqx` the key in parentheses; otherwise the looked-up
   * text (or `<key>` when there is none) with `$1`, `$2`, … replaced by the
   * parameters, and HTML-escaped in the escaped format.
   */
  function ToString(m: Message, c: Context, req: Request, s: Session): (r: Outcome<string>)
    ensures r.msg.key == m.key && r.msg.params == m.params && r.msg.format == m.format
    ensures r.ctx.cache == c.cache && r.ctx.defaultLanguage == c.defaultLanguage && r.ctx.currentLang.Some?
    ensures r.ctx.currentLang.value == Qqx ==> r.value == "(" + m.key + ")" && r.msg == m
    ensures r.ctx.currentLang.value != Qqx ==> r.msg.cached.Some? && (m.cached.Some? ==> r.msg.cached == m.cached)
    ensures r.ctx.currentLang.value != Qqx ==>
      var text := Substitution.Strtr(RawText(m.key, r.msg.cached.value), Replacements(m.params));
      r.value == if m.format == EscapedHtml then Html.Escape(text, Html.Html401Names) else text
  {
    var cur := GetCurrentLanguage(c, req, s);
    if cur.lang == Qqx then Outcome("(" + m.key + ")", m, cur.ctx, cur.session)
    else
      var f := Fetch(m, cur.ctx, req, cur.session);
      var text := Substitution.Strtr(RawText(m.key, f.value), Replacements(m.params));
      var out := if m.format == EscapedHtml then Html.Escape(text, Html.Html401Names) else text;
      Outcome(out, f.msg, f.ctx, f.session)
  }

  /** `plain`: switches the message to plain text and renders it. */
  function Plain(m: Message, c: Context, req: Request, s: Session): (r: Outcome<string>)
    ensures r.msg.format == PlainText
    ensures r.msg.key == m.key && r.msg.params == m.params
  {
    ToString(m.(format := PlainText), c, req, s)
  }

  /** `escaped`: switches the message to escaped HTML and renders it. */
  function Escaped(m: Message, c: Context, req: Request, s: Session): (r: Outcome<string>)
    ensures r.msg.format == EscapedHtml
    ensures r.msg.key == m.key && r.msg.params == m.params
  {
    ToString(m.(format := EscapedHtml), c, req, s)
  }

  // ---------------------------------------------------------------------
  // Properties of messages
  // ---------------------------------------------------------------------

  /** The array form of `params` is the same as passing the array's elements one by one. */
  lemma ParamsArrayForm(m: Message, items: seq<Value>)
    requires |items| == 0 || !items[0].List?
    ensures Params(m, [List(items)]) == Params(m, items)
  {
  }

  /** Two calls of `params` append like one call with both argument lists. */
  lemma ParamsTwice(m: Message, a: seq<Value>, b: seq<Value>)
    requires |a| > 0 && !a[0].List? && (|b| == 0 || !b[0].List?)
    ensures Params(Params(m, a), b) == Params(m, a + b)
  {
    assert (a + b)[0] == a[0];
    assert m.params + a + b == m.params + (a + b);
  }

  /** The lookup happens once: later fetches return the cached answer whatever the context, request and session. */
  lemma FetchOnce(m: Message, c: Context, req: Request, s: Session, c2: Context, req2: Request, s2: Session)
    ensures var f := Fetch(m, c, req, s);
      Fetch(f.msg, c2, req2, s2) == Outcome(f.value, f.msg, c2, s2)
  {
  }

  /** A message is blank exactly when it does not exist or its text is empty; in particular a missing message is blank. */
  lemma BlankIffMissingOrEmpty(m: Message, c: Context, req: Request, s: Session)
    ensures IsBlank(m, c, req, s).value <==>
      (!Exists(m, c, req, s).value || Fetch(m, c, req, s).value.text == "")
    ensures !Exists(m, c, req, s).value ==> IsBlank(m, c, req, s).value
  {
  }

  /** In `qqx` every format renders the key in parentheses, unescaped, and nothing is looked up. */
  lemma QqxRendersKey(m: Message, c: Context, req: Request, s: Session)
    requires GetCurrentLanguage(c, req, s).lang == Qqx
    ensures Plain(m, c, req, s).value == "(" + m.key + ")"
    ensures Escaped(m, c, req, s).value == "(" + m.key + ")"
    ensures Escaped(m, c, req, s).msg.cached == m.cached
  {
  }

  /** Outside `qqx`, the escaped rendering is the plain rendering passed through `htmlspecialchars`. */
  lemma EscapedIsEscapedPlain(m: Message, c: Context, req: Request, s: Session)
    requires GetCurrentLanguage(c, req, s).lang != Qqx
    ensures Escaped(m, c, req, s).value == Html.Escape(Plain(m, c, req, s).value, Html.Html401Names)
    ensures Escaped(m, c, req, s).msg == Plain(m, c, req, s).msg.(format := EscapedHtml)
    ensures Escaped(m, c, req, s).ctx == Plain(m, c, req, s).ctx
    ensures Escaped(m, c, req, s).session == Plain(m, c, req, s).session
  {
  }

  /** The escaped rendering is never encoded twice: escaping it again changes nothing. */
  lemma EscapedIsStable(m: Message, c: Context, req: Request, s: Session)
    requires GetCurrentLanguage(c, req, s).lang != Qqx
    ensures Html.Escape(Escaped(m, c, req, s).value, Html.Html401Names) == Escaped(m, c, req, s).value
    ensures Html.WellEscaped(Escaped(m, c, req, s).value, Html.Html401Names)
  {
    var p := Plain(m, c, req, s).value;
    EscapedIsEscapedPlain(m, c, req, s);
    Html.Html401Basic();
    Html.EscapeIdempotent(p, Html.Html401Names);
    Html.EscapeWellEscaped(p, Html.Html401Names);
  }

  /**
   * Rendering is stable: rendering the message again, in the context it
   * left, gives the same text and changes nothing, whatever the new request
   * and session.
   */
  lemma RenderAgain(m: Message, c: Context, req: Request, s: Session, req2: Request, s2: Session)
    ensures var r := ToString(m, c, req, s);
      ToString(r.msg, r.ctx, req2, s2) == Outcome(r.value, r.msg, r.ctx, s2)
  {
  }

  /**
   * A message not yet looked up, whose key the current language has (the
   * language already set, or the one detected now), renders as that text
   * with its placeholders replaced; it exists, and it is blank exactly when
   * the text is empty.
   */
  lemma RenderFound(m: Message, c: Context, req: Request, s: Session)
    requires m.cached.None? && GetCurrentLanguage(c, req, s).lang != Qqx
    requires ArrayCache.Has(c.cache, GetCurrentLanguage(c, req, s).lang, m.key)
    ensures var text := ArrayCache.TextOf(c.cache, GetCurrentLanguage(c, req, s).lang, m.key);
      && Plain(m, c, req, s).value == Substitution.Strtr(text, Replacements(m.params))
      && Exists(m, c, req, s).value
      && (IsBlank(m, c, req, s).value <==> text == "")
  {
    PlainOfFetch(m, c, req, s);
  }

  /**
   * A message not yet looked up, whose key the current language lacks but
   * the default language has, falls back to the default's text: it renders
   * that text with its placeholders replaced, exists, and is blank exactly
   * when that text is empty.
   */
  lemma RenderDefault(m: Message, c: Context, req: Request, s: Session)
    requires m.cached.None? && GetCurrentLanguage(c, req, s).lang != Qqx
    requires !ArrayCache.Has(c.cache, GetCurrentLanguage(c, req, s).lang, m.key)
    requires ArrayCache.Has(c.cache, c.defaultLanguage, m.key)
    ensures var text := ArrayCache.TextOf(c.cache, c.defaultLanguage, m.key);
      && Plain(m, c, req, s).value == Substitution.Strtr(text, Replacements(m.params))
      && Exists(m, c, req, s).value
      && (IsBlank(m, c, req, s).value <==> text == "")
  {
    PlainOfFetch(m, c, req, s);
  }

  /**
   * A message that neither the current nor the default language has
   * renders as `<key>` (its placeholders replaced, if the key has any); it
   * does not exist and it is blank.
   */
  lemma RenderMissing(m: Message, c: Context, req: Request, s: Session)
    requires m.cached.None? && GetCurrentLanguage(c, req, s).lang != Qqx
    requires !ArrayCache.Has(c.cache, GetCurrentLanguage(c, req, s).lang, m.key)
    requires !ArrayCache.Has(c.cache, c.defaultLanguage, m.key)
    ensures Plain(m, c, req, s).value == Substitution.Strtr(MissingMarker(m.key), Replacements(m.params))
    ensures !Exists(m, c, req, s).value && IsBlank(m, c, req, s).value
  {
    PlainOfFetch(m, c, req, s);
  }

  /**
   * Outside `qqx`, the plain rendering of a message not yet looked up
   * substitutes the raw text of its lookup, which `toString` makes after
   * choosing the current language.
   */
  lemma PlainOfFetch(m: Message, c: Context, req: Request, s: Session)
    requires m.cached.None? && GetCurrentLanguage(c, req, s).lang != Qqx
    ensures Plain(m, c, req, s).value == Substitution.Strtr(RawText(m.key, Fetch(m, c, req, s).value), Replacements(m.params))
  {
    var p := m.(format := PlainText);
    var cur := GetCurrentLanguage(c, req, s);
    FetchAfterChoice(p, c, req, s);
    FetchIgnoresFormat(m, p, c, req, s);
  }

  /** Looking up after the language is chosen finds what the lookup that chooses it finds. */
  lemma FetchAfterChoice(m: Message, c: Context, req: Request, s: Session)
    requires m.cached.None?
    ensures var cur := GetCurrentLanguage(c, req, s);
      Fetch(m, cur.ctx, req, cur.session).value == Fetch(m, c, req, s).value
  {
    var cur := GetCurrentLanguage(c, req, s);
    DetectOnce(c, req, s, req, cur.session);
  }

  /** The lookup does not depend on the output format. */
  lemma FetchIgnoresFormat(m: Message, p: Message, c: Context, req: Request, s: Session)
    requires m.cached.None? && p == m.(format := p.format)
    ensures Fetch(p, c, req, s).value == Fetch(m, c, req, s).value
  {
  }
}
