/**
 * The message-rendering cases of the library's test suite: a store with one
 * message in `en`, a context whose current and default language is `en`,
 * and the plain and escaped renderings of messages with and without
 * parameters.
 */
module MessageExamples {
  import opened Wrappers
  import ArrayCache
  import opened I18nContext
  import Substitution
  import Html
  import opened Messages

  /** A store whose `en` table has the one message `key`. */
  function OneMessage(key: string, text: string): ArrayCache.Table {
    var t := ArrayCache.RawTable(["en"], map["en" := map[key := Some(text)]]);
    assert t.Valid();
    t
  }

  /** A context over `OneMessage(key, text)` whose current language is already `en`. */
  function EnContext(key: string, text: string): Context {
    Context(OneMessage(key, text), "en", Some("en"))
  }

  /** The placeholder table of a list of string parameters. */
  lemma ReplacementsOfStrings(texts: seq<string>)
    ensures Replacements(seq(|texts|, i requires 0 <= i < |texts| => Str(texts[i]))) == Substitution.Placeholders(texts)
  {
  }

  /**
   * The shape of every case: a message whose text substitutes to `plain`
   * exists, is not blank, renders `plain`, and then renders `escaped` in
   * the escaped format.
   */
  lemma Generation(key: string, text: string, params: seq<Value>, plain: string, escaped: string, req: Request, s: Session)
    requires text != ""
    requires Substitution.Strtr(text, Replacements(params)) == plain
    requires Html.Escape(plain, Html.Html401Names) == escaped
    ensures var m := NewMessage(key, params);
      var c := EnContext(key, text);
      var p := Plain(m, c, req, s);
      && Exists(m, c, req, s).value
      && !IsBlank(m, c, req, s).value
      && p.value == plain
      && Escaped(p.msg, p.ctx, req, p.session).value == escaped
  {
    var m := NewMessage(key, params);
    var c := EnContext(key, text);
    RenderFound(m, c, req, s);
    var p := Plain(m, c, req, s);
    RenderAgain(m.(format := EscapedHtml), c, req, s, req, p.session);
  }

  /** The text of `$1` and `$2`. */
  lemma SmallKeys()
    ensures Substitution.Key(1) == "$1" && Substitution.Key(2) == "$2"
  {
  }

  /** `<t>` for text `t` without special characters escapes to `&lt;t&gt;`. */
  lemma EscapedBrackets(t: string, plain: string, escaped: string)
    requires Html.Plain(t) && plain == "<" + t + ">" && escaped == "&lt;" + t + "&gt;"
    ensures Html.Escape(plain, Html.Html401Names) == escaped
  {
    Html.EscapeBracketed(t, Html.Html401Names);
  }

  /** Text without `$` is unchanged when there are no parameters. */
  lemma NothingToReplace(text: string)
    requires '$' !in text
    ensures Substitution.Strtr(text, Replacements([])) == text
  {
    Substitution.PlaceholderFree(text, []);
    assert Replacements([]) == Substitution.Placeholders([]);
  }

  /** The two marker-like texts of the cases hold no `$`, so substitution leaves them alone. */
  lemma NoDollar(text: string)
    requires text == "<missing-key>" || text == "<something>"
    ensures Substitution.Strtr(text, Replacements([])) == text
  {
    NothingToReplace(text);
  }

  /** `<something>` has no placeholders: it renders as it is, and escaped as `&lt;something&gt;`. */
  lemma NoParameters(text: string, escaped: string, req: Request, s: Session)
    requires text == "<something>" && escaped == "&lt;something&gt;"
    ensures var m := NewMessage("test-key", []);
      var p := Plain(m, EnContext("test-key", text), req, s);
      && p.value == text
      && Escaped(p.msg, p.ctx, req, p.session).value == escaped
  {
    NoDollar(text);
    SomethingEscaped(text, escaped);
    Generation("test-key", text, [], text, escaped, req, s);
  }

  /** `<something>` escapes to `&lt;something&gt;`. */
  lemma SomethingEscaped(plain: string, escaped: string)
    requires plain == "<something>" && escaped == "&lt;something&gt;"
    ensures Html.Escape(plain, Html.Html401Names) == escaped
  {
    EscapedBrackets("something", plain, escaped);
  }

  /** `<$1>` with the one parameter `something` substitutes to `<something>`. */
  lemma ReplaceOne(text: string, plain: string)
    requires text == "<$1>" && plain == "<something>"
    ensures Substitution.Strtr(text, Replacements([Str("something")])) == plain
  {
    var texts := ["something"];
    OneReplacement([Str("something")], texts);
    OneText(text);
    Substitution.BracketedPlaceholder(1, texts);
    Bracketed(plain, texts[0]);
  }

  /** `<something>` is the word in angle brackets. Only splits a proof above. */
  lemma Bracketed(plain: string, word: string)
    requires plain == "<something>" && word == "something"
    ensures plain == "<" + word + ">"
  {
  }

  /** The table of the one string parameter `something`. */
  lemma OneReplacement(params: seq<Value>, texts: seq<string>)
    requires params == [Str("something")] && texts == ["something"]
    ensures Replacements(params) == Substitution.Placeholders(texts)
  {
    assert params == seq(|texts|, i requires 0 <= i < |texts| => Str(texts[i]));
    ReplacementsOfStrings(texts);
  }

  /** `<$1>` is the first placeholder in angle brackets. */
  lemma OneText(text: string)
    requires text == "<$1>"
    ensures text == "<" + Substitution.Key(1) + ">"
  {
    SmallKeys();
  }

  /** `<$1>` with the parameter `something` renders `<something>`, escaped `&lt;something&gt;`. */
  lemma OneParameter(text: string, plain: string, escaped: string, req: Request, s: Session)
    requires text == "<$1>" && plain == "<something>" && escaped == "&lt;something&gt;"
    ensures var m := NewMessage("test-key", [Str("something")]);
      var p := Plain(m, EnContext("test-key", text), req, s);
      && p.value == plain
      && Escaped(p.msg, p.ctx, req, p.session).value == escaped
  {
    ReplaceOne(text, plain);
    SomethingEscaped(plain, escaped);
    Generation("test-key", text, [Str("something")], plain, escaped, req, s);
  }

  /** `<$1>` without parameters substitutes to itself. */
  lemma KeepMissing(text: string)
    requires text == "<$1>"
    ensures Substitution.Strtr(text, Replacements([])) == text
  {
    assert Replacements([]) == Substitution.Placeholders([]);
    OneText(text);
    Substitution.BracketedMissing(1, []);
  }

  /** `<$1>` without parameters keeps its placeholder: `<$1>`, escaped `&lt;$1&gt;`. */
  lemma MissingParameter(text: string, escaped: string, req: Request, s: Session)
    requires text == "<$1>" && escaped == "&lt;$1&gt;"
    ensures var m := NewMessage("test-key", []);
      var p := Plain(m, EnContext("test-key", text), req, s);
      && p.value == text
      && Escaped(p.msg, p.ctx, req, p.session).value == escaped
  {
    KeepMissing(text);
    EscapedBrackets("$1", text, escaped);
    Generation("test-key", text, [], text, escaped, req, s);
  }

  /** The table of the string parameters `something` and `$3`. */
  lemma PairReplacements(params: seq<Value>, texts: seq<string>)
    requires params == [Str("something"), Str("$3")] && texts == ["something", "$3"]
    ensures Replacements(params) == Substitution.Placeholders(texts)
  {
    assert params == seq(|texts|, i requires 0 <= i < |texts| => Str(texts[i]));
    ReplacementsOfStrings(texts);
  }

  /** `<$1 $2>` is the first two placeholders, spaced, in angle brackets. */
  lemma PairText(text: string)
    requires text == "<$1 $2>"
    ensures text == "<" + Substitution.Key(1) + " " + Substitution.Key(2) + ">"
  {
    SmallKeys();
  }

  /** `<$1 $2>` with `something` and `$3` substitutes to `<something $3>`. */
  lemma ReplacePair(text: string, plain: string, params: seq<Value>)
    requires text == "<$1 $2>" && plain == "<something $3>" && params == [Str("something"), Str("$3")]
    ensures Substitution.Strtr(text, Replacements(params)) == plain
  {
    var texts := ["something", "$3"];
    PairReplacements(params, texts);
    PairText(text);
    Substitution.BracketedPair(1, 2, texts);
    BracketedWords(plain, texts[0], texts[1]);
  }

  /** `<something $3>` is the two words, spaced, in angle brackets. Only splits a proof above. */
  lemma BracketedWords(plain: string, first: string, second: string)
    requires plain == "<something $3>" && first == "something" && second == "$3"
    ensures plain == "<" + first + " " + second + ">"
  {
  }

  /**
   * `<$1 $2>` with `something` and `$3` renders `<something $3>`: the `$3`
   * brought in by a parameter is not replaced again.
   */
  lemma NoRescan(text: string, plain: string, req: Request, s: Session)
    requires text == "<$1 $2>" && plain == "<something $3>"
    ensures Plain(NewMessage("test-key", [Str("something"), Str("$3")]), EnContext("test-key", text), req, s).value == plain
  {
    ReplacePair(text, plain, [Str("something"), Str("$3")]);
    Generation("test-key", text, [Str("something"), Str("$3")], plain, Html.Escape(plain, Html.Html401Names), req, s);
  }

  /** The store of the missing-key case: `en` with no messages. */
  function NoMessages(): ArrayCache.Table {
    var t := ArrayCache.RawTable(["en"], map["en" := map[]]);
    assert t.Valid();
    t
  }

  /** Any key of the empty `en` store is missing: it renders as its marker, substituted and escaped. */
  lemma MissingGeneration(key: string, plain: string, escaped: string, req: Request, s: Session)
    requires Substitution.Strtr(MissingMarker(key), Replacements([])) == plain
    requires Html.Escape(plain, Html.Html401Names) == escaped
    ensures var m := NewMessage(key, []);
      var c := Context(NoMessages(), "en", Some("en"));
      var p := Plain(m, c, req, s);
      && !Exists(m, c, req, s).value
      && IsBlank(m, c, req, s).value
      && p.value == plain
      && Escaped(p.msg, p.ctx, req, p.session).value == escaped
  {
    var m := NewMessage(key, []);
    var c := Context(NoMessages(), "en", Some("en"));
    RenderMissing(m, c, req, s);
    var p := Plain(m, c, req, s);
    RenderAgain(m.(format := EscapedHtml), c, req, s, req, p.session);
  }

  /** The marker of `missing-key` is `<missing-key>`. */
  lemma MissingMarkerText(key: string, plain: string)
    requires key == "missing-key" && plain == "<missing-key>"
    ensures MissingMarker(key) == plain
  {
  }

  /** `<missing-key>` escapes to `&lt;missing-key&gt;`. */
  lemma MissingMarkerEscaped(key: string, plain: string, escaped: string)
    requires key == "missing-key" && plain == "<missing-key>" && escaped == "&lt;missing-key&gt;"
    ensures Html.Escape(plain, Html.Html401Names) == escaped
  {
    EscapedBrackets(key, plain, escaped);
  }

  /**
   * A key the store lacks does not exist, is blank, renders `<missing-key>`
   * and escaped `&lt;missing-key&gt;`.
   */
  lemma MissingKey(key: string, plain: string, escaped: string, req: Request, s: Session)
    requires key == "missing-key" && plain == "<missing-key>" && escaped == "&lt;missing-key&gt;"
    ensures var m := NewMessage(key, []);
      var c := Context(NoMessages(), "en", Some("en"));
      var p := Plain(m, c, req, s);
      && !Exists(m, c, req, s).value
      && IsBlank(m, c, req, s).value
      && p.value == plain
      && Escaped(p.msg, p.ctx, req, p.session).value == escaped
  {
    MissingMarkerText(key, plain);
    NoDollar(plain);
    MissingMarkerEscaped(key, plain, escaped);
    MissingGeneration(key, plain, escaped, req, s);
  }
}
