/**
 * The in-memory message store (`ArrayCache`, an implementation of the
 * `MessageCache` interface): an ordered table language → (key → text),
 * answering "which languages exist" and "first hit over a language list".
 */
module ArrayCache {
  import opened Wrappers

  /**
   * The PHP array a store is built from. `order` lists the language keys in
   * insertion order; `messages` maps each of them to its message table. A
   * `None` message value stands for a PHP `null` entry.
   */
  datatype RawTable = RawTable(order: seq<string>, messages: map<string, map<string, Option<string>>>)
  {
    /** PHP array keys are unique and name exactly the entries of the array. */
    predicate Valid() {
      && (forall i, j :: 0 <= i < j < |order| ==> order[i] != order[j])
      && (forall l :: l in order ==> l in messages)
      && (forall l :: l in messages ==> l in order)
    }
  }

  type Table = t: RawTable | t.Valid() witness RawTable([], map[])

  /** The result of `get`: PHP's `false` or the stored text. */
  datatype Hit = NotFound | Found(text: string)

  /** The `$langs` argument of `get`: a single language or a list of them. */
  datatype Langs = One(lang: string) | Many(list: seq<string>)

  /** `isset($messages[$lang][$key])`: the language has the key with a non-null value. */
  predicate Has(t: Table, lang: string, key: string) {
    lang in t.messages && key in t.messages[lang] && t.messages[lang][key].Some?
  }

  function TextOf(t: Table, lang: string, key: string): string
    requires Has(t, lang, key)
  {
    t.messages[lang][key].value
  }

  /** `getAvailableLanguages`: the table's languages in insertion order, message-less ones included. */
  function AvailableLanguages(t: Table): (r: seq<string>)
    ensures forall l :: l in r <==> l in t.messages
    ensures forall i, j :: 0 <= i < j < |r| ==> r[i] != r[j]
  {
    t.order
  }

  /** A non-array `$langs` is wrapped into a one-element list. */
  function LangList(langs: Langs): (r: seq<string>)
    ensures langs.One? ==> r == [langs.lang]
    ensures langs.Many? ==> r == langs.list
  {
    match langs
    case One(l) => [l]
    case Many(ls) => ls
  }

  /** The languages of `langs` are tried in order; the first one holding `key` wins. */
  function FirstHit(t: Table, key: string, langs: seq<string>): (r: Hit)
    ensures r.Found? <==> exists i :: 0 <= i < |langs| && Has(t, langs[i], key)
    ensures r.Found? ==>
      exists i :: 0 <= i < |langs| && Has(t, langs[i], key) && r.text == TextOf(t, langs[i], key)
        && forall j :: 0 <= j < i ==> !Has(t, langs[j], key)
  {
    if |langs| == 0 then NotFound
    else if Has(t, langs[0], key) then Found(TextOf(t, langs[0], key))
    else
      var r := FirstHit(t, key, langs[1..]);
      assert forall i :: 1 <= i < |langs| ==> langs[i] == langs[1..][i - 1];
      r
  }

  /** `get($key, $langs)`: first-hit lookup; `NotFound` when no listed language has the key. */
  function Get(t: Table, key: string, langs: Langs): (r: Hit)
    ensures r.Found? <==> exists l :: l in LangList(langs) && Has(t, l, key)
    ensures r.Found? ==>
      exists i :: 0 <= i < |LangList(langs)| && Has(t, LangList(langs)[i], key)
        && r.text == TextOf(t, LangList(langs)[i], key)
        && forall j :: 0 <= j < i ==> !Has(t, LangList(langs)[j], key)
  {
    FirstHit(t, key, LangList(langs))
  }

  /** A single language behaves like the one-element list, and the empty list finds nothing. */
  lemma GetSingleAndEmpty(t: Table, key: string, lang: string)
    ensures Get(t, key, One(lang)) == Get(t, key, Many([lang]))
    ensures Get(t, key, Many([])) == NotFound
  {
  }

  /** A null entry is skipped and the lookup moves on to the next language. */
  lemma {:induction false} GetSkipsNull(t: Table, key: string, lang: string, rest: seq<string>)
    requires lang in t.messages && key in t.messages[lang] && t.messages[lang][key].None?
    ensures Get(t, key, Many([lang] + rest)) == Get(t, key, Many(rest))
  {
    assert ([lang] + rest)[1..] == rest;
  }

  /** The store of the happy-path example: two languages, each translating `lang` to its own name. */
  function ExampleTable(): Table {
    RawTable(["en", "foo"], map["en" := map["lang" := Some("en")], "foo" := map["lang" := Some("foo")]])
  }

  /** Both languages are listed in order, each finds its own text and neither has an unknown key. */
  lemma ExampleTableLookups()
    ensures AvailableLanguages(ExampleTable()) == ["en", "foo"]
    ensures Get(ExampleTable(), "lang", One("en")) == Found("en")
    ensures Get(ExampleTable(), "lang", One("foo")) == Found("foo")
    ensures Get(ExampleTable(), "key-not-found", One("en")) == NotFound
    ensures Get(ExampleTable(), "key-not-found", One("foo")) == NotFound
  {
  }
}
