/**
 * The header examples of the library's test suite, and the duplicate-tag
 * rule on small headers. A literal is passed as a parameter fixed by a
 * `requires`, so that it is unfolded once, inside a small proof.
 */
module AcceptLanguageExamples {
  import opened Wrappers
  import opened Text
  import opened AcceptLanguage

  /** `*` alone yields no preferences. */
  lemma StarAlone()
    ensures ParseAcceptLanguage(Some("*")) == []
  {
    assert Entries("*") == [Part("*", 1.0)];
    ParseIsPreferenceOrder("*", []);
  }

  /** A zero weight drops its tag. */
  lemma ZeroWeight(h: string)
    requires h == "en;q=0"
    ensures ParseAcceptLanguage(Some(h)) == []
  {
    ZeroWeightEntries(h);
    ParseIsPreferenceOrder(h, []);
  }

  /** `en;q=0` is one entry of weight 0. Only splits the proof of `ZeroWeight`. */
  lemma ZeroWeightEntries(h: string)
    requires h == "en;q=0"
    ensures Entries(h) == [Part("en", 0.0)]
  {
    ZeroWeightPart(h);
    SingleEntry(h);
    EntriesOf(h, [h], [Part("en", 0.0)]);
  }

  /** `en;q=0` parses to `en` at weight 0. Only splits the proof of `ZeroWeight`. */
  lemma ZeroWeightPart(h: string)
    requires h == "en;q=0"
    ensures ParsePart(h) == Part("en", 0.0)
  {
    ZeroText("0");
    WeightedEntry(h, "en", "0", 0.0);
  }

  /** `0` reads as the weight 0. */
  lemma ZeroText(w: string)
    requires w == "0"
    ensures ParseWeight(w) == 0.0
  {
    UnsignedStart(w);
    UnsignedDigits(w);
    assert w[..0] == "";
  }

  /** A header without commas or whitespace is a single entry. */
  lemma SingleEntry(h: string)
    requires ',' !in h && NoSpace(h)
    ensures Parts(h) == [h]
  {
    PartsOfJoin([h]);
    assert Join([h], ',') == h;
  }

  /** A header of one bare tag, without commas, `;` or whitespace, is one entry of weight 1. */
  lemma BareHeader(h: string)
    requires ',' !in h && ';' !in h && NoSpace(h)
    ensures Entries(h) == [Part(h, 1.0)]
  {
    SingleEntry(h);
    NoSemicolonNoSep(h);
    EntriesOf(h, [h], [Part(h, 1.0)]);
  }

  /** A header that is one bare tag other than `*` asks for that tag, lower-cased. */
  lemma BareTag(h: string, tag: string)
    requires Entries(h) == [Part(h, 1.0)]
    requires tag == ToLower(h) && tag != "*"
    ensures ParseAcceptLanguage(Some(h)) == [tag]
  {
    var w := [Weighted(tag, 1.0, 0)];
    assert IsPreferenceOrder(Entries(h), w);
    ParseIsPreferenceOrder(h, w);
  }

  /** Tags are lower-cased. */
  lemma CaseFolded(h: string)
    requires h == "En"
    ensures ParseAcceptLanguage(Some(h)) == ["en"]
  {
    assert h[0] != ',' && h[1] != ',' && h[0] != ';' && h[1] != ';';
    assert !IsSpace(h[0]) && !IsSpace(h[1]);
    BareHeader(h);
    assert ToLower(h) == "en";
    BareTag(h, "en");
  }

  /** A `;q=` at the very start of an entry is not a separator: the entry is a bare tag. */
  lemma SeparatorAtStart(h: string)
    requires h == ";q=0.5"
    ensures ParseAcceptLanguage(Some(h)) == [h]
  {
    SeparatorAtStartEntries(h);
    assert ToLower(h) == h;
    ParseIsPreferenceOrder(h, [Weighted(h, 1.0, 0)]);
  }

  /** `;q=0.5` is one bare entry. Only splits the proof of `SeparatorAtStart`. */
  lemma SeparatorAtStartEntries(h: string)
    requires h == ";q=0.5"
    ensures Entries(h) == [Part(h, 1.0)]
  {
    assert OccursAt(h, QSep, 0);
    assert IndexOf(h, QSep) == Some(0);
    PartsOfJoin([h]);
  }

  /** `tag;q=w` reads as the tag with the weight of `w`. */
  lemma WeightedEntry(e: string, tag: string, w: string, v: real)
    requires e == tag + QSep + w
    requires 1 <= |tag| && ';' !in tag && ';' !in w && ParseWeight(w) == v
    ensures ParsePart(e) == Part(tag, v)
  {
    ParsePartWeighted(tag, w);
  }

  /** `0.d` for one digit `d` reads as d tenths. */
  lemma TenthWeight(w: string, d: char, v: real)
    requires IsDigit(d) && w == ['0', '.', d] && v == (DigitValue(d) as real) / 10.0
    ensures ParseWeight(w) == v
  {
    assert w == "0" + "." + [d];
    ParseWeightDecimal("0", [d]);
    assert [d][..0] == [];
    assert DigitsValue([d]) == DigitValue(d);
    assert DigitsValue("0") == 0;
  }

  /** `0.8` reads as the weight 0.8. */
  lemma Weight08(w: string)
    requires w == "0.8"
    ensures ParseWeight(w) == 0.8
  {
    TenthWeight(w, '8', 0.8);
  }

  /** `en;q=0.8` is the tag `en` at weight 0.8. */
  lemma WeightedEn(e: string)
    requires e == "en;q=0.8"
    ensures ParsePart(e) == Part("en", 0.8)
  {
    Weight08("0.8");
    WeightedShape(e, "en", "0.8");
    WeightedEntry(e, "en", "0.8", 0.8);
  }

  /** `en;q=0.8` is `en`, the separator and `0.8`. Only splits the proof of `WeightedEn`. */
  lemma WeightedShape(e: string, tag: string, w: string)
    requires e == "en;q=0.8" && tag == "en" && w == "0.8"
    ensures e == tag + QSep + w && ';' !in tag && ';' !in w
  {
    assert tag[0] != ';' && tag[1] != ';';
    assert w[0] != ';' && w[1] != ';' && w[2] != ';';
  }

  /** Whitespace around entries and separators is ignored. */
  lemma SpacesIgnored(spaced: string, plain: string)
    requires spaced == "fr, en" && plain == "fr,en"
    ensures ParseAcceptLanguage(Some(spaced)) == ParseAcceptLanguage(Some(plain))
  {
    var a, b := spaced[..3], spaced[4..];
    assert spaced == a + [' '] + b;
    assert plain == a + b;
    ParseIgnoresWhitespace(a, ' ', b);
  }

  /** A header splitting into `es` parses entry by entry. */
  lemma EntriesOf(h: string, es: seq<string>, ps: seq<Part>)
    requires Parts(h) == es && |ps| == |es|
    requires forall k :: 0 <= k < |es| ==> ParsePart(es[k]) == ps[k]
    ensures Entries(h) == ps
  {
  }
}
