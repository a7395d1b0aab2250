/** The multi-entry Accept-Language headers of the library's test suite. */
module AcceptLanguageVectors {
  import opened Wrappers
  import opened Text
  import opened AcceptLanguage
  import opened AcceptLanguageExamples

  // Each literal is named by a predicate so that the solver works on the
  // parts of a header, not on the whole text at once. The lemmas without a
  // doc comment only split the proofs of the three headers into steps the
  // solver can take; a literal they need arrives as a parameter fixed by a
  // `requires`, so that it is unfolded once, inside a small proof.

  predicate DescendingHeader(es: seq<string>) {
    es == ["en-ca", "en;q=0.8", "en-us;q=0.6", "de-de;q=0.4", "de;q=0.2"]
  }

  predicate DescendingEntries(ps: seq<Part>) {
    ps == [Part("en-ca", 1.0), Part("en", 0.8), Part("en-us", 0.6), Part("de-de", 0.4), Part("de", 0.2)]
  }

  lemma Weight06(w: string) requires w == "0.6" ensures ParseWeight(w) == 0.6 { TenthWeight(w, '6', 0.6); }
  lemma Weight04(w: string) requires w == "0.4" ensures ParseWeight(w) == 0.4 { TenthWeight(w, '4', 0.4); }
  lemma Weight02(w: string) requires w == "0.2" ensures ParseWeight(w) == 0.2 { TenthWeight(w, '2', 0.2); }

  lemma EnUs(e: string, tag: string, w: string)
    requires e == "en-us;q=0.6" && tag == "en-us" && w == "0.6"
    ensures ParsePart(e) == Part(tag, 0.6)
  {
    assert e == tag + QSep + w;
    assert tag[0] != ';' && tag[1] != ';' && tag[2] != ';' && tag[3] != ';' && tag[4] != ';';
    assert w[0] != ';' && w[1] != ';' && w[2] != ';';
    Weight06(w);
    WeightedEntry(e, tag, w, 0.6);
  }

  lemma DeDe(e: string, tag: string, w: string)
    requires e == "de-de;q=0.4" && tag == "de-de" && w == "0.4"
    ensures ParsePart(e) == Part(tag, 0.4)
  {
    assert e == tag + QSep + w;
    assert tag[0] != ';' && tag[1] != ';' && tag[2] != ';' && tag[3] != ';' && tag[4] != ';';
    assert w[0] != ';' && w[1] != ';' && w[2] != ';';
    Weight04(w);
    WeightedEntry(e, tag, w, 0.4);
  }

  lemma De(e: string, tag: string, w: string)
    requires e == "de;q=0.2" && tag == "de" && w == "0.2"
    ensures ParsePart(e) == Part(tag, 0.2)
  {
    assert e == tag + QSep + w;
    assert tag[0] != ';' && tag[1] != ';';
    assert w[0] != ';' && w[1] != ';' && w[2] != ';';
    Weight02(w);
    WeightedEntry(e, tag, w, 0.2);
  }

  lemma EnSixTenths(e: string, tag: string, w: string)
    requires e == "en;q=0.6" && tag == "en" && w == "0.6"
    ensures ParsePart(e) == Part(tag, 0.6)
  {
    assert e == tag + QSep + w;
    assert tag[0] != ';' && tag[1] != ';';
    assert w[0] != ';' && w[1] != ';' && w[2] != ';';
    Weight06(w);
    WeightedEntry(e, tag, w, 0.6);
  }

  lemma Bar(e: string, tag: string, w: string)
    requires e == "bar;q=0.8" && tag == "bar" && w == "0.8"
    ensures ParsePart(e) == Part(tag, 0.8)
  {
    assert e == tag + QSep + w;
    assert tag[0] != ';' && tag[1] != ';' && tag[2] != ';';
    assert w[0] != ';' && w[1] != ';' && w[2] != ';';
    Weight08(w);
    WeightedEntry(e, tag, w, 0.8);
  }

  lemma DescendingEntry0(es: seq<string>) requires DescendingHeader(es) ensures ParsePart(es[0]) == Part("en-ca", 1.0) { ParsePartBare(es[0]); }
  lemma DescendingEntry1(es: seq<string>) requires DescendingHeader(es) ensures ParsePart(es[1]) == Part("en", 0.8) { WeightedEn(es[1]); }
  lemma DescendingEntry2(es: seq<string>) requires DescendingHeader(es) ensures ParsePart(es[2]) == Part("en-us", 0.6) { EnUs(es[2], "en-us", "0.6"); }
  lemma DescendingEntry3(es: seq<string>) requires DescendingHeader(es) ensures ParsePart(es[3]) == Part("de-de", 0.4) { DeDe(es[3], "de-de", "0.4"); }
  lemma DescendingEntry4(es: seq<string>) requires DescendingHeader(es) ensures ParsePart(es[4]) == Part("de", 0.2) { De(es[4], "de", "0.2"); }
  lemma DescendingParts(es: seq<string>) requires DescendingHeader(es) ensures Parts(Join(es, ',')) == es { PartsOfJoin(es); }

  lemma FiveEntries(es: seq<string>, ps: seq<Part>)
    requires |es| == 5 && |ps| == 5
    requires ParsePart(es[0]) == ps[0] && ParsePart(es[1]) == ps[1]
    requires ParsePart(es[2]) == ps[2] && ParsePart(es[3]) == ps[3] && ParsePart(es[4]) == ps[4]
    ensures forall k :: 0 <= k < |es| ==> ParsePart(es[k]) == ps[k]
  {
  }

  lemma FourEntries(es: seq<string>, ps: seq<Part>)
    requires |es| == 4 && |ps| == 4
    requires ParsePart(es[0]) == ps[0] && ParsePart(es[1]) == ps[1]
    requires ParsePart(es[2]) == ps[2] && ParsePart(es[3]) == ps[3]
    ensures forall k :: 0 <= k < |es| ==> ParsePart(es[k]) == ps[k]
  {
  }

  lemma DescendingFront(es: seq<string>, ps: seq<Part>)
    requires DescendingHeader(es) && DescendingEntries(ps)
    ensures ParsePart(es[0]) == ps[0] && ParsePart(es[1]) == ps[1]
  {
    DescendingEntry0(es);
    DescendingEntry1(es);
  }

  lemma DescendingBack(es: seq<string>, ps: seq<Part>)
    requires DescendingHeader(es) && DescendingEntries(ps)
    ensures ParsePart(es[2]) == ps[2] && ParsePart(es[3]) == ps[3] && ParsePart(es[4]) == ps[4]
  {
    DescendingEntry2(es);
    DescendingEntry3(es);
    DescendingEntry4(es);
  }

  lemma DescendingHeaderEntries(es: seq<string>, ps: seq<Part>)
    requires DescendingHeader(es) && DescendingEntries(ps)
    ensures Entries(Join(es, ',')) == ps
  {
    DescendingParts(es);
    DescendingFront(es, ps);
    DescendingBack(es, ps);
    FiveEntries(es, ps);
    EntriesOf(Join(es, ','), es, ps);
  }

  lemma DescendingEntriesInOrder(ps: seq<Part>)
    requires DescendingEntries(ps)
    ensures forall i :: 0 <= i < |ps| ==> Kept(ps, i)
    ensures forall i, j :: 0 <= i < j < |ps| ==> TagAt(ps, i) != TagAt(ps, j)
    ensures forall i, j :: 0 <= i < j < |ps| ==> ps[i].weight >= ps[j].weight
    ensures seq(|ps|, i requires 0 <= i < |ps| => TagAt(ps, i)) == ["en-ca", "en", "en-us", "de-de", "de"]
  {
    assert ToLower("en-ca") == "en-ca" && ToLower("en") == "en" && ToLower("en-us") == "en-us";
    assert ToLower("de-de") == "de-de" && ToLower("de") == "de";
  }

  /** `en-ca,en;q=0.8,en-us;q=0.6,de-de;q=0.4,de;q=0.2`: weights rank the tags, highest first. */
  lemma DescendingWeights(es: seq<string>)
    requires es == ["en-ca", "en;q=0.8", "en-us;q=0.6", "de-de;q=0.4", "de;q=0.2"]
    ensures ParseAcceptLanguage(Some(Join(es, ','))) == ["en-ca", "en", "en-us", "de-de", "de"]
  {
    var ps := [Part("en-ca", 1.0), Part("en", 0.8), Part("en-us", 0.6), Part("de-de", 0.4), Part("de", 0.2)];
    assert DescendingEntries(ps);
    DescendingHeaderEntries(es, ps);
    DescendingEntriesInOrder(ps);
    ParseInHeaderOrder(Join(es, ','));
  }

  /**
   * When every entry survives under its own tag, a list holding each entry
   * once, at its own weight, in strict rank order is the preference order.
   */
  lemma AllKeptRanking(ps: seq<Part>, w: seq<Weighted>, perm: seq<nat>)
    requires forall i :: 0 <= i < |ps| ==> Kept(ps, i)
    requires forall i, j :: 0 <= i < j < |ps| ==> TagAt(ps, i) != TagAt(ps, j)
    requires |w| == |perm|
    requires forall k :: 0 <= k < |w| ==> perm[k] < |ps| && w[k] == StoredAt(ps, perm[k])
    requires forall i :: 0 <= i < |ps| ==> i in perm
    requires StrictlyRanked(w)
    ensures IsPreferenceOrder(ps, w)
  {
    forall a, b | 0 <= a < b < |w|
      ensures w[a].tag != w[b].tag
    {
      assert Outranks(w[a], w[b]);
    }
    forall i | 0 <= i < |ps| && Kept(ps, i)
      ensures exists x :: x in w && x.tag == TagAt(ps, i)
    {
      assert i in perm;
      var k :| 0 <= k < |perm| && perm[k] == i;
      assert w[k] in w;
    }
  }

  predicate SpacedHeader(h: string) {
    h == "en-us, en-gb; q=0.8,en;q = 0.6,es-419"
  }

  predicate SpacedParts(es: seq<string>) {
    es == ["en-us", "en-gb;q=0.8", "en;q=0.6", "es-419"]
  }

  predicate SpacedEntries(ps: seq<Part>) {
    ps == [Part("en-us", 1.0), Part("en-gb", 0.8), Part("en", 0.6), Part("es-419", 1.0)]
  }

  predicate SpacedRanking(w: seq<Weighted>) {
    w == [Weighted("en-us", 1.0, 0), Weighted("es-419", 1.0, 3), Weighted("en-gb", 0.8, 1), Weighted("en", 0.6, 2)]
  }

  /** A header that strips to comma-joined entries splits into those entries. */
  lemma PartsOfStripped(h: string, es: seq<string>)
    requires |es| >= 1 && StripSpace(h) == Join(es, ',')
    requires forall i :: 0 <= i < |es| ==> ',' !in es[i]
    requires forall i :: 0 <= i < |es| ==> NoSpace(es[i])
    ensures Parts(h) == es
  {
    PartsOfJoin(es);
    JoinNoSpace(es, ',');
  }

  predicate SpacedPieces(pieces: seq<string>) {
    pieces == ["en-us,", "en-gb;", "q=0.8,en;q", "=", "0.6,es-419"]
  }

  lemma JoinFive(p: seq<string>, sep: char)
    requires |p| == 5
    ensures Join(p, sep) == p[0] + [sep] + p[1] + [sep] + p[2] + [sep] + p[3] + [sep] + p[4]
  {
    assert Join(p[4..], sep) == p[4];
    assert Join(p[3..], sep) == p[3] + [sep] + p[4];
    assert Join(p[2..], sep) == p[2] + [sep] + (p[3] + [sep] + p[4]);
    assert Join(p[1..], sep) == p[1] + [sep] + (p[2] + [sep] + (p[3] + [sep] + p[4]));
  }

  lemma JoinFour(p: seq<string>, sep: char)
    requires |p| == 4
    ensures Join(p, sep) == p[0] + [sep] + p[1] + [sep] + p[2] + [sep] + p[3]
  {
    assert Join(p[3..], sep) == p[3];
    assert Join(p[2..], sep) == p[2] + [sep] + p[3];
    assert Join(p[1..], sep) == p[1] + [sep] + (p[2] + [sep] + p[3]);
  }

  lemma FlattenFive(p: seq<string>)
    requires |p| == 5
    ensures Flatten(p) == p[0] + p[1] + p[2] + p[3] + p[4]
  {
    assert Flatten(p[5..]) == [];
    assert Flatten(p[4..]) == p[4] + [];
    assert Flatten(p[3..]) == p[3] + (p[4] + []);
    assert Flatten(p[2..]) == p[2] + (p[3] + (p[4] + []));
    assert Flatten(p[1..]) == p[1] + (p[2] + (p[3] + (p[4] + [])));
  }

  /** Five whitespace-free pieces separated by single spaces strip to their concatenation. */
  lemma StripFive(h: string, p: seq<string>)
    requires |p| == 5 && h == p[0] + " " + p[1] + " " + p[2] + " " + p[3] + " " + p[4]
    requires forall i :: 0 <= i < |p| ==> NoSpace(p[i])
    ensures StripSpace(h) == p[0] + p[1] + p[2] + p[3] + p[4]
  {
    JoinFive(p, ' ');
    StripSpaceJoin(p, ' ');
    FlattenFive(p);
  }

  lemma SpacedPiecesClean(pieces: seq<string>)
    requires SpacedPieces(pieces)
    ensures forall i :: 0 <= i < |pieces| ==> NoSpace(pieces[i])
  {
  }

  lemma SpacedHeaderPieces(h: string, pieces: seq<string>)
    requires SpacedHeader(h) && SpacedPieces(pieces)
    ensures h == pieces[0] + " " + pieces[1] + " " + pieces[2] + " " + pieces[3] + " " + pieces[4]
  {
  }

  lemma SpacedStripPieces(h: string, pieces: seq<string>)
    requires SpacedHeader(h) && SpacedPieces(pieces)
    ensures StripSpace(h) == pieces[0] + pieces[1] + pieces[2] + pieces[3] + pieces[4]
  {
    SpacedPiecesClean(pieces);
    SpacedHeaderPieces(h, pieces);
    StripFive(h, pieces);
  }

  lemma SpacedJoin(es: seq<string>, pieces: seq<string>)
    requires SpacedParts(es) && SpacedPieces(pieces)
    ensures Join(es, ',') == pieces[0] + pieces[1] + pieces[2] + pieces[3] + pieces[4]
  {
    JoinFour(es, ',');
  }

  lemma SpacedStrip(h: string, es: seq<string>, pieces: seq<string>)
    requires SpacedHeader(h) && SpacedParts(es) && SpacedPieces(pieces)
    ensures StripSpace(h) == Join(es, ',')
  {
    SpacedStripPieces(h, pieces);
    SpacedJoin(es, pieces);
  }

  lemma SpacedPartsClean(es: seq<string>)
    requires SpacedParts(es)
    ensures |es| >= 1
    ensures forall i :: 0 <= i < |es| ==> ',' !in es[i]
    ensures forall i :: 0 <= i < |es| ==> NoSpace(es[i])
  {
  }

  lemma SpacedPartsOf(h: string, es: seq<string>, pieces: seq<string>)
    requires SpacedHeader(h) && SpacedParts(es) && SpacedPieces(pieces)
    ensures Parts(h) == es
  {
    SpacedStrip(h, es, pieces);
    SpacedPartsClean(es);
    PartsOfStripped(h, es);
  }

  lemma SpacedEntry0(es: seq<string>) requires SpacedParts(es) ensures ParsePart(es[0]) == Part("en-us", 1.0) { ParsePartBare(es[0]); }
  lemma SpacedEntry1(es: seq<string>) requires SpacedParts(es) ensures ParsePart(es[1]) == Part("en-gb", 0.8) { EnGb(es[1], "en-gb", "0.8"); }

  lemma EnGb(e: string, tag: string, w: string)
    requires e == "en-gb;q=0.8" && tag == "en-gb" && w == "0.8"
    ensures ParsePart(e) == Part(tag, 0.8)
  {
    assert e == tag + QSep + w;
    assert tag[0] != ';' && tag[1] != ';' && tag[2] != ';' && tag[3] != ';' && tag[4] != ';';
    assert w[0] != ';' && w[1] != ';' && w[2] != ';';
    Weight08(w);
    WeightedEntry(e, tag, w, 0.8);
  }
  lemma SpacedEntry2(es: seq<string>) requires SpacedParts(es) ensures ParsePart(es[2]) == Part("en", 0.6) { EnSixTenths(es[2], "en", "0.6"); }
  lemma SpacedEntry3(es: seq<string>) requires SpacedParts(es) ensures ParsePart(es[3]) == Part("es-419", 1.0) { ParsePartBare(es[3]); }

  lemma SpacedFront(es: seq<string>, ps: seq<Part>)
    requires SpacedParts(es) && SpacedEntries(ps)
    ensures ParsePart(es[0]) == ps[0] && ParsePart(es[1]) == ps[1]
  {
    SpacedEntry0(es);
    SpacedEntry1(es);
  }

  lemma SpacedBack(es: seq<string>, ps: seq<Part>)
    requires SpacedParts(es) && SpacedEntries(ps)
    ensures ParsePart(es[2]) == ps[2] && ParsePart(es[3]) == ps[3]
  {
    SpacedEntry2(es);
    SpacedEntry3(es);
  }

  lemma SpacedHeaderEntries(h: string, es: seq<string>, ps: seq<Part>)
    requires SpacedHeader(h) && SpacedParts(es) && SpacedEntries(ps)
    ensures Entries(h) == ps
  {
    var pieces := ["en-us,", "en-gb;", "q=0.8,en;q", "=", "0.6,es-419"];
    assert SpacedPieces(pieces);
    SpacedPartsOf(h, es, pieces);
    SpacedFront(es, ps);
    SpacedBack(es, ps);
    FourEntries(es, ps);
    EntriesOf(h, es, ps);
  }

  lemma SpacedTags(ps: seq<Part>)
    requires SpacedEntries(ps)
    ensures forall i :: 0 <= i < |ps| ==> Kept(ps, i)
    ensures TagAt(ps, 0) == "en-us" && TagAt(ps, 1) == "en-gb" && TagAt(ps, 2) == "en" && TagAt(ps, 3) == "es-419"
  {
    assert ToLower("en-us") == "en-us" && ToLower("en-gb") == "en-gb";
    assert ToLower("en") == "en" && ToLower("es-419") == "es-419";
  }

  lemma SpacedStored(ps: seq<Part>, w: seq<Weighted>, perm: seq<nat>)
    requires SpacedEntries(ps) && SpacedRanking(w) && perm == [0, 3, 1, 2]
    ensures forall i, j :: 0 <= i < j < |ps| ==> TagAt(ps, i) != TagAt(ps, j)
    ensures forall k :: 0 <= k < |w| ==> perm[k] < |ps| && w[k] == StoredAt(ps, perm[k])
    ensures forall i :: 0 <= i < |ps| ==> i in perm
  {
    SpacedTags(ps);
  }

  lemma SpacedIsPreferenceOrder(ps: seq<Part>, w: seq<Weighted>)
    requires SpacedEntries(ps) && SpacedRanking(w)
    ensures IsPreferenceOrder(ps, w)
    ensures seq(|w|, i requires 0 <= i < |w| => w[i].tag) == ["en-us", "es-419", "en-gb", "en"]
  {
    var perm := [0, 3, 1, 2];
    SpacedTags(ps);
    SpacedStored(ps, w, perm);
    SpacedStrict(w);
    AllKeptRanking(ps, w, perm);
    SpacedRankingTags(w);
  }

  lemma SpacedStrict(w: seq<Weighted>)
    requires SpacedRanking(w)
    ensures StrictlyRanked(w)
  {
  }

  lemma SpacedRankingTags(w: seq<Weighted>)
    requires SpacedRanking(w)
    ensures seq(|w|, i requires 0 <= i < |w| => w[i].tag) == ["en-us", "es-419", "en-gb", "en"]
  {
  }

  /**
   * `en-us, en-gb; q=0.8,en;q = 0.6,es-419`: whitespace is ignored, a bare tag
   * weighs 1, and equal weights keep header order.
   */
  lemma SpacedWeights(h: string)
    requires h == "en-us, en-gb; q=0.8,en;q = 0.6,es-419"
    ensures ParseAcceptLanguage(Some(h)) == ["en-us", "es-419", "en-gb", "en"]
  {
    var es := ["en-us", "en-gb;q=0.8", "en;q=0.6", "es-419"];
    var ps := [Part("en-us", 1.0), Part("en-gb", 0.8), Part("en", 0.6), Part("es-419", 1.0)];
    var w := [Weighted("en-us", 1.0, 0), Weighted("es-419", 1.0, 3), Weighted("en-gb", 0.8, 1), Weighted("en", 0.6, 2)];
    assert SpacedParts(es) && SpacedEntries(ps) && SpacedRanking(w);
    SpacedHeaderEntries(h, es, ps);
    SpacedIsPreferenceOrder(ps, w);
    ParseIsPreferenceOrder(h, w);
  }

  predicate MixedHeader(es: seq<string>) {
    es == ["bar;q=0.8", "baz", "en-us", "en", "default"]
  }

  predicate MixedEntries(ps: seq<Part>) {
    ps == [Part("bar", 0.8), Part("baz", 1.0), Part("en-us", 1.0), Part("en", 1.0), Part("default", 1.0)]
  }

  predicate MixedRanking(w: seq<Weighted>) {
    w == [Weighted("baz", 1.0, 1), Weighted("en-us", 1.0, 2), Weighted("en", 1.0, 3),
          Weighted("default", 1.0, 4), Weighted("bar", 0.8, 0)]
  }

  lemma MixedParts(es: seq<string>) requires MixedHeader(es) ensures Parts(Join(es, ',')) == es { PartsOfJoin(es); }

  lemma MixedFront(es: seq<string>, ps: seq<Part>)
    requires MixedHeader(es) && MixedEntries(ps)
    ensures ParsePart(es[0]) == ps[0] && ParsePart(es[1]) == ps[1]
  {
    MixedEntry0(es);
    MixedEntry1(es);
  }

  lemma MixedEntry0(es: seq<string>) requires MixedHeader(es) ensures ParsePart(es[0]) == Part("bar", 0.8) { Bar(es[0], "bar", "0.8"); }
  lemma MixedEntry1(es: seq<string>) requires MixedHeader(es) ensures ParsePart(es[1]) == Part("baz", 1.0) { ParsePartBare(es[1]); }

  lemma MixedBack(es: seq<string>, ps: seq<Part>)
    requires MixedHeader(es) && MixedEntries(ps)
    ensures ParsePart(es[2]) == ps[2] && ParsePart(es[3]) == ps[3] && ParsePart(es[4]) == ps[4]
  {
    ParsePartBare(es[2]);
    ParsePartBare(es[3]);
    ParsePartBare(es[4]);
  }

  lemma MixedHeaderEntries(es: seq<string>, ps: seq<Part>)
    requires MixedHeader(es) && MixedEntries(ps)
    ensures Entries(Join(es, ',')) == ps
  {
    MixedParts(es);
    MixedFront(es, ps);
    MixedBack(es, ps);
    FiveEntries(es, ps);
    EntriesOf(Join(es, ','), es, ps);
  }

  lemma MixedTags(ps: seq<Part>)
    requires MixedEntries(ps)
    ensures forall i :: 0 <= i < |ps| ==> Kept(ps, i)
    ensures TagAt(ps, 0) == "bar" && TagAt(ps, 1) == "baz" && TagAt(ps, 2) == "en-us"
    ensures TagAt(ps, 3) == "en" && TagAt(ps, 4) == "default"
  {
    assert ToLower("bar") == "bar" && ToLower("baz") == "baz" && ToLower("en-us") == "en-us";
    assert ToLower("en") == "en" && ToLower("default") == "default";
  }

  lemma MixedStored(ps: seq<Part>, w: seq<Weighted>, perm: seq<nat>)
    requires MixedEntries(ps) && MixedRanking(w) && perm == [1, 2, 3, 4, 0]
    ensures forall i, j :: 0 <= i < j < |ps| ==> TagAt(ps, i) != TagAt(ps, j)
    ensures forall k :: 0 <= k < |w| ==> perm[k] < |ps| && w[k] == StoredAt(ps, perm[k])
    ensures forall i :: 0 <= i < |ps| ==> i in perm
  {
    MixedTags(ps);
  }

  lemma MixedIsPreferenceOrder(ps: seq<Part>, w: seq<Weighted>)
    requires MixedEntries(ps) && MixedRanking(w)
    ensures IsPreferenceOrder(ps, w)
    ensures seq(|w|, i requires 0 <= i < |w| => w[i].tag) == ["baz", "en-us", "en", "default", "bar"]
  {
    var perm := [1, 2, 3, 4, 0];
    MixedTags(ps);
    MixedStored(ps, w, perm);
    MixedStrict(w);
    AllKeptRanking(ps, w, perm);
    MixedRankingTags(w);
  }

  lemma MixedStrict(w: seq<Weighted>)
    requires MixedRanking(w)
    ensures StrictlyRanked(w)
  {
  }

  lemma MixedRankingTags(w: seq<Weighted>)
    requires MixedRanking(w)
    ensures seq(|w|, i requires 0 <= i < |w| => w[i].tag) == ["baz", "en-us", "en", "default", "bar"]
  {
  }

  /** `bar;q=0.8,baz,en-us,en,default`: the bare tags in header order, then the weighted one. */
  lemma MixedWeights(es: seq<string>)
    requires es == ["bar;q=0.8", "baz", "en-us", "en", "default"]
    ensures ParseAcceptLanguage(Some(Join(es, ','))) == ["baz", "en-us", "en", "default", "bar"]
  {
    var ps := [Part("bar", 0.8), Part("baz", 1.0), Part("en-us", 1.0), Part("en", 1.0), Part("default", 1.0)];
    var w := [Weighted("baz", 1.0, 1), Weighted("en-us", 1.0, 2), Weighted("en", 1.0, 3),
              Weighted("default", 1.0, 4), Weighted("bar", 0.8, 0)];
    assert MixedEntries(ps) && MixedRanking(w);
    MixedHeaderEntries(es, ps);
    MixedIsPreferenceOrder(ps, w);
    ParseIsPreferenceOrder(Join(es, ','), w);
  }
}
