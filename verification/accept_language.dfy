/**
 * Parsing of the Accept-Language request header into an ordered list of
 * language tags (a simplified reading of section 5.3.5 of RFC 7231, with
 * quality values as in section 5.3.1; tags are compared by exact equality,
 * not by the range matching of RFC 4647).
 *
 * The header is stripped of all whitespace and split on commas. Each entry is
 * either a bare tag (weight 1) or `tag;q=weight`. Entries whose tag is `*`
 * or whose weight is not positive are dropped; the others are stored under
 * their lower-cased tag, a later entry replacing an earlier one with the same
 * tag. The stored entries are ranked by the pair (weight, -position) in
 * descending order and their tags returned.
 */
module AcceptLanguage {
  import opened Wrappers
  import opened Text

  // ---------------------------------------------------------------------
  // Weights: PHP's (float) cast on the text after `;q=`
  // ---------------------------------------------------------------------

  function Pow10(n: nat): (r: nat)
    ensures r >= 1
  {
    if n == 0 then 1 else 10 * Pow10(n - 1)
  }

  /** The number of decimal digits at the start of `s`. */
  function LeadingDigits(s: string): (n: nat)
    ensures n <= |s|
    ensures AllDigits(s[..n])
    ensures n < |s| ==> !IsDigit(s[n])
  {
    if |s| == 0 || !IsDigit(s[0]) then 0
    else
      var n := 1 + LeadingDigits(s[1..]);
      assert forall i :: 1 <= i < n ==> s[..n][i] == s[1..][..n - 1][i - 1];
      n
  }

  /** The scale an exponent suffix `e±digits` applies; 1 when `s` does not start with one. */
  function ExponentScale(s: string): (r: real)
    ensures r > 0.0
  {
    if |s| >= 1 && (s[0] == 'e' || s[0] == 'E') then
      var t := s[1..];
      var neg := |t| >= 1 && t[0] == '-';
      var u := if |t| >= 1 && (t[0] == '-' || t[0] == '+') then t[1..] else t;
      var n := LeadingDigits(u);
      if n == 0 then 1.0
      else if neg then 1.0 / (Pow10(DigitsValue(u[..n])) as real)
      else Pow10(DigitsValue(u[..n])) as real
    else 1.0
  }

  /**
   * PHP's `(float)` on a string: the value of its longest numeric prefix
   * (optional sign, digits with an optional fraction, optional exponent),
   * or 0 when it has none. Values are exact decimals, not binary floats.
   */
  function ParseWeight(s: string): (r: real)
    ensures r < 0.0 ==> |s| >= 1 && s[0] == '-'
    ensures |s| == 0 || !(IsDigit(s[0]) || s[0] == '.' || s[0] == '-' || s[0] == '+') ==> r == 0.0
  {
    if |s| >= 1 && s[0] == '-' then -ParseUnsigned(s[1..])
    else if |s| >= 1 && s[0] == '+' then ParseUnsigned(s[1..])
    else ParseUnsigned(s)
  }

  /** The digits after a leading `.` of `s`, and the text that follows them. */
  function Fraction(s: string): (r: (string, string))
    ensures AllDigits(r.0)
  {
    if |s| >= 1 && s[0] == '.' then
      var m := LeadingDigits(s[1..]);
      (s[1..][..m], s[1..][m..])
    else ("", s)
  }

  /** The exact value of the decimal `whole.frac`. */
  function DecimalValue(whole: string, frac: string): real
    requires AllDigits(whole) && AllDigits(frac)
  {
    (DigitsValue(whole) as real) + (DigitsValue(frac) as real) / (Pow10(|frac|) as real)
  }

  /** An unsigned numeric prefix: digits, an optional fraction, an optional exponent. */
  function ParseUnsigned(s: string): (r: real)
    ensures r >= 0.0
  {
    var n := LeadingDigits(s);
    var fr := Fraction(s[n..]);
    if n + |fr.0| == 0 then 0.0
    else DecimalValue(s[..n], fr.0) * ExponentScale(fr.1)
  }

  /** A weight reads back the natural number it was written from. */
  lemma ParseWeightOfDecimal(n: nat)
    ensures ParseWeight(NatToDecimal(n)) == n as real
  {
    var s := NatToDecimal(n);
    UnsignedStart(s);
    UnsignedDigits(s);
    DecimalRoundTrip(n);
  }

  /** Digits alone read as their value. */
  lemma UnsignedDigits(s: string)
    requires |s| >= 1 && AllDigits(s)
    ensures ParseUnsigned(s) == DigitsValue(s) as real
  {
    LeadingDigitsOfDigits(s);
    UnsignedWhole(s);
    WholeValue(s);
  }

  /** Text that is all leading digits reads as a decimal with no fraction. */
  lemma UnsignedWhole(s: string)
    requires |s| >= 1 && LeadingDigits(s) == |s|
    ensures ParseUnsigned(s) == DecimalValue(s, "")
  {
    assert s[..|s|] == s;
    assert s[|s|..] == "";
    assert Fraction("") == ("", "");
    assert ExponentScale("") == 1.0;
  }

  /** A decimal with no fraction is worth its integer part. */
  lemma WholeValue(s: string)
    requires AllDigits(s)
    ensures DecimalValue(s, "") == DigitsValue(s) as real
  {
    assert Pow10(0) == 1;
    assert DigitsValue("") == 0;
  }

  lemma {:induction false} LeadingDigitsOfDigits(s: string)
    requires AllDigits(s)
    ensures LeadingDigits(s) == |s|
  {
    if |s| > 0 {
      LeadingDigitsOfDigits(s[1..]);
    }
  }

  lemma {:induction false} LeadingDigitsPrefix(d: string, rest: string)
    requires AllDigits(d)
    requires |rest| == 0 || !IsDigit(rest[0])
    ensures LeadingDigits(d + rest) == |d|
  {
    if |d| > 0 {
      assert (d + rest)[1..] == d[1..] + rest;
      LeadingDigitsPrefix(d[1..], rest);
    } else {
      assert d + rest == rest;
    }
  }

  /** Text starting with a digit or a point has no sign: the cast reads it unsigned. */
  lemma UnsignedStart(s: string)
    requires |s| >= 1 && (IsDigit(s[0]) || s[0] == '.')
    ensures ParseWeight(s) == ParseUnsigned(s)
  {
  }

  /** The unsigned reading of `int.frac` splits it at the point. */
  lemma UnsignedDecimalParts(i: string, f: string)
    requires AllDigits(i) && AllDigits(f)
    ensures LeadingDigits(i + ("." + f)) == |i|
    ensures (i + ("." + f))[..|i|] == i
    ensures (i + ("." + f))[|i|..] == "." + f
  {
    LeadingDigitsPrefix(i, "." + f);
  }

  /** A decimal with no exponent is its exact value. */
  lemma UnsignedDecimal(i: string, f: string)
    requires AllDigits(i) && AllDigits(f) && |i| + |f| >= 1
    ensures ParseUnsigned(i + ("." + f)) == DecimalValue(i, f)
  {
    UnsignedDecimalParts(i, f);
    FractionOfDigits(f);
    assert ExponentScale("") == 1.0;
  }

  /** A plain decimal `int.frac` (either part may be empty, not both) reads as its exact value. */
  lemma ParseWeightDecimal(i: string, f: string)
    requires AllDigits(i) && AllDigits(f) && |i| + |f| >= 1
    ensures ParseWeight(i + "." + f) == DecimalValue(i, f)
  {
    var s := i + ("." + f);
    assert i + "." + f == s;
    if |i| > 0 { assert s[0] == i[0]; } else { assert s[0] == '.'; }
    UnsignedStart(s);
    UnsignedDecimal(i, f);
  }

  lemma FractionOfDigits(f: string)
    requires AllDigits(f)
    ensures Fraction("." + f) == (f, "")
  {
    assert ("." + f)[1..] == f;
    LeadingDigitsOfDigits(f);
    assert f[..|f|] == f;
    assert f[|f|..] == "";
  }

  // ---------------------------------------------------------------------
  // Entries
  // ---------------------------------------------------------------------

  const QSep: string := ";q="

  /** One comma-separated entry before filtering: its tag as written and its weight. */
  datatype Part = Part(lang: string, weight: real)

  /**
   * The weight text of `explode(';q=', entry)`: everything after the first
   * separator up to the next one, if any.
   */
  function WeightText(afterSep: string): string {
    match IndexOf(afterSep, QSep)
    case Some(j) => afterSep[..j]
    case None => afterSep
  }

  /** The first `;q=` of `entry` sits at a positive offset (PHP's `strpos` is truthy). */
  predicate HasWeight(entry: string) {
    match IndexOf(entry, QSep)
    case Some(i) => i > 0
    case None => false
  }

  /**
   * An entry is split at its first `;q=` only when that separator is found at
   * a positive offset: `strpos` returning 0 is falsy in PHP, so such an entry
   * is a bare tag with weight 1.
   */
  function ParsePart(entry: string): (r: Part)
    ensures (OccursAt(entry, QSep, 0) || forall j :: 0 <= j ==> !OccursAt(entry, QSep, j)) ==>
      r == Part(entry, 1.0)
    ensures !OccursAt(entry, QSep, 0) && (exists j :: 0 <= j && OccursAt(entry, QSep, j)) ==>
      && 1 <= |r.lang|
      && OccursAt(entry, QSep, |r.lang|)
      && entry[..|r.lang|] == r.lang
      && (forall j :: 0 <= j < |r.lang| ==> !OccursAt(entry, QSep, j))
      && r.weight == ParseWeight(WeightText(entry[|r.lang| + |QSep|..]))
  {
    match IndexOf(entry, QSep)
    case Some(i) =>
      if i > 0 then Part(entry[..i], ParseWeight(WeightText(entry[i + |QSep|..])))
      else Part(entry, 1.0)
    case None => Part(entry, 1.0)
  }

  /** An entry with no `;` at all is a bare tag of weight 1. */
  lemma ParsePartBare(entry: string)
    requires ';' !in entry
    ensures ParsePart(entry) == Part(entry, 1.0)
  {
    NoSemicolonNoSep(entry);
  }

  /** `tag;q=w` with no `;` in the tag nor in `w` splits into that tag and the weight of `w`. */
  lemma ParsePartWeighted(tag: string, w: string)
    requires 1 <= |tag| && ';' !in tag && ';' !in w
    ensures ParsePart(tag + QSep + w) == Part(tag, ParseWeight(w))
  {
    var e := tag + QSep + w;
    forall j | 0 <= j < |tag|
      ensures !OccursAt(e, QSep, j)
    {
      assert e[j] == tag[j] && tag[j] in tag;
      assert e[j..j + 3][0] == e[j];
    }
    assert e[|tag|..|tag| + 3] == QSep;
    assert OccursAt(e, QSep, |tag|);
    assert IndexOf(e, QSep) == Some(|tag|);
    assert e[..|tag|] == tag;
    assert e[|tag| + |QSep|..] == w;
    NoSemicolonNoSep(w);
    assert WeightText(w) == w;
  }

  lemma NoSemicolonNoSep(s: string)
    requires ';' !in s
    ensures IndexOf(s, QSep) == None
  {
    forall j | 0 <= j
      ensures !OccursAt(s, QSep, j)
    {
      if j + 3 <= |s| {
        assert s[j] in s;
        assert s[j..j + 3][0] == s[j];
      }
    }
  }

  /** A header joining comma-free, whitespace-free entries splits back into them. */
  lemma PartsOfJoin(entries: seq<string>)
    requires |entries| >= 1
    requires forall i :: 0 <= i < |entries| ==> ',' !in entries[i]
    requires forall i :: 0 <= i < |entries| ==> NoSpace(entries[i])
    ensures Parts(Join(entries, ',')) == entries
  {
    JoinNoSpace(entries, ',');
    SplitJoin(entries, ',');
  }

  /** `$lang != '*' && $weight > 0`. */
  predicate Survives(p: Part) {
    p.lang != "*" && p.weight > 0.0
  }

  /** The header's entries: whitespace removed, then split on commas. */
  function Parts(header: string): (r: seq<string>)
    ensures |r| >= 1
  {
    Split(StripSpace(header), ',')
  }

  /** The parsed entries of a header, in order. */
  function Entries(header: string): (r: seq<Part>)
    ensures |r| == |Parts(header)|
    ensures forall i :: 0 <= i < |r| ==> r[i] == ParsePart(Parts(header)[i])
  {
    var parts := Parts(header);
    seq(|parts|, i requires 0 <= i < |parts| => ParsePart(parts[i]))
  }

  predicate Kept(ps: seq<Part>, i: int) {
    0 <= i < |ps| && Survives(ps[i])
  }

  function TagAt(ps: seq<Part>, i: nat): string
    requires i < |ps|
  {
    ToLower(ps[i].lang)
  }

  /** Entry `i` is kept and no later kept entry among the first `n` has the same tag. */
  predicate LastKept(ps: seq<Part>, n: nat, i: nat) {
    && i < n <= |ps|
    && Kept(ps, i)
    && forall j :: i < j < n && Kept(ps, j) ==> TagAt(ps, j) != TagAt(ps, i)
  }

  /** Two last kept occurrences of one tag are the same occurrence. */
  lemma LastKeptUnique(ps: seq<Part>, n: nat, i: nat, j: nat)
    requires LastKept(ps, n, i) && LastKept(ps, n, j) && TagAt(ps, i) == TagAt(ps, j)
    ensures i == j
  {
  }

  // ---------------------------------------------------------------------
  // The weighted table (PHP's tag-keyed array)
  // ---------------------------------------------------------------------

  /** A stored entry: the lower-cased tag, its weight and the entry's position. */
  datatype Weighted = Weighted(tag: string, weight: real, pos: nat)

  predicate DistinctTags(t: seq<Weighted>) {
    forall a, b :: 0 <= a < b < |t| ==> t[a].tag != t[b].tag
  }

  /** `$weighted[$tag] = …`: replaces the entry with the same tag in place, or appends. */
  function Store(t: seq<Weighted>, w: Weighted): (r: seq<Weighted>)
    requires DistinctTags(t)
    ensures w in r
    ensures forall x :: x in r ==> x == w || (x in t && x.tag != w.tag)
    ensures forall x :: x in t && x.tag != w.tag ==> x in r
    ensures DistinctTags(r)
  {
    if |t| == 0 then [w]
    else if t[0].tag == w.tag then
      var r := [w] + t[1..];
      assert forall x :: x in t[1..] ==> x in t;
      assert forall x :: x in t[1..] ==> x.tag != w.tag;
      r
    else
      var s := Store(t[1..], w);
      var r := [t[0]] + s;
      assert forall x :: x in t[1..] ==> x in t;
      assert forall x :: x in t ==> x == t[0] || x in t[1..];
      assert forall x :: x in r ==> x == t[0] || x in s;
      assert forall x :: x in t[1..] ==> x.tag != t[0].tag;
      r
  }

  /** Every stored entry is the last kept occurrence of its tag among the first `n` entries. */
  ghost predicate Faithful(ps: seq<Part>, n: nat, t: seq<Weighted>) {
    forall x :: x in t ==>
      && LastKept(ps, n, x.pos)
      && x.tag == TagAt(ps, x.pos)
      && x.weight == ps[x.pos].weight
  }

  /** Every kept tag among the first `n` entries is stored. */
  ghost predicate Complete(ps: seq<Part>, n: nat, t: seq<Weighted>)
    requires n <= |ps|
  {
    forall i :: 0 <= i < n && Kept(ps, i) ==> exists x :: x in t && x.tag == TagAt(ps, i)
  }

  /** The `foreach` over the first `n` entries, building the tag-keyed table. */
  function Collect(ps: seq<Part>, n: nat): (r: seq<Weighted>)
    requires n <= |ps|
    ensures DistinctTags(r)
    ensures Faithful(ps, n, r)
    ensures Complete(ps, n, r)
  {
    if n == 0 then []
    else
      var prev := Collect(ps, n - 1);
      var p := ps[n - 1];
      if Survives(p) then
        var w := Weighted(ToLower(p.lang), p.weight, n - 1);
        var r := Store(prev, w);
        StoreKeepsFaithful(ps, n, prev, w, r);
        StoreKeepsComplete(ps, n, prev, w, r);
        r
      else
        SkipKeepsFaithful(ps, n, prev);
        prev
  }

  lemma StoreKeepsFaithful(ps: seq<Part>, n: nat, prev: seq<Weighted>, w: Weighted, r: seq<Weighted>)
    requires 1 <= n <= |ps| && Kept(ps, n - 1)
    requires w == Weighted(ToLower(ps[n - 1].lang), ps[n - 1].weight, n - 1)
    requires Faithful(ps, n - 1, prev)
    requires forall x :: x in r ==> x == w || (x in prev && x.tag != w.tag)
    ensures Faithful(ps, n, r)
  {
    forall x | x in r
      ensures LastKept(ps, n, x.pos)
    {
      if x != w {
        assert LastKept(ps, n - 1, x.pos);
      }
    }
  }

  lemma StoreKeepsComplete(ps: seq<Part>, n: nat, prev: seq<Weighted>, w: Weighted, r: seq<Weighted>)
    requires 1 <= n <= |ps| && Kept(ps, n - 1)
    requires w.tag == TagAt(ps, n - 1)
    requires Complete(ps, n - 1, prev)
    requires w in r
    requires forall x :: x in prev && x.tag != w.tag ==> x in r
    ensures Complete(ps, n, r)
  {
    forall i | 0 <= i < n && Kept(ps, i)
      ensures exists x :: x in r && x.tag == TagAt(ps, i)
    {
      if i < n - 1 {
        var y :| y in prev && y.tag == TagAt(ps, i);
        if y.tag != w.tag {
          assert y in r;
        } else {
          assert w in r;
        }
      } else {
        assert w in r && w.tag == TagAt(ps, i);
      }
    }
  }

  lemma SkipKeepsFaithful(ps: seq<Part>, n: nat, prev: seq<Weighted>)
    requires 1 <= n <= |ps| && !Kept(ps, n - 1)
    requires Faithful(ps, n - 1, prev)
    ensures Faithful(ps, n, prev)
  {
    forall x | x in prev
      ensures LastKept(ps, n, x.pos)
    {
      assert LastKept(ps, n - 1, x.pos);
    }
  }

  // ---------------------------------------------------------------------
  // Ranking (arsort on the pair (weight, -position))
  // ---------------------------------------------------------------------

  /** `a` ranks at least as high as `b`: (a.weight, -a.pos) >= (b.weight, -b.pos). */
  predicate RankGe(a: Weighted, b: Weighted) {
    a.weight > b.weight || (a.weight == b.weight && a.pos <= b.pos)
  }

  /** `a` ranks strictly higher than `b`: higher weight, or equal weight and earlier position. */
  predicate Outranks(a: Weighted, b: Weighted) {
    a.weight > b.weight || (a.weight == b.weight && a.pos < b.pos)
  }

  predicate SortedByRank(s: seq<Weighted>) {
    forall i, j :: 0 <= i < j < |s| ==> RankGe(s[i], s[j])
  }

  predicate NoDup(s: seq<Weighted>) {
    forall i, j :: 0 <= i < j < |s| ==> s[i] != s[j]
  }

  /** Inserts `w` into a ranked list before the first entry it ranks at least as high as. */
  function Insert(w: Weighted, s: seq<Weighted>): (r: seq<Weighted>)
    requires SortedByRank(s)
    ensures SortedByRank(r)
    ensures |r| == |s| + 1
    ensures forall x :: x in r <==> x == w || x in s
    ensures NoDup(s) && w !in s ==> NoDup(r)
  {
    if |s| == 0 then [w]
    else if RankGe(w, s[0]) then
      assert forall j :: 0 < j < |s| ==> RankGe(s[0], s[j]);
      [w] + s
    else
      var t := Insert(w, s[1..]);
      assert forall x :: x in s[1..] ==> RankGe(s[0], x);
      assert forall x :: x in s <==> x == s[0] || x in s[1..];
      assert NoDup(s) && w !in s ==> s[0] !in t && NoDup(s[1..]) && w !in s[1..];
      [s[0]] + t
  }

  /** Insertion sort by rank. */
  function SortByRank(s: seq<Weighted>): (r: seq<Weighted>)
    ensures SortedByRank(r)
    ensures |r| == |s|
    ensures forall x :: x in r <==> x in s
    ensures NoDup(s) ==> NoDup(r)
  {
    if |s| == 0 then []
    else
      assert forall x :: x in s <==> x == s[0] || x in s[1..];
      assert NoDup(s) ==> NoDup(s[1..]) && s[0] !in s[1..];
      Insert(s[0], SortByRank(s[1..]))
  }

  // ---------------------------------------------------------------------
  // The preference order, and the parser
  // ---------------------------------------------------------------------

  /**
   * The reference definition of the result: one entry per kept tag, each the
   * last kept occurrence of that tag with its weight, strictly ranked by
   * weight descending and position ascending.
   */
  ghost predicate IsPreferenceOrder(ps: seq<Part>, s: seq<Weighted>) {
    && DistinctTags(s)
    && Faithful(ps, |ps|, s)
    && Complete(ps, |ps|, s)
    && StrictlyRanked(s)
  }

  predicate StrictlyRanked(s: seq<Weighted>) {
    forall i, j :: 0 <= i < j < |s| ==> Outranks(s[i], s[j])
  }

  /** The stored entries of a header, ranked. */
  function Ranked(header: string): (r: seq<Weighted>)
    ensures IsPreferenceOrder(Entries(header), r)
  {
    var ps := Entries(header);
    var t := Collect(ps, |ps|);
    var r := SortByRank(t);
    RankedIsPreferenceOrder(ps, t, r);
    r
  }

  /** A rank-sorted permutation of the collected table is the preference order. */
  lemma RankedIsPreferenceOrder(ps: seq<Part>, t: seq<Weighted>, r: seq<Weighted>)
    requires DistinctTags(t) && Faithful(ps, |ps|, t) && Complete(ps, |ps|, t)
    requires SortedByRank(r) && forall x :: x in r <==> x in t
    requires NoDup(t) ==> NoDup(r)
    ensures IsPreferenceOrder(ps, r)
  {
    assert NoDup(t);
    forall i, j | 0 <= i < j < |r|
      ensures r[i].tag != r[j].tag && Outranks(r[i], r[j])
    {
      assert r[i] in t && r[j] in t;
      if r[i].tag == r[j].tag {
        InjectiveTags(t, r[i], r[j]);
      }
    }
  }

  /** Entries of a table with distinct tags that share a tag are the same entry. */
  lemma InjectiveTags(t: seq<Weighted>, x: Weighted, y: Weighted)
    requires DistinctTags(t) && x in t && y in t && x.tag == y.tag
    ensures x == y
  {
    var a :| 0 <= a < |t| && t[a] == x;
    var b :| 0 <= b < |t| && t[b] == y;
    if a < b {
    } else if b < a {
    }
  }

  /**
   * `parseAcceptLanguage`: the tags of the header's preferences, best first;
   * an absent header yields no preferences.
   */
  function ParseAcceptLanguage(header: Option<string>): (r: seq<string>)
    ensures header.None? ==> r == []
    ensures header.Some? ==>
      && |r| == |Ranked(header.value)|
      && forall i :: 0 <= i < |r| ==> r[i] == Ranked(header.value)[i].tag
  {
    match header
    case None => []
    case Some(h) =>
      var w := Ranked(h);
      seq(|w|, i requires 0 <= i < |w| => w[i].tag)
  }

  // ---------------------------------------------------------------------
  // Properties of the parser
  // ---------------------------------------------------------------------

  /** Two lists that both satisfy the reference definition are equal. */
  lemma PreferenceOrderUnique(ps: seq<Part>, s1: seq<Weighted>, s2: seq<Weighted>)
    requires IsPreferenceOrder(ps, s1) && IsPreferenceOrder(ps, s2)
    ensures s1 == s2
  {
    SameEntries(ps, s1, s2);
    SameEntries(ps, s2, s1);
    StrictlyRankedUnique(s1, s2);
  }

  lemma SameEntries(ps: seq<Part>, s1: seq<Weighted>, s2: seq<Weighted>)
    requires IsPreferenceOrder(ps, s1) && IsPreferenceOrder(ps, s2)
    ensures forall x :: x in s1 ==> x in s2
  {
    forall x | x in s1
      ensures x in s2
    {
      assert Kept(ps, x.pos);
      var y :| y in s2 && y.tag == TagAt(ps, x.pos);
      LastKeptUnique(ps, |ps|, x.pos, y.pos);
    }
  }

  /** Strictly ranked lists with the same entries are equal. */
  lemma {:induction false} StrictlyRankedUnique(s1: seq<Weighted>, s2: seq<Weighted>)
    requires StrictlyRanked(s1) && StrictlyRanked(s2)
    requires forall x :: x in s1 <==> x in s2
    ensures s1 == s2
  {
    SameMembersSameEmptiness(s1, s2);
    if |s1| > 0 {
      assert s1[0] in s2;
      HeadRanksFirst(s1, s2[0]);
      HeadRanksFirst(s2, s1[0]);
      assert s1[0] == s2[0];
      forall x
        ensures x in s1[1..] <==> x in s2[1..]
      {
        if x in s1[1..] {
          assert x != s1[0];
          assert x in s2;
        }
        if x in s2[1..] {
          assert x != s2[0];
          assert x in s1;
        }
      }
      StrictlyRankedUnique(s1[1..], s2[1..]);
      assert s1 == [s1[0]] + s1[1..] && s2 == [s2[0]] + s2[1..];
    }
  }

  lemma SameMembersSameEmptiness(s1: seq<Weighted>, s2: seq<Weighted>)
    requires forall x :: x in s1 <==> x in s2
    ensures |s1| == 0 <==> |s2| == 0
  {
    if |s1| > 0 {
      assert s1[0] in s2;
    }
    if |s2| > 0 {
      assert s2[0] in s1;
    }
  }

  /** The head of a strictly ranked list outranks every other entry of it. */
  lemma HeadRanksFirst(s: seq<Weighted>, x: Weighted)
    requires StrictlyRanked(s) && x in s
    ensures x == s[0] || Outranks(s[0], x)
  {
  }

  /** The parse is exactly the tags of the (unique) preference order of the header's entries. */
  lemma ParseIsPreferenceOrder(h: string, s: seq<Weighted>)
    requires IsPreferenceOrder(Entries(h), s)
    ensures ParseAcceptLanguage(Some(h)) == seq(|s|, i requires 0 <= i < |s| => s[i].tag)
  {
    PreferenceOrderUnique(Entries(h), Ranked(h), s);
  }

  /** Every returned tag is lower-case and never `*`. */
  lemma ParseTagsLowerNotStar(h: string)
    ensures var r := ParseAcceptLanguage(Some(h));
      forall i :: 0 <= i < |r| ==> IsLower(r[i]) && r[i] != "*"
  {
    var r := ParseAcceptLanguage(Some(h));
    var w := Ranked(h);
    var ps := Entries(h);
    forall i | 0 <= i < |r|
      ensures IsLower(r[i]) && r[i] != "*"
    {
      assert w[i] in w;
      ToLowerStar(ps[w[i].pos].lang);
    }
  }

  /** No tag is returned twice. */
  lemma ParseTagsDistinct(h: string)
    ensures var r := ParseAcceptLanguage(Some(h));
      forall i, j :: 0 <= i < j < |r| ==> r[i] != r[j]
  {
    var w := Ranked(h);
    assert DistinctTags(w);
  }

  /** A tag is returned exactly when some kept entry (tag not `*`, weight > 0) carries it. */
  lemma ParseTagsComplete(h: string, t: string)
    ensures t in ParseAcceptLanguage(Some(h)) <==> exists i :: Kept(Entries(h), i) && TagAt(Entries(h), i) == t
  {
    var r := ParseAcceptLanguage(Some(h));
    var w := Ranked(h);
    PreferenceTags(Entries(h), w, t);
    assert t in r <==> exists k :: 0 <= k < |w| && w[k].tag == t by {
      if t in r {
        var k :| 0 <= k < |r| && r[k] == t;
        assert w[k].tag == t;
      }
      if exists k :: 0 <= k < |w| && w[k].tag == t {
        var k :| 0 <= k < |w| && w[k].tag == t;
        assert r[k] == t;
      }
    }
  }

  /** The tags of a preference order are exactly the tags of kept entries. */
  lemma PreferenceTags(ps: seq<Part>, w: seq<Weighted>, t: string)
    requires IsPreferenceOrder(ps, w)
    ensures (exists k :: 0 <= k < |w| && w[k].tag == t) <==> exists i :: Kept(ps, i) && TagAt(ps, i) == t
  {
    if exists k :: 0 <= k < |w| && w[k].tag == t {
      var k :| 0 <= k < |w| && w[k].tag == t;
      assert w[k] in w;
      assert Kept(ps, w[k].pos);
    }
    if exists i :: Kept(ps, i) && TagAt(ps, i) == t {
      var i :| Kept(ps, i) && TagAt(ps, i) == t;
      var x :| x in w && x.tag == t;
      var k :| 0 <= k < |w| && w[k] == x;
    }
  }

  /** The stored entry for the tag of entry `i`, when `i` is its last kept occurrence. */
  function StoredAt(ps: seq<Part>, i: nat): Weighted
    requires i < |ps|
  {
    Weighted(TagAt(ps, i), ps[i].weight, i)
  }

  /**
   * Two returned tags appear in the order of their last kept occurrences: by
   * weight, and by position in the header when the weights are equal.
   */
  lemma ParseRelativeOrder(h: string, i: nat, j: nat, a: nat, b: nat)
    requires LastKept(Entries(h), |Entries(h)|, i) && LastKept(Entries(h), |Entries(h)|, j) && i != j
    requires a < |ParseAcceptLanguage(Some(h))| && ParseAcceptLanguage(Some(h))[a] == TagAt(Entries(h), i)
    requires b < |ParseAcceptLanguage(Some(h))| && ParseAcceptLanguage(Some(h))[b] == TagAt(Entries(h), j)
    ensures a < b <==> Outranks(StoredAt(Entries(h), i), StoredAt(Entries(h), j))
  {
    var ps := Entries(h);
    var w := Ranked(h);
    assert w[a].tag == TagAt(ps, i) && w[b].tag == TagAt(ps, j);
    RankOfStored(ps, w, i, j, a, b);
  }

  /** In a preference order, entries sit in the order of the occurrences they store. */
  lemma RankOfStored(ps: seq<Part>, w: seq<Weighted>, i: nat, j: nat, a: nat, b: nat)
    requires IsPreferenceOrder(ps, w)
    requires LastKept(ps, |ps|, i) && LastKept(ps, |ps|, j) && i != j
    requires a < |w| && w[a].tag == TagAt(ps, i)
    requires b < |w| && w[b].tag == TagAt(ps, j)
    ensures a < b <==> Outranks(StoredAt(ps, i), StoredAt(ps, j))
  {
    StoredEntry(ps, w, i, a);
    StoredEntry(ps, w, j, b);
  }

  /** The entry of a preference order carrying a kept tag is that tag's last occurrence. */
  lemma StoredEntry(ps: seq<Part>, w: seq<Weighted>, i: nat, a: nat)
    requires IsPreferenceOrder(ps, w)
    requires LastKept(ps, |ps|, i)
    requires a < |w| && w[a].tag == TagAt(ps, i)
    ensures w[a] == StoredAt(ps, i)
  {
    assert w[a] in w;
    LastKeptUnique(ps, |ps|, i, w[a].pos);
  }

  /**
   * A header whose entries all survive, with distinct tags and non-increasing
   * weights, yields its tags in header order.
   */
  lemma ParseInHeaderOrder(h: string)
    requires forall i :: 0 <= i < |Entries(h)| ==> Kept(Entries(h), i)
    requires forall i, j :: 0 <= i < j < |Entries(h)| ==> TagAt(Entries(h), i) != TagAt(Entries(h), j)
    requires forall i, j :: 0 <= i < j < |Entries(h)| ==> Entries(h)[i].weight >= Entries(h)[j].weight
    ensures ParseAcceptLanguage(Some(h)) == seq(|Entries(h)|, i requires 0 <= i < |Entries(h)| => TagAt(Entries(h), i))
  {
    var ps := Entries(h);
    var w := InOrder(ps);
    InOrderIsPreferenceOrder(ps);
    ParseIsPreferenceOrder(h, w);
  }

  function InOrder(ps: seq<Part>): (w: seq<Weighted>)
    ensures |w| == |ps|
    ensures forall i :: 0 <= i < |ps| ==> w[i] == StoredAt(ps, i)
  {
    seq(|ps|, i requires 0 <= i < |ps| => StoredAt(ps, i))
  }

  lemma InOrderIsPreferenceOrder(ps: seq<Part>)
    requires forall i :: 0 <= i < |ps| ==> Kept(ps, i)
    requires forall i, j :: 0 <= i < j < |ps| ==> TagAt(ps, i) != TagAt(ps, j)
    requires forall i, j :: 0 <= i < j < |ps| ==> ps[i].weight >= ps[j].weight
    ensures IsPreferenceOrder(ps, InOrder(ps))
  {
    var w := InOrder(ps);
    forall x | x in w
      ensures LastKept(ps, |ps|, x.pos)
    {
    }
    forall i | 0 <= i < |ps| && Kept(ps, i)
      ensures exists x :: x in w && x.tag == TagAt(ps, i)
    {
      assert w[i] in w;
    }
  }

  /** Whitespace anywhere in the header does not change the result. */
  lemma ParseIgnoresWhitespace(a: string, c: char, b: string)
    requires IsSpace(c)
    ensures ParseAcceptLanguage(Some(a + [c] + b)) == ParseAcceptLanguage(Some(a + b))
  {
    StripSpaceIgnoresInsertedSpace(a, c, b);
    assert Entries(a + [c] + b) == Entries(a + b);
  }

  /** An absent header gives no preferences; a present empty one gives the empty tag. */
  lemma ParseAbsentAndEmpty()
    ensures ParseAcceptLanguage(None) == []
    ensures ParseAcceptLanguage(Some("")) == [""]
  {
    assert Entries("") == [Part("", 1.0)];
    ParseIsPreferenceOrder("", [Weighted("", 1.0, 0)]);
  }
}
