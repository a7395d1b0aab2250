/**
 * String primitives the library borrows from PHP: whitespace stripping
 * (`preg_replace('/\s+/', '', …)`), `explode` on one character, `strpos`,
 * ASCII `strtolower`, and integer/decimal conversion of natural numbers.
 * Strings are sequences of characters; no encoding is modelled.
 */
module Text {
  import opened Wrappers

  /** The characters PCRE's `\s` matches without the UTF flag. */
  predicate IsSpace(c: char) {
    c == ' ' || c == '\t' || c == '\n' || c == '\r' || c as int == 11 || c as int == 12
  }

  predicate IsDigit(c: char) {
    '0' <= c <= '9'
  }

  predicate IsUpper(c: char) {
    'A' <= c <= 'Z'
  }

  predicate AllDigits(s: string) {
    forall i :: 0 <= i < |s| ==> IsDigit(s[i])
  }

  /** True when `s` holds no upper-case ASCII letter. */
  predicate IsLower(s: string) {
    forall i :: 0 <= i < |s| ==> !IsUpper(s[i])
  }

  // ---------------------------------------------------------------------
  // Whitespace stripping
  // ---------------------------------------------------------------------

  /** Removes every whitespace character, keeping the others in order. */
  function StripSpace(s: string): (r: string)
    ensures NoSpace(r)
    ensures |r| <= |s|
    ensures NoSpace(s) ==> r == s
  {
    if |s| == 0 then []
    else if IsSpace(s[0]) then StripSpace(s[1..])
    else [s[0]] + StripSpace(s[1..])
  }

  predicate NoSpace(s: string) {
    forall i :: 0 <= i < |s| ==> !IsSpace(s[i])
  }

  /** Joining whitespace-free pieces with a non-space separator gives a whitespace-free text. */
  lemma {:induction false} JoinNoSpace(parts: seq<string>, sep: char)
    requires |parts| >= 1 && !IsSpace(sep)
    requires forall i :: 0 <= i < |parts| ==> NoSpace(parts[i])
    ensures NoSpace(Join(parts, sep))
  {
    if |parts| > 1 {
      JoinNoSpace(parts[1..], sep);
      var a := parts[0] + [sep];
      assert NoSpace(a);
    }
  }

  /** Stripping distributes over concatenation. */
  lemma {:induction false} StripSpaceConcat(a: string, b: string)
    ensures StripSpace(a + b) == StripSpace(a) + StripSpace(b)
  {
    if |a| == 0 {
      assert a + b == b;
    } else {
      assert (a + b)[1..] == a[1..] + b;
      StripSpaceConcat(a[1..], b);
    }
  }

  /** Inserting one whitespace character anywhere does not change the stripped text. */
  lemma StripSpaceIgnoresInsertedSpace(a: string, c: char, b: string)
    requires IsSpace(c)
    ensures StripSpace(a + [c] + b) == StripSpace(a + b)
  {
    StripSpaceConcat(a + [c], b);
    StripSpaceConcat(a, [c]);
    StripSpaceConcat(a, b);
    assert StripSpace([c]) == [];
  }

  // ---------------------------------------------------------------------
  // explode() on a single separator character
  // ---------------------------------------------------------------------

  /** `explode(sep, s)`: the pieces between separators; the empty string yields `[""]`. */
  function Split(s: string, sep: char): (r: seq<string>)
    ensures |r| >= 1
    ensures forall i :: 0 <= i < |r| ==> sep !in r[i]
  {
    if |s| == 0 then [""]
    else
      var rest := Split(s[1..], sep);
      if s[0] == sep then [""] + rest
      else [[s[0]] + rest[0]] + rest[1..]
  }

  /** `implode(sep, parts)`, the inverse of `Split`. */
  function Join(parts: seq<string>, sep: char): string
    requires |parts| >= 1
  {
    if |parts| == 1 then parts[0] else parts[0] + [sep] + Join(parts[1..], sep)
  }

  /** The pieces written one after the other. */
  function Flatten(parts: seq<string>): string {
    if |parts| == 0 then [] else parts[0] + Flatten(parts[1..])
  }

  /** Whitespace-free pieces joined by a whitespace character strip to their concatenation. */
  lemma {:induction false} StripSpaceJoin(parts: seq<string>, sep: char)
    requires |parts| >= 1 && IsSpace(sep)
    requires forall i :: 0 <= i < |parts| ==> NoSpace(parts[i])
    ensures StripSpace(Join(parts, sep)) == Flatten(parts)
  {
    if |parts| == 1 {
      assert Flatten(parts) == parts[0] + [];
    } else {
      var head, tail := parts[0], parts[1..];
      assert forall i :: 0 <= i < |tail| ==> NoSpace(tail[i]) by {
        forall i | 0 <= i < |tail|
          ensures NoSpace(tail[i])
        {
          assert tail[i] == parts[i + 1];
        }
      }
      StripSpaceJoin(tail, sep);
      StripSpaceSeparated(head, sep, Join(tail, sep));
      assert Join(parts, sep) == head + [sep] + Join(tail, sep);
      assert Flatten(parts) == head + Flatten(tail);
    }
  }

  /** A whitespace-free piece, a whitespace separator and more text strip to the piece and the stripped rest. */
  lemma StripSpaceSeparated(head: string, sep: char, rest: string)
    requires NoSpace(head) && IsSpace(sep)
    ensures StripSpace(head + [sep] + rest) == head + StripSpace(rest)
  {
    var front := head + [sep];
    StripSpaceConcat(front, rest);
    StripSpaceSpaceAfter(head, sep);
  }

  /** A whitespace character after a whitespace-free piece strips away. */
  lemma StripSpaceSpaceAfter(head: string, sep: char)
    requires NoSpace(head) && IsSpace(sep)
    ensures StripSpace(head + [sep]) == head
  {
    StripSpaceConcat(head, [sep]);
    assert StripSpace([sep]) == StripSpace([]);
    assert head + [] == head;
  }

  /** Joining the pieces of a split gives back the original text. */
  lemma {:induction false} JoinSplit(s: string, sep: char)
    ensures Join(Split(s, sep), sep) == s
  {
    if |s| == 0 {
    } else {
      var rest := Split(s[1..], sep);
      JoinSplit(s[1..], sep);
      if s[0] == sep {
        assert ([""] + rest)[1..] == rest;
      } else {
        var r := [[s[0]] + rest[0]] + rest[1..];
        if |rest| == 1 {
          assert r == [[s[0]] + rest[0]];
        } else {
          assert r[1..] == rest[1..];
          assert Join(rest, sep) == rest[0] + [sep] + Join(rest[1..], sep);
        }
      }
    }
  }

  /** Splitting a join of separator-free pieces gives back the pieces. */
  lemma {:induction false} SplitJoin(parts: seq<string>, sep: char)
    requires |parts| >= 1
    requires forall i :: 0 <= i < |parts| ==> sep !in parts[i]
    ensures Split(Join(parts, sep), sep) == parts
  {
    if |parts| == 1 {
      SplitPiece(parts[0], sep);
    } else {
      SplitJoin(parts[1..], sep);
      SplitPrefix(parts[0], Join(parts[1..], sep), sep);
      assert parts == [parts[0]] + parts[1..];
    }
  }

  /** A text without separator splits into itself. */
  lemma {:induction false} SplitPiece(p: string, sep: char)
    requires sep !in p
    ensures Split(p, sep) == [p]
  {
    if |p| > 0 {
      assert p[0] != sep && p[0] in p;
      SplitPiece(p[1..], sep);
      assert [p[0]] + p[1..] == p;
    }
  }

  /** A separator-free prefix followed by a separator becomes the first piece. */
  lemma {:induction false} SplitPrefix(p: string, rest: string, sep: char)
    requires sep !in p
    ensures Split(p + [sep] + rest, sep) == [p] + Split(rest, sep)
  {
    if |p| == 0 {
      assert p + [sep] + rest == [sep] + rest;
      assert ([sep] + rest)[1..] == rest;
    } else {
      assert (p + [sep] + rest)[1..] == p[1..] + [sep] + rest;
      SplitPrefix(p[1..], rest, sep);
      assert [p[0]] + p[1..] == p;
    }
  }

  // ---------------------------------------------------------------------
  // strpos()
  // ---------------------------------------------------------------------

  /** `pat` occurs in `s` starting at offset `i`. */
  predicate OccursAt(s: string, pat: string, i: int) {
    0 <= i && i + |pat| <= |s| && s[i..i + |pat|] == pat
  }

  /** `strpos(s, pat)`: the first offset where `pat` occurs, `None` for PHP's `false`. */
  function IndexOf(s: string, pat: string): (r: Option<nat>)
    ensures r.Some? ==> OccursAt(s, pat, r.value)
    ensures r.Some? ==> forall j :: 0 <= j < r.value ==> !OccursAt(s, pat, j)
    ensures r.None? ==> forall j :: 0 <= j ==> !OccursAt(s, pat, j)
  {
    IndexFrom(s, pat, 0)
  }

  function IndexFrom(s: string, pat: string, k: nat): (r: Option<nat>)
    requires forall j :: 0 <= j < k ==> !OccursAt(s, pat, j)
    ensures r.Some? ==> k <= r.value && OccursAt(s, pat, r.value)
    ensures r.Some? ==> forall j :: 0 <= j < r.value ==> !OccursAt(s, pat, j)
    ensures r.None? ==> forall j :: 0 <= j ==> !OccursAt(s, pat, j)
    decreases |s| - k
  {
    if k + |pat| > |s| then None
    else if s[k..k + |pat|] == pat then Some(k)
    else IndexFrom(s, pat, k + 1)
  }

  // ---------------------------------------------------------------------
  // strtolower()
  // ---------------------------------------------------------------------

  function LowerChar(c: char): char {
    if IsUpper(c) then (c as int + 32) as char else c
  }

  /** ASCII lower-casing, character by character. */
  function ToLower(s: string): (r: string)
    ensures |r| == |s|
    ensures IsLower(r)
    ensures forall i :: 0 <= i < |s| && !IsUpper(s[i]) ==> r[i] == s[i]
  {
    seq(|s|, i requires 0 <= i < |s| => LowerChar(s[i]))
  }

  /** Lower-casing changes only letters, so it yields `"*"` exactly for `"*"`. */
  lemma ToLowerStar(s: string)
    ensures ToLower(s) == "*" <==> s == "*"
  {
    if ToLower(s) == "*" {
      assert ToLower(s)[0] == LowerChar(s[0]) == '*';
      assert s == [s[0]];
    }
  }

  /** Lower-casing is idempotent. */
  lemma ToLowerIdempotent(s: string)
    ensures ToLower(ToLower(s)) == ToLower(s)
  {
  }

  // ---------------------------------------------------------------------
  // Decimal representation of natural numbers
  // ---------------------------------------------------------------------

  function DigitChar(d: nat): char
    requires d < 10
  {
    ('0' as int + d) as char
  }

  function DigitValue(c: char): nat
    requires IsDigit(c)
  {
    c as int - '0' as int
  }

  /** PHP's integer-to-string conversion for a natural number: canonical decimal. */
  function NatToDecimal(n: nat): (r: string)
    ensures |r| >= 1 && AllDigits(r)
    ensures r[0] == '0' ==> n == 0
  {
    if n < 10 then [DigitChar(n)] else NatToDecimal(n / 10) + [DigitChar(n % 10)]
  }

  /** The value of a string of decimal digits (0 for the empty string). */
  function DigitsValue(s: string): nat
    requires AllDigits(s)
  {
    if |s| == 0 then 0 else DigitsValue(s[..|s| - 1]) * 10 + DigitValue(s[|s| - 1])
  }

  /** Reading back the decimal text of `n` gives `n`. */
  lemma {:induction false} DecimalRoundTrip(n: nat)
    ensures DigitsValue(NatToDecimal(n)) == n
  {
    if n >= 10 {
      DecimalRoundTrip(n / 10);
      var r := NatToDecimal(n);
      assert r[..|r| - 1] == NatToDecimal(n / 10);
    }
  }

  /** Distinct numbers have distinct decimal texts. */
  lemma DecimalInjective(m: nat, n: nat)
    requires NatToDecimal(m) == NatToDecimal(n)
    ensures m == n
  {
    DecimalRoundTrip(m);
    DecimalRoundTrip(n);
  }

  /**
   * Concatenation regroups. Stated apart so that proofs about substitution
   * and escaping regroup their pieces without unfolding the functions that
   * produced them.
   */
  lemma ConcatAssoc(x: string, p: string, q: string)
    ensures x + (p + q) == (x + p) + q
  {
  }
}
