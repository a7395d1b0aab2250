/**
 * PHP's `strtr` in its array form, and the `$1`, `$2`, … placeholder table
 * a message builds from its parameters.
 *
 * `strtr` scans the subject once from the left. At each offset it looks for
 * the longest search key that starts there; if there is one, its
 * replacement is emitted and the scan resumes after the key, otherwise the
 * character is copied. Replacement text is never scanned again.
 */
module Substitution {
  import opened Wrappers
  import opened Text

  /** The `array(search => replace)` argument of `strtr`, in insertion order. */
  type Pairs = seq<(string, string)>

  /** The search key of pair `k` is non-empty and starts `s`. */
  predicate Matches(s: string, pairs: Pairs, k: int) {
    0 <= k < |pairs| && |pairs[k].0| > 0 && OccursAt(s, pairs[k].0, 0)
  }

  /** The pair with the longest key starting `s`, among the first `n` pairs. */
  function LongestAmong(s: string, pairs: Pairs, n: nat): (r: Option<nat>)
    requires n <= |pairs|
    ensures r.Some? ==> r.value < n && Matches(s, pairs, r.value)
    ensures r.Some? ==> forall j :: 0 <= j < n && Matches(s, pairs, j) ==> |pairs[j].0| <= |pairs[r.value].0|
    ensures r.None? ==> forall j :: 0 <= j < n ==> !Matches(s, pairs, j)
  {
    if n == 0 then None
    else
      var best := LongestAmong(s, pairs, n - 1);
      if Matches(s, pairs, n - 1) && (best.None? || |pairs[n - 1].0| > |pairs[best.value].0|) then Some(n - 1)
      else best
  }

  function LongestMatch(s: string, pairs: Pairs): (r: Option<nat>)
    ensures r.Some? ==> Matches(s, pairs, r.value)
    ensures r.Some? ==> forall j :: Matches(s, pairs, j) ==> |pairs[j].0| <= |pairs[r.value].0|
    ensures r.None? ==> forall j :: !Matches(s, pairs, j)
  {
    LongestAmong(s, pairs, |pairs|)
  }

  /**
   * `strtr($s, $pairs)`. Empty keys never match. A table mapping every key
   * to itself changes nothing: matched text is replaced by exactly its
   * pair's replacement, and the rest is copied.
   */
  function Strtr(s: string, pairs: Pairs): (r: string)
    ensures (forall k :: 0 <= k < |pairs| ==> pairs[k].1 == pairs[k].0) ==> r == s
    decreases |s|
  {
    if |s| == 0 then []
    else
      match LongestMatch(s, pairs)
      case Some(k) => pairs[k].1 + Strtr(s[|pairs[k].0|..], pairs)
      case None => [s[0]] + Strtr(s[1..], pairs)
  }

  /** Which pairs match depends on nothing else: the same matches pick the same pair. */
  lemma {:induction false} LongestAmongSameMatches(s1: string, s2: string, pairs: Pairs, n: nat)
    requires n <= |pairs|
    requires forall j :: 0 <= j < n ==> (Matches(s1, pairs, j) <==> Matches(s2, pairs, j))
    ensures LongestAmong(s1, pairs, n) == LongestAmong(s2, pairs, n)
  {
    if n > 0 {
      LongestAmongSameMatches(s1, s2, pairs, n - 1);
    }
  }

  /** Text where no key occurs is copied unchanged. */
  lemma {:induction false} StrtrNoMatch(s: string, pairs: Pairs)
    requires forall i, j :: 0 <= i < |s| ==> !Matches(s[i..], pairs, j)
    ensures Strtr(s, pairs) == s
  {
    if |s| > 0 {
      assert s[0..] == s;
      assert LongestMatch(s, pairs).None?;
      forall i, j | 0 <= i < |s[1..]|
        ensures !Matches(s[1..][i..], pairs, j)
      {
        assert s[1..][i..] == s[i + 1..];
      }
      StrtrNoMatch(s[1..], pairs);
    }
  }

  // ---------------------------------------------------------------------
  // Placeholders
  // ---------------------------------------------------------------------

  /** The placeholder for the `n`-th parameter (counting from 1). */
  function Key(n: nat): (r: string)
    ensures |r| >= 2 && r[0] == '$' && AllDigits(r[1..])
    ensures forall i :: 1 <= i < |r| ==> IsDigit(r[i])
  {
    "$" + NatToDecimal(n)
  }

  /** `$replace['$' . ($n + 1)] = $p` for every parameter, in order. */
  function Placeholders(params: seq<string>): (r: Pairs)
    ensures |r| == |params|
    ensures forall n :: 0 <= n < |params| ==> r[n].0 == Key(n + 1) && r[n].1 == params[n]
  {
    seq(|params|, n requires 0 <= n < |params| => (Key(n + 1), params[n]))
  }

  /** Different parameters have different placeholders. */
  lemma KeyInjective(m: nat, n: nat)
    requires Key(m) == Key(n)
    ensures m == n
  {
    assert Key(m)[1..] == NatToDecimal(m) && Key(n)[1..] == NatToDecimal(n);
    DecimalInjective(m, n);
  }

  /** Text continuing with a non-digit (or ending) cannot extend a placeholder. */
  predicate Boundary(c: string) {
    |c| == 0 || !IsDigit(c[0])
  }

  /** Text of the form `$` then digits that starts `a + c` and runs past `a` makes `c` start with a digit. */
  lemma DigitsOverhang(a: string, c: string, key: string)
    requires |a| > 0 && OccursAt(a + c, key, 0)
    requires forall i :: 1 <= i < |key| ==> IsDigit(key[i])
    ensures |key| > |a| ==> !Boundary(c)
  {
    if |key| > |a| {
      assert key[|a|] == (a + c)[|a|];
    }
  }

  /**
   * A placeholder that starts within `a` ends within `a` when what follows
   * is a boundary, since every character after its `$` is a digit.
   */
  lemma PlaceholderStaysInside(a: string, c: string, params: seq<string>, j: nat)
    requires |a| > 0 && Boundary(c)
    ensures Matches(a + c, Placeholders(params), j) <==> Matches(a, Placeholders(params), j)
  {
    var pairs := Placeholders(params);
    if j < |pairs| {
      var key := pairs[j].0;
      if OccursAt(a + c, key, 0) {
        DigitsOverhang(a, c, key);
        assert (a + c)[..|key|] == a[..|key|];
      }
      if OccursAt(a, key, 0) {
        assert (a + c)[..|key|] == a[..|key|];
      }
    }
  }

  /** The placeholder chosen at the start of `a + c` is the one chosen at the start of `a`. */
  lemma LongestMatchStaysInside(a: string, c: string, params: seq<string>)
    requires |a| > 0 && Boundary(c)
    ensures LongestMatch(a + c, Placeholders(params)) == LongestMatch(a, Placeholders(params))
  {
    var pairs := Placeholders(params);
    forall j | 0 <= j < |pairs|
      ensures Matches(a + c, pairs, j) <==> Matches(a, pairs, j)
    {
      PlaceholderStaysInside(a, c, params, j);
    }
    LongestAmongSameMatches(a + c, a, pairs, |pairs|);
  }

  /**
   * Substitution works piecewise: text followed by a boundary is substituted
   * on its own, then the rest.
   */
  lemma {:induction false} StrtrSplit(a: string, c: string, params: seq<string>)
    requires Boundary(c)
    ensures Strtr(a + c, Placeholders(params)) == Strtr(a, Placeholders(params)) + Strtr(c, Placeholders(params))
    decreases |a|, 1
  {
    var pairs := Placeholders(params);
    if |a| == 0 {
      EmptyPrefix(a, c);
    } else {
      LongestMatchStaysInside(a, c, params);
      match LongestMatch(a, pairs)
      case Some(k) => SplitAtKey(a, c, params, k);
      case None => SplitAtChar(a, c, params);
    }
  }

  /** An empty prefix adds nothing. Only splits the proof of `StrtrSplit`. */
  lemma EmptyPrefix(a: string, c: string)
    requires |a| == 0
    ensures a + c == c
  {
  }

  /** `StrtrSplit` where a key matches at the start of `a`. */
  lemma {:induction false} SplitAtKey(a: string, c: string, params: seq<string>, k: nat)
    requires Boundary(c) && |a| > 0
    requires LongestMatch(a, Placeholders(params)) == Some(k)
    requires LongestMatch(a + c, Placeholders(params)) == Some(k)
    ensures Strtr(a + c, Placeholders(params)) == Strtr(a, Placeholders(params)) + Strtr(c, Placeholders(params))
    decreases |a|, 0
  {
    var pairs := Placeholders(params);
    StrtrSplit(a[|pairs[k].0|..], c, params);
    SplitReplace(a, c, pairs, k);
  }

  /** `StrtrSplit` where no key matches at the start of `a`. */
  lemma {:induction false} SplitAtChar(a: string, c: string, params: seq<string>)
    requires Boundary(c) && |a| > 0
    requires LongestMatch(a, Placeholders(params)).None?
    requires LongestMatch(a + c, Placeholders(params)).None?
    ensures Strtr(a + c, Placeholders(params)) == Strtr(a, Placeholders(params)) + Strtr(c, Placeholders(params))
    decreases |a|, 0
  {
    StrtrSplit(a[1..], c, params);
    SplitCopy(a, c, Placeholders(params));
  }

  /** A key chosen at the start of both `a` and `a + c` lets the split pass over it. */
  lemma SplitReplace(a: string, c: string, pairs: Pairs, k: nat)
    requires |a| > 0 && LongestMatch(a, pairs) == Some(k) && LongestMatch(a + c, pairs) == Some(k)
    requires k < |pairs| && |pairs[k].0| <= |a|
    requires Strtr(a[|pairs[k].0|..] + c, pairs) == Strtr(a[|pairs[k].0|..], pairs) + Strtr(c, pairs)
    ensures Strtr(a + c, pairs) == Strtr(a, pairs) + Strtr(c, pairs)
  {
    var n := |pairs[k].0|;
    ReplaceBeforeRest(a, c, pairs, k);
    StrtrReplace(a, pairs, k);
    ConcatAssoc(pairs[k].1, Strtr(a[n..], pairs), Strtr(c, pairs));
  }

  /** A key chosen at the start of `a + c` that ends within `a` leaves the rest of `a`, then `c`. */
  lemma ReplaceBeforeRest(a: string, c: string, pairs: Pairs, k: nat)
    requires |a| > 0 && LongestMatch(a + c, pairs) == Some(k)
    requires k < |pairs| && |pairs[k].0| <= |a|
    ensures Strtr(a + c, pairs) == pairs[k].1 + Strtr(a[|pairs[k].0|..] + c, pairs)
  {
    StrtrReplace(a + c, pairs, k);
    assert (a + c)[|pairs[k].0|..] == a[|pairs[k].0|..] + c;
  }

  /** A character copied at the start of both `a` and `a + c` lets the split pass over it. */
  lemma SplitCopy(a: string, c: string, pairs: Pairs)
    requires |a| > 0 && LongestMatch(a, pairs).None? && LongestMatch(a + c, pairs).None?
    requires Strtr(a[1..] + c, pairs) == Strtr(a[1..], pairs) + Strtr(c, pairs)
    ensures Strtr(a + c, pairs) == Strtr(a, pairs) + Strtr(c, pairs)
  {
    CopyBeforeRest(a, c, pairs);
    StrtrCopy(a, pairs);
    ConcatAssoc([a[0]], Strtr(a[1..], pairs), Strtr(c, pairs));
  }

  /** A character copied at the start of `a + c` is the first of `a`; the rest of `a`, then `c`, follows. */
  lemma CopyBeforeRest(a: string, c: string, pairs: Pairs)
    requires |a| > 0 && LongestMatch(a + c, pairs).None?
    ensures Strtr(a + c, pairs) == [a[0]] + Strtr(a[1..] + c, pairs)
  {
    StrtrCopy(a + c, pairs);
    assert (a + c)[1..] == a[1..] + c;
  }

  /** Where a key matches, its replacement is emitted and the scan resumes after the key. */
  lemma StrtrReplace(s: string, pairs: Pairs, k: nat)
    requires |s| > 0 && LongestMatch(s, pairs) == Some(k)
    ensures k < |pairs| && |pairs[k].0| <= |s|
    ensures Strtr(s, pairs) == pairs[k].1 + Strtr(s[|pairs[k].0|..], pairs)
  {
  }

  /** Where no key matches, the character is copied and the scan moves on by one. */
  lemma StrtrCopy(s: string, pairs: Pairs)
    requires |s| > 0 && LongestMatch(s, pairs).None?
    ensures Strtr(s, pairs) == [s[0]] + Strtr(s[1..], pairs)
  {
  }

  /** Text without `$` has no placeholders and is copied unchanged. */
  lemma PlaceholderFree(s: string, params: seq<string>)
    requires '$' !in s
    ensures Strtr(s, Placeholders(params)) == s
  {
    var pairs := Placeholders(params);
    forall i, j | 0 <= i < |s|
      ensures !Matches(s[i..], pairs, j)
    {
      assert s[i] in s;
      assert s[i..][0] == s[i];
      if 0 <= j < |pairs| {
        assert pairs[j].0[0] == '$';
      }
    }
    StrtrNoMatch(s, pairs);
  }

  /**
   * A placeholder `$k` with a parameter, followed by a boundary, becomes that
   * parameter verbatim: its text is not scanned for placeholders again.
   */
  lemma PlaceholderReplaced(k: nat, b: string, params: seq<string>)
    requires 1 <= k <= |params| && Boundary(b)
    ensures Strtr(Key(k) + b, Placeholders(params)) == params[k - 1] + Strtr(b, Placeholders(params))
  {
    var pairs := Placeholders(params);
    var s := Key(k) + b;
    PlaceholderChosen(k, b, params);
    StrtrReplace(s, pairs, k - 1);
    assert s[|Key(k)|..] == b;
  }

  /** At a placeholder `$k` followed by a boundary, the pair chosen is the `k`-th. */
  lemma PlaceholderChosen(k: nat, b: string, params: seq<string>)
    requires 1 <= k <= |params| && Boundary(b)
    ensures LongestMatch(Key(k) + b, Placeholders(params)) == Some(k - 1)
  {
    var pairs := Placeholders(params);
    var s := Key(k) + b;
    assert s[..|Key(k)|] == Key(k);
    assert Matches(s, pairs, k - 1);
    var m := LongestMatch(s, pairs).value;
    var key := pairs[m].0;
    assert key == Key(m + 1);
    DigitsOverhang(Key(k), b, key);
    assert |key| == |Key(k)|;
    assert key == s[..|key|];
    KeyInjective(m + 1, k);
  }

  /**
   * A one-digit placeholder with no parameter stays as written, followed by
   * the substitution of the rest.
   */
  lemma PlaceholderMissing(k: nat, b: string, params: seq<string>)
    requires |params| < k < 10 && Boundary(b)
    ensures Strtr(Key(k) + b, Placeholders(params)) == Key(k) + Strtr(b, Placeholders(params))
  {
    var pairs := Placeholders(params);
    var s := Key(k) + b;
    var d := DigitChar(k);
    MissingShape(k, b);
    MissingNoMatch(k, b, params);
    StrtrCopy(s, pairs);
    DigitCopied(d, b, params);
    ConcatAssoc(['$'], [d], Strtr(b, pairs));
  }

  /** A one-digit placeholder is `$` and its digit. */
  lemma MissingShape(k: nat, b: string)
    requires 0 < k < 10
    ensures Key(k) == ['$'] + [DigitChar(k)] && IsDigit(DigitChar(k))
    ensures (Key(k) + b)[0] == '$' && (Key(k) + b)[1..] == [DigitChar(k)] + b
  {
    assert Key(k) == ['$', DigitChar(k)];
  }

  /** No placeholder matches at a one-digit placeholder beyond the parameters. */
  lemma MissingNoMatch(k: nat, b: string, params: seq<string>)
    requires |params| < k < 10 && Boundary(b)
    ensures LongestMatch(Key(k) + b, Placeholders(params)).None?
  {
    var pairs := Placeholders(params);
    var s := Key(k) + b;
    assert Key(k) == ['$', DigitChar(k)];
    forall j | 0 <= j < |pairs|
      ensures !Matches(s, pairs, j)
    {
    }
  }

  /** A digit is never the start of a placeholder, so it is copied. */
  lemma DigitCopied(d: char, b: string, params: seq<string>)
    requires IsDigit(d)
    ensures Strtr([d] + b, Placeholders(params)) == [d] + Strtr(b, Placeholders(params))
  {
    var pairs := Placeholders(params);
    var t := [d] + b;
    forall j | 0 <= j < |pairs|
      ensures !Matches(t, pairs, j)
    {
      assert pairs[j].0[0] == '$';
    }
    StrtrCopy(t, pairs);
    DropFirst(d, b);
  }

  /** A character put in front is the first and leaves the rest. Only splits the proof of `PlaceholderMissing`. */
  lemma DropFirst(d: char, b: string)
    ensures ([d] + b)[1..] == b && ([d] + b)[0] == d
  {
  }

  /** `<$k>` with a `k`-th parameter becomes that parameter in angle brackets. */
  lemma BracketedPlaceholder(k: nat, params: seq<string>)
    requires 1 <= k <= |params|
    ensures Strtr("<" + Key(k) + ">", Placeholders(params)) == "<" + params[k - 1] + ">"
  {
    ConcatAssoc("<", Key(k), ">");
    StrtrSplit("<", Key(k) + ">", params);
    PlaceholderFree("<", params);
    PlaceholderReplaced(k, ">", params);
    PlaceholderFree(">", params);
    ConcatAssoc("<", params[k - 1], ">");
  }

  /** `<$k>` for a one-digit `k` beyond the parameters stays as it is. */
  lemma BracketedMissing(k: nat, params: seq<string>)
    requires |params| < k < 10
    ensures Strtr("<" + Key(k) + ">", Placeholders(params)) == "<" + Key(k) + ">"
  {
    ConcatAssoc("<", Key(k), ">");
    StrtrSplit("<", Key(k) + ">", params);
    PlaceholderFree("<", params);
    PlaceholderMissing(k, ">", params);
    PlaceholderFree(">", params);
  }

  /** ` $j>` becomes the `j`-th parameter after a space, followed by `>`. */
  lemma SpacedPlaceholder(j: nat, params: seq<string>)
    requires 1 <= j <= |params|
    ensures Strtr(" " + (Key(j) + ">"), Placeholders(params)) == " " + params[j - 1] + ">"
  {
    StrtrSplit(" ", Key(j) + ">", params);
    PlaceholderFree(" ", params);
    PlaceholderReplaced(j, ">", params);
    PlaceholderFree(">", params);
    ConcatAssoc(" ", params[j - 1], ">");
  }

  /**
   * `<$i $j>` becomes the `i`-th and `j`-th parameters, whatever they
   * contain: replaced text is not scanned again.
   */
  lemma BracketedPair(i: nat, j: nat, params: seq<string>)
    requires 1 <= i <= |params| && 1 <= j <= |params|
    ensures Strtr("<" + Key(i) + " " + Key(j) + ">", Placeholders(params)) == "<" + params[i - 1] + " " + params[j - 1] + ">"
  {
    var rest := " " + (Key(j) + ">");
    PairShape("<", Key(i), " ", Key(j), ">");
    StrtrSplit("<", Key(i) + rest, params);
    PlaceholderFree("<", params);
    PlaceholderReplaced(i, rest, params);
    SpacedPlaceholder(j, params);
    PairShape("<", params[i - 1], " ", params[j - 1], ">");
  }

  /** Regrouping a concatenation of five pieces. Only splits the proof of `BracketedPair`. */
  lemma PairShape(a: string, b: string, c: string, d: string, e: string)
    ensures a + b + c + d + e == a + (b + (c + (d + e)))
    ensures a + (b + (c + d + e)) == a + b + c + d + e
  {
  }
}
