/**
 * PHP's `htmlspecialchars($text, ENT_QUOTES, 'UTF-8', false)`: the five
 * special characters become entities, except that an `&` which already
 * starts a valid entity is kept (no double encoding).
 *
 * An entity is valid when it is `&name;` with `name` alphanumeric and in
 * the named-entity table of HTML 4.01, or `&#digits;` or `&#xhexdigits;`
 * whose value is at most 0x10FFFF. The table itself is a parameter.
 */
module Html {
  import opened Text

  /** The entities `htmlspecialchars` itself produces for `&`, `<`, `>` and `"`. */
  predicate HasBasicNames(names: set<string>) {
    "amp" in names && "lt" in names && "gt" in names && "quot" in names
  }

  /**
   * The names of the 252 character entity references of HTML 4.01 (section
   * 24 of the HTML 4.01 Specification): the table `htmlspecialchars`
   * checks `&name;` against in its default document type. `&apos;` is not
   * among them.
   */
  const Html401Names: set<string> := {
    "nbsp", "iexcl", "cent", "pound", "curren", "yen", "brvbar", "sect", "uml", "copy", "ordf",
    "laquo", "not", "shy", "reg", "macr", "deg", "plusmn", "sup2", "sup3", "acute", "micro",
    "para", "middot", "cedil", "sup1", "ordm", "raquo", "frac14", "frac12", "frac34", "iquest",
    "Agrave", "Aacute", "Acirc", "Atilde", "Auml", "Aring", "AElig", "Ccedil", "Egrave",
    "Eacute", "Ecirc", "Euml", "Igrave", "Iacute", "Icirc", "Iuml", "ETH", "Ntilde", "Ograve",
    "Oacute", "Ocirc", "Otilde", "Ouml", "times", "Oslash", "Ugrave", "Uacute", "Ucirc",
    "Uuml", "Yacute", "THORN", "szlig", "agrave", "aacute", "acirc", "atilde", "auml", "aring",
    "aelig", "ccedil", "egrave", "eacute", "ecirc", "euml", "igrave", "iacute", "icirc",
    "iuml", "eth", "ntilde", "ograve", "oacute", "ocirc", "otilde", "ouml", "divide", "oslash",
    "ugrave", "uacute", "ucirc", "uuml", "yacute", "thorn", "yuml", "fnof", "Alpha", "Beta",
    "Gamma", "Delta", "Epsilon", "Zeta", "Eta", "Theta", "Iota", "Kappa", "Lambda", "Mu", "Nu",
    "Xi", "Omicron", "Pi", "Rho", "Sigma", "Tau", "Upsilon", "Phi", "Chi", "Psi", "Omega",
    "alpha", "beta", "gamma", "delta", "epsilon", "zeta", "eta", "theta", "iota", "kappa",
    "lambda", "mu", "nu", "xi", "omicron", "pi", "rho", "sigmaf", "sigma", "tau", "upsilon",
    "phi", "chi", "psi", "omega", "thetasym", "upsih", "piv", "bull", "hellip", "prime",
    "Prime", "oline", "frasl", "weierp", "image", "real", "trade", "alefsym", "larr", "uarr",
    "rarr", "darr", "harr", "crarr", "lArr", "uArr", "rArr", "dArr", "hArr", "forall", "part",
    "exist", "empty", "nabla", "isin", "notin", "ni", "prod", "sum", "minus", "lowast",
    "radic", "prop", "infin", "ang", "and", "or", "cap", "cup", "int", "there4", "sim", "cong",
    "asymp", "ne", "equiv", "le", "ge", "sub", "sup", "nsub", "sube", "supe", "oplus",
    "otimes", "perp", "sdot", "lceil", "rceil", "lfloor", "rfloor", "lang", "rang", "loz",
    "spades", "clubs", "hearts", "diams", "quot", "amp", "lt", "gt", "OElig", "oelig",
    "Scaron", "scaron", "Yuml", "circ", "tilde", "ensp", "emsp", "thinsp", "zwnj", "zwj",
    "lrm", "rlm", "ndash", "mdash", "lsquo", "rsquo", "sbquo", "ldquo", "rdquo", "bdquo",
    "dagger", "Dagger", "permil", "lsaquo", "rsaquo", "euro"
  }

  /** The HTML 4.01 table holds the names escaping itself produces. */
  lemma Html401Basic()
    ensures HasBasicNames(Html401Names)
  {
  }

  predicate IsAlnum(c: char) {
    IsDigit(c) || ('a' <= c <= 'z') || ('A' <= c <= 'Z')
  }

  predicate IsHexDigit(c: char) {
    IsDigit(c) || ('a' <= c <= 'f') || ('A' <= c <= 'F')
  }

  function HexDigitValue(c: char): nat
    requires IsHexDigit(c)
  {
    if IsDigit(c) then DigitValue(c)
    else if 'a' <= c <= 'f' then c as int - 'a' as int + 10
    else c as int - 'A' as int + 10
  }

  function HexValue(s: string): nat
    requires forall i :: 0 <= i < |s| ==> IsHexDigit(s[i])
  {
    if |s| == 0 then 0 else HexValue(s[..|s| - 1]) * 16 + HexDigitValue(s[|s| - 1])
  }

  /** The length of the longest prefix of `s` whose characters satisfy `p`. */
  function Run(s: string, p: char -> bool): (n: nat)
    ensures n <= |s|
    ensures forall i :: 0 <= i < n ==> p(s[i])
    ensures n < |s| ==> !p(s[n])
  {
    if |s| > 0 && p(s[0]) then 1 + Run(s[1..], p) else 0
  }

  /** The largest code point a numeric entity may name. */
  const MaxCodePoint: nat := 0x10FFFF

  /**
   * Where C's `strtol` in base 16 starts reading digits in `h`: after a
   * `0x` or `0X` prefix when a hexadecimal digit follows it.
   */
  function HexSkip(h: string): (skip: nat)
    ensures skip <= |h|
  {
    if |h| >= 3 && h[0] == '0' && (h[1] == 'x' || h[1] == 'X') && IsHexDigit(h[2]) then 2 else 0
  }

  /**
   * The length of a valid hexadecimal entity body at the start of `h`, the
   * text after `&#x`, counting up to and including its `;`; 0 when there is
   * none.
   */
  function HexLength(h: string): (n: nat)
    ensures n <= |h|
  {
    if |h| == 0 || !IsHexDigit(h[0]) then 0
    else
      var skip := HexSkip(h);
      var k := Run(h[skip..], IsHexDigit);
      if skip + k < |h| && h[skip + k] == ';' && HexValue(h[skip..skip + k]) <= MaxCodePoint then skip + k + 1
      else 0
  }

  /**
   * The length of a valid decimal entity body at the start of `t`, the text
   * after `&#`, counting up to and including its `;`; 0 when there is none.
   */
  function DecimalLength(t: string): (n: nat)
    ensures n <= |t|
  {
    var k := Run(t, IsDigit);
    if k > 0 && k < |t| && t[k] == ';' && DigitsValue(t[..k]) <= MaxCodePoint then k + 1 else 0
  }

  /** The same for the text after `&#`, which is hexadecimal after an `x` or `X`. */
  function NumericLength(t: string): (n: nat)
    ensures n <= |t|
  {
    if |t| > 0 && (t[0] == 'x' || t[0] == 'X') then
      var k := HexLength(t[1..]);
      if k == 0 then 0 else k + 1
    else DecimalLength(t)
  }

  /**
   * The length of the valid entity at the start of `t`, the text after an
   * `&`, counting up to and including its `;`; 0 when `t` does not start one.
   */
  function EntityLength(t: string, names: set<string>): (n: nat)
    ensures n <= |t|
    ensures n > 0 ==> n >= 2 && t[n - 1] == ';'
  {
    if |t| > 0 && t[0] == '#' then
      var k := NumericLength(t[1..]);
      if k == 0 then 0 else k + 1
    else
      var k := Run(t, IsAlnum);
      if k > 0 && k < |t| && t[k] == ';' && t[..k] in names then k + 1 else 0
  }

  /** The replacement of one character other than `&`. */
  function EscapeChar(c: char): string {
    if c == '<' then "&lt;"
    else if c == '>' then "&gt;"
    else if c == '"' then "&quot;"
    else if c == '\'' then "&#039;"
    else [c]
  }

  /**
   * `htmlspecialchars($s, ENT_QUOTES, 'UTF-8', false)`: never shortens the
   * text, and leaves text without special characters as it is.
   */
  function Escape(s: string, names: set<string>): (r: string)
    ensures |r| >= |s|
    ensures Plain(s) ==> r == s
    decreases |s|
  {
    if |s| == 0 then []
    else if s[0] == '&' then
      var n := EntityLength(s[1..], names);
      if n > 0 then s[..n + 1] + Escape(s[n + 1..], names)
      else "&amp;" + Escape(s[1..], names)
    else EscapeChar(s[0]) + Escape(s[1..], names)
  }

  /** A character that `htmlspecialchars` replaces. */
  predicate Special(c: char) {
    c == '&' || c == '<' || c == '>' || c == '"' || c == '\''
  }

  /** Text without special characters. */
  predicate Plain(s: string) {
    forall i :: 0 <= i < |s| ==> !Special(s[i])
  }

  /**
   * Text in which `htmlspecialchars` finds nothing to do: no `<`, `>`, `"`
   * or `'`, and every `&` starts a valid entity.
   */
  predicate WellEscaped(r: string, names: set<string>) {
    forall i :: 0 <= i < |r| ==>
      r[i] != '<' && r[i] != '>' && r[i] != '"' && r[i] != '\'' &&
      (r[i] == '&' ==> EntityLength(r[i + 1..], names) > 0)
  }

  // ---------------------------------------------------------------------
  // Entities are self-delimiting
  // ---------------------------------------------------------------------

  /** A run that stops inside a common prefix stops at the same place. */
  lemma {:induction false} RunAgree(a: string, b: string, p: char -> bool, m: nat)
    requires m <= |a| && m <= |b| && a[..m] == b[..m] && Run(a, p) < m
    ensures Run(b, p) == Run(a, p)
  {
    assert a[0] == a[..m][0] == b[..m][0] == b[0];
    if p(a[0]) {
      assert a[1..][..m - 1] == a[..m][1..] == b[..m][1..] == b[1..][..m - 1];
      RunAgree(a[1..], b[1..], p, m - 1);
    }
  }

  /** In `0x…` the hexadecimal digits stop at the `x`. */
  lemma ZeroXStopsRun(h: string)
    ensures |h| >= 2 && h[0] == '0' && (h[1] == 'x' || h[1] == 'X') ==> Run(h, IsHexDigit) == 1
  {
    if |h| >= 2 {
      assert h[1..][0] == h[1];
    }
  }

  /** Whether a `0x` prefix is skipped depends only on the entity's own text. */
  lemma HexSkipAgree(h: string, g: string)
    requires HexLength(h) > 0 && HexLength(h) <= |g|
    requires g[..HexLength(h)] == h[..HexLength(h)]
    ensures HexSkip(g) == HexSkip(h)
  {
    var n := HexLength(h);
    var skip := HexSkip(h);
    assert g[0] == g[..n][0] == h[..n][0] == h[0];
    assert g[1] == g[..n][1] == h[..n][1] == h[1];
    if skip == 2 {
      assert g[2] == g[..n][2] == h[..n][2] == h[2];
    } else {
      assert h[skip..] == h;
      ZeroXStopsRun(h);
    }
  }

  /** The parts of a valid hexadecimal entity fix its length. */
  lemma HexLengthOf(h: string, skip: nat, k: nat)
    requires |h| > 0 && IsHexDigit(h[0]) && HexSkip(h) == skip
    requires Run(h[skip..], IsHexDigit) == k && skip + k < |h| && h[skip + k] == ';'
    requires HexValue(h[skip..skip + k]) <= MaxCodePoint
    ensures HexLength(h) == skip + k + 1
  {
  }

  /** Text agreeing on its first `skip + k + 1` characters agrees on the parts inside them. */
  lemma SharedPrefixParts(h: string, g: string, skip: nat, k: nat)
    requires skip + k + 1 <= |h| && skip + k + 1 <= |g|
    requires g[..skip + k + 1] == h[..skip + k + 1]
    ensures g[skip..][..k + 1] == h[skip..][..k + 1]
    ensures g[skip..skip + k] == h[skip..skip + k]
    ensures g[skip + k] == h[skip + k]
  {
    var n := skip + k + 1;
    forall i | 0 <= i < n
      ensures g[i] == h[i]
    {
      assert g[i] == g[..n][i] && h[i] == h[..n][i];
    }
    assert g[skip..][..k + 1] == h[skip..][..k + 1];
    assert g[skip..skip + k] == h[skip..skip + k];
  }

  /** Whether a hexadecimal entity is valid depends only on its own text. */
  lemma HexAgree(h: string, g: string)
    requires HexLength(h) > 0 && HexLength(h) <= |g|
    requires g[..HexLength(h)] == h[..HexLength(h)]
    ensures HexLength(g) == HexLength(h)
  {
    var n := HexLength(h);
    var skip := HexSkip(h);
    var k := Run(h[skip..], IsHexDigit);
    assert n == skip + k + 1;
    HexSkipAgree(h, g);
    assert g[0] == g[..n][0] == h[..n][0] == h[0];
    SharedPrefixParts(h, g, skip, k);
    RunAgree(h[skip..], g[skip..], IsHexDigit, k + 1);
    HexLengthOf(g, skip, k);
  }

  /** Whether a decimal entity is valid depends only on its own text. */
  lemma DecimalAgree(t: string, u: string)
    requires DecimalLength(t) > 0 && DecimalLength(t) <= |u|
    requires u[..DecimalLength(t)] == t[..DecimalLength(t)]
    ensures DecimalLength(u) == DecimalLength(t)
  {
    var k := Run(t, IsDigit);
    RunAgree(t, u, IsDigit, k + 1);
    assert t[..k] == t[..k + 1][..k] == u[..k + 1][..k] == u[..k];
    assert u[k] == u[..k + 1][k];
  }

  /** Whether a numeric entity is valid depends only on its own text. */
  lemma NumericAgree(t: string, u: string)
    requires NumericLength(t) > 0 && NumericLength(t) <= |u|
    requires u[..NumericLength(t)] == t[..NumericLength(t)]
    ensures NumericLength(u) == NumericLength(t)
  {
    var n := NumericLength(t);
    assert u[0] == u[..n][0] == t[..n][0] == t[0];
    if t[0] == 'x' || t[0] == 'X' {
      assert u[1..][..n - 1] == u[..n][1..] == t[..n][1..] == t[1..][..n - 1];
      HexAgree(t[1..], u[1..]);
    } else {
      DecimalAgree(t, u);
    }
  }

  /** Whether an entity is valid depends only on its own text. */
  lemma EntityAgree(t: string, u: string, names: set<string>)
    requires EntityLength(t, names) > 0 && EntityLength(t, names) <= |u|
    requires u[..EntityLength(t, names)] == t[..EntityLength(t, names)]
    ensures EntityLength(u, names) == EntityLength(t, names)
  {
    var n := EntityLength(t, names);
    assert u[0] == u[..n][0] == t[..n][0] == t[0];
    if t[0] == '#' {
      assert u[1..][..n - 1] == u[..n][1..] == t[..n][1..] == t[1..][..n - 1];
      NumericAgree(t[1..], u[1..]);
    } else {
      var k := Run(t, IsAlnum);
      assert t[..k + 1] == u[..k + 1];
      RunAgree(t, u, IsAlnum, k + 1);
      assert t[..k] == u[..k];
      assert u[k] == u[..k + 1][k];
    }
  }

  // ---------------------------------------------------------------------
  // What escaping produces
  // ---------------------------------------------------------------------

  /** A character an entity's text may contain after its `&`. */
  predicate EntityChar(c: char) {
    IsAlnum(c) || c == '#' || c == ';'
  }

  lemma HexBody(h: string)
    ensures forall i :: 0 <= i < HexLength(h) ==> EntityChar(h[i])
  {
    var n := HexLength(h);
    if n > 0 {
      var skip := HexSkip(h);
      var k := Run(h[skip..], IsHexDigit);
      forall i | 0 <= i < n
        ensures EntityChar(h[i])
      {
        if skip <= i < skip + k {
          assert h[i] == h[skip..][i - skip];
        }
      }
    }
  }

  lemma DecimalBody(t: string)
    ensures forall i :: 0 <= i < DecimalLength(t) ==> EntityChar(t[i])
  {
  }

  /** An entity consists of letters, digits, `#` and `;`. */
  lemma EntityBody(t: string, names: set<string>)
    ensures forall i :: 0 <= i < EntityLength(t, names) ==> EntityChar(t[i])
  {
    var n := EntityLength(t, names);
    if n > 0 && t[0] == '#' {
      var u := t[1..];
      if |u| > 0 && (u[0] == 'x' || u[0] == 'X') {
        HexBody(u[1..]);
        forall i | 2 <= i < n
          ensures EntityChar(t[i])
        {
          assert t[i] == u[1..][i - 2];
        }
      } else {
        DecimalBody(u);
        forall i | 1 <= i < n
          ensures EntityChar(t[i])
        {
          assert t[i] == u[i - 1];
        }
      }
    }
  }

  /**
   * One unit of escaped output: a character left as it is, or `&` followed
   * by a complete valid entity.
   */
  predicate EscapedPiece(p: string, names: set<string>) {
    (|p| == 1 && !Special(p[0]))
    || (|p| >= 2 && p[0] == '&' && EntityLength(p[1..], names) == |p| - 1)
  }

  /** A suffix of well-escaped text is well escaped. */
  lemma WellEscapedSuffix(r: string, k: nat, names: set<string>)
    requires WellEscaped(r, names) && k <= |r|
    ensures WellEscaped(r[k..], names)
  {
    forall i | 0 <= i < |r[k..]|
      ensures r[k..][i] == r[k + i] && r[k..][i + 1..] == r[k + i + 1..]
    {
    }
  }

  /** Putting an escaped piece in front of well-escaped text keeps it well escaped. */
  lemma PieceThenEscaped(p: string, rest: string, names: set<string>)
    requires EscapedPiece(p, names) && WellEscaped(rest, names)
    ensures WellEscaped(p + rest, names)
  {
    var r := p + rest;
    forall i | 0 <= i < |r|
      ensures r[i] != '<' && r[i] != '>' && r[i] != '"' && r[i] != '\''
      ensures r[i] == '&' ==> EntityLength(r[i + 1..], names) > 0
    {
      if i >= |p| {
        assert r[i] == rest[i - |p|];
        assert r[i + 1..] == rest[i - |p| + 1..];
      } else if i == 0 && |p| >= 2 {
        assert r[1..][..|p| - 1] == p[1..][..|p| - 1];
        EntityAgree(p[1..], r[1..], names);
      } else if i > 0 {
        EntityBody(p[1..], names);
        assert r[i] == p[1..][i - 1];
      }
    }
  }

  /** A run over `a` that meets a character outside it stops there. */
  lemma {:induction false} RunOf(a: string, b: string, p: char -> bool)
    requires forall i :: 0 <= i < |a| ==> p(a[i])
    requires |b| > 0 && !p(b[0])
    ensures Run(a + b, p) == |a|
  {
    if |a| > 0 {
      assert (a + b)[1..] == a[1..] + b;
      RunOf(a[1..], b, p);
    } else {
      assert a + b == b;
    }
  }

  /** `&name;` for a name in the table is an escaped piece. */
  lemma NamedPiece(name: string, names: set<string>)
    requires name in names && |name| > 0
    requires forall i :: 0 <= i < |name| ==> IsAlnum(name[i])
    ensures EscapedPiece("&" + name + ";", names)
  {
    var t := name + ";";
    RunOf(name, ";", IsAlnum);
    assert t[..|name|] == name;
    assert ("&" + name + ";")[1..] == t;
  }

  /** `&#digits;` naming a code point in range is an escaped piece. */
  lemma DecimalPiece(d: string, names: set<string>)
    requires |d| > 0 && AllDigits(d) && DigitsValue(d) <= MaxCodePoint
    ensures EscapedPiece("&#" + d + ";", names)
  {
    DecimalTail(d);
    NumericPiece(d + ";", names);
    assert "&#" + d + ";" == "&" + ("#" + (d + ";"));
  }

  /** `&#` before a numeric reference is an escaped piece. Only splits the proof of `DecimalPiece`. */
  lemma NumericPiece(t: string, names: set<string>)
    requires NumericLength(t) == |t| && |t| > 0
    ensures EscapedPiece("&" + ("#" + t), names)
  {
    var q := "#" + t;
    assert q[0] == '#' && q[1..] == t;
    assert ("&" + q)[1..] == q;
  }

  /** Digits of a code point in range, then `;`, are a decimal reference. Only splits the proof of `DecimalPiece`. */
  lemma DecimalTail(d: string)
    requires |d| > 0 && AllDigits(d) && DigitsValue(d) <= MaxCodePoint
    ensures NumericLength(d + ";") == |d| + 1
  {
    var t := d + ";";
    RunOf(d, ";", IsDigit);
    assert t[..|d|] == d;
    assert DecimalLength(t) == |d| + 1;
  }

  lemma ThirtyNine(d: string)
    requires d == "039"
    ensures AllDigits(d) && DigitsValue(d) == 39
  {
    assert d[..2] == "03" && "03"[..1] == "0" && "0"[..0] == "";
    assert DigitsValue("0") == 0;
    assert DigitsValue("03") == 3;
    assert DigitsValue(d) == DigitsValue("03") * 10 + 9;
  }

  /** `&#039;`, the replacement of `'`, is an escaped piece. */
  lemma AposPiece(names: set<string>)
    ensures EscapedPiece("&#039;", names)
  {
    ThirtyNine("039");
    DecimalPiece("039", names);
    assert "&#" + "039" + ";" == "&#039;";
  }

  /** The replacement of a character other than `&` is an escaped piece. */
  lemma EscapeCharPiece(c: char, names: set<string>)
    requires HasBasicNames(names) && c != '&'
    ensures EscapedPiece(EscapeChar(c), names)
  {
    if c == '<' {
      NamedPiece("lt", names);
      assert "&" + "lt" + ";" == "&lt;";
    } else if c == '>' {
      NamedPiece("gt", names);
      assert "&" + "gt" + ";" == "&gt;";
    } else if c == '"' {
      NamedPiece("quot", names);
      assert "&" + "quot" + ";" == "&quot;";
    } else if c == '\'' {
      AposPiece(names);
    }
  }

  /** `&amp;` is an escaped piece. */
  lemma AmpPiece(names: set<string>)
    requires HasBasicNames(names)
    ensures EscapedPiece("&amp;", names)
  {
    NamedPiece("amp", names);
    assert "&" + "amp" + ";" == "&amp;";
  }

  /** Escaped output never holds `<`, `>`, `"` or `'`, and each of its `&` starts a valid entity. */
  lemma {:induction false} EscapeWellEscaped(s: string, names: set<string>)
    requires HasBasicNames(names)
    ensures WellEscaped(Escape(s, names), names)
    decreases |s|
  {
    if |s| > 0 {
      if s[0] == '&' {
        var n := EntityLength(s[1..], names);
        if n > 0 {
          var p := s[..n + 1];
          assert p[1..] == s[1..][..n];
          EntityAgree(s[1..], p[1..], names);
          EscapeWellEscaped(s[n + 1..], names);
          PieceThenEscaped(p, Escape(s[n + 1..], names), names);
        } else {
          AmpPiece(names);
          EscapeWellEscaped(s[1..], names);
          PieceThenEscaped("&amp;", Escape(s[1..], names), names);
        }
      } else {
        EscapeCharPiece(s[0], names);
        EscapeWellEscaped(s[1..], names);
        PieceThenEscaped(EscapeChar(s[0]), Escape(s[1..], names), names);
      }
    }
  }

  /** Well-escaped text is left as it is. */
  lemma {:induction false} EscapeFixedPoint(r: string, names: set<string>)
    requires WellEscaped(r, names)
    ensures Escape(r, names) == r
    decreases |r|
  {
    if |r| > 0 {
      if r[0] == '&' {
        var n := EntityLength(r[1..], names);
        WellEscapedSuffix(r, n + 1, names);
        EscapeFixedPoint(r[n + 1..], names);
        assert r == r[..n + 1] + r[n + 1..];
      } else {
        WellEscapedSuffix(r, 1, names);
        EscapeFixedPoint(r[1..], names);
        assert r == [r[0]] + r[1..];
      }
    }
  }

  /** An `&` that starts no valid entity is always rewritten, into the longer `&amp;`. */
  lemma StrayAmpRewritten(r: string, names: set<string>)
    requires |r| > 0 && r[0] == '&' && EntityLength(r[1..], names) == 0
    ensures |Escape(r, names)| > |r|
  {
  }

  /** `<`, `>`, `"` and `'` are always rewritten. */
  lemma SpecialRewritten(r: string, names: set<string>)
    requires |r| > 0 && r[0] != '&' && Special(r[0])
    ensures Escape(r, names) != r
  {
    assert Escape(r, names)[0] == '&';
  }

  /** After a valid entity, escaping goes on with the rest of the text. */
  lemma EntityHeadRest(r: string, names: set<string>)
    requires |r| > 0 && r[0] == '&' && EntityLength(r[1..], names) > 0 && Escape(r, names) == r
    ensures Escape(r[EntityLength(r[1..], names) + 1..], names) == r[EntityLength(r[1..], names) + 1..]
  {
    var n := EntityLength(r[1..], names);
    assert r == r[..n + 1] + r[n + 1..];
  }

  /** A valid entity in front of well-escaped text keeps it well escaped. */
  lemma EntityHeadWellEscaped(r: string, names: set<string>)
    requires |r| > 0 && r[0] == '&' && EntityLength(r[1..], names) > 0
    requires WellEscaped(r[EntityLength(r[1..], names) + 1..], names)
    ensures WellEscaped(r, names)
  {
    var n := EntityLength(r[1..], names);
    var p := r[..n + 1];
    assert r == p + r[n + 1..];
    assert p[1..] == r[1..][..n];
    EntityAgree(r[1..], p[1..], names);
    PieceThenEscaped(p, r[n + 1..], names);
  }

  /** After a character escaping keeps, escaping goes on with the rest of the text. */
  lemma CharHeadRest(r: string, names: set<string>)
    requires |r| > 0 && r[0] != '&' && !Special(r[0]) && Escape(r, names) == r
    ensures Escape(r[1..], names) == r[1..]
  {
    assert EscapeChar(r[0]) == [r[0]];
    assert r == [r[0]] + r[1..];
  }

  /** A character escaping keeps, in front of well-escaped text, keeps it well escaped. */
  lemma CharHeadWellEscaped(r: string, names: set<string>)
    requires |r| > 0 && r[0] != '&' && !Special(r[0]) && WellEscaped(r[1..], names)
    ensures WellEscaped(r, names)
  {
    assert r == [r[0]] + r[1..];
    PieceThenEscaped([r[0]], r[1..], names);
  }

  /** Text that escaping leaves as it is was well escaped. */
  lemma {:induction false} FixedPointWellEscaped(r: string, names: set<string>)
    requires HasBasicNames(names) && Escape(r, names) == r
    ensures WellEscaped(r, names)
    decreases |r|
  {
    if |r| > 0 {
      if r[0] == '&' {
        var n := EntityLength(r[1..], names);
        if n == 0 {
          StrayAmpRewritten(r, names);
        }
        EntityHeadRest(r, names);
        FixedPointWellEscaped(r[n + 1..], names);
        EntityHeadWellEscaped(r, names);
      } else {
        if Special(r[0]) {
          SpecialRewritten(r, names);
        }
        CharHeadRest(r, names);
        FixedPointWellEscaped(r[1..], names);
        CharHeadWellEscaped(r, names);
      }
    }
  }

  /** Escaping leaves text as it is exactly when that text is well escaped. */
  lemma EscapeFixedPointIff(r: string, names: set<string>)
    requires HasBasicNames(names)
    ensures Escape(r, names) == r <==> WellEscaped(r, names)
  {
    if Escape(r, names) == r {
      FixedPointWellEscaped(r, names);
    }
    if WellEscaped(r, names) {
      EscapeFixedPoint(r, names);
    }
  }

  /** Escaping twice is escaping once: existing entities are never encoded again. */
  lemma EscapeIdempotent(s: string, names: set<string>)
    requires HasBasicNames(names)
    ensures Escape(Escape(s, names), names) == Escape(s, names)
  {
    EscapeWellEscaped(s, names);
    EscapeFixedPoint(Escape(s, names), names);
  }

  /** Text without `&` is escaped on its own, whatever follows it. */
  lemma {:induction false} EscapeConcat(a: string, b: string, names: set<string>)
    requires forall i :: 0 <= i < |a| ==> a[i] != '&'
    ensures Escape(a + b, names) == Escape(a, names) + Escape(b, names)
    decreases |a|
  {
    if |a| == 0 {
      assert a + b == b;
    } else {
      assert (a + b)[0] == a[0] && (a + b)[1..] == a[1..] + b;
      EscapeConcat(a[1..], b, names);
      EscapeStep(a + b, names);
      EscapeStep(a, names);
      ConcatAssoc(EscapeChar(a[0]), Escape(a[1..], names), Escape(b, names));
    }
  }

  /** A first character other than `&` is replaced on its own. Only splits the proof of `EscapeConcat`. */
  lemma EscapeStep(x: string, names: set<string>)
    requires |x| > 0 && x[0] != '&'
    ensures Escape(x, names) == EscapeChar(x[0]) + Escape(x[1..], names)
  {
  }

  // ---------------------------------------------------------------------
  // Reading escaped text back
  // ---------------------------------------------------------------------

  predicate StartsWith(r: string, p: string) {
    |p| <= |r| && r[..|p|] == p
  }

  /** Replaces the five entities escaping produces by the characters they stand for. */
  function Decode(r: string): string
    decreases |r|
  {
    if |r| == 0 then []
    else if r[0] != '&' then [r[0]] + Decode(r[1..])
    else if StartsWith(r, "&amp;") then "&" + Decode(r[5..])
    else if StartsWith(r, "&lt;") then "<" + Decode(r[4..])
    else if StartsWith(r, "&gt;") then ">" + Decode(r[4..])
    else if StartsWith(r, "&quot;") then "\"" + Decode(r[6..])
    else if StartsWith(r, "&#039;") then "'" + Decode(r[6..])
    else [r[0]] + Decode(r[1..])
  }

  /** No `&` in `s` starts a valid entity. */
  predicate NoEntity(s: string, names: set<string>) {
    forall i :: 0 <= i < |s| && s[i] == '&' ==> EntityLength(s[i + 1..], names) == 0
  }

  lemma DecodeAmp(x: string)
    ensures Decode("&amp;" + x) == "&" + Decode(x)
  {
    var r := "&amp;" + x;
    assert r[..5] == "&amp;" && r[5..] == x;
    assert r[1] == 'a';
  }

  lemma DecodeLt(x: string)
    ensures Decode("&lt;" + x) == "<" + Decode(x)
  {
    var r := "&lt;" + x;
    assert r[..4] == "&lt;" && r[4..] == x;
    assert r[1] == 'l';
  }

  lemma DecodeGt(x: string)
    ensures Decode("&gt;" + x) == ">" + Decode(x)
  {
    var r := "&gt;" + x;
    assert r[..4] == "&gt;" && r[4..] == x;
    assert r[1] == 'g';
  }

  lemma DecodeQuot(x: string)
    ensures Decode("&quot;" + x) == "\"" + Decode(x)
  {
    var r := "&quot;" + x;
    assert r[..6] == "&quot;" && r[6..] == x;
    assert r[1] == 'q';
  }

  lemma DecodeApos(x: string)
    ensures Decode("&#039;" + x) == "'" + Decode(x)
  {
    var r := "&#039;" + x;
    assert r[..6] == "&#039;" && r[6..] == x;
    assert r[1] == '#';
  }

  lemma DecodePlain(c: char, x: string)
    requires c != '&'
    ensures Decode([c] + x) == [c] + Decode(x)
  {
    var r := [c] + x;
    assert r[0] == c && r[1..] == x;
  }

  /** Decoding undoes the replacement of one character. */
  lemma DecodePiece(c: char, x: string)
    ensures c == '&' ==> Decode("&amp;" + x) == "&" + Decode(x)
    ensures c != '&' ==> Decode(EscapeChar(c) + x) == [c] + Decode(x)
  {
    if c == '&' {
      DecodeAmp(x);
    } else if c == '<' {
      DecodeLt(x);
    } else if c == '>' {
      DecodeGt(x);
    } else if c == '"' {
      DecodeQuot(x);
    } else if c == '\'' {
      DecodeApos(x);
    } else {
      DecodePlain(c, x);
    }
  }

  /** Text without entities of its own has none after its first character either. */
  lemma NoEntityTail(s: string, names: set<string>)
    requires |s| > 0 && NoEntity(s, names)
    ensures NoEntity(s[1..], names)
  {
    forall i | 0 <= i < |s[1..]| && s[1..][i] == '&'
      ensures EntityLength(s[1..][i + 1..], names) == 0
    {
      assert s[1..][i + 1..] == s[i + 2..];
    }
  }

  /** In text without entities of its own, every character is replaced on its own. */
  lemma EscapeHead(s: string, names: set<string>)
    requires |s| > 0 && NoEntity(s, names)
    ensures s[0] == '&' ==> Escape(s, names) == "&amp;" + Escape(s[1..], names)
    ensures s[0] != '&' ==> Escape(s, names) == EscapeChar(s[0]) + Escape(s[1..], names)
  {
  }

  /** Decoding the escaped form gives the text back, when the text held no entities of its own. */
  lemma {:induction false} DecodeEscape(s: string, names: set<string>)
    requires NoEntity(s, names)
    ensures Decode(Escape(s, names)) == s
    decreases |s|
  {
    if |s| > 0 {
      NoEntityTail(s, names);
      DecodeEscape(s[1..], names);
      EscapeHead(s, names);
      DecodePiece(s[0], Escape(s[1..], names));
      assert s == [s[0]] + s[1..];
    }
  }

  // ---------------------------------------------------------------------
  // The escaped forms in the library's test suite
  // ---------------------------------------------------------------------

  /** `<…>` around text without special characters becomes `&lt;…&gt;`. */
  lemma EscapeBracketed(mid: string, names: set<string>)
    requires Plain(mid)
    ensures Escape("<" + mid + ">", names) == "&lt;" + mid + "&gt;"
  {
    EscapeConcat("<", mid + ">", names);
    EscapeConcat(mid, ">", names);
    assert "<" + mid + ">" == "<" + (mid + ">");
  }
}
