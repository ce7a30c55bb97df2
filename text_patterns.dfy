/** The eight TEXT_PATTERNS of tools/apply_tl.py: a `Text(` call whose first
    argument is a string literal, optionally preceded by `const`, with the
    literal either alone or followed by a comma.  Each regular expression is
    replaced by a scanner for exactly its shape; the completeness lemma shows
    that the scanner finds every text of that shape, so the scanner and the
    shape describe the same matches. */
module TextPatterns {
  import opened Lexical

  /** One pattern: whether it consumes a leading `const`, the quote that
      delimits the literal, and the character that follows the literal --
      `)` when the literal is the sole argument, `,` when more follow. */
  datatype Pattern = Pattern(withConst: bool, quote: char, closer: char)

  /** The list in the order `process_file` applies it. */
  const Patterns: seq<Pattern> := [
    Pattern(true, '\'', ')'), Pattern(true, '\'', ','),
    Pattern(true, '"', ')'), Pattern(true, '"', ','),
    Pattern(false, '\'', ')'), Pattern(false, '\'', ','),
    Pattern(false, '"', ')'), Pattern(false, '"', ',')
  ]

  predicate ValidPattern(p: Pattern) {
    (p.quote == '\'' || p.quote == '"') && (p.closer == ')' || p.closer == ',')
  }

  /** The body grammar `(?:[^q\\]|\\.)*` over `s[i..j]`: characters other
      than the quote and the backslash, or a backslash followed by any
      character but a newline. */
  predicate BodyIn(s: string, i: nat, j: nat, q: char)
    requires i <= j <= |s|
    decreases j - i
  {
    if i == j then true
    else if s[i] == '\\' then i + 1 < j && s[i + 1] != '\n' && BodyIn(s, i + 2, j, q)
    else s[i] != q && BodyIn(s, i + 1, j, q)
  }

  predicate IsBody(b: string, q: char) {
    BodyIn(b, 0, |b|, q)
  }

  /** The grammar depends only on the characters between the two offsets. */
  lemma {:induction false} BodyInShift(s: string, i: nat, j: nat, t: string, m: nat, q: char)
    requires i <= j <= |s| && m + (j - i) <= |t| && t[m..m + (j - i)] == s[i..j]
    ensures BodyIn(s, i, j, q) == BodyIn(t, m, m + (j - i), q)
    decreases j - i
  {
    if i < j {
      assert t[m] == s[i] by {
        assert t[m..m + (j - i)][0] == s[i..j][0];
      }
      if i + 1 < j {
        assert t[m + 1] == s[i + 1] by {
          assert t[m..m + (j - i)][1] == s[i..j][1];
        }
      }
      if s[i] == '\\' && i + 1 < j {
        assert t[m + 2..m + (j - i)] == s[i + 2..j] by {
          assert t[m + 2..m + (j - i)] == t[m..m + (j - i)][2..];
          assert s[i + 2..j] == s[i..j][2..];
        }
        BodyInShift(s, i + 2, j, t, m + 2, q);
      } else {
        assert t[m + 1..m + (j - i)] == s[i + 1..j] by {
          assert t[m + 1..m + (j - i)] == t[m..m + (j - i)][1..];
          assert s[i + 1..j] == s[i..j][1..];
        }
        BodyInShift(s, i + 1, j, t, m + 1, q);
      }
    }
  }

  /** Text without the quote and without a backslash is a body. */
  lemma {:induction false} PlainBodyIn(s: string, i: nat, j: nat, q: char)
    requires i <= j <= |s| && forall k | i <= k < j :: s[k] != q && s[k] != '\\'
    ensures BodyIn(s, i, j, q)
    decreases j - i
  {
    if i < j {
      PlainBodyIn(s, i + 1, j, q);
    }
  }

  /** The body and its closing quote from offset `i`: the offset of the quote
      that ends the literal, if the body grammar reaches one. */
  function ScanBody(s: string, i: nat, q: char): (r: Option<nat>)
    requires i <= |s|
    ensures r.Some? ==> i <= r.value < |s| && s[r.value] == q && BodyIn(s, i, r.value, q)
    decreases |s| - i
  {
    if i == |s| then None
    else if s[i] == q then Some(i)
    else if s[i] == '\\' then
      if i + 1 < |s| && s[i + 1] != '\n' then ScanBody(s, i + 2, q) else None
    else ScanBody(s, i + 1, q)
  }

  /** The closing quote is unique: a body followed by the quote is exactly what
      ScanBody finds, escaped quotes included. */
  lemma {:induction false} ScanBodyComplete(s: string, i: nat, j: nat, q: char)
    requires q != '\\' && i <= j < |s| && BodyIn(s, i, j, q) && s[j] == q
    ensures ScanBody(s, i, q) == Some(j)
    decreases j - i
  {
    if i < j {
      if s[i] == '\\' {
        ScanBodyComplete(s, i + 2, j, q);
      } else {
        ScanBodyComplete(s, i + 1, j, q);
      }
    }
  }

  /** The parts of one match, in text order: the whitespace after `const`
      (empty for the plain patterns), the whitespace between `(` and the
      quote, the raw body, and the whitespace before the closer. */
  datatype Literal = Literal(constSpace: string, openSpace: string, body: string, closeSpace: string)

  function Lead(p: Pattern, lit: Literal): string {
    if p.withConst then "const" + lit.constSpace else ""
  }

  /** The text a match covers, put back together from its parts. */
  function Matched(p: Pattern, lit: Literal): string {
    Lead(p, lit) + ("Text(" + (lit.openSpace + ([p.quote] + (lit.body + ([p.quote] + (lit.closeSpace + [p.closer]))))))
  }

  predicate WellFormed(p: Pattern, lit: Literal) {
    && (if p.withConst then |lit.constSpace| > 0 else lit.constSpace == [])
    && AllSpace(lit.constSpace) && AllSpace(lit.openSpace) && AllSpace(lit.closeSpace)
    && IsBody(lit.body, p.quote)
  }

  /** The substitution `Text(tl(q\1q))` or `Text(tl(q\1q),`: the same quote
      and the body copied as it stands. */
  function Replacement(p: Pattern, body: string): string {
    "Text(tl(" + [p.quote] + body + [p.quote] + ")" + [p.closer]
  }

  /** Where `Text(` starts, after `const\s+` for the const patterns. */
  function CallStart(p: Pattern, s: string, i: nat): (r: Option<nat>)
    requires i <= |s|
    ensures r.Some? ==> HasAt(s, r.value, "Text(")
    ensures r.Some? ==> if p.withConst then i + 5 < r.value && HasAt(s, i, "const") && AllSpace(s[i + 5..r.value]) else r.value == i
  {
    if !p.withConst then
      if HasAt(s, i, "Text(") then Some(i) else None
    else if !HasAt(s, i, "const") then None
    else
      var k := SkipSpaces(s, i + 5);
      if k > i + 5 && HasAt(s, k, "Text(") then Some(k) else None
  }

  /** The pattern tried at offset `i`: `\b`, the optional `const\s+`, `Text\(`,
      then the rest of the pattern from LiteralAfter. */
  function FindLiteral(p: Pattern, s: string, i: nat): (r: Option<Literal>)
    requires i <= |s|
    ensures r.Some? ==> WellFormed(p, r.value) && i + |Matched(p, r.value)| <= |s|
  {
    if !Boundary(s, i) then None
    else match CallStart(p, s, i)
      case None => None
      case Some(k) => LiteralAfter(p, s, i, k)
  }

  /** `\s*`, the look-ahead `(?!tl\()` and the opening quote after `Text(` at
      `k`: the offset of that quote.  The look-ahead is kept as written but
      decides nothing: where `tl(` starts, `t` is not a quote. */
  function OpenQuote(p: Pattern, s: string, k: nat): (r: Option<nat>)
    requires k + 5 <= |s|
    ensures r.Some? ==> k + 5 <= r.value < |s| && s[r.value] == p.quote && AllSpace(s[k + 5..r.value])
  {
    var a := SkipSpaces(s, k + 5);
    if HasAt(s, a, "tl(") || a == |s| || s[a] != p.quote then None else Some(a)
  }

  /** The body, the closing quote, `\s*` and the closer after the opening
      quote at `a`: the offsets of the closing quote and of the closer. */
  function CloseAfter(p: Pattern, s: string, a: nat): (r: Option<(nat, nat)>)
    requires a < |s|
    ensures r.Some? ==> var (c, e) := r.value;
      && a < c < e < |s| && s[c] == p.quote && s[e] == p.closer
      && BodyIn(s, a + 1, c, p.quote) && AllSpace(s[c + 1..e])
  {
    match ScanBody(s, a + 1, p.quote)
    case None => None
    case Some(c) =>
      var e := SkipSpaces(s, c + 1);
      if e < |s| && s[e] == p.closer then Some((c, e)) else None
  }

  /** The rest of a pattern after `Text(` at `k`: `\s*`, the look-ahead
      `(?!tl\()`, the quote, the body, the same quote, `\s*` and the closer. */
  function LiteralAfter(p: Pattern, s: string, i: nat, k: nat): (r: Option<Literal>)
    requires i <= k && HasAt(s, k, "Text(")
    requires if p.withConst then i + 5 < k && AllSpace(s[i + 5..k]) else i == k
    ensures r.Some? ==> WellFormed(p, r.value) && i + |Matched(p, r.value)| <= |s|
  {
    match OpenQuote(p, s, k)
    case None => None
    case Some(a) =>
      match CloseAfter(p, s, a)
      case None => None
      case Some((c, e)) => Some(Parts(p, s, i, k, a, c, e))
  }

  /** The parts of a match, cut out of `s` at the start `i`, `Text(` at `k`,
      the two quotes at `a` and `c`, and the closer at `e`. */
  function Parts(p: Pattern, s: string, i: nat, k: nat, a: nat, c: nat, e: nat): (lit: Literal)
    requires i <= k && k + 5 <= a < c < e < |s|
    requires if p.withConst then i + 5 < k && AllSpace(s[i + 5..k]) else i == k
    requires AllSpace(s[k + 5..a]) && BodyIn(s, a + 1, c, p.quote) && AllSpace(s[c + 1..e])
    ensures WellFormed(p, lit) && i + |Matched(p, lit)| <= |s|
  {
    BodyInShift(s, a + 1, c, s[a + 1..c], 0, p.quote);
    Literal(if p.withConst then s[i + 5..k] else [], s[k + 5..a], s[a + 1..c], s[c + 1..e])
  }

  /** The part of a match from `Text(` on. */
  function CallText(p: Pattern, lit: Literal): string {
    "Text(" + (lit.openSpace + ([p.quote] + (lit.body + ([p.quote] + (lit.closeSpace + [p.closer])))))
  }

  /** The call text from `Text(` at `k` to the closer at `e`, given where the
      two quotes are. */
  lemma CallTextAt(p: Pattern, s: string, k: nat, a: nat, c: nat, e: nat, lit: Literal)
    requires HasAt(s, k, "Text(") && k + 5 <= a < c < e < |s|
    requires s[a] == p.quote && s[c] == p.quote && s[e] == p.closer
    requires lit.openSpace == s[k + 5..a] && lit.body == s[a + 1..c] && lit.closeSpace == s[c + 1..e]
    ensures HasAt(s, k, CallText(p, lit))
  {
    var tail := [p.quote] + (lit.closeSpace + [p.closer]);
    HasAtJoin(s, c + 1, e, lit.closeSpace, [p.closer]);
    HasAtJoin(s, c, c + 1, [p.quote], lit.closeSpace + [p.closer]);
    HasAtJoin(s, a + 1, c, lit.body, tail);
    HasAtJoin(s, a, a + 1, [p.quote], lit.body + tail);
    HasAtJoin(s, k + 5, a, lit.openSpace, [p.quote] + (lit.body + tail));
    HasAtJoin(s, k, k + 5, "Text(", lit.openSpace + ([p.quote] + (lit.body + tail)));
  }

  /** Soundness: what FindLiteral reports is there, after a word boundary. */
  lemma FindLiteralSound(p: Pattern, s: string, i: nat)
    requires i <= |s| && FindLiteral(p, s, i).Some?
    ensures Boundary(s, i) && HasAt(s, i, Matched(p, FindLiteral(p, s, i).value))
  {
    var lit := FindLiteral(p, s, i).value;
    var k := CallStart(p, s, i).value;
    LiteralAfterSound(p, s, i, k);
    if p.withConst {
      assert lit.constSpace == s[i + 5..k];
      HasAtJoin(s, i, i + 5, "const", lit.constSpace);
    }
    HasAtJoin(s, i, k, Lead(p, lit), CallText(p, lit));
  }

  lemma PartsSlices(p: Pattern, s: string, i: nat, k: nat, a: nat, c: nat, e: nat)
    requires i <= k && k + 5 <= a < c < e < |s|
    requires if p.withConst then i + 5 < k && AllSpace(s[i + 5..k]) else i == k
    requires AllSpace(s[k + 5..a]) && BodyIn(s, a + 1, c, p.quote) && AllSpace(s[c + 1..e])
    ensures var lit := Parts(p, s, i, k, a, c, e);
      && lit.constSpace == (if p.withConst then s[i + 5..k] else [])
      && lit.openSpace == s[k + 5..a] && lit.body == s[a + 1..c] && lit.closeSpace == s[c + 1..e]
  {
  }

  /** What LiteralAfter reports is there, from `Text(` on. */
  lemma LiteralAfterSound(p: Pattern, s: string, i: nat, k: nat)
    requires i <= k && HasAt(s, k, "Text(")
    requires if p.withConst then i + 5 < k && AllSpace(s[i + 5..k]) else i == k
    requires LiteralAfter(p, s, i, k).Some?
    ensures HasAt(s, k, CallText(p, LiteralAfter(p, s, i, k).value))
  {
    var a := OpenQuote(p, s, k).value;
    var ce := CloseAfter(p, s, a).value;
    LiteralAfterFields(p, s, i, k, a, ce.0, ce.1);
    CallTextAt(p, s, k, a, ce.0, ce.1, LiteralAfter(p, s, i, k).value);
  }

  /** What LiteralAfter cuts out, once the two quotes and the closer are
      found. */
  lemma LiteralAfterFields(p: Pattern, s: string, i: nat, k: nat, a: nat, c: nat, e: nat)
    requires i <= k && HasAt(s, k, "Text(")
    requires if p.withConst then i + 5 < k && AllSpace(s[i + 5..k]) else i == k
    requires a < |s| && OpenQuote(p, s, k) == Some(a) && CloseAfter(p, s, a) == Some((c, e))
    ensures k + 5 <= a < c < e < |s| && s[a] == p.quote && s[c] == p.quote && s[e] == p.closer
    ensures LiteralAfter(p, s, i, k).Some?
    ensures var lit := LiteralAfter(p, s, i, k).value;
      lit.openSpace == s[k + 5..a] && lit.body == s[a + 1..c] && lit.closeSpace == s[c + 1..e]
  {
    LiteralAfterAt(p, s, i, k, a, c, e);
    PartsSlices(p, s, i, k, a, c, e);
  }

  /** The call text, once found at `k`, is split back into its parts. */
  lemma CallTextParts(p: Pattern, s: string, k: nat, lit: Literal)
    requires HasAt(s, k, CallText(p, lit))
    ensures HasAt(s, k, "Text(") && HasAt(s, k + 5, lit.openSpace)
    ensures var a := k + 5 + |lit.openSpace|; a < |s| && s[a] == p.quote && HasAt(s, a + 1, lit.body + [p.quote])
    ensures HasAt(s, k + 6 + |lit.openSpace|, lit.body)
    ensures var c := k + 6 + |lit.openSpace| + |lit.body|; HasAt(s, c + 1, lit.closeSpace)
    ensures var e := k + 7 + |lit.openSpace| + |lit.body| + |lit.closeSpace|; e < |s| && s[e] == p.closer
  {
    var a: nat := k + 5 + |lit.openSpace|;
    var c: nat := a + 1 + |lit.body|;
    var e: nat := c + 1 + |lit.closeSpace|;
    var tail := [p.quote] + (lit.closeSpace + [p.closer]);
    HasAtSplit(s, k, k + 5, "Text(", lit.openSpace + ([p.quote] + (lit.body + tail)));
    HasAtSplit(s, k + 5, a, lit.openSpace, [p.quote] + (lit.body + tail));
    HasAtSplit(s, a, a + 1, [p.quote], lit.body + tail);
    HasAtSplit(s, a + 1, c, lit.body, tail);
    HasAtSplit(s, c, c + 1, [p.quote], lit.closeSpace + [p.closer]);
    HasAtSplit(s, c + 1, e, lit.closeSpace, [p.closer]);
    HasAtIndex(s, a, [p.quote], 0);
    HasAtIndex(s, c, [p.quote], 0);
    HasAtIndex(s, e, [p.closer], 0);
    HasAtJoin(s, a + 1, c, lit.body, [p.quote]);
  }

  /** The opening quote after `Text(` and a run of whitespace is found. */
  lemma OpenQuoteComplete(p: Pattern, s: string, k: nat, w: string)
    requires ValidPattern(p) && AllSpace(w) && HasAt(s, k + 5, w)
    requires k + 5 + |w| < |s| && s[k + 5 + |w|] == p.quote
    ensures OpenQuote(p, s, k) == Some(k + 5 + |w|)
  {
    var a := k + 5 + |w|;
    SkipSpacesOver(s, k + 5, w);
    assert !HasAt(s, a, "tl(") by {
      assert s[a] != "tl("[0];
    }
  }

  /** A body, its closing quote, a run of whitespace and the closer are found. */
  lemma CloseAfterComplete(p: Pattern, s: string, a: nat, b: string, w: string)
    requires ValidPattern(p) && IsBody(b, p.quote) && AllSpace(w) && a < |s|
    requires HasAt(s, a + 1, b + [p.quote]) && HasAt(s, a + 1 + |b| + 1, w)
    requires a + 1 + |b| + 1 + |w| < |s| && s[a + 1 + |b| + 1 + |w|] == p.closer
    ensures CloseAfter(p, s, a) == Some((a + 1 + |b|, a + 1 + |b| + 1 + |w|))
  {
    var c := a + 1 + |b|;
    var e := c + 1 + |w|;
    HasAtSplit(s, a + 1, c, b, [p.quote]);
    HasAtSlice(s, a + 1, b);
    BodyInShift(s, a + 1, c, b, 0, p.quote);
    HasAtIndex(s, c, [p.quote], 0);
    ScanBodyComplete(s, a + 1, c, p.quote);
    SkipSpacesOver(s, c + 1, w);
    CloseAfterAt(p, s, a, c, e);
  }

  lemma CloseAfterAt(p: Pattern, s: string, a: nat, c: nat, e: nat)
    requires a < c < |s| && ScanBody(s, a + 1, p.quote) == Some(c)
    requires SkipSpaces(s, c + 1) == e && e < |s| && s[e] == p.closer
    ensures CloseAfter(p, s, a) == Some((c, e))
  {
  }

  lemma LiteralAfterComplete(p: Pattern, s: string, i: nat, k: nat, lit: Literal)
    requires ValidPattern(p) && WellFormed(p, lit)
    requires i <= k && HasAt(s, k, "Text(")
    requires if p.withConst then i + 5 < k && s[i + 5..k] == lit.constSpace else i == k
    requires HasAt(s, k, CallText(p, lit))
    ensures LiteralAfter(p, s, i, k) == Some(lit)
  {
    CallTextParts(p, s, k, lit);
    LiteralAfterFromParts(p, s, i, k, lit);
  }

  /** LiteralAfterComplete, once the call text is split into its parts. */
  lemma LiteralAfterFromParts(p: Pattern, s: string, i: nat, k: nat, lit: Literal)
    requires ValidPattern(p) && WellFormed(p, lit)
    requires i <= k && HasAt(s, k, "Text(")
    requires if p.withConst then i + 5 < k && s[i + 5..k] == lit.constSpace else i == k
    requires HasAt(s, k + 5, lit.openSpace)
    requires var a := k + 5 + |lit.openSpace|; a < |s| && s[a] == p.quote && HasAt(s, a + 1, lit.body + [p.quote])
    requires HasAt(s, k + 6 + |lit.openSpace|, lit.body)
    requires var c := k + 6 + |lit.openSpace| + |lit.body|; HasAt(s, c + 1, lit.closeSpace)
    requires var e := k + 7 + |lit.openSpace| + |lit.body| + |lit.closeSpace|; e < |s| && s[e] == p.closer
    ensures LiteralAfter(p, s, i, k) == Some(lit)
  {
    var a: nat := k + 5 + |lit.openSpace|;
    var c: nat := a + 1 + |lit.body|;
    var e: nat := c + 1 + |lit.closeSpace|;
    OffsetsFound(p, s, k, lit, a, c, e);
    assert if p.withConst then i + 5 < k && AllSpace(s[i + 5..k]) && lit.constSpace == s[i + 5..k] else i == k && lit.constSpace == [];
    LiteralAssembled(p, s, i, k, a, c, e, lit);
  }

  /** The scanners find the two quotes and the closer where the parts put
      them. */
  lemma OffsetsFound(p: Pattern, s: string, k: nat, lit: Literal, a: nat, c: nat, e: nat)
    requires ValidPattern(p) && WellFormed(p, lit)
    requires a == k + 5 + |lit.openSpace| && c == a + 1 + |lit.body| && e == c + 1 + |lit.closeSpace|
    requires HasAt(s, k + 5, lit.openSpace)
    requires a < |s| && s[a] == p.quote && HasAt(s, a + 1, lit.body + [p.quote])
    requires HasAt(s, a + 1, lit.body) && HasAt(s, c + 1, lit.closeSpace)
    requires e < |s| && s[e] == p.closer
    ensures OpenQuote(p, s, k) == Some(a) && CloseAfter(p, s, a) == Some((c, e))
    ensures lit.openSpace == s[k + 5..a] && lit.body == s[a + 1..c] && lit.closeSpace == s[c + 1..e]
  {
    OpenQuoteComplete(p, s, k, lit.openSpace);
    CloseAfterComplete(p, s, a, lit.body, lit.closeSpace);
    HasAtSlice(s, k + 5, lit.openSpace);
    HasAtSlice(s, c + 1, lit.closeSpace);
    HasAtSlice(s, a + 1, lit.body);
  }

  /** LiteralAfter, once the offsets are known and the parts are the slices
      between them. */
  lemma LiteralAssembled(p: Pattern, s: string, i: nat, k: nat, a: nat, c: nat, e: nat, lit: Literal)
    requires i <= k && HasAt(s, k, "Text(")
    requires if p.withConst then i + 5 < k && AllSpace(s[i + 5..k]) else i == k
    requires a < |s| && OpenQuote(p, s, k) == Some(a) && CloseAfter(p, s, a) == Some((c, e))
    requires k + 5 <= a < c < e < |s|
    requires lit.constSpace == (if p.withConst then s[i + 5..k] else [])
    requires lit.openSpace == s[k + 5..a] && lit.body == s[a + 1..c] && lit.closeSpace == s[c + 1..e]
    ensures LiteralAfter(p, s, i, k) == Some(lit)
  {
    LiteralAfterAt(p, s, i, k, a, c, e);
    PartsSlices(p, s, i, k, a, c, e);
    LiteralEq(Parts(p, s, i, k, a, c, e), lit);
  }

  lemma LiteralEq(x: Literal, y: Literal)
    requires x.constSpace == y.constSpace && x.openSpace == y.openSpace
    requires x.body == y.body && x.closeSpace == y.closeSpace
    ensures x == y
  {
  }

  /** LiteralAfter, once the offsets of the two quotes and of the closer are
      known. */
  lemma LiteralAfterAt(p: Pattern, s: string, i: nat, k: nat, a: nat, c: nat, e: nat)
    requires i <= k && HasAt(s, k, "Text(")
    requires if p.withConst then i + 5 < k && AllSpace(s[i + 5..k]) else i == k
    requires a < |s| && OpenQuote(p, s, k) == Some(a) && CloseAfter(p, s, a) == Some((c, e))
    ensures k + 5 <= a < c < e < |s|
    ensures LiteralAfter(p, s, i, k) == Some(Parts(p, s, i, k, a, c, e))
  {
  }

  lemma CallStartComplete(p: Pattern, s: string, i: nat, lit: Literal)
    requires WellFormed(p, lit) && HasAt(s, i, Lead(p, lit) + CallText(p, lit))
    ensures CallStart(p, s, i) == Some(i + |Lead(p, lit)|)
    ensures HasAt(s, i + |Lead(p, lit)|, CallText(p, lit))
  {
    var k := i + |Lead(p, lit)|;
    HasAtSplit(s, i, k, Lead(p, lit), CallText(p, lit));
    HasAtSplit(s, k, k + 5, "Text(", CallText(p, lit)[5..]);
    if p.withConst {
      HasAtSplit(s, i, i + 5, "const", lit.constSpace);
      HasAtIndex(s, k, "Text(", 0);
      SkipSpacesOver(s, i + 5, lit.constSpace);
    }
  }

  /** Completeness: every well-formed match after a word boundary is found,
      with exactly these parts. */
  lemma FindLiteralComplete(p: Pattern, s: string, i: nat, lit: Literal)
    requires ValidPattern(p) && WellFormed(p, lit)
    requires i <= |s| && Boundary(s, i) && HasAt(s, i, Matched(p, lit))
    ensures FindLiteral(p, s, i) == Some(lit)
  {
    var k := i + |Lead(p, lit)|;
    CallStartComplete(p, s, i, lit);
    if p.withConst {
      HasAtSplit(s, i, k, Lead(p, lit), CallText(p, lit));
      HasAtSplit(s, i, i + 5, "const", lit.constSpace);
      HasAtSlice(s, i + 5, lit.constSpace);
    }
    LiteralAfterComplete(p, s, i, k, lit);
  }

  /** The character every match of `p` starts with. */
  function Head(p: Pattern): char {
    if p.withConst then 'c' else 'T'
  }

  /** A match of `p` starts with `const` or with `Text(`. */
  lemma FindLiteralHead(p: Pattern, s: string, i: nat)
    requires i <= |s| && FindLiteral(p, s, i).Some?
    ensures i < |s| && s[i] == Head(p)
  {
    var k := CallStart(p, s, i).value;
    if p.withConst {
      HasAtIndex(s, i, "const", 0);
    } else {
      HasAtIndex(s, k, "Text(", 0);
    }
  }

  /** No double wrapping, for one call in any text: where `Text(` and the
      whitespace after it are followed by `tl(`, no pattern matches,
      whatever the quote, `const` or closer. */
  lemma WrappedCallNotMatched(p: Pattern, s: string, i: nat)
    requires i <= |s| && CallStart(p, s, i).Some?
    requires HasAt(s, SkipSpaces(s, CallStart(p, s, i).value + 5), "tl(")
    ensures FindLiteral(p, s, i).None?
  {
    var k := CallStart(p, s, i).value;
    assert OpenQuote(p, s, k).None?;
  }

  /** Every `Text(` in `s` is already the head of a `Text(tl(` call. */
  predicate AllCallsWrapped(s: string) {
    forall k: nat | k <= |s| :: HasAt(s, k, "Text(") ==> HasAt(s, k + 5, "tl(")
  }

  /** No double wrapping: a `Text(` already followed by `tl(` is matched by no
      pattern, whatever the quote, `const` or closer. */
  lemma WrappedNotMatched(p: Pattern, s: string, i: nat)
    requires i <= |s| && AllCallsWrapped(s)
    ensures FindLiteral(p, s, i).None?
  {
    if Boundary(s, i) && CallStart(p, s, i).Some? {
      var k := CallStart(p, s, i).value;
      HasAtIndex(s, k + 5, "tl(", 0);
      assert SkipSpaces(s, k + 5) == k + 5;
      WrappedCallNotMatched(p, s, i);
    }
  }
}
