/** `re.sub` as the rewriter uses it: the pattern is tried at every offset
    from left to right; a match is replaced and the scan resumes where the
    match ended, so matches never overlap; text between matches is copied.
    Look-behind (`\b`) and look-ahead always see the original text. */
module Substitution {
  import opened Lexical
  import TP = TextPatterns
  import CQ = ConstQualifier

  /** One substitution of tools/apply_tl.py: one of the eight TEXT_PATTERNS,
      or DROP_CONST_ON with the names of its alternation. */
  datatype Rule = Wrap(pattern: TP.Pattern) | DropConst(names: seq<string>)

  /** The pattern of `r` tried at offset `i`: where the match ends and the
      text that replaces it. */
  function MatchAt(r: Rule, s: string, i: nat): (m: Option<(nat, string)>)
    requires i <= |s|
    ensures m.Some? ==> i < m.value.0 <= |s|
  {
    match r
    case Wrap(p) =>
      (match TP.FindLiteral(p, s, i)
       case None => None
       case Some(lit) => Some((i + |TP.Matched(p, lit)|, TP.Replacement(p, lit.body))))
    case DropConst(names) =>
      match CQ.FindQualified(names, s, i)
      case None => None
      case Some(q) => Some((i + |CQ.QualifiedText(q)|, CQ.Replacement(q)))
  }

  /** A pattern seen from the scan: where a match starting at an offset ends,
      and the text that replaces it. */
  type Matcher = (string, nat) -> Option<(nat, string)>

  /** Every match is non-empty and stays inside the text. */
  ghost predicate Advances(m: Matcher) {
    forall s: string, i: nat :: m(s, i).Some? ==> i < m(s, i).value.0 <= |s|
  }

  function MatcherOf(r: Rule): (m: Matcher)
    ensures Advances(m)
  {
    (s: string, i: nat) => if i <= |s| then MatchAt(r, s, i) else None
  }

  /** No match starts in `s[i..j]`. */
  predicate NoMatchIn(m: Matcher, s: string, i: nat, j: nat) {
    forall k: nat | i <= k < j :: m(s, k).None?
  }

  lemma NoMatchJoin(m: Matcher, s: string, a: nat, b: nat, c: nat)
    requires a <= b <= c && NoMatchIn(m, s, a, b) && NoMatchIn(m, s, b, c)
    ensures NoMatchIn(m, s, a, c)
  {
  }

  lemma NoMatchCons(m: Matcher, s: string, a: nat, b: nat)
    requires a < b && m(s, a).None? && NoMatchIn(m, s, a + 1, b)
    ensures NoMatchIn(m, s, a, b)
  {
  }

  /** The substitution from offset `i` on. */
  function SubFrom(m: Matcher, s: string, i: nat): string
    requires Advances(m) && i <= |s|
    decreases |s| - i
  {
    if i == |s| then []
    else match m(s, i)
      case Some((e, t)) => t + SubFrom(m, s, e)
      case None => [s[i]] + SubFrom(m, s, i + 1)
  }

  /** `re.sub` with the pattern of `r` over the whole text. */
  function Sub(r: Rule, s: string): string {
    SubFrom(MatcherOf(r), s, 0)
  }

  /** Text where no match starts is copied as it stands. */
  lemma {:induction false} SubFromCopies(m: Matcher, s: string, i: nat, j: nat)
    requires Advances(m) && i <= j <= |s| && NoMatchIn(m, s, i, j)
    ensures SubFrom(m, s, i) == s[i..j] + SubFrom(m, s, j)
    decreases j - i
  {
    if i < j {
      assert m(s, i).None?;
      var rest := SubFrom(m, s, j);
      SubFromCopies(m, s, i + 1, j);
      assert s[i..j] == [s[i]] + s[i + 1..j];
      assert [s[i]] + (s[i + 1..j] + rest) == ([s[i]] + s[i + 1..j]) + rest;
    }
  }

  /** One step of the scan: the text up to the next match is copied, the
      match is replaced, and the scan resumes where the match ended. */
  lemma SubStep(m: Matcher, s: string, i: nat, k: nat, e: nat, t: string)
    requires Advances(m) && i <= k < |s| && NoMatchIn(m, s, i, k) && m(s, k) == Some((e, t))
    ensures SubFrom(m, s, i) == s[i..k] + t + SubFrom(m, s, e)
  {
    SubFromCopies(m, s, i, k);
    assert SubFrom(m, s, k) == t + SubFrom(m, s, e);
  }

  /** A text in which the pattern never matches is left unchanged. */
  lemma SubIdentity(m: Matcher, s: string)
    requires Advances(m) && NoMatchIn(m, s, 0, |s|)
    ensures SubFrom(m, s, 0) == s
  {
    SubFromCopies(m, s, 0, |s|);
    assert s[0..|s|] == s;
  }

  /** A single match, with none before it and none in the text after it: the
      result is the text before, the replacement, and the text after. */
  lemma SubSingle(m: Matcher, s: string, k: nat, e: nat, t: string)
    requires Advances(m) && k < |s| && m(s, k) == Some((e, t))
    requires NoMatchIn(m, s, 0, k) && NoMatchIn(m, s, e, |s|)
    ensures SubFrom(m, s, 0) == s[..k] + t + s[e..]
  {
    SubFromCopies(m, s, 0, k);
    SubFromCopies(m, s, e, |s|);
    assert s[0..k] == s[..k];
    assert s[e..|s|] == s[e..];
  }

  /** SubSingle for the substitution of a rule. */
  lemma RuleSingle(r: Rule, s: string, k: nat, e: nat, t: string)
    requires k < |s| && MatcherOf(r)(s, k) == Some((e, t))
    requires NoMatchIn(MatcherOf(r), s, 0, k) && NoMatchIn(MatcherOf(r), s, e, |s|)
    ensures Sub(r, s) == s[..k] + t + s[e..]
  {
    SubSingle(MatcherOf(r), s, k, e, t);
  }

  /** A match of one of the TEXT_PATTERNS at offset `k`: `Text(` ws
      `q body q` ws closer, `const` ws in front for the const patterns, after
      a word boundary, with no other match in the text.  It becomes
      `Text(tl(q body q))` or `Text(tl(q body q),`: the same quote, the body
      copied as it stands (escapes included), the whitespace and `const`
      dropped, and the text before and after the match (the further arguments
      of the comma patterns among it) kept. */
  lemma WrapOne(p: TP.Pattern, s: string, k: nat, lit: TP.Literal)
    requires TP.ValidPattern(p) && TP.WellFormed(p, lit)
    requires k < |s| && Boundary(s, k) && HasAt(s, k, TP.Matched(p, lit))
    requires NoMatchIn(MatcherOf(Wrap(p)), s, 0, k)
    requires NoMatchIn(MatcherOf(Wrap(p)), s, k + |TP.Matched(p, lit)|, |s|)
    ensures Sub(Wrap(p), s) == s[..k] + TP.Replacement(p, lit.body) + s[k + |TP.Matched(p, lit)|..]
  {
    var e := k + |TP.Matched(p, lit)|;
    WrapFound(p, s, k, lit);
    RuleSingle(Wrap(p), s, k, e, TP.Replacement(p, lit.body));
  }

  /** A literal written out at `k` is what the matcher reports there. */
  lemma WrapFound(p: TP.Pattern, s: string, k: nat, lit: TP.Literal)
    requires TP.ValidPattern(p) && TP.WellFormed(p, lit)
    requires k < |s| && Boundary(s, k) && HasAt(s, k, TP.Matched(p, lit))
    ensures MatcherOf(Wrap(p))(s, k) == Some((k + |TP.Matched(p, lit)|, TP.Replacement(p, lit.body)))
  {
    TP.FindLiteralComplete(p, s, k, lit);
    WrapMatchAt(p, s, k, lit);
  }

  lemma WrapMatchAt(p: TP.Pattern, s: string, i: nat, lit: TP.Literal)
    requires i <= |s| && TP.FindLiteral(p, s, i) == Some(lit)
    ensures MatcherOf(Wrap(p))(s, i) == Some((i + |TP.Matched(p, lit)|, TP.Replacement(p, lit.body)))
  {
  }

  /** No match of `p` starts where its first character is absent. */
  lemma WrapAbsent(p: TP.Pattern, s: string, a: nat, b: nat)
    requires a <= b <= |s| && forall k | a <= k < b :: s[k] != TP.Head(p)
    ensures NoMatchIn(MatcherOf(Wrap(p)), s, a, b)
  {
    forall k: nat | a <= k < b ensures MatcherOf(Wrap(p))(s, k).None? {
      if TP.FindLiteral(p, s, k).Some? {
        TP.FindLiteralHead(p, s, k);
      }
    }
  }

  /** A `const` qualifier of a listed widget at offset `k`, after a word
      boundary, with no other match in the text, becomes `Name(`: `const`,
      the whitespace after it and the whitespace before `(` are dropped, and
      the text before and after it is kept. */
  lemma DropOne(names: seq<string>, s: string, k: nat, q: CQ.Qualified)
    requires CQ.AllNames(names) && CQ.WellFormed(names, q)
    requires k < |s| && Boundary(s, k) && HasAt(s, k, CQ.QualifiedText(q))
    requires NoMatchIn(MatcherOf(DropConst(names)), s, 0, k)
    requires NoMatchIn(MatcherOf(DropConst(names)), s, k + |CQ.QualifiedText(q)|, |s|)
    ensures Sub(DropConst(names), s) == s[..k] + q.name + "(" + s[k + |CQ.QualifiedText(q)|..]
  {
    var e := k + |CQ.QualifiedText(q)|;
    DropFound(names, s, k, q);
    RuleSingle(DropConst(names), s, k, e, CQ.Replacement(q));
    assert s[..k] + CQ.Replacement(q) + s[e..] == s[..k] + q.name + "(" + s[e..];
  }

  /** A qualifier written out at `k` is what the matcher reports there. */
  lemma DropFound(names: seq<string>, s: string, k: nat, q: CQ.Qualified)
    requires CQ.AllNames(names) && CQ.WellFormed(names, q)
    requires k < |s| && Boundary(s, k) && HasAt(s, k, CQ.QualifiedText(q))
    ensures MatcherOf(DropConst(names))(s, k) == Some((k + |CQ.QualifiedText(q)|, CQ.Replacement(q)))
  {
    CQ.FindQualifiedComplete(names, s, k, q);
    DropMatchAt(names, s, k, q);
  }

  lemma DropMatchAt(names: seq<string>, s: string, i: nat, q: CQ.Qualified)
    requires i <= |s| && CQ.FindQualified(names, s, i) == Some(q)
    ensures MatcherOf(DropConst(names))(s, i) == Some((i + |CQ.QualifiedText(q)|, CQ.Replacement(q)))
  {
  }

  /** No `const` qualifier starts where there is no `c`. */
  lemma DropAbsent(names: seq<string>, s: string, a: nat, b: nat)
    requires a <= b <= |s| && forall k | a <= k < b :: s[k] != 'c'
    ensures NoMatchIn(MatcherOf(DropConst(names)), s, a, b)
  {
    forall k: nat | a <= k < b ensures MatcherOf(DropConst(names))(s, k).None? {
      if CQ.FindQualified(names, s, k).Some? {
        CQ.FindQualifiedHead(names, s, k);
      }
    }
  }

  /** A `Text(` call already wrapped in `tl(` matches no pattern: a text whose
      calls are all wrapped is a fixed point of every TEXT_PATTERNS
      substitution. */
  lemma WrapFixpoint(p: TP.Pattern, s: string)
    requires TP.AllCallsWrapped(s)
    ensures Sub(Wrap(p), s) == s
  {
    forall k: nat | k < |s| ensures MatcherOf(Wrap(p))(s, k).None? {
      TP.WrappedNotMatched(p, s, k);
    }
    SubIdentity(MatcherOf(Wrap(p)), s);
  }

  /** Every match of a TEXT_PATTERNS entry starts with `Text(` or `const`, so
      a text holding neither `Text(` is left unchanged. */
  lemma WrapNeedsCall(p: TP.Pattern, s: string)
    requires !Contains(s, "Text(")
    ensures Sub(Wrap(p), s) == s
  {
    forall k: nat | k < |s| ensures MatcherOf(Wrap(p))(s, k).None? {
    }
    SubIdentity(MatcherOf(Wrap(p)), s);
  }

  /** Every match of DROP_CONST_ON starts with `const`. */
  lemma DropNeedsConst(names: seq<string>, s: string)
    requires !Contains(s, "const")
    ensures Sub(DropConst(names), s) == s
  {
    forall k: nat | k < |s| ensures MatcherOf(DropConst(names))(s, k).None? {
    }
    SubIdentity(MatcherOf(DropConst(names)), s);
  }
}
