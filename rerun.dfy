/** A second run of tools/apply_tl.py over its own output.  Both steps that
    use regular expressions can create new matches when they rewrite: a
    `Text(` inside a string literal finds the literal's closing quote once
    the call around it is wrapped, and dropping one `const` can bring an
    earlier `const` next to a listed widget.  So the rewrite is not
    idempotent; the lemmas below compute both runs on two small texts. */
module Rerun {
  import opened Lexical
  import TP = TextPatterns
  import CQ = ConstQualifier
  import opened Substitution
  import Imports
  import opened Rewriter

  /** Step 1 on a text: the four const patterns do not match it, the fifth
      pattern (`Text('...')`) turns it into `t`, and the last three do not
      match `t`. */
  lemma WrapLiteralsVia(s: string, t: string)
    requires forall k | 0 <= k < 4 :: NoMatchIn(MatcherOf(Wrap(TP.Patterns[k])), s, 0, |s|)
    requires Sub(Wrap(TP.Patterns[4]), s) == t
    requires forall k | 5 <= k < 8 :: NoMatchIn(MatcherOf(Wrap(TP.Patterns[k])), t, 0, |t|)
    ensures WrapLiterals(s) == t
  {
    var rules := TextRules();
    assert rules == rules[..4] + ([rules[4]] + rules[5..]);
    ApplyRulesAppend(rules[..4], [rules[4]] + rules[5..], s);
    ApplyRulesAppend([rules[4]], rules[5..], s);
    ApplyRulesIdentity(rules[..4], s);
    assert ApplyRules([rules[4]], s) == t;
    ApplyRulesIdentity(rules[5..], t);
  }

  /** A text without `c` is left alone by the const patterns. */
  lemma ConstPatternsIdle(s: string)
    requires forall k | 0 <= k < |s| :: s[k] != 'c'
    ensures forall k | 0 <= k < 4 :: NoMatchIn(MatcherOf(Wrap(TP.Patterns[k])), s, 0, |s|)
  {
    forall k | 0 <= k < 4 ensures NoMatchIn(MatcherOf(Wrap(TP.Patterns[k])), s, 0, |s|) {
      WrapAbsent(TP.Patterns[k], s, 0, |s|);
    }
  }

  /** `Text('Text(')')`: the first run wraps the outer literal, whose body is
      `Text(`; in the output that `Text(` is followed by the outer closing
      quote, and the second run wraps it as a literal `'))'` of its own. */
  lemma WrapLiteralsNotIdempotent()
    ensures WrapLiterals("Text('Text(')')") == "Text(tl('Text('))')"
    ensures WrapLiterals("Text(tl('Text('))')") == "Text(tl('Text(tl('))'))"
  {
    FirstWrap("Text('Text(')')", "Text(tl('Text('))')");
    SecondWrap("Text(tl('Text('))')", "Text(tl('Text(tl('))'))");
  }

  lemma FirstWrap(s: string, t: string)
    requires s == "Text('Text(')')" && t == "Text(tl('Text('))')"
    ensures WrapLiterals(s) == t
  {
    ConstPatternsIdle(s);
    FirstWrapMatch(s, t);
    LastPatternsIdleFirst(t);
    WrapLiteralsVia(s, t);
  }

  /** The fifth pattern matches the whole call `Text('Text(')` at 0. */
  lemma FirstWrapMatch(s: string, t: string)
    requires s == "Text('Text(')')" && t == "Text(tl('Text('))')"
    ensures Sub(Wrap(TP.Patterns[4]), s) == t
  {
    var p := TP.Patterns[4];
    var lit := TP.Literal([], [], "Text(", []);
    assert TP.Matched(p, lit) == s[..13];
    TP.PlainBodyIn(lit.body, 0, 5, p.quote);
    assert HasAt(s, 0, TP.Matched(p, lit));
    WrapAbsent(p, s, 13, |s|);
    WrapOne(p, s, 0, lit);
    FirstWrapResult(s[..0], TP.Replacement(p, lit.body), s[13..], t);
  }

  lemma FirstWrapResult(a: string, b: string, c: string, t: string)
    requires a == [] && b == TP.Replacement(TP.Patterns[4], "Text(") && c == "')"
    requires t == "Text(tl('Text('))')"
    ensures a + b + c == t
  {
    assert b == "Text(tl('Text('))";
  }

  /** After the first run, the last three patterns match nowhere: the outer
      call is wrapped, and the inner `Text(` is followed by `'))'` and then
      the end of the text, which no comma pattern and no double-quote
      pattern accepts. */
  lemma LastPatternsIdleFirst(t: string)
    requires t == "Text(tl('Text('))')"
    ensures forall k | 5 <= k < 8 :: NoMatchIn(MatcherOf(Wrap(TP.Patterns[k])), t, 0, |t|)
  {
    forall k | 5 <= k < 8 ensures NoMatchIn(MatcherOf(Wrap(TP.Patterns[k])), t, 0, |t|) {
      IdleFirst(TP.Patterns[k], t);
    }
  }

  lemma IdleFirst(p: TP.Pattern, t: string)
    requires t == "Text(tl('Text('))')" && p in TP.Patterns[5..]
    ensures NoMatchIn(MatcherOf(Wrap(p)), t, 0, |t|)
  {
    var m := MatcherOf(Wrap(p));
    IdleFirstTail(p, t);
    WrapAbsent(p, t, 1, 9);
    NoMatchJoin(m, t, 1, 9, |t|);
    WrappedAt(p, t, 0);
    NoMatchCons(m, t, 0, |t|);
  }

  lemma IdleFirstTail(p: TP.Pattern, t: string)
    requires t == "Text(tl('Text('))')" && p in TP.Patterns[5..]
    ensures NoMatchIn(MatcherOf(Wrap(p)), t, 9, |t|)
  {
    WrapAbsent(p, t, 10, |t|);
    InnerCallFirst(p, t);
    NoMatchCons(MatcherOf(Wrap(p)), t, 9, |t|);
  }

  /** A plain pattern at a `Text(tl(` call finds nothing. */
  lemma WrappedAt(p: TP.Pattern, s: string, i: nat)
    requires !p.withConst && i + 8 <= |s| && HasAt(s, i, "Text(tl(")
    ensures MatcherOf(Wrap(p))(s, i).None?
  {
    assert "Text(tl(" == "Text(" + "tl(";
    HasAtSplit(s, i, i + 5, "Text(", "tl(");
    HasAtIndex(s, i + 5, "tl(", 0);
    PrintableNotSpace(s[i + 5]);
    assert SkipSpaces(s, i + 5) == i + 5;
    TP.WrappedCallNotMatched(p, s, i);
  }

  lemma InnerCallFirst(p: TP.Pattern, t: string)
    requires t == "Text(tl('Text('))')" && p in TP.Patterns[5..]
    ensures MatcherOf(Wrap(p))(t, 9).None?
  {
    PrintableNotSpace(t[14]);
    PrintableNotSpace(t[18]);
    assert TP.CallStart(p, t, 9) == Some(9);
    assert SkipSpaces(t, 14) == 14;
    assert SkipSpaces(t, 18) == 18;
    assert TP.ScanBody(t, 17, '\'') == Some(17);
    assert TP.ScanBody(t, 16, '\'') == Some(17);
    assert TP.ScanBody(t, 15, '\'') == Some(17);
  }

  lemma SecondWrap(t: string, u: string)
    requires t == "Text(tl('Text('))')" && u == "Text(tl('Text(tl('))'))"
    ensures WrapLiterals(t) == u
  {
    ConstPatternsIdle(t);
    SecondWrapMatch(t, u);
    LastPatternsIdleSecond(u);
    WrapLiteralsVia(t, u);
  }

  /** The fifth pattern now matches `Text('))')` at 9. */
  lemma SecondWrapMatch(t: string, u: string)
    requires t == "Text(tl('Text('))')" && u == "Text(tl('Text(tl('))'))"
    ensures Sub(Wrap(TP.Patterns[4]), t) == u
  {
    var p := TP.Patterns[4];
    var m := MatcherOf(Wrap(p));
    var lit := TP.Literal([], [], "))", []);
    assert TP.Matched(p, lit) == t[9..];
    TP.PlainBodyIn(lit.body, 0, 2, p.quote);
    WrapAbsent(p, t, 1, 9);
    WrappedAt(p, t, 0);
    NoMatchCons(m, t, 0, 9);
    WrapOne(p, t, 9, lit);
    SecondWrapResult(t[..9], TP.Replacement(p, lit.body), t[19..], u);
  }

  lemma SecondWrapResult(a: string, b: string, c: string, u: string)
    requires a == "Text(tl('" && b == TP.Replacement(TP.Patterns[4], "))") && c == []
    requires u == "Text(tl('Text(tl('))'))"
    ensures a + b + c == u
  {
    assert b == "Text(tl('))'))";
  }

  lemma LastPatternsIdleSecond(u: string)
    requires u == "Text(tl('Text(tl('))'))"
    ensures forall k | 5 <= k < 8 :: NoMatchIn(MatcherOf(Wrap(TP.Patterns[k])), u, 0, |u|)
  {
    forall k | 5 <= k < 8 ensures NoMatchIn(MatcherOf(Wrap(TP.Patterns[k])), u, 0, |u|) {
      IdleSecond(TP.Patterns[k], u);
    }
  }

  lemma IdleSecond(p: TP.Pattern, u: string)
    requires u == "Text(tl('Text(tl('))'))" && !p.withConst
    ensures NoMatchIn(MatcherOf(Wrap(p)), u, 0, |u|)
  {
    var m := MatcherOf(Wrap(p));
    IdleSecondTail(p, u);
    WrapAbsent(p, u, 1, 9);
    NoMatchJoin(m, u, 1, 9, |u|);
    WrappedAt(p, u, 0);
    NoMatchCons(m, u, 0, |u|);
  }

  lemma IdleSecondTail(p: TP.Pattern, u: string)
    requires u == "Text(tl('Text(tl('))'))" && !p.withConst
    ensures NoMatchIn(MatcherOf(Wrap(p)), u, 9, |u|)
  {
    WrapAbsent(p, u, 10, |u|);
    WrappedAt(p, u, 9);
    NoMatchCons(MatcherOf(Wrap(p)), u, 9, |u|);
  }

  /** `tl(`, then `const` on a line of its own, then `const Center(`: the
      first run drops the second `const` and adds the import, which brings
      the first `const` next to `Center(`; the second run drops that one. */
  lemma RewriteNotIdempotent()
    ensures Rewrite("tl(\nconst\nconst Center(", "translate.dart")
      == "import 'translate.dart';\n" + "tl(\nconst\nCenter("
    ensures Rewrite("import 'translate.dart';\n" + "tl(\nconst\nCenter(", "translate.dart")
      == "import 'translate.dart';\n" + "tl(\nCenter("
  {
    FirstRewrite("tl(\nconst\nconst Center(", "tl(\nconst\nCenter(", "import 'translate.dart';\n");
    SecondRewrite("import 'translate.dart';\n", "tl(\nconst\nCenter(", "tl(\nCenter(");
  }

  /** A text without `T` has no `Text(` call, so step 1 leaves it alone. */
  lemma WrapIdleWithoutT(s: string)
    requires forall k | 0 <= k < |s| :: s[k] != 'T'
    ensures WrapLiterals(s) == s
  {
    AbsentHead(s, "Text(");
    WrapLiteralsFixpoint(s);
  }

  /** Rewrite is the three steps in a row. */
  lemma RewriteVia(s: string, d: string, r: string, rel: string)
    requires WrapLiterals(s) == s && DropConsts(s) == d && Imports.EnsureImport(d, rel) == r
    ensures Rewrite(s, rel) == r
  {
  }

  /** A run in which step 1 does nothing and step 2 leaves the import of
      `translate.dart` in place returns what step 2 returned. */
  lemma RewriteKeepsImport(r: string, u: string, rel: string)
    requires WrapLiterals(r) == r && DropConsts(r) == u && Imports.HasTranslateImport(u)
    ensures Rewrite(r, rel) == u
  {
    Imports.EnsureImportChanges(u, rel);
  }

  lemma ImportLineText(h: string)
    requires h == "import 'translate.dart';\n"
    ensures Imports.ImportLine("translate.dart") == h
  {
  }

  lemma TranslatePath()
    ensures Imports.QuoteFree("translate.dart") && Imports.EndsWith("translate.dart", "translate.dart")
  {
  }

  lemma FirstRewrite(s: string, t: string, h: string)
    requires s == "tl(\nconst\nconst Center(" && t == "tl(\nconst\nCenter("
    requires h == "import 'translate.dart';\n"
    ensures Rewrite(s, "translate.dart") == h + t
  {
    WrapIdleWithoutT(s);
    FirstDrop(s, t);
    FirstImport(t, h);
    RewriteVia(s, t, h + t, "translate.dart");
  }

  /** No import line yet: the new one goes first. */
  lemma FirstImport(t: string, h: string)
    requires t == "tl(\nconst\nCenter(" && h == "import 'translate.dart';\n"
    ensures Imports.EnsureImport(t, "translate.dart") == h + t
  {
    assert HasAt(t, 0, "tl(");
    Imports.NoImportWithoutI(t);
    Imports.ImportPrepended(t, "translate.dart");
    ImportLineText(h);
  }

  /** The `const` on its own line is followed by `const`, not by a listed
      name, so only the second one is dropped. */
  lemma FirstDrop(s: string, t: string)
    requires s == "tl(\nconst\nconst Center(" && t == "tl(\nconst\nCenter("
    ensures DropConsts(s) == t
  {
    var q := CQ.Qualified(" ", "Center", "");
    FirstNoEarlierDrop(s);
    assert CQ.QualifiedText(q) == s[10..];
    assert HasAt(s, 0, "tl(");
    DropConstsGate(s, 10, q);
    FirstDropText(s, t);
  }

  lemma FirstNoEarlierDrop(s: string)
    requires s == "tl(\nconst\nconst Center("
    ensures NoMatchIn(MatcherOf(DropConst(CQ.OftenConst)), s, 0, 10)
  {
    var m := MatcherOf(DropConst(CQ.OftenConst));
    DropAbsent(CQ.OftenConst, s, 0, 4);
    PrintableNotSpace(s[10]);
    CQ.ConstThenOther(s, 4);
    NoDropAt(s, 4);
    NoMatchJoin(m, s, 0, 4, 5);
    DropAbsent(CQ.OftenConst, s, 5, 10);
    NoMatchJoin(m, s, 0, 5, 10);
  }

  lemma FirstDropText(s: string, t: string)
    requires s == "tl(\nconst\nconst Center(" && t == "tl(\nconst\nCenter("
    ensures s[..10] + "Center" + "(" + s[23..] == t
  {
  }

  /** Where FindQualified finds nothing, DROP_CONST_ON does not match. */
  lemma NoDropAt(s: string, i: nat)
    requires i < |s| && CQ.FindQualified(CQ.OftenConst, s, i).None?
    ensures NoMatchIn(MatcherOf(DropConst(CQ.OftenConst)), s, i, i + 1)
  {
  }

  /** The second run drops the remaining `const`; the import is there. */
  lemma SecondRewrite(h: string, t: string, v: string)
    requires h == "import 'translate.dart';\n" && t == "tl(\nconst\nCenter(" && v == "tl(\nCenter("
    ensures Rewrite(h + t, "translate.dart") == h + v
  {
    SecondSteps(h, t, v);
    ImportLineText(h);
    TranslatePath();
    Imports.ImportLeads(v, "translate.dart");
    RewriteKeepsImport(h + t, h + v, "translate.dart");
  }

  lemma SecondSteps(h: string, t: string, v: string)
    requires h == "import 'translate.dart';\n" && t == "tl(\nconst\nCenter(" && v == "tl(\nCenter("
    ensures WrapLiterals(h + t) == h + t && DropConsts(h + t) == h + v
  {
    WrapIdleWithoutT(h + t);
    SecondDrop(h, t, v);
  }

  lemma SecondDrop(h: string, t: string, v: string)
    requires h == "import 'translate.dart';\n" && t == "tl(\nconst\nCenter(" && v == "tl(\nCenter("
    ensures DropConsts(h + t) == h + v
  {
    var r := h + t;
    SecondDropGate(h, t);
    assert r[..29] == h + t[..4] && r[42..] == [];
    SecondDropText(h, t[..4], v);
  }

  lemma SecondDropGate(h: string, t: string)
    requires h == "import 'translate.dart';\n" && t == "tl(\nconst\nCenter("
    ensures DropConsts(h + t) == (h + t)[..29] + "Center" + "(" + (h + t)[42..]
  {
    var q := CQ.Qualified("\n", "Center", "");
    SecondDropFacts(h, t, q);
    DropConstsGate(h + t, 29, q);
  }

  lemma SecondDropFacts(h: string, t: string, q: CQ.Qualified)
    requires h == "import 'translate.dart';\n" && t == "tl(\nconst\nCenter("
    requires q == CQ.Qualified("\n", "Center", "")
    ensures CQ.WellFormed(CQ.OftenConst, q) && |CQ.QualifiedText(q)| == 13
    ensures HasAt(h + t, 25, "tl(") && HasAt(h + t, 29, CQ.QualifiedText(q)) && (h + t)[28] == '\n'
    ensures NoMatchIn(MatcherOf(DropConst(CQ.OftenConst)), h + t, 0, 29)
  {
    assert HasAt(t, 0, "tl(") && HasAt(t, 4, CQ.QualifiedText(q));
    JoinedAt(h, t, 0, "tl(");
    JoinedAt(h, t, 4, CQ.QualifiedText(q));
    SecondNoEarlierDrop(h, t);
  }

  lemma SecondNoEarlierDrop(h: string, t: string)
    requires h == "import 'translate.dart';\n" && t == "tl(\nconst\nCenter("
    ensures NoMatchIn(MatcherOf(DropConst(CQ.OftenConst)), h + t, 0, 29)
  {
    DropAbsent(CQ.OftenConst, h + t, 0, 29);
  }

  /** What occurs in `t` occurs in `h + t`, shifted by `|h|`. */
  lemma JoinedAt(h: string, t: string, i: nat, x: string)
    requires HasAt(t, i, x)
    ensures HasAt(h + t, |h| + i, x)
  {
  }

  lemma SecondDropText(h: string, w: string, v: string)
    requires w == "tl(\n" && v == "tl(\nCenter("
    ensures h + w + "Center" + "(" + [] == h + v
  {
    assert w + "Center" + "(" == v;
  }
}
