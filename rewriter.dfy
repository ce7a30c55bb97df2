/** `process_file` and `main` of tools/apply_tl.py: the three steps applied
    to one file's contents, and the run over all Dart files that skips
    `lib/core/translate.dart`. */
module Rewriter {
  import opened Lexical
  import TP = TextPatterns
  import CQ = ConstQualifier
  import opened Substitution
  import Imports

  /** The TEXT_PATTERNS substitutions, in the order they are applied. */
  function TextRules(): (rules: seq<Rule>)
    ensures |rules| == |TP.Patterns|
    ensures forall k | 0 <= k < |rules| :: rules[k] == Wrap(TP.Patterns[k])
  {
    seq(|TP.Patterns|, k requires 0 <= k < |TP.Patterns| => Wrap(TP.Patterns[k]))
  }

  /** The substitutions of `rules` applied one after the other, each to the
      output of the one before. */
  function ApplyRules(rules: seq<Rule>, s: string): string
    decreases |rules|
  {
    if rules == [] then s else ApplyRules(rules[1..], Sub(rules[0], s))
  }

  /** Step 1: wrap `Text(...)` literals in `tl(...)`. */
  function WrapLiterals(s: string): string {
    ApplyRules(TextRules(), s)
  }

  /** Step 2: only when `tl(` occurs, drop `const` in front of the listed
      widgets. */
  function DropConsts(s: string): string {
    if Contains(s, "tl(") then Sub(DropConst(CQ.OftenConst), s) else s
  }

  /** Without `tl(` step 2 does nothing; with it, a single qualifier of a
      listed widget becomes `Name(` and the rest of the text is kept. */
  lemma DropConstsGate(s: string, k: nat, q: CQ.Qualified)
    requires CQ.WellFormed(CQ.OftenConst, q)
    requires k < |s| && Boundary(s, k) && HasAt(s, k, CQ.QualifiedText(q))
    requires NoMatchIn(MatcherOf(DropConst(CQ.OftenConst)), s, 0, k)
    requires NoMatchIn(MatcherOf(DropConst(CQ.OftenConst)), s, k + |CQ.QualifiedText(q)|, |s|)
    ensures !Contains(s, "tl(") ==> DropConsts(s) == s
    ensures Contains(s, "tl(") ==> DropConsts(s) == s[..k] + q.name + "(" + s[k + |CQ.QualifiedText(q)|..]
  {
    CQ.OftenConstNames();
    DropOne(CQ.OftenConst, s, k, q);
  }

  /** The new contents of a file, given the relative path from the file's
      directory to `lib/core/translate.dart`. */
  function Rewrite(src: string, rel: string): string {
    Imports.EnsureImport(DropConsts(WrapLiterals(src)), rel)
  }

  /** `process_file` on contents `src`: the new contents and whether they
      differ from the old ones (the file is written exactly then). */
  method ProcessFile(src: string, rel: string) returns (result: string, changed: bool)
    ensures result == Rewrite(src, rel)
    ensures changed <==> result != src
  {
    var rules := TextRules();
    var text := src;
    for k := 0 to |rules|
      invariant ApplyRules(rules[k..], text) == WrapLiterals(src)
    {
      assert rules[k..][1..] == rules[k + 1..];
      text := Sub(rules[k], text);
    }
    assert rules[|rules|..] == [];
    if Contains(text, "tl(") {
      text := Sub(DropConst(CQ.OftenConst), text);
    }
    result := Imports.EnsureImport(text, rel);
    changed := result != src;
  }

  /** A rule list of TEXT_PATTERNS entries leaves a text whose `Text(` calls
      are all wrapped as it stands. */
  lemma {:induction false} WrapRulesFixpoint(rules: seq<Rule>, s: string)
    requires forall k | 0 <= k < |rules| :: rules[k].Wrap?
    requires TP.AllCallsWrapped(s)
    ensures ApplyRules(rules, s) == s
    decreases |rules|
  {
    if rules != [] {
      WrapFixpoint(rules[0].pattern, s);
      WrapRulesFixpoint(rules[1..], s);
    }
  }

  /** A rule list of TEXT_PATTERNS entries leaves a text without `Text(` as
      it stands. */
  lemma {:induction false} WrapRulesNeedCall(rules: seq<Rule>, s: string)
    requires forall k | 0 <= k < |rules| :: rules[k].Wrap?
    requires !Contains(s, "Text(")
    ensures ApplyRules(rules, s) == s
    decreases |rules|
  {
    if rules != [] {
      WrapNeedsCall(rules[0].pattern, s);
      WrapRulesNeedCall(rules[1..], s);
    }
  }

  /** Step 1 leaves a text unchanged when every `Text(` in it is followed
      by `tl(`. */
  lemma WrapLiteralsFixpoint(s: string)
    requires TP.AllCallsWrapped(s)
    ensures WrapLiterals(s) == s
  {
    WrapRulesFixpoint(TextRules(), s);
  }

  /** Rules none of which matches leave the text as it stands. */
  lemma {:induction false} ApplyRulesIdentity(rules: seq<Rule>, s: string)
    requires forall r | r in rules :: NoMatchIn(MatcherOf(r), s, 0, |s|)
    ensures ApplyRules(rules, s) == s
    decreases |rules|
  {
    if rules != [] {
      SubIdentity(MatcherOf(rules[0]), s);
      ApplyRulesIdentity(rules[1..], s);
    }
  }

  /** Applying two rule lists one after the other is applying their
      concatenation. */
  lemma {:induction false} ApplyRulesAppend(a: seq<Rule>, b: seq<Rule>, s: string)
    ensures ApplyRules(a + b, s) == ApplyRules(b, ApplyRules(a, s))
    decreases |a|
  {
    if a == [] {
      assert a + b == b;
    } else {
      assert (a + b)[1..] == a[1..] + b;
      ApplyRulesAppend(a[1..], b, Sub(a[0], s));
    }
  }

  /** A file in which no TEXT_PATTERNS entry matches and that does not use
      `tl(` is not changed.  Without `tl(` absent this fails: a file that
      already calls `tl(` but lacks the import gets the import. */
  lemma RewriteNoCall(src: string, rel: string)
    requires forall r | r in TextRules() :: NoMatchIn(MatcherOf(r), src, 0, |src|)
    requires !Contains(src, "tl(")
    ensures Rewrite(src, rel) == src
  {
    ApplyRulesIdentity(TextRules(), src);
  }

  /** A file that the rewriter has nothing left to do for is not changed:
      no TEXT_PATTERNS entry matches in it, and where it uses `tl(`, no
      listed widget is `const` and `translate.dart` is imported.  Calls such
      as `Text(name)` or `RichText(` are allowed: they match no pattern. */
  lemma RewriteIdle(src: string, rel: string)
    requires forall r | r in TextRules() :: NoMatchIn(MatcherOf(r), src, 0, |src|)
    requires Contains(src, "tl(") ==>
      NoMatchIn(MatcherOf(DropConst(CQ.OftenConst)), src, 0, |src|) && Imports.HasTranslateImport(src)
    ensures Rewrite(src, rel) == src
  {
    ApplyRulesIdentity(TextRules(), src);
    if Contains(src, "tl(") {
      SubIdentity(MatcherOf(DropConst(CQ.OftenConst)), src);
    }
  }

  /** The special case where every `Text(` in the file is followed by
      `tl(`, no listed widget is `const`, and `translate.dart` is imported
      wherever `tl(` is used. */
  lemma RewriteFixpoint(src: string, rel: string)
    requires TP.AllCallsWrapped(src)
    requires NoMatchIn(MatcherOf(DropConst(CQ.OftenConst)), src, 0, |src|)
    requires Contains(src, "tl(") ==> Imports.HasTranslateImport(src)
    ensures Rewrite(src, rel) == src
  {
    forall r | r in TextRules() ensures NoMatchIn(MatcherOf(r), src, 0, |src|) {
      forall k: nat | k < |src| ensures MatcherOf(r)(src, k).None? {
        TP.WrappedNotMatched(r.pattern, src, k);
      }
    }
    RewriteIdle(src, rel);
  }

  /** One `.dart` file under `lib`: its path, its contents, and the relative
      path from its directory to `lib/core/translate.dart`. */
  datatype DartFile = DartFile(path: string, content: string, rel: string)

  const TranslatePath: string := "lib/core/translate.dart"

  /** What a run does to one file's contents, given the relative path. */
  type Rewriting = (string, string) -> string

  /** The run of tools/apply_tl.py rewrites with `Rewrite`. */
  function ApplyTl(): Rewriting {
    (src: string, rel: string) => Rewrite(src, rel)
  }

  /** The file is rewritten and reported: it is not `translate.dart` itself
      and its contents change. */
  predicate Changes(g: Rewriting, f: DartFile) {
    f.path != TranslatePath && g(f.content, f.rel) != f.content
  }

  /** The contents of a file after the run. */
  function Written(g: Rewriting, f: DartFile): string {
    if f.path == TranslatePath then f.content else g(f.content, f.rel)
  }

  /** `changed_files`: the paths of the files that change, in traversal
      order. */
  function ChangedPaths(g: Rewriting, files: seq<DartFile>): seq<string>
    decreases |files|
  {
    if files == [] then []
    else
      var f := files[|files| - 1];
      ChangedPaths(g, files[..|files| - 1]) + (if Changes(g, f) then [f.path] else [])
  }

  /** One iteration of `main`: `translate.dart` is skipped, any other file
      goes through `process_file`. */
  method RunOne(f: DartFile) returns (result: string, changed: bool)
    ensures result == Written(ApplyTl(), f)
    ensures changed <==> Changes(ApplyTl(), f)
  {
    if f.path == TranslatePath {
      return f.content, false;
    }
    result, changed := ProcessFile(f.content, f.rel);
  }

  /** `main` over the files in traversal order: the new contents of each
      file and the list of changed paths. */
  method RunRewriter(files: seq<DartFile>) returns (contents: seq<string>, changed: seq<string>)
    ensures |contents| == |files|
    ensures forall k | 0 <= k < |files| :: contents[k] == Written(ApplyTl(), files[k])
    ensures changed == ChangedPaths(ApplyTl(), files)
  {
    contents := [];
    changed := [];
    for k := 0 to |files|
      invariant |contents| == k
      invariant forall j | 0 <= j < k :: contents[j] == Written(ApplyTl(), files[j])
      invariant changed == ChangedPaths(ApplyTl(), files[..k])
    {
      assert files[..k + 1][..k] == files[..k];
      var result, fileChanged := RunOne(files[k]);
      contents := contents + [result];
      if fileChanged {
        changed := changed + [files[k].path];
      }
    }
    assert files[..|files|] == files;
  }

  /** A path is reported exactly when a file with that path changes. */
  lemma {:induction false} ChangedPathsSpec(g: Rewriting, files: seq<DartFile>, p: string)
    ensures p in ChangedPaths(g, files) <==> exists k | 0 <= k < |files| :: files[k].path == p && Changes(g, files[k])
    decreases |files|
  {
    if files != [] {
      var init := files[..|files| - 1];
      ChangedPathsSpec(g, init, p);
      if p in ChangedPaths(g, files) && p !in ChangedPaths(g, init) {
        assert files[|files| - 1].path == p;
      }
      if exists k | 0 <= k < |init| :: init[k].path == p && Changes(g, init[k]) {
        var k :| 0 <= k < |init| && init[k].path == p && Changes(g, init[k]);
        assert files[k] == init[k];
      }
      if exists k | 0 <= k < |files| :: files[k].path == p && Changes(g, files[k]) {
        var k :| 0 <= k < |files| && files[k].path == p && Changes(g, files[k]);
        if k < |init| {
          assert init[k] == files[k];
        }
      }
    }
  }

  /** `translate.dart` itself is never rewritten nor reported. */
  lemma TranslateNeverChanged(g: Rewriting, files: seq<DartFile>)
    ensures TranslatePath !in ChangedPaths(g, files)
    ensures forall k | 0 <= k < |files| && files[k].path == TranslatePath :: Written(g, files[k]) == files[k].content
  {
    ChangedPathsSpec(g, files, TranslatePath);
  }
}
