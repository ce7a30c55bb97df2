/** IMPORT_RE, TRANSLATE_IMPORT_ANY and `ensure_import` of tools/apply_tl.py.
    Both patterns are anchored with `^` and `$` in multi-line mode: `^` holds
    at the start of the text and after every newline, `$` at the end of the
    text and before every newline. */
module Imports {
  import opened Lexical

  predicate IsQuote(c: char) {
    c == '\'' || c == '"'
  }

  /** `^` under re.M at offset `j`. */
  predicate LineStart(s: string, j: nat)
    requires j <= |s|
  {
    j == 0 || s[j - 1] == '\n'
  }

  /** `$` under re.M at offset `p`. */
  predicate LineEnd(s: string, p: nat)
    requires p <= |s|
  {
    p == |s| || s[p] == '\n'
  }

  /** `[^'"]+['"]` from offset `i`: the first quote at or after `i`. */
  function QuoteFrom(s: string, i: nat): (r: Option<nat>)
    requires i <= |s|
    ensures r.Some? ==> i <= r.value < |s| && IsQuote(s[r.value])
    ensures r.Some? ==> forall k | i <= k < r.value :: !IsQuote(s[k])
    ensures r.None? ==> forall k | i <= k < |s| :: !IsQuote(s[k])
    decreases |s| - i
  {
    if i == |s| then None
    else if IsQuote(s[i]) then Some(i)
    else QuoteFrom(s, i + 1)
  }

  /** `\s*$` once `\s*` has consumed `s[c..p]`: `$` is tried at `p`, then,
      giving back one character at a time, at every offset down to `c`; the
      first offset where it holds ends the match. */
  function Backtrack(s: string, c: nat, p: nat): (r: Option<nat>)
    requires c <= p <= |s|
    ensures r.Some? ==> c <= r.value <= p && LineEnd(s, r.value)
    ensures r.Some? ==> forall q | r.value < q <= p :: !LineEnd(s, q)
    ensures r.None? ==> forall q | c <= q <= p :: !LineEnd(s, q)
    decreases p - c
  {
    if LineEnd(s, p) then Some(p)
    else if p == c then None
    else Backtrack(s, c, p - 1)
  }

  /** One IMPORT_RE match: the quoted path (group 1) and where the match
      ends. */
  datatype ImportMatch = ImportMatch(path: string, end: nat)

  /** IMPORT_RE tried at offset `j`: `^import\s+`, a quote, a non-empty path
      without quotes, a quote (either kind, independently of the first),
      `;`, `\s*$`. */
  function ImportAt(s: string, j: nat): (r: Option<ImportMatch>)
    requires j <= |s|
    ensures r.Some? ==> j < r.value.end <= |s| && LineEnd(s, r.value.end)
  {
    if !LineStart(s, j) || !HasAt(s, j, "import") then None
    else
      var a := SkipSpaces(s, j + 6);
      if a == j + 6 || a == |s| || !IsQuote(s[a]) then None
      else match QuoteFrom(s, a + 1)
        case None => None
        case Some(b) =>
          if b == a + 1 || b + 1 == |s| || s[b + 1] != ';' then None
          else match Backtrack(s, b + 2, SkipSpaces(s, b + 2))
            case None => None
            case Some(e) => Some(ImportMatch(s[a + 1..b], e))
  }

  predicate EndsWith(s: string, suffix: string) {
    |suffix| <= |s| && s[|s| - |suffix|..] == suffix
  }

  /** TRANSLATE_IMPORT_ANY tried at offset `j`.  Its `[^'"]*translate\.dart`
      is a quote-free path that ends in `translate.dart`, so it matches
      exactly where IMPORT_RE matches with such a path. */
  predicate TranslateImportAt(s: string, j: nat)
    requires j <= |s|
  {
    ImportAt(s, j).Some? && EndsWith(ImportAt(s, j).value.path, "translate.dart")
  }

  /** `TRANSLATE_IMPORT_ANY.search` from offset `i` on. */
  function SearchTranslateImport(s: string, i: nat): (r: bool)
    requires i <= |s|
    ensures r <==> exists j | i <= j <= |s| :: TranslateImportAt(s, j)
    decreases |s| - i
  {
    if TranslateImportAt(s, i) then true
    else if i == |s| then false
    else SearchTranslateImport(s, i + 1)
  }

  predicate HasTranslateImport(s: string) {
    SearchTranslateImport(s, 0)
  }

  /** No IMPORT_RE match starts in `s[i..j]`. */
  predicate NoImportIn(s: string, i: nat, j: nat)
    requires i <= j <= |s|
  {
    forall k | i <= k < j :: ImportAt(s, k).None?
  }

  /** A pattern as the `finditer` scan sees it: where a match starting at an
      offset ends. */
  type EndScanner = (string, nat) -> Option<nat>

  /** Every match is non-empty and stays inside the text. */
  ghost predicate Ends(f: EndScanner) {
    forall s: string, i: nat :: f(s, i).Some? ==> i < f(s, i).value <= |s|
  }

  function ImportEnd(): (f: EndScanner)
    ensures Ends(f)
  {
    (s: string, i: nat) => if i <= |s| && ImportAt(s, i).Some? then Some(ImportAt(s, i).value.end) else None
  }

  /** No match of `f` starts in `s[i..j]`. */
  predicate NoEndIn(f: EndScanner, s: string, i: nat, j: nat) {
    forall k: nat | i <= k < j :: f(s, k).None?
  }

  /** `finditer` from offset `i`, keeping the end of the last match so far:
      after a match the scan resumes where it ended. */
  function LastEndFrom(f: EndScanner, s: string, i: nat, last: Option<nat>): (r: Option<nat>)
    requires Ends(f) && i <= |s| && (last.Some? ==> last.value <= |s|)
    ensures r.Some? ==> r.value <= |s|
    decreases |s| - i
  {
    if i == |s| then last
    else match f(s, i)
      case Some(e) => LastEndFrom(f, s, e, Some(e))
      case None => LastEndFrom(f, s, i + 1, last)
  }

  /** `imports[-1].end()` for `imports = list(IMPORT_RE.finditer(src))`, or
      None when the list is empty. */
  function LastImportEnd(s: string): Option<nat> {
    LastEndFrom(ImportEnd(), s, 0, None)
  }

  /** What the scan reports: the end of a match it found, after which no
      match starts; or, when it reports nothing, no match anywhere. */
  lemma {:induction false} LastEndFromSpec(f: EndScanner, s: string, i: nat, last: Option<nat>)
    requires Ends(f) && i <= |s|
    requires last.Some? ==> last.value <= i && NoEndIn(f, s, last.value, i)
    ensures var r := LastEndFrom(f, s, i, last);
      && (r.None? ==> last.None? && NoEndIn(f, s, i, |s|))
      && (r.Some? ==> NoEndIn(f, s, r.value, |s|))
      && (r.Some? ==> r == last || exists j: nat | i <= j < |s| :: f(s, j) == r)
    decreases |s| - i
  {
    if i < |s| {
      match f(s, i)
      case Some(e) =>
        LastEndFromSpec(f, s, e, Some(e));
      case None =>
        LastEndFromSpec(f, s, i + 1, last);
    }
  }

  lemma LastImportEndSpec(s: string)
    ensures LastImportEnd(s).None? ==> NoImportIn(s, 0, |s|)
    ensures LastImportEnd(s).Some? ==> var k := LastImportEnd(s).value;
      && k <= |s| && NoImportIn(s, k, |s|)
      && exists j | 0 <= j < |s| :: ImportAt(s, j).Some? && ImportAt(s, j).value.end == k
  {
    var f := ImportEnd();
    LastEndFromSpec(f, s, 0, None);
    var r := LastImportEnd(s);
    if r.None? {
      forall k | 0 <= k < |s| ensures ImportAt(s, k).None? {
        assert f(s, k).None?;
      }
    } else {
      forall k | r.value <= k < |s| ensures ImportAt(s, k).None? {
        assert f(s, k).None?;
      }
      var j: nat :| j < |s| && f(s, j) == r;
      assert ImportAt(s, j).Some? && ImportAt(s, j).value.end == r.value;
    }
  }

  /** A text without the letter `i` holds no import at all. */
  lemma NoImportWithoutI(s: string)
    requires forall k | 0 <= k < |s| :: s[k] != 'i'
    ensures NoImportIn(s, 0, |s|) && !HasTranslateImport(s) && LastImportEnd(s).None?
  {
    forall j | 0 <= j <= |s| ensures ImportAt(s, j).None? {
      if ImportAt(s, j).Some? {
        HasAtIndex(s, j, "import", 0);
      }
    }
    LastImportEndSpec(s);
  }

  /** A file that uses `tl(` and has no IMPORT_RE match at all gets the
      import as its first line. */
  lemma ImportPrepended(s: string, rel: string)
    requires Contains(s, "tl(") && NoImportIn(s, 0, |s|)
    ensures EnsureImport(s, rel) == ImportLine(rel) + s
  {
    LastImportEndSpec(s);
    assert !HasTranslateImport(s);
  }

  /** IMPORT_RE's shape at `j`, with the opening quote at `a`, the closing
      quote at `b` and the match ending at `e`: at a line start, `import`,
      whitespace, either quote, a non-empty quote-free path, either quote,
      `;`, whitespace, and a line end. */
  predicate ImportShape(s: string, j: nat, a: nat, b: nat, e: nat) {
    && j + 6 < a && a + 1 < b && b + 2 <= e <= |s|
    && LineStart(s, j) && HasAt(s, j, "import")
    && AllSpace(s[j + 6..a]) && IsQuote(s[a])
    && QuoteFree(s[a + 1..b]) && IsQuote(s[b]) && s[b + 1] == ';'
    && AllSpace(s[b + 2..e]) && LineEnd(s, e)
  }

  /** No line end lies past `e` within the whitespace run from `c`: the
      greedy `\s*` followed by `$` ends at `e`. */
  predicate LastLineEnd(s: string, c: nat, e: nat)
    requires c <= e <= |s|
  {
    forall q | e < q <= |s| && AllSpace(s[c..q]) :: !LineEnd(s, q)
  }

  /** A whitespace run reaches no further than `\s*` does. */
  lemma SpacesWithin(s: string, i: nat, e: nat)
    requires i <= e <= |s| && AllSpace(s[i..e])
    ensures e <= SkipSpaces(s, i)
  {
    var p := SkipSpaces(s, i);
    if p < e {
      SpaceAt(s, i, e, p);
    }
  }

  lemma SpaceAt(s: string, i: nat, e: nat, k: nat)
    requires i <= k < e <= |s| && AllSpace(s[i..e])
    ensures IsSpace(s[k])
  {
    assert s[i..e][k - i] == s[k];
  }

  /** Every IMPORT_RE match has the pattern's shape, with the path between
      the quotes as group 1, and ends at the last line end its trailing
      whitespace reaches. */
  lemma ImportAtSound(s: string, j: nat)
    requires j <= |s| && ImportAt(s, j).Some?
    ensures exists a: nat, b: nat ::
      && ImportShape(s, j, a, b, ImportAt(s, j).value.end)
      && ImportAt(s, j).value.path == s[a + 1..b]
      && LastLineEnd(s, b + 2, ImportAt(s, j).value.end)
  {
    var a, b, p := ImportAtFields(s, j);
    var e := ImportAt(s, j).value.end;
    SpacesPrefix(s, b + 2, e, p);
    BacktrackLast(s, b + 2, e);
    assert ImportShape(s, j, a, b, e);
  }

  /** Where `\s*$` backtracks to, no later line end lies in the whitespace. */
  lemma BacktrackLast(s: string, c: nat, e: nat)
    requires c <= |s| && Backtrack(s, c, SkipSpaces(s, c)) == Some(e)
    ensures LastLineEnd(s, c, e)
  {
    forall q | e < q <= |s| && AllSpace(s[c..q]) ensures !LineEnd(s, q) {
      SpacesWithin(s, c, q);
    }
  }

  /** The offsets IMPORT_RE's parts take in a match at `j`. */
  lemma ImportAtFields(s: string, j: nat) returns (a: nat, b: nat, p: nat)
    requires j <= |s| && ImportAt(s, j).Some?
    ensures LineStart(s, j) && HasAt(s, j, "import")
    ensures a == SkipSpaces(s, j + 6) && j + 6 < a < |s| && IsQuote(s[a])
    ensures QuoteFrom(s, a + 1) == Some(b) && a + 1 < b && b + 1 < |s| && s[b + 1] == ';'
    ensures p == SkipSpaces(s, b + 2) && Backtrack(s, b + 2, p) == Some(ImportAt(s, j).value.end)
    ensures ImportAt(s, j).value.path == s[a + 1..b]
  {
    a := SkipSpaces(s, j + 6);
    b := QuoteFrom(s, a + 1).value;
    p := SkipSpaces(s, b + 2);
  }

  /** A prefix of a whitespace run is one too. */
  lemma SpacesPrefix(s: string, i: nat, e: nat, p: nat)
    requires i <= e <= p <= |s| && AllSpace(s[i..p])
    ensures AllSpace(s[i..e])
  {
    forall k | 0 <= k < e - i ensures IsSpace(s[i..e][k]) {
      assert s[i..e][k] == s[i..p][k];
    }
  }

  /** Every text of IMPORT_RE's shape is matched, with the path between its
      quotes; the match reaches at least as far as the shape, and exactly as
      far when the shape ends at the last line end of its whitespace. */
  lemma ImportAtComplete(s: string, j: nat, a: nat, b: nat, e: nat)
    requires ImportShape(s, j, a, b, e)
    ensures ImportAt(s, j).Some? && ImportAt(s, j).value.path == s[a + 1..b]
    ensures e <= ImportAt(s, j).value.end
    ensures LastLineEnd(s, b + 2, e) ==> ImportAt(s, j).value.end == e
  {
    ShapeOffsets(s, j, a, b, e);
    var p := SkipSpaces(s, b + 2);
    var r := Backtrack(s, b + 2, p).value;
    ImportAtParts(s, j, a, b, r);
    if r > e {
      SpacesPrefix(s, b + 2, r, p);
    }
  }

  /** In a text of IMPORT_RE's shape, the scanners find the shape's quotes,
      and the trailing whitespace run reaches at least its end. */
  lemma ShapeOffsets(s: string, j: nat, a: nat, b: nat, e: nat)
    requires ImportShape(s, j, a, b, e)
    ensures SkipSpaces(s, j + 6) == a && QuoteFrom(s, a + 1) == Some(b)
    ensures e <= SkipSpaces(s, b + 2)
  {
    PrintableNotSpace(s[a]);
    SkipSpacesOver(s, j + 6, s[j + 6..a]);
    forall t | a + 1 <= t < b ensures !IsQuote(s[t]) {
      assert s[t] == s[a + 1..b][t - (a + 1)];
    }
    QuoteFromSkips(s, a + 1, b);
    SpacesWithin(s, b + 2, e);
  }


  /** The line `ensure_import` adds, for the relative path `rel`. */
  function ImportLine(rel: string): string {
    "import '" + rel + "';\n"
  }

  /** `ensure_import` with the relative path computed by the caller. */
  function EnsureImport(s: string, rel: string): string {
    if !Contains(s, "tl(") then s
    else if HasTranslateImport(s) then s
    else match LastImportEnd(s)
      case Some(k) => s[..k] + ImportLine(rel) + s[k..]
      case None => ImportLine(rel) + s
  }

  /** Where `ensure_import` puts the new line. */
  function InsertionPoint(s: string): (k: nat)
    ensures k <= |s|
  {
    LastImportEndSpec(s);
    match LastImportEnd(s)
    case Some(k) => k
    case None => 0
  }

  /** The import is added exactly when `tl(` is used and no import of
      `translate.dart` exists; it is then the one line inserted at the
      insertion point, the rest of the text kept on both sides. */
  lemma EnsureImportChanges(s: string, rel: string)
    ensures EnsureImport(s, rel) != s <==> Contains(s, "tl(") && !HasTranslateImport(s)
    ensures Contains(s, "tl(") && !HasTranslateImport(s) ==>
      var k := InsertionPoint(s); EnsureImport(s, rel) == s[..k] + ImportLine(rel) + s[k..]
  {
    if Contains(s, "tl(") && !HasTranslateImport(s) {
      var k := InsertionPoint(s);
      var r := s[..k] + ImportLine(rel) + s[k..];
      assert |r| == |s| + |ImportLine(rel)|;
      if LastImportEnd(s).None? {
        assert s[..0] + ImportLine(rel) + s[0..] == ImportLine(rel) + s;
      }
    }
  }

  predicate QuoteFree(t: string) {
    forall k | 0 <= k < |t| :: !IsQuote(t[k])
  }

  /** An import line written at the start of a line is an IMPORT_RE match
      whose path is the one written. */
  lemma ImportLineMatches(s: string, k: nat, rel: string)
    requires |rel| > 0 && QuoteFree(rel)
    requires k <= |s| && LineStart(s, k) && HasAt(s, k, ImportLine(rel))
    ensures ImportAt(s, k).Some? && ImportAt(s, k).value.path == rel
  {
    var b := k + 8 + |rel|;
    ImportLineParts(s, k, rel);
    ImportLineHead(s, k);
    ImportLineTail(s, k + 8, rel);
    HasAtSlice(s, k + 8, rel);
    ImportAtParts(s, k, k + 7, b, Backtrack(s, b + 2, SkipSpaces(s, b + 2)).value);
  }

  lemma ImportLineParts(s: string, k: nat, rel: string)
    requires HasAt(s, k, ImportLine(rel))
    ensures HasAt(s, k, "import '") && HasAt(s, k + 8, rel) && HasAt(s, k + 8 + |rel|, "';\n")
  {
    assert ImportLine(rel) == "import '" + (rel + "';\n");
    HasAtSplit(s, k, k + 8, "import '", rel + "';\n");
    HasAtSplit(s, k + 8, k + 8 + |rel|, rel, "';\n");
  }

  /** `import '` is `import`, the one space `\s+` takes, and a quote. */
  lemma ImportLineHead(s: string, k: nat)
    requires HasAt(s, k, "import '")
    ensures HasAt(s, k, "import") && SkipSpaces(s, k + 6) == k + 7 && IsQuote(s[k + 7])
  {
    assert "import '" == "import" + " '";
    HasAtSplit(s, k, k + 6, "import", " '");
    HasAtIndex(s, k + 6, " '", 0);
    HasAtIndex(s, k + 6, " '", 1);
    PrintableNotSpace(s[k + 7]);
    SkipSpacesOver(s, k + 6, " ");
  }

  /** A quote-free path, then `';` and a newline: the closing quote is the
      first one after the path, and `\s*$` succeeds. */
  lemma ImportLineTail(s: string, i: nat, rel: string)
    requires QuoteFree(rel) && HasAt(s, i, rel) && HasAt(s, i + |rel|, "';\n")
    ensures var b := i + |rel|;
      && QuoteFrom(s, i) == Some(b) && b + 1 < |s| && s[b + 1] == ';'
      && Backtrack(s, b + 2, SkipSpaces(s, b + 2)).Some?
  {
    var b := i + |rel|;
    HasAtIndex(s, b, "';\n", 0);
    HasAtIndex(s, b, "';\n", 1);
    HasAtIndex(s, b, "';\n", 2);
    forall t | i <= t < b ensures !IsQuote(s[t]) {
      HasAtIndex(s, i, rel, t - i);
    }
    QuoteFromSkips(s, i, b);
    BacktrackFinds(s, b + 2, SkipSpaces(s, b + 2));
  }

  /** IMPORT_RE at `j`, once the offsets of its parts are known. */
  lemma ImportAtParts(s: string, j: nat, a: nat, b: nat, e: nat)
    requires j <= |s| && LineStart(s, j) && HasAt(s, j, "import")
    requires SkipSpaces(s, j + 6) == a && j + 6 < a < |s| && IsQuote(s[a])
    requires QuoteFrom(s, a + 1) == Some(b) && a + 1 < b && b + 1 < |s| && s[b + 1] == ';'
    requires Backtrack(s, b + 2, SkipSpaces(s, b + 2)) == Some(e)
    ensures ImportAt(s, j) == Some(ImportMatch(s[a + 1..b], e))
  {
  }

  lemma {:induction false} QuoteFromSkips(s: string, i: nat, b: nat)
    requires i <= b < |s| && IsQuote(s[b])
    requires forall t | i <= t < b :: !IsQuote(s[t])
    ensures QuoteFrom(s, i) == Some(b)
    decreases b - i
  {
    if i < b {
      QuoteFromSkips(s, i + 1, b);
    }
  }

  /** `$` at the start of the giving-back range guarantees a match. */
  lemma {:induction false} BacktrackFinds(s: string, c: nat, p: nat)
    requires c <= p <= |s| && LineEnd(s, c)
    ensures Backtrack(s, c, p).Some?
    decreases p - c
  {
    if p > c && !LineEnd(s, p) {
      BacktrackFinds(s, c, p - 1);
    }
  }

  /** A text that starts with the import line of a quote-free path ending
      in `translate.dart` has the import. */
  lemma ImportLeads(v: string, rel: string)
    requires |rel| > 0 && QuoteFree(rel) && EndsWith(rel, "translate.dart")
    ensures HasTranslateImport(ImportLine(rel) + v)
  {
    var s := ImportLine(rel) + v;
    assert HasAt(s, 0, ImportLine(rel));
    ImportLineMatches(s, 0, rel);
    assert TranslateImportAt(s, 0);
  }

  /** Idempotence, under the condition that a new line, when one is added,
      lands at the start of a line: then a second run finds the import it
      added and changes nothing.  The relative path is quote-free and names `translate.dart`. */
  lemma EnsureImportIdempotent(s: string, rel: string)
    requires QuoteFree(rel) && EndsWith(rel, "translate.dart")
    requires Contains(s, "tl(") && !HasTranslateImport(s) ==> LineStart(s, InsertionPoint(s))
    ensures EnsureImport(EnsureImport(s, rel), rel) == EnsureImport(s, rel)
  {
    EnsureImportChanges(s, rel);
    if Contains(s, "tl(") && !HasTranslateImport(s) {
      var k := InsertionPoint(s);
      var t := EnsureImport(s, rel);
      assert t == s[..k] + ImportLine(rel) + s[k..];
      Inserted(s, k, ImportLine(rel));
      assert LineStart(t, k) by {
        if k > 0 {
          assert t[k - 1] == s[k - 1];
        }
      }
      ImportLineMatches(t, k, rel);
      assert TranslateImportAt(t, k);
      assert SearchTranslateImport(t, 0);
    }
  }

  /** Inserting `line` at `k` puts it there and keeps what came before. */
  lemma Inserted(s: string, k: nat, line: string)
    requires k <= |s|
    ensures HasAt(s[..k] + line + s[k..], k, line)
    ensures forall t | 0 <= t < k :: (s[..k] + line + s[k..])[t] == s[t]
  {
    var r := s[..k] + line + s[k..];
    forall t | 0 <= t < |line| ensures r[k + t] == line[t] {
      assert r[k + t] == (s[..k] + line)[k + t];
    }
  }

  /** A line added in the middle of a line does not start a line, so no
      import pattern can see it: this is how a second run can add the import
      again. */
  lemma MidLineNotSeen(s: string, rel: string)
    requires Contains(s, "tl(") && !HasTranslateImport(s)
    requires !LineStart(s, InsertionPoint(s))
    ensures ImportAt(EnsureImport(s, rel), InsertionPoint(s)).None?
  {
    var k := InsertionPoint(s);
    EnsureImportChanges(s, rel);
    var t := EnsureImport(s, rel);
    Inserted(s, k, ImportLine(rel));
    assert t[k - 1] == s[k - 1];
  }

  /** The quirk on a concrete text: an import followed by a newline and then
      code.  `\s*` consumes the newline and `$` is found before it, so the
      match ends right after `;`; the new line is inserted there, mid-line,
      and a second run, finding no import of `translate.dart` at the start
      of a line, inserts it once more. */
  lemma ImportQuirk()
    ensures EnsureImport("import 'a';\ntl(", "translate.dart")
      == "import 'a';import 'translate.dart';\n\ntl("
    ensures EnsureImport("import 'a';import 'translate.dart';\n\ntl(", "translate.dart")
      != "import 'a';import 'translate.dart';\n\ntl("
  {
    QuirkFirstRun("import 'a';\ntl(");
    QuirkSecondRun("import 'a';import 'translate.dart';\n\ntl(");
  }

  lemma QuirkFirstRun(s: string)
    requires s == "import 'a';\ntl("
    ensures EnsureImport(s, "translate.dart") == "import 'a';import 'translate.dart';\n\ntl("
  {
    assert ContainsFrom(s, "tl(", 12) by { assert HasAt(s, 12, "tl("); }
    QuirkImportEnd(s);
    QuirkOnlyImport(s);
    assert !EndsWith("a", "translate.dart");
    assert !HasTranslateImport(s);
    QuirkLastEnd(s);
    assert s[..11] == "import 'a';";
    assert s[11..] == "\ntl(";
    QuirkInserted();
  }

  lemma QuirkLastEnd(s: string)
    requires s == "import 'a';\ntl("
    ensures LastImportEnd(s) == Some(11)
  {
    QuirkImportEnd(s);
    QuirkOnlyImport(s);
    var f := ImportEnd();
    assert f(s, 0) == Some(11);
    assert LastEndFrom(f, s, 15, Some(11)) == Some(11);
    assert LastEndFrom(f, s, 14, Some(11)) == Some(11);
    assert LastEndFrom(f, s, 13, Some(11)) == Some(11);
    assert LastEndFrom(f, s, 12, Some(11)) == Some(11);
    assert LastEndFrom(f, s, 11, Some(11)) == Some(11);
  }

  lemma QuirkInserted()
    ensures "import 'a';" + ImportLine("translate.dart") + "\ntl(" == "import 'a';import 'translate.dart';\n\ntl("
  {
  }

  /** The import of the first text ends at 11, before the newline. */
  lemma QuirkImportEnd(s: string)
    requires s == "import 'a';\ntl("
    ensures ImportAt(s, 0) == Some(ImportMatch("a", 11))
  {
    PrintableNotSpace(s[7]);
    PrintableNotSpace(s[12]);
    assert SkipSpaces(s, 6) == 7;
    assert QuoteFrom(s, 8) == Some(9);
    assert SkipSpaces(s, 11) == 12;
    assert Backtrack(s, 11, 12) == Some(11);
    ImportAtParts(s, 0, 7, 9, 11);
    assert s[8..9] == "a";
  }

  lemma QuirkOnlyImport(s: string)
    requires s == "import 'a';\ntl("
    ensures forall j | 0 < j <= |s| :: ImportAt(s, j).None?
  {
    forall j | 0 < j <= |s| ensures ImportAt(s, j).None? {
      if j == 12 {
        assert s[12] != 'i';
      } else {
        assert s[j - 1] != '\n';
      }
    }
  }

  lemma QuirkSecondRun(t: string)
    requires t == "import 'a';import 'translate.dart';\n\ntl("
    ensures EnsureImport(t, "translate.dart") != t
  {
    assert ContainsFrom(t, "tl(", 37) by { assert HasAt(t, 37, "tl("); }
    QuirkNoLineEnd(t);
    forall j | 0 < j <= |t| ensures ImportAt(t, j).None? {
      QuirkNoLineStart(t, j);
    }
    assert !HasTranslateImport(t);
    EnsureImportChanges(t, "translate.dart");
  }

  /** In the second text the first import is followed by `import`, not by a
      line end, so it is no match. */
  lemma QuirkNoLineEnd(t: string)
    requires t == "import 'a';import 'translate.dart';\n\ntl("
    ensures ImportAt(t, 0).None?
  {
    PrintableNotSpace(t[7]);
    assert SkipSpaces(t, 6) == 7;
    assert QuoteFrom(t, 8) == Some(9);
    QuirkNoSpace(t);
  }

  lemma QuirkNoSpace(t: string)
    requires t == "import 'a';import 'translate.dart';\n\ntl("
    ensures Backtrack(t, 11, SkipSpaces(t, 11)).None?
  {
    PrintableNotSpace(t[11]);
  }

  lemma QuirkNoLineStart(t: string, j: nat)
    requires t == "import 'a';import 'translate.dart';\n\ntl("
    requires 0 < j <= |t|
    ensures ImportAt(t, j).None?
  {
    if j == 36 || j == 37 {
      assert t[j] != 'i';
    } else {
      assert t[j - 1] != '\n';
    }
  }
}
