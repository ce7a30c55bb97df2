# Text localisation tools, modelled in Dafny

Two scripts of a Flutter app's localisation workflow are modelled here.

- `tools/apply_tl.py` rewrites the Dart sources under `lib`. It works in three steps:
  - It wraps string literals passed to `Text(...)` in a call to `tl(...)`.
  - When `tl(` occurs, it drops `const` in front of a fixed list of widgets.
  - When `tl(` occurs, it adds an import of `lib/core/translate.dart` unless the file already has an import, at the start of a line, whose path ends in `translate.dart` (a relative path or a package path such as `package:foo/translate.dart`). The new import goes after the last import, or at the top when there is none.

  The file `lib/core/translate.dart` itself is skipped. The paths of the files that change are collected in traversal order.
- `scripts/translate.py` copies the English translations file, a JSON tree, into eight target languages. Every string leaf is passed through a translation service. A blank string is not sent, and the original text is kept when the service raises. For a file, the keys are counted with `_count_keys`, and the top-level keys are processed one by one.

## Modules

- **Lexical** (`lexical.dfy`): character classes and small scanners shared by the rest.
  - `\s` is Python's `str.isspace`.
  - `\w` is used for `\b`.
- **TextPatterns** (`text_patterns.dfy`): the eight TEXT_PATTERNS.
  - Each regular expression is written as a deterministic scanner (`FindLiteral`).
  - A soundness lemma and a completeness lemma show that the scanner finds exactly the texts of the pattern's shape (`Matched`) after a word boundary.
  - The negative look-ahead `(?!tl\()` is kept as written, but it decides nothing. At the same offset the pattern requires the opening quote, and `t` is not a quote, so `tl(` is already excluded.
  - `WrappedCallNotMatched` shows that a `Text(` followed by `tl(` is not matched, and `WrappedNotMatched` lifts this to texts whose calls are all wrapped.
- **ConstQualifier** (`const_qualifier.dfy`): DROP_CONST_ON, with the same kind of soundness and completeness lemmas.
- **Substitution** (`substitution.dfy`): `re.sub` as the script uses it.
  - Matches are leftmost and do not overlap.
  - The text between matches is copied.
  - `SubSingle`, `WrapOne` and `DropOne` give the result of a text with a single match.
  - `SubIdentity` gives the result of a text with none.
  - `SubStep` gives the general step: the text up to the next match, its replacement, then the substitution from the end of that match.
  - `WrapFound` and `DropFound` connect a match written out in the text to what the matcher reports there.
  - `WrapAbsent` and `DropAbsent` rule out matches where the first character of every match is absent.
- **Imports** (`imports.dfy`): IMPORT_RE, TRANSLATE_IMPORT_ANY, the `finditer` scan that finds the last import, and `ensure_import`.
- **Rewriter** (`rewriter.dfy`): `process_file` (a method whose loop applies the patterns in order) and `main` (a method over the files in traversal order).
- **Rerun** (`rerun.dfy`): two concrete texts on which a second run of the rewrite changes the output of the first.
- **Translation** (`translation.dfy`): the JSON tree, `translate_text`, `translate_value`, `_count_keys` (a loop with a recursive call), and the three methods `translate_file`, `translate_all` and `translate_specific_language`.

### Where an import is inserted

IMPORT_RE ends in `\s*$` under `re.M`. The `\s*` first consumes newlines too. The regex engine then backtracks until `$` holds. `Imports.Backtrack` models this backtracking step by step.

As a result, a match can end just before the newline of the last import line. When the next line is code, the new import is then appended to the end of that import line rather than on a line of its own.

- `Imports.ImportQuirk` proves this on a concrete two-line file.
- The same lemma proves that a second run on that output inserts the import once more, because the inserted import no longer starts a line.
- `Imports.MidLineNotSeen` states the general mechanism.
- `Imports.EnsureImportIdempotent` proves that `ensure_import` is idempotent whenever it adds nothing or its insertion point starts a line.

This is the behaviour of the code as written, and the model keeps it.

### Running the rewrite twice

The rewrite is not idempotent. Both steps that use regular expressions can create matches that were not there before.

- Step 1 can expose a `Text(` that sits inside a string literal. In `Text('Text(')')`, the fifth pattern matches the whole call `Text('Text(')` (offsets 0 to 13). The inner `Text(')')` at offset 6 is a full match of the same pattern as well, but it lies inside the outer match, and `re.sub` does not revisit a span it has replaced. The result is `Text(tl('Text('))')`. In that output, the outer `Text(` is followed by `tl(` and no longer matches, so a second run's scan reaches the inner `Text(`. It wraps the literal `'))'`, giving `Text(tl('Text(tl('))'))`. `Rerun.WrapLiteralsNotIdempotent` proves both runs.
- Step 2 removes text. In `tl(`, newline, `const`, newline, `const Center(`, the first `const` is followed by `const`, so only the second one is dropped. That brings the first `const` next to `Center(`, and a second run drops it too. The first run also adds the import. `Rerun.RewriteNotIdempotent` proves both runs.

What holds instead:

- A file is left unchanged when no TEXT_PATTERNS entry matches in it and, if it uses `tl(`, no listed widget is `const` and `translate.dart` is imported (`Rewriter.RewriteIdle`). Calls such as `Text(name)`, `Text(widget.title)` or `RichText(` match no pattern, so they do not stand in the way. `Rewriter.RewriteFixpoint` is the special case where every `Text(` is followed by `tl(`.
- Step 1 leaves a text unchanged when every `Text(` in it is followed by `tl(` (`Rewriter.WrapLiteralsFixpoint`).
- `ensure_import` is idempotent when it adds nothing, or when the insertion point starts a line (`Imports.EnsureImportIdempotent`).

## Model

| member | source | states |
|---|---|---|
| TextPatterns.FindLiteral | tools/apply_tl.py:10-28 | One TEXT_PATTERNS entry tried at an offset: `\b`, the optional `const` and whitespace, `Text(`, whitespace, the quote, the body, the same quote, whitespace and the closer. A reported literal is well formed and lies within the text. `FindLiteralSound` and `FindLiteralComplete` characterise the match exactly. |
| TextPatterns.FindLiteralSound | tools/apply_tl.py:10-28 | A match reported at an offset is preceded by a word boundary, and the text there is exactly the optional `const` plus whitespace, `Text(`, whitespace, the quoted body, whitespace and the closer. |
| TextPatterns.FindLiteralComplete | tools/apply_tl.py:10-28 | Every text of a pattern's shape after a word boundary is matched, with exactly the parts it is made of. The match is therefore unique and has no other split. |
| TextPatterns.ScanBodyComplete | tools/apply_tl.py:12 | The body grammar `(?:[^q\\]\|\\.)*` followed by the quote ends at exactly one place: the first unescaped quote. |
| TextPatterns.CallStart | tools/apply_tl.py:12-27 | `Text(` is found at the offset itself for the plain patterns. For the const patterns it is found after `const` and at least one whitespace character. |
| TextPatterns.WrappedCallNotMatched | tools/apply_tl.py:12-27 | In any text, where a `Text(` and the whitespace after it are followed by `tl(`, no pattern matches there, whatever the quote, `const` or closer. |
| TextPatterns.WrappedNotMatched | tools/apply_tl.py:12-27 | No pattern matches in a text where every `Text(` is already followed by `tl(`. The required opening quote already excludes `tl(`, so the look-ahead adds nothing. |
| TextPatterns.FindLiteralHead | tools/apply_tl.py:12-27 | Every match starts with `c` (the const patterns) or with `T` (the plain patterns). |
| TextPatterns.PlainBodyIn | tools/apply_tl.py:12 | Text without the quote and without a backslash belongs to the body grammar `(?:[^q\\]\|\\.)*`. |
| ConstQualifier.Alternative | tools/apply_tl.py:32 | The alternation and `\s*\(` at an offset: the name taken is a listed one, occurs there, and is followed by whitespace and `(`. `AlternativeComplete` shows it is the first listed name that fits. |
| ConstQualifier.FindQualified | tools/apply_tl.py:31-33 | DROP_CONST_ON tried at an offset: a reported qualifier is `const`, at least one whitespace character, a listed name and whitespace, and lies within the text. `FindQualifiedSound` and `FindQualifiedComplete` characterise the match exactly. |
| ConstQualifier.FindQualifiedSound | tools/apply_tl.py:31-33 | A reported match is preceded by a word boundary and is `const`, at least one whitespace character, a listed widget name, optional whitespace and `(`. |
| ConstQualifier.FindQualifiedComplete | tools/apply_tl.py:31-33 | Every such text after a word boundary is matched, with exactly its whitespace runs and name. |
| ConstQualifier.AlternativeComplete | tools/apply_tl.py:32 | A listed name followed by whitespace and `(` is the alternative the alternation takes, whatever its position in the list. |
| ConstQualifier.OftenConstNames | tools/apply_tl.py:32 | The eleven widget names of the alternation are non-empty and made of letters only. |
| ConstQualifier.OftenConstCapitals | tools/apply_tl.py:32 | Every widget name of the alternation starts with a capital letter. |
| ConstQualifier.AlternativeNone | tools/apply_tl.py:32 | When no listed name occurs at an offset, the alternation fails there. |
| ConstQualifier.AlternativeNotCapital | tools/apply_tl.py:32 | The alternation fails at a character that is not a capital letter. |
| ConstQualifier.FindQualifiedHead | tools/apply_tl.py:31-33 | Every match starts with the `c` of `const`. |
| ConstQualifier.ConstThenOther | tools/apply_tl.py:31-33 | `const`, one whitespace character, then a character that is neither whitespace nor a capital letter: there is no match. |
| Substitution.SubFrom | tools/apply_tl.py:61 | `re.sub` from an offset: the pattern is tried left to right, a match is replaced and the scan resumes at its end, and any other character is copied. `SubFromCopies`, `SubStep`, `SubSingle` and `SubIdentity` state its behaviour. |
| Substitution.Sub | tools/apply_tl.py:60-65 | `re.sub` of one rule over a whole text, the substitution from offset 0. |
| Substitution.SubFromCopies | tools/apply_tl.py:61 | Text in which no match starts is copied unchanged by the substitution. |
| Substitution.SubIdentity | tools/apply_tl.py:61 | A substitution leaves a text unchanged when the pattern matches nowhere in it. |
| Substitution.SubSingle | tools/apply_tl.py:61 | With a single match, the result is the text before it, the replacement, and the text after it. |
| Substitution.SubStep | tools/apply_tl.py:61 | With no match from offset `i` up to `k` and a match at `k` that ends at `e`, the substitution from `i` is the text from `i` to `k`, the replacement, then the substitution from `e`. |
| Substitution.WrapFound | tools/apply_tl.py:12-27 | A `Text(...)` literal written out after a word boundary is what the pattern's matcher reports there: the match ends after the closer and is replaced by `Text(tl(q body q))` or `Text(tl(q body q),`. |
| Substitution.DropFound | tools/apply_tl.py:31-33 | A `const Name (` written out after a word boundary is what the matcher reports there: the match ends after `(` and is replaced by `Name(`. |
| Substitution.WrapAbsent | tools/apply_tl.py:12-27 | No match of a pattern starts in a range that lacks the pattern's first character. |
| Substitution.DropAbsent | tools/apply_tl.py:31-33 | No DROP_CONST_ON match starts in a range without `c`. |
| Substitution.WrapOne | tools/apply_tl.py:12-27 | A single `Text(...)` literal becomes `Text(tl(q body q))` or `Text(tl(q body q),`. The quote and the body (escapes included) are kept, `const` and the whitespace are dropped, and the text around the match is unchanged. |
| Substitution.DropOne | tools/apply_tl.py:64-65 | A single `const Name (` becomes `Name(`, and the text around it is unchanged. |
| Substitution.WrapFixpoint | tools/apply_tl.py:60-61 | A pattern's substitution leaves a text unchanged when every `Text(` in it is already wrapped. |
| Substitution.WrapNeedsCall | tools/apply_tl.py:60-61 | A pattern's substitution leaves a text without `Text(` unchanged. |
| Substitution.DropNeedsConst | tools/apply_tl.py:64-65 | The const-dropping substitution leaves a text without `const` unchanged. |
| Imports.QuoteFrom | tools/apply_tl.py:35 | Finds the first quote from an offset, or reports that there is none. |
| Imports.Backtrack | tools/apply_tl.py:35 | `\s*$` under `re.M`: the largest offset in the whitespace run at which a line ends, or none. |
| Imports.ImportAt | tools/apply_tl.py:35 | An IMPORT_RE match is non-empty, stays in the text and ends where a line ends. |
| Imports.ImportAtSound | tools/apply_tl.py:35 | Every IMPORT_RE match starts a line and reads `import`, at least one whitespace character, either quote, a non-empty quote-free path (group 1), either quote, `;` and whitespace. It ends at a line end, and no later line end lies within that whitespace run. |
| Imports.ImportAtComplete | tools/apply_tl.py:35 | Every text of that shape at a line start is matched, with the path between its quotes, whichever quotes and whitespace it uses. The match reaches at least as far as the shape. It reaches exactly as far when the shape ends at the last line end its whitespace run reaches. |
| Imports.TranslateImportAt | tools/apply_tl.py:36 | TRANSLATE_IMPORT_ANY at an offset: an IMPORT_RE match whose quote-free path ends in `translate.dart`. |
| Imports.HasTranslateImport | tools/apply_tl.py:43 | `TRANSLATE_IMPORT_ANY.search(src)`: the search from offset 0, characterised by `SearchTranslateImport`. |
| Imports.SearchTranslateImport | tools/apply_tl.py:36 | TRANSLATE_IMPORT_ANY is found exactly when some offset starts an import whose path ends in `translate.dart`. |
| Imports.LastImportEnd | tools/apply_tl.py:48-50 | `imports[-1].end()`: a left-to-right scan for IMPORT_RE that resumes at the end of each match and keeps the last end, or none when there is no match. `LastImportEndSpec` states what it reports. When two IMPORT_RE matches overlap, which needs a quoted path that spans a newline, that statement allows either end, and only this definition fixes the one the scan reaches by resuming at each match's end. |
| Imports.LastImportEndSpec | tools/apply_tl.py:48-50 | `imports[-1].end()` is the end of a real import match, and no import match starts at or after it. With no import, there is no match at all. |
| Imports.InsertionPoint | tools/apply_tl.py:48-53 | The insertion offset lies within the text. |
| Imports.EnsureImport | tools/apply_tl.py:38-53 | `ensure_import`: no change without `tl(` or with a translate import; otherwise the import line after the last import, or at the start when there is none. `EnsureImportChanges` states when and how the text changes. |
| Imports.EnsureImportChanges | tools/apply_tl.py:38-53 | The text changes if and only if it contains `tl(` and has no import of `translate.dart`. The change is exactly `import '<rel>';` plus a newline, inserted at the insertion point. |
| Imports.ImportLineMatches | tools/apply_tl.py:35-47 | An import line written at a line start is itself matched by IMPORT_RE with the same path. |
| Imports.ImportLeads | tools/apply_tl.py:36-47 | A text that starts with the import line of a quote-free path ending in `translate.dart` is found by TRANSLATE_IMPORT_ANY. |
| Imports.NoImportWithoutI | tools/apply_tl.py:35-36 | A text without `i` has no IMPORT_RE match at any offset and no TRANSLATE_IMPORT_ANY match. |
| Imports.ImportPrepended | tools/apply_tl.py:38-53 | A text that contains `tl(` and in which IMPORT_RE matches nowhere gets the import line at its start. |
| Imports.EnsureImportIdempotent | tools/apply_tl.py:38-53 | A second `ensure_import` changes nothing when the relative path is quote-free and ends in `translate.dart`, provided that the first run adds nothing or its insertion point starts a line. |
| Imports.MidLineNotSeen | tools/apply_tl.py:35-51 | When the insertion point is not at a line start, the inserted import is not seen as an import afterwards. |
| Imports.ImportQuirk | tools/apply_tl.py:35-53 | For `import 'a';` plus a newline followed by `tl(`, the import lands on the same line as the existing one, and a second run inserts it again. |
| Rewriter.TextRules | tools/apply_tl.py:10-28 | The substitutions of step 1 are the eight patterns, in their listed order. |
| Rewriter.WrapLiterals | tools/apply_tl.py:59-61 | Step 1: the eight substitutions of `TextRules`, each applied to the output of the one before. |
| Rewriter.DropConsts | tools/apply_tl.py:63-65 | Step 2: the DROP_CONST_ON substitution, applied only when `tl(` occurs (`DropConstsGate`). |
| Rewriter.Rewrite | tools/apply_tl.py:55-68 | The new contents of a file: step 1, then step 2, then `ensure_import`. `ProcessFile` computes it; `RewriteIdle` and `RewriteNoCall` state when it changes nothing, and `Rerun.RewriteNotIdempotent` shows that a second run can change it again. |
| Rewriter.ProcessFile | tools/apply_tl.py:55-73 | The new contents are step 1, then step 2 (only when `tl(` occurs), then `ensure_import`. The file is reported as changed if and only if the new contents differ from the old. |
| Rewriter.WrapRulesFixpoint | tools/apply_tl.py:59-61 | Any sequence of wrapping substitutions leaves a text whose `Text(` calls are all wrapped unchanged. |
| Rewriter.WrapRulesNeedCall | tools/apply_tl.py:59-61 | Any sequence of wrapping substitutions leaves a text without `Text(` unchanged. |
| Rewriter.WrapLiteralsFixpoint | tools/apply_tl.py:59-61 | Step 1 leaves a text unchanged when every `Text(` in it is followed by `tl(`. |
| Rewriter.ApplyRulesIdentity | tools/apply_tl.py:59-61 | A sequence of substitutions none of which matches leaves the text unchanged. |
| Rewriter.ApplyRulesAppend | tools/apply_tl.py:59-61 | Applying two sequences of substitutions one after the other is applying their concatenation. |
| Rewriter.DropConstsGate | tools/apply_tl.py:63-65 | Without `tl(`, step 2 changes nothing. With `tl(`, a single `const Name (` of a listed widget becomes `Name(` and the rest of the text is unchanged. |
| Rewriter.RewriteNoCall | tools/apply_tl.py:55-73 | A file in which no TEXT_PATTERNS entry matches and which does not contain `tl(` is not changed. The second condition is needed: a file that already calls `tl(` without the import gets the import. |
| Rewriter.RewriteIdle | tools/apply_tl.py:55-73 | A file is not changed when no TEXT_PATTERNS entry matches in it and, where it contains `tl(`, DROP_CONST_ON matches nowhere and `translate.dart` is imported. |
| Rewriter.RewriteFixpoint | tools/apply_tl.py:55-73 | A file is not changed when every `Text(` in it is followed by `tl(`, DROP_CONST_ON matches nowhere, and `translate.dart` is imported whenever `tl(` occurs. |
| Rewriter.RunOne | tools/apply_tl.py:77-85 | `translate.dart` keeps its contents and is not reported. Any other file gets the rewritten contents and is reported exactly when they differ. |
| Rewriter.RunRewriter | tools/apply_tl.py:75-89 | Each file's contents after the run, and the changed paths in traversal order. |
| Rewriter.ChangedPathsSpec | tools/apply_tl.py:76-83 | A path is reported if and only if some file with that path, other than `translate.dart`, changes. |
| Rewriter.TranslateNeverChanged | tools/apply_tl.py:78-80 | `lib/core/translate.dart` is never rewritten and never reported. |
| Rerun.WrapIdleWithoutT | tools/apply_tl.py:59-61 | Step 1 leaves a text without `T` unchanged. |
| Rerun.WrapLiteralsVia | tools/apply_tl.py:59-61 | Step 1 on a text where the const patterns match nothing and the last three patterns match nothing in the output of the fifth is that output. |
| Rerun.WrapLiteralsNotIdempotent | tools/apply_tl.py:59-61 | Step 1 turns `Text('Text(')')` into `Text(tl('Text('))')`, and a second run turns that into `Text(tl('Text(tl('))'))`. |
| Rerun.RewriteNotIdempotent | tools/apply_tl.py:55-68 | The rewrite turns `tl(`, newline, `const`, newline, `const Center(` into the import line followed by `tl(`, newline, `const`, newline, `Center(`. A second run turns that into the import line followed by `tl(`, newline, `Center(`. |
| Rerun.RewriteKeepsImport | tools/apply_tl.py:55-68 | When step 1 changes nothing and the output of step 2 already imports `translate.dart`, the rewrite returns the output of step 2. |
| Translation.TranslateText | scripts/translate.py:45-57 | A blank text is returned unchanged. Otherwise the result is the service's answer, or the original text when the service raises. |
| Translation.BlankNotSent | scripts/translate.py:47-48 | A blank text gives the same result whatever the service would answer. |
| Translation.TranslateValue | scripts/translate.py:59-68 | `translate_value`: a string is translated, an object is rebuilt key by key and an array item by item, any other value is returned as it is. `TranslateKeepsShape`, `TranslateStrings` and `OnlyLeavesSent` state its properties. |
| Translation.TranslateKeepsShape | scripts/translate.py:59-68 | Translation keeps the tree's shape: the same kinds of node, the same keys in the same order, the same array lengths, and the same non-string leaves. |
| Translation.TranslateStrings | scripts/translate.py:59-68 | The string leaves of the result are the translations of the source's string leaves, in the same order. |
| Translation.OnlyLeavesSent | scripts/translate.py:59-68 | The service is consulted only about non-blank string leaves: two services that agree on those give the same tree. |
| Translation.KeyCount | scripts/translate.py:89-99 | The key count as a specification: a nested object counts its own keys this way, an array its length, any other value 1. `CountKeys` computes it and `FlatCount` and `TranslateKeepsCount` are about it. |
| Translation.CountKeys | scripts/translate.py:89-99 | The loop computes the key count: a nested object counts its own keys, an array its length, and any other value 1. |
| Translation.FlatCount | scripts/translate.py:89-99 | An object without nested objects or arrays counts exactly its keys. |
| Translation.TranslateKeepsCount | scripts/translate.py:89-99 | A translated file has the same key count as its source. |
| Translation.Put | scripts/translate.py:83 | Assigning a key that is not yet in the dict appends it at the end. |
| Translation.TranslateFile | scripts/translate.py:70-87 | The result holds every top-level key in source order with its translated value. The total is the key count, and the processed counter equals the number of top-level keys. |
| Translation.TranslateAll | scripts/translate.py:112-135 | One translation of the source per target language, in the order of TARGET_LANGUAGES. |
| Translation.TranslateSpecificLanguage | scripts/translate.py:137-150 | An unsupported code is refused with nothing translated. A supported code gives the translation into that language. |

## Left out

- File I/O is not modelled. This covers reading and writing the Dart files, `rglob` and its traversal order (the files are a parameter, in traversal order), and loading and saving the JSON files (the source tree is a parameter).
- Per-file error handling in `main` and per-language error handling in `translate_all` are not modelled: the modelled steps raise nothing.
- The relative path from a file to `lib/core/translate.dart` (`os.path.relpath`) is a parameter of the rewrite, not computed.
- Console output is not modelled. This covers the progress lines, the summary of changed files and the `--list` option of `main` (command-line arguments are not modelled).
- `\b` treats only ASCII letters, digits and `_` as word characters. Python's `\w` on `str` also accepts non-ASCII letters and digits.
- The translation service (googletrans), `time.sleep` and `asyncio.sleep` are not modelled. The service is a deterministic function parameter that either answers or raises.
- JSON numbers are modelled as integers. They are only copied, so floating-point values are not otherwise represented.
- JSON text with a repeated key is not modelled. `json.load` keeps the last value at the first key's position. `Translation.TranslateFile` therefore requires unique keys, which every Python dict has.
- `_count_keys` is called without `await` in `translate_file` (scripts/translate.py:75), so at run time `total_keys` is a coroutine object and only the progress messages show it. The model gives the count the code evidently intends.
- `load_source_file` is synchronous but awaited in `translate_specific_language` (scripts/translate.py:146). Awaiting its dict raises `TypeError` at run time for every supported code. The model gives the behaviour the code evidently intends.
- Imports.EnsureImportIdempotent: idempotence is proved only when the first run adds nothing or its insertion point starts a line. Without that condition it does not hold, as `Imports.ImportQuirk` shows.
- Rewriter.Rewrite: no idempotence is claimed, because it does not hold. Steps 1 and 2 can both create new matches, as `Rerun.WrapLiteralsNotIdempotent` and `Rerun.RewriteNotIdempotent` show. The model proves the fixed points instead (`Rewriter.RewriteIdle`, `Rewriter.RewriteFixpoint`, `Rewriter.WrapLiteralsFixpoint`).
