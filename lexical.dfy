/** Character classes and small scanners shared by the rewriter's patterns.
    Each scanner stands for one building block of the rewriter's regular
    expressions (`\s`, `\s*`, `\b`, substring search) as a deterministic
    function. */
module Lexical {

  datatype Option<T> = None | Some(value: T)

  /** `\s` in a Python str pattern, which is also the set str.strip() removes:
      the characters for which str.isspace() holds. */
  const SpaceChars: set<char> := {
    ' ', '\t', '\n', '\r', '\U{0B}', '\U{0C}', '\U{1C}', '\U{1D}', '\U{1E}', '\U{1F}',
    '\U{85}', '\U{A0}', '\U{1680}', '\U{2000}', '\U{2001}', '\U{2002}', '\U{2003}', '\U{2004}',
    '\U{2005}', '\U{2006}', '\U{2007}', '\U{2008}', '\U{2009}', '\U{200A}', '\U{2028}', '\U{2029}',
    '\U{202F}', '\U{205F}', '\U{3000}'
  }

  predicate IsSpace(c: char) {
    c in SpaceChars
  }

  /** No printable ASCII character is whitespace. */
  lemma PrintableNotSpace(c: char)
    requires '!' <= c <= '~'
    ensures !IsSpace(c)
  {
  }

  /** `\w`, restricted to ASCII: letters, digits and the underscore. */
  predicate IsWordChar(c: char) {
    ('a' <= c && c <= 'z') || ('A' <= c && c <= 'Z') || ('0' <= c && c <= '9') || c == '_'
  }

  predicate AllSpace(w: string) {
    forall k | 0 <= k < |w| :: IsSpace(w[k])
  }

  /** `lit` occurs in `s` at offset `i`. */
  predicate HasAt(s: string, i: nat, lit: string) {
    i + |lit| <= |s| && forall k | 0 <= k < |lit| :: s[i + k] == lit[k]
  }

  /** `\b` in front of a word character at offset `i`: nothing, or a non-word
      character, comes before it. */
  predicate Boundary(s: string, i: nat)
    requires i <= |s|
  {
    i == 0 || !IsWordChar(s[i - 1])
  }

  /** `\s*` from offset `i`: the end of the longest run of whitespace there. */
  function SkipSpaces(s: string, i: nat): (j: nat)
    requires i <= |s|
    ensures i <= j <= |s|
    ensures AllSpace(s[i..j])
    ensures j == |s| || !IsSpace(s[j])
    decreases |s| - i
  {
    if i < |s| && IsSpace(s[i]) then SkipSpaces(s, i + 1) else i
  }

  /** A whitespace run followed by a non-space character (or the end) is exactly
      what `\s*` consumes. */
  lemma SkipSpacesOver(s: string, i: nat, w: string)
    requires HasAt(s, i, w) && AllSpace(w)
    requires i + |w| == |s| || !IsSpace(s[i + |w|])
    ensures SkipSpaces(s, i) == i + |w|
    decreases |w|
  {
    if w != [] {
      HasAtIndex(s, i, w, 0);
      assert HasAt(s, i + 1, w[1..]) by {
        forall k | 0 <= k < |w| - 1 ensures s[i + 1 + k] == w[1..][k] {
          HasAtIndex(s, i, w, k + 1);
        }
      }
      SkipSpacesOver(s, i + 1, w[1..]);
    }
  }

  lemma HasAtSlice(s: string, i: nat, lit: string)
    requires HasAt(s, i, lit)
    ensures s[i..i + |lit|] == lit
  {
  }

  lemma HasAtIndex(s: string, i: nat, lit: string, k: nat)
    requires HasAt(s, i, lit) && k < |lit|
    ensures s[i + k] == lit[k]
  {
  }

  /** Python's `lit in s`, looking at offsets from `i` on. */
  function ContainsFrom(s: string, lit: string, i: nat): (r: bool)
    requires i <= |s|
    ensures r <==> exists j: nat | i <= j :: HasAt(s, j, lit)
    decreases |s| - i
  {
    if HasAt(s, i, lit) then true
    else if i == |s| then false
    else ContainsFrom(s, lit, i + 1)
  }

  predicate Contains(s: string, lit: string) {
    ContainsFrom(s, lit, 0)
  }

  /** Two texts that occur one right after the other form their
      concatenation. */
  lemma HasAtJoin(s: string, i: nat, j: nat, x: string, y: string)
    requires HasAt(s, i, x) && j == i + |x| && HasAt(s, j, y)
    ensures HasAt(s, i, x + y)
  {
    forall k | 0 <= k < |x + y| ensures s[i + k] == (x + y)[k] {
      if k < |x| {
        HasAtIndex(s, i, x, k);
      } else {
        HasAtIndex(s, j, y, k - |x|);
      }
    }
  }

  /** A concatenation occurs only where its halves occur one after the other. */
  lemma HasAtSplit(s: string, i: nat, j: nat, x: string, y: string)
    requires HasAt(s, i, x + y) && j == i + |x|
    ensures HasAt(s, i, x) && HasAt(s, j, y)
  {
    forall k | 0 <= k < |x| ensures s[i + k] == x[k] {
      HasAtIndex(s, i, x + y, k);
    }
    forall k | 0 <= k < |y| ensures s[j + k] == y[k] {
      HasAtIndex(s, i, x + y, |x| + k);
    }
  }

  /** Where the first character of `lit` does not occur, `lit` does not
      occur either. */
  lemma AbsentHead(s: string, lit: string)
    requires |lit| > 0 && forall k | 0 <= k < |s| :: s[k] != lit[0]
    ensures !Contains(s, lit)
  {
    forall j: nat | HasAt(s, j, lit) ensures false {
      HasAtIndex(s, j, lit, 0);
    }
  }
}
