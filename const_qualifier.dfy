/** DROP_CONST_ON of tools/apply_tl.py: a `const` qualifier, whitespace, one
    of a fixed list of widget names, optional whitespace and `(`.  The
    substitution keeps only the name and the parenthesis. */
module ConstQualifier {
  import opened Lexical

  /** The alternation, in the order the pattern lists it. */
  const OftenConst: seq<string> := [
    "Center", "AppBar", "PopupMenuItem", "SnackBar", "AlertDialog", "ListTile",
    "SwitchListTile", "CheckboxListTile", "ElevatedButton", "TextButton", "OutlinedButton"
  ]

  predicate IsLetter(c: char) {
    ('a' <= c && c <= 'z') || ('A' <= c && c <= 'Z')
  }

  /** A widget name: letters only, at least one of them. */
  predicate IsName(n: string) {
    |n| > 0 && forall k | 0 <= k < |n| :: IsLetter(n[k])
  }

  lemma LetterNotSpace(c: char)
    requires IsLetter(c)
    ensures !IsSpace(c) && c != '('
  {
  }

  predicate AllNames(names: seq<string>) {
    forall n | n in names :: IsName(n)
  }

  lemma OftenConstNames()
    ensures AllNames(OftenConst)
  {
    forall k | 0 <= k < |OftenConst| ensures IsName(OftenConst[k]) {
    }
  }

  /** The parts of one match: the whitespace after `const`, the name, and the
      whitespace before `(`. */
  datatype Qualified = Qualified(space: string, name: string, gap: string)

  /** The text a match covers. */
  function QualifiedText(q: Qualified): string {
    "const" + (q.space + (q.name + (q.gap + "(")))
  }

  /** A match of the pattern whose alternation lists `names`. */
  predicate WellFormed(names: seq<string>, q: Qualified) {
    |q.space| > 0 && AllSpace(q.space) && q.name in names && AllSpace(q.gap)
  }

  /** The substitution `\1(`. */
  function Replacement(q: Qualified): string {
    q.name + "("
  }

  /** `(Names)\s*\(` at offset `j`: the first name of `names`, in order, that
      occurs at `j` and is followed by whitespace and `(`, with the offset of
      that parenthesis. */
  function Alternative(s: string, j: nat, names: seq<string>): (r: Option<(string, nat)>)
    requires j <= |s|
    ensures r.Some? ==> var (n, o) := r.value;
      && n in names && HasAt(s, j, n) && j + |n| <= o < |s| && s[o] == '(' && AllSpace(s[j + |n|..o])
  {
    if names == [] then None
    else
      var n := names[0];
      if HasAt(s, j, n) && SkipSpaces(s, j + |n|) < |s| && s[SkipSpaces(s, j + |n|)] == '(' then
        Some((n, SkipSpaces(s, j + |n|)))
      else Alternative(s, j, names[1..])
  }

  /** The pattern tried at offset `i`: `\b`, `const`, `\s+`, then the
      alternation. */
  function FindQualified(names: seq<string>, s: string, i: nat): (r: Option<Qualified>)
    requires i <= |s|
    ensures r.Some? ==> WellFormed(names, r.value) && i + |QualifiedText(r.value)| <= |s|
  {
    if !Boundary(s, i) || !HasAt(s, i, "const") then None
    else
      var j := SkipSpaces(s, i + 5);
      if j == i + 5 then None
      else match Alternative(s, j, names)
        case None => None
        case Some((n, o)) =>
          Some(Qualified(s[i + 5..j], n, s[j + |n|..o]))
  }

  /** Soundness: what FindQualified reports is there, after a word boundary. */
  lemma FindQualifiedSound(names: seq<string>, s: string, i: nat)
    requires i <= |s| && FindQualified(names, s, i).Some?
    ensures Boundary(s, i) && HasAt(s, i, QualifiedText(FindQualified(names, s, i).value))
  {
    var q := FindQualified(names, s, i).value;
    var j := SkipSpaces(s, i + 5);
    var o := Alternative(s, j, names).value.1;
    QualifiedTextAt(s, i, j, o, q);
  }

  lemma QualifiedTextAt(s: string, i: nat, j: nat, o: nat, q: Qualified)
    requires HasAt(s, i, "const") && i + 5 <= j && HasAt(s, j, q.name) && j + |q.name| <= o < |s|
    requires q.space == s[i + 5..j] && q.gap == s[j + |q.name|..o] && s[o] == '('
    ensures HasAt(s, i, QualifiedText(q))
  {
    var m := j + |q.name|;
    HasAtJoin(s, m, o, q.gap, "(");
    HasAtJoin(s, j, m, q.name, q.gap + "(");
    HasAtJoin(s, i + 5, j, q.space, q.name + (q.gap + "("));
    HasAtJoin(s, i, i + 5, "const", q.space + (q.name + (q.gap + "(")));
  }

  lemma LetterAt(s: string, j: nat, n: string, k: nat)
    requires IsName(n) && HasAt(s, j, n)
    ensures k < |n| ==> IsLetter(s[j + k])
  {
    if k < |n| {
      HasAtIndex(s, j, n, k);
    }
  }

  /** Two names that both occur at `j`, each followed by a character that is
      not a letter, are the same name. */
  lemma SameNameAt(s: string, j: nat, n: string, m: string)
    requires IsName(n) && IsName(m) && HasAt(s, j, n) && HasAt(s, j, m)
    requires j + |n| < |s| && !IsLetter(s[j + |n|])
    requires j + |m| < |s| && !IsLetter(s[j + |m|])
    ensures n == m
  {
    LetterAt(s, j, m, |n|);
    LetterAt(s, j, n, |m|);
    HasAtSlice(s, j, n);
    HasAtSlice(s, j, m);
  }

  /** A listed name followed by whitespace and `(` is the alternative taken,
      whatever its position in the list. */
  lemma {:induction false} AlternativeComplete(s: string, j: nat, names: seq<string>, n: string, w: string)
    requires j <= |s| && AllNames(names)
    requires n in names && HasAt(s, j, n + (w + "(")) && AllSpace(w)
    ensures Alternative(s, j, names) == Some((n, j + |n| + |w|))
  {
    NameThenCall(s, j, n, w);
    if names[0] != n {
      OtherNameFails(s, j, names[0], n);
      AlternativeComplete(s, j, names[1..], n, w);
    }
  }

  /** A name followed by whitespace and `(`, split into what the alternation
      looks at. */
  lemma NameThenCall(s: string, j: nat, n: string, w: string)
    requires HasAt(s, j, n + (w + "(")) && AllSpace(w)
    ensures HasAt(s, j, n) && SkipSpaces(s, j + |n|) == j + |n| + |w|
    ensures j + |n| + |w| < |s| && s[j + |n| + |w|] == '('
    ensures j + |n| < |s| && !IsLetter(s[j + |n|])
  {
    var o := j + |n| + |w|;
    HasAtSplit(s, j, j + |n|, n, w + "(");
    HasAtSplit(s, j + |n|, o, w, "(");
    HasAtIndex(s, o, "(", 0);
    if |w| > 0 {
      HasAtIndex(s, j + |n|, w, 0);
    }
    SkipSpacesOver(s, j + |n|, w);
  }

  /** Where one name is followed by a non-letter, no other name is followed
      by whitespace and `(`. */
  lemma OtherNameFails(s: string, j: nat, m: string, n: string)
    requires IsName(m) && IsName(n) && m != n && HasAt(s, j, n)
    requires j + |n| < |s| && !IsLetter(s[j + |n|])
    ensures !(HasAt(s, j, m) && SkipSpaces(s, j + |m|) < |s| && s[SkipSpaces(s, j + |m|)] == '(')
  {
    if HasAt(s, j, m) && SkipSpaces(s, j + |m|) < |s| && s[SkipSpaces(s, j + |m|)] == '(' {
      var p := SkipSpaces(s, j + |m|);
      assert j + |m| < |s| && !IsLetter(s[j + |m|]) by {
        if p > j + |m| {
          assert s[j + |m|] == s[j + |m|..p][0];
        }
      }
      SameNameAt(s, j, n, m);
    }
  }

  /** Completeness: every well-formed qualifier after a word boundary is
      found, with exactly these parts. */
  lemma FindQualifiedComplete(names: seq<string>, s: string, i: nat, q: Qualified)
    requires AllNames(names) && WellFormed(names, q)
    requires i <= |s| && Boundary(s, i) && HasAt(s, i, QualifiedText(q))
    ensures FindQualified(names, s, i) == Some(q)
  {
    var j: nat := i + 5 + |q.space|;
    var o: nat := j + |q.name| + |q.gap|;
    QualifiedTextParts(names, s, i, q);
    AlternativeComplete(s, j, names, q.name, q.gap);
    assert Qualified(s[i + 5..j], q.name, s[j + |q.name|..o]) == q;
    FindQualifiedAt(names, s, i, j, q.name, o);
  }

  /** The text of a qualifier, once found at `i`, is split back into its
      parts. */
  lemma QualifiedTextParts(names: seq<string>, s: string, i: nat, q: Qualified)
    requires AllNames(names) && WellFormed(names, q) && HasAt(s, i, QualifiedText(q))
    ensures var j := i + 5 + |q.space|;
      && HasAt(s, i, "const") && SkipSpaces(s, i + 5) == j && s[i + 5..j] == q.space
      && HasAt(s, j, q.name + (q.gap + "(")) && s[j + |q.name|..j + |q.name| + |q.gap|] == q.gap
  {
    var j := i + 5 + |q.space|;
    HasAtSplit(s, i, i + 5, "const", q.space + (q.name + (q.gap + "(")));
    HasAtSplit(s, i + 5, j, q.space, q.name + (q.gap + "("));
    HasAtSplit(s, j, j + |q.name|, q.name, q.gap + "(");
    HasAtIndex(s, j, q.name, 0);
    LetterNotSpace(q.name[0]);
    SkipSpacesOver(s, i + 5, q.space);
    HasAtSlice(s, i + 5, q.space);
    HasAtSplit(s, j + |q.name|, j + |q.name| + |q.gap|, q.gap, "(");
    HasAtSlice(s, j + |q.name|, q.gap);
  }

  /** FindQualified, once the end of the whitespace after `const` and the
      alternative are known. */
  lemma FindQualifiedAt(names: seq<string>, s: string, i: nat, j: nat, n: string, o: nat)
    requires i <= |s| && Boundary(s, i) && HasAt(s, i, "const")
    requires SkipSpaces(s, i + 5) == j && j > i + 5 && j + |n| <= o
    requires Alternative(s, j, names) == Some((n, o))
    ensures FindQualified(names, s, i) == Some(Qualified(s[i + 5..j], n, s[j + |n|..o]))
  {
  }

  /** A match starts with `const`. */
  lemma FindQualifiedHead(names: seq<string>, s: string, i: nat)
    requires i <= |s| && FindQualified(names, s, i).Some?
    ensures i < |s| && s[i] == 'c'
  {
    HasAtIndex(s, i, "const", 0);
  }

  /** Where no listed name occurs, the alternation fails. */
  lemma {:induction false} AlternativeNone(s: string, j: nat, names: seq<string>)
    requires j <= |s| && forall n | n in names :: !HasAt(s, j, n)
    ensures Alternative(s, j, names).None?
  {
    if names != [] {
      AlternativeNone(s, j, names[1..]);
    }
  }

  /** Every listed widget name starts with a capital letter. */
  lemma OftenConstCapitals()
    ensures forall n | n in OftenConst :: |n| > 0 && 'A' <= n[0] <= 'Z'
  {
    forall k | 0 <= k < |OftenConst| ensures |OftenConst[k]| > 0 && 'A' <= OftenConst[k][0] <= 'Z' {
    }
  }

  /** Every listed name starts with a capital, so none of them starts at a
      character that is not one. */
  lemma AlternativeNotCapital(s: string, j: nat)
    requires j < |s| && !('A' <= s[j] <= 'Z')
    ensures Alternative(s, j, OftenConst).None?
  {
    OftenConstCapitals();
    forall n | n in OftenConst ensures !HasAt(s, j, n) {
      assert s[j] != n[0];
    }
    AlternativeNone(s, j, OftenConst);
  }

  /** `const`, one whitespace character, then neither whitespace nor a
      capital: no listed name follows, so there is no match. */
  lemma ConstThenOther(s: string, i: nat)
    requires i + 6 < |s| && IsSpace(s[i + 5]) && !IsSpace(s[i + 6]) && !('A' <= s[i + 6] <= 'Z')
    ensures FindQualified(OftenConst, s, i).None?
  {
    assert SkipSpaces(s, i + 5) == i + 6;
    AlternativeNotCapital(s, i + 6);
  }
}
