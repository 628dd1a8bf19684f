/**
 The string normalisation applied to every table name, column name and remark
 before it is stored or looked up: lower-case it, trim it, and replace every run
 of two or more spaces by a single space.
 */
module Text {

  /* ---------------------------------------------------------------- */
  /* Characters                                                        */
  /* ---------------------------------------------------------------- */

  predicate IsUpper(c: char) {
    'A' <= c <= 'Z'
  }

  /** Characters that String.trim() removes: every code point up to U+0020. */
  predicate IsTrimmable(c: char) {
    c <= ' '
  }

  function ToLowerChar(c: char): (r: char)
    ensures !IsUpper(r)
    ensures IsTrimmable(r) <==> IsTrimmable(c)
    ensures !IsUpper(c) ==> r == c
    ensures IsUpper(c) ==> r as int == c as int + 32
  {
    if IsUpper(c) then (c as int + 32) as char else c
  }

  /* ---------------------------------------------------------------- */
  /* Properties of a cleaned string                                   */
  /* ---------------------------------------------------------------- */

  predicate NoUpper(s: string) {
    forall i :: 0 <= i < |s| ==> !IsUpper(s[i])
  }

  predicate NoDoubleSpace(s: string) {
    forall i :: 0 <= i < |s| - 1 ==> !(s[i] == ' ' && s[i + 1] == ' ')
  }

  /** Neither end of the string is a character that trim() would remove. */
  predicate NoEdgeWhitespace(s: string) {
    s == [] || (!IsTrimmable(s[0]) && !IsTrimmable(s[|s| - 1]))
  }

  predicate AllTrimmable(s: string) {
    forall i :: 0 <= i < |s| ==> IsTrimmable(s[i])
  }

  /** What every output of Clean looks like. */
  predicate IsClean(s: string) {
    NoUpper(s) && NoEdgeWhitespace(s) && NoDoubleSpace(s)
  }

  /** The string with every space removed; collapsing spaces does not change it. */
  function WithoutSpaces(s: string): string {
    if s == [] then []
    else (if s[0] == ' ' then [] else [s[0]]) + WithoutSpaces(s[1..])
  }

  /* ---------------------------------------------------------------- */
  /* The three steps                                                  */
  /* ---------------------------------------------------------------- */

  /** String.toLowerCase(), restricted to ASCII letters. */
  function ToLowerCase(s: string): string {
    if s == [] then [] else [ToLowerChar(s[0])] + ToLowerCase(s[1..])
  }

  /** The leading half of String.trim(). */
  function TrimStart(s: string): string {
    if s != [] && IsTrimmable(s[0]) then TrimStart(s[1..]) else s
  }

  /** The trailing half of String.trim(). */
  function TrimEnd(s: string): string {
    if s != [] && IsTrimmable(s[|s| - 1]) then TrimEnd(s[..|s| - 1]) else s
  }

  /** String.trim(): strips every leading and trailing character up to U+0020. */
  function Trim(s: string): string {
    TrimEnd(TrimStart(s))
  }

  /** replaceAll("  +", " "): every run of two or more spaces becomes one space. */
  function CollapseSpaces(s: string): string {
    if |s| < 2 then s
    else if s[0] == ' ' && s[1] == ' ' then CollapseSpaces(s[1..])
    else [s[0]] + CollapseSpaces(s[1..])
  }

  /** The `clean` helper: lower-case, trim, then collapse runs of spaces. */
  function Clean(s: string): (r: string)
    ensures IsClean(r)
    ensures r == [] <==> AllTrimmable(s)
  {
    var lower := ToLowerCase(s);
    ToLowerCaseSpec(s);
    var trimmed := Trim(lower);
    TrimSpec(lower);
    CollapseSpacesSpec(trimmed);
    CollapseSpaces(trimmed)
  }

  /** The `isNotBlank` helper on a non-null string: it is not empty. */
  function IsNotBlank(s: string): bool {
    s != []
  }

  /* ---------------------------------------------------------------- */
  /* Lemmas                                                            */
  /* ---------------------------------------------------------------- */

  /** Lower-casing maps each character on its own and leaves no upper-case letter. */
  lemma {:induction false} ToLowerCaseSpec(s: string)
    ensures |ToLowerCase(s)| == |s|
    ensures forall i :: 0 <= i < |s| ==> ToLowerCase(s)[i] == ToLowerChar(s[i])
    ensures NoUpper(ToLowerCase(s))
    ensures NoUpper(s) ==> ToLowerCase(s) == s
  {
    if s != [] {
      ToLowerCaseSpec(s[1..]);
      var r := ToLowerCase(s);
      assert forall i :: 1 <= i < |s| ==> r[i] == ToLowerCase(s[1..])[i - 1];
      if NoUpper(s) {
        assert r == [s[0]] + s[1..];
      }
    }
  }

  /** TrimStart drops a prefix made only of trimmable characters, and no more. */
  lemma {:induction false} TrimStartSpec(s: string)
    ensures |TrimStart(s)| <= |s| && TrimStart(s) == s[|s| - |TrimStart(s)|..]
    ensures forall i :: 0 <= i < |s| - |TrimStart(s)| ==> IsTrimmable(s[i])
    ensures TrimStart(s) != [] ==> !IsTrimmable(TrimStart(s)[0])
  {
    if s != [] && IsTrimmable(s[0]) {
      var t := TrimStart(s[1..]);
      TrimStartSpec(s[1..]);
      assert TrimStart(s) == t;
      assert s[1..][|s| - 1 - |t|..] == s[|s| - |t|..];
      forall i | 1 <= i < |s| - |t| ensures IsTrimmable(s[i]) {
        assert s[i] == s[1..][i - 1];
      }
    }
  }

  /** TrimEnd drops a suffix made only of trimmable characters, and no more. */
  lemma {:induction false} TrimEndSpec(s: string)
    ensures |TrimEnd(s)| <= |s| && TrimEnd(s) == s[..|TrimEnd(s)|]
    ensures forall i :: |TrimEnd(s)| <= i < |s| ==> IsTrimmable(s[i])
    ensures TrimEnd(s) != [] ==> !IsTrimmable(TrimEnd(s)[|TrimEnd(s)| - 1])
  {
    if s != [] && IsTrimmable(s[|s| - 1]) {
      var t := TrimEnd(s[..|s| - 1]);
      TrimEndSpec(s[..|s| - 1]);
      assert TrimEnd(s) == t;
      assert s[..|s| - 1][..|t|] == s[..|t|];
      forall i | |t| <= i < |s| - 1 ensures IsTrimmable(s[i]) {
        assert s[i] == s[..|s| - 1][i];
      }
    }
  }

  /** Trim leaves no trimmable character at either end, is empty exactly for a
      string of trimmable characters, only keeps characters of its input, and
      leaves a string that needs no trimming alone. */
  lemma TrimSpec(s: string)
    ensures |Trim(s)| <= |s|
    ensures NoEdgeWhitespace(Trim(s))
    ensures Trim(s) == [] <==> AllTrimmable(s)
    ensures NoEdgeWhitespace(s) ==> Trim(s) == s
    ensures forall i :: 0 <= i < |Trim(s)| ==> Trim(s)[i] in s
  {
    var t := TrimStart(s);
    TrimStartSpec(s);
    TrimEndSpec(t);
    TrimmedPartsBlank(s, t, TrimEnd(t));
  }

  lemma TrimmedPartsBlank(s: string, t: string, r: string)
    requires |r| <= |t| <= |s| && t == s[|s| - |t|..] && r == t[..|r|]
    requires forall i :: 0 <= i < |s| - |t| ==> IsTrimmable(s[i])
    requires forall i :: |r| <= i < |t| ==> IsTrimmable(t[i])
    ensures r == [] ==> AllTrimmable(s)
    ensures forall i :: 0 <= i < |r| ==> r[i] in s
  {
    forall i | 0 <= i < |r| ensures r[i] in s {
      assert r[i] == s[|s| - |t| + i];
    }
    if r == [] {
      forall i | 0 <= i < |s| ensures IsTrimmable(s[i]) {
        if i >= |s| - |t| {
          assert t[i - (|s| - |t|)] == s[i];
        }
      }
    }
  }

  /** Collapsing leaves no double space, removes nothing but spaces, only keeps
      characters of its input and keeps a first or last character that is not a space. */
  lemma {:induction false} CollapseSpacesSpec(s: string)
    ensures |CollapseSpaces(s)| <= |s|
    ensures NoDoubleSpace(CollapseSpaces(s))
    ensures WithoutSpaces(CollapseSpaces(s)) == WithoutSpaces(s)
    ensures CollapseSpaces(s) == [] <==> s == []
    ensures forall i :: 0 <= i < |CollapseSpaces(s)| ==> CollapseSpaces(s)[i] in s
    ensures s != [] && s[0] != ' ' ==> CollapseSpaces(s)[0] == s[0]
    ensures s != [] && s[|s| - 1] != ' ' ==> CollapseSpaces(s)[|CollapseSpaces(s)| - 1] == s[|s| - 1]
  {
    if |s| >= 2 {
      CollapseSpacesSpec(s[1..]);
    }
  }

  /** A run of spaces keeps exactly one space: one space more in a run changes
      nothing. With CollapseSpacesFixesNoDoubleSpace this determines the result. */
  lemma {:induction false} CollapseSpacesAbsorbs(a: string, b: string)
    ensures CollapseSpaces(a + "  " + b) == CollapseSpaces(a + " " + b)
    decreases |a|
  {
    var s, t := a + "  " + b, a + " " + b;
    if a == [] {
      assert s[1..] == t;
    } else {
      assert s[0] == t[0] == a[0] && s[1] == t[1];
      assert s[1..] == a[1..] + "  " + b && t[1..] == a[1..] + " " + b;
      CollapseSpacesAbsorbs(a[1..], b);
    }
  }

  /** A remark typed with two spaces, "the  remark", becomes the documented "the remark". */
  // The words are parameters pinned by the requires, not literals in the body,
  // so that the verifier does not unfold CollapseSpaces on a literal string.
  lemma CollapseSpacesExample(first: string, second: string)
    requires first == "the" && second == "remark"
    ensures CollapseSpaces(first + "  " + second) == first + " " + second
  {
    CollapseSpacesAbsorbs(first, second);
    var joined := first + " " + second;
    assert NoDoubleSpace(joined) by {
      forall i | 0 <= i < |joined| - 1 ensures !(joined[i] == ' ' && joined[i + 1] == ' ') {
        if i != 3 {
          assert joined[i] != ' ';
        }
      }
    }
    CollapseSpacesFixesNoDoubleSpace(joined);
  }

  /** A string without double spaces is left alone by CollapseSpaces. */
  lemma {:induction false} CollapseSpacesFixesNoDoubleSpace(s: string)
    requires NoDoubleSpace(s)
    ensures CollapseSpaces(s) == s
  {
    if |s| >= 2 {
      assert NoDoubleSpace(s[1..]) by {
        forall i | 0 <= i < |s[1..]| - 1 ensures !(s[1..][i] == ' ' && s[1..][i + 1] == ' ') {
          assert s[1..][i] == s[i + 1] && s[1..][i + 1] == s[i + 2];
        }
      }
      CollapseSpacesFixesNoDoubleSpace(s[1..]);
      assert !(s[0] == ' ' && s[1] == ' ');
      assert [s[0]] + s[1..] == s;
    }
  }

  /** Clean leaves an already clean string unchanged. */
  lemma CleanFixesClean(s: string)
    requires IsClean(s)
    ensures Clean(s) == s
  {
    ToLowerCaseSpec(s);
    TrimSpec(s);
    CollapseSpacesFixesNoDoubleSpace(s);
  }

  /** Cleaning twice is cleaning once. */
  lemma CleanIdempotent(s: string)
    ensures Clean(Clean(s)) == Clean(s)
  {
    CleanFixesClean(Clean(s));
  }

  /** The fixed points of Clean are exactly the clean strings. */
  lemma CleanFixedPointIff(s: string)
    ensures Clean(s) == s <==> IsClean(s)
  {
    if IsClean(s) {
      CleanFixesClean(s);
    }
  }

  /** A cleaned remark passes `isNotBlank` exactly when the raw remark holds some
      character above U+0020: a remark of tabs, newlines or spaces is dropped. */
  lemma CleanNotBlankIff(s: string)
    ensures IsNotBlank(Clean(s)) <==> !AllTrimmable(s)
  {
  }

  /** When lower-casing alone already gives a clean string (no edge whitespace, no
      double space), cleaning is just lower-casing: "theRemark" becomes "theremark". */
  lemma CleanOnlyLowers(s: string)
    requires NoEdgeWhitespace(s) && NoDoubleSpace(s)
    ensures Clean(s) == ToLowerCase(s)
  {
    var lower := ToLowerCase(s);
    ToLowerCaseSpec(s);
    assert NoEdgeWhitespace(lower);
    assert NoDoubleSpace(lower) by {
      forall i | 0 <= i < |lower| - 1 ensures !(lower[i] == ' ' && lower[i + 1] == ' ') {
        assert lower[i] == ToLowerChar(s[i]) && lower[i + 1] == ToLowerChar(s[i + 1]);
      }
    }
    TrimSpec(lower);
    CollapseSpacesFixesNoDoubleSpace(lower);
  }
}
