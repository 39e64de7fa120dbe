/**
 * Path strings and the two string operations the notebook script applies to
 * them: POSIX path joining (os.path.join) and replace-all (str.replace).
 * The filesystem is abstracted as the set of paths that exist.
 */
module Paths {

  type Path = string

  /** The paths for which os.path.exists answers true. */
  type FileSystem = set<Path>

  const Sep: char := '/'

  predicate IsAbsolute(p: Path) {
    |p| > 0 && p[0] == Sep
  }

  predicate IsSuffix(suffix: Path, p: Path) {
    |suffix| <= |p| && p[|p| - |suffix|..] == suffix
  }

  /**
   * posixpath.join of two components: an absolute second component
   * discards the first; otherwise a separator is inserted unless the first
   * component is empty or already ends with one. Prefix, suffix and length
   * together fix the result: a relative second component gives the first
   * component, at most one separator, then the second component.
   */
  function Join(a: Path, b: Path): (r: Path)
    ensures IsSuffix(b, r)
    ensures IsAbsolute(b) ==> r == b
    ensures !IsAbsolute(b) ==> a <= r
    ensures !IsAbsolute(b) && (a == [] || a[|a| - 1] == Sep) ==> |r| == |a| + |b|
    ensures !IsAbsolute(b) && a != [] && a[|a| - 1] != Sep ==> |r| == |a| + |b| + 1 && r[|a|] == Sep
  {
    if IsAbsolute(b) then b
    else if a == [] || a[|a| - 1] == Sep then a + b
    else a + [Sep] + b
  }

  /**
   * os.path.join(a, b, c): posixpath folds the components left to right, so
   * the result is the two-part join of the first two parts, joined with the
   * third. It ends with the last part, starts with the join of the first two
   * when the last part is relative, and with the first part when the other
   * two are relative.
   */
  function Join3(a: Path, b: Path, c: Path): (r: Path)
    ensures IsSuffix(c, r)
    ensures IsAbsolute(c) ==> r == c
    ensures !IsAbsolute(c) ==> Join(a, b) <= r
    ensures !IsAbsolute(b) && !IsAbsolute(c) ==> a <= r
  {
    Join(Join(a, b), c)
  }

  predicate OccursAt(s: string, pat: string, i: int) {
    0 <= i && i + |pat| <= |s| && s[i..i + |pat|] == pat
  }

  predicate Occurs(s: string, pat: string) {
    exists i :: 0 <= i <= |s| - |pat| && OccursAt(s, pat, i)
  }

  /**
   * str.replace(pat, rep) with a non-empty pattern: occurrences are
   * replaced left to right, and the scan resumes after each replaced one.
   * A string shorter than the pattern is returned as it is; a replacement at
   * least as long as the pattern never shortens the string, and replacing
   * the pattern with itself changes nothing.
   */
  function ReplaceAll(s: string, pat: string, rep: string): (r: string)
    requires pat != []
    ensures |s| < |pat| ==> r == s
    ensures |rep| >= |pat| ==> |r| >= |s|
    ensures rep == pat ==> r == s
    decreases |s|
  {
    if |s| < |pat| then s
    else if s[..|pat|] == pat then rep + ReplaceAll(s[|pat|..], pat, rep)
    else [s[0]] + ReplaceAll(s[1..], pat, rep)
  }

  /** An occurrence in the tail of `s` is an occurrence in `s`, one further on. */
  lemma OccursInTail(s: string, pat: string, j: int)
    requires |s| > 0 && OccursAt(s[1..], pat, j)
    ensures OccursAt(s, pat, j + 1)
  {
  }

  /** An occurrence in `s` past its first character is an occurrence in the tail. */
  lemma OccursInTailFromHead(s: string, pat: string, i: int)
    requires 0 < i && OccursAt(s, pat, i)
    ensures OccursAt(s[1..], pat, i - 1)
  {
  }

  lemma {:induction false} ReplaceWithoutOccurrence(s: string, pat: string, rep: string)
    requires pat != [] && !Occurs(s, pat)
    ensures ReplaceAll(s, pat, rep) == s
  {
    if |s| >= |pat| {
      assert !OccursAt(s, pat, 0);
      forall j | OccursAt(s[1..], pat, j) ensures OccursAt(s, pat, j + 1) {
        OccursInTail(s, pat, j);
      }
      ReplaceWithoutOccurrence(s[1..], pat, rep);
    }
  }

  lemma {:induction false} ReplaceGrows(s: string, pat: string, rep: string)
    requires pat != [] && |rep| > |pat|
    ensures Occurs(s, pat) ==> |ReplaceAll(s, pat, rep)| > |s|
  {
    if |s| < |pat| {
    } else if s[..|pat|] == pat {
      ReplaceGrows(s[|pat|..], pat, rep);
    } else {
      ReplaceGrows(s[1..], pat, rep);
      if Occurs(s, pat) {
        var i :| 0 <= i <= |s| - |pat| && OccursAt(s, pat, i);
        assert i != 0;
        OccursInTailFromHead(s, pat, i);
      }
    }
  }

  /** Without an occurrence at its head, replace-all keeps the first character and goes on with the tail. */
  lemma ReplaceSkipsHead(s: string, pat: string, rep: string)
    requires pat != [] && |s| > 0 && !OccursAt(s, pat, 0)
    ensures ReplaceAll(s, pat, rep) == [s[0]] + ReplaceAll(s[1..], pat, rep)
  {
  }

  /** Dropping the first character of text in which no occurrence starts leaves such text. */
  lemma ClearPrefixTail(x: string, z: string, pat: string)
    requires |x| > 0 && forall j :: 0 <= j < |x| ==> !OccursAt(x + z, pat, j)
    ensures !OccursAt(x + z, pat, 0)
    ensures forall j :: 0 <= j < |x[1..]| ==> !OccursAt(x[1..] + z, pat, j)
  {
    var s := x + z;
    assert s[1..] == x[1..] + z;
    forall j | 0 <= j < |x[1..]| ensures !OccursAt(x[1..] + z, pat, j) {
      if OccursAt(x[1..] + z, pat, j) {
        OccursInTail(s, pat, j);
      }
    }
  }

  /** ReplaceSkipsHead, for text that starts with a non-empty part x. */
  lemma ReplaceSkipsClearHead(x: string, z: string, pat: string, rep: string)
    requires pat != [] && |x| > 0 && !OccursAt(x + z, pat, 0)
    ensures ReplaceAll(x + z, pat, rep) == [x[0]] + ReplaceAll(x[1..] + z, pat, rep)
  {
    ReplaceSkipsHead(x + z, pat, rep);
    assert (x + z)[1..] == x[1..] + z;
  }

  /** The first character put back in front of the rest of x. */
  lemma PrependHead(x: string, whole: string, tail: string, r: string)
    requires |x| > 0 && whole == [x[0]] + tail && tail == x[1..] + r
    ensures whole == x + r
  {
  }

  /** Text in which no occurrence starts is copied unchanged, and the scan goes on after it. */
  lemma {:induction false} ReplaceKeepsClearPrefix(x: string, z: string, pat: string, rep: string)
    requires pat != []
    requires forall j :: 0 <= j < |x| ==> !OccursAt(x + z, pat, j)
    ensures ReplaceAll(x + z, pat, rep) == x + ReplaceAll(z, pat, rep)
    decreases |x|
  {
    if x == [] {
      assert x + z == z;
    } else {
      ClearPrefixTail(x, z, pat);
      ReplaceSkipsClearHead(x, z, pat, rep);
      ReplaceKeepsClearPrefix(x[1..], z, pat, rep);
      PrependHead(x, ReplaceAll(x + z, pat, rep), ReplaceAll(x[1..] + z, pat, rep), ReplaceAll(z, pat, rep));
    }
  }

  /** An occurrence at i: from there on, it becomes the replacement and the scan resumes right after it. */
  lemma ReplaceFromOccurrence(s: string, pat: string, rep: string, i: nat)
    requires pat != [] && OccursAt(s, pat, i)
    ensures ReplaceAll(s[i..], pat, rep) == rep + ReplaceAll(s[i + |pat|..], pat, rep)
  {
  }

  /** Replace-all copies the first i characters when no occurrence starts among them. */
  lemma ReplaceAfterClearPrefix(s: string, pat: string, rep: string, i: nat)
    requires pat != [] && i <= |s|
    requires forall j :: 0 <= j < i ==> !OccursAt(s, pat, j)
    ensures ReplaceAll(s, pat, rep) == s[..i] + ReplaceAll(s[i..], pat, rep)
  {
    assert s[..i] + s[i..] == s;
    ReplaceKeepsClearPrefix(s[..i], s[i..], pat, rep);
  }

  /** Gluing the copied text, the replacement and the rest of the scan. */
  lemma AppendThree(whole: string, before: string, tail: string, rep: string, r: string)
    requires whole == before + tail && tail == rep + r
    ensures whole == before + rep + r
  {
  }

  /**
   * At the leftmost occurrence, the text before it is kept, the occurrence
   * becomes the replacement, and the scan resumes right after it.
   */
  lemma ReplaceAtFirstOccurrence(s: string, pat: string, rep: string, i: nat)
    requires pat != [] && OccursAt(s, pat, i)
    requires forall j :: 0 <= j < i ==> !OccursAt(s, pat, j)
    ensures ReplaceAll(s, pat, rep) == s[..i] + rep + ReplaceAll(s[i + |pat|..], pat, rep)
  {
    ReplaceAfterClearPrefix(s, pat, rep, i);
    ReplaceFromOccurrence(s, pat, rep, i);
    AppendThree(ReplaceAll(s, pat, rep), s[..i], ReplaceAll(s[i..], pat, rep), rep, ReplaceAll(s[i + |pat|..], pat, rep));
  }

  /**
   * With a replacement longer than the pattern, replace-all leaves a string
   * unchanged exactly when the pattern does not occur in it.
   */
  lemma ReplaceIdentityIff(s: string, pat: string, rep: string)
    requires pat != [] && |rep| > |pat|
    ensures ReplaceAll(s, pat, rep) == s <==> !Occurs(s, pat)
  {
    ReplaceGrows(s, pat, rep);
    if !Occurs(s, pat) {
      ReplaceWithoutOccurrence(s, pat, rep);
    }
  }
}
