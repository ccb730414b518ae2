/**
 * The Windows behaviour of the four `System.IO.Path` members the destination resolver uses:
 * `Combine`, `IsPathRooted`, `GetFileName` and `GetDirectoryName`. Roots are a drive
 * (`C:`, `C:\`) or one leading separator; both `\` and `/` separate.
 */
module Paths {
  import opened Wrappers

  predicate IsSeparator(c: char) { c == '\\' || c == '/' }

  predicate IsDriveLetter(c: char) { 'A' <= c <= 'Z' || 'a' <= c <= 'z' }

  /** No character of `s` separates path segments. */
  predicate NoSeparator(s: string) { forall i :: 0 <= i < |s| ==> !IsSeparator(s[i]) }

  /** `Path.IsPathRooted`: a leading separator or a drive designator. */
  predicate IsRooted(p: string) {
    (|p| >= 1 && IsSeparator(p[0])) || (|p| >= 2 && IsDriveLetter(p[0]) && p[1] == ':')
  }

  /** Length of the root of `p` (`GetPathRoot(p).Length`). */
  function RootLength(p: string): (n: nat)
    ensures n <= |p| && n <= 3
  {
    if |p| >= 2 && IsDriveLetter(p[0]) && p[1] == ':' then
      (if |p| >= 3 && IsSeparator(p[2]) then 3 else 2)
    else if |p| >= 1 && IsSeparator(p[0]) then 1
    else 0
  }

  /**
   * `Path.Combine(a, b)`: an empty side yields the other, a rooted `b` replaces `a`, otherwise
   * one `\` goes between them unless `a` already ends with a separator.
   */
  function Combine(a: string, b: string): string {
    if |a| == 0 then b
    else if |b| == 0 then a
    else if IsRooted(b) then b
    else if IsSeparator(a[|a| - 1]) then a + b
    else a + "\\" + b
  }

  /**
   * Neither side is lost: the combined path ends with `b`, and it starts with `a` unless `b`
   * is rooted and replaces it; at most one separator is added between them.
   */
  lemma CombineKeepsBoth(a: string, b: string)
    ensures var r := Combine(a, b);
      |b| <= |r| && r[|r| - |b|..] == b
    ensures !IsRooted(b) ==> var r := Combine(a, b);
      |a| <= |r| <= |a| + |b| + 1 && r[..|a|] == a
    ensures IsRooted(b) ==> Combine(a, b) == b
  {
  }

  /** Index of the last separator of `p`, or -1. */
  function LastSeparator(p: string): (i: int)
    ensures -1 <= i < |p|
    ensures i >= 0 ==> IsSeparator(p[i])
    ensures forall k :: i < k < |p| ==> !IsSeparator(p[k])
  {
    if |p| == 0 then -1
    else if IsSeparator(p[|p| - 1]) then |p| - 1
    else LastSeparator(p[..|p| - 1])
  }

  /** `Path.GetFileName(p)`: what follows the last separator, never reaching into the root. */
  function FileName(p: string): (r: string)
    ensures NoSeparator(r)
  {
    var root := RootLength(p);
    var i := LastSeparator(p);
    var start := if i < root then root else i + 1;
    assert forall k :: start <= k < |p| ==> !IsSeparator(p[k]) by {
      if i < root {
        assert root <= 3;
        forall k | start <= k < |p| ensures !IsSeparator(p[k]) {
          assert i < k;
        }
      }
    }
    p[start..]
  }

  /** End of the directory part: after the last separator beyond the root, trailing separators trimmed. */
  function DirectoryEnd(p: string, end: nat, root: nat): (e: nat)
    requires root <= end <= |p|
    ensures root <= e <= end
    decreases end
  {
    if end > root && IsSeparator(p[end - 1]) then DirectoryEnd(p, end - 1, root) else end
  }

  /**
   * `PathInternal.NormalizeDirectorySeparators`, which `GetDirectoryName` applies to its result:
   * every separator becomes `\`, and a run of separators collapses to one, except that a
   * leading pair (a UNC or device prefix) is kept.
   */
  function NormalizeSeparators(p: string): (r: string)
    ensures |r| <= |p|
    ensures forall i :: 0 <= i < |r| ==> r[i] != '/'
  {
    if |p| == 0 then p
    else if IsSeparator(p[0]) then "\\" + Collapse(p[1..])
    else Collapse(p)
  }

  /** Separators made `\`, each dropped when a separator follows it. */
  function Collapse(p: string): (r: string)
    ensures |r| <= |p|
    ensures forall i :: 0 <= i < |r| ==> r[i] != '/'
  {
    if |p| == 0 then ""
    else if IsSeparator(p[0]) then
      (if |p| > 1 && IsSeparator(p[1]) then Collapse(p[1..]) else "\\" + Collapse(p[1..]))
    else [p[0]] + Collapse(p[1..])
  }

  /** No `/`, and no two separators in a row past the first character: what normalising keeps as it is. */
  predicate IsNormalized(p: string) {
    && (forall i :: 0 <= i < |p| ==> p[i] != '/')
    && (forall i :: 1 <= i < |p| - 1 ==> !(IsSeparator(p[i]) && IsSeparator(p[i + 1])))
  }

  lemma {:induction false} CollapseKeeps(p: string)
    requires forall i :: 0 <= i < |p| ==> p[i] != '/'
    requires forall i :: 0 <= i < |p| - 1 ==> !(IsSeparator(p[i]) && IsSeparator(p[i + 1]))
    ensures Collapse(p) == p
    decreases |p|
  {
    if |p| > 0 {
      var q := p[1..];
      assert forall i :: 0 <= i < |q| ==> q[i] == p[i + 1];
      CollapseKeeps(q);
      assert p == [p[0]] + q;
    }
  }

  /** A normalised path is left as it is. */
  lemma NormalizeKeeps(p: string)
    requires IsNormalized(p)
    ensures NormalizeSeparators(p) == p
  {
    if |p| > 0 {
      if IsSeparator(p[0]) {
        var q := p[1..];
        assert forall i :: 0 <= i < |q| ==> q[i] == p[i + 1];
        CollapseKeeps(q);
        assert p == "\\" + q;
      } else {
        CollapseKeeps(p);
      }
    }
  }

  /** `String.IsNullOrWhiteSpace`-like test `GetDirectoryName` starts with: empty or spaces only. */
  predicate IsEffectivelyEmpty(p: string) {
    forall i :: 0 <= i < |p| ==> p[i] == ' '
  }

  /**
   * `Path.GetDirectoryName(p)`: everything before the file name, without trailing separators
   * but keeping the root, with its separators normalised; `None` (C#'s null) when `p` is
   * empty, only spaces, or no longer than its root.
   */
  function DirectoryName(p: string): (r: Option<string>)
    ensures r.Some? ==> |r.value| < |p|
    ensures r.Some? ==> forall i :: 0 <= i < |r.value| ==> r.value[i] != '/'
    ensures r.Some? ==> |p| > RootLength(p) && !IsEffectivelyEmpty(p)
  {
    var root := RootLength(p);
    if IsEffectivelyEmpty(p) || |p| <= root then None
    else
      var i := LastSeparator(p);
      var end := if i >= root then i else root;
      Some(NormalizeSeparators(p[..DirectoryEnd(p, end, root)]))
  }

  /** A name with no separator is the file name of the path it is combined onto. */
  lemma FileNameOfCombine(dir: string, name: string)
    requires |dir| > 0 && |name| > 0 && NoSeparator(name) && !IsRooted(name)
    ensures FileName(Combine(dir, name)) == name
  {
    var p := Combine(dir, name);
    var at := if IsSeparator(dir[|dir| - 1]) then |dir| - 1 else |dir|;
    assert p == p[..at + 1] + name;
    assert IsSeparator(p[at]);
    assert forall k :: at < k < |p| ==> p[k] == name[k - at - 1];
    assert LastSeparator(p) == at by {
      LastSeparatorOfSuffix(p, at);
    }
  }

  lemma LastSeparatorOfSuffix(p: string, at: int)
    requires 0 <= at < |p| && IsSeparator(p[at])
    requires forall k :: at < k < |p| ==> !IsSeparator(p[k])
    ensures LastSeparator(p) == at
  {
    var i := LastSeparator(p);
    assert i >= at;
  }

  /**
   * The directory a name was combined onto is that path's directory, normalised (so itself when
   * already normal), provided the directory has something beyond its root and no trailing separator.
   */
  lemma DirectoryNameOfCombine(dir: string, name: string)
    requires RootLength(dir) < |dir| && !IsSeparator(dir[|dir| - 1])
    requires |name| > 0 && NoSeparator(name) && !IsRooted(name)
    ensures DirectoryName(Combine(dir, name)) == Some(NormalizeSeparators(dir))
    ensures IsNormalized(dir) ==> DirectoryName(Combine(dir, name)) == Some(dir)
  {
    if IsNormalized(dir) {
      NormalizeKeeps(dir);
    }
    var p := Combine(dir, name);
    assert p == dir + "\\" + name;
    assert p[..|dir|] == dir;
    assert RootLength(p) == RootLength(dir);
    LastSeparatorOfSuffix(p, |dir|);
    assert DirectoryEnd(p, |dir|, RootLength(p)) == |dir|;
  }

  /** Combining a relative directory and a name onto a base puts one `\` between the pieces. */
  lemma CombineRelative(base: string, rel: string, name: string)
    requires |base| > 0 && !IsSeparator(base[|base| - 1])
    requires |rel| > 0 && !IsRooted(rel) && !IsSeparator(rel[|rel| - 1])
    requires |name| > 0 && !IsRooted(name)
    ensures Combine(Combine(base, rel), name) == base + "\\" + rel + "\\" + name
  {
  }
}
