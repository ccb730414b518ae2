/**
 * The destination resolver of the converter as pure functions: which file a source file is
 * converted into (`GetDestinationFile`), and what opening it does to the file system under the
 * overwrite-once flag (`OpenFileStream`). The file system is a map from path to lines.
 */
module Destination {
  import opened Wrappers
  import opened Paths
  import opened Settings

  /** One leading backslash removed, as `subPath.StartsWith('\\')` tests for; never a `/`. */
  function WithoutLeadingBackslash(s: string): (r: string)
    ensures if |s| > 0 && s[0] == '\\' then "\\" + r == s else r == s
  {
    if |s| > 0 && s[0] == '\\' then s[1..] else s
  }

  /**
   * The path `GetDestinationFile` opens for `sourceFile`, given the full form of the source root.
   * Single mode: the merged file under the destination directory. Mirror mode: the destination
   * directory, then what the source file's directory has beyond the root's length, then the
   * file name. The slice throws when the directory is shorter than the root; whether the root
   * is really a prefix is not checked.
   */
  function DestinationFor(opts: Options, sourceFullPath: string, sourceFile: string): (r: Result<string, Failure>)
    ensures opts.singleDestinationFile ==> r == Ok(Combine(opts.destinationPath, opts.destinationFile))
    ensures !opts.singleDestinationFile ==>
      (r.Ok? <==> DirectoryName(sourceFile).Some? && |sourceFullPath| <= |DirectoryName(sourceFile).value|)
    ensures !opts.singleDestinationFile && r.Err? && DirectoryName(sourceFile).Some? ==>
      r.error == SubPathOutOfRange(DirectoryName(sourceFile).value)
  {
    if opts.singleDestinationFile then Ok(Combine(opts.destinationPath, opts.destinationFile))
    else
      match DirectoryName(sourceFile)
      case None => Err(NoDirectory(sourceFile))
      case Some(sourceDir) =>
        if |sourceFullPath| > |sourceDir| then Err(SubPathOutOfRange(sourceDir))
        else
          var subPath := WithoutLeadingBackslash(sourceDir[|sourceFullPath|..]);
          Ok(Combine(Combine(opts.destinationPath, subPath), FileName(sourceFile)))
  }

  /**
   * Mirror mode keeps a file's place below the root: a file `rel\name` below the source root
   * goes to `rel\name` below the destination directory. The directory must be spelled as
   * `GetDirectoryName` gives it back (`\` only, no doubled separator), or the slice by the
   * root's length lands elsewhere.
   */
  lemma MirroredBelowRoot(opts: Options, root: string, rel: string, name: string)
    requires !opts.singleDestinationFile
    requires |opts.destinationPath| > 0 && !IsSeparator(opts.destinationPath[|opts.destinationPath| - 1])
    requires RootLength(root) < |root| && !IsSeparator(root[|root| - 1])
    requires |rel| > 0 && !IsRooted(rel) && !IsSeparator(rel[|rel| - 1])
    requires IsNormalized(root + "\\" + rel)
    requires |name| > 0 && NoSeparator(name) && !IsRooted(name)
    ensures DestinationFor(opts, root, root + "\\" + rel + "\\" + name)
         == Ok(opts.destinationPath + "\\" + rel + "\\" + name)
  {
    var dir := root + "\\" + rel;
    assert Combine(root, rel) == dir;
    assert RootLength(dir) == RootLength(root);
    assert Combine(dir, name) == root + "\\" + rel + "\\" + name;
    DirectoryNameOfCombine(dir, name);
    FileNameOfCombine(dir, name);
    assert dir[|root|..] == "\\" + rel;
    assert WithoutLeadingBackslash("\\" + rel) == rel;
    CombineRelative(opts.destinationPath, rel, name);
  }

  /** A file directly in the source root goes directly into the destination directory. */
  lemma MirroredAtRoot(opts: Options, root: string, name: string)
    requires !opts.singleDestinationFile
    requires |opts.destinationPath| > 0 && !IsSeparator(opts.destinationPath[|opts.destinationPath| - 1])
    requires RootLength(root) < |root| && !IsSeparator(root[|root| - 1]) && IsNormalized(root)
    requires |name| > 0 && NoSeparator(name) && !IsRooted(name)
    ensures DestinationFor(opts, root, root + "\\" + name) == Ok(opts.destinationPath + "\\" + name)
  {
    var file := root + "\\" + name;
    assert DirectoryName(file) == Some(root) && FileName(file) == name by {
      assert Combine(root, name) == file;
      DirectoryNameOfCombine(root, name);
      FileNameOfCombine(root, name);
    }
    MirrorDestination(opts, root, file, root);
    assert WithoutLeadingBackslash(root[|root|..]) == [];
  }

  /** The mirror-mode destination of a file whose directory is at least as long as the root. */
  lemma MirrorDestination(opts: Options, sourceFullPath: string, sourceFile: string, dir: string)
    requires !opts.singleDestinationFile
    requires DirectoryName(sourceFile) == Some(dir) && |sourceFullPath| <= |dir|
    ensures DestinationFor(opts, sourceFullPath, sourceFile)
         == Ok(Combine(Combine(opts.destinationPath, WithoutLeadingBackslash(dir[|sourceFullPath|..])), FileName(sourceFile)))
  {
  }

  /**
   * A source root given with a trailing separator (which the full path keeps) is longer than
   * the directory of a file directly inside it, so the slice throws for that file.
   */
  lemma TrailingSeparatorRootThrows(opts: Options, dir: string, name: string)
    requires !opts.singleDestinationFile
    requires RootLength(dir) < |dir| && !IsSeparator(dir[|dir| - 1])
    requires |name| > 0 && NoSeparator(name) && !IsRooted(name)
    ensures DestinationFor(opts, dir + "\\", dir + "\\" + name) == Err(SubPathOutOfRange(NormalizeSeparators(dir)))
  {
    assert Combine(dir, name) == dir + "\\" + name;
    DirectoryNameOfCombine(dir, name);
  }

  /**
   * `Path.TrimEndingDirectorySeparator`: one trailing separator removed, unless it belongs to
   * the root.
   */
  function TrimEndingSeparator(p: string): (r: string)
    ensures |r| <= |p| && r == p[..|r|]
    ensures |r| < |p| ==> |r| == |p| - 1 && IsSeparator(p[|p| - 1])
  {
    if |p| > RootLength(p) && IsSeparator(p[|p| - 1]) then p[..|p| - 1] else p
  }

  /**
   * With the root's trailing separator trimmed before the slice, a file directly in a root
   * given as `dir\` goes directly into the destination directory instead of throwing.
   */
  lemma TrimmedRootMirrorsAtRoot(opts: Options, dir: string, name: string)
    requires !opts.singleDestinationFile
    requires |opts.destinationPath| > 0 && !IsSeparator(opts.destinationPath[|opts.destinationPath| - 1])
    requires RootLength(dir) < |dir| && !IsSeparator(dir[|dir| - 1]) && IsNormalized(dir)
    requires |name| > 0 && NoSeparator(name) && !IsRooted(name)
    ensures DestinationFor(opts, TrimEndingSeparator(dir + "\\"), dir + "\\" + name) == Ok(opts.destinationPath + "\\" + name)
  {
    var root := dir + "\\";
    assert root[..|dir|] == dir;
    assert RootLength(root) == RootLength(dir);
    assert TrimEndingSeparator(root) == dir;
    MirroredAtRoot(opts, dir, name);
  }

  // ---------------------------------------------------------------------------------------
  // Opening the destination.

  /** What `OpenFileStream` leaves behind: the files, the overwrite-once flag, and whether it truncated. */
  datatype Opened = Opened(files: map<string, seq<string>>, alreadyOverwritten: bool, truncated: bool)

  /** The lines of `files[path]`, or none for a missing file (what an append-mode open starts from). */
  function Existing(files: map<string, seq<string>>, path: string): seq<string> {
    if path in files then files[path] else []
  }

  /** `Directory.CreateDirectory` accepts the directory part of `path`: there is one and it is not empty. */
  predicate HasDirectory(path: string) {
    DirectoryName(path).Some? && |DirectoryName(path).value| > 0
  }

  /**
   * `OpenFileStream(path)`: `FileMode.Create` (the file emptied) when overwriting is on, the
   * file exists and no open of this converter has truncated yet, which then sets the flag;
   * `FileMode.Append` otherwise (the file kept, or created empty).
   */
  function Open(opts: Options, files: map<string, seq<string>>, alreadyOverwritten: bool, path: string): (r: Result<Opened, Failure>)
    ensures r.Err? <==> !HasDirectory(path)
    ensures r.Ok? ==> path in r.value.files && r.value.files.Keys == files.Keys + {path}
    ensures r.Ok? ==> r.value.truncated == (opts.overwrite && path in files && !alreadyOverwritten)
    ensures r.Ok? ==> r.value.alreadyOverwritten == (alreadyOverwritten || r.value.truncated)
    ensures r.Ok? ==> forall p :: p in files && p != path ==> r.value.files[p] == files[p]
    ensures r.Ok? && r.value.truncated ==> r.value.files[path] == []
    ensures r.Ok? && !r.value.truncated ==> r.value.files[path] == Existing(files, path)
  {
    if !HasDirectory(path) then Err(NoDirectory(path))
    else if opts.overwrite && path in files && !alreadyOverwritten then
      Ok(Opened(files[path := []], true, true))
    else
      Ok(Opened(files[path := if path in files then files[path] else []], alreadyOverwritten, false))
  }

  /** Once the flag is set no open truncates again, whatever the path. */
  lemma NoSecondTruncation(opts: Options, files: map<string, seq<string>>, path: string)
    requires HasDirectory(path)
    ensures var r := Open(opts, files, true, path);
      r.Ok? && !r.value.truncated && r.value.alreadyOverwritten
      && (path in files ==> r.value.files[path] == files[path])
  {
  }

  // ---------------------------------------------------------------------------------------
  // The overwrite-once flag as written, and the open the overwrite option intends.

  /**
   * As written, an open of a missing file leaves the flag clear, so with overwriting on the
   * next open of the same path truncates what was written in between: the run loses its own
   * output (in single mode, the header and every row of the first file).
   */
  lemma OpenTruncatesRunOutput(opts: Options, files: map<string, seq<string>>, path: string, written: seq<string>)
    requires opts.overwrite && HasDirectory(path) && path !in files
    ensures var first := Open(opts, files, false, path).value;
      var grown := first.files[path := first.files[path] + written];
      var second := Open(opts, grown, first.alreadyOverwritten, path);
      && !first.truncated && first.files[path] == []
      && second.Ok? && second.value.truncated && second.value.files[path] == []
  {
    var first := Open(opts, files, false, path).value;
    var grown := first.files[path := first.files[path] + written];
    assert path in grown;
  }

  /**
   * As written, once one destination has been truncated every other existing destination is
   * appended to: its lines from before the run stay in front of the new ones.
   */
  lemma SecondDestinationKeepsStaleLines(opts: Options, files: map<string, seq<string>>, a: string, b: string)
    requires opts.overwrite && HasDirectory(a) && HasDirectory(b) && a != b && a in files && b in files
    ensures var first := Open(opts, files, false, a).value;
      var second := Open(opts, first.files, first.alreadyOverwritten, b).value;
      first.truncated && !second.truncated && second.files[b] == files[b]
  {
  }

  /**
   * The open the overwrite option describes ("overwrite destination files, or append"): the
   * first open of each destination path in a run replaces what the file held before the run,
   * and every later open of that path in the run appends. `earlier` holds the paths this run has
   * opened so far; the result is the new files and the new set.
   */
  function OpenPerPath(opts: Options, files: map<string, seq<string>>, earlier: set<string>, path: string)
    : (r: Result<(map<string, seq<string>>, set<string>), Failure>)
    ensures r.Err? <==> !HasDirectory(path)
    ensures r.Ok? ==> r.value.1 == earlier + {path}
    ensures r.Ok? ==> path in r.value.0 && r.value.0.Keys == files.Keys + {path}
    ensures r.Ok? ==> forall p :: p in files && p != path ==> r.value.0[p] == files[p]
    ensures r.Ok? ==> r.value.0[path] == if opts.overwrite && path !in earlier then [] else Existing(files, path)
  {
    if !HasDirectory(path) then Err(NoDirectory(path))
    else if opts.overwrite && path !in earlier then Ok((files[path := []], earlier + {path}))
    else Ok((files[path := Existing(files, path)], earlier + {path}))
  }

  /**
   * With the intended open, lines written after an open survive the next open of the same
   * path, whether or not the file existed before the run.
   */
  lemma OpenPerPathKeepsRunOutput(opts: Options, files: map<string, seq<string>>, earlier: set<string>, path: string, written: seq<string>)
    requires HasDirectory(path)
    ensures var first := OpenPerPath(opts, files, earlier, path).value;
      var grown := first.0[path := first.0[path] + written];
      var second := OpenPerPath(opts, grown, first.1, path);
      second.Ok? && second.value.0[path] == first.0[path] + written
  {
    var first := OpenPerPath(opts, files, earlier, path).value;
    var grown := first.0[path := first.0[path] + written];
    assert path in first.1 && path in grown;
  }

  /**
   * With the intended open and overwriting on, two different destinations opened in one run
   * both lose their lines from before the run, and the first keeps them if overwriting is off.
   */
  lemma OpenPerPathReplacesEachDestination(opts: Options, files: map<string, seq<string>>, a: string, b: string)
    requires HasDirectory(a) && HasDirectory(b) && a != b
    ensures var first := OpenPerPath(opts, files, {}, a).value;
      var second := OpenPerPath(opts, first.0, first.1, b).value;
      && (opts.overwrite ==> second.0[a] == [] && second.0[b] == [])
      && (!opts.overwrite ==> second.0[a] == Existing(files, a) && second.0[b] == Existing(files, b))
  {
  }
}
