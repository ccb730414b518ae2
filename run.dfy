/**
 * One `ConvertFile` call and a run over a list of source files, on the converter's state:
 * the file system, the standard-error lines, `Options.HasWrittenHeader` and the
 * overwrite-once flag.
 */
module RunSpec {
  import opened Wrappers
  import opened Text
  import opened Settings
  import opened LineConversion
  import opened LineProperties
  import opened Paths
  import opened Destination

  datatype RunState = RunState(
    files: map<string, seq<string>>,
    errors: seq<Diagnostic>,
    hasWrittenHeader: bool,
    alreadyOverwritten: bool)

  /** The state after one call, the exception that ended it, if any, and whether its open truncated. */
  datatype Outcome = Outcome(state: RunState, failure: Option<Failure>, truncated: bool)

  /** The guard a call starts from: only a shared destination carries it over from earlier files. */
  function Seed(opts: Options, st: RunState): bool {
    opts.singleDestinationFile && st.hasWrittenHeader
  }

  /**
   * `ConvertFile(file)`: resolve and open the destination, read the source (which throws when
   * it is the destination, already opened without sharing, or missing), append what the line
   * loop writes, report its diagnostics, and store the guard back only when no line threw.
   */
  function ConvertFile<D>(opts: Options, num: Numerics<D>, root: string, st: RunState, file: string): Outcome {
    match DestinationFor(opts, root, file)
    case Err(e) => Outcome(st, Some(e), false)
    case Ok(dest) =>
      match Open(opts, st.files, st.alreadyOverwritten, dest)
      case Err(e) => Outcome(st, Some(e), false)
      case Ok(handle) =>
        var st1 := st.(files := handle.files, alreadyOverwritten := handle.alreadyOverwritten);
        if file == dest then Outcome(st1, Some(SharingViolation(file)), handle.truncated)
        else if file !in st1.files then Outcome(st1, Some(FileNotFound(file)), handle.truncated)
        else
          var s := ScanLines(opts, num, Seed(opts, st), st1.files[file]);
          Outcome(
            st1.(files := st1.files[dest := st1.files[dest] + s.output],
                 errors := st.errors + s.diagnostics,
                 hasWrittenHeader := if s.failure.None? then s.headerWritten else st.hasWrittenHeader),
            s.failure, handle.truncated)
  }

  /** A run after some of its files; `truncations` counts the opens that emptied a file. */
  datatype RunOutcome = RunOutcome(state: RunState, failure: Option<Failure>, truncations: nat)

  /** The `foreach` of `Run` over `sources`, in order; an exception ends the run. */
  function RunFiles<D>(opts: Options, num: Numerics<D>, root: string, st: RunState, sources: seq<string>): RunOutcome
    decreases |sources|
  {
    if |sources| == 0 then RunOutcome(st, None, 0)
    else
      var r := RunFiles(opts, num, root, st, sources[..|sources| - 1]);
      if r.failure.Some? then r
      else
        var o := ConvertFile(opts, num, root, r.state, sources[|sources| - 1]);
        RunOutcome(o.state, o.failure, r.truncations + (if o.truncated then 1 else 0))
  }

  // ---------------------------------------------------------------------------------------
  // One call.

  /**
   * What a call does to the files: the destination grows by appending (from empty when its
   * open truncated), and every other file keeps its lines.
   */
  lemma ConvertFileAppends<D>(opts: Options, num: Numerics<D>, root: string, st: RunState, file: string)
    requires DestinationFor(opts, root, file).Ok?
    ensures var o, dest := ConvertFile(opts, num, root, st, file), DestinationFor(opts, root, file).value;
      && st.files.Keys <= o.state.files.Keys
      && (forall p :: p in st.files && p != dest ==> o.state.files[p] == st.files[p])
      && (o.truncated ==> dest in st.files && !st.alreadyOverwritten && o.state.alreadyOverwritten)
      && (o.state.alreadyOverwritten == (st.alreadyOverwritten || o.truncated))
      && (!o.truncated && dest in st.files ==> st.files[dest] <= o.state.files[dest])
  {
    var dest := DestinationFor(opts, root, file).value;
    var op := Open(opts, st.files, st.alreadyOverwritten, dest);
    if op.Ok? && file != dest && file in op.value.files {
      var s := ScanLines(opts, num, Seed(opts, st), op.value.files[file]);
      var o := ConvertFile(opts, num, root, st, file);
      assert o.state.files == op.value.files[dest := op.value.files[dest] + s.output];
    }
  }

  /**
   * The guard after a call: left alone when a line threw or the source could not be read;
   * otherwise set exactly when it was seeded or the file held a header. In single mode a set
   * guard therefore never goes back to false.
   */
  lemma HeaderFlagAfterCall<D>(opts: Options, num: Numerics<D>, root: string, st: RunState, file: string)
    ensures var o := ConvertFile(opts, num, root, st, file);
      && (o.failure.Some? ==> o.state.hasWrittenHeader == st.hasWrittenHeader)
      && (Seed(opts, st) ==> o.state.hasWrittenHeader)
  {
    var o := ConvertFile(opts, num, root, st, file);
    if DestinationFor(opts, root, file).Ok? {
      var dest := DestinationFor(opts, root, file).value;
      var op := Open(opts, st.files, st.alreadyOverwritten, dest);
      if op.Ok? && file != dest && file in op.value.files {
        HeaderWrittenFromSeed(opts, num, Seed(opts, st), op.value.files[file]);
      }
    }
  }

  /**
   * A call on a well-formed source (every data line has a field 6) throws nothing, appends the
   * emissions of its lines and stores the guard as seeded-or-header-seen.
   */
  lemma ConvertCompleteFile<D>(opts: Options, num: Numerics<D>, root: string, st: RunState, file: string)
    requires DestinationFor(opts, root, file).Ok?
    requires HasDirectory(DestinationFor(opts, root, file).value)
    requires file != DestinationFor(opts, root, file).value && file in st.files
    requires AllDataLinesComplete(st.files[file])
    ensures var o, dest, lines := ConvertFile(opts, num, root, st, file), DestinationFor(opts, root, file).value, st.files[file];
      && o.failure == None
      && o.state.files[dest] == (if o.truncated then [] else if dest in st.files then st.files[dest] else [])
                               + Emissions(opts, num, Seed(opts, st), lines)
      && o.state.hasWrittenHeader == (Seed(opts, st) || HeaderAmong(lines))
  {
    var dest := DestinationFor(opts, root, file).value;
    var op := Open(opts, st.files, st.alreadyOverwritten, dest);
    assert op.value.files[file] == st.files[file];
    ScanMatchesEmissions(opts, num, Seed(opts, st), st.files[file]);
  }

  /**
   * Whatever happens, a call only adds: no file disappears, the standard-error lines only
   * grow, a set overwrite flag stays set, and an open truncates only while the flag is clear,
   * setting it.
   */
  lemma CallOnlyAdds<D>(opts: Options, num: Numerics<D>, root: string, st: RunState, file: string)
    ensures var o := ConvertFile(opts, num, root, st, file);
      && st.files.Keys <= o.state.files.Keys
      && st.errors <= o.state.errors
      && (st.alreadyOverwritten ==> o.state.alreadyOverwritten)
      && (o.truncated ==> !st.alreadyOverwritten && o.state.alreadyOverwritten)
  {
    var o := ConvertFile(opts, num, root, st, file);
    var d := DestinationFor(opts, root, file);
    if d.Ok? {
      ConvertFileAppends(opts, num, root, st, file);
      var op := Open(opts, st.files, st.alreadyOverwritten, d.value);
      if op.Ok? && file != d.value && file in op.value.files {
        var sc := ScanLines(opts, num, Seed(opts, st), op.value.files[file]);
        assert o.state.errors == st.errors + sc.diagnostics;
      } else {
        assert o.state.errors == st.errors;
      }
    }
  }

  // ---------------------------------------------------------------------------------------
  // A whole run.

  lemma {:induction false} RunStopsAfterFailure<D>(opts: Options, num: Numerics<D>, root: string, st: RunState, sources: seq<string>, k: nat)
    requires k <= |sources|
    requires RunFiles(opts, num, root, st, sources[..k]).failure.Some?
    ensures RunFiles(opts, num, root, st, sources) == RunFiles(opts, num, root, st, sources[..k])
    decreases |sources|
  {
    if k < |sources| {
      var init := sources[..|sources| - 1];
      assert init[..k] == sources[..k];
      RunStopsAfterFailure(opts, num, root, st, init, k);
    } else {
      assert sources[..k] == sources;
    }
  }

  /**
   * Overwrite-once: over a whole run at most one open truncates, and it is counted exactly when
   * the flag went from clear to set; once set it stays set.
   */
  lemma {:induction false} AtMostOneTruncation<D>(opts: Options, num: Numerics<D>, root: string, st: RunState, sources: seq<string>)
    ensures var r := RunFiles(opts, num, root, st, sources);
      && (st.alreadyOverwritten ==> r.state.alreadyOverwritten)
      && r.truncations == (if r.state.alreadyOverwritten && !st.alreadyOverwritten then 1 else 0)
    decreases |sources|
  {
    if |sources| > 0 {
      var init := sources[..|sources| - 1];
      AtMostOneTruncation(opts, num, root, st, init);
      var r := RunFiles(opts, num, root, st, init);
      var file := sources[|sources| - 1];
      if r.failure.None? && DestinationFor(opts, root, file).Ok? {
        ConvertFileAppends(opts, num, root, r.state, file);
      }
    }
  }

  /**
   * A run only adds to what it starts from: files, standard-error lines and the overwrite
   * flag; and in single mode a header once written stays recorded, so no later file writes
   * another.
   */
  lemma {:induction false} RunOnlyAdds<D>(opts: Options, num: Numerics<D>, root: string, st: RunState, sources: seq<string>)
    ensures var r := RunFiles(opts, num, root, st, sources);
      && st.files.Keys <= r.state.files.Keys
      && st.errors <= r.state.errors
      && (st.alreadyOverwritten ==> r.state.alreadyOverwritten)
      && (opts.singleDestinationFile && st.hasWrittenHeader ==> r.state.hasWrittenHeader)
    decreases |sources|
  {
    if |sources| > 0 {
      var init := sources[..|sources| - 1];
      RunOnlyAdds(opts, num, root, st, init);
      var r := RunFiles(opts, num, root, st, init);
      if r.failure.None? {
        CallOnlyAdds(opts, num, root, r.state, sources[|sources| - 1]);
        HeaderFlagAfterCall(opts, num, root, r.state, sources[|sources| - 1]);
      }
    }
  }

  /**
   * Without overwriting nothing is truncated: every file that existed before a run still starts
   * with the lines it had.
   */
  lemma {:induction false} AppendOnlyWithoutOverwrite<D>(opts: Options, num: Numerics<D>, root: string, st: RunState, sources: seq<string>)
    requires !opts.overwrite
    ensures var r := RunFiles(opts, num, root, st, sources);
      && r.truncations == 0
      && st.files.Keys <= r.state.files.Keys
      && forall p :: p in st.files ==> st.files[p] <= r.state.files[p]
    decreases |sources|
  {
    if |sources| > 0 {
      var init := sources[..|sources| - 1];
      AppendOnlyWithoutOverwrite(opts, num, root, st, init);
      var r := RunFiles(opts, num, root, st, init);
      if r.failure.None? {
        var o := ConvertFile(opts, num, root, r.state, sources[|sources| - 1]);
        CallAppendsWithoutOverwrite(opts, num, root, r.state, sources[|sources| - 1]);
        forall p | p in st.files ensures st.files[p] <= o.state.files[p] {
          assert st.files[p] <= r.state.files[p];
        }
      }
    }
  }

  /** Without `-o` one call truncates nothing and every existing file keeps its lines as a prefix. */
  lemma CallAppendsWithoutOverwrite<D>(opts: Options, num: Numerics<D>, root: string, st: RunState, file: string)
    requires !opts.overwrite
    ensures var o := ConvertFile(opts, num, root, st, file);
      && !o.truncated
      && st.files.Keys <= o.state.files.Keys
      && forall p :: p in st.files ==> st.files[p] <= o.state.files[p]
  {
    if DestinationFor(opts, root, file).Ok? {
      ConvertFileAppends(opts, num, root, st, file);
    }
  }

  /** Lines of `files[path]` that read as headers; 0 for a missing file. */
  function HeadersIn(files: map<string, seq<string>>, path: string): nat {
    if path in files then HeaderLines(files[path]) else 0
  }

  /**
   * Single mode: across a whole run the merged file gains at most one header line, so when it
   * starts with none (or does not exist) it ends with at most one, however many source files
   * carry a header.
   */
  lemma {:induction false} SingleFileGainsOneHeader<D>(opts: Options, num: Numerics<D>, root: string, st: RunState, sources: seq<string>)
    requires opts.singleDestinationFile && !st.hasWrittenHeader
    requires SeparatorKeepsHeadersApart(opts.fieldSeparator)
    ensures var r, dest := RunFiles(opts, num, root, st, sources), Combine(opts.destinationPath, opts.destinationFile);
      HeadersIn(r.state.files, dest)
        <= HeadersIn(st.files, dest) + (if r.failure.None? && !r.state.hasWrittenHeader then 0 else 1)
    decreases |sources|
  {
    if |sources| > 0 {
      var init := sources[..|sources| - 1];
      SingleFileGainsOneHeader(opts, num, root, st, init);
      var r := RunFiles(opts, num, root, st, init);
      if r.failure.None? {
        var o := ConvertFile(opts, num, root, r.state, sources[|sources| - 1]);
        assert RunFiles(opts, num, root, st, sources).state == o.state;
        assert RunFiles(opts, num, root, st, sources).failure == o.failure;
        SingleFileCall(opts, num, root, r.state, sources[|sources| - 1]);
      }
    }
  }

  /** One call in single mode adds a header to the merged file only when it sets the guard. */
  lemma SingleFileCall<D>(opts: Options, num: Numerics<D>, root: string, st: RunState, file: string)
    requires opts.singleDestinationFile
    requires SeparatorKeepsHeadersApart(opts.fieldSeparator)
    ensures var o, dest := ConvertFile(opts, num, root, st, file), Combine(opts.destinationPath, opts.destinationFile);
      && (st.hasWrittenHeader ==> o.state.hasWrittenHeader)
      && HeadersIn(o.state.files, dest) <= HeadersIn(st.files, dest)
           + (if st.hasWrittenHeader || (o.failure.None? && !o.state.hasWrittenHeader) then 0 else 1)
  {
    var dest := Combine(opts.destinationPath, opts.destinationFile);
    HeaderFlagAfterCall(opts, num, root, st, file);
    var op := Open(opts, st.files, st.alreadyOverwritten, dest);
    if op.Ok? && file != dest && file in op.value.files {
      var lines := op.value.files[file];
      var s := ScanLines(opts, num, Seed(opts, st), lines);
      HeaderWrittenAtMostOnce(opts, num, Seed(opts, st), lines);
      var before := op.value.files[dest];
      HeaderLinesAppend(before, s.output);
      assert HeaderLines(before) <= HeadersIn(st.files, dest) by {
        if op.value.truncated { assert before == []; }
      }
    }
  }

  // ---------------------------------------------------------------------------------------
  // Single mode: the merged file.

  /** Every source is readable, is not the merged file and has a field 6 on each data line. */
  predicate CompleteSources(files: map<string, seq<string>>, sources: seq<string>, dest: string) {
    forall i :: 0 <= i < |sources| ==> sources[i] != dest && sources[i] in files && AllDataLinesComplete(files[sources[i]])
  }

  /** The header guard after reading `sources` in order: seeded, or some source held a header. */
  function GuardAfter(seed: bool, files: map<string, seq<string>>, sources: seq<string>): bool
    requires forall i :: 0 <= i < |sources| ==> sources[i] in files
    decreases |sources|
  {
    if |sources| == 0 then seed
    else GuardAfter(seed, files, sources[..|sources| - 1]) || HeaderAmong(files[sources[|sources| - 1]])
  }

  /**
   * Reference definition of what single mode writes: the emissions of each source in
   * enumeration order, each source seeded with whether a header came before it.
   */
  function MergedEmissions<D>(opts: Options, num: Numerics<D>, seed: bool, files: map<string, seq<string>>, sources: seq<string>): seq<string>
    requires forall i :: 0 <= i < |sources| ==> sources[i] in files && AllDataLinesComplete(files[sources[i]])
    decreases |sources|
  {
    if |sources| == 0 then []
    else
      var init := sources[..|sources| - 1];
      MergedEmissions(opts, num, seed, files, init)
        + Emissions(opts, num, GuardAfter(seed, files, init), files[sources[|sources| - 1]])
  }

  /**
   * One call in single mode on a well-formed source: nothing throws, the merged file (emptied
   * when this open truncated it) gains the source's emissions under the current guard, the
   * guard records a header of the source, and no other file changes.
   */
  lemma SingleModeCall<D>(opts: Options, num: Numerics<D>, root: string, st: RunState, file: string)
    requires opts.singleDestinationFile
    requires HasDirectory(Combine(opts.destinationPath, opts.destinationFile))
    requires file != Combine(opts.destinationPath, opts.destinationFile) && file in st.files
    requires AllDataLinesComplete(st.files[file])
    ensures var o, dest := ConvertFile(opts, num, root, st, file), Combine(opts.destinationPath, opts.destinationFile);
      && o.failure == None
      && o.truncated == (opts.overwrite && dest in st.files && !st.alreadyOverwritten)
      && o.state.alreadyOverwritten == (st.alreadyOverwritten || o.truncated)
      && dest in o.state.files
      && o.state.files[dest] == (if o.truncated then [] else Existing(st.files, dest)) + Emissions(opts, num, st.hasWrittenHeader, st.files[file])
      && o.state.hasWrittenHeader == (st.hasWrittenHeader || HeaderAmong(st.files[file]))
      && (forall p :: p in st.files && p != dest ==> p in o.state.files && o.state.files[p] == st.files[p])
  {
    ConvertCompleteFile(opts, num, root, st, file);
    ConvertFileAppends(opts, num, root, st, file);
  }

  /** The merged file and guard after one more source, as the reference definitions grow. */
  lemma MergedOneMore<D>(opts: Options, num: Numerics<D>, seed: bool, files: map<string, seq<string>>, sources: seq<string>)
    requires |sources| > 0
    requires forall i :: 0 <= i < |sources| ==> sources[i] in files && AllDataLinesComplete(files[sources[i]])
    ensures var init := sources[..|sources| - 1];
      && MergedEmissions(opts, num, seed, files, sources)
         == MergedEmissions(opts, num, seed, files, init) + Emissions(opts, num, GuardAfter(seed, files, init), files[sources[|sources| - 1]])
      && GuardAfter(seed, files, sources) == (GuardAfter(seed, files, init) || HeaderAmong(files[sources[|sources| - 1]]))
  {
  }

  lemma SeqAssoc(a: seq<string>, b: seq<string>, c: seq<string>)
    ensures (a + b) + c == a + (b + c)
  {
  }

  lemma EmptyBefore(before: seq<string>, added: seq<string>)
    requires before == []
    ensures before + added == added
  {
  }

  /** What single mode keeps of the merged file's old lines, once `n` sources have been opened. */
  function Kept(opts: Options, st: RunState, dest: string, n: nat): seq<string> {
    if n > 0 && opts.overwrite && !st.alreadyOverwritten then [] else Existing(st.files, dest)
  }

  /**
   * Single mode over well-formed sources: nothing throws, the merged file holds what it held
   * before (nothing when the first open truncated it) followed by `MergedEmissions`, the guard
   * ends as `GuardAfter`, and no other file changes. This needs the merged file to exist
   * already, or overwriting to be off or used up: see `SecondOpenTruncates` for the other case.
   */
  lemma {:induction false} SingleModeMerges<D>(opts: Options, num: Numerics<D>, root: string, st: RunState, sources: seq<string>)
    requires opts.singleDestinationFile
    requires HasDirectory(Combine(opts.destinationPath, opts.destinationFile))
    requires CompleteSources(st.files, sources, Combine(opts.destinationPath, opts.destinationFile))
    requires Combine(opts.destinationPath, opts.destinationFile) in st.files || !opts.overwrite || st.alreadyOverwritten
    ensures var r, dest := RunFiles(opts, num, root, st, sources), Combine(opts.destinationPath, opts.destinationFile);
      && r.failure == None
      && Existing(r.state.files, dest) == Kept(opts, st, dest, |sources|) + MergedEmissions(opts, num, st.hasWrittenHeader, st.files, sources)
      && r.state.hasWrittenHeader == GuardAfter(st.hasWrittenHeader, st.files, sources)
      && (|sources| > 0 ==> dest in r.state.files && (!opts.overwrite || r.state.alreadyOverwritten))
      && (forall p :: p in st.files && p != dest ==> p in r.state.files && r.state.files[p] == st.files[p])
    decreases |sources|
  {
    var dest := Combine(opts.destinationPath, opts.destinationFile);
    if |sources| > 0 {
      var init := sources[..|sources| - 1];
      var file := sources[|sources| - 1];
      assert CompleteSources(st.files, init, dest) by {
        assert forall i :: 0 <= i < |init| ==> init[i] == sources[i];
      }
      SingleModeMerges(opts, num, root, st, init);
      var r := RunFiles(opts, num, root, st, init);
      assert file in r.state.files && r.state.files[file] == st.files[file];
      SingleModeCall(opts, num, root, r.state, file);
      var o := ConvertFile(opts, num, root, r.state, file);
      assert RunFiles(opts, num, root, st, sources).state == o.state;
      MergedOneMore(opts, num, st.hasWrittenHeader, st.files, sources);
      var before := MergedEmissions(opts, num, st.hasWrittenHeader, st.files, init);
      var added := Emissions(opts, num, GuardAfter(st.hasWrittenHeader, st.files, init), st.files[file]);
      assert o.state.files[dest] == Kept(opts, st, dest, |sources|) + (before + added) by {
        if |init| > 0 {
          assert !o.truncated;
          assert o.state.files[dest] == r.state.files[dest] + added;
          assert r.state.files[dest] == Kept(opts, st, dest, |init|) + before;
          assert Kept(opts, st, dest, |init|) == Kept(opts, st, dest, |sources|);
          SeqAssoc(Kept(opts, st, dest, |sources|), before, added);
        } else {
          EmptyBefore(before, added);
          assert r.state == st;
          assert before == [];
          assert o.state.files[dest] == (if o.truncated then [] else Existing(st.files, dest)) + added;
          assert (if o.truncated then [] else Existing(st.files, dest)) == Kept(opts, st, dest, |sources|);
        }
      }
    }
  }
}
