/**
 * The conversion of small files made of one header line and one data line: a zero-loss row
 * trimmed away, two files merged into one pre-existing destination, and the same two files
 * merged into a destination that does not exist yet, where the second open truncates what the
 * first file wrote.
 */
module Scenarios {
  import opened Wrappers
  import opened Text
  import opened Settings
  import opened Paths
  import opened LineConversion
  import opened LineProperties
  import opened Destination
  import opened RunSpec

  /** The line written for a kept data line. */
  function Row<D>(opts: Options, num: Numerics<D>, line: string): string
    requires |Fields(line)| >= 7
  {
    Join(RewriteFields(opts, num, Fields(line)), opts.fieldSeparator)
  }

  lemma PairShape(lines: seq<string>)
    requires |lines| == 2
    ensures lines == [lines[0], lines[1]]
  {
  }

  lemma AppendToPair(x: string, y: string, z: string)
    ensures [x, y] + [z] == [x, y, z]
  {
  }

  /** A header line followed by a data line with a field 6. */
  predicate HeaderThenData(header: string, data: string) {
    IsHeaderLine(header) && !IsHeaderLine(data) && |Fields(data)| >= 7
  }

  /** What such a file emits: its header unless one came before, then its data line unless dropped. */
  lemma EmissionsOfPair<D>(opts: Options, num: Numerics<D>, seed: bool, header: string, data: string)
    requires HeaderThenData(header, data)
    ensures AllDataLinesComplete([header, data]) && HeaderAmong([header, data])
    ensures Emissions(opts, num, seed, [header, data])
         == (if seed then [] else [Join(Fields(header), opts.fieldSeparator)])
            + (if Dropped(opts, num, Fields(data)) then [] else [Row(opts, num, data)])
    ensures !seed && !Dropped(opts, num, Fields(data)) ==>
      Emissions(opts, num, seed, [header, data]) == [Join(Fields(header), opts.fieldSeparator), Row(opts, num, data)]
    ensures seed && !Dropped(opts, num, Fields(data)) ==>
      Emissions(opts, num, seed, [header, data]) == [Row(opts, num, data)]
  {
    var h := if seed then [] else [Join(Fields(header), opts.fieldSeparator)];
    var d := if Dropped(opts, num, Fields(data)) then [] else [Row(opts, num, data)];
    PairIsSnoc(header, data);
    PairFacts(header, data);
    HeaderEmission(opts, num, seed, header);
    DataEmission(opts, num, true, data);
    EmissionsSnoc(opts, num, seed, [], header);
    EmissionsSnoc(opts, num, seed, [header], data);
    EmptyBefore([], h);
    if !Dropped(opts, num, Fields(data)) {
      AppendOne([Join(Fields(header), opts.fieldSeparator)], Row(opts, num, data));
      EmptyBefore([], [Row(opts, num, data)]);
    }
  }

  lemma PairFacts(header: string, data: string)
    requires HeaderThenData(header, data)
    ensures AllDataLinesComplete([header, data]) && HeaderAmong([header]) && HeaderAmong([header, data]) && !HeaderAmong([])
  {
    assert IsHeaderLine([header][0]) && IsHeaderLine([header, data][0]);
    assert [header, data][1] == data;
  }

  /** A header line emits itself rejoined, unless a header came before. */
  lemma HeaderEmission<D>(opts: Options, num: Numerics<D>, seen: bool, header: string)
    requires IsHeaderLine(header)
    ensures Emission(opts, num, seen, header) == if seen then [] else [Join(Fields(header), opts.fieldSeparator)]
  {
  }

  /** A data line emits its rewritten row, unless the filter drops it. */
  lemma DataEmission<D>(opts: Options, num: Numerics<D>, seen: bool, data: string)
    requires !IsHeaderLine(data) && |Fields(data)| >= 7
    ensures Emission(opts, num, seen, data) == if Dropped(opts, num, Fields(data)) then [] else [Row(opts, num, data)]
  {
  }

  /** The emissions of one more line. */
  lemma EmissionsSnoc<D>(opts: Options, num: Numerics<D>, seed: bool, lines: seq<string>, line: string)
    requires AllDataLinesComplete(lines + [line])
    ensures AllDataLinesComplete(lines) && HasLossField(line)
    ensures Emissions(opts, num, seed, lines + [line]) == Emissions(opts, num, seed, lines) + Emission(opts, num, seed || HeaderAmong(lines), line)
  {
    var all := lines + [line];
    assert all[..|lines|] == lines && all[|lines|] == line;
    assert forall i :: 0 <= i < |lines| ==> lines[i] == all[i];
  }

  lemma PairIsSnoc(x: string, y: string)
    ensures [x, y] == [x] + [y] && [x] == [] + [x]
  {
  }

  lemma AppendOne(xs: seq<string>, y: string)
    ensures |xs| == 1 ==> xs + [y] == [xs[0], y]
  {
  }

  /**
   * With `TrimZeroLossLines` set, a file of a header and a zero-loss data line converts to the
   * header alone, and the line counter passes the header only.
   */
  lemma ZeroLossLineTrimmed<D>(opts: Options, num: Numerics<D>, header: string, data: string)
    requires opts.trimZeroLossLines && HeaderThenData(header, data)
    requires num.belowEpsilon(LossOf(num, Fields(data)[6]))
    ensures var s := ScanLines(opts, num, false, [header, data]);
      s.failure == None && s.output == [Join(Fields(header), opts.fieldSeparator)] && s.lineNo == 2
  {
    EmissionsOfPair(opts, num, false, header, data);
    ScanMatchesEmissions(opts, num, false, [header, data]);
    CountsOfCompleteInput(opts, num, false, [header, data]);
    assert [header, data][..1] == [header] && [header][..0] == [];
  }

  /** A run over two sources is the second call on the first call's state, unless the first threw. */
  lemma RunOfTwo<D>(opts: Options, num: Numerics<D>, root: string, st: RunState, a: string, b: string)
    ensures var o1 := ConvertFile(opts, num, root, st, a);
      var o2 := ConvertFile(opts, num, root, o1.state, b);
      RunFiles(opts, num, root, st, [a, b])
        == if o1.failure.Some? then RunOutcome(o1.state, o1.failure, if o1.truncated then 1 else 0)
           else RunOutcome(o2.state, o2.failure, (if o1.truncated then 1 else 0) + (if o2.truncated then 1 else 0))
  {
    assert [a, b][..1] == [a] && [a][..0] == [];
    var o1 := ConvertFile(opts, num, root, st, a);
    assert RunFiles(opts, num, root, st, []) == RunOutcome(st, None, 0);
    assert RunFiles(opts, num, root, st, [a]) == RunOutcome(o1.state, o1.failure, if o1.truncated then 1 else 0);
  }

  /** Two sources of a header and a kept data line each, neither of them the merged file `dest`. */
  predicate TwoSources<D>(opts: Options, num: Numerics<D>, files: map<string, seq<string>>, a: string, b: string, dest: string) {
    && a != dest && b != dest && a in files && b in files
    && |files[a]| == 2 && HeaderThenData(files[a][0], files[a][1]) && !Dropped(opts, num, Fields(files[a][1]))
    && |files[b]| == 2 && HeaderThenData(files[b][0], files[b][1]) && !Dropped(opts, num, Fields(files[b][1]))
  }

  /**
   * Single mode with overwriting, into a merged file that already exists: its old content is
   * truncated once, by the first open, and it ends as the first header followed by both data
   * rows in enumeration order; the second header is dropped.
   */
  lemma TwoFilesMergeIntoExisting<D>(opts: Options, num: Numerics<D>, root: string, st: RunState, a: string, b: string)
    requires opts.singleDestinationFile && opts.overwrite
    requires HasDirectory(Combine(opts.destinationPath, opts.destinationFile))
    requires Combine(opts.destinationPath, opts.destinationFile) in st.files
    requires !st.alreadyOverwritten && !st.hasWrittenHeader
    requires TwoSources(opts, num, st.files, a, b, Combine(opts.destinationPath, opts.destinationFile))
    ensures var r, dest := RunFiles(opts, num, root, st, [a, b]), Combine(opts.destinationPath, opts.destinationFile);
      && r.failure == None && r.truncations == 1
      && r.state.files[dest] == [Join(Fields(st.files[a][0]), opts.fieldSeparator), Row(opts, num, st.files[a][1]), Row(opts, num, st.files[b][1])]
  {
    var dest := Combine(opts.destinationPath, opts.destinationFile);
    var fa, fb := st.files[a], st.files[b];
    var header, rowA, rowB := Join(Fields(fa[0]), opts.fieldSeparator), Row(opts, num, fa[1]), Row(opts, num, fb[1]);
    var o := ConvertFile(opts, num, root, st, a);
    assert && o.failure == None && o.truncated && o.state.hasWrittenHeader
           && dest in o.state.files && o.state.files[dest] == [header, rowA]
           && b in o.state.files && o.state.files[b] == fb by {
      PairShape(fa);
      EmissionsOfPair(opts, num, false, fa[0], fa[1]);
      SingleModeCall(opts, num, root, st, a);
      EmptyBefore([], [header, rowA]);
    }
    var o2 := ConvertFile(opts, num, root, o.state, b);
    assert o2.failure == None && !o2.truncated && o2.state.files[dest] == [header, rowA, rowB] by {
      PairShape(fb);
      EmissionsOfPair(opts, num, true, fb[0], fb[1]);
      SingleModeCall(opts, num, root, o.state, b);
      AppendToPair(header, rowA, rowB);
    }
    RunOfTwo(opts, num, root, st, a, b);
  }

  /**
   * Single mode with overwriting, into a merged file that does not exist yet: the first open
   * creates it without using up the overwrite-once flag, so the second open finds it and
   * truncates it. The merged file loses the header and the first file's row, keeping only the
   * second file's data row, whose header the guard has already dropped.
   */
  lemma SecondOpenTruncates<D>(opts: Options, num: Numerics<D>, root: string, st: RunState, a: string, b: string)
    requires opts.singleDestinationFile && opts.overwrite
    requires HasDirectory(Combine(opts.destinationPath, opts.destinationFile))
    requires Combine(opts.destinationPath, opts.destinationFile) !in st.files
    requires !st.alreadyOverwritten && !st.hasWrittenHeader
    requires TwoSources(opts, num, st.files, a, b, Combine(opts.destinationPath, opts.destinationFile))
    ensures var r, dest := RunFiles(opts, num, root, st, [a, b]), Combine(opts.destinationPath, opts.destinationFile);
      && r.failure == None && r.truncations == 1 && r.state.hasWrittenHeader
      && r.state.files[dest] == [Row(opts, num, st.files[b][1])]
  {
    var dest := Combine(opts.destinationPath, opts.destinationFile);
    var fa, fb := st.files[a], st.files[b];
    assert fa == [fa[0], fa[1]] && fb == [fb[0], fb[1]];
    EmissionsOfPair(opts, num, false, fa[0], fa[1]);
    EmissionsOfPair(opts, num, true, fb[0], fb[1]);
    SingleModeCall(opts, num, root, st, a);
    var o := ConvertFile(opts, num, root, st, a);
    assert !o.truncated;
    SingleModeCall(opts, num, root, o.state, b);
    RunOfTwo(opts, num, root, st, a, b);
  }
}
