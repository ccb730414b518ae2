/**
 * The converter as the objects it is: a `Converter` whose methods open destinations, convert
 * files line by line and update the header guard and the overwrite-once flag in place, over a
 * `FileSystem` that only grows files by appending, apart from the one `FileMode.Create` open.
 * Each method is proved to do what `RunSpec` says of it.
 */
module Converter {
  import opened Wrappers
  import opened Text
  import opened Integers
  import opened Calendar
  import opened Settings
  import opened Paths
  import opened LineConversion
  import opened LineProperties
  import opened Destination
  import opened RunSpec

  /** Appending nothing to a file leaves the file map as it was. */
  lemma AppendNothing(files: map<string, seq<string>>, path: string)
    requires path in files
    ensures files[path := files[path] + []] == files
  {
    assert files[path] + [] == files[path];
  }

  /**
   * A turn of the line loop appends `t` to a state that already holds `s` on top of `files` and
   * `errors`: the result holds both, in order.
   */
  lemma TurnAppends(files: map<string, seq<string>>, errors: seq<Diagnostic>, path: string, s: Scan, t: Scan,
                    files': map<string, seq<string>>, errors': seq<Diagnostic>)
    requires path in files
    requires files' == files[path := files[path] + s.output][path := files[path] + s.output + t.output]
    requires errors' == errors + s.diagnostics + t.diagnostics
    ensures files' == files[path := files[path] + (s.output + t.output)]
    ensures errors' == errors + (s.diagnostics + t.diagnostics)
  {
    assert files[path] + s.output + t.output == files[path] + (s.output + t.output);
  }

  /** Two batches of reports are one batch of both. */
  lemma ReportTwice(errors: seq<Diagnostic>, a: seq<Diagnostic>, b: seq<Diagnostic>)
    ensures errors + a + b == errors + (a + b)
  {
  }

  /** The files (path to lines) and the standard-error channel. */
  class FileSystem {
    var files: map<string, seq<string>>
    var errors: seq<Diagnostic>

    constructor (files: map<string, seq<string>>)
      ensures this.files == files && errors == []
    {
      this.files := files;
      errors := [];
    }

    /** `File.Open(path, FileMode.Create, …)`: the file emptied, or created empty. */
    method Truncate(path: string)
      modifies this
      ensures files == old(files)[path := []] && errors == old(errors)
    {
      files := files[path := []];
    }

    /** `File.Open(path, FileMode.Append, …)`: the file kept, or created empty. */
    method OpenForAppend(path: string)
      modifies this
      ensures files == old(files)[path := if path in old(files) then old(files)[path] else []]
      ensures errors == old(errors)
    {
      if path !in files {
        files := files[path := []];
      } else {
        assert files == files[path := files[path]];
      }
    }

    /** `StreamWriter.WriteLine` on the open destination: one line at the end. */
    method WriteLine(path: string, line: string)
      requires path in files
      modifies this
      ensures files == old(files)[path := old(files)[path] + [line]] && errors == old(errors)
    {
      files := files[path := files[path] + [line]];
    }

    /** `Console.Error.WriteLine`. */
    method Report(d: Diagnostic)
      modifies this
      ensures errors == old(errors) + [d] && files == old(files)
    {
      errors := errors + [d];
    }
  }

  class Converter<D> {
    const options: Options
    const numerics: Numerics<D>
    /** `Path.GetFullPath(options.SourcePath)`, computed by the caller. */
    const sourceFullPath: string
    const fs: FileSystem
    /** `Options.HasWrittenHeader`, the option the converter writes back. */
    var hasWrittenHeader: bool
    var alreadyOverwritten: bool

    function State(): RunState
      reads this, fs
    {
      RunState(fs.files, fs.errors, hasWrittenHeader, alreadyOverwritten)
    }

    constructor (options: Options, numerics: Numerics<D>, sourceFullPath: string, fs: FileSystem)
      ensures this.options == options && this.numerics == numerics
      ensures this.sourceFullPath == sourceFullPath && this.fs == fs
      ensures !hasWrittenHeader && !alreadyOverwritten
    {
      this.options := options;
      this.numerics := numerics;
      this.sourceFullPath := sourceFullPath;
      this.fs := fs;
      hasWrittenHeader := false;
      alreadyOverwritten := false;
    }

    /** Opens `destinationFile` for writing; `None` when it is open, the exception otherwise. */
    method OpenFileStream(destinationFile: string) returns (failure: Option<Failure>)
      modifies this, fs
      ensures match Open(options, old(fs.files), old(alreadyOverwritten), destinationFile)
        case Err(e) => failure == Some(e) && State() == old(State())
        case Ok(h) => failure == None && State() == old(State()).(files := h.files, alreadyOverwritten := h.alreadyOverwritten)
    {
      if !HasDirectory(destinationFile) {
        return Some(NoDirectory(destinationFile));
      }
      if options.overwrite && destinationFile in fs.files && !alreadyOverwritten {
        alreadyOverwritten := true;
        fs.Truncate(destinationFile);
        return None;
      }
      fs.OpenForAppend(destinationFile);
      return None;
    }

    /** Works out where `sourceFile` is converted to and opens it; the path, or the exception. */
    method GetDestinationFile(sourceFile: string) returns (r: Result<string, Failure>)
      modifies this, fs
      ensures match DestinationFor(options, sourceFullPath, sourceFile)
        case Err(e) => r == Err(e) && State() == old(State())
        case Ok(path) =>
          match Open(options, old(fs.files), old(alreadyOverwritten), path)
          case Err(e) => r == Err(e) && State() == old(State())
          case Ok(h) => r == Ok(path) && State() == old(State()).(files := h.files, alreadyOverwritten := h.alreadyOverwritten)
    {
      var destinationFile;
      if options.singleDestinationFile {
        destinationFile := Combine(options.destinationPath, options.destinationFile);
      } else {
        var sourceDir := DirectoryName(sourceFile);
        var fileName := FileName(sourceFile);
        if sourceDir.None? {
          return Err(NoDirectory(sourceFile));
        }
        if |sourceFullPath| > |sourceDir.value| {
          return Err(SubPathOutOfRange(sourceDir.value));
        }
        var subPath := sourceDir.value[|sourceFullPath|..];
        if |subPath| > 0 && subPath[0] == '\\' {
          subPath := subPath[1..];
        }
        var destinationSubPath := Combine(options.destinationPath, subPath);
        destinationFile := Combine(destinationSubPath, fileName);
      }
      var failure := OpenFileStream(destinationFile);
      if failure.Some? {
        return Err(failure.value);
      }
      return Ok(destinationFile);
    }

    /**
     * Converts `file` into its destination and, when no line threw, stores the guard back.
     * `None` when the whole file was converted.
     */
    method ConvertFile(file: string) returns (failure: Option<Failure>)
      modifies this, fs
      ensures var o := RunSpec.ConvertFile(options, numerics, sourceFullPath, old(State()), file);
        State() == o.state && failure == o.failure
    {
      var destination := GetDestinationFile(file);
      if destination.Err? {
        return Some(destination.error);
      }
      var dest := destination.value;
      if file == dest {
        return Some(SharingViolation(file));
      }
      if file !in fs.files {
        return Some(FileNotFound(file));
      }
      var headerWritten;
      ghost var scan, read;
      var seed := options.singleDestinationFile && hasWrittenHeader;
      var lines := fs.files[file];
      headerWritten, failure, scan, read := ConvertLines(dest, lines, seed);
      ScanFinished(options, numerics, seed, lines, read);
      if failure.None? {
        hasWrittenHeader := headerWritten;
      }
    }

    /** The line loop of `ConvertFile`, writing into the open `dest`. */
    method ConvertLines(dest: string, lines: seq<string>, seed: bool)
      returns (headerWritten: bool, failure: Option<Failure>, ghost scan: Scan, ghost read: nat)
      requires dest in fs.files
      modifies fs
      ensures read <= |lines| && scan == ScanLines(options, numerics, seed, lines[..read])
      ensures read == |lines| || failure.Some?
      ensures fs.files == old(fs.files)[dest := old(fs.files)[dest] + scan.output]
      ensures fs.errors == old(fs.errors) + scan.diagnostics
      ensures failure == scan.failure && headerWritten == scan.headerWritten
    {
      ghost var files0, errors0 := fs.files, fs.errors;
      scan := Start(seed);
      headerWritten, failure := seed, None;
      var lineNo := 1;
      var i := 0;
      assert lines[..0] == [];
      AppendNothing(files0, dest);
      while i < |lines|
        invariant 0 <= i <= |lines|
        invariant scan == ScanLines(options, numerics, seed, lines[..i])
        invariant scan.failure.None? && failure.None?
        invariant scan.headerWritten == headerWritten && scan.lineNo == lineNo
        invariant fs.files == files0[dest := files0[dest] + scan.output]
        invariant fs.errors == errors0 + scan.diagnostics
      {
        headerWritten, lineNo, failure, scan := ConvertTurn(dest, lines, seed, i, scan, headerWritten, lineNo, files0, errors0);
        if failure.Some? {
          read := i + 1;
          return;
        }
        i := i + 1;
      }
      read := i;
    }

    /** The turn of the line loop for line `i`, taking the loop's state from `lines[..i]` to `lines[..i + 1]`. */
    method ConvertTurn(dest: string, lines: seq<string>, seed: bool, i: nat, ghost scan: Scan, headerWritten: bool, lineNo: int,
                       ghost files0: map<string, seq<string>>, ghost errors0: seq<Diagnostic>)
      returns (headerWritten': bool, lineNo': int, failure: Option<Failure>, ghost scan': Scan)
      requires i < |lines| && dest in files0
      requires scan == ScanLines(options, numerics, seed, lines[..i]) && scan.failure.None?
      requires scan.headerWritten == headerWritten && scan.lineNo == lineNo
      requires fs.files == files0[dest := files0[dest] + scan.output] && fs.errors == errors0 + scan.diagnostics
      modifies fs
      ensures scan' == ScanLines(options, numerics, seed, lines[..i + 1])
      ensures fs.files == files0[dest := files0[dest] + scan'.output] && fs.errors == errors0 + scan'.diagnostics
      ensures headerWritten' == scan'.headerWritten && lineNo' == scan'.lineNo && failure == scan'.failure
    {
      ghost var t;
      headerWritten', lineNo', failure, t := ConvertLine(dest, lines[i], i, headerWritten, lineNo);
      ScanAdvance(options, numerics, seed, lines, i, t);
      TurnAppends(files0, errors0, dest, scan, t, fs.files, fs.errors);
      scan' := ScanLines(options, numerics, seed, lines[..i + 1]);
    }

    /**
     * One turn of the line loop: the line's fields go into an array; a header is written
     * unless the guard is set, a data line is handed to `ConvertDataLine`. `t` is what the
     * turn adds, as `StepFields` computes it.
     */
    method ConvertLine(dest: string, line: string, position: nat, headerWritten: bool, lineNo: int)
      returns (headerWritten': bool, lineNo': int, failure: Option<Failure>, ghost t: Scan)
      requires dest in fs.files
      modifies fs
      ensures t == StepFields(options, numerics, Scan([], headerWritten, lineNo, [], None), Fields(line), position)
      ensures fs.files == old(fs.files)[dest := old(fs.files)[dest] + t.output]
      ensures fs.errors == old(fs.errors) + t.diagnostics
      ensures headerWritten' == t.headerWritten && lineNo' == t.lineNo && failure == t.failure
    {
      var fields := Split(line, InputSeparator);
      var parts := new string[|fields|](k => if 0 <= k < |fields| then fields[k] else "");
      assert parts[..] == fields;
      t := StepFields(options, numerics, Scan([], headerWritten, lineNo, [], None), fields, position);
      if StartsWithIgnoreCase(parts[0], HeaderMarker) {
        headerWritten' := headerWritten;
        if !headerWritten {
          var header := Join(parts[..], options.fieldSeparator);
          assert t.output == [header];
          fs.WriteLine(dest, header);
          headerWritten' := true;
        } else {
          AppendNothing(fs.files, dest);
        }
        return headerWritten', lineNo + 1, None, t;
      }
      headerWritten' := headerWritten;
      ghost var u;
      lineNo', failure, u := ConvertDataLine(dest, parts, position, headerWritten, lineNo);
    }

    /**
     * A data line in the array `parts`: field 1 becomes the timestamp, field 6 the localized
     * loss when numbers are converted, each read throwing when the line is too short; the
     * joined fields are appended unless the line is dropped. `t` is what the line adds, as
     * `DataStep` computes it; the guard `headerWritten` is only carried along.
     */
    method ConvertDataLine(dest: string, parts: array<string>, position: nat, ghost headerWritten: bool, lineNo: int)
      returns (lineNo': int, failure: Option<Failure>, ghost t: Scan)
      requires dest in fs.files
      modifies fs, parts
      ensures t == DataStep(options, numerics, Scan([], headerWritten, lineNo, [], None), old(parts[..]), position)
      ensures fs.files == old(fs.files)[dest := old(fs.files)[dest] + t.output]
      ensures fs.errors == old(fs.errors) + t.diagnostics
      ensures lineNo' == t.lineNo && failure == t.failure
    {
      ghost var fields := parts[..];
      ghost var files0 := fs.files;
      AppendNothing(files0, dest);
      t := DataStep(options, numerics, Scan([], headerWritten, lineNo, [], None), fields, position);
      DataStepCases(options, numerics, headerWritten, lineNo, fields, position);
      lineNo' := lineNo;
      if parts.Length < 2 {
        return lineNo', Some(IndexOutOfRange(position)), t;
      }
      WriteTimestamp(parts, lineNo);
      ghost var epochErrors := EpochDiagnostics(fields, lineNo);
      if parts.Length < 7 {
        return lineNo', Some(IndexOutOfRange(position)), t;
      }
      assert parts[..][6] == fields[6];
      var loss := ReadLoss(parts, lineNo);
      ReportTwice(old(fs.errors), epochErrors, LossDiagnostics(numerics, fields, lineNo));
      assert fs.files == files0;
      if options.trimZeroLossLines && numerics.belowEpsilon(loss) {
        return lineNo', None, t;
      }
      if options.convertNumbers {
        var lossString := numerics.toCurrentCulture(loss);
        parts[6] := lossString;
      }
      assert parts[..] == RewriteFields(options, numerics, fields);
      var result := Join(parts[..], options.fieldSeparator);
      fs.WriteLine(dest, result);
      return lineNo + 1, None, t;
    }

    /** Field 6 of `parts` parsed as a double, reported when it is none; a failed parse gives zero. */
    method ReadLoss(parts: array<string>, lineNo: int) returns (loss: D)
      requires parts.Length >= 7
      modifies fs
      ensures loss == LossOf(numerics, parts[6])
      ensures fs.errors == old(fs.errors) + LossDiagnostics(numerics, parts[..], lineNo)
      ensures fs.files == old(fs.files)
    {
      var lossString := parts[6];
      var lossParsed := numerics.tryParse(lossString);
      if lossParsed.None? {
        fs.Report(NotADouble(lossString, lineNo));
      }
      loss := lossParsed.GetOr(numerics.zero);
    }

    /** Field 1 of `parts` parsed as epoch seconds (reported when it is no integer) and replaced by its UTC rendering. */
    method WriteTimestamp(parts: array<string>, lineNo: int)
      requires parts.Length >= 2
      modifies fs, parts
      ensures parts[..] == old(parts[..])[1 := FormatUnixTime(EpochOf(old(parts[1])))]
      ensures fs.errors == old(fs.errors) + EpochDiagnostics(old(parts[..]), lineNo)
      ensures fs.files == old(fs.files)
    {
      var epoch := ReadEpoch(parts, lineNo);
      var timeStr := FormatUnixTime(epoch);
      parts[1] := timeStr;
    }

    /** Field 1 of `parts` parsed as a 32-bit integer, reported when it is none; a failed parse gives 0. */
    method ReadEpoch(parts: array<string>, lineNo: int) returns (epoch: int)
      requires parts.Length >= 2
      modifies fs
      ensures epoch == EpochOf(parts[1])
      ensures fs.errors == old(fs.errors) + EpochDiagnostics(parts[..], lineNo)
      ensures fs.files == old(fs.files)
    {
      var epochString := parts[1];
      var parsed := TryParseInt32(epochString);
      if parsed.None? {
        fs.Report(NotAnInteger(epochString, lineNo));
      }
      epoch := parsed.GetOr(0);
    }

    /** The `foreach` of `Run` over the given source files, stopping at the first exception. */
    method Run(sources: seq<string>) returns (failure: Option<Failure>)
      modifies this, fs
      ensures var r := RunFiles(options, numerics, sourceFullPath, old(State()), sources);
        State() == r.state && failure == r.failure
    {
      ghost var start := State();
      failure := None;
      assert sources[..0] == [];
      for k := 0 to |sources|
        invariant var r := RunFiles(options, numerics, sourceFullPath, start, sources[..k]);
          State() == r.state && r.failure == None && failure == None
      {
        assert sources[..k + 1][..k] == sources[..k] && sources[..k + 1][k] == sources[k];
        ghost var r := RunFiles(options, numerics, sourceFullPath, start, sources[..k]);
        failure := ConvertFile(sources[k]);
        ghost var o := RunSpec.ConvertFile(options, numerics, sourceFullPath, r.state, sources[k]);
        assert State() == o.state && failure == o.failure;
        assert RunFiles(options, numerics, sourceFullPath, start, sources[..k + 1]) == RunOutcome(o.state, o.failure, r.truncations + (if o.truncated then 1 else 0));
        if failure.Some? {
          RunStopsAfterFailure(options, numerics, sourceFullPath, start, sources, k + 1);
          return;
        }
      }
      assert sources[..|sources|] == sources;
    }
  }
}
