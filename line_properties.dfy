/** What the line loop of `ConvertFile` guarantees, proved about `LineConversion.ScanLines`. */
module LineProperties {
  import opened Wrappers
  import opened Text
  import opened Integers
  import opened Calendar
  import opened CalendarExamples
  import opened Settings
  import opened LineConversion

  /** Once a line has thrown, later lines change nothing: the file's result is the prefix's. */
  lemma {:induction false} ScanStopsAfterFailure<D>(opts: Options, num: Numerics<D>, seed: bool, lines: seq<string>, k: nat)
    requires k <= |lines|
    requires ScanLines(opts, num, seed, lines[..k]).failure.Some?
    ensures ScanLines(opts, num, seed, lines) == ScanLines(opts, num, seed, lines[..k])
    decreases |lines|
  {
    if k < |lines| {
      var init := lines[..|lines| - 1];
      assert init[..k] == lines[..k];
      ScanStopsAfterFailure(opts, num, seed, init, k);
    } else {
      assert lines[..k] == lines;
    }
  }

  /** A loop over the lines that ends at the last line or at an exception has the file's result. */
  lemma ScanFinished<D>(opts: Options, num: Numerics<D>, seed: bool, lines: seq<string>, i: nat)
    requires i <= |lines|
    requires i == |lines| || ScanLines(opts, num, seed, lines[..i]).failure.Some?
    ensures ScanLines(opts, num, seed, lines) == ScanLines(opts, num, seed, lines[..i])
  {
    if i < |lines| {
      ScanStopsAfterFailure(opts, num, seed, lines, i);
    } else {
      assert lines[..i] == lines;
    }
  }

  /** The loop state after one more line. */
  lemma ScanOneMore<D>(opts: Options, num: Numerics<D>, seed: bool, lines: seq<string>, i: nat)
    requires i < |lines|
    ensures ScanLines(opts, num, seed, lines[..i + 1]) == Step(opts, num, ScanLines(opts, num, seed, lines[..i]), lines[i], i)
  {
    assert lines[..i + 1][..i] == lines[..i];
  }

  /** The loop state after one more line, as what converting that line from a clean state adds. */
  lemma ScanAdvance<D>(opts: Options, num: Numerics<D>, seed: bool, lines: seq<string>, i: nat, t: Scan)
    requires i < |lines| && ScanLines(opts, num, seed, lines[..i]).failure.None?
    requires t == StepFields(opts, num, Clean(ScanLines(opts, num, seed, lines[..i])), Fields(lines[i]), i)
    ensures var s := ScanLines(opts, num, seed, lines[..i]);
      ScanLines(opts, num, seed, lines[..i + 1])
        == Scan(s.output + t.output, t.headerWritten, t.lineNo, s.diagnostics + t.diagnostics, t.failure)
  {
    ScanOneMore(opts, num, seed, lines, i);
    StepFromCleanState(opts, num, ScanLines(opts, num, seed, lines[..i]), Fields(lines[i]), i);
  }

  /** The state a line is converted from, with nothing written or reported yet. */
  function Clean(s: Scan): (c: Scan)
    ensures c.output == [] && c.diagnostics == [] && c.failure == None
    ensures c.headerWritten == s.headerWritten && c.lineNo == s.lineNo
  {
    Scan([], s.headerWritten, s.lineNo, [], None)
  }

  /** A step from any state before an exception adds to it what the same step adds to a clean state. */
  lemma StepFromCleanState<D>(opts: Options, num: Numerics<D>, s: Scan, parts: seq<string>, position: nat)
    requires s.failure.None? && |parts| >= 1
    ensures var t, u := StepFields(opts, num, s, parts, position), StepFields(opts, num, Clean(s), parts, position);
      && t.output == s.output + u.output && t.diagnostics == s.diagnostics + u.diagnostics
      && t.headerWritten == u.headerWritten && t.lineNo == u.lineNo && t.failure == u.failure
  {
    if IsHeader(parts) {
      HeaderFromCleanState(opts, s, parts);
    } else {
      DataFromCleanState(opts, num, s, parts, position);
    }
  }

  lemma HeaderFromCleanState(opts: Options, s: Scan, parts: seq<string>)
    ensures var t, u := HeaderStep(opts, s, parts), HeaderStep(opts, Clean(s), parts);
      && t.output == s.output + u.output && t.diagnostics == s.diagnostics + u.diagnostics
      && t.headerWritten == u.headerWritten && t.lineNo == u.lineNo && t.failure == s.failure
  {
    assert s.output + [] == s.output && s.diagnostics + [] == s.diagnostics;
    var row := [Join(parts, opts.fieldSeparator)];
    assert [] + row == row;
  }

  lemma DataFromCleanState<D>(opts: Options, num: Numerics<D>, s: Scan, parts: seq<string>, position: nat)
    requires s.failure.None?
    ensures var t, u := DataStep(opts, num, s, parts, position), DataStep(opts, num, Clean(s), parts, position);
      && t.output == s.output + u.output && t.diagnostics == s.diagnostics + u.diagnostics
      && t.headerWritten == u.headerWritten && t.lineNo == u.lineNo && t.failure == u.failure
  {
    if |parts| < 7 {
      ShortFromCleanState(opts, num, s, parts, position);
    } else if Dropped(opts, num, parts) {
      DroppedFromCleanState(opts, num, s, parts, position);
    } else {
      KeptFromCleanState(opts, num, s, parts, position);
    }
  }

  lemma DroppedFromCleanState<D>(opts: Options, num: Numerics<D>, s: Scan, parts: seq<string>, position: nat)
    requires |parts| >= 7 && Dropped(opts, num, parts)
    ensures var t, u := DataStep(opts, num, s, parts, position), DataStep(opts, num, Clean(s), parts, position);
      && t.output == s.output + u.output && t.diagnostics == s.diagnostics + u.diagnostics
      && t.headerWritten == u.headerWritten && t.lineNo == u.lineNo && t.failure == s.failure && u.failure == None
  {
    var e, l := EpochDiagnostics(parts, s.lineNo), LossDiagnostics(num, parts, s.lineNo);
    assert [] + (e + l) == e + l;
    assert s.output + [] == s.output;
    DataStepDropped(opts, num, s, parts, position);
    DataStepDropped(opts, num, Clean(s), parts, position);
  }

  lemma KeptFromCleanState<D>(opts: Options, num: Numerics<D>, s: Scan, parts: seq<string>, position: nat)
    requires |parts| >= 7 && !Dropped(opts, num, parts)
    ensures var t, u := DataStep(opts, num, s, parts, position), DataStep(opts, num, Clean(s), parts, position);
      && t.output == s.output + u.output && t.diagnostics == s.diagnostics + u.diagnostics
      && t.headerWritten == u.headerWritten && t.lineNo == u.lineNo && t.failure == s.failure && u.failure == None
  {
    var e, l := EpochDiagnostics(parts, s.lineNo), LossDiagnostics(num, parts, s.lineNo);
    assert [] + (e + l) == e + l;
    var row := [Join(RewriteFields(opts, num, parts), opts.fieldSeparator)];
    assert [] + row == row;
    DataStepKept(opts, num, s, parts, position);
    DataStepKept(opts, num, Clean(s), parts, position);
  }

  lemma ShortFromCleanState<D>(opts: Options, num: Numerics<D>, s: Scan, parts: seq<string>, position: nat)
    requires s.failure.None? && |parts| < 7
    ensures var t, u := DataStep(opts, num, s, parts, position), DataStep(opts, num, Clean(s), parts, position);
      && t.output == s.output && u.output == [] && t.diagnostics == s.diagnostics + u.diagnostics
      && t.headerWritten == u.headerWritten && t.lineNo == u.lineNo && t.failure == u.failure
  {
    assert s.diagnostics + [] == s.diagnostics;
    if |parts| >= 2 {
      var e := EpochDiagnostics(parts, s.lineNo);
      assert [] + e == e;
    }
  }

  /** A header line is written only while the guard is clear; the guard is then set and the counter advances. */
  lemma HeaderStepWritesOnce(opts: Options, s: Scan, parts: seq<string>)
    ensures var r := HeaderStep(opts, s, parts);
      && r.headerWritten && r.lineNo == s.lineNo + 1
      && r.failure == s.failure && r.diagnostics == s.diagnostics
      && s.output <= r.output
      && |r.output| == |s.output| + (if s.headerWritten then 0 else 1)
      && (!s.headerWritten ==> r.output[|s.output|] == Join(parts, opts.fieldSeparator))
  {
  }

  /**
   * A data line only appends: at most one output line, written exactly when the line has a
   * field 6 and is not dropped, and the counter advances by what was written. It throws
   * exactly when it has no field 6, and never touches the guard.
   */
  lemma DataStepCountsWrittenLines<D>(opts: Options, num: Numerics<D>, s: Scan, parts: seq<string>, position: nat)
    ensures var r := DataStep(opts, num, s, parts, position);
      && r.headerWritten == s.headerWritten
      && s.output <= r.output && s.diagnostics <= r.diagnostics
      && |r.output| == |s.output| + (if |parts| >= 7 && !Dropped(opts, num, parts) then 1 else 0)
      && r.lineNo == s.lineNo + (|r.output| - |s.output|)
      && r.failure == (if |parts| >= 7 then s.failure else Some(IndexOutOfRange(position)))
  {
  }

  /**
   * One iteration of the loop only extends what came before: the output by at most one line,
   * the diagnostics, the counter by at most one; the guard is never cleared and only a header
   * line sets it; an exception names this line's position, and after one nothing changes.
   */
  lemma StepOnlyExtends<D>(opts: Options, num: Numerics<D>, s: Scan, line: string, position: nat)
    ensures var r := Step(opts, num, s, line, position);
      && (s.failure.Some? ==> r == s)
      && s.output <= r.output && |r.output| <= |s.output| + 1
      && s.diagnostics <= r.diagnostics
      && s.lineNo <= r.lineNo <= s.lineNo + 1
      && (s.headerWritten ==> r.headerWritten)
      && (r.headerWritten != s.headerWritten ==> IsHeaderLine(line))
      && (s.failure.None? && r.failure.Some? ==> r.failure == Some(IndexOutOfRange(position)))
  {
    if s.failure.None? {
      var parts := Fields(line);
      if IsHeader(parts) {
        HeaderStepWritesOnce(opts, s, parts);
      } else {
        DataStepCountsWrittenLines(opts, num, s, parts, position);
      }
    }
  }

  /**
   * After any input the loop has written at most one line per input line, the counter is
   * between 1 and one past the number of lines, a seeded guard is still set, and the only
   * exception is `IndexOutOfRange` at a position of the input.
   */
  lemma {:induction false} ScanBounds<D>(opts: Options, num: Numerics<D>, seed: bool, lines: seq<string>)
    ensures var r := ScanLines(opts, num, seed, lines);
      && |r.output| <= |lines| && 1 <= r.lineNo <= |lines| + 1
      && (seed ==> r.headerWritten)
      && (r.failure.Some? ==> r.failure.value.IndexOutOfRange? && r.failure.value.position < |lines|)
    decreases |lines|
  {
    if |lines| > 0 {
      var init := lines[..|lines| - 1];
      ScanBounds(opts, num, seed, init);
      StepOnlyExtends(opts, num, ScanLines(opts, num, seed, init), lines[|lines| - 1], |lines| - 1);
    }
  }

  /** With trimming on, a data line whose loss does not parse is reported and not written. */
  lemma UnparsableLossLineIsDropped<D>(opts: Options, num: Numerics<D>, s: Scan, parts: seq<string>, position: nat)
    requires |parts| >= 7 && !IsHeader(parts) && s.failure.None?
    requires opts.trimZeroLossLines && num.tryParse(parts[6]).None? && ZeroIsBelowEpsilon(num)
    ensures var r := StepFields(opts, num, s, parts, position);
      && r.output == s.output && r.lineNo == s.lineNo && r.failure == None
      && r.diagnostics == s.diagnostics + EpochDiagnostics(parts, s.lineNo) + [NotADouble(parts[6], s.lineNo)]
  {
    UnparsableLossIsDropped(opts, num, parts);
  }

  /**
   * A data line converted from a clean state, case by case: a line without field 1 throws at
   * once, one without field 6 throws after reporting its epoch, a dropped line only reports,
   * and a kept line is written as its rewritten fields and counted.
   */
  lemma DataStepCases<D>(opts: Options, num: Numerics<D>, headerWritten: bool, lineNo: int, parts: seq<string>, position: nat)
    ensures var t := DataStep(opts, num, Scan([], headerWritten, lineNo, [], None), parts, position);
      && t.headerWritten == headerWritten
      && (|parts| < 2 ==> t == Scan([], headerWritten, lineNo, [], Some(IndexOutOfRange(position))))
      && (2 <= |parts| < 7 ==>
            t == Scan([], headerWritten, lineNo, EpochDiagnostics(parts, lineNo), Some(IndexOutOfRange(position))))
      && (|parts| >= 7 ==>
            var errors := EpochDiagnostics(parts, lineNo) + LossDiagnostics(num, parts, lineNo);
            if Dropped(opts, num, parts) then t == Scan([], headerWritten, lineNo, errors, None)
            else t == Scan([Join(RewriteFields(opts, num, parts), opts.fieldSeparator)], headerWritten, lineNo + 1, errors, None))
  {
    if |parts| >= 7 {
      DataStepComplete(opts, num, headerWritten, lineNo, parts, position);
    } else if |parts| >= 2 {
      var e := EpochDiagnostics(parts, lineNo);
      assert [] + e == e;
    }
  }

  /** The case of `DataStepCases` for a line with a field 6. */
  lemma DataStepComplete<D>(opts: Options, num: Numerics<D>, headerWritten: bool, lineNo: int, parts: seq<string>, position: nat)
    requires |parts| >= 7
    ensures var t := DataStep(opts, num, Scan([], headerWritten, lineNo, [], None), parts, position);
      var errors := EpochDiagnostics(parts, lineNo) + LossDiagnostics(num, parts, lineNo);
      if Dropped(opts, num, parts) then t == Scan([], headerWritten, lineNo, errors, None)
      else t == Scan([Join(RewriteFields(opts, num, parts), opts.fieldSeparator)], headerWritten, lineNo + 1, errors, None)
  {
    var e := EpochDiagnostics(parts, lineNo);
    var l := LossDiagnostics(num, parts, lineNo);
    var s := Scan([], headerWritten, lineNo, [], None);
    EmptyPrefix(e + l);
    if Dropped(opts, num, parts) {
      DataStepDropped(opts, num, s, parts, position);
    } else {
      EmptyPrefix([Join(RewriteFields(opts, num, parts), opts.fieldSeparator)]);
      DataStepKept(opts, num, s, parts, position);
    }
  }

  lemma EmptyPrefix<T>(xs: seq<T>)
    ensures [] + xs == xs
  {
  }

  lemma DataStepDropped<D>(opts: Options, num: Numerics<D>, s: Scan, parts: seq<string>, position: nat)
    requires |parts| >= 7 && Dropped(opts, num, parts)
    ensures DataStep(opts, num, s, parts, position)
         == s.(diagnostics := s.diagnostics + (EpochDiagnostics(parts, s.lineNo) + LossDiagnostics(num, parts, s.lineNo)))
  {
  }

  lemma DataStepKept<D>(opts: Options, num: Numerics<D>, s: Scan, parts: seq<string>, position: nat)
    requires |parts| >= 7 && !Dropped(opts, num, parts)
    ensures DataStep(opts, num, s, parts, position)
         == s.(output := s.output + [Join(RewriteFields(opts, num, parts), opts.fieldSeparator)], lineNo := s.lineNo + 1,
               diagnostics := s.diagnostics + (EpochDiagnostics(parts, s.lineNo) + LossDiagnostics(num, parts, s.lineNo)))
  {
  }

  /** One complete line, before any exception: its emission is appended and the guard tracks headers. */
  lemma StepOfCompleteLine<D>(opts: Options, num: Numerics<D>, s: Scan, line: string, position: nat)
    requires s.failure.None? && HasLossField(line)
    ensures var t := Step(opts, num, s, line, position);
      && t.failure.None?
      && t.output == s.output + Emission(opts, num, s.headerWritten, line)
      && t.headerWritten == (s.headerWritten || IsHeaderLine(line))
      && t.lineNo == s.lineNo + (if !IsHeaderLine(line) && Dropped(opts, num, Fields(line)) then 0 else 1)
  {
    if IsHeaderLine(line) && s.headerWritten {
      assert s.output + [] == s.output;
    }
  }

  /**
   * On input whose data lines all reach field 6, nothing throws, the output is each line's
   * emission in input order, and the guard ends set exactly when it was seeded or a header was met.
   */
  lemma {:induction false} ScanMatchesEmissions<D>(opts: Options, num: Numerics<D>, seed: bool, lines: seq<string>)
    requires AllDataLinesComplete(lines)
    ensures ScanLines(opts, num, seed, lines).failure == None
    ensures ScanLines(opts, num, seed, lines).output == Emissions(opts, num, seed, lines)
    ensures ScanLines(opts, num, seed, lines).headerWritten == (seed || HeaderAmong(lines))
    decreases |lines|
  {
    if |lines| > 0 {
      var init := lines[..|lines| - 1];
      var last := lines[|lines| - 1];
      assert forall i :: 0 <= i < |init| ==> init[i] == lines[i];
      ScanMatchesEmissions(opts, num, seed, init);
      var s := ScanLines(opts, num, seed, init);
      StepOfCompleteLine(opts, num, s, last, |lines| - 1);
      HeaderAmongExtend(lines);
    }
  }

  lemma HeaderAmongExtend(lines: seq<string>)
    requires |lines| > 0
    ensures HeaderAmong(lines) == (HeaderAmong(lines[..|lines| - 1]) || IsHeaderLine(lines[|lines| - 1]))
  {
    var init := lines[..|lines| - 1];
    if HeaderAmong(lines) && !IsHeaderLine(lines[|lines| - 1]) {
      var i :| 0 <= i < |lines| && IsHeaderLine(lines[i]);
      assert i < |init| && IsHeaderLine(init[i]);
    }
    if HeaderAmong(init) {
      var i :| 0 <= i < |init| && IsHeaderLine(init[i]);
      assert IsHeaderLine(lines[i]);
    }
  }

  /**
   * The first data line without a field 6 throws: the file ends there with `IndexOutOfRange`
   * at that position, keeping the output and the guard of the lines before it; its epoch
   * diagnostic, when it has a field 1, is still reported.
   */
  lemma ScanStopsAtShortLine<D>(opts: Options, num: Numerics<D>, seed: bool, lines: seq<string>, k: nat)
    requires k < |lines| && AllDataLinesComplete(lines[..k]) && !HasLossField(lines[k])
    ensures var s, before := ScanLines(opts, num, seed, lines), ScanLines(opts, num, seed, lines[..k]);
      && s.failure == Some(IndexOutOfRange(k))
      && s.output == before.output
      && s.headerWritten == before.headerWritten
      && s.lineNo == before.lineNo
      && s.diagnostics == before.diagnostics +
           (if |Fields(lines[k])| >= 2 then EpochDiagnostics(Fields(lines[k]), before.lineNo) else [])
  {
    ScanMatchesEmissions(opts, num, seed, lines[..k]);
    ScanOneMore(opts, num, seed, lines, k);
    StepOnShortLine(opts, num, ScanLines(opts, num, seed, lines[..k]), lines[k], k);
    ScanStopsAfterFailure(opts, num, seed, lines, k + 1);
  }

  /** A data line without a field 6 throws, adding at most its epoch diagnostic. */
  lemma StepOnShortLine<D>(opts: Options, num: Numerics<D>, s: Scan, line: string, position: nat)
    requires s.failure.None? && !HasLossField(line)
    ensures var t := Step(opts, num, s, line, position);
      && t.failure == Some(IndexOutOfRange(position))
      && t.output == s.output && t.headerWritten == s.headerWritten && t.lineNo == s.lineNo
      && t.diagnostics == s.diagnostics + (if |Fields(line)| >= 2 then EpochDiagnostics(Fields(line), s.lineNo) else [])
  {
    assert s.diagnostics + [] == s.diagnostics;
  }

  /**
   * A field 1 that is no 32-bit integer is reported with the line counter, and the line goes
   * on with the value 0 that the failed parse leaves: its timestamp is the epoch itself.
   */
  lemma UnparsableEpochRendersEpochZero<D>(opts: Options, num: Numerics<D>, parts: seq<string>, lineNo: int)
    requires |parts| >= 7 && TryParseInt32(parts[1]).None?
    ensures RewriteFields(opts, num, parts)[1] == "1970-01-01 00:00:00"
    ensures EpochDiagnostics(parts, lineNo) == [NotAnInteger(parts[1], lineNo)]
  {
    assert EpochOf(parts[1]) == 0;
    var r := RewriteFields(opts, num, parts);
    assert r[1] == FormatUnixTime(0);
    FormatEpochZero();
  }

  /** A rejoined header still reads as a header, whatever separator joined it. */
  lemma RejoinedHeaderIsHeader(parts: seq<string>, sep: char)
    requires |parts| >= 1 && InputSeparator !in parts[0] && IsHeader(parts)
    ensures IsHeaderLine(Join(parts, sep))
  {
    var j := Join(parts, sep);
    var p0 := parts[0];
    JoinStartsWithFirst(parts, sep);
    var f := FirstField(j, InputSeparator);
    assert f[..|p0|] == p0 by {
      assert j[..|f|][..|p0|] == j[..|p0|];
    }
    assert forall i :: 0 <= i < |HeaderMarker| ==> f[i] == p0[i] by {
      forall i | 0 <= i < |HeaderMarker| ensures f[i] == p0[i] {
        assert f[..|p0|][i] == f[i];
      }
    }
  }

  /** A rejoined data line does not read as a header, when the separator is no letter of the marker. */
  lemma RejoinedDataIsNotHeader(parts: seq<string>, sep: char)
    requires |parts| >= 1 && InputSeparator !in parts[0] && !IsHeader(parts)
    requires SeparatorKeepsHeadersApart(sep)
    ensures !IsHeaderLine(Join(parts, sep))
  {
    var j := Join(parts, sep);
    var p0 := parts[0];
    JoinStartsWithFirst(parts, sep);
    var f := FirstField(j, InputSeparator);
    var m := HeaderMarker;
    assert Fields(j)[0] == f;
    if |p0| >= |m| {
      var i :| 0 <= i < |m| && Upper(p0[i]) != Upper(m[i]);
      if |f| >= |m| {
        assert f[i] == j[i] == p0[i] by {
          assert j[..|p0|][i] == j[i];
          assert j[..|f|][i] == j[i];
        }
      }
    } else if |f| >= |m| {
      assert |j| > |p0|;
      assert |parts| >= 2;
      assert j == p0 + [sep] + Join(parts[1..], sep);
      assert f[|p0|] == j[|p0|] == sep by {
        assert j[..|f|][|p0|] == j[|p0|];
      }
    }
  }

  /**
   * Header guard: the lines written hold one header when the guard started clear and ended
   * set, none otherwise; a seeded guard stays set. So at most one header per call, and none
   * after an earlier file already wrote one to the shared destination.
   */
  lemma {:induction false} HeaderWrittenAtMostOnce<D>(opts: Options, num: Numerics<D>, seed: bool, lines: seq<string>)
    requires SeparatorKeepsHeadersApart(opts.fieldSeparator)
    ensures var s := ScanLines(opts, num, seed, lines);
      && (seed ==> s.headerWritten)
      && HeaderLines(s.output) == (if s.headerWritten && !seed then 1 else 0)
    decreases |lines|
  {
    if |lines| > 0 {
      var init := lines[..|lines| - 1];
      HeaderWrittenAtMostOnce(opts, num, seed, init);
      HeaderLinesOfStep(opts, num, ScanLines(opts, num, seed, init), lines[|lines| - 1], |lines| - 1);
    }
  }

  /**
   * One iteration adds one header line to the output exactly when it sets the guard, and none
   * otherwise; a set guard stays set.
   */
  lemma HeaderLinesOfStep<D>(opts: Options, num: Numerics<D>, s: Scan, line: string, position: nat)
    requires SeparatorKeepsHeadersApart(opts.fieldSeparator)
    ensures var t := Step(opts, num, s, line, position);
      && (s.headerWritten ==> t.headerWritten)
      && HeaderLines(t.output) == HeaderLines(s.output) + (if t.headerWritten && !s.headerWritten then 1 else 0)
  {
    var parts := Fields(line);
    assert InputSeparator !in parts[0];
    if s.failure.None? {
      assert Step(opts, num, s, line, position) == StepFields(opts, num, s, parts, position);
      if IsHeader(parts) {
        HeaderLinesOfHeaderStep(opts, s, parts);
      } else {
        HeaderLinesOfDataStep(opts, num, s, parts, position);
      }
    }
  }

  lemma HeaderLinesOfHeaderStep(opts: Options, s: Scan, parts: seq<string>)
    requires |parts| >= 1 && InputSeparator !in parts[0] && IsHeader(parts)
    ensures var t := HeaderStep(opts, s, parts);
      && t.headerWritten
      && HeaderLines(t.output) == HeaderLines(s.output) + (if s.headerWritten then 0 else 1)
  {
    if !s.headerWritten {
      var header := Join(parts, opts.fieldSeparator);
      RejoinedHeaderIsHeader(parts, opts.fieldSeparator);
      HeaderLinesAppend(s.output, [header]);
      assert [header][..0] == [];
    }
  }

  lemma HeaderLinesOfDataStep<D>(opts: Options, num: Numerics<D>, s: Scan, parts: seq<string>, position: nat)
    requires |parts| >= 1 && InputSeparator !in parts[0] && !IsHeader(parts)
    requires SeparatorKeepsHeadersApart(opts.fieldSeparator)
    ensures var t := DataStep(opts, num, s, parts, position);
      t.headerWritten == s.headerWritten && HeaderLines(t.output) == HeaderLines(s.output)
  {
    if |parts| >= 7 && !Dropped(opts, num, parts) {
      var r := RewriteFields(opts, num, parts);
      var row := Join(r, opts.fieldSeparator);
      assert r[0] == parts[0];
      RejoinedDataIsNotHeader(r, opts.fieldSeparator);
      HeaderLinesAppend(s.output, [row]);
      assert [row][..0] == [];
    }
  }

  /** A seeded guard stays set, whatever the lines. */
  lemma {:induction false} HeaderWrittenFromSeed<D>(opts: Options, num: Numerics<D>, seed: bool, lines: seq<string>)
    ensures seed ==> ScanLines(opts, num, seed, lines).headerWritten
    decreases |lines|
  {
    if |lines| > 0 {
      HeaderWrittenFromSeed(opts, num, seed, lines[..|lines| - 1]);
    }
  }

  /**
   * The line counter counts every line but the dropped ones, and the output holds the written
   * header (if any) and every data line the filter keeps: nothing else, nothing twice.
   */
  lemma {:induction false} CountsOfCompleteInput<D>(opts: Options, num: Numerics<D>, seed: bool, lines: seq<string>)
    requires AllDataLinesComplete(lines)
    ensures var s := ScanLines(opts, num, seed, lines);
      && s.lineNo == 1 + |lines| - DroppedCount(opts, num, lines)
      && |s.output| + HeaderCount(lines) + DroppedCount(opts, num, lines)
         == |lines| + (if s.headerWritten && !seed then 1 else 0)
    decreases |lines|
  {
    if |lines| > 0 {
      var init := lines[..|lines| - 1];
      CountsOneMore(opts, num, lines);
      CountsOfCompleteInput(opts, num, seed, init);
      ScanMatchesEmissions(opts, num, seed, init);
      var s := ScanLines(opts, num, seed, init);
      var last := lines[|lines| - 1];
      StepOfCompleteLine(opts, num, s, last, |lines| - 1);
      EmissionLength(opts, num, s.headerWritten, last);
      HeaderWrittenFromSeed(opts, num, seed, init);
    }
  }

  /** How the two counts grow with the last line. */
  lemma CountsOneMore<D>(opts: Options, num: Numerics<D>, lines: seq<string>)
    requires |lines| > 0 && AllDataLinesComplete(lines)
    ensures var init, last := lines[..|lines| - 1], lines[|lines| - 1];
      && AllDataLinesComplete(init) && HasLossField(last)
      && HeaderCount(lines) == HeaderCount(init) + (if IsHeaderLine(last) then 1 else 0)
      && DroppedCount(opts, num, lines)
         == DroppedCount(opts, num, init) + (if !IsHeaderLine(last) && Dropped(opts, num, Fields(last)) then 1 else 0)
  {
    var init := lines[..|lines| - 1];
    assert forall i :: 0 <= i < |init| ==> init[i] == lines[i];
  }

  lemma EmissionLength<D>(opts: Options, num: Numerics<D>, headerSeen: bool, line: string)
    requires HasLossField(line)
    ensures |Emission(opts, num, headerSeen, line)|
         == if IsHeaderLine(line) then (if headerSeen then 0 else 1) else if Dropped(opts, num, Fields(line)) then 0 else 1
  {
  }

  /** Without `TrimZeroLossLines` no data line is dropped. */
  lemma {:induction false} NoTrimmingDropsNothing<D>(opts: Options, num: Numerics<D>, lines: seq<string>)
    requires AllDataLinesComplete(lines) && !opts.trimZeroLossLines
    ensures DroppedCount(opts, num, lines) == 0
    decreases |lines|
  {
    if |lines| > 0 {
      var init := lines[..|lines| - 1];
      assert forall i :: 0 <= i < |init| ==> init[i] == lines[i];
      NoTrimmingDropsNothing(opts, num, init);
    }
  }

  /**
   * With the default comma separator, a written data line splits back into exactly its
   * rewritten fields (so into as many fields as its input), unless the localized loss itself
   * holds a comma.
   */
  lemma CommaOutputSplitsBack<D>(opts: Options, num: Numerics<D>, line: string)
    requires opts.fieldSeparator == ','
    requires !IsHeaderLine(line) && |Fields(line)| >= 7
    requires opts.convertNumbers ==> ',' !in num.toCurrentCulture(LossOf(num, Fields(line)[6]))
    ensures var parts := Fields(line);
      Split(Join(RewriteFields(opts, num, parts), ','), ',') == RewriteFields(opts, num, parts)
    ensures |Split(Join(RewriteFields(opts, num, Fields(line)), ','), ',')| == |Fields(line)|
  {
    var r := RewriteFields(opts, num, Fields(line));
    RewrittenFieldsHaveNoComma(opts, num, line);
    SplitJoin(r, ',');
  }

  lemma RewrittenFieldsHaveNoComma<D>(opts: Options, num: Numerics<D>, line: string)
    requires !IsHeaderLine(line) && |Fields(line)| >= 7
    requires opts.convertNumbers ==> ',' !in num.toCurrentCulture(LossOf(num, Fields(line)[6]))
    ensures var r := RewriteFields(opts, num, Fields(line)); forall i :: 0 <= i < |r| ==> ',' !in r[i]
  {
    var parts := Fields(line);
    var r := RewriteFields(opts, num, parts);
    FormatUnixTimeReadsBack(EpochOf(parts[1]));
    TimestampCharacters(r[1]);
    forall i | 0 <= i < |r| ensures ',' !in r[i] {
      if i != 1 && i != 6 {
        assert r[i] == parts[i];
      }
    }
  }
}
