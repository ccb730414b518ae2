/**
 * The per-line behaviour of `Converter.ConvertFile` as pure functions: how one input line is
 * classified, rewritten or dropped, and `ScanLines`, the state the line loop reaches after a
 * prefix of the input (lines written, the header guard, the line counter, the diagnostics and
 * the exception that stopped it, if any).
 */
module LineConversion {
  import opened Wrappers
  import opened Text
  import opened Integers
  import opened Calendar
  import opened Settings

  const HeaderMarker: string := "Mtr_Version"

  /** The input is always split on a comma, whatever separator the output uses. */
  const InputSeparator: char := ','

  /**
   * The floating-point side of the loss field, left abstract: `D` stands for `double`.
   * `tryParse` is `double.TryParse(text, CultureInfo.InvariantCulture, out loss)`, `zero` the
   * 0.0 a failed parse leaves in `loss`, `belowEpsilon` the test `loss < double.Epsilon`, and
   * `toCurrentCulture` is `loss.ToString(CultureInfo.CurrentCulture)`.
   */
  datatype Numerics<!D> = Numerics(
    tryParse: string -> Option<D>,
    zero: D,
    belowEpsilon: D -> bool,
    toCurrentCulture: D -> string)

  /** What `double` guarantees: a failed parse leaves 0.0, and `0.0 < double.Epsilon` holds. */
  predicate ZeroIsBelowEpsilon<D>(num: Numerics<D>) {
    num.belowEpsilon(num.zero)
  }

  function Fields(line: string): (parts: seq<string>)
    ensures |parts| >= 1
  {
    Split(line, InputSeparator)
  }

  predicate IsHeader(parts: seq<string>)
    requires |parts| >= 1
  {
    StartsWithIgnoreCase(parts[0], HeaderMarker)
  }

  predicate IsHeaderLine(line: string) {
    IsHeader(Fields(line))
  }

  /** The header test reads only the text before the first comma, ignoring case. */
  lemma HeaderTestReadsFirstField(line: string)
    ensures IsHeaderLine(line) <==> StartsWithIgnoreCase(FirstField(line, InputSeparator), HeaderMarker)
    ensures IsHeaderLine(line) ==> |HeaderMarker| <= |line|
  {
  }

  /** Field 1 as an integer; a failed parse leaves 0 in the out variable. */
  function EpochOf(text: string): (t: int)
    ensures IsInt32(t)
  {
    TryParseInt32(text).GetOr(0)
  }

  function LossOf<D>(num: Numerics<D>, text: string): D {
    num.tryParse(text).GetOr(num.zero)
  }

  /** A data line left out of the output: trimming is on and its loss is effectively zero. */
  predicate Dropped<D>(opts: Options, num: Numerics<D>, parts: seq<string>)
    requires |parts| >= 7
  {
    opts.trimZeroLossLines && num.belowEpsilon(LossOf(num, parts[6]))
  }

  /**
   * Only trimming drops a line, and with trimming on a line whose loss does not parse is
   * dropped: the failed parse leaves 0.0, which is below `double.Epsilon`.
   */
  lemma UnparsableLossIsDropped<D>(opts: Options, num: Numerics<D>, parts: seq<string>)
    requires |parts| >= 7
    ensures Dropped(opts, num, parts) ==> opts.trimZeroLossLines
    ensures opts.trimZeroLossLines && num.tryParse(parts[6]).None? && ZeroIsBelowEpsilon(num) ==> Dropped(opts, num, parts)
  {
  }

  /**
   * The fields of a data line as written: the same number of fields, field 1 the UTC
   * rendering of its epoch value, field 6 the loss in the current culture when numbers are
   * converted, every other field untouched.
   */
  function RewriteFields<D>(opts: Options, num: Numerics<D>, parts: seq<string>): (r: seq<string>)
    requires |parts| >= 7
    ensures |r| == |parts|
    ensures r[1] == FormatUnixTime(EpochOf(parts[1]))
    ensures r[6] == if opts.convertNumbers then num.toCurrentCulture(LossOf(num, parts[6])) else parts[6]
    ensures forall i :: 0 <= i < |parts| && i != 1 && i != 6 ==> r[i] == parts[i]
  {
    var loss := if opts.convertNumbers then num.toCurrentCulture(LossOf(num, parts[6])) else parts[6];
    parts[1 := FormatUnixTime(EpochOf(parts[1]))][6 := loss]
  }

  function EpochDiagnostics(parts: seq<string>, lineNo: int): seq<Diagnostic>
    requires |parts| >= 2
  {
    if TryParseInt32(parts[1]).None? then [NotAnInteger(parts[1], lineNo)] else []
  }

  function LossDiagnostics<D>(num: Numerics<D>, parts: seq<string>, lineNo: int): seq<Diagnostic>
    requires |parts| >= 7
  {
    if num.tryParse(parts[6]).None? then [NotADouble(parts[6], lineNo)] else []
  }

  /** The loop state of `ConvertFile`: what it has written, its header guard and line counter. */
  datatype Scan = Scan(
    output: seq<string>,
    headerWritten: bool,
    lineNo: int,
    diagnostics: seq<Diagnostic>,
    failure: Option<Failure>)

  /** The state before the first line; the guard is seeded by the caller. */
  function Start(seed: bool): Scan {
    Scan([], seed, 1, [], None)
  }

  /** One iteration of the line loop, for the line at 0-based input `position`. */
  function Step<D>(opts: Options, num: Numerics<D>, s: Scan, line: string, position: nat): Scan {
    if s.failure.Some? then s else StepFields(opts, num, s, Fields(line), position)
  }

  /** One iteration on the comma-split fields of its line, before any exception. */
  function StepFields<D>(opts: Options, num: Numerics<D>, s: Scan, parts: seq<string>, position: nat): Scan
    requires |parts| >= 1
  {
    if IsHeader(parts) then HeaderStep(opts, s, parts) else DataStep(opts, num, s, parts, position)
  }

  /** A header line: written unless the guard is set, which it then is; the counter advances. */
  function HeaderStep(opts: Options, s: Scan, parts: seq<string>): Scan {
    if s.headerWritten then s.(lineNo := s.lineNo + 1)
    else s.(output := s.output + [Join(parts, opts.fieldSeparator)], headerWritten := true, lineNo := s.lineNo + 1)
  }

  /**
   * A data line: reading field 1 or field 6 throws when the line is too short; an unparsable
   * field is reported; a dropped line only reports, a kept one is written and counted.
   */
  function DataStep<D>(opts: Options, num: Numerics<D>, s: Scan, parts: seq<string>, position: nat): Scan {
    if |parts| < 2 then
      s.(failure := Some(IndexOutOfRange(position)))
    else
      var epochErrors := EpochDiagnostics(parts, s.lineNo);
      if |parts| < 7 then
        s.(diagnostics := s.diagnostics + epochErrors, failure := Some(IndexOutOfRange(position)))
      else
        var errors := s.diagnostics + epochErrors + LossDiagnostics(num, parts, s.lineNo);
        if Dropped(opts, num, parts) then s.(diagnostics := errors)
        else
          s.(output := s.output + [Join(RewriteFields(opts, num, parts), opts.fieldSeparator)],
             lineNo := s.lineNo + 1, diagnostics := errors)
  }

  /** The state after the loop has seen `lines`, in order; it stops at the first exception. */
  function ScanLines<D>(opts: Options, num: Numerics<D>, seed: bool, lines: seq<string>): Scan
    decreases |lines|
  {
    if |lines| == 0 then Start(seed)
    else Step(opts, num, ScanLines(opts, num, seed, lines[..|lines| - 1]), lines[|lines| - 1], |lines| - 1)
  }

  // ---------------------------------------------------------------------------------------
  // Reference definitions that do not follow the loop.

  predicate HasLossField(line: string) {
    IsHeaderLine(line) || |Fields(line)| >= 7
  }

  /** Every data line reaches field 6, so the loop never throws. */
  predicate AllDataLinesComplete(lines: seq<string>) {
    forall i :: 0 <= i < |lines| ==> HasLossField(lines[i])
  }

  predicate HeaderAmong(lines: seq<string>) {
    exists i :: 0 <= i < |lines| && IsHeaderLine(lines[i])
  }

  /** What one complete line contributes to the output, given whether a header came before it. */
  function Emission<D>(opts: Options, num: Numerics<D>, headerSeen: bool, line: string): seq<string>
    requires HasLossField(line)
  {
    var parts := Fields(line);
    if IsHeader(parts) then (if headerSeen then [] else [Join(parts, opts.fieldSeparator)])
    else if Dropped(opts, num, parts) then []
    else [Join(RewriteFields(opts, num, parts), opts.fieldSeparator)]
  }

  /** Each line's emission in input order; a header is written only if none came before it and the seed is clear. */
  function Emissions<D>(opts: Options, num: Numerics<D>, seed: bool, lines: seq<string>): seq<string>
    requires AllDataLinesComplete(lines)
    decreases |lines|
  {
    if |lines| == 0 then []
    else
      var init := lines[..|lines| - 1];
      assert AllDataLinesComplete(init) by {
        assert forall i :: 0 <= i < |init| ==> init[i] == lines[i];
      }
      Emissions(opts, num, seed, init) + Emission(opts, num, seed || HeaderAmong(init), lines[|lines| - 1])
  }

  function HeaderCount(lines: seq<string>): nat
    decreases |lines|
  {
    if |lines| == 0 then 0
    else HeaderCount(lines[..|lines| - 1]) + (if IsHeaderLine(lines[|lines| - 1]) then 1 else 0)
  }

  /** Data lines the zero-loss filter removes. */
  function DroppedCount<D>(opts: Options, num: Numerics<D>, lines: seq<string>): nat
    requires AllDataLinesComplete(lines)
    decreases |lines|
  {
    if |lines| == 0 then 0
    else
      var init := lines[..|lines| - 1];
      var last := lines[|lines| - 1];
      assert AllDataLinesComplete(init) by {
        assert forall i :: 0 <= i < |init| ==> init[i] == lines[i];
      }
      DroppedCount(opts, num, init) + (if !IsHeaderLine(last) && Dropped(opts, num, Fields(last)) then 1 else 0)
  }

  /** Output lines that read as headers when split on a comma. */
  function HeaderLines(out: seq<string>): nat
    decreases |out|
  {
    if |out| == 0 then 0
    else HeaderLines(out[..|out| - 1]) + (if IsHeaderLine(out[|out| - 1]) then 1 else 0)
  }

  lemma HeaderLinesAppend(a: seq<string>, b: seq<string>)
    ensures HeaderLines(a + b) == HeaderLines(a) + HeaderLines(b)
    decreases |b|
  {
    if |b| > 0 {
      assert (a + b)[..|a + b| - 1] == a + b[..|b| - 1];
      HeaderLinesAppend(a, b[..|b| - 1]);
    } else {
      assert a + b == a;
    }
  }

  /** No letter of the header marker equals the output separator, ignoring case. */
  predicate SeparatorKeepsHeadersApart(sep: char) {
    forall i :: 0 <= i < |HeaderMarker| ==> Upper(HeaderMarker[i]) != Upper(sep)
  }
}
