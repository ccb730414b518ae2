/**
 * The run configuration (the command-line options) and the ways a conversion run can go wrong.
 * `Options.HasWrittenHeader`, the one option the converter writes, is not here: it is the
 * `hasWrittenHeader` field of `Converter.Converter`.
 */
module Settings {

  datatype Options = Options(
    sourcePath: string,            // -s, required
    destinationPath: string,       // -d, required
    createDestinationPath: bool,   // -c
    singleDestinationFile: bool,   // -S
    filePattern: string,           // -p, default "*.csv"
    destinationFile: string,       // -D, default "converted.csv"
    overwrite: bool,               // -o, default true
    convertNumbers: bool,          // -C, default true
    fieldSeparator: char,          // -f, default ','
    trimZeroLossLines: bool)       // -t

  /** The options as the command line gives them when only the two required ones are passed. */
  function Defaults(source: string, destination: string): Options {
    Options(source, destination, false, false, "*.csv", "converted.csv", true, true, ',', false)
  }

  /** An exception that ends the conversion of a file (and, being uncaught, the run). */
  datatype Failure =
    | IndexOutOfRange(position: nat)   // a data line with fewer than 2 or 7 fields, at this 0-based input position
    | SubPathOutOfRange(directory: string)  // the source directory is shorter than the full source root
    | NoDirectory(file: string)        // the path has no directory part: GetDirectoryName gave null, or "" that CreateDirectory refuses
    | SharingViolation(file: string)   // the input file is the destination, already open with FileShare.None
    | FileNotFound(file: string)       // File.ReadLines on a missing input file

  /** A line written to the standard error channel; the processing goes on. */
  datatype Diagnostic =
    | NotAnInteger(raw: string, lineNo: int)  // field 1 is no 32-bit integer; the line counter at that point
    | NotADouble(raw: string, lineNo: int)    // field 6 is no number
}
