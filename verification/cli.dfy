/** The boundary of `main` (cvs_gpa.py lines 107-132): how the outcome of a
    run becomes a process exit status. Argument parsing, the file system and
    printing are outside the model; what opening the file produced is an
    input. */
module Cli {
  import opened Wrappers
  import opened GpaValue
  import opened Aggregate

  /** What opening and reading the CSV file produced. */
  datatype Input =
    | Missing                                              // FileNotFoundError
    | Undecodable                                          // UnicodeDecodeError, a ValueError
    | Unreadable                                           // any other failure to read
    | Read(headers: Option<seq<string>>, rows: seq<Row>)

  /** The `ValueError`s `main` reports: a failed check of
      `compute_average_gpa`, or text that is not UTF-8. */
  datatype Invalid = Rejected(error: GpaError) | NotUtf8

  /** How a run ends. */
  datatype Outcome =
    | Printed(average: real)
    | FileNotFound
    | InvalidInput(reason: Invalid)
    | UnexpectedError

  /** The `try` block of `main`: compute the average, or classify the failure. */
  function Run(input: Input): (o: Outcome)
    ensures o.Printed? ==> InRange(o.average)
  {
    match input
    case Missing => FileNotFound
    case Undecodable => InvalidInput(NotUtf8)
    case Unreadable => UnexpectedError
    case Read(headers, rows) =>
      match ComputeAverage(headers, rows)
      case Success(avg) => Printed(avg)
      case Failure(e) => InvalidInput(Rejected(e))
  }

  /** The exit status `main` returns for each outcome. */
  function ExitCode(o: Outcome): (code: int)
    ensures code in {0, 1, 2, 3}
  {
    match o
    case Printed(_) => 0
    case FileNotFound => 2
    case InvalidInput(_) => 3
    case UnexpectedError => 1
  }

  /** Each kind of outcome has an exit status of its own. */
  lemma ExitCodeIdentifiesOutcome(a: Outcome, b: Outcome)
    ensures ExitCode(a) == ExitCode(b) <==>
      (a.Printed? && b.Printed?) || (a.FileNotFound? && b.FileNotFound?)
      || (a.InvalidInput? && b.InvalidInput?) || (a.UnexpectedError? && b.UnexpectedError?)
  {
  }

  /** The exit-status table of a run: 0 exactly when an average is computed,
      2 exactly when the file is missing, 3 exactly when the file is not
      UTF-8 or the header row, the GPA column or every valid value is
      missing, 1 exactly when reading fails in any other way. */
  lemma RunExitCodes(input: Input)
    ensures ExitCode(Run(input)) == 0 <==> input.Read? && ComputeAverage(input.headers, input.rows).Success?
    ensures ExitCode(Run(input)) == 2 <==> input.Missing?
    ensures ExitCode(Run(input)) == 3 <==>
      input.Undecodable? || (input.Read? && ComputeAverage(input.headers, input.rows).Failure?)
    ensures ExitCode(Run(input)) == 1 <==> input.Unreadable?
  {
  }
}
