/** Failure-carrying datatypes shared by the loader, the aggregator and the renderer. */
module Wrappers {

  datatype Option<+T> = None | Some(value: T)

  datatype Result<+R, +E> = Success(value: R) | Failure(error: E)

  /** The two ways the program aborts with a panic (an `unwrap` on a missing value). */
  datatype Panic =
    | NameWithoutColon(name: string)    // the second `split(":")` segment is missing
    | CommandWithoutOutputs(id: string)  // `outputs.get(id)` is `None` for a rendered command

  /** What one run of the program leaves behind: everything printed to standard
      output before it ended, and the panic that ended it, if any. */
  datatype Run = Run(stdout: string, panic: Option<Panic>)
}
