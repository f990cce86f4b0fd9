/** Success/failure values standing for Java's return-or-throw. */
module Outcomes {

  datatype Option<+T> = None | Some(value: T)

  /** What the tracker's code can throw while parsing or executing a command. */
  datatype Failure =
    | Duke(message: string)       // duke.logic.DukeException with its message
    | NumberFormat(input: string) // java.lang.NumberFormatException from Integer.parseInt
    | IndexOutOfBounds            // java.lang.IndexOutOfBoundsException (array or list access)
    | WriteFailed                 // the persistence writer could not write the file

  datatype Result<+T> = Ok(value: T) | Err(error: Failure)

  /** A result that carries no value: `void` or a throw. */
  datatype Outcome = Pass | Fail(error: Failure)
}
