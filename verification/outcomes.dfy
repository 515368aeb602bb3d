/** Outcomes of the reader's operations: the errors that `anyhow::Result`
    carries in the program, and the panics that end it. */
module Outcomes {

  /** Why an operation did not produce its value. */
  datatype Error =
    | UnexpectedEof       // `read_exact` found fewer bytes than it was asked for
    | InvalidSeek         // a relative seek would move before the start of the file
    | InvalidUtf8         // `std::str::from_utf8` refused the bytes
    | Panic(message: string) // the program panics here (an unwrap or an explicit panic)

  datatype Result<+T> = Ok(value: T) | Err(error: Error)

  datatype Option<+T> = None | Some(value: T)
}
