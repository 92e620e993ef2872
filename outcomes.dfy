/** The two Python exceptions the tool can end in, and a result type that
    carries either a value or one of them. */
module Outcomes {

  /** `NotRelative` stands for the `ValueError` raised by `relative_to`;
      `MissingArgument` for the `IndexError` raised by reading past the end
      of the argument vector. */
  datatype Error = NotRelative | MissingArgument

  datatype Result<+T> = Ok(value: T) | Err(error: Error)
}
