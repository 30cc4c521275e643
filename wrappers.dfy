/** Result and Option types for operations that either return a value or
    raise, and the exceptions the modelled tools can raise. */
module Wrappers {

  datatype Result<+T, +E> = Ok(value: T) | Err(error: E)

  datatype Option<+T> = None | Some(value: T)

  /** The Python exceptions that `_safe_path`, `write_file` and `read_file`
      can raise against the abstract store. */
  datatype PyError =
    | ValueError(message: string)
    | FileNotFoundError
    | IsADirectoryError
    | NotADirectoryError
    | FileExistsError
}
