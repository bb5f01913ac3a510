/** Failure-carrying values shared by the model of Home.py. */
module Wrappers {

  /** A value that may be absent: Python's `None` or a present value. */
  datatype Option<+T> = None | Some(value: T)

  /** The Python exceptions the modelled functions can raise, as values. */
  datatype Fault =
    | IndexError        // `file_split[1]` on a name without '.', `[0]` on an empty archive
    | FileNotFound      // `Path.replace` of a missing file, or into a missing directory
    | IsADirectory      // reading the cached dataset path when a directory stands there
    | FileExists        // `mkdir(exist_ok=True)` where a file stands at the directory's path
    | NotADirectory     // `mkdir(parents=True)` or `Path.replace` below a path where a file stands
    | KeyError          // a DataFrame column that the table does not have
    | Unparsable        // the cached CSV could not be read as a table

  /** Either a value or the exception that replaced it. */
  datatype Result<+T> = Ok(value: T) | Err(fault: Fault)
}
