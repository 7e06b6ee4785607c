/** Option and Result values for the optional and fallible answers of the
    version-control libraries that check_version_control consults. */
module Wrappers {

  datatype Option<+T> = None | Some(value: T)

  datatype Result<+T, +E> = Ok(value: T) | Err(error: E)
}
