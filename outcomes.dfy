/** Optional values and success-or-error values, used wherever the source
    returns null, throws, or answers with an error status. */
module Outcomes {

  datatype Option<+T> = None | Some(value: T)

  datatype Outcome<+T, +E> = Ok(value: T) | Err(error: E)
}

/** Identifiers and times the source takes from Guid.NewGuid() and
    DateTime.UtcNow; the model receives them as opaque values. */
module Ids {

  type Guid = nat

  type Timestamp = int
}
