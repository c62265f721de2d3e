/** Failure values shared by the components. */
module Common {

  datatype Option<+T> = None | Some(value: T)

  /**
   The errors the modelled code raises: codes of kernel/errors.py, and a missing key, a taken id, a date out of range,
   an attribute of None.
  */
  datatype ErrorCode =
    | Validation | NotFound | PlanInvalid | Forbidden | ApprovalRequired | QueryDenied | RateLimited
    | MissingKey | Conflict | Overflow | AttributeError

  datatype Result<+T> = Ok(value: T) | Err(code: ErrorCode)

  predicate NoDuplicates<T(==)>(s: seq<T>) {
    forall i, j | 0 <= i < j < |s| :: s[i] != s[j]
  }
}
