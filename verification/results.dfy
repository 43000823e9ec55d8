/** Failure-carrying wrappers and the faults the recommendation core can raise. */
module Results {

  /** A value that may be absent, as a field read with `get` from a stored document. */
  datatype Option<+T> = None | Some(value: T) {

    /** The present value, or `default` when absent. */
    function GetOr(default: T): T
    {
      match this
      case Some(v) => v
      case None => default
    }
  }

  /** Either a computed value or the fault that stopped the computation. */
  datatype Result<+T, +E> = Success(value: T) | Failure(error: E)

  /** The exceptions the core can raise. `MissingMinutes` is the conversion of an absent
      `mins` field to a float; `IndexOutOfRange` is a read past the end of the
      reachability table. */
  datatype Fault =
    | MissingMinutes(lecture: nat, segment: nat)
    | IndexOutOfRange(index: int, length: nat)
}
