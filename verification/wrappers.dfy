/**
 * Option and Result wrappers shared by every codec of the model, and the
 * error kinds that an MCDI exchange with the match-action engine can report.
 */
module Wrappers {

  datatype Option<+T> = None | Some(value: T)

  /** Reasons a request is refused or a buffer cannot be decoded. */
  datatype Error =
    | MalformedMessage       // a buffer whose length or reserved bits break the layout
    | InvalidArgument        // a request the firmware contract forbids
    | UnsupportedMatchField  // a mask the field's support status does not permit
    | ResourceExhausted      // an allocation that could hand out no identifier
    | PartialFree            // a free that released fewer objects than requested

  datatype Result<+T> = Success(value: T) | Failure(error: Error)
  {
    predicate IsFailure() { Failure? }

    function PropagateFailure<U>(): Result<U>
      requires Failure?
    {
      Failure(this.error)
    }

    function Extract(): T
      requires Success?
    {
      value
    }
  }
}
