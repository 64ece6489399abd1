/** Shared failure-carrying datatypes: the optional value, the result of an
    operation that may throw, and the bus's exception taxonomy. */
module BusErrors {

  /** A Java reference that may be null. */
  datatype Option<+T> = None | Some(value: T)

  /** Why a subscriber's handler invocation failed (the `cause` of an
      `InvocationTargetException`). */
  datatype Cause =
    | HandlerThrew(code: nat)        // the handler body threw an exception of its own
    | BusRejected(error: Error)      // the handler called into the bus and the bus threw

  /** The exceptions the bus throws (all are `EventBusException` in the source,
      told apart here by their message). */
  datatype Error =
    | NoHandlersFound(subscriberClass: nat)
    | IllegalHandlerName(declaringClass: nat, methodName: string)
    | DuplicateSubscription(subscriberClass: nat, eventType: nat)
    | CancelOutsidePosting
    | CancelNullEvent
    | CancelNotCurrentEvent
    | CancelFromNonPostThread
    | NullDereference
    | InvocationFailed(cause: Cause)
    | AbortStateNotReset

  /** The value of an operation, or the exception it threw. */
  datatype Result<+T> = Ok(value: T) | Err(error: Error)
}
