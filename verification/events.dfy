/** Event objects. User events carry an identity and a runtime class; the bus
    creates two kinds of its own, whose classes are fixed ids of the
    hierarchy. */
module Events {
  import opened BusErrors
  import opened TypeHierarchy
  import opened Registry

  /** The class id of `NoSubscriberEvent`. */
  const NO_SUBSCRIBER_EVENT_CLASS: ClassId := 1
  /** The class id of `SubscriberExceptionEvent`. */
  const SUBSCRIBER_EXCEPTION_EVENT_CLASS: ClassId := 2

  /** An event object; structural equality is reference identity, because
      every object carries its own `ref` or `serial`. */
  datatype Event =
    | UserEvent(ref: nat, cls: ClassId)
    | NoSubscriberEvent(serial: nat, originalEvent: Event)
    | SubscriberExceptionEvent(serial: nat, throwable: Cause, causingEvent: Event, causingSubscriber: Subscriber)

  /** `event.getClass()`. */
  function ClassOf(e: Event): ClassId {
    match e
    case UserEvent(_, cls) => cls
    case NoSubscriberEvent(_, _) => NO_SUBSCRIBER_EVENT_CLASS
    case SubscriberExceptionEvent(_, _, _, _) => SUBSCRIBER_EXCEPTION_EVENT_CLASS
  }

  /** `event instanceof SubscriberExceptionEvent`. */
  predicate IsSubscriberExceptionEvent(h: Hierarchy, e: Event) {
    SubtypeOf(h, ClassOf(e), SUBSCRIBER_EXCEPTION_EVENT_CLASS)
  }

  /** The classes whose events never cause a `NoSubscriberEvent` (compared
      exactly, not by assignability). */
  predicate IsBusEventClass(c: ClassId) {
    c == NO_SUBSCRIBER_EVENT_CLASS || c == SUBSCRIBER_EXCEPTION_EVENT_CLASS
  }
}
