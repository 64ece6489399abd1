# EventBus dispatch engine and handler discovery, modelled in Dafny

This project models the sequential core of greenrobot's `EventBus` (2.x). All
concurrency and Android plumbing is abstracted away. The core has two parts.

**The dispatch engine of `EventBus`**, seen from one posting thread:

- the subscription registry: subscriptions per event type in priority order,
  plus the index from subscriber to subscribed types;
- the event-type resolver over an abstract, finite, acyclic class/interface
  hierarchy;
- the per-thread posting state machine: queue, `isPosting`, `isMainThread`,
  current event and subscription, and `canceled`;
- the thread-mode dispatch table, with the three posters reduced to recorded
  carriers;
- the `active` guard on deferred delivery;
- the sticky store;
- the failure and no-subscriber policies, including their loop-breakers.

**Handler discovery of `SubscriberMethodFinder`**, over abstract method
descriptors:

- `onEvent` suffix parsing into a thread mode;
- the modifier and parameter-count filter;
- the `name>eventType` shadowing rule;
- the superclass walk that stops at system classes;
- the empty-result error and the cache of non-empty results.

Modules, in dependency order:

| module | file | contents |
|---|---|---|
| `BusErrors` | errors.dfy | `Option`, `Result`, every exception the core raises |
| `Sequences` | sequences.dfy | prefix and associativity facts |
| `TypeHierarchy` | hierarchy.dfy | classes, superclasses, interfaces, assignability |
| `EventTypes` | eventtypes.dfy | `lookupAllEventTypes`, `addInterfaces` |
| `ThreadModes` | threadmodes.dfy | suffix table, `postToSubscription` dispatch table |
| `MethodFinder` | finder.dfy | discovery, shadowing, the method cache |
| `Registry` | registry.dfy | `subscribe`, `unsubscribeByEventType`, `unregister`, `isRegistered`, `hasSubscriberForEvent` |
| `Events` | events.dfy | user events, `NoSubscriberEvent`, `SubscriberExceptionEvent` |
| `StickyStore` | sticky.dfy | the sticky map and the sticky events a new subscription receives |
| `Posting` | posting.dfy | `post`, the drain loop, `postSingleEvent`, `postSingleEventForEventType`, `cancelEventDelivery`, `invokeSubscriber`, `handleSubscriberException`, `register`, `unregister`, `postSticky` |
| `DeliveryProperties` | delivery.dfy | what a posted event reaches, the drain order, and unregister versus carriers already handed to a poster |

How the model represents the source:

- **Identity.** Objects are values that carry an identity: a subscriber's
  `ref`, an event's `ref` or serial, a subscription's `id`. Dafny's `==` on
  them is Java's `==`. Where the source uses a subscriber's `equals`
  instead (the subscriber index), the model assumes the default
  `Object.equals`, as listed under "Left out".
- **Subscription equality.** `Subscription.equals` is not part of this model.
  It is the opaque parameter `same` of `subscribe`.
- **Handler bodies** are a function `Env.handler` from (subscription, event)
  to an action: return, throw, call `post(e)`, or call
  `cancelEventDelivery(e)`. A bus exception raised inside the body (for
  example by an illegal cancel) reaches `handleSubscriberException` as the
  cause, as it would through `Method.invoke`.
- **Bus-wide state** is a `Bus` record. It holds:
  - the registry and the sticky store;
  - the set of subscription ids whose `active` flag is cleared;
  - the carriers handed to the posters;
  - a log of handler invocations;
  - a serial counter for the events the bus creates itself;
  - the method cache.

  Each operation returns the new `Bus` and `PostingThreadState` together
  with a `Status`: completed, raised an `Error`, or out of fuel.

## Model

| member | source | states |
|---|---|---|
| EventTypes.AddInterfaces | src/de/greenrobot/event/EventBus.java:535-542 | only appends to the list it is given, and everything it appends is an interface |
| EventTypes.AddInterfacesIsDepthFirst | src/de/greenrobot/event/EventBus.java:535-542 | `addInterfaces` equals an independent stack-based pre-order depth-first walk from its interface list: each unlisted interface is followed at once by its own unlisted super-interfaces, depth first, before the next sibling, and siblings keep declaration order |
| EventTypes.CollectTypesIsDepthFirst | src/de/greenrobot/event/EventBus.java:521-528 | the `while (clazz != null)` loop from a class not yet listed, below every listed class, equals the walk from that class, which visits each type's interfaces in declaration order and then its superclass |
| EventTypes.LookupIsDepthFirst | src/de/greenrobot/event/EventBus.java:517-542 | the whole lookup is the pre-order depth-first walk of the supertype graph from the event class that skips visited types |
| EventTypes.LookupSegmented | src/de/greenrobot/event/EventBus.java:517-542 | the event class and the superclasses split the list into segments; each interface entry is reached through interface edges from an earlier segment start, and from no start before its own segment, so it sits in the segment of the first listed class (or the event class) that implements it |
| EventTypes.LookupAllEventTypesSpec | src/de/greenrobot/event/EventBus.java:517-533 | the list starts with the event class, has no duplicates, holds exactly the class's supertypes, and its classes are the superclass chain in order; each interface comes after the first listed class (or the event class) that implements it and before the next class; and the whole list is the depth-first walk, which fixes the order inside each segment |
| EventTypes.EventTypesForSpec | src/de/greenrobot/event/EventBus.java:429-443 | with inheritance off only the exact class is consulted; with it on, exactly its supertypes |
| ThreadModes.ModeOfSuffix | src/de/greenrobot/event/SubscriberMethodFinder.java:147-157 | the suffix table is total and inverse to each mode's suffix: "" PostThread, "MainThread", "BackgroundThread", "Async"; anything else has no mode |
| ThreadModes.Route | src/de/greenrobot/event/EventBus.java:487-514 | each mode's thread affinity holds (PostThread on the poster, MainThread on main, BackgroundThread never on main or the pool, Async on the pool), and delivery is deferred only when running inline would break it |
| MethodFinder.ModifiersAccepted | src/de/greenrobot/event/SubscriberMethodFinder.java:38-42 | the mask test accepts exactly public methods that are none of abstract, static, bridge (0x40) or synthetic (0x1000) |
| MethodFinder.GetThreadMode | src/de/greenrobot/event/SubscriberMethodFinder.java:146-165 | a known suffix yields its mode; an unknown one is the illegal-name error exactly when the declaring class is not in the skip list, and otherwise skips the method |
| MethodFinder.Examine | src/de/greenrobot/event/SubscriberMethodFinder.java:108-121 | a handler comes only from a public, non-ignored, one-parameter `onEvent*` method, takes that parameter as its event type, and has the mode its name spells; such a method always yields that handler; a misspelt `onEvent*` name is an error unless its class is skipped; anything else is dropped |
| MethodFinder.MethodKeyInjective | src/de/greenrobot/event/SubscriberMethodFinder.java:122-126 | the key `name>eventTypeName` determines the method name and the event type name |
| MethodFinder.FilterKeepsUnshadowed | src/de/greenrobot/event/SubscriberMethodFinder.java:122-136 | one class's pass appends exactly the handlers whose key no more derived class already recorded, in declaration order |
| MethodFinder.FilterFails | src/de/greenrobot/event/SubscriberMethodFinder.java:117-120 | one class's pass fails exactly when that class declares an illegal handler name |
| MethodFinder.ScanClassesFails | src/de/greenrobot/event/SubscriberMethodFinder.java:70-93 | the superclass walk fails exactly when a class it visits declares an illegal handler name |
| MethodFinder.ScanClassesIsShadowing | src/de/greenrobot/event/SubscriberMethodFinder.java:70-93 | without an illegal name, the walk's result equals the reference definition `Shadowing` over the classes below the first system class |
| MethodFinder.ShadowingHasShape | src/de/greenrobot/event/SubscriberMethodFinder.java:122-136 | every kept handler comes from the subscriber class or a superclass; subclass handlers come first; all handlers with one key share one declaring class |
| MethodFinder.DiscoverSpec | src/de/greenrobot/event/SubscriberMethodFinder.java:65-93 | discovery fails iff a visited class has an illegal name; otherwise it returns the most-derived declaration per key, subclass first |
| MethodFinder.FindSubscriberMethods | src/de/greenrobot/event/SubscriberMethodFinder.java:57-103 | a cached class is answered from the cache unchanged; a fresh non-empty result is cached; an empty one is the no-handlers error and the cache is untouched |
| MethodFinder.FindIsTransparent | src/de/greenrobot/event/SubscriberMethodFinder.java:57-103 | with a valid cache, a lookup answers what a fresh scan would and keeps the cache valid |
| MethodFinder.FindTwice | src/de/greenrobot/event/SubscriberMethodFinder.java:57-64 | after one successful lookup, a second returns the same list without changing the cache |
| Registry.InsertionIndex | src/de/greenrobot/event/EventBus.java:214-220 | the insertion point is after every entry of priority at least the new one, and before the first strictly lower one |
| Registry.InsertSorted | src/de/greenrobot/event/EventBus.java:214-220 | inserting into a non-increasing list keeps it non-increasing, and ties stay in registration order |
| Registry.Subscribe | src/de/greenrobot/event/EventBus.java:197-209 | subscribe fails exactly when an equal subscription is already listed for the type, with the duplicate-subscription error, and otherwise creates the subscription with the next identity |
| Registry.SubscribeInserts | src/de/greenrobot/event/EventBus.java:197-220 | the new subscription is inserted at the priority position; removing it gives back the old list; every other list is unchanged |
| Registry.SubscribeKeepsValid | src/de/greenrobot/event/EventBus.java:224-229 | the registry invariant is kept, the subscriber is registered, and the type is appended to its index entry only |
| Registry.SubscribeFreshIdentity | src/de/greenrobot/event/EventBus.java:199 | the new identity occurs nowhere else in the registry |
| Registry.ListedIsRegistered | src/de/greenrobot/event/EventBus.java:263-265 | under the invariant, every listed subscriber is registered |
| Registry.WithoutSpec | src/de/greenrobot/event/EventBus.java:268-282 | removal drops exactly the subscriptions of the subscriber, by identity, and keeps the list sorted |
| Registry.WithoutIsSubsequence | src/de/greenrobot/event/EventBus.java:268-282 | the remaining subscriptions keep their relative order |
| Registry.WithoutIdempotent | src/de/greenrobot/event/EventBus.java:268-282 | removing a subscriber twice is the same as once |
| Registry.UnsubscribeByEventType | src/de/greenrobot/event/EventBus.java:268-282 | only the given type's list changes; it becomes the old list without the subscriber's entries, so it loses every subscription of the subscriber; the cleared `active` flags are exactly those subscriptions' |
| Registry.UnsubscribeAllSpec | src/de/greenrobot/event/EventBus.java:288-290 | the loop over the index entry removes the subscriber from exactly the listed types, whatever duplicates the entry holds |
| Registry.Unregister | src/de/greenrobot/event/EventBus.java:285-297 | afterwards the subscriber is not registered; an unknown subscriber changes nothing |
| Registry.UnregisterSpec | src/de/greenrobot/event/EventBus.java:285-297 | keeps the invariant, removes the subscriber from every list, deactivates exactly its subscriptions, and drops only its index entry |
| Registry.AnySubscribed | src/de/greenrobot/event/EventBus.java:413-424 | true iff some listed type has a non-empty list |
| Registry.HasSubscriberForEvent | src/de/greenrobot/event/EventBus.java:411-427 | true iff some supertype of the class has a subscription |
| StickyStore.PutSticky | src/de/greenrobot/event/EventBus.java:354-357 | stores the event under its exact class and leaves other classes alone |
| StickyStore.RemoveStickyEventOfType | src/de/greenrobot/event/EventBus.java:378-382 | removes exactly the type's entry, keeps every other entry, and returns the removed event, or none when the type had no entry |
| StickyStore.RemoveStickyEvent | src/de/greenrobot/event/EventBus.java:389-400 | returns true iff the stored event of the class is this event, and only then removes it; otherwise the store is unchanged |
| StickyStore.RemoveAllStickyEvents | src/de/greenrobot/event/EventBus.java:405-409 | no class has a sticky event afterwards |
| StickyStore.StickyMatchesSpec | src/de/greenrobot/event/EventBus.java:233-253 | with inheritance, a new subscription receives exactly the stored events whose class is assignable to its type, each once; without it, only the exact type's entry |
| StickyStore.StickyRoundTrip | src/de/greenrobot/event/EventBus.java:354-399 | a stored event is read back, removed by identity, and returned by removal by type |
| Posting.Cancel | src/de/greenrobot/event/EventBus.java:333-347 | the cancel succeeds iff the thread is posting, the event is the current one and the current subscription is PostThread; each failure has the error of the first check it fails, including the null-subscription dereference |
| Posting.Post | src/de/greenrobot/event/EventBus.java:300-324 | a nested post only enqueues; an outermost post ends with `isPosting` and `isMainThread` cleared even when it raises, and with an empty queue when it completes; from an idle thread it never raises the abort-state error |
| Posting.Drain | src/de/greenrobot/event/EventBus.java:316-318 | the loop keeps the thread posting on the same thread kind, leaves the per-event fields cleared, and completes only with an empty queue |
| Posting.PostSingleEvent | src/de/greenrobot/event/EventBus.java:429-454 | never touches registry, sticky store or flags; only appends to the queue; keeps the per-event fields cleared |
| Posting.ForTypes | src/de/greenrobot/event/EventBus.java:433-443 | `subscriptionFound` is true iff some resolved type has a non-empty list |
| Posting.ForType | src/de/greenrobot/event/EventBus.java:456-483 | after a non-empty list, the current event, subscription and cancel flag are cleared, whatever happened |
| Posting.Dispatch | src/de/greenrobot/event/EventBus.java:487-514 | a deferred delivery appends exactly one carrier for the table's poster and changes nothing else |
| Posting.Invoke | src/de/greenrobot/event/EventBus.java:559-567 | the handler runs first; the thread's posting fields and current event are left as found |
| Posting.HandleSubscriberException | src/de/greenrobot/event/EventBus.java:569-593 | a failure on a SubscriberExceptionEvent is swallowed; otherwise `throwSubscriberException` throws before anything else, and else an exception event is posted only if so configured |
| Posting.InvokePending | src/de/greenrobot/event/EventBus.java:550-557 | the carrier is always released, and its handler runs iff the subscription is still active |
| Posting.Register | src/de/greenrobot/event/EventBus.java:181-188 | a discovery failure is raised with the cache as discovery left it |
| Posting.UnregisterSubscriber | src/de/greenrobot/event/EventBus.java:285-297 | afterwards the subscriber is not registered, no flag is set back to active, and an unknown subscriber changes nothing |
| Posting.PostSticky | src/de/greenrobot/event/EventBus.java:354-359 | after posting, `getStickyEvent` of the event's class returns this event |
| DeliveryProperties.ForTypeDelivers | src/de/greenrobot/event/EventBus.java:456-483 | with every handler of the list PostThread and served inline, the handlers run in list (priority) order up to and including the first that cancels this event, and no later one; the events they post are queued in that order, and the per-event fields end cleared |
| DeliveryProperties.ForTypesDelivers | src/de/greenrobot/event/EventBus.java:433-439 | the resolved types are served in order, a cancel ends only the list it happens in, and the events the handlers post are appended to the queue in delivery order |
| DeliveryProperties.ForTypesNoneFound | src/de/greenrobot/event/EventBus.java:456-462 | if no resolved type has a subscription, the loop changes nothing and reports none found |
| DeliveryProperties.PostSingleEventDelivers | src/de/greenrobot/event/EventBus.java:429-454 | the deliveries of every resolved type are logged and the handlers' posts are queued; a NoSubscriberEvent with the next serial is queued behind them iff no type had a subscription, the flag is set, and the event is not one of the bus's own; nothing else of the bus changes; with inheritance off only the exact class is served |
| DeliveryProperties.SingleEventStep | src/de/greenrobot/event/EventBus.java:429-454 | the same outcome phrased with the reference notice: one inline event logs its deliveries, queues its posts and then its notice, and advances the serial by the notice's length |
| DeliveryProperties.DrainDelivers | src/de/greenrobot/event/EventBus.java:316-318 | when the reference FIFO schedule completes, the drain loop logs exactly the schedule's deliveries, in its order: the head completely before the next event, each event a handler posts and each NoSubscriberEvent after everything queued before it; it ends with the queue empty and the serial the schedule reaches |
| DeliveryProperties.PostDeliversInOrder | src/de/greenrobot/event/EventBus.java:300-324 | an outermost post appends its event, drains the queue by the reference schedule, and leaves the thread idle with an empty queue |
| DeliveryProperties.DrainKeepsUnprocessed | src/de/greenrobot/event/EventBus.java:315-322 | when an exception leaves the loop, the events not yet taken are still at the head of the queue, in order |
| DeliveryProperties.UnregisteredCarrierSkipped | src/de/greenrobot/event/EventBus.java:550-557 | a carrier whose subscriber has been unregistered is released without invoking the handler |
| DeliveryProperties.SubscribeAllKeepsValid | src/de/greenrobot/event/EventBus.java:181-188 | registration keeps the registry invariant; a completed registration with handlers leaves the subscriber registered |
| DeliveryProperties.DeliverStickyInvokes | src/de/greenrobot/event/EventBus.java:255-261 | each sticky event handed over reaches the new PostThread subscription at once, in order, and nothing else of the bus or thread changes |
| DeliveryProperties.InlineInvoke | src/de/greenrobot/event/EventBus.java:559-567 | a handler that returns, posts or throws under a logging-only policy is logged once and leaves exactly its posted event queued, with the thread otherwise as found |
| DeliveryProperties.ScheduleWithoutPosts | src/de/greenrobot/event/EventBus.java:316-318 | when no handler posts and the notice is off, the reference schedule is the queued events delivered one after another, each completely, and the serial is untouched |
| DeliveryProperties.SubscribeAllLists | src/de/greenrobot/event/EventBus.java:185-220 | a completed registration lists a subscription of the subscriber, with its method and priority, for every discovered handler |
| DeliveryProperties.RegisterSubscribesAll | src/de/greenrobot/event/EventBus.java:181-188 | registration keeps the registry invariant, and when discovery succeeds and registration completes, every discovered handler is listed for the subscriber at the given priority |
| DeliveryProperties.SubscribeAllStickyStops | src/de/greenrobot/event/EventBus.java:185-253 | with PostThread handlers that return, registration leaves the posting thread as found and can fail only with the duplicate-subscription error |
| DeliveryProperties.SubscribeAllSticky | src/de/greenrobot/event/EventBus.java:232-261 | a completed sticky registration with PostThread handlers that return logs, handler by handler, the stored events `StickyMatches` selects for that handler's type, and nothing else |
| DeliveryProperties.SubscribeAllQuiet | src/de/greenrobot/event/EventBus.java:232-233 | a registration without `sticky` invokes no handler, hands no carrier to a poster and leaves the posting thread as found |
| DeliveryProperties.RegisterDeliversSticky | src/de/greenrobot/event/EventBus.java:181-261 | a completed sticky `register` with PostThread handlers that return hands each discovered handler, in discovery order, exactly the stored events `StickyMatches` selects for its event type |
| DeliveryProperties.StickyMatchesStored | src/de/greenrobot/event/EventBus.java:239-251 | every event a new subscription is handed is one the sticky store holds |

## Left out

- Threads. `ThreadLocal`, `synchronized`, the copy-on-write snapshot of a
  type's list, and the `getDefault` singleton are not modelled. The model
  follows one thread's `PostingThreadState`; every registry operation is
  one atomic step.
- Android main-thread detection. `Looper.getMainLooper() == Looper.myLooper()`
  is the input `Env.onMainThread`.
- The posters and the `PendingPost` pool. Each `enqueue` is a `PendingPost`
  appended to `Bus.pending`. A poster delivering one is `InvokePending`,
  with the carrier chosen by the caller, since their order is the posters'
  business. `HandlerPoster`, `BackgroundPoster` and `AsyncPoster` are not
  part of this model.
- Reflection. The following are not modelled:
  - `Method.invoke` and its `IllegalAccessException` branch. That branch
    is reachable: a public `onEvent` method of a non-public subscriber class
    in another package is not accessible. `invokeSubscriber` rethrows it out
    of `post` as an `IllegalStateException`, bypassing
    `handleSubscriberException`. The model's handlers always run;
  - `getDeclaredMethods` and `getMethods`;
  - the `catch (Throwable)` fallback in `findSubscriberMethods`.

  Methods are descriptors, and `Declarations` gives each class's declared
  methods in reflection order. The fallback also catches the illegal-name
  exception and rescans `getMethods()` of the subscriber class. That rescan
  throws again whenever the offending public method is visible there. The
  model instead raises the error directly.
- `MethodFinder.FindSubscriberMethods`: in the source the method cache is
  static and shared by all buses. The model keeps it in the `Bus`, and
  `clearCaches` is not modelled.
- The `eventTypesCache` of `lookupAllEventTypes`. It only memoises the
  list, so the model recomputes it.
- Logging (`Log.d`, `Log.e`, `Log.w`). The flags `logSubscriberExceptions`
  and `logNoSubscriberMessages` are carried in `Config` but change nothing.
- `EventBusBuilder` and its defaults. `Config` is a record of the six flags
  the bus reads.
- `Posting.Drain`: the drain loop carries a fuel bound. It returns
  `OutOfFuel` with the rest of the queue untouched when the bound runs out.
  Without the bound, handlers that keep posting would make the source loop
  forever, so the model does not state non-termination.
- `post(null)` and `postSticky(null)`. They throw a `NullPointerException`
  and are not modelled, because events are never null here.
  `cancelEventDelivery(null)` is modelled, as the `CancelNullEvent` error.
- Subscriber `equals`/`hashCode`. `typesBySubscriber` is a `HashMap`, so
  `register`'s index update, `isRegistered` and `unregister` look a
  subscriber up by `equals`. Only the list scan of `unsubscribeByEventType`
  compares with `==`. The model keys the index by identity, so two distinct
  subscribers that a user-defined `equals` makes equal are not modelled.
- `removeStickyEvent(Object)`: the source calls the event's `equals`. The
  model uses identity, which is `Object.equals`; user overrides of `equals`
  are not modelled.
- `StickyStore.StickyMatchesSpec`: `ConcurrentHashMap` iteration order is
  unspecified. The caller passes the order in which the store's classes are
  visited, and the contract states no order among several matching sticky
  events.
- `Posting.Register`: `register` is not atomic in the source, and the model
  follows it. A duplicate subscription part-way through raises the error
  and keeps the subscriptions made before it.
- `Registry.HasSubscriberForEvent`: the source always resolves the event's
  supertypes here, whatever `eventInheritance` says, and the model does the
  same.
- `Posting.Post`: when the abort-state check fires, the source has already
  set `isPosting`. The check runs before the `try`, so the `finally` never
  clears the flag, and the model keeps it set too. `Posting.Post` proves
  that from an idle thread this check never fires.
- DeliveryProperties.ForTypeDelivers: covers lists whose handlers are all
  PostThread and run inline. A handler that throws is covered only when
  `throwSubscriberException` and `sendSubscriberExceptionEvent` are both
  off. A handler that cancels some other event is not covered. Those paths
  are stated separately by `Posting.Invoke`, `Posting.Cancel` and
  `Posting.HandleSubscriberException`, not as a delivery order.
- DeliveryProperties.ForTypesDelivers: same restriction as `ForTypeDelivers`,
  for every resolved type's list.
- DeliveryProperties.PostSingleEventDelivers: same restriction as
  `ForTypeDelivers`, for every resolved type's list.
- DeliveryProperties.SingleEventStep: same restriction as `ForTypeDelivers`.
- DeliveryProperties.DrainDelivers: the order is stated for queues whose
  reference schedule completes within the fuel. That needs every event the
  drain reaches to meet the `ForTypeDelivers` restriction. A drain that
  meets a deferred handler, a throwing handler under an active failure
  policy, or a stale cancel is covered only by `Posting.Drain` and
  `DrainKeepsUnprocessed`.
- DeliveryProperties.PostDeliversInOrder: same restriction as
  `DrainDelivers`.
- DeliveryProperties.DeliverStickyInvokes: covers a PostThread subscription
  whose handler returns for every sticky event handed to it.
- DeliveryProperties.SubscribeAllSticky: covers PostThread handlers that
  return for every stored event. A deferred sticky delivery becomes a
  carrier (`Posting.Dispatch`), and a throwing one goes to
  `Posting.HandleSubscriberException`.
- DeliveryProperties.SubscribeAllStickyStops: same restriction as
  `SubscribeAllSticky`.
- DeliveryProperties.RegisterDeliversSticky: same restriction as
  `SubscribeAllSticky`.
- The unused `PostCallback` interface and `getExecutorService`.
