/** The posting engine of `EventBus`, from one thread's point of view: the
    per-thread posting state, the drain loop of `post`, dispatch of one event
    to the subscriptions of its resolved types, cancellation, deferred
    delivery through the posters, the failure policy, and the
    register/unregister entry points that tie in discovery, the registry and
    the sticky store. */
module Posting {
  import opened BusErrors
  import opened Sequences
  import opened TypeHierarchy
  import opened EventTypes
  import opened ThreadModes
  import opened MethodFinder
  import opened Registry
  import opened Events
  import opened StickyStore

  /** The `EventBusBuilder` flags the bus reads. */
  datatype Config = Config(
    logSubscriberExceptions: bool,
    logNoSubscriberMessages: bool,
    sendSubscriberExceptionEvent: bool,
    sendNoSubscriberEvent: bool,
    throwSubscriberException: bool,
    eventInheritance: bool)

  /** What a handler body does when invoked, in place of its code. */
  datatype HandlerAction =
    | Returns                         // returns normally
    | Throws(code: nat)               // throws an exception of its own
    | Posts(event: Event)             // calls post(event), then returns
    | Cancels(target: Option<Event>)  // calls cancelEventDelivery(target), then returns

  /** The fixed surroundings of a run: configuration, class hierarchy,
      whether the current thread is the main thread, and the handlers. */
  datatype Env = Env(
    config: Config,
    h: Hierarchy,
    onMainThread: bool,
    handler: (Subscription, Event) -> HandlerAction)

  /** A carrier handed to the main, background or async poster. */
  datatype PendingPost = PendingPost(subscription: Subscription, event: Event, poster: Delivery)

  /** `PostingThreadState`. */
  datatype PostingThreadState = PostingThreadState(
    eventQueue: seq<Event>,
    isPosting: bool,
    isMainThread: bool,
    subscription: Option<Subscription>,
    event: Option<Event>,
    canceled: bool)

  const NewThreadState := PostingThreadState([], false, false, None, None, false)

  /** The state shared by all threads. */
  datatype Bus = Bus(
    registry: Registry,
    sticky: Store,
    inactive: set<nat>,                   // subscriptions whose `active` flag is false
    pending: seq<PendingPost>,            // carriers enqueued to the posters, not yet delivered
    invoked: seq<(Subscription, Event)>,  // every handler invocation, in order
    nextSerial: nat,                      // identity of the next event the bus creates
    methodCache: MethodCache)

  /** How an operation ended: normally, by throwing, or (for the model only)
      because the drain loop ran out of fuel. */
  datatype Status = Done | Raised(error: Error) | OutOfFuel

  datatype Step = Step(bus: Bus, ts: PostingThreadState, status: Status)

  // ---------------------------------------------------------------------------
  // State predicates

  /** A thread that is not posting, with every per-event field cleared. */
  predicate Idle(ts: PostingThreadState) {
    !ts.isPosting && !ts.isMainThread && ts.event.None? && ts.subscription.None? && !ts.canceled
  }

  /** A thread inside the drain loop, between two events. */
  predicate Between(ts: PostingThreadState) {
    ts.isPosting && ts.event.None? && ts.subscription.None? && !ts.canceled
  }

  /** The error is not, and was not caused by, "Abort state was not reset". */
  predicate NoAbort(e: Error) {
    match e
    case AbortStateNotReset => false
    case InvocationFailed(BusRejected(inner)) => NoAbort(inner)
    case _ => true
  }

  predicate AbortFree(s: Status) {
    s.Raised? ==> NoAbort(s.error)
  }

  predicate CauseAbortFree(c: Cause) {
    c.BusRejected? ==> NoAbort(c.error)
  }

  /** Posting never touches the registry, the sticky store, the active flags
      or the method cache; it only appends to the invocation log and the
      poster queues and draws fresh serials. */
  predicate Kept(before: Bus, after: Bus) {
    && after.registry == before.registry
    && after.sticky == before.sticky
    && after.inactive == before.inactive
    && after.methodCache == before.methodCache
    && IsPrefix(before.invoked, after.invoked)
    && IsPrefix(before.pending, after.pending)
    && before.nextSerial <= after.nextSerial
  }

  lemma KeptTrans(a: Bus, b: Bus, c: Bus)
    requires Kept(a, b) && Kept(b, c)
    ensures Kept(a, c)
  {
    PrefixTrans(a.invoked, b.invoked, c.invoked);
    PrefixTrans(a.pending, b.pending, c.pending);
  }

  /** A bus that kept the log with one more entry keeps the entry. */
  lemma LoggedKept(bus: Bus, entry: (Subscription, Event), after: Bus)
    requires Kept(bus.(invoked := bus.invoked + [entry]), after)
    ensures Kept(bus, after)
    ensures |bus.invoked| < |after.invoked| && after.invoked[|bus.invoked|] == entry
  {
    var logged := bus.invoked + [entry];
    assert IsPrefix(bus.invoked, logged);
    PrefixTrans(bus.invoked, logged, after.invoked);
    assert after.invoked[|bus.invoked|] == after.invoked[..|logged|][|bus.invoked|];
  }

  /** The fields an operation running inside a post leaves alone. */
  predicate SamePosting(before: PostingThreadState, after: PostingThreadState) {
    && after.isPosting == before.isPosting
    && after.isMainThread == before.isMainThread
    && IsPrefix(before.eventQueue, after.eventQueue)
  }

  // ---------------------------------------------------------------------------
  // cancelEventDelivery

  /** `cancelEventDelivery`: allowed only from a PostThread handler of the
      event currently being delivered on this thread; the checks run in the
      source's order. */
  function Cancel(ts: PostingThreadState, target: Option<Event>): (r: Result<PostingThreadState>)
    ensures r.Ok? <==>
      && ts.isPosting && target.Some? && ts.event == target
      && ts.subscription.Some? && ts.subscription.value.subscriberMethod.threadMode == PostThread
    ensures r.Ok? ==> r.value == ts.(canceled := true)
    ensures !ts.isPosting ==> r == Err(CancelOutsidePosting)
    ensures ts.isPosting && target.None? ==> r == Err(CancelNullEvent)
    ensures ts.isPosting && target.Some? && ts.event != target ==> r == Err(CancelNotCurrentEvent)
    ensures (ts.isPosting && target.Some? && ts.event == target && ts.subscription.Some?
             && ts.subscription.value.subscriberMethod.threadMode != PostThread) ==> r == Err(CancelFromNonPostThread)
    // The source dereferences a null subscription here; `post` sets and
    // clears event and subscription together, so a state reaching this
    // branch is not one the bus produces.
    ensures (ts.isPosting && target.Some? && ts.event == target && ts.subscription.None?) ==> r == Err(NullDereference)
  {
    if !ts.isPosting then Err(CancelOutsidePosting)
    else if target.None? then Err(CancelNullEvent)
    else if ts.event != target then Err(CancelNotCurrentEvent)
    else if ts.subscription.None? then Err(NullDereference)
    else if ts.subscription.value.subscriberMethod.threadMode != PostThread then Err(CancelFromNonPostThread)
    else Ok(ts.(canceled := true))
  }

  // ---------------------------------------------------------------------------
  // post and everything it calls

  /** `post`: appends the event to the thread's queue; the outermost call
      also records whether it runs on the main thread, drains the queue head
      first and finally clears `isPosting`/`isMainThread`, whether or not the
      drain threw. A nested call only enqueues. The stale-cancel check sits
      before the drain's try block, so when it fires nothing is reset. */
  function Post(env: Env, fuel: nat, bus: Bus, ts: PostingThreadState, event: Event): (r: Step)
    requires WellFormed(env.h)
    ensures Kept(bus, r.bus)
    ensures ts.isPosting ==> r == Step(bus, ts.(eventQueue := ts.eventQueue + [event]), Done)
    ensures !ts.isPosting && ts.canceled ==> r.status == Raised(AbortStateNotReset) && r.ts.isPosting
    ensures !ts.isPosting && !ts.canceled ==> !r.ts.isPosting && !r.ts.isMainThread
    ensures !ts.isPosting && !ts.canceled && r.status == Done ==> r.ts.eventQueue == []
    ensures Idle(ts) ==> Idle(r.ts) && AbortFree(r.status)
    decreases fuel, 1, 0
  {
    var queued := ts.(eventQueue := ts.eventQueue + [event]);
    if queued.isPosting then Step(bus, queued, Done)
    else
      var started := queued.(isMainThread := env.onMainThread, isPosting := true);
      if started.canceled then Step(bus, started, Raised(AbortStateNotReset))
      else
        var r := Drain(env, fuel, bus, started);
        Step(r.bus, r.ts.(isPosting := false, isMainThread := false), r.status)
  }

  /** The `while (!eventQueue.isEmpty())` loop: removes the head and posts
      it, until the queue is empty or an exception leaves the loop (the
      events still queued then stay queued). */
  function Drain(env: Env, fuel: nat, bus: Bus, ts: PostingThreadState): (r: Step)
    requires WellFormed(env.h)
    ensures Kept(bus, r.bus)
    ensures ts.isPosting ==> r.ts.isPosting && r.ts.isMainThread == ts.isMainThread
    ensures Between(ts) ==> Between(r.ts) && AbortFree(r.status)
    ensures r.status == Done ==> r.ts.eventQueue == []
    decreases fuel, 0, 0
  {
    if ts.eventQueue == [] then Step(bus, ts, Done)
    else if fuel == 0 then Step(bus, ts, OutOfFuel)
    else
      var head := ts.eventQueue[0];
      var r := PostSingleEvent(env, fuel - 1, bus, ts.(eventQueue := ts.eventQueue[1..]), head);
      if r.status != Done then r
      else Drain(env, fuel - 1, r.bus, r.ts)
  }

  /** `postSingleEvent`: delivers the event under each resolved type; when no
      type had a subscription, posts a `NoSubscriberEvent` if so configured,
      except for the bus's own event classes. */
  function PostSingleEvent(env: Env, fuel: nat, bus: Bus, ts: PostingThreadState, event: Event): (r: Step)
    requires WellFormed(env.h)
    ensures Kept(bus, r.bus)
    ensures ts.isPosting ==> SamePosting(ts, r.ts)
    ensures Between(ts) ==> Between(r.ts) && AbortFree(r.status)
    decreases fuel, 7, 0
  {
    var eventClass := ClassOf(event);
    var types := EventTypesFor(env.h, env.config.eventInheritance, eventClass);
    var t := ForTypes(env, fuel, bus, ts, event, types);
    if t.step.status != Done || t.found then t.step
    else if env.config.sendNoSubscriberEvent && !IsBusEventClass(eventClass) then
      var r := t.step;
      Post(env, fuel, r.bus.(nextSerial := r.bus.nextSerial + 1), r.ts, NoSubscriberEvent(r.bus.nextSerial, event))
    else t.step
  }

  /** The result of the loop over resolved types, with `subscriptionFound`. */
  datatype TypesStep = TypesStep(step: Step, found: bool)

  /** The `for` loop of `postSingleEvent` over the resolved types. */
  function ForTypes(env: Env, fuel: nat, bus: Bus, ts: PostingThreadState, event: Event, types: seq<ClassId>)
    : (r: TypesStep)
    requires WellFormed(env.h)
    ensures Kept(bus, r.step.bus)
    ensures ts.isPosting ==> SamePosting(ts, r.step.ts)
    ensures Between(ts) ==> Between(r.step.ts) && AbortFree(r.step.status)
    ensures r.step.status == Done ==>
      (r.found <==> exists k :: 0 <= k < |types| && Subscriptions(bus.registry, types[k]) != [])
    decreases fuel, 6, |types|
  {
    if types == [] then TypesStep(Step(bus, ts, Done), false)
    else
      var list := Subscriptions(bus.registry, types[0]);
      var first := if list == [] then Step(bus, ts, Done) else ForType(env, fuel, bus, ts, event, list);
      if first.status != Done then TypesStep(first, true)
      else
        var rest := ForTypes(env, fuel, first.bus, first.ts, event, types[1..]);
        SomeListCons(bus.registry, types);
        TypesStep(rest.step, list != [] || rest.found)
  }

  /** Some resolved type has a subscription iff the first does or one of the
      rest does. */
  lemma SomeListCons(reg: Registry, types: seq<ClassId>)
    requires types != []
    ensures (exists k :: 0 <= k < |types| && Subscriptions(reg, types[k]) != [])
      <==> Subscriptions(reg, types[0]) != [] || exists k :: 0 <= k < |types[1..]| && Subscriptions(reg, types[1..][k]) != []
  {
    if exists k :: 0 <= k < |types| && Subscriptions(reg, types[k]) != [] {
      var k :| 0 <= k < |types| && Subscriptions(reg, types[k]) != [];
      if k > 0 {
        assert types[1..][k - 1] == types[k];
      }
    }
  }

  /** `postSingleEventForEventType` over a non-empty snapshot of one type's
      list: marks the current event and subscription, delivers, reads the
      cancel flag, and always clears the three fields again; a cancel stops
      this list only, an exception stops everything. */
  function ForType(env: Env, fuel: nat, bus: Bus, ts: PostingThreadState, event: Event, list: seq<Subscription>)
    : (r: Step)
    requires WellFormed(env.h)
    ensures Kept(bus, r.bus)
    ensures ts.isPosting ==> SamePosting(ts, r.ts)
    ensures list != [] ==> r.ts.event.None? && r.ts.subscription.None? && !r.ts.canceled
    ensures Between(ts) ==> Between(r.ts) && AbortFree(r.status)
    decreases fuel, 5, |list|
  {
    if list == [] then Step(bus, ts, Done)
    else
      var subscription := list[0];
      var current := ts.(event := Some(event), subscription := Some(subscription));
      var d := Dispatch(env, fuel, bus, current, subscription, event, current.isMainThread);
      var aborted := d.ts.canceled;
      var reset := d.ts.(event := None, subscription := None, canceled := false);
      if d.status != Done then Step(d.bus, reset, d.status)
      else if aborted then Step(d.bus, reset, Done)
      else ForType(env, fuel, d.bus, reset, event, list[1..])
  }

  /** `postToSubscription`: invoke now, or hand a carrier to the poster the
      dispatch table names. */
  function Dispatch(env: Env, fuel: nat, bus: Bus, ts: PostingThreadState, subscription: Subscription, event: Event,
                    isMainThread: bool): (r: Step)
    requires WellFormed(env.h)
    ensures Kept(bus, r.bus)
    ensures ts.isPosting ==> SamePosting(ts, r.ts) && r.ts.event == ts.event && r.ts.subscription == ts.subscription
    ensures ts.isPosting || Idle(ts) ==> AbortFree(r.status)
    ensures Idle(ts) ==> Idle(r.ts)
    ensures var d := Route(subscription.subscriberMethod.threadMode, isMainThread);
      d != InvokeNow ==> r == Step(bus.(pending := bus.pending + [PendingPost(subscription, event, d)]), ts, Done)
    decreases fuel, 4, 0
  {
    var d := Route(subscription.subscriberMethod.threadMode, isMainThread);
    if d == InvokeNow then Invoke(env, fuel, bus, ts, subscription, event)
    else Step(bus.(pending := bus.pending + [PendingPost(subscription, event, d)]), ts, Done)
  }

  /** `invokeSubscriber(Subscription, Object)`: runs the handler; whatever it
      throws, including an exception the bus threw at it, goes to the
      failure policy. */
  function Invoke(env: Env, fuel: nat, bus: Bus, ts: PostingThreadState, subscription: Subscription, event: Event)
    : (r: Step)
    requires WellFormed(env.h)
    ensures Kept(bus, r.bus)
    ensures |bus.invoked| < |r.bus.invoked| && r.bus.invoked[|bus.invoked|] == (subscription, event)
    ensures ts.isPosting ==> SamePosting(ts, r.ts) && r.ts.event == ts.event && r.ts.subscription == ts.subscription
    ensures ts.isPosting || Idle(ts) ==> AbortFree(r.status)
    ensures Idle(ts) ==> Idle(r.ts)
    decreases fuel, 3, 0
  {
    var logged := bus.(invoked := bus.invoked + [(subscription, event)]);
    match env.handler(subscription, event)
    case Returns => Step(logged, ts, Done)
    case Throws(code) => HandleSubscriberException(env, fuel, logged, ts, subscription, event, HandlerThrew(code))
    case Posts(e) =>
      var p := Post(env, fuel, logged, ts, e);
      if p.status.Raised? then
        var x := HandleSubscriberException(env, fuel, p.bus, p.ts, subscription, event, BusRejected(p.status.error));
        KeptTrans(logged, p.bus, x.bus);
        LoggedKept(bus, (subscription, event), x.bus);
        x
      else p
    case Cancels(target) =>
      match Cancel(ts, target)
      case Ok(canceled) => Step(logged, canceled, Done)
      case Err(e) => HandleSubscriberException(env, fuel, logged, ts, subscription, event, BusRejected(e))
  }

  /** `handleSubscriberException`. A failure while handling a
      `SubscriberExceptionEvent` is only logged, so it never throws and never
      posts another exception event. Otherwise `throwSubscriberException`
      throws before any logging or posting; failing that, a
      `SubscriberExceptionEvent` is posted if so configured. */
  function HandleSubscriberException(env: Env, fuel: nat, bus: Bus, ts: PostingThreadState, subscription: Subscription,
                                     event: Event, cause: Cause): (r: Step)
    requires WellFormed(env.h)
    ensures Kept(bus, r.bus)
    ensures IsSubscriberExceptionEvent(env.h, event) ==> r == Step(bus, ts, Done)
    ensures !IsSubscriberExceptionEvent(env.h, event) && env.config.throwSubscriberException ==>
      r == Step(bus, ts, Raised(InvocationFailed(cause)))
    ensures ts.isPosting && !IsSubscriberExceptionEvent(env.h, event) && !env.config.throwSubscriberException ==>
      && r.status == Done
      && r.ts == ts.(eventQueue := ts.eventQueue +
           if env.config.sendSubscriberExceptionEvent
           then [SubscriberExceptionEvent(bus.nextSerial, cause, event, subscription.subscriber)] else [])
    ensures ts.isPosting ==> SamePosting(ts, r.ts) && r.ts.event == ts.event && r.ts.subscription == ts.subscription
    ensures (ts.isPosting || Idle(ts)) && CauseAbortFree(cause) ==> AbortFree(r.status)
    ensures Idle(ts) ==> Idle(r.ts)
    decreases fuel, 2, 0
  {
    if IsSubscriberExceptionEvent(env.h, event) then Step(bus, ts, Done)
    else if env.config.throwSubscriberException then Step(bus, ts, Raised(InvocationFailed(cause)))
    else if env.config.sendSubscriberExceptionEvent then
      var exEvent := SubscriberExceptionEvent(bus.nextSerial, cause, event, subscription.subscriber);
      Post(env, fuel, bus.(nextSerial := bus.nextSerial + 1), ts, exEvent)
    else Step(bus, ts, Done)
  }

  // ---------------------------------------------------------------------------
  // Deferred delivery

  function Release(pending: seq<PendingPost>, k: nat): seq<PendingPost>
    requires k < |pending|
  {
    pending[..k] + pending[k + 1..]
  }

  /** `invokeSubscriber(PendingPost)` on the poster's thread (state `ts`):
      the carrier is always released; the handler runs only while the
      subscription is still active. Which queued carrier a poster delivers
      next is the caller's choice `k`. */
  function InvokePending(env: Env, fuel: nat, bus: Bus, ts: PostingThreadState, k: nat): (r: Step)
    requires WellFormed(env.h) && k < |bus.pending|
    ensures IsPrefix(Release(bus.pending, k), r.bus.pending)
    ensures bus.pending[k].subscription.id in bus.inactive ==>
      r == Step(bus.(pending := Release(bus.pending, k)), ts, Done)
    ensures bus.pending[k].subscription.id !in bus.inactive ==>
      |bus.invoked| < |r.bus.invoked| && r.bus.invoked[|bus.invoked|] == (bus.pending[k].subscription, bus.pending[k].event)
  {
    var carrier := bus.pending[k];
    var released := bus.(pending := Release(bus.pending, k));
    if carrier.subscription.id !in bus.inactive then Invoke(env, fuel, released, ts, carrier.subscription, carrier.event)
    else Step(released, ts, Done)
  }

  // ---------------------------------------------------------------------------
  // register, unregister, postSticky

  /** `register`: discovers the handlers (through the cache) and subscribes
      each in turn. The loop is not atomic: a duplicate subscription aborts
      it, keeping the subscriptions made before. */
  function Register(env: Env, fuel: nat, bus: Bus, ts: PostingThreadState, same: SameSubscription, skip: set<ClassId>,
                    decl: Declarations, subscriber: Subscriber, sticky: bool, priority: int, order: seq<ClassId>)
    : (r: Step)
    requires WellFormed(env.h)
    ensures var found := FindSubscriberMethods(env.h, skip, decl, bus.methodCache, subscriber.cls);
      found.result.Err? ==> r == Step(bus.(methodCache := found.cache), ts, Raised(found.result.error))
  {
    var found := FindSubscriberMethods(env.h, skip, decl, bus.methodCache, subscriber.cls);
    var cached := bus.(methodCache := found.cache);
    match found.result
    case Err(e) => Step(cached, ts, Raised(e))
    case Ok(methods) => SubscribeAll(env, fuel, cached, ts, same, subscriber, methods, sticky, priority, order)
  }

  /** The loop of `register` over the discovered handlers; each `subscribe`
      delivers the matching sticky events to its new subscription at once. */
  function SubscribeAll(env: Env, fuel: nat, bus: Bus, ts: PostingThreadState, same: SameSubscription,
                        subscriber: Subscriber, methods: seq<SubscriberMethod>, sticky: bool, priority: int,
                        order: seq<ClassId>): (r: Step)
    requires WellFormed(env.h)
    ensures methods == [] ==> r == Step(bus, ts, Done)
    ensures r.bus.registry.nextId >= bus.registry.nextId
    decreases |methods|
  {
    if methods == [] then Step(bus, ts, Done)
    else
      match Subscribe(bus.registry, same, subscriber, methods[0], priority)
      case Err(e) => Step(bus, ts, Raised(e))
      case Ok((registry, s)) =>
        var b := bus.(registry := registry);
        var matches := StickyMatches(env.h, b.sticky, env.config.eventInheritance, s.subscriberMethod.eventType, order);
        var delivered := if sticky then DeliverSticky(env, fuel, b, ts, s, matches) else Step(b, ts, Done);
        if delivered.status != Done then delivered
        else
          SubscribeAll(env, fuel, delivered.bus, delivered.ts, same, subscriber, methods[1..], sticky, priority, order)
  }

  /** `checkPostStickyEventToSubscription` for each matching sticky event,
      on the registering thread. */
  function DeliverSticky(env: Env, fuel: nat, bus: Bus, ts: PostingThreadState, s: Subscription, events: seq<Event>)
    : (r: Step)
    requires WellFormed(env.h)
    ensures Kept(bus, r.bus)
    decreases |events|
  {
    if events == [] then Step(bus, ts, Done)
    else
      var d := Dispatch(env, fuel, bus, ts, s, events[0], env.onMainThread);
      if d.status != Done then d else DeliverSticky(env, fuel, d.bus, d.ts, s, events[1..])
  }

  /** `unregister`, with the cleared `active` flags recorded. */
  function UnregisterSubscriber(bus: Bus, subscriber: Subscriber): (r: Bus)
    ensures !IsRegistered(r.registry, subscriber)
    ensures bus.inactive <= r.inactive
    ensures !IsRegistered(bus.registry, subscriber) ==> r == bus
  {
    var u := Unregister(bus.registry, subscriber);
    bus.(registry := u.registry, inactive := bus.inactive + u.deactivated)
  }

  /** `postSticky`: store the event under its class first, then post it. */
  function PostSticky(env: Env, fuel: nat, bus: Bus, ts: PostingThreadState, event: Event): (r: Step)
    requires WellFormed(env.h)
    ensures GetStickyEvent(r.bus.sticky, ClassOf(event)) == Some(event)
    ensures r.bus.sticky == PutSticky(bus.sticky, event)
  {
    Post(env, fuel, bus.(sticky := PutSticky(bus.sticky, event)), ts, event)
  }
}
