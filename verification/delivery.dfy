/** What one posted event reaches: delivery order within a type's list, the
    effect of a cancel, the types visited, the no-subscriber policy, and how
    unregistering interacts with carriers already handed to a poster. */
module DeliveryProperties {
  import opened BusErrors
  import opened Sequences
  import opened TypeHierarchy
  import opened EventTypes
  import opened ThreadModes
  import opened MethodFinder
  import opened Registry
  import opened Events
  import opened StickyStore
  import opened Posting

  /** The failure policy only logs: `throwSubscriberException` and
      `sendSubscriberExceptionEvent` are both off. */
  predicate Quiet(env: Env) {
    !env.config.throwSubscriberException && !env.config.sendSubscriberExceptionEvent
  }

  /** Every subscription of the list is a PostThread one, and its handler
      returns, posts another event, cancels this very event, or throws under
      a failure policy that only logs. */
  predicate Inline(env: Env, list: seq<Subscription>, event: Event) {
    forall j :: 0 <= j < |list| ==>
      && list[j].subscriberMethod.threadMode == PostThread
      && (env.handler(list[j], event).Cancels? ==> env.handler(list[j], event).target == Some(event))
      && (env.handler(list[j], event).Throws? ==> Quiet(env))
  }

  /** The event a handler posts while handling this one, if it posts. */
  function PostedOne(env: Env, s: Subscription, event: Event): seq<Event> {
    match env.handler(s, event)
    case Posts(e) => [e]
    case _ => []
  }

  /** The events the handlers of a list post, in list order. */
  function PostedBy(env: Env, list: seq<Subscription>, event: Event): seq<Event> {
    if list == [] then [] else PostedOne(env, list[0], event) + PostedBy(env, list[1..], event)
  }

  /** The subscriptions of a list that receive the event: all of them, up to
      and including the first whose handler cancels it. */
  function Receivers(env: Env, list: seq<Subscription>, event: Event): (r: seq<Subscription>)
    ensures |r| <= |list| && r == list[..|r|]
    ensures forall j :: 0 <= j < |r| - 1 ==> env.handler(r[j], event) != Cancels(Some(event))
    ensures |r| < |list| ==> |r| > 0 && env.handler(r[|r| - 1], event) == Cancels(Some(event))
  {
    if list == [] then []
    else if env.handler(list[0], event) == Cancels(Some(event)) then [list[0]]
    else [list[0]] + Receivers(env, list[1..], event)
  }

  /** The invocation log entries for handing the event to each subscription. */
  function Deliveries(list: seq<Subscription>, event: Event): (r: seq<(Subscription, Event)>)
    ensures |r| == |list|
    ensures forall j :: 0 <= j < |list| ==> r[j] == (list[j], event)
  {
    if list == [] then [] else [(list[0], event)] + Deliveries(list[1..], event)
  }

  /** What a post of the event appends to the log, type by type. */
  function Expected(env: Env, reg: Registry, types: seq<ClassId>, event: Event): seq<(Subscription, Event)> {
    if types == [] then []
    else Deliveries(Receivers(env, Subscriptions(reg, types[0]), event), event) + Expected(env, reg, types[1..], event)
  }

  /** What the handlers reached by a post of the event post in turn, type
      by type. */
  function PostedAll(env: Env, reg: Registry, types: seq<ClassId>, event: Event): seq<Event> {
    if types == [] then []
    else PostedBy(env, Receivers(env, Subscriptions(reg, types[0]), event), event) + PostedAll(env, reg, types[1..], event)
  }

  /** A handler reached inline logs its invocation and, if it posts, queues
      the posted event behind the ones already queued; a throw is only
      logged, so the post carries on. */
  lemma InlineInvoke(env: Env, fuel: nat, bus: Bus, ts: PostingThreadState, s: Subscription, event: Event)
    requires WellFormed(env.h) && ts.isPosting && !env.handler(s, event).Cancels?
    requires env.handler(s, event).Throws? ==> Quiet(env)
    ensures Invoke(env, fuel, bus, ts, s, event)
      == Step(bus.(invoked := bus.invoked + [(s, event)]), ts.(eventQueue := ts.eventQueue + PostedOne(env, s, event)), Done)
  {
    if !env.handler(s, event).Posts? {
      assert ts.(eventQueue := ts.eventQueue + []) == ts;
    }
  }

  /** One type's loop delivers, in list (that is, priority) order, to every
      subscription up to and including the first that cancels, and to no
      other; the cancel flag is cleared again afterwards. */
  lemma {:induction false} ForTypeDelivers(env: Env, fuel: nat, bus: Bus, ts: PostingThreadState, event: Event,
                                           list: seq<Subscription>)
    requires WellFormed(env.h) && ts.isPosting && !ts.canceled && Inline(env, list, event)
    ensures var r := ForType(env, fuel, bus, ts, event, list);
      var receivers := Receivers(env, list, event);
      && r.status == Done
      && r.bus == bus.(invoked := bus.invoked + Deliveries(receivers, event))
      && (list != [] ==> r.ts == ts.(event := None, subscription := None, canceled := false,
                                     eventQueue := ts.eventQueue + PostedBy(env, receivers, event)))
    decreases |list|
  {
    if list != [] {
      var s := list[0];
      var current := ts.(event := Some(event), subscription := Some(s));
      var logged := bus.(invoked := bus.invoked + [(s, event)]);
      var d := Dispatch(env, fuel, bus, current, s, event, current.isMainThread);
      assert s.subscriberMethod.threadMode == PostThread;
      assert d == Invoke(env, fuel, bus, current, s, event);
      var tail := list[1..];
      if env.handler(s, event).Cancels? {
        assert Cancel(current, Some(event)) == Ok(current.(canceled := true));
        assert d == Step(logged, current.(canceled := true), Done);
        assert Receivers(env, list, event) == [s];
        assert PostedBy(env, [s], event) == [] by {
          assert [s][1..] == [];
        }
        assert ts.eventQueue + [] == ts.eventQueue;
      } else {
        InlineInvoke(env, fuel, bus, current, s, event);
        var posted := PostedOne(env, s, event);
        var reset := ts.(event := None, subscription := None, canceled := false, eventQueue := ts.eventQueue + posted);
        assert d == Step(logged, current.(eventQueue := ts.eventQueue + posted), Done);
        assert Inline(env, tail, event) by {
          forall j | 0 <= j < |tail| ensures tail[j] == list[j + 1] { }
        }
        ForTypeDelivers(env, fuel, logged, reset, event, tail);
        var rest := Receivers(env, tail, event);
        assert Receivers(env, list, event) == [s] + rest;
        assert PostedBy(env, [s] + rest, event) == posted + PostedBy(env, rest, event) by {
          assert ([s] + rest)[1..] == rest;
        }
        AppendAssoc(bus.invoked, [(s, event)], Deliveries(rest, event));
        AppendAssoc(ts.eventQueue, posted, PostedBy(env, rest, event));
        if tail == [] {
          assert PostedBy(env, rest, event) == [];
          assert ts.eventQueue + posted + [] == ts.eventQueue + posted;
        }
      }
    }
  }

  /** The loop over the resolved types visits them in order; a cancel ends
      only the list it happens in. */
  lemma {:induction false} ForTypesDelivers(env: Env, fuel: nat, bus: Bus, ts: PostingThreadState, event: Event,
                                            types: seq<ClassId>)
    requires WellFormed(env.h) && Between(ts)
    requires forall k :: 0 <= k < |types| ==> Inline(env, Subscriptions(bus.registry, types[k]), event)
    ensures var r := ForTypes(env, fuel, bus, ts, event, types);
      && r.step.status == Done
      && r.step.bus == bus.(invoked := bus.invoked + Expected(env, bus.registry, types, event))
      && r.step.ts == ts.(eventQueue := ts.eventQueue + PostedAll(env, bus.registry, types, event))
    decreases |types|
  {
    if types != [] {
      var list := Subscriptions(bus.registry, types[0]);
      assert Inline(env, list, event);
      var first := if list == [] then Step(bus, ts, Done) else ForType(env, fuel, bus, ts, event, list);
      var posted := PostedBy(env, Receivers(env, list, event), event);
      ForTypeDelivers(env, fuel, bus, ts, event, list);
      if list == [] {
        assert ts.(eventQueue := ts.eventQueue + posted) == ts;
      }
      assert first.ts == ts.(eventQueue := ts.eventQueue + posted);
      assert first.bus == bus.(invoked := bus.invoked + Deliveries(Receivers(env, list, event), event));
      assert forall k :: 0 <= k < |types[1..]| ==> types[1..][k] == types[k + 1];
      ForTypesDelivers(env, fuel, first.bus, first.ts, event, types[1..]);
      AppendAssoc(bus.invoked, Deliveries(Receivers(env, list, event), event), Expected(env, bus.registry, types[1..], event));
      AppendAssoc(ts.eventQueue, posted, PostedAll(env, bus.registry, types[1..], event));
    }
  }

  /** When no resolved type has a subscription the loop changes nothing. */
  lemma {:induction false} ForTypesNoneFound(env: Env, fuel: nat, bus: Bus, ts: PostingThreadState, event: Event,
                                             types: seq<ClassId>)
    requires WellFormed(env.h)
    requires forall k :: 0 <= k < |types| ==> Subscriptions(bus.registry, types[k]) == []
    ensures ForTypes(env, fuel, bus, ts, event, types) == TypesStep(Step(bus, ts, Done), false)
    decreases |types|
  {
    if types != [] {
      assert forall k :: 0 <= k < |types[1..]| ==> types[1..][k] == types[k + 1];
      ForTypesNoneFound(env, fuel, bus, ts, event, types[1..]);
    }
  }

  /** One event from the drain loop: every resolved type's list is served in
      turn, the events the handlers post join the queue, and a
      `NoSubscriberEvent` is queued behind them exactly when no type had a
      subscription, the flag asks for it and the event is not one of the
      bus's own. With inheritance off only the event's own class is served. */
  lemma PostSingleEventDelivers(env: Env, fuel: nat, bus: Bus, ts: PostingThreadState, event: Event)
    requires WellFormed(env.h) && Between(ts)
    requires var types := EventTypesFor(env.h, env.config.eventInheritance, ClassOf(event));
      forall k :: 0 <= k < |types| ==> Inline(env, Subscriptions(bus.registry, types[k]), event)
    ensures var r := PostSingleEvent(env, fuel, bus, ts, event);
      var types := EventTypesFor(env.h, env.config.eventInheritance, ClassOf(event));
      var none := forall k :: 0 <= k < |types| ==> Subscriptions(bus.registry, types[k]) == [];
      var notice := none && env.config.sendNoSubscriberEvent && !IsBusEventClass(ClassOf(event));
      var queued := ts.eventQueue + PostedAll(env, bus.registry, types, event);
      var logged := bus.invoked + Expected(env, bus.registry, types, event);
      && r.status == Done
      && (notice ==> r == Step(bus.(invoked := logged, nextSerial := bus.nextSerial + 1),
                               ts.(eventQueue := queued + [NoSubscriberEvent(bus.nextSerial, event)]), Done))
      && (!notice ==> r == Step(bus.(invoked := logged), ts.(eventQueue := queued), Done))
      && (!env.config.eventInheritance ==>
            r.bus.invoked == bus.invoked + Deliveries(Receivers(env, Subscriptions(bus.registry, ClassOf(event)), event), event))
  {
    var types := EventTypesFor(env.h, env.config.eventInheritance, ClassOf(event));
    ForTypesDelivers(env, fuel, bus, ts, event, types);
    PostSingleEventNotice(env, fuel, bus, ts, event);
    if !env.config.eventInheritance {
      ExactClassExpected(env, bus.registry, ClassOf(event), event);
    }
  }

  /** The tail of `postSingleEvent` after a completed loop over the types:
      the notice is queued, or the loop's step is the result. */
  lemma PostSingleEventNotice(env: Env, fuel: nat, bus: Bus, ts: PostingThreadState, event: Event)
    requires WellFormed(env.h) && Between(ts)
    ensures var types := EventTypesFor(env.h, env.config.eventInheritance, ClassOf(event));
      var t := ForTypes(env, fuel, bus, ts, event, types).step;
      var none := forall k :: 0 <= k < |types| ==> Subscriptions(bus.registry, types[k]) == [];
      var notice := none && env.config.sendNoSubscriberEvent && !IsBusEventClass(ClassOf(event));
      var r := PostSingleEvent(env, fuel, bus, ts, event);
      t.status == Done ==>
        && (notice ==> r == Step(t.bus.(nextSerial := t.bus.nextSerial + 1),
                                 t.ts.(eventQueue := t.ts.eventQueue + [NoSubscriberEvent(t.bus.nextSerial, event)]), Done))
        && (!notice ==> r == t)
  {
  }

  /** With inheritance off, the expected deliveries are those of the event's
      own class. */
  lemma ExactClassExpected(env: Env, reg: Registry, c: ClassId, event: Event)
    ensures Expected(env, reg, [c], event) == Deliveries(Receivers(env, Subscriptions(reg, c), event), event)
  {
    assert Expected(env, reg, [c][1..], event) == [];
  }

  /** A carrier already handed to a poster is dropped, without invoking its
      handler, once its subscriber has been unregistered. */
  lemma UnregisteredCarrierSkipped(env: Env, fuel: nat, bus: Bus, ts: PostingThreadState, subscriber: Subscriber, k: nat)
    requires WellFormed(env.h) && Valid(bus.registry) && k < |bus.pending|
    requires var s := bus.pending[k].subscription;
      && s.subscriber == subscriber
      && exists t, j :: t in bus.registry.byType && 0 <= j < |bus.registry.byType[t]| && bus.registry.byType[t][j] == s
    ensures var b := UnregisterSubscriber(bus, subscriber);
      && b.pending == bus.pending
      && InvokePending(env, fuel, b, ts, k) == Step(b.(pending := Release(bus.pending, k)), ts, Done)
  {
    var s := bus.pending[k].subscription;
    var t, j :| t in bus.registry.byType && 0 <= j < |bus.registry.byType[t]| && bus.registry.byType[t][j] == s;
    UnregisterSpec(bus.registry, subscriber);
    assert s.id in IdsOf(bus.registry.byType[t], subscriber);
  }

  /** `register` keeps the registry invariant, and a completed registration
      with at least one handler leaves the subscriber registered. */
  lemma {:induction false} SubscribeAllKeepsValid(env: Env, fuel: nat, bus: Bus, ts: PostingThreadState,
                                                  same: SameSubscription, subscriber: Subscriber,
                                                  methods: seq<SubscriberMethod>, sticky: bool, priority: int,
                                                  order: seq<ClassId>)
    requires WellFormed(env.h) && Valid(bus.registry)
    ensures var r := SubscribeAll(env, fuel, bus, ts, same, subscriber, methods, sticky, priority, order);
      && Valid(r.bus.registry)
      && (methods != [] && r.status == Done ==> IsRegistered(r.bus.registry, subscriber))
    decreases |methods|
  {
    if methods != [] {
      var sub := Subscribe(bus.registry, same, subscriber, methods[0], priority);
      if sub.Ok? {
        var (registry, s) := sub.value;
        SubscribeKeepsValid(bus.registry, same, subscriber, methods[0], priority);
        var b := bus.(registry := registry);
        var matches := StickyStore.StickyMatches(env.h, b.sticky, env.config.eventInheritance,
                                                 s.subscriberMethod.eventType, order);
        var delivered := if sticky then DeliverSticky(env, fuel, b, ts, s, matches) else Step(b, ts, Done);
        assert delivered.bus.registry == registry;
        if delivered.status == Done {
          SubscribeAllKeepsValid(env, fuel, delivered.bus, delivered.ts, same, subscriber, methods[1..], sticky,
                                 priority, order);
        }
      }
    }
  }

  /** Every list the event resolves to is served inline. */
  predicate EventInline(env: Env, reg: Registry, event: Event)
    requires WellFormed(env.h)
  {
    var types := EventTypesFor(env.h, env.config.eventInheritance, ClassOf(event));
    forall k :: 0 <= k < |types| ==> Inline(env, Subscriptions(reg, types[k]), event)
  }

  /** What draining a queue of events appends to the log, event by event. */
  function ExpectedAll(env: Env, reg: Registry, events: seq<Event>): seq<(Subscription, Event)>
    requires WellFormed(env.h)
  {
    if events == [] then []
    else Expected(env, reg, EventTypesFor(env.h, env.config.eventInheritance, ClassOf(events[0])), events[0])
         + ExpectedAll(env, reg, events[1..])
  }

  /** The `NoSubscriberEvent` a post of the event queues when the bus's
      next serial is `serial`. */
  function Notice(env: Env, reg: Registry, event: Event, serial: nat): seq<Event>
    requires WellFormed(env.h)
  {
    var types := EventTypesFor(env.h, env.config.eventInheritance, ClassOf(event));
    if (forall k :: 0 <= k < |types| ==> Subscriptions(reg, types[k]) == [])
       && env.config.sendNoSubscriberEvent && !IsBusEventClass(ClassOf(event))
    then [NoSubscriberEvent(serial, event)]
    else []
  }

  /** A planned drain: the log it produces and the bus's next serial after
      it. */
  datatype Run = Run(log: seq<(Subscription, Event)>, serial: nat)

  /** The reference FIFO schedule of the drain loop, on queues alone: the
      head is delivered completely, what its handlers post and its notice go
      to the back of the queue, and the rest follows. `None` when n turns do
      not empty the queue or some event is not served inline. */
  function Schedule(env: Env, reg: Registry, queue: seq<Event>, serial: nat, n: nat): Option<Run>
    requires WellFormed(env.h)
    decreases n
  {
    if queue == [] then Some(Run([], serial))
    else if n == 0 || !EventInline(env, reg, queue[0]) then None
    else
      var head := queue[0];
      var types := EventTypesFor(env.h, env.config.eventInheritance, ClassOf(head));
      var notice := Notice(env, reg, head, serial);
      match Schedule(env, reg, queue[1..] + PostedAll(env, reg, types, head) + notice, serial + |notice|, n - 1)
      case None => None
      case Some(run) => Some(Run(Expected(env, reg, types, head) + run.log, run.serial))
  }

  /** An inline event from the drain loop as one step: its deliveries are
      logged, what its handlers post and its notice are queued. */
  lemma SingleEventStep(env: Env, fuel: nat, bus: Bus, ts: PostingThreadState, event: Event,
                        types: seq<ClassId>, notice: seq<Event>)
    requires WellFormed(env.h) && Between(ts) && EventInline(env, bus.registry, event)
    requires types == EventTypesFor(env.h, env.config.eventInheritance, ClassOf(event))
    requires notice == Notice(env, bus.registry, event, bus.nextSerial)
    ensures PostSingleEvent(env, fuel, bus, ts, event)
      == Step(bus.(invoked := bus.invoked + Expected(env, bus.registry, types, event), nextSerial := bus.nextSerial + |notice|),
              ts.(eventQueue := ts.eventQueue + PostedAll(env, bus.registry, types, event) + notice), Done)
  {
    if notice == [] {
      SingleEventWithoutNotice(env, fuel, bus, ts, event, types);
    } else {
      SingleEventWithNotice(env, fuel, bus, ts, event, types);
    }
  }

  /** SingleEventStep when no notice is due. */
  lemma SingleEventWithoutNotice(env: Env, fuel: nat, bus: Bus, ts: PostingThreadState, event: Event,
                                 types: seq<ClassId>)
    requires WellFormed(env.h) && Between(ts) && EventInline(env, bus.registry, event)
    requires types == EventTypesFor(env.h, env.config.eventInheritance, ClassOf(event))
    requires Notice(env, bus.registry, event, bus.nextSerial) == []
    ensures PostSingleEvent(env, fuel, bus, ts, event)
      == Step(bus.(invoked := bus.invoked + Expected(env, bus.registry, types, event)),
              ts.(eventQueue := ts.eventQueue + PostedAll(env, bus.registry, types, event)), Done)
  {
    PostSingleEventDelivers(env, fuel, bus, ts, event);
  }

  /** SingleEventStep when a notice is due: it goes behind the posts and
      takes the next serial. */
  lemma SingleEventWithNotice(env: Env, fuel: nat, bus: Bus, ts: PostingThreadState, event: Event,
                              types: seq<ClassId>)
    requires WellFormed(env.h) && Between(ts) && EventInline(env, bus.registry, event)
    requires types == EventTypesFor(env.h, env.config.eventInheritance, ClassOf(event))
    requires Notice(env, bus.registry, event, bus.nextSerial) != []
    ensures PostSingleEvent(env, fuel, bus, ts, event)
      == Step(bus.(invoked := bus.invoked + Expected(env, bus.registry, types, event), nextSerial := bus.nextSerial + 1),
              ts.(eventQueue := ts.eventQueue + PostedAll(env, bus.registry, types, event)
                                + [NoSubscriberEvent(bus.nextSerial, event)]), Done)
  {
    PostSingleEventDelivers(env, fuel, bus, ts, event);
  }

  /** The unfolding of a completed schedule at its head: the head is served
      inline and the schedule completes on the rest of the queue followed by
      the head's posts and notice. */
  lemma ScheduleHead(env: Env, reg: Registry, queue: seq<Event>, serial: nat, n: nat, run: Run,
                     types: seq<ClassId>, notice: seq<Event>) returns (inner: Run)
    requires WellFormed(env.h) && queue != [] && Schedule(env, reg, queue, serial, n) == Some(run)
    requires types == EventTypesFor(env.h, env.config.eventInheritance, ClassOf(queue[0]))
    requires notice == Notice(env, reg, queue[0], serial)
    ensures n > 0 && EventInline(env, reg, queue[0])
    ensures Schedule(env, reg, queue[1..] + PostedAll(env, reg, types, queue[0]) + notice, serial + |notice|, n - 1)
            == Some(inner)
    ensures run == Run(Expected(env, reg, types, queue[0]) + inner.log, inner.serial)
  {
    inner := Schedule(env, reg, queue[1..] + PostedAll(env, reg, types, queue[0]) + notice, serial + |notice|, n - 1).value;
  }

  /** The drain loop follows the reference schedule: it delivers the queue
      head first, each event completely before the next, with every event a
      handler posts delivered after all those queued before it, and it ends
      with the queue empty. */
  lemma DrainDelivers(env: Env, fuel: nat, bus: Bus, ts: PostingThreadState, run: Run)
    requires WellFormed(env.h) && Between(ts)
    requires Schedule(env, bus.registry, ts.eventQueue, bus.nextSerial, fuel) == Some(run)
    ensures Drain(env, fuel, bus, ts)
            == Step(bus.(invoked := bus.invoked + run.log, nextSerial := run.serial), ts.(eventQueue := []), Done)
  {
    DrainFollows(env, fuel, bus, ts, bus.registry, ts.eventQueue, bus.nextSerial, run);
  }

  /** DrainDelivers with the registry, queue and serial the schedule starts
      from named. */
  lemma {:induction false} DrainFollows(env: Env, fuel: nat, bus: Bus, ts: PostingThreadState,
                                        reg: Registry, queue: seq<Event>, serial: nat, run: Run)
    requires WellFormed(env.h) && Between(ts)
    requires bus.registry == reg && ts.eventQueue == queue && bus.nextSerial == serial
    requires Schedule(env, reg, queue, serial, fuel) == Some(run)
    ensures Drain(env, fuel, bus, ts)
            == Step(bus.(invoked := bus.invoked + run.log, nextSerial := run.serial), ts.(eventQueue := []), Done)
    decreases fuel
  {
    if queue != [] {
      var after, queued, next, delivered, inner := DrainAndScheduleTurn(env, fuel, bus, ts, reg, queue, serial, run);
      DrainFollows(env, fuel - 1, after, queued, reg, next, after.nextSerial, inner);
      ChainedRuns(bus, ts, after, queued, delivered, inner, run);
    } else {
      assert run == Run([], serial);
      assert bus.invoked + run.log == bus.invoked;
    }
  }

  /** One turn taken in step by the drain loop and by the schedule: both go
      on from the same bus and queue, and the schedule's log starts with the
      turn's deliveries. */
  lemma DrainAndScheduleTurn(env: Env, fuel: nat, bus: Bus, ts: PostingThreadState,
                             reg: Registry, queue: seq<Event>, serial: nat, run: Run)
    returns (after: Bus, queued: PostingThreadState, next: seq<Event>, delivered: seq<(Subscription, Event)>, inner: Run)
    requires WellFormed(env.h) && Between(ts) && queue != []
    requires bus.registry == reg && ts.eventQueue == queue && bus.nextSerial == serial
    requires Schedule(env, reg, queue, serial, fuel) == Some(run)
    ensures fuel > 0 && Between(queued)
    ensures after.registry == reg && queued.eventQueue == next
    ensures Schedule(env, reg, next, after.nextSerial, fuel - 1) == Some(inner)
    ensures Drain(env, fuel, bus, ts) == Drain(env, fuel - 1, after, queued)
    ensures after == bus.(invoked := bus.invoked + delivered, nextSerial := after.nextSerial)
    ensures queued.(eventQueue := []) == ts.(eventQueue := [])
    ensures run == Run(delivered + inner.log, inner.serial)
  {
    var types := EventTypesFor(env.h, env.config.eventInheritance, ClassOf(queue[0]));
    var notice := Notice(env, reg, queue[0], serial);
    inner := ScheduleHead(env, reg, queue, serial, fuel, run, types, notice);
    delivered := Expected(env, reg, types, queue[0]);
    next := queue[1..] + PostedAll(env, reg, types, queue[0]) + notice;
    after := bus.(invoked := bus.invoked + delivered, nextSerial := serial + |notice|);
    queued := ts.(eventQueue := next);
    DrainInlineTurn(env, fuel, bus, ts, reg, queue, serial, after, queued);
  }

  /** The bus and thread after a turn and the rest of the schedule combine
      into those after the whole schedule. */
  lemma ChainedRuns(bus: Bus, ts: PostingThreadState, after: Bus, queued: PostingThreadState,
                    delivered: seq<(Subscription, Event)>, inner: Run, run: Run)
    requires after == bus.(invoked := bus.invoked + delivered, nextSerial := after.nextSerial)
    requires queued.(eventQueue := []) == ts.(eventQueue := [])
    requires run == Run(delivered + inner.log, inner.serial)
    ensures Step(after.(invoked := after.invoked + inner.log, nextSerial := inner.serial), queued.(eventQueue := []), Done)
            == Step(bus.(invoked := bus.invoked + run.log, nextSerial := run.serial), ts.(eventQueue := []), Done)
  {
    AppendAssoc(bus.invoked, delivered, inner.log);
  }

  /** One turn of the drain loop on an inline head: the head's deliveries
      are logged, and what its handlers post and its notice are queued
      behind the rest. */
  lemma DrainInlineTurn(env: Env, fuel: nat, bus: Bus, ts: PostingThreadState, reg: Registry, queue: seq<Event>,
                        serial: nat, after: Bus, queued: PostingThreadState)
    requires WellFormed(env.h) && Between(ts) && queue != [] && fuel > 0
    requires bus.registry == reg && ts.eventQueue == queue && bus.nextSerial == serial
    requires EventInline(env, reg, queue[0])
    requires after == bus.(invoked := bus.invoked + Expected(env, reg, EventTypesFor(env.h, env.config.eventInheritance, ClassOf(queue[0])), queue[0]),
                           nextSerial := serial + |Notice(env, reg, queue[0], serial)|)
    requires queued == ts.(eventQueue := queue[1..]
                             + PostedAll(env, reg, EventTypesFor(env.h, env.config.eventInheritance, ClassOf(queue[0])), queue[0])
                             + Notice(env, reg, queue[0], serial))
    ensures Between(queued)
    ensures Drain(env, fuel, bus, ts) == Drain(env, fuel - 1, after, queued)
  {
    var head := queue[0];
    var types := EventTypesFor(env.h, env.config.eventInheritance, ClassOf(head));
    var notice := Notice(env, reg, head, serial);
    var rest := ts.(eventQueue := queue[1..]);
    SingleEventStep(env, fuel - 1, bus, rest, head, types, notice);
    DrainTurn(env, fuel, bus, ts, after, queued);
  }

  /** A turn of the drain loop whose event completes hands on to the next
      turn with the bus and queue that event left. */
  lemma DrainTurn(env: Env, fuel: nat, bus: Bus, ts: PostingThreadState, after: Bus, queued: PostingThreadState)
    requires WellFormed(env.h) && ts.eventQueue != [] && fuel > 0
    requires PostSingleEvent(env, fuel - 1, bus, ts.(eventQueue := ts.eventQueue[1..]), ts.eventQueue[0])
             == Step(after, queued, Done)
    ensures Drain(env, fuel, bus, ts) == Drain(env, fuel - 1, after, queued)
  {
  }

  /** One turn of the drain loop that completes hands on to the next. */
  lemma DrainStep(env: Env, fuel: nat, bus: Bus, ts: PostingThreadState)
    requires WellFormed(env.h) && ts.eventQueue != [] && fuel > 0
    ensures var p := PostSingleEvent(env, fuel - 1, bus, ts.(eventQueue := ts.eventQueue[1..]), ts.eventQueue[0]);
      && (p.status == Done ==> Drain(env, fuel, bus, ts) == Drain(env, fuel - 1, p.bus, p.ts))
      && (p.status != Done ==> Drain(env, fuel, bus, ts) == p)
  {
  }

  /** An outermost `post` appends the event and drains the whole queue by
      the reference schedule, leaving the thread idle. */
  lemma PostDeliversInOrder(env: Env, fuel: nat, bus: Bus, ts: PostingThreadState, event: Event)
    requires WellFormed(env.h) && Idle(ts)
    requires Schedule(env, bus.registry, ts.eventQueue + [event], bus.nextSerial, fuel).Some?
    ensures var run := Schedule(env, bus.registry, ts.eventQueue + [event], bus.nextSerial, fuel).value;
      var r := Post(env, fuel, bus, ts, event);
      && r.status == Done
      && r.ts == ts.(eventQueue := [])
      && r.bus == bus.(invoked := bus.invoked + run.log, nextSerial := run.serial)
  {
    var started := ts.(eventQueue := ts.eventQueue + [event], isMainThread := env.onMainThread, isPosting := true);
    DrainDelivers(env, fuel, bus, started, Schedule(env, bus.registry, ts.eventQueue + [event], bus.nextSerial, fuel).value);
  }

  /** When no handler posts and the notice is off, the schedule is the
      queue's events delivered one after another, and the serial is
      untouched. */
  lemma {:induction false} ScheduleWithoutPosts(env: Env, reg: Registry, queue: seq<Event>, serial: nat, n: nat)
    requires WellFormed(env.h) && !env.config.sendNoSubscriberEvent && n >= |queue|
    requires forall i :: 0 <= i < |queue| ==> EventInline(env, reg, queue[i])
    requires forall i :: 0 <= i < |queue| ==>
      PostedAll(env, reg, EventTypesFor(env.h, env.config.eventInheritance, ClassOf(queue[i])), queue[i]) == []
    ensures Schedule(env, reg, queue, serial, n) == Some(Run(ExpectedAll(env, reg, queue), serial))
    decreases |queue|
  {
    if queue != [] {
      var tail := queue[1..];
      assert forall i :: 0 <= i < |tail| ==> tail[i] == queue[i + 1];
      assert EventInline(env, reg, queue[0]);
      var types := EventTypesFor(env.h, env.config.eventInheritance, ClassOf(queue[0]));
      assert PostedAll(env, reg, types, queue[0]) == [];
      assert tail + [] + [] == tail;
      ScheduleWithoutPosts(env, reg, tail, serial, n - 1);
    }
  }

  /** After an exception ends the drain loop, the events that were not yet
      taken from the queue are still at its head, in order. */
  lemma {:induction false} DrainKeepsUnprocessed(env: Env, fuel: nat, bus: Bus, ts: PostingThreadState)
    requires WellFormed(env.h) && ts.isPosting
    ensures var r := Drain(env, fuel, bus, ts);
      r.status.Raised? ==> exists n :: 0 < n <= |ts.eventQueue| && IsPrefix(ts.eventQueue[n..], r.ts.eventQueue)
    decreases fuel
  {
    var r := Drain(env, fuel, bus, ts);
    if r.status.Raised? {
      var rest := ts.(eventQueue := ts.eventQueue[1..]);
      var p := PostSingleEvent(env, fuel - 1, bus, rest, ts.eventQueue[0]);
      DrainStep(env, fuel, bus, ts);
      assert IsPrefix(ts.eventQueue[1..], p.ts.eventQueue);
      if p.status != Done {
        assert IsPrefix(ts.eventQueue[1..], r.ts.eventQueue);
      } else {
        DrainKeepsUnprocessed(env, fuel - 1, p.bus, p.ts);
        var m :| 0 < m <= |p.ts.eventQueue| && IsPrefix(p.ts.eventQueue[m..], r.ts.eventQueue);
        SuffixShift(ts.eventQueue, p.ts.eventQueue, m, r.ts.eventQueue);
      }
    }
  }

  /** Dropping m entries from an extension of q[1..] drops at least one
      entry of q, or all of it. */
  lemma SuffixShift<T>(q: seq<T>, pq: seq<T>, m: nat, rq: seq<T>)
    requires q != [] && IsPrefix(q[1..], pq) && 0 < m <= |pq| && IsPrefix(pq[m..], rq)
    ensures exists n :: 0 < n <= |q| && IsPrefix(q[n..], rq)
  {
    if m < |q| {
      assert q[m + 1..] == pq[m..][..|q| - m - 1];
      assert IsPrefix(q[m + 1..], rq);
    } else {
      assert IsPrefix(q[|q|..], rq);
    }
  }

  /** The log entries for handing each event to one subscription. */
  function Handed(s: Subscription, events: seq<Event>): (r: seq<(Subscription, Event)>)
    ensures |r| == |events|
    ensures forall j :: 0 <= j < |events| ==> r[j] == (s, events[j])
  {
    if events == [] then [] else [(s, events[0])] + Handed(s, events[1..])
  }

  /** Sticky delivery at registration hands every matching stored event to
      the new PostThread subscription, in the order given. */
  lemma {:induction false} DeliverStickyInvokes(env: Env, fuel: nat, bus: Bus, ts: PostingThreadState, s: Subscription,
                                                events: seq<Event>)
    requires WellFormed(env.h) && s.subscriberMethod.threadMode == PostThread
    requires forall j :: 0 <= j < |events| ==> env.handler(s, events[j]) == Returns
    ensures var r := DeliverSticky(env, fuel, bus, ts, s, events);
      r == Step(bus.(invoked := bus.invoked + Handed(s, events)), ts, Done)
    decreases |events|
  {
    if events != [] {
      var d := Dispatch(env, fuel, bus, ts, s, events[0], env.onMainThread);
      assert d == Invoke(env, fuel, bus, ts, s, events[0]);
      assert d == Step(bus.(invoked := bus.invoked + [(s, events[0])]), ts, Done);
      assert forall j :: 0 <= j < |events[1..]| ==> events[1..][j] == events[j + 1];
      DeliverStickyInvokes(env, fuel, d.bus, d.ts, s, events[1..]);
      AppendAssoc(bus.invoked, [(s, events[0])], Handed(s, events[1..]));
    }
  }

  // ---------------------------------------------------------------------------
  // register: every handler subscribed, stored sticky events handed over

  /** The subscriber holds a subscription with this handler and priority in
      the list of the handler's event type. */
  ghost predicate Listed(reg: Registry, subscriber: Subscriber, sm: SubscriberMethod, priority: int) {
    exists j :: 0 <= j < |Subscriptions(reg, sm.eventType)|
      && Subscriptions(reg, sm.eventType)[j].subscriber == subscriber
      && Subscriptions(reg, sm.eventType)[j].subscriberMethod == sm
      && Subscriptions(reg, sm.eventType)[j].priority == priority
  }

  /** A successful subscribe lists its own subscription. */
  lemma SubscribeListsOwn(reg: Registry, same: SameSubscription, subscriber: Subscriber, sm: SubscriberMethod,
                          priority: int)
    requires Subscribe(reg, same, subscriber, sm, priority).Ok?
    ensures Listed(Subscribe(reg, same, subscriber, sm, priority).value.0, subscriber, sm, priority)
  {
    var (reg', s) := Subscribe(reg, same, subscriber, sm, priority).value;
    var before := Subscriptions(reg, sm.eventType);
    assert Subscriptions(reg', sm.eventType) == Insert(before, s);
    InsertShape(before, s);
    var i := InsertionIndex(before, priority);
    assert Subscriptions(reg', sm.eventType)[i] == s;
  }

  /** A successful subscribe keeps every subscription already listed. */
  lemma SubscribeKeepsListed(reg: Registry, same: SameSubscription, subscriber: Subscriber, sm: SubscriberMethod,
                             priority: int, x: Subscriber, xm: SubscriberMethod, xp: int)
    requires Subscribe(reg, same, subscriber, sm, priority).Ok? && Listed(reg, x, xm, xp)
    ensures Listed(Subscribe(reg, same, subscriber, sm, priority).value.0, x, xm, xp)
  {
    var (reg', s) := Subscribe(reg, same, subscriber, sm, priority).value;
    var before := Subscriptions(reg, xm.eventType);
    var after := Subscriptions(reg', xm.eventType);
    var j :| 0 <= j < |before| && before[j].subscriber == x && before[j].subscriberMethod == xm
             && before[j].priority == xp;
    if xm.eventType == sm.eventType {
      assert after == Insert(before, s);
      InsertShape(before, s);
      if j < InsertionIndex(before, priority) {
        assert after[j] == before[j];
      } else {
        assert after[j + 1] == before[j];
      }
    } else {
      assert after[j] == before[j];
    }
  }

  /** One turn of the subscribe loop once `subscribe` has succeeded: the
      matching sticky events go to the new subscription, then the loop goes
      on with the rest. */
  lemma SubscribeAllTurn(env: Env, fuel: nat, bus: Bus, ts: PostingThreadState, same: SameSubscription,
                         subscriber: Subscriber, methods: seq<SubscriberMethod>, sticky: bool, priority: int,
                         order: seq<ClassId>)
    requires WellFormed(env.h) && methods != [] && Subscribe(bus.registry, same, subscriber, methods[0], priority).Ok?
    ensures var (registry, s) := Subscribe(bus.registry, same, subscriber, methods[0], priority).value;
      var b := bus.(registry := registry);
      var matches := StickyMatches(env.h, bus.sticky, env.config.eventInheritance, methods[0].eventType, order);
      var delivered := if sticky then DeliverSticky(env, fuel, b, ts, s, matches) else Step(b, ts, Done);
      && delivered.bus.registry == registry
      && SubscribeAll(env, fuel, bus, ts, same, subscriber, methods, sticky, priority, order)
         == if delivered.status != Done then delivered
            else SubscribeAll(env, fuel, delivered.bus, delivered.ts, same, subscriber, methods[1..], sticky, priority, order)
  {
  }

  /** SubscribeAllTurn with the new registry and the turn's step named. */
  lemma SubscribeAllNext(env: Env, fuel: nat, bus: Bus, ts: PostingThreadState, same: SameSubscription,
                         subscriber: Subscriber, methods: seq<SubscriberMethod>, sticky: bool, priority: int,
                         order: seq<ClassId>) returns (registry: Registry, next: Step)
    requires WellFormed(env.h) && methods != [] && Subscribe(bus.registry, same, subscriber, methods[0], priority).Ok?
    ensures Subscribe(bus.registry, same, subscriber, methods[0], priority).value.0 == registry
    ensures next.bus.registry == registry
    ensures SubscribeAll(env, fuel, bus, ts, same, subscriber, methods, sticky, priority, order)
            == if next.status != Done then next
               else SubscribeAll(env, fuel, next.bus, next.ts, same, subscriber, methods[1..], sticky, priority, order)
  {
    var made := Subscribe(bus.registry, same, subscriber, methods[0], priority).value;
    registry := made.0;
    var s := made.1;
    SubscribeAllTurn(env, fuel, bus, ts, same, subscriber, methods, sticky, priority, order);
    var b := bus.(registry := registry);
    var matches := StickyMatches(env.h, bus.sticky, env.config.eventInheritance, methods[0].eventType, order);
    next := if sticky then DeliverSticky(env, fuel, b, ts, s, matches) else Step(b, ts, Done);
  }

  /** The subscribe loop keeps every listed subscription listed, whether or
      not it completes. */
  lemma {:induction false} SubscribeAllKeepsListed(env: Env, fuel: nat, bus: Bus, ts: PostingThreadState,
                                                   same: SameSubscription, subscriber: Subscriber,
                                                   methods: seq<SubscriberMethod>, sticky: bool, priority: int,
                                                   order: seq<ClassId>, x: Subscriber, xm: SubscriberMethod, xp: int)
    requires WellFormed(env.h) && Listed(bus.registry, x, xm, xp)
    ensures var r := SubscribeAll(env, fuel, bus, ts, same, subscriber, methods, sticky, priority, order);
      Listed(r.bus.registry, x, xm, xp)
    decreases |methods|
  {
    if methods != [] && Subscribe(bus.registry, same, subscriber, methods[0], priority).Ok? {
      var registry, next := SubscribeAllNext(env, fuel, bus, ts, same, subscriber, methods, sticky, priority, order);
      SubscribeKeepsListed(bus.registry, same, subscriber, methods[0], priority, x, xm, xp);
      if next.status == Done {
        SubscribeAllKeepsListed(env, fuel, next.bus, next.ts, same, subscriber, methods[1..], sticky, priority,
                                order, x, xm, xp);
      }
    }
  }

  /** When the loop completes, every discovered handler is listed under its
      event type with the registration's priority. */
  lemma {:induction false} SubscribeAllLists(env: Env, fuel: nat, bus: Bus, ts: PostingThreadState,
                                             same: SameSubscription, subscriber: Subscriber,
                                             methods: seq<SubscriberMethod>, sticky: bool, priority: int,
                                             order: seq<ClassId>)
    requires WellFormed(env.h)
    ensures var r := SubscribeAll(env, fuel, bus, ts, same, subscriber, methods, sticky, priority, order);
      r.status == Done ==> forall i :: 0 <= i < |methods| ==> Listed(r.bus.registry, subscriber, methods[i], priority)
    decreases |methods|
  {
    if methods != [] && Subscribe(bus.registry, same, subscriber, methods[0], priority).Ok? {
      var registry, next := SubscribeAllNext(env, fuel, bus, ts, same, subscriber, methods, sticky, priority, order);
      SubscribeListsOwn(bus.registry, same, subscriber, methods[0], priority);
      if next.status == Done {
        var rest := methods[1..];
        SubscribeAllKeepsListed(env, fuel, next.bus, next.ts, same, subscriber, rest, sticky, priority, order,
                                subscriber, methods[0], priority);
        SubscribeAllLists(env, fuel, next.bus, next.ts, same, subscriber, rest, sticky, priority, order);
        assert forall i :: 1 <= i < |methods| ==> methods[i] == rest[i - 1];
      }
    }
  }

  /** `register` that gets past discovery and completes has every
      discovered handler listed under its event type; the registry stays
      valid either way. */
  lemma RegisterSubscribesAll(env: Env, fuel: nat, bus: Bus, ts: PostingThreadState, same: SameSubscription,
                              skip: set<ClassId>, decl: Declarations, subscriber: Subscriber, sticky: bool,
                              priority: int, order: seq<ClassId>)
    requires WellFormed(env.h) && Valid(bus.registry)
    ensures var found := FindSubscriberMethods(env.h, skip, decl, bus.methodCache, subscriber.cls);
      var r := Register(env, fuel, bus, ts, same, skip, decl, subscriber, sticky, priority, order);
      && Valid(r.bus.registry)
      && (found.result.Ok? && r.status == Done ==>
            forall i :: 0 <= i < |found.result.value| ==> Listed(r.bus.registry, subscriber, found.result.value[i], priority))
  {
    var found := FindSubscriberMethods(env.h, skip, decl, bus.methodCache, subscriber.cls);
    var cached := bus.(methodCache := found.cache);
    if found.result.Ok? {
      SubscribeAllKeepsValid(env, fuel, cached, ts, same, subscriber, found.result.value, sticky, priority, order);
      SubscribeAllLists(env, fuel, cached, ts, same, subscriber, found.result.value, sticky, priority, order);
    }
  }

  /** A completed sticky `register` whose discovered handlers are all
      PostThread and return on the stored events logs, handler by handler in
      discovery order, each stored event `StickyMatches` selects for the
      handler's event type. */
  lemma RegisterDeliversSticky(env: Env, fuel: nat, bus: Bus, ts: PostingThreadState, same: SameSubscription,
                               skip: set<ClassId>, decl: Declarations, subscriber: Subscriber, priority: int,
                               order: seq<ClassId>)
    requires WellFormed(env.h) && StoredReturn(env, subscriber, bus.sticky)
    ensures var found := FindSubscriberMethods(env.h, skip, decl, bus.methodCache, subscriber.cls);
      var r := Register(env, fuel, bus, ts, same, skip, decl, subscriber, true, priority, order);
      found.result.Ok? && r.status == Done
      && (forall i :: 0 <= i < |found.result.value| ==> found.result.value[i].threadMode == PostThread)
      ==> r.bus.invoked
          == bus.invoked + StickyLog(env, bus.sticky, bus.registry.nextId, subscriber, found.result.value, priority, order)
  {
    var found := FindSubscriberMethods(env.h, skip, decl, bus.methodCache, subscriber.cls);
    var cached := bus.(methodCache := found.cache);
    if found.result.Ok? && forall i :: 0 <= i < |found.result.value| ==> found.result.value[i].threadMode == PostThread {
      SubscribeAllSticky(env, fuel, cached, ts, same, subscriber, found.result.value, priority, order);
    }
  }

  /** What the subscribe loop hands over when every new subscription is a
      PostThread one: for the i-th handler, whose subscription takes
      identity nextId + i, each stored event that matches its event type. */
  function StickyLog(env: Env, store: Store, nextId: nat, subscriber: Subscriber, methods: seq<SubscriberMethod>,
                     priority: int, order: seq<ClassId>): seq<(Subscription, Event)>
    decreases |methods|
  {
    if methods == [] then []
    else
      Handed(Subscription(nextId, subscriber, methods[0], priority),
             StickyMatches(env.h, store, env.config.eventInheritance, methods[0].eventType, order))
      + StickyLog(env, store, nextId + 1, subscriber, methods[1..], priority, order)
  }

  /** Everything `StickyMatches` returns is a stored event. */
  lemma StickyMatchesStored(h: Hierarchy, store: Store, eventInheritance: bool, eventType: ClassId, order: seq<ClassId>)
    ensures forall e :: e in StickyMatches(h, store, eventInheritance, eventType, order) ==> e in store.Values
  {
    if eventInheritance {
      StickyMatchesMembers(h, store, eventType, order);
    }
  }

  /** Every handler of the subscriber returns normally on every stored
      event. */
  ghost predicate StoredReturn(env: Env, subscriber: Subscriber, store: Store) {
    forall x: Subscription, e: Event :: x.subscriber == subscriber && e in store.Values ==> env.handler(x, e) == Returns
  }

  /** One turn with a PostThread handler that returns: the new subscription
      is handed the matching stored events at once. */
  lemma StickyTurn(env: Env, fuel: nat, bus: Bus, ts: PostingThreadState, same: SameSubscription,
                   subscriber: Subscriber, methods: seq<SubscriberMethod>, sticky: bool, priority: int,
                   order: seq<ClassId>)
    requires WellFormed(env.h) && methods != [] && methods[0].threadMode == PostThread
    requires Subscribe(bus.registry, same, subscriber, methods[0], priority).Ok?
    requires StoredReturn(env, subscriber, bus.sticky)
    ensures var (registry, s) := Subscribe(bus.registry, same, subscriber, methods[0], priority).value;
      var matches := StickyMatches(env.h, bus.sticky, env.config.eventInheritance, methods[0].eventType, order);
      var next := bus.(registry := registry, invoked := bus.invoked + (if sticky then Handed(s, matches) else []));
      SubscribeAll(env, fuel, bus, ts, same, subscriber, methods, sticky, priority, order)
      == SubscribeAll(env, fuel, next, ts, same, subscriber, methods[1..], sticky, priority, order)
  {
    var (registry, s) := Subscribe(bus.registry, same, subscriber, methods[0], priority).value;
    var matches := StickyMatches(env.h, bus.sticky, env.config.eventInheritance, methods[0].eventType, order);
    SubscribeAllTurn(env, fuel, bus, ts, same, subscriber, methods, sticky, priority, order);
    if sticky {
      StickyMatchesStored(env.h, bus.sticky, env.config.eventInheritance, methods[0].eventType, order);
      DeliverStickyInvokes(env, fuel, bus.(registry := registry), ts, s, matches);
    } else {
      assert bus.invoked + [] == bus.invoked;
    }
  }

  /** With PostThread handlers that return, the subscribe loop leaves the
      posting state alone and stops early only on a duplicate
      subscription. */
  lemma {:induction false} SubscribeAllStickyStops(env: Env, fuel: nat, bus: Bus, ts: PostingThreadState,
                                                   same: SameSubscription, subscriber: Subscriber,
                                                   methods: seq<SubscriberMethod>, sticky: bool, priority: int,
                                                   order: seq<ClassId>)
    requires WellFormed(env.h)
    requires forall i :: 0 <= i < |methods| ==> methods[i].threadMode == PostThread
    requires StoredReturn(env, subscriber, bus.sticky)
    ensures var r := SubscribeAll(env, fuel, bus, ts, same, subscriber, methods, sticky, priority, order);
      && r.ts == ts
      && (r.status == Done || (r.status.Raised? && r.status.error.DuplicateSubscription?))
    decreases |methods|
  {
    if methods != [] && Subscribe(bus.registry, same, subscriber, methods[0], priority).Ok? {
      var (registry, s) := Subscribe(bus.registry, same, subscriber, methods[0], priority).value;
      var matches := StickyMatches(env.h, bus.sticky, env.config.eventInheritance, methods[0].eventType, order);
      var next := bus.(registry := registry, invoked := bus.invoked + (if sticky then Handed(s, matches) else []));
      StickyTurn(env, fuel, bus, ts, same, subscriber, methods, sticky, priority, order);
      SubscribeAllStickyStops(env, fuel, next, ts, same, subscriber, methods[1..], sticky, priority, order);
    }
  }

  /** With PostThread handlers that return, registering a sticky subscriber
      hands each new subscription, at once and in turn, exactly the stored
      events that match its type. */
  lemma {:induction false} SubscribeAllSticky(env: Env, fuel: nat, bus: Bus, ts: PostingThreadState,
                                              same: SameSubscription, subscriber: Subscriber,
                                              methods: seq<SubscriberMethod>, priority: int, order: seq<ClassId>)
    requires WellFormed(env.h)
    requires forall i :: 0 <= i < |methods| ==> methods[i].threadMode == PostThread
    requires StoredReturn(env, subscriber, bus.sticky)
    ensures var r := SubscribeAll(env, fuel, bus, ts, same, subscriber, methods, true, priority, order);
      r.status == Done ==>
        r.bus.invoked == bus.invoked + StickyLog(env, bus.sticky, bus.registry.nextId, subscriber, methods, priority, order)
    decreases |methods|
  {
    if methods != [] && Subscribe(bus.registry, same, subscriber, methods[0], priority).Ok? {
      var (registry, s) := Subscribe(bus.registry, same, subscriber, methods[0], priority).value;
      var matches := StickyMatches(env.h, bus.sticky, env.config.eventInheritance, methods[0].eventType, order);
      var next := bus.(registry := registry, invoked := bus.invoked + Handed(s, matches));
      var rest := methods[1..];
      StickyTurn(env, fuel, bus, ts, same, subscriber, methods, true, priority, order);
      SubscribeAllSticky(env, fuel, next, ts, same, subscriber, rest, priority, order);
      var tail := StickyLog(env, bus.sticky, bus.registry.nextId + 1, subscriber, rest, priority, order);
      assert s == Subscription(bus.registry.nextId, subscriber, methods[0], priority);
      assert StickyLog(env, bus.sticky, bus.registry.nextId, subscriber, methods, priority, order)
             == Handed(s, matches) + tail;
      AppendAssoc(bus.invoked, Handed(s, matches), tail);
    }
  }

  /** Without the sticky flag the subscribe loop hands nothing over. */
  lemma {:induction false} SubscribeAllQuiet(env: Env, fuel: nat, bus: Bus, ts: PostingThreadState,
                                             same: SameSubscription, subscriber: Subscriber,
                                             methods: seq<SubscriberMethod>, priority: int, order: seq<ClassId>)
    requires WellFormed(env.h)
    ensures var r := SubscribeAll(env, fuel, bus, ts, same, subscriber, methods, false, priority, order);
      r.bus.invoked == bus.invoked && r.ts == ts && r.bus.pending == bus.pending
    decreases |methods|
  {
    if methods != [] && Subscribe(bus.registry, same, subscriber, methods[0], priority).Ok? {
      var (registry, s) := Subscribe(bus.registry, same, subscriber, methods[0], priority).value;
      SubscribeAllTurn(env, fuel, bus, ts, same, subscriber, methods, false, priority, order);
      SubscribeAllQuiet(env, fuel, bus.(registry := registry), ts, same, subscriber, methods[1..], priority, order);
    }
  }
}
