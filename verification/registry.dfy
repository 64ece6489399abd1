/** The subscription registry of `EventBus`: per event type a list of
    subscriptions in non-increasing priority order, and per subscriber the
    list of event types it subscribed to (the index `unregister` walks). */
module Registry {
  import opened BusErrors
  import opened TypeHierarchy
  import opened EventTypes
  import opened MethodFinder

  /** A subscriber object: its identity and its runtime class. */
  datatype Subscriber = Subscriber(ref: nat, cls: ClassId)

  /** A `Subscription` object; `id` is its identity, so two subscriptions are
      the same object exactly when they are equal as values. */
  datatype Subscription = Subscription(id: nat, subscriber: Subscriber, subscriberMethod: SubscriberMethod, priority: int)

  /** `Subscription.equals`, whose definition is not part of this model: any
      relation the caller supplies. */
  type SameSubscription = (Subscription, Subscription) -> bool

  datatype Registry = Registry(
    byType: map<ClassId, seq<Subscription>>,       // subscriptionsByEventType
    typesBySubscriber: map<Subscriber, seq<ClassId>>,
    nextId: nat)                                   // identity of the next `new Subscription`

  const EmptyRegistry := Registry(map[], map[], 0)

  function Subscriptions(reg: Registry, eventType: ClassId): seq<Subscription> {
    if eventType in reg.byType then reg.byType[eventType] else []
  }

  /** Non-increasing priority order. */
  predicate Sorted(list: seq<Subscription>) {
    forall i, j :: 0 <= i < j < |list| ==> list[i].priority >= list[j].priority
  }

  /** `List.contains`, which compares with `equals`. */
  predicate Contains(same: SameSubscription, list: seq<Subscription>, s: Subscription) {
    exists j :: 0 <= j < |list| && same(s, list[j])
  }

  // ---------------------------------------------------------------------------
  // subscribe

  /** The insertion loop of `subscribe`: the first index whose entry has a
      strictly lower priority, or the end of the list. */
  function InsertionIndex(list: seq<Subscription>, priority: int): (i: nat)
    ensures i <= |list|
    ensures forall j :: 0 <= j < i ==> list[j].priority >= priority
    ensures i < |list| ==> list[i].priority < priority
  {
    if list == [] || priority > list[0].priority then 0
    else 1 + InsertionIndex(list[1..], priority)
  }

  function Insert(list: seq<Subscription>, s: Subscription): seq<Subscription> {
    var i := InsertionIndex(list, s.priority);
    list[..i] + [s] + list[i..]
  }

  /** Where everything lands: the entries before the insertion index stay
      put, the new subscription sits at the index and the rest move up by
      one. */
  lemma InsertShape(list: seq<Subscription>, s: Subscription)
    ensures var r := Insert(list, s);
      var i := InsertionIndex(list, s.priority);
      && |r| == |list| + 1 && r[i] == s
      && (forall j :: 0 <= j < i ==> r[j] == list[j])
      && (forall j :: i < j < |r| ==> r[j] == list[j - 1])
  {
  }

  /** Taking the new subscription out again gives back the original list. */
  lemma InsertRemove(list: seq<Subscription>, s: Subscription)
    ensures var r := Insert(list, s);
      var i := InsertionIndex(list, s.priority);
      i < |r| && r[..i] + r[i + 1..] == list
  {
    var i := InsertionIndex(list, s.priority);
    var front, back := list[..i], list[i..];
    var r := front + [s] + back;
    assert r[..i] == front;
    assert r[i + 1..] == back;
    assert front + back == list;
  }

  /** Inserting into a sorted list keeps it sorted; the new subscription
      follows every entry of priority at least its own (so ties keep
      registration order) and precedes every entry of lower priority. */
  lemma InsertSorted(list: seq<Subscription>, s: Subscription)
    requires Sorted(list)
    ensures var r := Insert(list, s);
      var i := InsertionIndex(list, s.priority);
      && Sorted(r)
      && (forall j :: 0 <= j < i ==> r[j].priority >= s.priority)
      && (forall j :: i < j < |r| ==> r[j].priority < s.priority)
  {
    var r := Insert(list, s);
    var i := InsertionIndex(list, s.priority);
    InsertShape(list, s);
    assert forall j :: i < j < |r| ==> r[j].priority < s.priority by {
      forall j | i < j < |r| ensures r[j].priority < s.priority {
        assert r[j] == list[j - 1];
        assert list[i].priority >= list[j - 1].priority;
      }
    }
    forall a, b | 0 <= a < b < |r| ensures r[a].priority >= r[b].priority {
      if b < i {
        assert r[a] == list[a] && r[b] == list[b];
      } else if a > i {
        assert r[a] == list[a - 1] && r[b] == list[b - 1];
      }
    }
  }

  /** `subscribe` without the sticky delivery: creates the subscription,
      rejects it when an equal one is already listed for its event type, and
      otherwise inserts it by priority and records the type in the
      subscriber's index entry. */
  function Subscribe(reg: Registry, same: SameSubscription, subscriber: Subscriber, sm: SubscriberMethod, priority: int)
    : (r: Result<(Registry, Subscription)>)
    ensures var s := Subscription(reg.nextId, subscriber, sm, priority);
      && (r.Err? <==> Contains(same, Subscriptions(reg, sm.eventType), s))
      && (r.Err? ==> r.error == DuplicateSubscription(subscriber.cls, sm.eventType))
      && (r.Ok? ==> r.value.1 == s && r.value.0.nextId == reg.nextId + 1)
  {
    var eventType := sm.eventType;
    var s := Subscription(reg.nextId, subscriber, sm, priority);
    var list := Subscriptions(reg, eventType);
    if eventType in reg.byType && Contains(same, list, s) then
      Err(DuplicateSubscription(subscriber.cls, eventType))
    else
      var types := if subscriber in reg.typesBySubscriber then reg.typesBySubscriber[subscriber] else [];
      Ok((Registry(reg.byType[eventType := Insert(list, s)],
                   reg.typesBySubscriber[subscriber := types + [eventType]],
                   reg.nextId + 1), s))
  }

  /** The subscriber has an index entry (`isRegistered`). */
  predicate IsRegistered(reg: Registry, subscriber: Subscriber) {
    subscriber in reg.typesBySubscriber
  }

  /** The registry invariant: lists are sorted, every listed subscription is
      listed under its own event type and has an identity below `nextId`,
      and every type holding a subscription of s appears in s's index
      entry. */
  ghost predicate Valid(reg: Registry) {
    && (forall t :: t in reg.byType ==> Sorted(reg.byType[t]))
    && (forall t, j :: t in reg.byType && 0 <= j < |reg.byType[t]| ==>
          reg.byType[t][j].subscriberMethod.eventType == t && reg.byType[t][j].id < reg.nextId)
    && (forall t, j :: t in reg.byType && 0 <= j < |reg.byType[t]| ==>
          reg.byType[t][j].subscriber in reg.typesBySubscriber
          && t in reg.typesBySubscriber[reg.byType[t][j].subscriber])
  }

  lemma EmptyRegistryValid()
    ensures Valid(EmptyRegistry)
  {
  }

  /** A successful subscribe inserts exactly the new subscription into its
      type's list, after every entry of priority at least its own and before
      every entry of lower priority; the other lists are unchanged. */
  lemma SubscribeInserts(reg: Registry, same: SameSubscription, subscriber: Subscriber, sm: SubscriberMethod, priority: int)
    requires Valid(reg)
    requires Subscribe(reg, same, subscriber, sm, priority).Ok?
    ensures var (reg', s) := Subscribe(reg, same, subscriber, sm, priority).value;
      var before := Subscriptions(reg, sm.eventType);
      var list := Subscriptions(reg', sm.eventType);
      var i := InsertionIndex(before, priority);
      && reg'.byType.Keys == reg.byType.Keys + {sm.eventType}
      && (forall t :: t in reg.byType && t != sm.eventType ==> reg'.byType[t] == reg.byType[t])
      && i < |list| && list[i] == s && list[..i] + list[i + 1..] == before
      && (forall j :: 0 <= j < i ==> list[j].priority >= priority)
      && (forall j :: i < j < |list| ==> list[j].priority < priority)
      && Sorted(list)
  {
    var (reg', s) := Subscribe(reg, same, subscriber, sm, priority).value;
    var before := Subscriptions(reg, sm.eventType);
    InsertShape(before, s);
    InsertRemove(before, s);
    InsertSorted(before, s);
  }

  /** A successful subscribe registers the subscriber, appends the event
      type to its index entry (other entries unchanged) and keeps the
      registry valid. */
  lemma SubscribeKeepsValid(reg: Registry, same: SameSubscription, subscriber: Subscriber, sm: SubscriberMethod, priority: int)
    requires Valid(reg)
    requires Subscribe(reg, same, subscriber, sm, priority).Ok?
    ensures var (reg', s) := Subscribe(reg, same, subscriber, sm, priority).value;
      && Valid(reg')
      && IsRegistered(reg', subscriber)
      && reg'.typesBySubscriber[subscriber]
         == (if subscriber in reg.typesBySubscriber then reg.typesBySubscriber[subscriber] else []) + [sm.eventType]
      && (forall x :: x in reg.typesBySubscriber && x != subscriber ==>
            reg'.typesBySubscriber[x] == reg.typesBySubscriber[x])
  {
    SubscribeKeepsSorted(reg, same, subscriber, sm, priority);
    SubscribeKeepsEntries(reg, same, subscriber, sm, priority);
  }

  lemma SubscribeKeepsSorted(reg: Registry, same: SameSubscription, subscriber: Subscriber, sm: SubscriberMethod,
                             priority: int)
    requires Valid(reg)
    requires Subscribe(reg, same, subscriber, sm, priority).Ok?
    ensures var reg' := Subscribe(reg, same, subscriber, sm, priority).value.0;
      forall t :: t in reg'.byType ==> Sorted(reg'.byType[t])
  {
    SubscribeInserts(reg, same, subscriber, sm, priority);
  }

  lemma SubscribeKeepsEntries(reg: Registry, same: SameSubscription, subscriber: Subscriber, sm: SubscriberMethod,
                              priority: int)
    requires Valid(reg)
    requires Subscribe(reg, same, subscriber, sm, priority).Ok?
    ensures var reg' := Subscribe(reg, same, subscriber, sm, priority).value.0;
      forall t, j :: t in reg'.byType && 0 <= j < |reg'.byType[t]| ==>
        && reg'.byType[t][j].subscriberMethod.eventType == t && reg'.byType[t][j].id < reg'.nextId
        && reg'.byType[t][j].subscriber in reg'.typesBySubscriber
        && t in reg'.typesBySubscriber[reg'.byType[t][j].subscriber]
  {
    var reg' := Subscribe(reg, same, subscriber, sm, priority).value.0;
    forall t, j | t in reg'.byType && 0 <= j < |reg'.byType[t]|
      ensures reg'.byType[t][j].subscriberMethod.eventType == t && reg'.byType[t][j].id < reg'.nextId
      ensures reg'.byType[t][j].subscriber in reg'.typesBySubscriber
              && t in reg'.typesBySubscriber[reg'.byType[t][j].subscriber]
    {
      SubscribedEntry(reg, same, subscriber, sm, priority, t, j);
    }
  }

  /** Every entry of the new registry is the new subscription or an entry of
      the old registry under the same type. */
  lemma SubscribedEntry(reg: Registry, same: SameSubscription, subscriber: Subscriber, sm: SubscriberMethod, priority: int,
                        t: ClassId, j: nat)
    requires Subscribe(reg, same, subscriber, sm, priority).Ok?
    requires var reg' := Subscribe(reg, same, subscriber, sm, priority).value.0;
      t in reg'.byType && j < |reg'.byType[t]|
    ensures var (reg', s) := Subscribe(reg, same, subscriber, sm, priority).value;
      || (t == sm.eventType && reg'.byType[t][j] == s && j == InsertionIndex(Subscriptions(reg, t), priority))
      || (t in reg.byType && exists k :: 0 <= k < |reg.byType[t]| && reg'.byType[t][j] == reg.byType[t][k])
  {
    var (reg', s) := Subscribe(reg, same, subscriber, sm, priority).value;
    if t == sm.eventType {
      var before := Subscriptions(reg, t);
      var i := InsertionIndex(before, priority);
      InsertShape(before, s);
      if j < i {
        assert reg'.byType[t][j] == before[j];
      } else if j > i {
        assert reg'.byType[t][j] == before[j - 1];
      }
    } else {
      assert reg'.byType[t][j] == reg.byType[t][j];
    }
  }

  /** The new subscription is the only entry with its identity. */
  lemma SubscribeFreshIdentity(reg: Registry, same: SameSubscription, subscriber: Subscriber, sm: SubscriberMethod,
                               priority: int, t: ClassId, j: nat)
    requires Valid(reg)
    requires Subscribe(reg, same, subscriber, sm, priority).Ok?
    requires var (reg', s) := Subscribe(reg, same, subscriber, sm, priority).value;
      t in reg'.byType && j < |reg'.byType[t]| && reg'.byType[t][j].id == s.id
    ensures var (reg', s) := Subscribe(reg, same, subscriber, sm, priority).value;
      t == sm.eventType && reg'.byType[t][j] == s
  {
    SubscribedEntry(reg, same, subscriber, sm, priority, t, j);
  }

  // ---------------------------------------------------------------------------
  // unsubscribeByEventType and unregister

  /** The list without the subscriptions of one subscriber (by identity),
      others kept in order. */
  function Without(list: seq<Subscription>, subscriber: Subscriber): seq<Subscription> {
    if list == [] then []
    else (if list[0].subscriber == subscriber then [] else [list[0]]) + Without(list[1..], subscriber)
  }

  /** The identities of the subscriptions of one subscriber in a list. */
  function IdsOf(list: seq<Subscription>, subscriber: Subscriber): set<nat> {
    set j | 0 <= j < |list| && list[j].subscriber == subscriber :: list[j].id
  }

  lemma WithoutSpec(list: seq<Subscription>, subscriber: Subscriber)
    ensures var r := Without(list, subscriber);
      && (forall j :: 0 <= j < |r| ==> r[j].subscriber != subscriber && r[j] in list)
      && (forall j :: 0 <= j < |list| && list[j].subscriber != subscriber ==> list[j] in r)
      && (Sorted(list) ==> Sorted(r))
      && |r| <= |list|
  {
    WithoutMembers(list, subscriber);
    if Sorted(list) {
      WithoutSorted(list, subscriber);
    }
  }

  lemma {:induction false} WithoutMembers(list: seq<Subscription>, subscriber: Subscriber)
    ensures var r := Without(list, subscriber);
      && (forall j :: 0 <= j < |r| ==> r[j].subscriber != subscriber && r[j] in list)
      && (forall j :: 0 <= j < |list| && list[j].subscriber != subscriber ==> list[j] in r)
      && |r| <= |list|
  {
    if list != [] {
      WithoutMembers(list[1..], subscriber);
      var r := Without(list, subscriber);
      var tail := Without(list[1..], subscriber);
      var head := if list[0].subscriber == subscriber then [] else [list[0]];
      assert r == head + tail;
      forall j | 0 <= j < |r| ensures r[j].subscriber != subscriber && r[j] in list {
        if j >= |head| {
          assert r[j] == tail[j - |head|];
        }
      }
      forall j | 0 <= j < |list| && list[j].subscriber != subscriber ensures list[j] in r {
        if j > 0 {
          assert list[j] == list[1..][j - 1];
        }
      }
    }
  }

  lemma {:induction false} WithoutSorted(list: seq<Subscription>, subscriber: Subscriber)
    requires Sorted(list)
    ensures Sorted(Without(list, subscriber))
  {
    if list != [] {
      var tail := Without(list[1..], subscriber);
      WithoutSorted(list[1..], subscriber);
      if list[0].subscriber != subscriber {
        assert forall j :: 0 <= j < |list[1..]| ==> list[1..][j] == list[j + 1];
        WithoutBounded(list[1..], subscriber, list[0].priority);
        SortedCons(list[0], tail);
      }
    }
  }

  /** Removal never raises a priority bound. */
  lemma {:induction false} WithoutBounded(list: seq<Subscription>, subscriber: Subscriber, p: int)
    requires forall j :: 0 <= j < |list| ==> list[j].priority <= p
    ensures forall j :: 0 <= j < |Without(list, subscriber)| ==> Without(list, subscriber)[j].priority <= p
  {
    if list != [] {
      assert forall j :: 0 <= j < |list[1..]| ==> list[1..][j] == list[j + 1];
      WithoutBounded(list[1..], subscriber, p);
      var tail := Without(list[1..], subscriber);
      var head := if list[0].subscriber == subscriber then [] else [list[0]];
      var r := Without(list, subscriber);
      assert r == head + tail;
      forall j | 0 <= j < |r| ensures r[j].priority <= p {
        if j >= |head| {
          assert r[j] == tail[j - |head|];
        }
      }
    }
  }

  lemma SortedCons(x: Subscription, list: seq<Subscription>)
    requires Sorted(list) && forall j :: 0 <= j < |list| ==> list[j].priority <= x.priority
    ensures Sorted([x] + list)
  {
    var r := [x] + list;
    forall a, b | 0 <= a < b < |r| ensures r[a].priority >= r[b].priority {
      assert r[b] == list[b - 1];
      if a > 0 {
        assert r[a] == list[a - 1];
      }
    }
  }

  /** The relative order of the other subscribers' subscriptions is kept:
      Without is a subsequence of the list. */
  lemma {:induction false} WithoutIsSubsequence(list: seq<Subscription>, subscriber: Subscriber)
    ensures IsSubsequence(Without(list, subscriber), list)
  {
    if list != [] {
      var tail := Without(list[1..], subscriber);
      WithoutIsSubsequence(list[1..], subscriber);
      if list[0].subscriber == subscriber {
        assert Without(list, subscriber) == tail;
        assert list == [list[0]] + list[1..];
        SubsequenceCons(tail, list[1..], list[0]);
      } else {
        assert Without(list, subscriber) == [list[0]] + tail;
        assert ([list[0]] + tail)[1..] == tail;
      }
    }
  }

  /** A subsequence of b is a subsequence of b with one more element in
      front. */
  lemma {:induction false} SubsequenceCons<T>(a: seq<T>, b: seq<T>, x: T)
    requires IsSubsequence(a, b)
    ensures IsSubsequence(a, [x] + b)
    decreases |b|, 1
  {
    assert ([x] + b)[1..] == b;
    if a != [] && a[0] == x {
      SubsequenceTail(a, b);
    }
  }

  lemma {:induction false} SubsequenceTail<T>(a: seq<T>, b: seq<T>)
    requires a != [] && IsSubsequence(a, b)
    ensures IsSubsequence(a[1..], b)
    decreases |b|, 0
  {
    if a[0] == b[0] {
      assert b == [b[0]] + b[1..];
      SubsequenceCons(a[1..], b[1..], b[0]);
    } else {
      SubsequenceTail(a, b[1..]);
      assert b == [b[0]] + b[1..];
      SubsequenceCons(a[1..], b[1..], b[0]);
    }
  }

  /** a is b with some elements left out (order kept). */
  predicate IsSubsequence<T(==)>(a: seq<T>, b: seq<T>) {
    if a == [] then true
    else if b == [] then false
    else if a[0] == b[0] then IsSubsequence(a[1..], b[1..])
    else IsSubsequence(a, b[1..])
  }

  lemma {:induction false} WithoutIdempotent(list: seq<Subscription>, subscriber: Subscriber)
    ensures Without(Without(list, subscriber), subscriber) == Without(list, subscriber)
  {
    if list != [] {
      var tail := Without(list[1..], subscriber);
      WithoutIdempotent(list[1..], subscriber);
      if list[0].subscriber != subscriber {
        assert Without(list, subscriber) == [list[0]] + tail;
        assert ([list[0]] + tail)[1..] == tail;
      } else {
        assert Without(list, subscriber) == tail;
      }
    }
  }

  /** The list has no subscription of the subscriber. */
  lemma WithoutNone(list: seq<Subscription>, subscriber: Subscriber)
    requires forall j :: 0 <= j < |list| ==> list[j].subscriber != subscriber
    ensures Without(list, subscriber) == list
  {
    if list != [] {
      WithoutNone(list[1..], subscriber);
    }
  }

  /** What unsubscribing removed: the new list map and the identities of
      the subscriptions whose `active` flag was cleared. */
  datatype Removal = Removal(byType: map<ClassId, seq<Subscription>>, deactivated: set<nat>)

  /** `unsubscribeByEventType`: removes the subscriber's subscriptions from
      one type's list (the key stays, possibly with an empty list). */
  function UnsubscribeByEventType(byType: map<ClassId, seq<Subscription>>, subscriber: Subscriber, eventType: ClassId)
    : (r: Removal)
    ensures r.byType.Keys == byType.Keys
    ensures forall t :: t in byType && t != eventType ==> r.byType[t] == byType[t]
    ensures eventType in byType ==>
      && r.byType[eventType] == Without(byType[eventType], subscriber)
      && r.deactivated == IdsOf(byType[eventType], subscriber)
      && forall j :: 0 <= j < |r.byType[eventType]| ==> r.byType[eventType][j].subscriber != subscriber
    ensures eventType !in byType ==> r == Removal(byType, {})
  {
    if eventType in byType then
      var list := byType[eventType];
      WithoutSpec(list, subscriber);
      Removal(byType[eventType := Without(list, subscriber)], IdsOf(list, subscriber))
    else Removal(byType, {})
  }

  /** The loop of `unregister` over the subscriber's index entry. */
  function UnsubscribeAll(byType: map<ClassId, seq<Subscription>>, subscriber: Subscriber, types: seq<ClassId>)
    : Removal
  {
    if types == [] then Removal(byType, {})
    else
      var first := UnsubscribeByEventType(byType, subscriber, types[0]);
      var rest := UnsubscribeAll(first.byType, subscriber, types[1..]);
      Removal(rest.byType, first.deactivated + rest.deactivated)
  }

  /** What `unregister` did: the new registry, the deactivated subscriptions
      and whether the subscriber was registered (otherwise only a warning is
      logged). */
  datatype Unregistered = Unregistered(registry: Registry, deactivated: set<nat>, wasRegistered: bool)

  function Unregister(reg: Registry, subscriber: Subscriber): (r: Unregistered)
    ensures r.wasRegistered == IsRegistered(reg, subscriber)
    ensures !IsRegistered(r.registry, subscriber)
    ensures !r.wasRegistered ==> r == Unregistered(reg, {}, false)
  {
    if subscriber in reg.typesBySubscriber then
      var removal := UnsubscribeAll(reg.byType, subscriber, reg.typesBySubscriber[subscriber]);
      Unregistered(Registry(removal.byType, reg.typesBySubscriber - {subscriber}, reg.nextId), removal.deactivated, true)
    else Unregistered(reg, {}, false)
  }

  /** The loop over the index entry removes the subscriber from exactly the
      listed types, whatever duplicates the entry holds. */
  lemma {:induction false} UnsubscribeAllSpec(byType: map<ClassId, seq<Subscription>>, subscriber: Subscriber,
                                              types: seq<ClassId>)
    ensures var r := UnsubscribeAll(byType, subscriber, types);
      && r.byType.Keys == byType.Keys
      && (forall t :: t in byType && t in types ==> r.byType[t] == Without(byType[t], subscriber))
      && (forall t :: t in byType && t !in types ==> r.byType[t] == byType[t])
      && (forall id :: id in r.deactivated <==>
            exists t :: t in types && t in byType && id in IdsOf(byType[t], subscriber))
  {
    if types != [] {
      var t0 := types[0];
      var first := UnsubscribeByEventType(byType, subscriber, t0);
      UnsubscribeAllSpec(first.byType, subscriber, types[1..]);
      var r := UnsubscribeAll(byType, subscriber, types);
      forall t | t in byType && t in types ensures r.byType[t] == Without(byType[t], subscriber) {
        if t == t0 {
          if t in types[1..] {
            WithoutIdempotent(byType[t], subscriber);
          }
        } else {
          assert t in types[1..];
        }
      }
      forall id
        ensures id in r.deactivated <==>
          exists t :: t in types && t in byType && id in IdsOf(byType[t], subscriber)
      {
        if id in first.deactivated {
          assert t0 in byType && id in IdsOf(byType[t0], subscriber);
        }
        if exists t :: t in types[1..] && t in first.byType && id in IdsOf(first.byType[t], subscriber) {
          var t :| t in types[1..] && t in first.byType && id in IdsOf(first.byType[t], subscriber);
          assert t in types;
        }
        if exists t :: t in types && t in byType && id in IdsOf(byType[t], subscriber) {
          var t :| t in types && t in byType && id in IdsOf(byType[t], subscriber);
          if t != t0 {
            assert t in types[1..];
          }
        }
      }
    }
  }

  /** On a valid registry, `unregister` removes every subscription of the
      subscriber from every list, keeps every other subscription in order,
      deactivates exactly the removed subscriptions, drops only this
      subscriber's index entry and keeps the registry valid. */
  lemma UnregisterSpec(reg: Registry, subscriber: Subscriber)
    requires Valid(reg)
    ensures var r := Unregister(reg, subscriber);
      && Valid(r.registry)
      && r.registry.byType.Keys == reg.byType.Keys
      && (forall t :: t in reg.byType ==> r.registry.byType[t] == Without(reg.byType[t], subscriber))
      && (forall id :: id in r.deactivated <==> exists t :: t in reg.byType && id in IdsOf(reg.byType[t], subscriber))
      && r.registry.typesBySubscriber == reg.typesBySubscriber - {subscriber}
  {
    var r := Unregister(reg, subscriber);
    if subscriber in reg.typesBySubscriber {
      var types := reg.typesBySubscriber[subscriber];
      UnsubscribeAllSpec(reg.byType, subscriber, types);
      forall t | t in reg.byType && t !in types
        ensures reg.byType[t] == Without(reg.byType[t], subscriber)
      {
        WithoutNone(reg.byType[t], subscriber);
      }
      forall id | exists t :: t in reg.byType && id in IdsOf(reg.byType[t], subscriber)
        ensures id in r.deactivated
      {
        var t :| t in reg.byType && id in IdsOf(reg.byType[t], subscriber);
        var j :| 0 <= j < |reg.byType[t]| && reg.byType[t][j].subscriber == subscriber && reg.byType[t][j].id == id;
        assert t in types;
      }
      forall t | t in r.registry.byType ensures Sorted(r.registry.byType[t]) {
        WithoutSpec(reg.byType[t], subscriber);
      }
      forall t, j | t in r.registry.byType && 0 <= j < |r.registry.byType[t]|
        ensures var x := r.registry.byType[t][j];
          x.subscriberMethod.eventType == t && x.id < reg.nextId
          && x.subscriber in r.registry.typesBySubscriber && t in r.registry.typesBySubscriber[x.subscriber]
      {
        WithoutSpec(reg.byType[t], subscriber);
      }
    } else {
      forall t | t in reg.byType ensures reg.byType[t] == Without(reg.byType[t], subscriber) {
        WithoutNone(reg.byType[t], subscriber);
      }
      assert reg.typesBySubscriber - {subscriber} == reg.typesBySubscriber;
    }
  }

  // ---------------------------------------------------------------------------
  // hasSubscriberForEvent

  /** Some type of the list has a non-empty subscription list. */
  function AnySubscribed(reg: Registry, types: seq<ClassId>): (r: bool)
    ensures r <==> exists k :: 0 <= k < |types| && Subscriptions(reg, types[k]) != []
  {
    if types == [] then false
    else if Subscriptions(reg, types[0]) != [] then true
    else
      var rest := AnySubscribed(reg, types[1..]);
      assert rest <==> exists k :: 1 <= k < |types| && Subscriptions(reg, types[k]) != [] by {
        if rest {
          var k :| 0 <= k < |types[1..]| && Subscriptions(reg, types[1..][k]) != [];
          assert types[k + 1] == types[1..][k];
        }
        if exists k :: 1 <= k < |types| && Subscriptions(reg, types[k]) != [] {
          var k :| 1 <= k < |types| && Subscriptions(reg, types[k]) != [];
          assert types[1..][k - 1] == types[k];
        }
      }
      rest
  }

  /** `hasSubscriberForEvent`: the class or any of its supertypes has a
      non-empty list. The source resolves the supertypes even when event
      inheritance is off. */
  function HasSubscriberForEvent(h: Hierarchy, reg: Registry, eventClass: ClassId): (r: bool)
    requires WellFormed(h)
    ensures r <==> exists t :: SubtypeOf(h, eventClass, t) && Subscriptions(reg, t) != []
  {
    var types := LookupAllEventTypes(h, eventClass);
    LookupAllEventTypesSpec(h, eventClass);
    var r := AnySubscribed(reg, types);
    assert r ==> exists t :: SubtypeOf(h, eventClass, t) && Subscriptions(reg, t) != [] by {
      if r {
        var k :| 0 <= k < |types| && Subscriptions(reg, types[k]) != [];
        assert types[k] in types;
      }
    }
    assert (exists t :: SubtypeOf(h, eventClass, t) && Subscriptions(reg, t) != []) ==> r by {
      if exists t :: SubtypeOf(h, eventClass, t) && Subscriptions(reg, t) != [] {
        var t :| SubtypeOf(h, eventClass, t) && Subscriptions(reg, t) != [];
        assert t in types;
        var k :| 0 <= k < |types| && types[k] == t;
      }
    }
    r
  }

  /** On a valid registry a subscriber with any listed subscription is
      registered, and one that is not registered has none. */
  lemma ListedIsRegistered(reg: Registry, t: ClassId, j: nat)
    requires Valid(reg) && t in reg.byType && j < |reg.byType[t]|
    ensures IsRegistered(reg, reg.byType[t][j].subscriber)
  {
  }
}
