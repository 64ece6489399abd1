/** The sticky store: the most recent event posted with `postSticky`, per
    exact event class. */
module StickyStore {
  import opened BusErrors
  import opened TypeHierarchy
  import opened Events

  type Store = map<ClassId, Event>

  /** Every stored event is stored under its own class. */
  ghost predicate StoredUnderOwnClass(store: Store) {
    forall c :: c in store ==> ClassOf(store[c]) == c
  }

  /** The store update of `postSticky`: the event replaces whatever was kept
      for its exact class. */
  function PutSticky(store: Store, event: Event): (r: Store)
    ensures r.Keys == store.Keys + {ClassOf(event)}
    ensures forall c :: c in store && c != ClassOf(event) ==> r[c] == store[c]
    ensures StoredUnderOwnClass(store) ==> StoredUnderOwnClass(r)
  {
    store[ClassOf(event) := event]
  }

  /** `getStickyEvent`. */
  function GetStickyEvent(store: Store, eventType: ClassId): Option<Event> {
    if eventType in store then Some(store[eventType]) else None
  }

  /** `removeStickyEvent(Class)`: the new store and the removed event. */
  function RemoveStickyEventOfType(store: Store, eventType: ClassId): (r: (Store, Option<Event>))
    ensures r.0.Keys == store.Keys - {eventType}
    ensures forall c :: c in r.0 ==> r.0[c] == store[c]
    ensures eventType in store ==> r.1 == Some(store[eventType])
    ensures eventType !in store ==> r.1 == None
  {
    (store - {eventType}, GetStickyEvent(store, eventType))
  }

  /** `removeStickyEvent(Object)`: removes the entry of the event's class
      only when it holds this very event. */
  function RemoveStickyEvent(store: Store, event: Event): (r: (Store, bool))
    ensures r.1 <==> GetStickyEvent(store, ClassOf(event)) == Some(event)
    ensures r.1 ==> r.0 == store - {ClassOf(event)}
    ensures !r.1 ==> r.0 == store
  {
    var eventType := ClassOf(event);
    if GetStickyEvent(store, eventType) == Some(event) then (store - {eventType}, true) else (store, false)
  }

  /** `removeAllStickyEvents`. */
  function RemoveAllStickyEvents(store: Store): (r: Store)
    ensures forall c :: GetStickyEvent(r, c) == None
  {
    map[]
  }

  /** The sticky events a new subscription for `eventType` receives, in the
      order `order` visits the store's classes (the store's iteration order
      is unspecified). With inheritance every stored event whose class is
      assignable to `eventType` qualifies; without it only the entry of the
      exact type does. */
  function StickyMatches(h: Hierarchy, store: Store, eventInheritance: bool, eventType: ClassId, order: seq<ClassId>)
    : seq<Event>
  {
    if !eventInheritance then
      (if eventType in store then [store[eventType]] else [])
    else if order == [] then []
    else
      var k := order[0];
      (if k in store && SubtypeOf(h, k, eventType) then [store[k]] else [])
      + StickyMatches(h, store, eventInheritance, eventType, order[1..])
  }

  /** `order` lists every class of the store exactly once. */
  ghost predicate Enumerates(order: seq<ClassId>, store: Store) {
    NoDuplicates(order) && (forall k :: k in order <==> k in store)
  }

  lemma {:induction false} StickyMatchesMembers(h: Hierarchy, store: Store, eventType: ClassId, order: seq<ClassId>)
    ensures forall e :: e in StickyMatches(h, store, true, eventType, order) <==>
      exists k :: k in order && k in store && store[k] == e && SubtypeOf(h, k, eventType)
  {
    if order != [] {
      StickyMatchesMembers(h, store, eventType, order[1..]);
      forall e ensures e in StickyMatches(h, store, true, eventType, order) <==>
        exists k :: k in order && k in store && store[k] == e && SubtypeOf(h, k, eventType)
      {
        if exists k :: k in order && k in store && store[k] == e && SubtypeOf(h, k, eventType) {
          var k :| k in order && k in store && store[k] == e && SubtypeOf(h, k, eventType);
          if k != order[0] {
            assert k in order[1..];
          }
        }
      }
    }
  }

  lemma {:induction false} StickyMatchesLength(h: Hierarchy, store: Store, eventType: ClassId, order: seq<ClassId>)
    ensures |StickyMatches(h, store, true, eventType, order)| <= |order|
  {
    if order != [] {
      StickyMatchesLength(h, store, eventType, order[1..]);
    }
  }

  /** Every match is stored under a class of `order`. */
  lemma {:induction false} StickyMatchesFrom(h: Hierarchy, store: Store, eventType: ClassId, order: seq<ClassId>)
    requires StoredUnderOwnClass(store)
    ensures forall i :: 0 <= i < |StickyMatches(h, store, true, eventType, order)| ==>
      ClassOf(StickyMatches(h, store, true, eventType, order)[i]) in order
  {
    if order != [] {
      var k := order[0];
      var rest := order[1..];
      StickyMatchesFrom(h, store, eventType, rest);
      var head := if k in store && SubtypeOf(h, k, eventType) then [store[k]] else [];
      var tail := StickyMatches(h, store, true, eventType, rest);
      var r := head + tail;
      assert StickyMatches(h, store, true, eventType, order) == r;
      forall i | 0 <= i < |r| ensures ClassOf(r[i]) in order {
        if i >= |head| {
          assert r[i] == tail[i - |head|];
          assert ClassOf(tail[i - |head|]) in rest;
        }
      }
    }
  }

  /** Every match comes from a distinct class of `order`, so no event is
      delivered twice. */
  lemma {:induction false} StickyMatchesUnique(h: Hierarchy, store: Store, eventType: ClassId, order: seq<ClassId>)
    requires StoredUnderOwnClass(store) && NoDuplicates(order)
    ensures NoDuplicates(StickyMatches(h, store, true, eventType, order))
  {
    if order != [] {
      var k := order[0];
      var rest := order[1..];
      NoDuplicatesTail(order);
      StickyMatchesUnique(h, store, eventType, rest);
      StickyMatchesFrom(h, store, eventType, rest);
      var head := if k in store && SubtypeOf(h, k, eventType) then [store[k]] else [];
      var tail := StickyMatches(h, store, true, eventType, rest);
      var r := head + tail;
      assert StickyMatches(h, store, true, eventType, order) == r;
      forall i, j | 0 <= i < j < |r| ensures r[i] != r[j] {
        if i >= |head| {
          assert r[i] == tail[i - |head|] && r[j] == tail[j - |head|];
        } else {
          assert r[j] == tail[j - 1] && ClassOf(tail[j - 1]) in rest;
          assert r[i] == store[k] && ClassOf(store[k]) == k;
        }
      }
    }
  }

  lemma NoDuplicatesTail(order: seq<ClassId>)
    requires order != [] && NoDuplicates(order)
    ensures NoDuplicates(order[1..]) && order[0] !in order[1..]
  {
    var rest := order[1..];
    forall i, j | 0 <= i < j < |rest| ensures rest[i] != rest[j] {
      assert rest[i] == order[i + 1] && rest[j] == order[j + 1];
    }
    forall i | 0 <= i < |rest| ensures rest[i] != order[0] {
      assert rest[i] == order[i + 1];
    }
  }

  /** Sticky registration delivers, with inheritance, every stored event
      whose class is the subscribed type or a subtype of it — each once when
      `order` enumerates the store — and without inheritance only the event
      of the exact type. */
  lemma StickyMatchesSpec(h: Hierarchy, store: Store, eventInheritance: bool, eventType: ClassId, order: seq<ClassId>)
    requires StoredUnderOwnClass(store) && Enumerates(order, store)
    ensures var r := StickyMatches(h, store, eventInheritance, eventType, order);
      && (eventInheritance ==>
            (forall e :: e in r <==> e in store.Values && SubtypeOf(h, ClassOf(e), eventType))
            && NoDuplicates(r)
            && |r| <= |store.Keys|)
      && (!eventInheritance ==> r == (if eventType in store then [store[eventType]] else []))
  {
    if eventInheritance {
      StickyMatchesMembers(h, store, eventType, order);
      StickyMatchesUnique(h, store, eventType, order);
      StickyMatchesLength(h, store, eventType, order);
      DistinctCount(order, store.Keys);
    }
  }

  /** A duplicate-free list of the elements of a set is no longer than the
      set. */
  lemma {:induction false} DistinctCount(order: seq<ClassId>, keys: set<ClassId>)
    requires NoDuplicates(order) && forall k :: k in order <==> k in keys
    ensures |order| == |keys|
  {
    if order != [] {
      var rest := order[1..];
      assert forall k :: k in rest <==> k in keys - {order[0]} by {
        forall k ensures k in rest <==> k in keys - {order[0]} {
          if k in rest {
            var i :| 0 <= i < |rest| && rest[i] == k;
            assert order[i + 1] == k;
          }
          if k in order && k != order[0] {
            var i :| 0 <= i < |order| && order[i] == k;
            assert rest[i - 1] == k;
          }
        }
      }
      DistinctCount(rest, keys - {order[0]});
    } else {
      assert keys == {};
    }
  }

  /** Put then get returns the event; removing it by identity then succeeds
      and leaves no entry for its class. */
  lemma StickyRoundTrip(store: Store, event: Event)
    ensures GetStickyEvent(PutSticky(store, event), ClassOf(event)) == Some(event)
    ensures var (after, removed) := RemoveStickyEvent(PutSticky(store, event), event);
      removed && GetStickyEvent(after, ClassOf(event)) == None
    ensures RemoveStickyEventOfType(PutSticky(store, event), ClassOf(event)).1 == Some(event)
  {
  }
}
