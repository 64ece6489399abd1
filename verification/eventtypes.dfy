/** The event-type resolver: `lookupAllEventTypes` lists an event class, its
    superclass chain and, after each class, depth-first, the interfaces it
    implements that are not already listed. */
module EventTypes {
  import opened BusErrors
  import opened Sequences
  import opened TypeHierarchy

  /** One more than the largest id in s (0 for the empty list): a
      termination measure for the interface recursion. */
  function Bound(s: seq<ClassId>): (b: nat)
    ensures forall k :: 0 <= k < |s| ==> s[k] < b
  {
    if s == [] then 0 else
      var rest := Bound(s[1..]);
      if s[0] + 1 > rest then s[0] + 1 else rest
  }

  lemma {:induction false} BoundAtMost(s: seq<ClassId>, x: nat)
    requires forall k :: 0 <= k < |s| ==> s[k] < x
    ensures Bound(s) <= x
  {
    if s != [] {
      BoundAtMost(s[1..], x);
    }
  }

  lemma BoundOfInterfaces(h: Hierarchy, i: ClassId)
    requires WellFormed(h)
    ensures Bound(Interfaces(h, i)) <= i
  {
    BoundAtMost(Interfaces(h, i), i);
  }

  lemma PrefixMember<T>(a: seq<T>, b: seq<T>, x: T)
    requires |a| <= |b| && b[..|a|] == a && x in a
    ensures x in b
  {
    var k :| 0 <= k < |a| && a[k] == x;
    assert b[k] == b[..|a|][k];
  }

  predicate AllInterfaces(h: Hierarchy, s: seq<ClassId>) {
    forall k :: 0 <= k < |s| ==> s[k] in h.isInterface
  }

  /** `addInterfaces(eventTypes, interfaces)`: for each interface in order, if
      it is not yet listed, append it and recurse into its own interfaces. */
  function AddInterfaces(h: Hierarchy, eventTypes: seq<ClassId>, interfaces: seq<ClassId>): (r: seq<ClassId>)
    requires WellFormed(h)
    requires AllInterfaces(h, interfaces)
    ensures |eventTypes| <= |r| && r[..|eventTypes|] == eventTypes
    ensures forall k :: |eventTypes| <= k < |r| ==> r[k] in h.isInterface && r[k] < Bound(interfaces)
    decreases Bound(interfaces), |interfaces|
  {
    if interfaces == [] then eventTypes
    else
      var i := interfaces[0];
      var withI :=
        if i in eventTypes then eventTypes
        else
          (BoundOfInterfaces(h, i);
           var w := AddInterfaces(h, eventTypes + [i], Interfaces(h, i));
           AppendBelow(h, eventTypes, i, w, Bound(Interfaces(h, i)), Bound(interfaces));
           w);
      BoundTail(interfaces);
      var r := AddInterfaces(h, withI, interfaces[1..]);
      ExtendBelow(h, eventTypes, withI, r, Bound(interfaces));
      r
  }

  lemma BoundTail(s: seq<ClassId>)
    requires s != []
    ensures Bound(s[1..]) <= Bound(s) && s[0] < Bound(s)
  {
  }

  /** The entries past a after listing interface i and its own interfaces lie
      below b. */
  lemma AppendBelow(h: Hierarchy, a: seq<ClassId>, i: ClassId, w: seq<ClassId>, c: nat, b: nat)
    requires IsPrefix(a + [i], w) && i in h.isInterface && i < b && c <= b
    requires forall k :: |a + [i]| <= k < |w| ==> w[k] in h.isInterface && w[k] < c
    ensures IsPrefix(a, w)
    ensures forall k :: |a| <= k < |w| ==> w[k] in h.isInterface && w[k] < b
  {
    assert w[..|a|] == w[..|a| + 1][..|a|];
    assert w[|a|] == w[..|a| + 1][|a|];
  }

  /** Two extensions whose new entries lie below b make one. */
  lemma ExtendBelow(h: Hierarchy, a: seq<ClassId>, w: seq<ClassId>, r: seq<ClassId>, b: nat)
    requires IsPrefix(a, w) && IsPrefix(w, r)
    requires forall k :: |a| <= k < |w| ==> w[k] in h.isInterface && w[k] < b
    requires forall k :: |w| <= k < |r| ==> r[k] in h.isInterface && r[k] < b
    ensures IsPrefix(a, r)
    ensures forall k :: |a| <= k < |r| ==> r[k] in h.isInterface && r[k] < b
  {
    PrefixTrans(a, w, r);
    forall k | |a| <= k < |w|
      ensures r[k] == w[k]
    {
      assert r[k] == r[..|w|][k];
    }
  }

  /** Every interface handed to `addInterfaces` ends up listed. */
  lemma {:induction false} AddInterfacesContains(h: Hierarchy, eventTypes: seq<ClassId>, interfaces: seq<ClassId>)
    requires WellFormed(h) && AllInterfaces(h, interfaces)
    ensures forall k :: 0 <= k < |interfaces| ==> interfaces[k] in AddInterfaces(h, eventTypes, interfaces)
    decreases |interfaces|
  {
    if interfaces != [] {
      var i := interfaces[0];
      var withI := if i in eventTypes then eventTypes else AddInterfaces(h, eventTypes + [i], Interfaces(h, i));
      if i !in eventTypes {
        BoundOfInterfaces(h, i);
        PrefixMember(eventTypes + [i], withI, i);
      }
      var r := AddInterfaces(h, withI, interfaces[1..]);
      PrefixMember(withI, r, i);
      AddInterfacesContains(h, withI, interfaces[1..]);
      forall k | 0 <= k < |interfaces|
        ensures interfaces[k] in r
      {
        if k > 0 {
          assert interfaces[k] == interfaces[1..][k - 1];
        }
      }
    }
  }

  /** The membership test keeps the list free of duplicates. */
  lemma {:induction false} AddInterfacesNoDuplicates(h: Hierarchy, eventTypes: seq<ClassId>, interfaces: seq<ClassId>)
    requires WellFormed(h) && AllInterfaces(h, interfaces)
    requires NoDuplicates(eventTypes)
    ensures NoDuplicates(AddInterfaces(h, eventTypes, interfaces))
    decreases Bound(interfaces), |interfaces|
  {
    if interfaces != [] {
      var i := interfaces[0];
      var withI := if i in eventTypes then eventTypes else AddInterfaces(h, eventTypes + [i], Interfaces(h, i));
      if i !in eventTypes {
        BoundOfInterfaces(h, i);
        assert NoDuplicates(eventTypes + [i]);
        AddInterfacesNoDuplicates(h, eventTypes + [i], Interfaces(h, i));
      }
      AddInterfacesNoDuplicates(h, withI, interfaces[1..]);
    }
  }

  /** The `while (clazz != null)` loop of `lookupAllEventTypes`. */
  function CollectTypes(h: Hierarchy, eventTypes: seq<ClassId>, clazz: Option<ClassId>): seq<ClassId>
    requires WellFormed(h)
    decreases if clazz.Some? then clazz.value + 1 else 0
  {
    match clazz
    case None => eventTypes
    case Some(c) =>
      CollectTypes(h, AddInterfaces(h, eventTypes + [c], Interfaces(h, c)), Super(h, c))
  }

  /** `lookupAllEventTypes(eventClass)` (the per-class cache returns exactly
      this list, so it is not modelled separately). */
  function LookupAllEventTypes(h: Hierarchy, eventClass: ClassId): seq<ClassId>
    requires WellFormed(h)
  {
    CollectTypes(h, [], Some(eventClass))
  }

  /** The types `postSingleEvent` dispatches an event of class c under. */
  function EventTypesFor(h: Hierarchy, eventInheritance: bool, c: ClassId): seq<ClassId>
    requires WellFormed(h)
  {
    if eventInheritance then LookupAllEventTypes(h, c) else [c]
  }

  /** The classes (not interfaces) of a list, in order. */
  function ClassesOf(h: Hierarchy, s: seq<ClassId>): seq<ClassId> {
    if s == [] then [] else
      (if s[0] in h.isInterface then [] else [s[0]]) + ClassesOf(h, s[1..])
  }

  // ---------------------------------------------------------------------------
  // Closure: every supertype ends up in the list

  /** All interfaces x implements are listed in s. */
  predicate IfacesIn(h: Hierarchy, x: ClassId, s: seq<ClassId>) {
    forall j :: 0 <= j < |Interfaces(h, x)| ==> Interfaces(h, x)[j] in s
  }

  /** Every listed type below b has all its interfaces listed. */
  predicate ClosedBelow(h: Hierarchy, s: seq<ClassId>, b: nat) {
    forall k :: 0 <= k < |s| && s[k] < b ==> IfacesIn(h, s[k], s)
  }

  /** Every listed type has all its interfaces listed. */
  predicate ClosedAll(h: Hierarchy, s: seq<ClassId>) {
    ClosedBelow(h, s, Bound(s))
  }

  /** Every listed type's superclass is listed, except the one the loop
      visits next. */
  predicate SuperClosedBut(h: Hierarchy, s: seq<ClassId>, next: Option<ClassId>) {
    forall k :: 0 <= k < |s| && s[k] in h.superclass ==>
      h.superclass[s[k]] in s || next == Some(h.superclass[s[k]])
  }


  lemma IfacesInGrow(h: Hierarchy, x: ClassId, a: seq<ClassId>, b: seq<ClassId>)
    requires IsPrefix(a, b) && IfacesIn(h, x, a)
    ensures IfacesIn(h, x, b)
  {
    forall j | 0 <= j < |Interfaces(h, x)|
      ensures Interfaces(h, x)[j] in b
    {
      PrefixMember(a, b, Interfaces(h, x)[j]);
    }
  }

  /** Closure below `bound` of an extended list: the new entries lie below b0
      and are closed, and the old entries below `bound` are closed. */
  lemma ClosedExtend(h: Hierarchy, a: seq<ClassId>, b: seq<ClassId>, b0: nat, bound: nat)
    requires IsPrefix(a, b)
    requires forall k :: |a| <= k < |b| ==> b[k] < b0
    requires ClosedBelow(h, b, b0)
    requires forall k :: 0 <= k < |a| && a[k] < bound ==> IfacesIn(h, a[k], b)
    ensures ClosedBelow(h, b, bound)
  {
    forall k | 0 <= k < |b| && b[k] < bound
      ensures IfacesIn(h, b[k], b)
    {
      if k < |a| {
        assert b[k] == b[..|a|][k];
      }
    }
  }

  /** Appending a type at or above b keeps closure below b. */
  lemma ClosedAppend(h: Hierarchy, acc: seq<ClassId>, i: ClassId, b: nat)
    requires ClosedBelow(h, acc, b) && b <= i
    ensures ClosedBelow(h, acc + [i], b)
  {
    assert IsPrefix(acc, acc + [i]);
    forall k | 0 <= k < |acc + [i]| && (acc + [i])[k] < b
      ensures IfacesIn(h, (acc + [i])[k], acc + [i])
    {
      assert k < |acc| && (acc + [i])[k] == acc[k];
      IfacesInGrow(h, acc[k], acc, acc + [i]);
    }
  }

  lemma {:induction false} AddInterfacesCloses(h: Hierarchy, acc: seq<ClassId>, ifaces: seq<ClassId>)
    requires WellFormed(h) && AllInterfaces(h, ifaces)
    requires ClosedBelow(h, acc, Bound(ifaces))
    ensures ClosedBelow(h, AddInterfaces(h, acc, ifaces), Bound(ifaces))
    decreases Bound(ifaces), |ifaces|
  {
    if ifaces != [] {
      var i := ifaces[0];
      var tail := ifaces[1..];
      var B := Bound(ifaces);
      var withI := if i in acc then acc else AddInterfaces(h, acc + [i], Interfaces(h, i));
      if i !in acc {
        var inner := Interfaces(h, i);
        var accI := acc + [i];
        BoundOfInterfaces(h, i);
        assert ClosedBelow(h, acc, Bound(inner));
        ClosedAppend(h, acc, i, Bound(inner));
        AddInterfacesCloses(h, accI, inner);
        AddInterfacesContains(h, accI, inner);
        assert IsPrefix(acc, accI);
        PrefixTrans(acc, accI, withI);
        forall k | 0 <= k < |accI| && accI[k] < B
          ensures IfacesIn(h, accI[k], withI)
        {
          if k < |acc| {
            assert accI[k] == acc[k];
            IfacesInGrow(h, acc[k], acc, withI);
          }
        }
        ClosedExtend(h, accI, withI, Bound(inner), B);
      }
      assert Bound(tail) <= B;
      AddInterfacesCloses(h, withI, tail);
      var r := AddInterfaces(h, withI, tail);
      forall k | 0 <= k < |withI| && withI[k] < B
        ensures IfacesIn(h, withI[k], r)
      {
        IfacesInGrow(h, withI[k], withI, r);
      }
      ClosedExtend(h, withI, r, Bound(tail), B);
    }
  }

  /** Loop invariant of `CollectTypes`: closure so far, no duplicates, and
      the next class is a class not yet listed. */
  ghost predicate CollectInv(h: Hierarchy, acc: seq<ClassId>, clazz: Option<ClassId>) {
    && ClosedAll(h, acc)
    && SuperClosedBut(h, acc, clazz)
    && NoDuplicates(acc)
    && (clazz.Some? ==>
          && (clazz.value !in h.isInterface || acc == [])
          && (forall k :: 0 <= k < |acc| ==> acc[k] in h.isInterface || acc[k] > clazz.value))
  }

  lemma CollectStepClosed(h: Hierarchy, acc: seq<ClassId>, c: ClassId)
    requires WellFormed(h) && ClosedAll(h, acc)
    ensures ClosedAll(h, AddInterfaces(h, acc + [c], Interfaces(h, c)))
  {
    var ifs := Interfaces(h, c);
    var accC := acc + [c];
    var r := AddInterfaces(h, accC, ifs);
    BoundOfInterfaces(h, c);
    forall k | 0 <= k < |acc| && acc[k] < Bound(ifs)
      ensures IfacesIn(h, acc[k], acc)
    {
    }
    ClosedAppend(h, acc, c, Bound(ifs));
    AddInterfacesCloses(h, accC, ifs);
    AddInterfacesContains(h, accC, ifs);
    assert IsPrefix(acc, accC);
    PrefixTrans(acc, accC, r);
    forall k | 0 <= k < |accC| && accC[k] < Bound(r)
      ensures IfacesIn(h, accC[k], r)
    {
      if k < |acc| {
        assert accC[k] == acc[k];
        IfacesInGrow(h, acc[k], acc, r);
      }
    }
    ClosedExtend(h, accC, r, Bound(ifs), Bound(r));
  }

  lemma CollectStepSuper(h: Hierarchy, acc: seq<ClassId>, c: ClassId)
    requires WellFormed(h) && SuperClosedBut(h, acc, Some(c))
    ensures SuperClosedBut(h, AddInterfaces(h, acc + [c], Interfaces(h, c)), Super(h, c))
  {
    var accC := acc + [c];
    var r := AddInterfaces(h, accC, Interfaces(h, c));
    forall k | 0 <= k < |r| && r[k] in h.superclass
      ensures h.superclass[r[k]] in r || Super(h, c) == Some(h.superclass[r[k]])
    {
      if k < |acc| {
        assert r[k] == acc[k];
        if h.superclass[acc[k]] in acc {
          PrefixMember(acc, accC, h.superclass[acc[k]]);
          PrefixMember(accC, r, h.superclass[acc[k]]);
        } else {
          PrefixMember(accC, r, c);
        }
      } else if k == |acc| {
        assert r[k] == c;
      }
    }
  }

  lemma CollectStepAbove(h: Hierarchy, acc: seq<ClassId>, c: ClassId, p: ClassId)
    requires WellFormed(h) && c in h.superclass && p == h.superclass[c]
    requires forall k :: 0 <= k < |acc| ==> acc[k] in h.isInterface || acc[k] > c
    ensures var r := AddInterfaces(h, acc + [c], Interfaces(h, c));
      forall k :: 0 <= k < |r| ==> r[k] in h.isInterface || r[k] > p
  {
    var accC := acc + [c];
    var r := AddInterfaces(h, accC, Interfaces(h, c));
    forall k | 0 <= k < |r|
      ensures r[k] in h.isInterface || r[k] > p
    {
      if k < |acc| {
        assert r[k] == acc[k];
      } else if k == |acc| {
        assert r[k] == c;
      }
    }
  }

  lemma CollectStepUnique(h: Hierarchy, acc: seq<ClassId>, c: ClassId)
    requires WellFormed(h) && NoDuplicates(acc)
    requires forall k :: 0 <= k < |acc| ==> acc[k] in h.isInterface || acc[k] > c
    requires c !in h.isInterface
    ensures NoDuplicates(AddInterfaces(h, acc + [c], Interfaces(h, c)))
  {
    assert c !in acc;
    assert NoDuplicates(acc + [c]);
    AddInterfacesNoDuplicates(h, acc + [c], Interfaces(h, c));
  }

  lemma CollectStep(h: Hierarchy, acc: seq<ClassId>, c: ClassId)
    requires WellFormed(h) && CollectInv(h, acc, Some(c))
    ensures CollectInv(h, AddInterfaces(h, acc + [c], Interfaces(h, c)), Super(h, c))
  {
    CollectStepClosed(h, acc, c);
    CollectStepSuper(h, acc, c);
    if c in h.isInterface {
      assert acc == [];
      assert NoDuplicates([] + [c]);
      AddInterfacesNoDuplicates(h, [] + [c], Interfaces(h, c));
    } else {
      CollectStepUnique(h, acc, c);
    }
    if c in h.superclass {
      CollectStepAbove(h, acc, c, h.superclass[c]);
    }
  }

  lemma {:induction false} CollectTypesInv(h: Hierarchy, acc: seq<ClassId>, clazz: Option<ClassId>)
    requires WellFormed(h) && CollectInv(h, acc, clazz)
    ensures CollectInv(h, CollectTypes(h, acc, clazz), None)
    ensures IsPrefix(acc, CollectTypes(h, acc, clazz))
    ensures clazz.Some? ==> clazz.value in CollectTypes(h, acc, clazz)
    decreases if clazz.Some? then clazz.value + 1 else 0
  {
    if clazz.Some? {
      var c := clazz.value;
      var next := AddInterfaces(h, acc + [c], Interfaces(h, c));
      CollectStep(h, acc, c);
      CollectTypesInv(h, next, Super(h, c));
      var r := CollectTypes(h, next, Super(h, c));
      assert IsPrefix(acc, acc + [c]);
      PrefixTrans(acc, acc + [c], next);
      PrefixTrans(acc, next, r);
      PrefixMember(acc + [c], next, c);
      PrefixMember(next, r, c);
    }
  }

  /** A list closed under superclass and interface edges contains every
      supertype of its members. */
  lemma {:induction false} UpwardClosedHasSupertypes(h: Hierarchy, s: seq<ClassId>, x: ClassId, y: ClassId)
    requires ClosedAll(h, s) && SuperClosedBut(h, s, None)
    requires x in s && SubtypeOf(h, x, y)
    ensures y in s
    decreases x
  {
    var k :| 0 <= k < |s| && s[k] == x;
    if x == y {
    } else if x in h.superclass && h.superclass[x] < x && SubtypeOf(h, h.superclass[x], y) {
      UpwardClosedHasSupertypes(h, s, h.superclass[x], y);
    } else {
      var j :| 0 <= j < |Interfaces(h, x)| && Interfaces(h, x)[j] < x
               && SubtypeOf(h, Interfaces(h, x)[j], y);
      assert IfacesIn(h, s[k], s);
      UpwardClosedHasSupertypes(h, s, Interfaces(h, x)[j], y);
    }
  }

  // ---------------------------------------------------------------------------
  // Soundness: every listed type is a supertype of the event class

  predicate AllSupertypesOf(h: Hierarchy, root: ClassId, s: seq<ClassId>) {
    forall k :: 0 <= k < |s| ==> SubtypeOf(h, root, s[k])
  }

  lemma InterfaceIsSupertype(h: Hierarchy, root: ClassId, x: ClassId, j: nat)
    requires WellFormed(h) && SubtypeOf(h, root, x) && j < |Interfaces(h, x)|
    ensures SubtypeOf(h, root, Interfaces(h, x)[j])
  {
    var i := Interfaces(h, x)[j];
    assert SubtypeOf(h, i, i);
    assert SubtypeOf(h, x, i);
    SubtypeTransitive(h, root, x, i);
  }

  lemma {:induction false} AddInterfacesSound(h: Hierarchy, root: ClassId, acc: seq<ClassId>, ifaces: seq<ClassId>)
    requires WellFormed(h) && AllInterfaces(h, ifaces)
    requires AllSupertypesOf(h, root, acc) && AllSupertypesOf(h, root, ifaces)
    ensures AllSupertypesOf(h, root, AddInterfaces(h, acc, ifaces))
    decreases Bound(ifaces), |ifaces|
  {
    if ifaces != [] {
      var i := ifaces[0];
      var withI := if i in acc then acc else AddInterfaces(h, acc + [i], Interfaces(h, i));
      if i !in acc {
        BoundOfInterfaces(h, i);
        forall j | 0 <= j < |Interfaces(h, i)|
          ensures SubtypeOf(h, root, Interfaces(h, i)[j])
        {
          InterfaceIsSupertype(h, root, i, j);
        }
        AddInterfacesSound(h, root, acc + [i], Interfaces(h, i));
      }
      AddInterfacesSound(h, root, withI, ifaces[1..]);
    }
  }

  lemma {:induction false} CollectTypesSound(h: Hierarchy, root: ClassId, acc: seq<ClassId>, clazz: Option<ClassId>)
    requires WellFormed(h) && AllSupertypesOf(h, root, acc)
    requires clazz.Some? ==> SubtypeOf(h, root, clazz.value)
    ensures AllSupertypesOf(h, root, CollectTypes(h, acc, clazz))
    decreases if clazz.Some? then clazz.value + 1 else 0
  {
    if clazz.Some? {
      var c := clazz.value;
      forall j | 0 <= j < |Interfaces(h, c)|
        ensures SubtypeOf(h, root, Interfaces(h, c)[j])
      {
        InterfaceIsSupertype(h, root, c, j);
      }
      AddInterfacesSound(h, root, acc + [c], Interfaces(h, c));
      if c in h.superclass {
        var p := h.superclass[c];
        assert SubtypeOf(h, p, p);
        assert SubtypeOf(h, c, p);
        SubtypeTransitive(h, root, c, p);
      }
      CollectTypesSound(h, root, AddInterfaces(h, acc + [c], Interfaces(h, c)), Super(h, c));
    }
  }

  // ---------------------------------------------------------------------------
  // Order: the classes of the result are exactly the superclass chain

  lemma {:induction false} ClassesOfAppend(h: Hierarchy, a: seq<ClassId>, b: seq<ClassId>)
    ensures ClassesOf(h, a + b) == ClassesOf(h, a) + ClassesOf(h, b)
  {
    if a == [] {
      assert a + b == b;
    } else {
      assert (a + b)[0] == a[0];
      assert (a + b)[1..] == a[1..] + b;
      ClassesOfAppend(h, a[1..], b);
    }
  }

  lemma {:induction false} ClassesOfInterfaces(h: Hierarchy, s: seq<ClassId>)
    requires AllInterfaces(h, s)
    ensures ClassesOf(h, s) == []
  {
    if s != [] {
      ClassesOfInterfaces(h, s[1..]);
    }
  }

  /** One loop step adds exactly one class, the visited one. */
  lemma AddInterfacesClasses(h: Hierarchy, acc: seq<ClassId>, c: ClassId)
    requires WellFormed(h) && c !in h.isInterface
    ensures ClassesOf(h, AddInterfaces(h, acc + [c], Interfaces(h, c))) == ClassesOf(h, acc) + [c]
  {
    var next := AddInterfaces(h, acc + [c], Interfaces(h, c));
    var added := next[|acc| + 1..];
    assert next == (acc + [c]) + added;
    assert AllInterfaces(h, added);
    ClassesOfInterfaces(h, added);
    ClassesOfAppend(h, acc + [c], added);
    ClassesOfAppend(h, acc, [c]);
    assert ClassesOf(h, [c]) == [c];
  }

  lemma {:induction false} CollectTypesClasses(h: Hierarchy, acc: seq<ClassId>, c: ClassId)
    requires WellFormed(h) && c !in h.isInterface
    ensures ClassesOf(h, CollectTypes(h, acc, Some(c))) == ClassesOf(h, acc) + Chain(h, c)
    decreases c
  {
    var next := AddInterfaces(h, acc + [c], Interfaces(h, c));
    AddInterfacesClasses(h, acc, c);
    if c in h.superclass {
      var p := h.superclass[c];
      assert p !in h.isInterface;
      CollectTypesClasses(h, next, p);
      assert CollectTypes(h, acc, Some(c)) == CollectTypes(h, next, Some(p));
      assert Chain(h, c) == [c] + Chain(h, p);
      AppendAssoc(ClassesOf(h, acc), [c], Chain(h, p));
    } else {
      assert CollectTypes(h, acc, Some(c)) == next;
      assert Chain(h, c) == [c];
    }
  }

  lemma {:induction false} CollectTypesPrefix(h: Hierarchy, acc: seq<ClassId>, clazz: Option<ClassId>)
    requires WellFormed(h)
    ensures IsPrefix(acc, CollectTypes(h, acc, clazz))
    decreases if clazz.Some? then clazz.value + 1 else 0
  {
    if clazz.Some? {
      var c := clazz.value;
      var next := AddInterfaces(h, acc + [c], Interfaces(h, c));
      CollectTypesPrefix(h, next, Super(h, c));
      assert IsPrefix(acc, acc + [c]);
      PrefixTrans(acc, acc + [c], next);
      PrefixTrans(acc, next, CollectTypes(h, next, Super(h, c)));
    }
  }

  /** The resolved list starts with the event class and lists no type twice. */
  lemma LookupStartsAndUnique(h: Hierarchy, c: ClassId)
    requires WellFormed(h)
    ensures var r := LookupAllEventTypes(h, c);
      |r| > 0 && r[0] == c && NoDuplicates(r)
  {
    CollectInvStart(h, c);
    CollectTypesInv(h, [], Some(c));
    LookupStartsWith(h, c);
  }

  lemma CollectInvStart(h: Hierarchy, c: ClassId)
    ensures CollectInv(h, [], Some(c))
  {
  }

  lemma LookupStartsWith(h: Hierarchy, c: ClassId)
    requires WellFormed(h)
    ensures IsPrefix([c], LookupAllEventTypes(h, c))
  {
    var first := AddInterfaces(h, [c], Interfaces(h, c));
    assert [] + [c] == [c];
    assert LookupAllEventTypes(h, c) == CollectTypes(h, first, Super(h, c));
    CollectTypesPrefix(h, first, Super(h, c));
    PrefixTrans([c], first, LookupAllEventTypes(h, c));
  }

  /** The resolved list holds exactly the supertypes of the event class. */
  lemma LookupIsSupertypes(h: Hierarchy, c: ClassId)
    requires WellFormed(h)
    ensures forall x :: x in LookupAllEventTypes(h, c) <==> SubtypeOf(h, c, x)
  {
    var r := LookupAllEventTypes(h, c);
    assert CollectInv(h, [], Some(c));
    CollectTypesInv(h, [], Some(c));
    CollectTypesSound(h, c, [], Some(c));
    forall x
      ensures x in r <==> SubtypeOf(h, c, x)
    {
      if SubtypeOf(h, c, x) {
        UpwardClosedHasSupertypes(h, r, c, x);
      }
    }
  }

  // ---------------------------------------------------------------------------
  // Placement: each interface sits right after the first class implementing it

  /** y is x or is reached from x through implemented-interface edges only
      (no superclass edge). */
  predicate Implements(h: Hierarchy, x: ClassId, y: ClassId)
    decreases x
  {
    || x == y
    || exists k :: 0 <= k < |Interfaces(h, x)| && Interfaces(h, x)[k] < x && Implements(h, Interfaces(h, x)[k], y)
  }

  /** Position k of s opens a segment: it holds the event class or a class
      (not an interface). */
  predicate StartsSegment(h: Hierarchy, s: seq<ClassId>, k: nat)
    requires k < |s|
  {
    k == 0 || s[k] !in h.isInterface
  }

  /** Every other entry is implemented by an earlier segment start. */
  ghost predicate Owned(h: Hierarchy, s: seq<ClassId>) {
    forall j :: 0 <= j < |s| && !StartsSegment(h, s, j) ==>
      exists k :: 0 <= k < j && StartsSegment(h, s, k) && Implements(h, s[k], s[j])
  }

  /** No entry is implemented by a segment start before the start of its
      own segment. */
  ghost predicate OwnedByFirst(h: Hierarchy, s: seq<ClassId>) {
    forall k, m, j ::
      (0 <= k < m < j < |s| && StartsSegment(h, s, k) && StartsSegment(h, s, m) && !StartsSegment(h, s, j))
      ==> !Implements(h, s[k], s[j])
  }

  /** Together: each interface entry lies in the segment of the first listed
      class (or the event class) that implements it, after that class and
      before the next one. */
  ghost predicate Segmented(h: Hierarchy, s: seq<ClassId>) {
    Owned(h, s) && OwnedByFirst(h, s)
  }

  lemma {:induction false} ImplementsStep(h: Hierarchy, x: ClassId, i: ClassId, j: nat)
    requires WellFormed(h) && Implements(h, x, i) && j < |Interfaces(h, i)|
    ensures Implements(h, x, Interfaces(h, i)[j])
    decreases x
  {
    var y := Interfaces(h, i)[j];
    if x == i {
      assert y < x;
      assert Implements(h, y, y);
    } else {
      var k :| 0 <= k < |Interfaces(h, x)| && Interfaces(h, x)[k] < x && Implements(h, Interfaces(h, x)[k], i);
      ImplementsStep(h, Interfaces(h, x)[k], i, j);
    }
  }

  /** Everything `addInterfaces` appends is implemented by x when every
      interface it starts from is. */
  lemma {:induction false} AddInterfacesImplemented(h: Hierarchy, x: ClassId, acc: seq<ClassId>, ifaces: seq<ClassId>)
    requires WellFormed(h) && AllInterfaces(h, ifaces)
    requires forall k :: 0 <= k < |ifaces| ==> Implements(h, x, ifaces[k])
    ensures forall k :: |acc| <= k < |AddInterfaces(h, acc, ifaces)| ==> Implements(h, x, AddInterfaces(h, acc, ifaces)[k])
    decreases Bound(ifaces), |ifaces|
  {
    if ifaces != [] {
      var i := ifaces[0];
      var withI := if i in acc then acc else AddInterfaces(h, acc + [i], Interfaces(h, i));
      if i !in acc {
        BoundOfInterfaces(h, i);
        forall j | 0 <= j < |Interfaces(h, i)|
          ensures Implements(h, x, Interfaces(h, i)[j])
        {
          ImplementsStep(h, x, i, j);
        }
        AddInterfacesImplemented(h, x, acc + [i], Interfaces(h, i));
        forall k | |acc| <= k < |withI|
          ensures Implements(h, x, withI[k])
        {
          if k == |acc| {
            assert withI[k] == withI[..|acc| + 1][k];
          }
        }
      }
      var tail := ifaces[1..];
      assert forall k :: 0 <= k < |tail| ==> tail[k] == ifaces[k + 1];
      AddInterfacesImplemented(h, x, withI, tail);
      var r := AddInterfaces(h, withI, tail);
      forall k | |acc| <= k < |r|
        ensures Implements(h, x, r[k])
      {
        if k < |withI| {
          assert r[k] == r[..|withI|][k];
        }
      }
    }
  }

  /** A list closed under interface edges holds everything its members
      implement. */
  lemma {:induction false} OutsideNotImplemented(h: Hierarchy, s: seq<ClassId>, x: ClassId, y: ClassId)
    requires ClosedAll(h, s) && x in s && y !in s
    ensures !Implements(h, x, y)
    decreases x
  {
    var i :| 0 <= i < |s| && s[i] == x;
    assert IfacesIn(h, s[i], s);
    forall k | 0 <= k < |Interfaces(h, x)| && Interfaces(h, x)[k] < x
      ensures !Implements(h, Interfaces(h, x)[k], y)
    {
      OutsideNotImplemented(h, s, Interfaces(h, x)[k], y);
    }
  }

  /** One loop step keeps every entry owned: the visited class opens a
      segment and owns what `addInterfaces` appends after it. */
  lemma OwnedStep(h: Hierarchy, acc: seq<ClassId>, c: ClassId)
    requires WellFormed(h) && (c !in h.isInterface || acc == []) && Owned(h, acc)
    ensures Owned(h, AddInterfaces(h, acc + [c], Interfaces(h, c)))
  {
    var r := AddInterfaces(h, acc + [c], Interfaces(h, c));
    var n := |acc|;
    assert r[n] == r[..n + 1][n];
    assert StartsSegment(h, r, n);
    forall i | 0 <= i < |Interfaces(h, c)|
      ensures Implements(h, c, Interfaces(h, c)[i])
    {
      assert Implements(h, c, c);
      ImplementsStep(h, c, c, i);
    }
    AddInterfacesImplemented(h, c, acc + [c], Interfaces(h, c));
    forall j | 0 <= j < |r| && !StartsSegment(h, r, j)
      ensures exists k :: 0 <= k < j && StartsSegment(h, r, k) && Implements(h, r[k], r[j])
    {
      if j < n {
        assert r[j] == r[..n + 1][j];
        assert !StartsSegment(h, acc, j);
        var k :| 0 <= k < j && StartsSegment(h, acc, k) && Implements(h, acc[k], acc[j]);
        assert r[k] == r[..n + 1][k];
        assert StartsSegment(h, r, k);
      } else {
        assert j != n;
        assert Implements(h, r[n], r[j]);
      }
    }
  }

  /** What one loop step appends after the visited class is new. */
  lemma AppendedFresh(h: Hierarchy, acc: seq<ClassId>, c: ClassId)
    requires WellFormed(h) && NoDuplicates(AddInterfaces(h, acc + [c], Interfaces(h, c)))
    ensures forall j :: |acc| <= j < |AddInterfaces(h, acc + [c], Interfaces(h, c))| ==>
              AddInterfaces(h, acc + [c], Interfaces(h, c))[j] !in acc
  {
    var r := AddInterfaces(h, acc + [c], Interfaces(h, c));
    var n := |acc|;
    forall j, i | n <= j < |r| && 0 <= i < n
      ensures acc[i] != r[j]
    {
      assert r[i] == r[..n + 1][i];
    }
  }

  /** One loop step keeps every entry with its first owner: what
      `addInterfaces` appends is missing from the closed list before it, so
      no earlier segment start implements it. */
  lemma OwnedByFirstStep(h: Hierarchy, acc: seq<ClassId>, c: ClassId)
    requires WellFormed(h) && ClosedAll(h, acc) && OwnedByFirst(h, acc)
    requires NoDuplicates(AddInterfaces(h, acc + [c], Interfaces(h, c)))
    ensures OwnedByFirst(h, AddInterfaces(h, acc + [c], Interfaces(h, c)))
  {
    var r := AddInterfaces(h, acc + [c], Interfaces(h, c));
    var n := |acc|;
    AppendedFresh(h, acc, c);
    forall k, m, j | 0 <= k < m < j < |r| && StartsSegment(h, r, k) && StartsSegment(h, r, m)
                     && !StartsSegment(h, r, j)
      ensures !Implements(h, r[k], r[j])
    {
      assert r[k] == r[..n + 1][k];
      if j < n {
        assert r[m] == r[..n + 1][m] && r[j] == r[..n + 1][j];
        assert StartsSegment(h, acc, k) && StartsSegment(h, acc, m) && !StartsSegment(h, acc, j);
      } else {
        assert acc[k] in acc;
        OutsideNotImplemented(h, acc, acc[k], r[j]);
      }
    }
  }

  lemma {:induction false} CollectTypesSegmented(h: Hierarchy, acc: seq<ClassId>, clazz: Option<ClassId>)
    requires WellFormed(h) && CollectInv(h, acc, clazz) && Segmented(h, acc)
    ensures Segmented(h, CollectTypes(h, acc, clazz))
    decreases if clazz.Some? then clazz.value + 1 else 0
  {
    if clazz.Some? {
      var c := clazz.value;
      CollectStep(h, acc, c);
      OwnedStep(h, acc, c);
      OwnedByFirstStep(h, acc, c);
      CollectTypesSegmented(h, AddInterfaces(h, acc + [c], Interfaces(h, c)), Super(h, c));
    }
  }

  /** Each interface the lookup lists comes right after the first class of
      the chain (or the event class) that implements it, before the next. */
  lemma LookupSegmented(h: Hierarchy, c: ClassId)
    requires WellFormed(h)
    ensures Segmented(h, LookupAllEventTypes(h, c))
  {
    CollectInvStart(h, c);
    CollectTypesSegmented(h, [], Some(c));
  }

  // ---------------------------------------------------------------------------
  // Reference order: a depth-first walk of the supertype graph

  /** The direct supertypes of x in the order the lookup takes them: its
      interfaces in declaration order, then its superclass. */
  function Supertypes(h: Hierarchy, x: ClassId): (r: seq<ClassId>)
    requires WellFormed(h)
    ensures forall k :: 0 <= k < |r| ==> r[k] < x
  {
    Interfaces(h, x) + (if x in h.superclass then [h.superclass[x]] else [])
  }

  /** The size of the walk tree below x, repeats included: the termination
      measure of `DepthFirst`. */
  function Weight(h: Hierarchy, x: ClassId): (w: nat)
    requires WellFormed(h)
    ensures w >= 1
    decreases x + 1, 0
  {
    BoundAtMost(Supertypes(h, x), x);
    1 + StackWeight(h, Supertypes(h, x))
  }

  function StackWeight(h: Hierarchy, s: seq<ClassId>): nat
    requires WellFormed(h)
    decreases Bound(s), |s| + 1
  {
    if s == [] then 0 else
      BoundTail(s);
      Weight(h, s[0]) + StackWeight(h, s[1..])
  }

  lemma {:induction false} StackWeightAppend(h: Hierarchy, a: seq<ClassId>, b: seq<ClassId>)
    requires WellFormed(h)
    ensures StackWeight(h, a + b) == StackWeight(h, a) + StackWeight(h, b)
    decreases |a|
  {
    if a == [] {
      assert a + b == b;
    } else {
      assert (a + b)[0] == a[0] && (a + b)[1..] == a[1..] + b;
      StackWeightAppend(h, a[1..], b);
    }
  }

  lemma WeightUnfold(h: Hierarchy, s: seq<ClassId>)
    requires WellFormed(h) && s != []
    ensures StackWeight(h, s) == 1 + StackWeight(h, Supertypes(h, s[0])) + StackWeight(h, s[1..])
  {
  }

  /** A pre-order depth-first walk with an explicit stack, written
      independently of `addInterfaces`: pop a type; if it was already
      visited drop it, otherwise visit it and push its supertypes. */
  function DepthFirst(h: Hierarchy, visited: seq<ClassId>, stack: seq<ClassId>): seq<ClassId>
    requires WellFormed(h)
    decreases StackWeight(h, stack)
  {
    if stack == [] then visited
    else if stack[0] in visited then DepthFirst(h, visited, stack[1..])
    else
      StackWeightAppend(h, Supertypes(h, stack[0]), stack[1..]);
      WeightUnfold(h, stack);
      DepthFirst(h, visited + [stack[0]], Supertypes(h, stack[0]) + stack[1..])
  }

  /** Walking a + b is walking a, then b from what a visited. */
  lemma {:induction false} DepthFirstAppend(h: Hierarchy, visited: seq<ClassId>, a: seq<ClassId>, b: seq<ClassId>)
    requires WellFormed(h)
    ensures DepthFirst(h, visited, a + b) == DepthFirst(h, DepthFirst(h, visited, a), b)
    decreases StackWeight(h, a)
  {
    if a == [] {
      assert a + b == b;
    } else {
      var x := a[0];
      assert (a + b)[0] == x && (a + b)[1..] == a[1..] + b;
      if x in visited {
        DepthFirstAppend(h, visited, a[1..], b);
      } else {
        StackWeightAppend(h, Supertypes(h, x), a[1..]);
        WeightUnfold(h, a);
        assert Supertypes(h, x) + (a[1..] + b) == (Supertypes(h, x) + a[1..]) + b;
        DepthFirstAppend(h, visited + [x], Supertypes(h, x) + a[1..], b);
      }
    }
  }

  /** `addInterfaces` is the walk started from its interface list:
      interfaces have no superclass, so the walk pushes exactly what the
      recursion visits, in the same order. */
  lemma {:induction false} AddInterfacesIsDepthFirst(h: Hierarchy, eventTypes: seq<ClassId>, interfaces: seq<ClassId>)
    requires WellFormed(h) && AllInterfaces(h, interfaces)
    ensures AddInterfaces(h, eventTypes, interfaces) == DepthFirst(h, eventTypes, interfaces)
    decreases Bound(interfaces), |interfaces|
  {
    if interfaces != [] {
      var i := interfaces[0];
      BoundTail(interfaces);
      if i in eventTypes {
        AddInterfacesIsDepthFirst(h, eventTypes, interfaces[1..]);
      } else {
        BoundOfInterfaces(h, i);
        var w := AddInterfaces(h, eventTypes + [i], Interfaces(h, i));
        AddInterfacesIsDepthFirst(h, eventTypes + [i], Interfaces(h, i));
        AddInterfacesIsDepthFirst(h, w, interfaces[1..]);
        assert Supertypes(h, i) == Interfaces(h, i);
        DepthFirstAppend(h, eventTypes + [i], Interfaces(h, i), interfaces[1..]);
      }
    }
  }

  /** The lookup loop from class c is the walk from c, provided c is not
      listed yet and every class already listed lies above c in the chain. */
  lemma {:induction false} CollectTypesIsDepthFirst(h: Hierarchy, acc: seq<ClassId>, c: ClassId)
    requires WellFormed(h)
    requires c !in acc
    requires forall k :: 0 <= k < |acc| && acc[k] !in h.isInterface ==> c < acc[k]
    ensures CollectTypes(h, acc, Some(c)) == DepthFirst(h, acc, [c])
    decreases c
  {
    var w := AddInterfaces(h, acc + [c], Interfaces(h, c));
    AddInterfacesIsDepthFirst(h, acc + [c], Interfaces(h, c));
    assert [c][0] == c && [c][1..] == [];
    if c in h.superclass {
      var p := h.superclass[c];
      assert Supertypes(h, c) + [] == Interfaces(h, c) + [p];
      DepthFirstAppend(h, acc + [c], Interfaces(h, c), [p]);
      forall k | 0 <= k < |w| && w[k] !in h.isInterface
        ensures p < w[k]
      {
        assert w[k] == w[..|acc| + 1][k];
      }
      CollectTypesIsDepthFirst(h, w, p);
    } else {
      assert Supertypes(h, c) + [] == Interfaces(h, c);
    }
  }

  /** `lookupAllEventTypes(c)` is the pre-order depth-first walk of the
      supertype graph from c that skips visited types. */
  lemma LookupIsDepthFirst(h: Hierarchy, c: ClassId)
    requires WellFormed(h)
    ensures LookupAllEventTypes(h, c) == DepthFirst(h, [], [c])
  {
    CollectTypesIsDepthFirst(h, [], c);
  }

  /** `lookupAllEventTypes(c)`: starts with c, lists exactly the supertypes of
      c, each once, and its classes are c's superclass chain in order. */
  lemma LookupAllEventTypesSpec(h: Hierarchy, c: ClassId)
    requires WellFormed(h)
    ensures var r := LookupAllEventTypes(h, c);
      && |r| > 0 && r[0] == c
      && NoDuplicates(r)
      && (forall x :: x in r <==> SubtypeOf(h, c, x))
      && (c !in h.isInterface ==> ClassesOf(h, r) == Chain(h, c))
      && Segmented(h, r)
      && r == DepthFirst(h, [], [c])
  {
    LookupStartsAndUnique(h, c);
    LookupIsDepthFirst(h, c);
    LookupSegmented(h, c);
    LookupIsSupertypes(h, c);
    if c !in h.isInterface {
      CollectTypesClasses(h, [], c);
    }
  }

  /** With inheritance off only the exact class is consulted; with it on,
      exactly the supertypes are. */
  lemma EventTypesForSpec(h: Hierarchy, eventInheritance: bool, c: ClassId)
    requires WellFormed(h)
    ensures var r := EventTypesFor(h, eventInheritance, c);
      && NoDuplicates(r) && |r| > 0 && r[0] == c
      && (!eventInheritance ==> r == [c])
      && (eventInheritance ==> forall x :: x in r <==> SubtypeOf(h, c, x))
  {
    LookupAllEventTypesSpec(h, c);
  }
}
