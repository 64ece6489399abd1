/** Handler discovery (`SubscriberMethodFinder`): scan the subscriber class and
    its superclasses for public one-argument `onEvent*` methods, keep only the
    most-derived declaration of each (name, event type), and cache non-empty
    results per subscriber class. Methods are abstract descriptors in place of
    reflection. */
module MethodFinder {
  import opened BusErrors
  import opened Sequences
  import opened TypeHierarchy
  import opened ThreadModes

  const ON_EVENT_METHOD_NAME: string := "onEvent"

  // java.lang.reflect.Modifier bits and the two class-file flags the source adds
  const PUBLIC: bv32 := 0x0001
  const STATIC: bv32 := 0x0008
  const ABSTRACT: bv32 := 0x0400
  const BRIDGE: bv32 := 0x0040
  const SYNTHETIC: bv32 := 0x1000
  const MODIFIERS_IGNORE: bv32 := ABSTRACT | STATIC | BRIDGE | SYNTHETIC

  /** A declared method as reflection reports it. */
  datatype Method = Method(name: string, modifiers: bv32, parameterTypes: seq<ClassId>, declaringClass: ClassId)

  /** A discovered handler: the method, its thread mode and its event type. */
  datatype SubscriberMethod = SubscriberMethod(handlerMethod: Method, threadMode: ThreadMode, eventType: ClassId)

  /** `getDeclaredMethods()` of every class, in reflection order. */
  type Declarations = map<ClassId, seq<Method>>

  function DeclaredMethods(decl: Declarations, c: ClassId): seq<Method> {
    if c in decl then decl[c] else []
  }

  /** Every method is listed under the class that declares it. */
  ghost predicate DeclarationsWellFormed(decl: Declarations) {
    forall c, i :: c in decl && 0 <= i < |decl[c]| ==> decl[c][i].declaringClass == c
  }

  predicate HasModifier(modifiers: bv32, flag: bv32) {
    modifiers & flag != 0
  }

  /** The modifier filter: public, and none of abstract, static, bridge or
      synthetic. */
  predicate ModifiersAccepted(modifiers: bv32): (r: bool)
    ensures r <==>
      && HasModifier(modifiers, PUBLIC)
      && !HasModifier(modifiers, ABSTRACT) && !HasModifier(modifiers, STATIC)
      && !HasModifier(modifiers, BRIDGE) && !HasModifier(modifiers, SYNTHETIC)
  {
    (modifiers & PUBLIC) != 0 && (modifiers & MODIFIERS_IGNORE) == 0
  }

  /** `getThreadMode`: the suffix after "onEvent" selects the mode; an unknown
      suffix is an error unless the declaring class is on the skip list, in
      which case the method is silently skipped (None). */
  function GetThreadMode(skip: set<ClassId>, clazz: ClassId, methodName: string): (r: Result<Option<ThreadMode>>)
    requires StartsWith(methodName, ON_EVENT_METHOD_NAME)
    ensures forall m: ThreadMode :: r == Ok(Some(m)) <==> methodName == ON_EVENT_METHOD_NAME + Suffix(m)
    ensures r.Err? <==> (forall m: ThreadMode :: methodName != ON_EVENT_METHOD_NAME + Suffix(m)) && clazz !in skip
    ensures r.Err? ==> r.error == IllegalHandlerName(clazz, methodName)
  {
    var suffix := methodName[|ON_EVENT_METHOD_NAME|..];
    assert methodName == ON_EVENT_METHOD_NAME + suffix;
    match ModeOfSuffix(suffix)
    case Some(mode) => Ok(Some(mode))
    case None => if clazz !in skip then Err(IllegalHandlerName(clazz, methodName)) else Ok(None)
  }

  /** What one declared method contributes: a handler, nothing, or the
      illegal-name error. */
  function Examine(skip: set<ClassId>, m: Method): (r: Result<Option<SubscriberMethod>>)
    ensures r.Ok? && r.value.Some? ==>
      && StartsWith(m.name, ON_EVENT_METHOD_NAME)
      && ModifiersAccepted(m.modifiers)
      && |m.parameterTypes| == 1
      && r.value.value == SubscriberMethod(m, r.value.value.threadMode, m.parameterTypes[0])
      && m.name == ON_EVENT_METHOD_NAME + Suffix(r.value.value.threadMode)
    ensures !StartsWith(m.name, ON_EVENT_METHOD_NAME) || !ModifiersAccepted(m.modifiers) || |m.parameterTypes| != 1
      ==> r == Ok(None)
    ensures forall mode: ThreadMode ::
      && StartsWith(m.name, ON_EVENT_METHOD_NAME) && ModifiersAccepted(m.modifiers) && |m.parameterTypes| == 1
      && m.name == ON_EVENT_METHOD_NAME + Suffix(mode)
      ==> r == Ok(Some(SubscriberMethod(m, mode, m.parameterTypes[0])))
    ensures && StartsWith(m.name, ON_EVENT_METHOD_NAME) && ModifiersAccepted(m.modifiers) && |m.parameterTypes| == 1
            && (forall mode: ThreadMode :: m.name != ON_EVENT_METHOD_NAME + Suffix(mode))
      ==> && (r.Err? <==> m.declaringClass !in skip)
          && (r.Err? ==> r.error == IllegalHandlerName(m.declaringClass, m.name))
          && (r.Ok? ==> r.value == None)
  {
    if !StartsWith(m.name, ON_EVENT_METHOD_NAME) then Ok(None)
    else if !ModifiersAccepted(m.modifiers) then Ok(None)   // only a log line, unless skipped
    else if |m.parameterTypes| != 1 then Ok(None)
    else
      match GetThreadMode(skip, m.declaringClass, m.name)
      case Err(e) => Err(e)
      case Ok(None) => Ok(None)
      case Ok(Some(mode)) => Ok(Some(SubscriberMethod(m, mode, m.parameterTypes[0])))
  }

  /** The shadowing key `name + '>' + eventType.getName()`. */
  function MethodKey(h: Hierarchy, sm: SubscriberMethod): string {
    sm.handlerMethod.name + ">" + Name(h, sm.eventType)
  }

  /** The handlers found so far and the `eventTypesFound` map (key -> class
      that contributed it). */
  datatype Scan = Scan(methods: seq<SubscriberMethod>, found: map<string, ClassId>)

  /** `filterSubscriberMethods` over one class's declared methods. */
  function FilterSubscriberMethods(h: Hierarchy, skip: set<ClassId>, acc: Scan, methods: seq<Method>): (r: Result<Scan>)
    ensures r.Ok? ==> |acc.methods| <= |r.value.methods| && r.value.methods[..|acc.methods|] == acc.methods
    decreases |methods|
  {
    if methods == [] then Ok(acc)
    else
      match Examine(skip, methods[0])
      case Err(e) => Err(e)
      case Ok(None) => FilterSubscriberMethods(h, skip, acc, methods[1..])
      case Ok(Some(sm)) =>
        var key := MethodKey(h, sm);
        var methodClass := methods[0].declaringClass;
        var found := acc.found[key := methodClass];
        if key !in acc.found || SubtypeOf(h, methodClass, acc.found[key]) then
          var r := FilterSubscriberMethods(h, skip, Scan(acc.methods + [sm], found), methods[1..]);
          assert r.Ok? ==> r.value.methods[..|acc.methods|] == r.value.methods[..|acc.methods| + 1][..|acc.methods|];
          r
        else
          // revert the put: the stored class lies further down the hierarchy
          FilterSubscriberMethods(h, skip, Scan(acc.methods, found[key := acc.found[key]]), methods[1..])
  }

  /** Classes whose scan is skipped, and above which the scan stops. */
  predicate IsSystemClass(name: string) {
    StartsWith(name, "java.") || StartsWith(name, "javax.") || StartsWith(name, "android.")
  }

  /** The `while (clazz != null)` loop of `findSubscriberMethods`. */
  function ScanClasses(h: Hierarchy, skip: set<ClassId>, decl: Declarations, clazz: Option<ClassId>, acc: Scan)
    : (r: Result<seq<SubscriberMethod>>)
    requires WellFormed(h)
    ensures r.Ok? ==> |acc.methods| <= |r.value| && r.value[..|acc.methods|] == acc.methods
    decreases if clazz.Some? then clazz.value + 1 else 0
  {
    match clazz
    case None => Ok(acc.methods)
    case Some(c) =>
      if IsSystemClass(Name(h, c)) then Ok(acc.methods)
      else
        match FilterSubscriberMethods(h, skip, acc, DeclaredMethods(decl, c))
        case Err(e) => Err(e)
        case Ok(next) =>
          var r := ScanClasses(h, skip, decl, Super(h, c), next);
          assert r.Ok? ==> r.value[..|acc.methods|] == r.value[..|next.methods|][..|acc.methods|];
          r
  }

  /** Discovery without the cache. */
  function Discover(h: Hierarchy, skip: set<ClassId>, decl: Declarations, subscriberClass: ClassId)
    : Result<seq<SubscriberMethod>>
    requires WellFormed(h)
  {
    ScanClasses(h, skip, decl, Some(subscriberClass), Scan([], map[]))
  }

  type MethodCache = map<ClassId, seq<SubscriberMethod>>

  datatype Found = Found(result: Result<seq<SubscriberMethod>>, cache: MethodCache)

  /** `findSubscriberMethods`: a cached list is returned as is; otherwise the
      class is scanned, an empty result is an error and is not cached, a
      non-empty one is cached. */
  function FindSubscriberMethods(h: Hierarchy, skip: set<ClassId>, decl: Declarations, cache: MethodCache,
                                 subscriberClass: ClassId): (r: Found)
    requires WellFormed(h)
    ensures subscriberClass in cache ==> r == Found(Ok(cache[subscriberClass]), cache)
    ensures subscriberClass !in cache && r.result.Ok? ==>
      r.result.value != [] && r.cache == cache[subscriberClass := r.result.value]
    ensures r.result.Err? ==> r.cache == cache
    ensures subscriberClass !in cache && Discover(h, skip, decl, subscriberClass) == Ok([]) ==>
      r.result == Err(NoHandlersFound(subscriberClass))
  {
    if subscriberClass in cache then Found(Ok(cache[subscriberClass]), cache)
    else
      match Discover(h, skip, decl, subscriberClass)
      case Err(e) => Found(Err(e), cache)
      case Ok(methods) =>
        if methods == [] then Found(Err(NoHandlersFound(subscriberClass)), cache)
        else Found(Ok(methods), cache[subscriberClass := methods])
  }

  // ---------------------------------------------------------------------------
  // The cache is transparent

  /** Every cached list is the non-empty result of scanning its class. */
  ghost predicate CacheValid(h: Hierarchy, skip: set<ClassId>, decl: Declarations, cache: MethodCache)
    requires WellFormed(h)
  {
    forall c :: c in cache ==> cache[c] != [] && Discover(h, skip, decl, c) == Ok(cache[c])
  }

  /** With a valid cache, the cached lookup answers exactly what an uncached
      scan would, and the cache stays valid. */
  lemma FindIsTransparent(h: Hierarchy, skip: set<ClassId>, decl: Declarations, cache: MethodCache, c: ClassId)
    requires WellFormed(h) && CacheValid(h, skip, decl, cache)
    ensures var r := FindSubscriberMethods(h, skip, decl, cache, c);
      && CacheValid(h, skip, decl, r.cache)
      && (r.result.Ok? <==> Discover(h, skip, decl, c).Ok? && Discover(h, skip, decl, c).value != [])
      && (r.result.Ok? ==> r.result == Discover(h, skip, decl, c))
  {
  }

  /** A second lookup of the same class returns the same result without
      touching the cache again. */
  lemma FindTwice(h: Hierarchy, skip: set<ClassId>, decl: Declarations, cache: MethodCache, c: ClassId)
    requires WellFormed(h)
    ensures var r1 := FindSubscriberMethods(h, skip, decl, cache, c);
      var r2 := FindSubscriberMethods(h, skip, decl, r1.cache, c);
      r1.result.Ok? ==> r2 == Found(r1.result, r1.cache)
  {
  }

  // ---------------------------------------------------------------------------
  // Shadowing: the scan keeps the most-derived declaration of each key

  /** Java method names never contain '>', so the key determines the method
      name and the event type's name. */
  lemma MethodKeyInjective(h: Hierarchy, a: SubscriberMethod, b: SubscriberMethod)
    requires '>' !in a.handlerMethod.name && '>' !in b.handlerMethod.name
    requires MethodKey(h, a) == MethodKey(h, b)
    ensures a.handlerMethod.name == b.handlerMethod.name && Name(h, a.eventType) == Name(h, b.eventType)
  {
    var x, y := a.handlerMethod.name, b.handlerMethod.name;
    var ka, kb := MethodKey(h, a), MethodKey(h, b);
    FirstSeparator(x, Name(h, a.eventType));
    FirstSeparator(y, Name(h, b.eventType));
    assert |x| == |y|;
    assert x == ka[..|x|] && y == kb[..|y|];
    assert Name(h, a.eventType) == ka[|x| + 1..] && Name(h, b.eventType) == kb[|y| + 1..];
  }

  /** Position of the first '>' in s (|s| when there is none). */
  function SeparatorIndex(s: string): (r: nat)
    ensures r <= |s|
  {
    if s == [] || s[0] == '>' then 0 else 1 + SeparatorIndex(s[1..])
  }

  lemma {:induction false} FirstSeparator(x: string, rest: string)
    requires '>' !in x
    ensures SeparatorIndex(x + ">" + rest) == |x|
  {
    if x != [] {
      assert (x + ">" + rest)[1..] == x[1..] + ">" + rest;
      FirstSeparator(x[1..], rest);
    }
  }

  /** The handlers a list of declared methods yields, in order (ignoring the
      illegal-name error). */
  function Handlers(skip: set<ClassId>, ms: seq<Method>): seq<SubscriberMethod> {
    if ms == [] then []
    else
      (match Examine(skip, ms[0]) case Ok(Some(sm)) => [sm] case _ => []) + Handlers(skip, ms[1..])
  }

  /** Some method of the list has an unknown thread-mode suffix in a class
      that is not on the skip list. */
  predicate HasIllegalName(skip: set<ClassId>, ms: seq<Method>) {
    exists i :: 0 <= i < |ms| && Examine(skip, ms[i]).Err?
  }

  function KeysOf(h: Hierarchy, hs: seq<SubscriberMethod>): set<string> {
    if hs == [] then {} else {MethodKey(h, hs[0])} + KeysOf(h, hs[1..])
  }

  /** The handlers whose key has not been seen yet. */
  function Unseen(h: Hierarchy, hs: seq<SubscriberMethod>, seen: set<string>): seq<SubscriberMethod> {
    if hs == [] then []
    else (if MethodKey(h, hs[0]) in seen then [] else [hs[0]]) + Unseen(h, hs[1..], seen)
  }

  /** The classes the scan visits: the subscriber class and its superclasses,
      up to (not including) the first system class. */
  function ScanChain(h: Hierarchy, clazz: Option<ClassId>): seq<ClassId>
    requires WellFormed(h)
    decreases if clazz.Some? then clazz.value + 1 else 0
  {
    match clazz
    case None => []
    case Some(c) => if IsSystemClass(Name(h, c)) then [] else [c] + ScanChain(h, Super(h, c))
  }

  /** Reference definition of the scan result: walking the chain subclass
      first, keep a class's handler unless an earlier (more derived) class
      already declared a handler with the same key. */
  function Shadowing(h: Hierarchy, skip: set<ClassId>, decl: Declarations, chain: seq<ClassId>, seen: set<string>)
    : seq<SubscriberMethod>
  {
    if chain == [] then []
    else
      var hs := Handlers(skip, DeclaredMethods(decl, chain[0]));
      Unseen(h, hs, seen) + Shadowing(h, skip, decl, chain[1..], seen + KeysOf(h, hs))
  }

  /** Handlers of class k that `filterSubscriberMethods` keeps given the map
      it starts from: those whose key is not stored for a more derived class. */
  function Unshadowed(h: Hierarchy, hs: seq<SubscriberMethod>, found: map<string, ClassId>, k: ClassId)
    : seq<SubscriberMethod>
  {
    if hs == [] then []
    else
      var key := MethodKey(h, hs[0]);
      (if key in found && found[key] > k then [] else [hs[0]]) + Unshadowed(h, hs[1..], found, k)
  }

  lemma {:induction false} UnshadowedSame(h: Hierarchy, hs: seq<SubscriberMethod>, f1: map<string, ClassId>,
                                          f2: map<string, ClassId>, k: ClassId)
    requires forall key :: (key in f1 && f1[key] > k) <==> (key in f2 && f2[key] > k)
    ensures Unshadowed(h, hs, f1, k) == Unshadowed(h, hs, f2, k)
  {
    if hs != [] {
      UnshadowedSame(h, hs[1..], f1, f2, k);
    }
  }

  lemma {:induction false} UnshadowedIsUnseen(h: Hierarchy, hs: seq<SubscriberMethod>, found: map<string, ClassId>, k: ClassId)
    requires forall key :: key in found ==> found[key] > k
    ensures Unshadowed(h, hs, found, k) == Unseen(h, hs, found.Keys)
  {
    if hs != [] {
      UnshadowedIsUnseen(h, hs[1..], found, k);
    }
  }

  /** One step of the filter over a method that yields handler sm: the
      handler is added, or the put is reverted. */
  lemma FilterStep(h: Hierarchy, skip: set<ClassId>, acc: Scan, ms: seq<Method>, sm: SubscriberMethod)
    requires ms != [] && Examine(skip, ms[0]) == Ok(Some(sm))
    ensures var key := MethodKey(h, sm);
      var k := ms[0].declaringClass;
      FilterSubscriberMethods(h, skip, acc, ms)
      == if key !in acc.found || SubtypeOf(h, k, acc.found[key])
         then FilterSubscriberMethods(h, skip, Scan(acc.methods + [sm], acc.found[key := k]), ms[1..])
         else FilterSubscriberMethods(h, skip, acc, ms[1..])
  {
    var key := MethodKey(h, sm);
    if key in acc.found && !SubtypeOf(h, ms[0].declaringClass, acc.found[key]) {
      assert acc.found[key := ms[0].declaringClass][key := acc.found[key]] == acc.found;
    }
  }

  /** One class's filter, when no method has an illegal name, appends the
      handlers not shadowed by a more derived class. */
  lemma {:induction false} FilterKeepsUnshadowed(h: Hierarchy, skip: set<ClassId>, acc: Scan, ms: seq<Method>, k: ClassId)
    requires forall i :: 0 <= i < |ms| ==> ms[i].declaringClass == k
    requires forall key :: key in acc.found ==> acc.found[key] >= k
    requires !HasIllegalName(skip, ms)
    ensures var r := FilterSubscriberMethods(h, skip, acc, ms);
      r.Ok? && r.value.methods == acc.methods + Unshadowed(h, Handlers(skip, ms), acc.found, k)
    decreases |ms|, 1
  {
    if ms == [] {
      assert acc.methods + [] == acc.methods;
    } else {
      NoIllegalNameInTail(skip, ms);
      if Examine(skip, ms[0]) == Ok(None) {
        var rest := ms[1..];
        assert Handlers(skip, ms) == Handlers(skip, rest);
        assert FilterSubscriberMethods(h, skip, acc, ms) == FilterSubscriberMethods(h, skip, acc, rest);
        FilterKeepsUnshadowed(h, skip, acc, rest, k);
      } else {
        FilterKeepsUnshadowedHandler(h, skip, acc, ms, k, Examine(skip, ms[0]).value.value);
      }
    }
  }

  /** The step of FilterKeepsUnshadowed for a method that yields a handler. */
  lemma {:induction false} FilterKeepsUnshadowedHandler(h: Hierarchy, skip: set<ClassId>, acc: Scan, ms: seq<Method>,
                                                        k: ClassId, sm: SubscriberMethod)
    requires ms != [] && Examine(skip, ms[0]) == Ok(Some(sm))
    requires forall i :: 0 <= i < |ms| ==> ms[i].declaringClass == k
    requires forall key :: key in acc.found ==> acc.found[key] >= k
    requires !HasIllegalName(skip, ms[1..])
    ensures var r := FilterSubscriberMethods(h, skip, acc, ms);
      r.Ok? && r.value.methods == acc.methods + Unshadowed(h, Handlers(skip, ms), acc.found, k)
    decreases |ms|, 0
  {
    var rest := ms[1..];
    var key := MethodKey(h, sm);
    var hs := Handlers(skip, rest);
    assert Handlers(skip, ms) == [sm] + hs;
    assert ms[0].declaringClass == k;
    FilterStep(h, skip, acc, ms, sm);
    UnshadowedCons(h, sm, hs, acc.found, k);
    assert forall i :: 0 <= i < |rest| ==> rest[i].declaringClass == k;
    if key !in acc.found || SubtypeOf(h, k, acc.found[key]) {
      if key in acc.found && acc.found[key] != k {
        SubtypeIdBound(h, k, acc.found[key]);
      }
      FilterKeepsAccepted(h, skip, acc, rest, k, sm);
    } else {
      FilterKeepsRejected(h, skip, acc, rest, k, sm);
    }
  }

  /** The rest of the filter after handler sm of class k was rejected. */
  lemma {:induction false} FilterKeepsRejected(h: Hierarchy, skip: set<ClassId>, acc: Scan, rest: seq<Method>,
                                               k: ClassId, sm: SubscriberMethod)
    requires forall i :: 0 <= i < |rest| ==> rest[i].declaringClass == k
    requires forall key :: key in acc.found ==> acc.found[key] >= k
    requires !HasIllegalName(skip, rest)
    requires MethodKey(h, sm) in acc.found && !SubtypeOf(h, k, acc.found[MethodKey(h, sm)])
    ensures var r := FilterSubscriberMethods(h, skip, acc, rest);
      r.Ok? && r.value.methods == acc.methods + ([] + Unshadowed(h, Handlers(skip, rest), acc.found, k))
    decreases |rest|, 2
  {
    FilterKeepsUnshadowed(h, skip, acc, rest, k);
    assert [] + Unshadowed(h, Handlers(skip, rest), acc.found, k) == Unshadowed(h, Handlers(skip, rest), acc.found, k);
  }

  /** The rest of the filter after handler sm of class k was accepted. */
  lemma {:induction false} FilterKeepsAccepted(h: Hierarchy, skip: set<ClassId>, acc: Scan, rest: seq<Method>,
                                               k: ClassId, sm: SubscriberMethod)
    requires forall i :: 0 <= i < |rest| ==> rest[i].declaringClass == k
    requires forall key :: key in acc.found ==> acc.found[key] >= k
    requires !HasIllegalName(skip, rest)
    requires !(MethodKey(h, sm) in acc.found && acc.found[MethodKey(h, sm)] > k)
    ensures var r := FilterSubscriberMethods(h, skip, Scan(acc.methods + [sm], acc.found[MethodKey(h, sm) := k]), rest);
      r.Ok? && r.value.methods == acc.methods + ([sm] + Unshadowed(h, Handlers(skip, rest), acc.found, k))
    decreases |rest|, 2
  {
    var found := acc.found[MethodKey(h, sm) := k];
    var tail := Unshadowed(h, Handlers(skip, rest), acc.found, k);
    FilterKeepsUnshadowed(h, skip, Scan(acc.methods + [sm], found), rest, k);
    UnshadowedSame(h, Handlers(skip, rest), found, acc.found, k);
    AppendAssoc(acc.methods, [sm], tail);
  }

  lemma UnshadowedCons(h: Hierarchy, sm: SubscriberMethod, hs: seq<SubscriberMethod>, found: map<string, ClassId>, k: ClassId)
    ensures var key := MethodKey(h, sm);
      Unshadowed(h, [sm] + hs, found, k)
      == (if key in found && found[key] > k then [] else [sm]) + Unshadowed(h, hs, found, k)
  {
    assert ([sm] + hs)[1..] == hs;
  }

  /** One class's filter, when no method has an illegal name, records the
      key of every handler of the class and never overwrites the class stored
      for a more derived class. */
  lemma {:induction false} FilterRecordsKeys(h: Hierarchy, skip: set<ClassId>, acc: Scan, ms: seq<Method>, k: ClassId)
    requires forall i :: 0 <= i < |ms| ==> ms[i].declaringClass == k
    requires forall key :: key in acc.found ==> acc.found[key] >= k
    requires !HasIllegalName(skip, ms)
    ensures var r := FilterSubscriberMethods(h, skip, acc, ms);
      && r.Ok?
      && r.value.found.Keys == acc.found.Keys + KeysOf(h, Handlers(skip, ms))
      && (forall key :: key in r.value.found ==> r.value.found[key] >= k)
      && (forall key :: key in acc.found && acc.found[key] > k ==> r.value.found[key] == acc.found[key])
    decreases |ms|, 1
  {
    if ms != [] {
      var m := ms[0];
      var rest := ms[1..];
      NoIllegalNameInTail(skip, ms);
      match Examine(skip, m)
      case Ok(None) =>
        assert Handlers(skip, ms) == Handlers(skip, rest);
        FilterRecordsKeys(h, skip, acc, rest, k);
      case Ok(Some(sm)) =>
        FilterRecordsHandler(h, skip, acc, ms, k, sm);
    }
  }

  /** The step of FilterRecordsKeys for a method that yields a handler. */
  lemma {:induction false} FilterRecordsHandler(h: Hierarchy, skip: set<ClassId>, acc: Scan, ms: seq<Method>,
                                                k: ClassId, sm: SubscriberMethod)
    requires ms != [] && Examine(skip, ms[0]) == Ok(Some(sm))
    requires forall i :: 0 <= i < |ms| ==> ms[i].declaringClass == k
    requires forall key :: key in acc.found ==> acc.found[key] >= k
    requires !HasIllegalName(skip, ms[1..])
    ensures var r := FilterSubscriberMethods(h, skip, acc, ms);
      && r.Ok?
      && r.value.found.Keys == acc.found.Keys + KeysOf(h, Handlers(skip, ms))
      && (forall key :: key in r.value.found ==> r.value.found[key] >= k)
      && (forall key :: key in acc.found && acc.found[key] > k ==> r.value.found[key] == acc.found[key])
    decreases |ms|, 0
  {
    var rest := ms[1..];
    var key := MethodKey(h, sm);
    var found := acc.found[key := k];
    var hs := Handlers(skip, rest);
    assert Handlers(skip, ms) == [sm] + hs;
    assert ([sm] + hs)[1..] == hs;
    assert KeysOf(h, [sm] + hs) == {key} + KeysOf(h, hs);
    assert ms[0].declaringClass == k;
    assert forall i :: 0 <= i < |rest| ==> rest[i].declaringClass == k;
    FilterStep(h, skip, acc, ms, sm);
    if key !in acc.found || SubtypeOf(h, k, acc.found[key]) {
      if key in acc.found && acc.found[key] != k {
        SubtypeIdBound(h, k, acc.found[key]);
      }
      FilterRecordsAccepted(h, skip, acc, rest, k, sm);
    } else {
      FilterRecordsKeys(h, skip, acc, rest, k);
    }
  }

  /** The keys recorded after handler sm of class k was accepted. */
  lemma {:induction false} FilterRecordsAccepted(h: Hierarchy, skip: set<ClassId>, acc: Scan, rest: seq<Method>,
                                                 k: ClassId, sm: SubscriberMethod)
    requires forall i :: 0 <= i < |rest| ==> rest[i].declaringClass == k
    requires forall key :: key in acc.found ==> acc.found[key] >= k
    requires !HasIllegalName(skip, rest)
    requires !(MethodKey(h, sm) in acc.found && acc.found[MethodKey(h, sm)] > k)
    ensures var r := FilterSubscriberMethods(h, skip, Scan(acc.methods + [sm], acc.found[MethodKey(h, sm) := k]), rest);
      && r.Ok?
      && r.value.found.Keys == acc.found.Keys + ({MethodKey(h, sm)} + KeysOf(h, Handlers(skip, rest)))
      && (forall key :: key in r.value.found ==> r.value.found[key] >= k)
      && (forall key :: key in acc.found && acc.found[key] > k ==> r.value.found[key] == acc.found[key])
    decreases |rest|, 2
  {
    var found := acc.found[MethodKey(h, sm) := k];
    FilterRecordsKeys(h, skip, Scan(acc.methods + [sm], found), rest, k);
  }

  lemma NoIllegalNameInTail(skip: set<ClassId>, ms: seq<Method>)
    requires ms != [] && !HasIllegalName(skip, ms)
    ensures !Examine(skip, ms[0]).Err? && !HasIllegalName(skip, ms[1..])
  {
    var rest := ms[1..];
    forall i | 0 <= i < |rest| ensures !Examine(skip, rest[i]).Err? {
      assert rest[i] == ms[i + 1];
    }
  }

  /** One class's filter fails exactly when one of its methods has an
      illegal name. */
  lemma {:induction false} FilterFails(h: Hierarchy, skip: set<ClassId>, acc: Scan, ms: seq<Method>)
    ensures FilterSubscriberMethods(h, skip, acc, ms).Err? <==> HasIllegalName(skip, ms)
    decreases |ms|
  {
    if ms != [] {
      var m := ms[0];
      var rest := ms[1..];
      assert HasIllegalName(skip, ms) <==> Examine(skip, m).Err? || HasIllegalName(skip, rest) by {
        if HasIllegalName(skip, ms) && !Examine(skip, m).Err? {
          var i :| 0 <= i < |ms| && Examine(skip, ms[i]).Err?;
          assert rest[i - 1] == ms[i];
        }
        if HasIllegalName(skip, rest) {
          var i :| 0 <= i < |rest| && Examine(skip, rest[i]).Err?;
          assert ms[i + 1] == rest[i];
        }
      }
      match Examine(skip, m)
      case Err(_) =>
      case Ok(None) =>
        FilterFails(h, skip, acc, rest);
      case Ok(Some(sm)) =>
        var key := MethodKey(h, sm);
        var found := acc.found[key := m.declaringClass];
        if key !in acc.found || SubtypeOf(h, m.declaringClass, acc.found[key]) {
          FilterFails(h, skip, Scan(acc.methods + [sm], found), rest);
        } else {
          FilterFails(h, skip, Scan(acc.methods, found[key := acc.found[key]]), rest);
        }
    }
  }

  /** Some class the scan visits declares an illegal handler name. */
  predicate ChainHasIllegalName(skip: set<ClassId>, decl: Declarations, chain: seq<ClassId>) {
    exists i :: 0 <= i < |chain| && HasIllegalName(skip, DeclaredMethods(decl, chain[i]))
  }

  lemma ChainIllegalStep(skip: set<ClassId>, decl: Declarations, c: ClassId, rest: seq<ClassId>)
    ensures ChainHasIllegalName(skip, decl, [c] + rest)
        <==> HasIllegalName(skip, DeclaredMethods(decl, c)) || ChainHasIllegalName(skip, decl, rest)
  {
    var chain := [c] + rest;
    if ChainHasIllegalName(skip, decl, rest) {
      var i :| 0 <= i < |rest| && HasIllegalName(skip, DeclaredMethods(decl, rest[i]));
      assert chain[i + 1] == rest[i];
    }
    if ChainHasIllegalName(skip, decl, chain) && !HasIllegalName(skip, DeclaredMethods(decl, c)) {
      var i :| 0 <= i < |chain| && HasIllegalName(skip, DeclaredMethods(decl, chain[i]));
      assert rest[i - 1] == chain[i];
    }
  }

  /** The scan fails exactly when a visited class declares an illegal name. */
  lemma {:induction false} ScanClassesFails(h: Hierarchy, skip: set<ClassId>, decl: Declarations,
                                            clazz: Option<ClassId>, acc: Scan)
    requires WellFormed(h)
    ensures ScanClasses(h, skip, decl, clazz, acc).Err? <==> ChainHasIllegalName(skip, decl, ScanChain(h, clazz))
    decreases if clazz.Some? then clazz.value + 1 else 0
  {
    if clazz.Some? && !IsSystemClass(Name(h, clazz.value)) {
      var c := clazz.value;
      var rest := ScanChain(h, Super(h, c));
      var ms := DeclaredMethods(decl, c);
      FilterFails(h, skip, acc, ms);
      ChainIllegalStep(skip, decl, c, rest);
      match FilterSubscriberMethods(h, skip, acc, ms)
      case Err(_) =>
      case Ok(next) =>
        ScanStep(h, skip, decl, c, acc, next);
        ScanClassesFails(h, skip, decl, Super(h, c), next);
    }
  }

  /** One step of the scan over a class that is not a system class. */
  lemma ScanStep(h: Hierarchy, skip: set<ClassId>, decl: Declarations, c: ClassId, acc: Scan, next: Scan)
    requires WellFormed(h) && !IsSystemClass(Name(h, c))
    requires FilterSubscriberMethods(h, skip, acc, DeclaredMethods(decl, c)) == Ok(next)
    ensures ScanClasses(h, skip, decl, Some(c), acc) == ScanClasses(h, skip, decl, Super(h, c), next)
    ensures ScanChain(h, Some(c)) == [c] + ScanChain(h, Super(h, c))
  {
  }

  /** One step of the reference definition. */
  lemma ShadowingStep(h: Hierarchy, skip: set<ClassId>, decl: Declarations, c: ClassId, rest: seq<ClassId>,
                      seen: set<string>)
    ensures var hs := Handlers(skip, DeclaredMethods(decl, c));
      Shadowing(h, skip, decl, [c] + rest, seen)
      == Unseen(h, hs, seen) + Shadowing(h, skip, decl, rest, seen + KeysOf(h, hs))
  {
    assert ([c] + rest)[1..] == rest;
  }

  /** The scan computes the reference shadowing result when no visited class
      declares an illegal name. */
  lemma {:induction false} ScanClassesIsShadowing(h: Hierarchy, skip: set<ClassId>, decl: Declarations,
                                                  clazz: Option<ClassId>, acc: Scan)
    requires WellFormed(h) && DeclarationsWellFormed(decl)
    requires clazz.Some? ==> forall key :: key in acc.found ==> acc.found[key] > clazz.value
    requires !ChainHasIllegalName(skip, decl, ScanChain(h, clazz))
    ensures ScanClasses(h, skip, decl, clazz, acc)
         == Ok(acc.methods + Shadowing(h, skip, decl, ScanChain(h, clazz), acc.found.Keys))
    decreases if clazz.Some? then clazz.value + 1 else 0
  {
    if clazz.Some? && !IsSystemClass(Name(h, clazz.value)) {
      var c := clazz.value;
      var rest := ScanChain(h, Super(h, c));
      var ms := DeclaredMethods(decl, c);
      ChainIllegalStep(skip, decl, c, rest);
      var hs := Handlers(skip, ms);
      FilterKeepsUnshadowed(h, skip, acc, ms, c);
      FilterRecordsKeys(h, skip, acc, ms, c);
      UnshadowedIsUnseen(h, hs, acc.found, c);
      var next := FilterSubscriberMethods(h, skip, acc, ms).value;
      ScanStep(h, skip, decl, c, acc, next);
      if Super(h, c).Some? {
        assert h.superclass[c] < c;
      }
      ScanClassesIsShadowing(h, skip, decl, Super(h, c), next);
      ShadowingStep(h, skip, decl, c, rest, acc.found.Keys);
      var u := Unseen(h, hs, acc.found.Keys);
      var tail := Shadowing(h, skip, decl, rest, acc.found.Keys + KeysOf(h, hs));
      AppendAssoc(acc.methods, u, tail);
    } else {
      assert acc.methods + [] == acc.methods;
    }
  }

  // ---------------------------------------------------------------------------
  // Properties of the reference result

  lemma {:induction false} HandlersDeclaredBy(skip: set<ClassId>, ms: seq<Method>, k: ClassId)
    requires forall i :: 0 <= i < |ms| ==> ms[i].declaringClass == k
    ensures forall j :: 0 <= j < |Handlers(skip, ms)| ==> Handlers(skip, ms)[j].handlerMethod.declaringClass == k
  {
    if ms != [] {
      HandlersDeclaredBy(skip, ms[1..], k);
    }
  }

  lemma {:induction false} UnseenSpec(h: Hierarchy, hs: seq<SubscriberMethod>, seen: set<string>)
    ensures forall j :: 0 <= j < |Unseen(h, hs, seen)| ==>
      Unseen(h, hs, seen)[j] in hs && MethodKey(h, Unseen(h, hs, seen)[j]) !in seen
      && MethodKey(h, Unseen(h, hs, seen)[j]) in KeysOf(h, hs)
  {
    if hs != [] {
      UnseenSpec(h, hs[1..], seen);
      var u := Unseen(h, hs, seen);
      var tail := Unseen(h, hs[1..], seen);
      forall j | 0 <= j < |u|
        ensures u[j] in hs && MethodKey(h, u[j]) !in seen && MethodKey(h, u[j]) in KeysOf(h, hs)
      {
        if MethodKey(h, hs[0]) !in seen && j == 0 {
        } else {
          var t := if MethodKey(h, hs[0]) in seen then j else j - 1;
          assert u[j] == tail[t];
        }
      }
    }
  }

  /** Shape of the reference result: every kept handler comes from a visited
      class (the subscriber class or one of its superclasses), its key was not
      seen before, a handler of a more derived class precedes one of a less
      derived class, and two kept handlers with the same key come from the
      same class — so only the most-derived declaration of a key is kept. */
  ghost predicate ShadowingShape(h: Hierarchy, c: ClassId, r: seq<SubscriberMethod>, seen: set<string>) {
    && (forall j :: 0 <= j < |r| ==> SubtypeOf(h, c, r[j].handlerMethod.declaringClass))
    && (forall j :: 0 <= j < |r| ==> MethodKey(h, r[j]) !in seen)
    && (forall i, j :: 0 <= i < j < |r| ==>
          SubtypeOf(h, r[i].handlerMethod.declaringClass, r[j].handlerMethod.declaringClass))
    && (forall i, j :: 0 <= i < |r| && 0 <= j < |r| && MethodKey(h, r[i]) == MethodKey(h, r[j]) ==>
          r[i].handlerMethod.declaringClass == r[j].handlerMethod.declaringClass)
  }

  /** A shape stated for a superclass also holds for its subclass. */
  lemma ShapeForSubclass(h: Hierarchy, c: ClassId, p: ClassId, r: seq<SubscriberMethod>, seen: set<string>)
    requires SubtypeOf(h, c, p) && ShadowingShape(h, p, r, seen)
    ensures ShadowingShape(h, c, r, seen)
  {
    forall j | 0 <= j < |r| ensures SubtypeOf(h, c, r[j].handlerMethod.declaringClass) {
      SubtypeTransitive(h, c, p, r[j].handlerMethod.declaringClass);
    }
  }

  /** The handlers of class c put in front of a result for its superclasses,
      whose keys avoid those of c, keep the shape. */
  lemma ShapeAppend(h: Hierarchy, c: ClassId, u: seq<SubscriberMethod>, tail: seq<SubscriberMethod>,
                    seen: set<string>, extra: set<string>)
    requires forall j :: 0 <= j < |u| ==>
      u[j].handlerMethod.declaringClass == c && MethodKey(h, u[j]) !in seen && MethodKey(h, u[j]) in extra
    requires ShadowingShape(h, c, tail, seen + extra)
    ensures ShadowingShape(h, c, u + tail, seen)
  {
    var r := u + tail;
    assert forall j :: |u| <= j < |r| ==> r[j] == tail[j - |u|];
    assert forall j :: 0 <= j < |r| ==> SubtypeOf(h, c, r[j].handlerMethod.declaringClass) by {
      forall j | 0 <= j < |r| ensures SubtypeOf(h, c, r[j].handlerMethod.declaringClass) {
        if j < |u| {
          assert SubtypeOf(h, c, c);
        }
      }
    }
    assert forall i, j :: 0 <= i < j < |r| ==>
      SubtypeOf(h, r[i].handlerMethod.declaringClass, r[j].handlerMethod.declaringClass) by {
      forall i, j | 0 <= i < j < |r|
        ensures SubtypeOf(h, r[i].handlerMethod.declaringClass, r[j].handlerMethod.declaringClass)
      {
        if j < |u| {
          assert SubtypeOf(h, c, c);
        }
      }
    }
    assert forall i, j :: 0 <= i < |r| && 0 <= j < |r| && MethodKey(h, r[i]) == MethodKey(h, r[j]) ==>
      r[i].handlerMethod.declaringClass == r[j].handlerMethod.declaringClass by {
      forall i, j | 0 <= i < |r| && 0 <= j < |r| && MethodKey(h, r[i]) == MethodKey(h, r[j])
        ensures r[i].handlerMethod.declaringClass == r[j].handlerMethod.declaringClass
      {
        if i < |u| && |u| <= j {
          assert false;
        } else if j < |u| && |u| <= i {
          assert false;
        }
      }
    }
  }

  lemma {:induction false} ShadowingHasShape(h: Hierarchy, skip: set<ClassId>, decl: Declarations,
                                             clazz: Option<ClassId>, seen: set<string>)
    requires WellFormed(h) && DeclarationsWellFormed(decl) && clazz.Some?
    ensures ShadowingShape(h, clazz.value, Shadowing(h, skip, decl, ScanChain(h, clazz), seen), seen)
    decreases clazz.value
  {
    var c := clazz.value;
    if !IsSystemClass(Name(h, c)) {
      var rest := ScanChain(h, Super(h, c));
      assert ScanChain(h, clazz) == [c] + rest;
      var hs := Handlers(skip, DeclaredMethods(decl, c));
      var u := Unseen(h, hs, seen);
      var extra := KeysOf(h, hs);
      var tail := Shadowing(h, skip, decl, rest, seen + extra);
      assert Shadowing(h, skip, decl, ScanChain(h, clazz), seen) == u + tail;
      HandlersDeclaredBy(skip, DeclaredMethods(decl, c), c);
      UnseenSpec(h, hs, seen);
      if Super(h, c).Some? {
        var p := h.superclass[c];
        ShadowingHasShape(h, skip, decl, Some(p), seen + extra);
        assert SubtypeOf(h, p, p);
        ShapeForSubclass(h, c, p, tail, seen + extra);
      } else {
        assert tail == [];
      }
      ShapeAppend(h, c, u, tail, seen, extra);
    }
  }

  /** `findSubscriberMethods` without the cache: it fails with the
      illegal-name error exactly when a visited class declares such a name;
      otherwise it returns the reference shadowing result, whose handlers come
      from the subscriber class and its superclasses, subclass handlers first,
      one declaring class per key. */
  lemma DiscoverSpec(h: Hierarchy, skip: set<ClassId>, decl: Declarations, c: ClassId)
    requires WellFormed(h) && DeclarationsWellFormed(decl)
    ensures var r := Discover(h, skip, decl, c);
      && (r.Err? <==> ChainHasIllegalName(skip, decl, ScanChain(h, Some(c))))
      && (r.Ok? ==> (r.value == Shadowing(h, skip, decl, ScanChain(h, Some(c)), {})
                     && ShadowingShape(h, c, r.value, {})))
  {
    ScanClassesFails(h, skip, decl, Some(c), Scan([], map[]));
    if !ChainHasIllegalName(skip, decl, ScanChain(h, Some(c))) {
      ScanClassesIsShadowing(h, skip, decl, Some(c), Scan([], map[]));
      var s := Shadowing(h, skip, decl, ScanChain(h, Some(c)), {});
      assert [] + s == s;
      assert Scan([], map[]).found.Keys == {};
      ShadowingHasShape(h, skip, decl, Some(c), {});
    }
  }
}
