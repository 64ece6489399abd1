/** An abstract, finite Java type hierarchy: each class id may have a
    superclass and a list of directly implemented interfaces. Acyclicity is
    expressed by numbering: every edge goes from a type to a type with a
    smaller id (any finite acyclic hierarchy can be numbered this way). */
module TypeHierarchy {
  import opened BusErrors

  type ClassId = nat

  datatype Hierarchy = Hierarchy(
    names: map<ClassId, string>,            // Class.getName()
    superclass: map<ClassId, ClassId>,      // Class.getSuperclass(), absent = null
    interfaces: map<ClassId, seq<ClassId>>, // Class.getInterfaces(), absent = none
    isInterface: set<ClassId>)

  function Name(h: Hierarchy, c: ClassId): string {
    if c in h.names then h.names[c] else ""
  }

  function Super(h: Hierarchy, c: ClassId): Option<ClassId> {
    if c in h.superclass then Some(h.superclass[c]) else None
  }

  function Interfaces(h: Hierarchy, c: ClassId): seq<ClassId> {
    if c in h.interfaces then h.interfaces[c] else []
  }

  /** Java's shape of a hierarchy: edges point to smaller ids, superclasses
      are classes, implemented types are interfaces, interfaces have no
      superclass. */
  ghost predicate WellFormed(h: Hierarchy) {
    && (forall c :: c in h.superclass ==> h.superclass[c] < c)
    && (forall c :: c in h.superclass ==> c !in h.isInterface && h.superclass[c] !in h.isInterface)
    && (forall c, k :: c in h.interfaces && 0 <= k < |h.interfaces[c]| ==>
          h.interfaces[c][k] < c && h.interfaces[c][k] in h.isInterface)
  }

  /** `sup.isAssignableFrom(sub)`: sub is sup, or reaches it through
      superclass and interface edges. The id guards make the definition
      total; on a well-formed hierarchy they always hold. */
  predicate SubtypeOf(h: Hierarchy, sub: ClassId, sup: ClassId)
    decreases sub
  {
    || sub == sup
    || (sub in h.superclass && h.superclass[sub] < sub && SubtypeOf(h, h.superclass[sub], sup))
    || (exists k :: 0 <= k < |Interfaces(h, sub)| && Interfaces(h, sub)[k] < sub
                    && SubtypeOf(h, Interfaces(h, sub)[k], sup))
  }

  /** The superclass chain starting at c (c first). */
  function Chain(h: Hierarchy, c: ClassId): (r: seq<ClassId>)
    ensures |r| > 0 && r[0] == c
    decreases c
  {
    if c in h.superclass && h.superclass[c] < c then [c] + Chain(h, h.superclass[c]) else [c]
  }

  predicate StartsWith(s: string, prefix: string) {
    |prefix| <= |s| && s[..|prefix|] == prefix
  }

  predicate NoDuplicates<T(==)>(s: seq<T>) {
    forall i, j :: 0 <= i < j < |s| ==> s[i] != s[j]
  }

  /** A supertype never has a larger id than its subtype. */
  lemma {:induction false} SubtypeIdBound(h: Hierarchy, sub: ClassId, sup: ClassId)
    requires SubtypeOf(h, sub, sup)
    ensures sup <= sub
    decreases sub
  {
    if sub == sup {
    } else if sub in h.superclass && h.superclass[sub] < sub && SubtypeOf(h, h.superclass[sub], sup) {
      SubtypeIdBound(h, h.superclass[sub], sup);
    } else {
      var k :| 0 <= k < |Interfaces(h, sub)| && Interfaces(h, sub)[k] < sub
               && SubtypeOf(h, Interfaces(h, sub)[k], sup);
      SubtypeIdBound(h, Interfaces(h, sub)[k], sup);
    }
  }

  /** Assignability is antisymmetric, so the hierarchy has no cycles. */
  lemma SubtypeAntisymmetric(h: Hierarchy, a: ClassId, b: ClassId)
    requires SubtypeOf(h, a, b) && SubtypeOf(h, b, a)
    ensures a == b
  {
    SubtypeIdBound(h, a, b);
    SubtypeIdBound(h, b, a);
  }

  /** Assignability is transitive. */
  lemma {:induction false} SubtypeTransitive(h: Hierarchy, a: ClassId, b: ClassId, c: ClassId)
    requires SubtypeOf(h, a, b) && SubtypeOf(h, b, c)
    ensures SubtypeOf(h, a, c)
    decreases a
  {
    if a == b {
    } else if a in h.superclass && h.superclass[a] < a && SubtypeOf(h, h.superclass[a], b) {
      SubtypeTransitive(h, h.superclass[a], b, c);
    } else {
      var k :| 0 <= k < |Interfaces(h, a)| && Interfaces(h, a)[k] < a
               && SubtypeOf(h, Interfaces(h, a)[k], b);
      SubtypeTransitive(h, Interfaces(h, a)[k], b, c);
    }
  }

  /** Every class of the superclass chain is a supertype of its start. */
  lemma {:induction false} ChainIsSupertypes(h: Hierarchy, c: ClassId, k: nat)
    requires k < |Chain(h, c)|
    ensures SubtypeOf(h, c, Chain(h, c)[k])
    decreases c
  {
    if k > 0 {
      var p := h.superclass[c];
      ChainIsSupertypes(h, p, k - 1);
      SubtypeTransitive(h, c, p, Chain(h, c)[k]);
    }
  }
}
