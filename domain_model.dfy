/** The domain model's base classes: value objects compared by their equality components, and
    entities compared by their identifiers. A Dafny class reference stands for a Java reference,
    so `this == o` is reference identity and a nullable reference is Java's null. */
module DomainModel {
  import opened Common

  // ---------------------------------------------------------------- value objects

  /** A value object: its runtime class and the array its getEqualityComponents returns, where
      None is a null component. A component's equals is passed to the operations as `eq`, its
      hashCode as `hash`. */
  class ValueObject<C> {
    const runtimeClass: TypeTag
    const components: seq<Option<C>>

    constructor (runtimeClass: TypeTag, components: seq<Option<C>>)
      ensures this.runtimeClass == runtimeClass && this.components == components
    {
      this.runtimeClass := runtimeClass;
      this.components := components;
    }

    /** equals: the component arrays are walked in step, and the first position where they
        disagree decides. */
    method Equals(o: ValueObject?<C>, eq: (C, Option<C>) -> bool) returns (b: bool)
      ensures b == ValueEqual(this, o, eq)
    {
      if this == o {
        return true;
      }
      if o == null || runtimeClass != o.runtimeClass {
        return false;
      }
      var these := components;
      var those := o.components;
      if |these| != |those| {
        return false;
      }
      for i := 0 to |these|
        invariant forall j :: 0 <= j < i ==> ComponentsMatch(these[j], those[j], eq)
      {
        if these[i].None? && those[i].None? {
          continue;
        }
        if these[i].None? || !eq(these[i].value, those[i]) {
          return false;
        }
      }
      return true;
    }

    /** hashCode: result := 31 * result + (the component's hash, or 0 for null), in int
        arithmetic, over the components in order. */
    method HashCode(hash: C -> Int32) returns (result: Int32)
      ensures result == HashOf(components, hash)
    {
      result := 0;
      for i := 0 to |components|
        invariant result == HashOf(components[..i], hash)
      {
        assert components[..i + 1][..i] == components[..i];
        result := Wrap32(31 * result + ComponentHash(components[i], hash));
      }
      assert components[..|components|] == components;
    }
  }

  /** Two components agree when both are null, or the left one is not null and equals the right. */
  predicate ComponentsMatch<C>(x: Option<C>, y: Option<C>, eq: (C, Option<C>) -> bool)
  {
    match x
    case None => y.None?
    case Some(c) => eq(c, y)
  }

  /** When a value object equals o: it is the same reference, or o is a value object of the same
      runtime class with as many components, agreeing at every position. */
  predicate ValueEqual<C>(a: ValueObject<C>, o: ValueObject?<C>, eq: (C, Option<C>) -> bool)
  {
    a == o ||
    (o != null && a.runtimeClass == o.runtimeClass && |a.components| == |o.components| &&
     forall i :: 0 <= i < |a.components| ==> ComponentsMatch(a.components[i], o.components[i], eq))
  }

  /** A component's contribution to the hash: its hashCode, or 0 when it is null. */
  function ComponentHash<C>(x: Option<C>, hash: C -> Int32): (h: Int32)
    ensures x.None? ==> h == 0
    ensures x.Some? ==> h == hash(x.value)
  {
    match x
    case None => 0
    case Some(c) => hash(c)
  }

  /** The hash of a component sequence: the left fold of r := 31 * r + h in int arithmetic,
      starting from 0. */
  function HashOf<C>(cs: seq<Option<C>>, hash: C -> Int32): (r: Int32)
  {
    if cs == [] then 0
    else Wrap32(31 * HashOf(cs[..|cs| - 1], hash) + ComponentHash(cs[|cs| - 1], hash))
  }

  /** The same fold over unbounded integers: sum of h_i * 31^(n-1-i). */
  function Polynomial<C>(cs: seq<Option<C>>, hash: C -> Int32): int
  {
    if cs == [] then 0
    else 31 * Polynomial(cs[..|cs| - 1], hash) + ComponentHash(cs[|cs| - 1], hash)
  }

  lemma MultipleOfModulus(k: int)
    ensures (k * 0x1_0000_0000) % 0x1_0000_0000 == 0
  {
  }

  /** Scaling and shifting two numbers congruent modulo 2^32 keeps them congruent. */
  lemma CongruenceStep(a: int, b: int, h: int)
    requires (a - b) % 0x1_0000_0000 == 0
    ensures ((31 * a + h) - (31 * b + h)) % 0x1_0000_0000 == 0
  {
    var k := (a - b) / 0x1_0000_0000;
    assert a - b == k * 0x1_0000_0000;
    assert (31 * a + h) - (31 * b + h) == (31 * k) * 0x1_0000_0000;
    MultipleOfModulus(31 * k);
  }

  /** Congruence modulo 2^32 is transitive. */
  lemma CongruenceTransitive(a: int, b: int, c: int)
    requires (a - b) % 0x1_0000_0000 == 0 && (b - c) % 0x1_0000_0000 == 0
    ensures (a - c) % 0x1_0000_0000 == 0
  {
    var k := (a - b) / 0x1_0000_0000;
    var l := (b - c) / 0x1_0000_0000;
    assert a - c == (k + l) * 0x1_0000_0000;
    MultipleOfModulus(k + l);
  }

  /** The int hash is the polynomial hash reduced modulo 2^32. */
  lemma {:induction false} HashIsPolynomialModulo<C>(cs: seq<Option<C>>, hash: C -> Int32)
    ensures (HashOf(cs, hash) - Polynomial(cs, hash)) % 0x1_0000_0000 == 0
  {
    if cs != [] {
      var p := cs[..|cs| - 1];
      var h := ComponentHash(cs[|cs| - 1], hash);
      var folded := 31 * HashOf(p, hash) + h;
      assert HashOf(cs, hash) == Wrap32(folded);
      assert Polynomial(cs, hash) == 31 * Polynomial(p, hash) + h;
      HashIsPolynomialModulo(p, hash);
      CongruenceStep(HashOf(p, hash), Polynomial(p, hash), h);
      CongruenceTransitive(HashOf(cs, hash), folded, Polynomial(cs, hash));
    }
  }

  /** Component sequences whose hashes agree position by position have the same hash. */
  lemma {:induction false} HashDependsOnComponentHashes<C>(cs: seq<Option<C>>, ds: seq<Option<C>>, hash: C -> Int32)
    requires |cs| == |ds|
    requires forall i :: 0 <= i < |cs| ==> ComponentHash(cs[i], hash) == ComponentHash(ds[i], hash)
    ensures HashOf(cs, hash) == HashOf(ds, hash)
  {
    if cs != [] {
      HashDependsOnComponentHashes(cs[..|cs| - 1], ds[..|ds| - 1], hash);
    }
  }

  /** A component equals consistent with hashCode: equal components hash alike, and a component
      equal to null hashes like null. */
  ghost predicate HashConsistent<C(!new)>(eq: (C, Option<C>) -> bool, hash: C -> Int32)
  {
    forall c, y :: eq(c, y) ==> hash(c) == ComponentHash(y, hash)
  }

  /** Equal value objects have equal hash codes when the components' equals and hashCode agree. */
  lemma EqualValuesHashAlike<C(!new)>(a: ValueObject<C>, b: ValueObject<C>, eq: (C, Option<C>) -> bool, hash: C -> Int32)
    requires HashConsistent(eq, hash)
    requires ValueEqual(a, b, eq)
    ensures HashOf(a.components, hash) == HashOf(b.components, hash)
  {
    if a != b {
      forall i | 0 <= i < |a.components|
        ensures ComponentHash(a.components[i], hash) == ComponentHash(b.components[i], hash)
      {
        assert ComponentsMatch(a.components[i], b.components[i], eq);
      }
      HashDependsOnComponentHashes(a.components, b.components, hash);
    }
  }

  /** An object equals itself, and never equals null. */
  lemma ValueEqualityReflexive<C>(a: ValueObject<C>, eq: (C, Option<C>) -> bool)
    ensures ValueEqual(a, a, eq)
    ensures !ValueEqual(a, null, eq)
  {
  }

  /** Distinct objects of different runtime classes, or with component arrays of different
      lengths, are never equal. */
  lemma ShapeMismatchIsUnequal<C>(a: ValueObject<C>, b: ValueObject<C>, eq: (C, Option<C>) -> bool)
    requires a != b
    requires a.runtimeClass != b.runtimeClass || |a.components| != |b.components|
    ensures !ValueEqual(a, b, eq)
  {
  }

  /** Distinct objects are equal exactly when they have the same class, and at each position
      either both components are null or they are equal. A null on the left against a
      component on the right is a difference. */
  lemma ComponentwiseEquality<C>(a: ValueObject<C>, b: ValueObject<C>, eq: (C, Option<C>) -> bool)
    requires a != b
    ensures ValueEqual(a, b, eq) <==>
      a.runtimeClass == b.runtimeClass && |a.components| == |b.components| &&
      forall i :: 0 <= i < |a.components| ==>
        (a.components[i].None? && b.components[i].None?) ||
        (a.components[i].Some? && eq(a.components[i].value, b.components[i]))
  {
  }

  /** With a symmetric component equals that never equals null, value equality is symmetric. */
  lemma ValueEqualitySymmetric<C(!new)>(a: ValueObject<C>, b: ValueObject<C>, eq: (C, Option<C>) -> bool)
    requires forall c, d :: eq(c, Some(d)) == eq(d, Some(c))
    requires forall c :: !eq(c, None)
    requires ValueEqual(a, b, eq)
    ensures ValueEqual(b, a, eq)
  {
    if a != b {
      forall i | 0 <= i < |b.components|
        ensures ComponentsMatch(b.components[i], a.components[i], eq)
      {
        assert ComponentsMatch(a.components[i], b.components[i], eq);
      }
    }
  }

  // ---------------------------------------------------------------- entities

  /** An entity: its runtime class and the identifier getId returns, None when it is null.
      The identifier's equals is passed as `eq`, its hashCode as `hash`. */
  class BaseEntity<ID> {
    const runtimeClass: TypeTag
    const id: Option<ID>

    constructor (runtimeClass: TypeTag, id: Option<ID>)
      ensures this.runtimeClass == runtimeClass && this.id == id
    {
      this.runtimeClass := runtimeClass;
      this.id := id;
    }

    /** equals: the same reference, or an entity of the same class whose identifier, like this
        one's, is set and equal. */
    function Equals(o: BaseEntity?<ID>, eq: (ID, ID) -> bool): (b: bool)
      ensures this == o ==> b
      ensures o == null || runtimeClass != o.runtimeClass ==> !b
      ensures this != o && (id.None? || (o != null && o.id.None?)) ==> !b
      ensures this != o && o != null && runtimeClass == o.runtimeClass && id.Some? && o.id.Some? ==>
        (b <==> eq(id.value, o.id.value))
    {
      if this == o then true
      else if o == null || runtimeClass != o.runtimeClass then false
      else if id.None? || o.id.None? then false
      else eq(id.value, o.id.value)
    }

    /** hashCode: the identifier's hash, or 0 while it is null. */
    function HashCode(hash: ID -> Int32): (h: Int32)
      ensures id.None? ==> h == 0
      ensures id.Some? ==> h == hash(id.value)
    {
      match id
      case None => 0
      case Some(v) => hash(v)
    }
  }

  /** Entities that are equal have equal hash codes when the identifiers' equals and hashCode
      agree. */
  lemma EqualEntitiesHashAlike<ID(!new)>(a: BaseEntity<ID>, b: BaseEntity<ID>, eq: (ID, ID) -> bool, hash: ID -> Int32)
    requires forall x, y :: eq(x, y) ==> hash(x) == hash(y)
    requires a.Equals(b, eq)
    ensures a.HashCode(hash) == b.HashCode(hash)
  {
  }

  /** Two distinct entities with null identifiers are different: an unsaved entity equals only
      itself. */
  lemma UnsavedEntitiesDiffer<ID>(a: BaseEntity<ID>, b: BaseEntity<ID>, eq: (ID, ID) -> bool)
    requires a != b && a.id.None?
    ensures !a.Equals(b, eq) && !b.Equals(a, eq)
  {
  }

  /** Entity equality is symmetric and transitive when identifier equality is. */
  lemma EntityEqualityIsEquivalence<ID(!new)>(a: BaseEntity<ID>, b: BaseEntity<ID>, c: BaseEntity<ID>, eq: (ID, ID) -> bool)
    requires forall x, y :: eq(x, y) ==> eq(y, x)
    requires forall x, y, z :: eq(x, y) && eq(y, z) ==> eq(x, z)
    ensures a.Equals(b, eq) ==> b.Equals(a, eq)
    ensures a.Equals(b, eq) && b.Equals(c, eq) ==> a.Equals(c, eq)
  {
  }
}
