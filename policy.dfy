/** Domain policies: the Specification predicate algebra, in both its interface-default and its
    CompositeSpecification forms, and business-rule validation. */
module Policy {
  import opened Common
  import opened DomainErrors

  /** A specification over entities of type T.
      Custom is a hand-written specification: its isSatisfiedBy test, and whether its class
      extends CompositeSpecification (so that its and/or/not build the composite classes) or
      implements the interface directly (so that they are the interface's default lambdas).
      AndSpecification, OrSpecification and NotSpecification are CompositeSpecification's nested
      classes; DefaultAnd, DefaultOr and DefaultNot are the lambdas of the interface's default
      methods; AlwaysSpec and NeverSpec are the lambdas of always() and never(). */
  datatype Spec<!T(!new)> =
    | Custom(test: T -> bool, composite: bool)
    | AndSpecification(left: Spec<T>, right: Spec<T>)
    | OrSpecification(left: Spec<T>, right: Spec<T>)
    | NotSpecification(spec: Spec<T>)
    | DefaultAnd(left: Spec<T>, right: Spec<T>)
    | DefaultOr(left: Spec<T>, right: Spec<T>)
    | DefaultNot(spec: Spec<T>)
    | AlwaysSpec
    | NeverSpec
  {
    predicate IsSatisfiedBy(entity: T)
    {
      match this
      case Custom(test, _) => test(entity)
      case AndSpecification(l, r) => l.IsSatisfiedBy(entity) && r.IsSatisfiedBy(entity)
      case OrSpecification(l, r) => l.IsSatisfiedBy(entity) || r.IsSatisfiedBy(entity)
      case NotSpecification(s) => !s.IsSatisfiedBy(entity)
      case DefaultAnd(l, r) => l.IsSatisfiedBy(entity) && r.IsSatisfiedBy(entity)
      case DefaultOr(l, r) => l.IsSatisfiedBy(entity) || r.IsSatisfiedBy(entity)
      case DefaultNot(s) => !s.IsSatisfiedBy(entity)
      case AlwaysSpec => true
      case NeverSpec => false
    }

    /** Whether the object is a CompositeSpecification, whose and/or/not override the defaults. */
    predicate IsComposite()
    {
      match this
      case Custom(_, composite) => composite
      case AndSpecification(_, _) => true
      case OrSpecification(_, _) => true
      case NotSpecification(_) => true
      case _ => false
    }

    /** and: satisfied exactly when both are; a composite builds an AndSpecification. */
    function And(other: Spec<T>): (r: Spec<T>)
      ensures forall x :: r.IsSatisfiedBy(x) <==> IsSatisfiedBy(x) && other.IsSatisfiedBy(x)
      ensures r.IsComposite() <==> IsComposite()
    {
      if IsComposite() then AndSpecification(this, other) else DefaultAnd(this, other)
    }

    /** or: satisfied exactly when either is; a composite builds an OrSpecification. */
    function Or(other: Spec<T>): (r: Spec<T>)
      ensures forall x :: r.IsSatisfiedBy(x) <==> IsSatisfiedBy(x) || other.IsSatisfiedBy(x)
      ensures r.IsComposite() <==> IsComposite()
    {
      if IsComposite() then OrSpecification(this, other) else DefaultOr(this, other)
    }

    /** not: satisfied exactly when this is not; a composite builds a NotSpecification. */
    function Not(): (r: Spec<T>)
      ensures forall x :: r.IsSatisfiedBy(x) <==> !IsSatisfiedBy(x)
      ensures r.IsComposite() <==> IsComposite()
    {
      if IsComposite() then NotSpecification(this) else DefaultNot(this)
    }
  }

  function Always<T(!new)>(): (r: Spec<T>)
    ensures forall x :: r.IsSatisfiedBy(x)
  {
    AlwaysSpec
  }

  function Never<T(!new)>(): (r: Spec<T>)
    ensures forall x :: !r.IsSatisfiedBy(x)
  {
    NeverSpec
  }

  /** Two specifications are equivalent when they are satisfied by the same entities. */
  ghost predicate Equivalent<T(!new)>(a: Spec<T>, b: Spec<T>)
  {
    forall x :: a.IsSatisfiedBy(x) <==> b.IsSatisfiedBy(x)
  }

  /** The composite classes agree with the interface's default lambdas, whichever kind of
      specification they are applied to. */
  lemma CompositeAgreesWithDefault<T(!new)>(a: Spec<T>, b: Spec<T>)
    ensures Equivalent(AndSpecification(a, b), DefaultAnd(a, b))
    ensures Equivalent(OrSpecification(a, b), DefaultOr(a, b))
    ensures Equivalent(NotSpecification(a), DefaultNot(a))
    ensures Equivalent(Custom(x => a.IsSatisfiedBy(x), true).And(b), Custom(x => a.IsSatisfiedBy(x), false).And(b))
  {
  }

  /** De Morgan: not(a and b) is (not a) or (not b), and not(a or b) is (not a) and (not b). */
  lemma DeMorgan<T(!new)>(a: Spec<T>, b: Spec<T>)
    ensures Equivalent(a.And(b).Not(), a.Not().Or(b.Not()))
    ensures Equivalent(a.Or(b).Not(), a.Not().And(b.Not()))
  {
  }

  /** Negating twice gives back an equivalent specification. */
  lemma DoubleNegation<T(!new)>(a: Spec<T>)
    ensures Equivalent(a.Not().Not(), a)
  {
  }

  /** always() is the unit of and and the zero of or; never() the other way round. */
  lemma AlwaysAndNever<T(!new)>(a: Spec<T>)
    ensures Equivalent(a.And(Always()), a) && Equivalent(a.Or(Never()), a)
    ensures Equivalent(a.And(Never()), Never()) && Equivalent(a.Or(Always()), Always())
    ensures Equivalent(Always<T>().Not(), Never())
  {
  }

  /** Replacing parts by equivalent ones gives an equivalent combination. */
  lemma EquivalenceIsCongruence<T(!new)>(a: Spec<T>, a': Spec<T>, b: Spec<T>, b': Spec<T>)
    requires Equivalent(a, a') && Equivalent(b, b')
    ensures Equivalent(a.And(b), a'.And(b')) && Equivalent(a.Or(b), a'.Or(b')) && Equivalent(a.Not(), a'.Not())
  {
  }

  // ---------------------------------------------------------------- business rules

  /** A business rule as validate sees it: whether it is broken, its message and its error code. */
  datatype BusinessRule = BusinessRule(broken: bool, message: string, errorCode: ErrorCode)

  /** validate: a broken rule throws a domain exception with the rule's code and message. */
  function Validate(rule: BusinessRule): (r: Outcome<DomainException>)
    ensures r.Pass? <==> !rule.broken
    ensures r.Fail? ==> r.error.errorCode == rule.errorCode && r.error.message == rule.message
  {
    if rule.broken then Fail(DomainException(rule.errorCode, rule.message)) else Pass
  }

  /** validateAll: the rules in order, stopping at the first broken one. checked is the number of
      rules whose isBroken was consulted: every rule when none is broken, else up to and including
      the first broken one. */
  method ValidateAll(rules: seq<BusinessRule>) returns (r: Outcome<DomainException>, checked: nat)
    ensures r.Pass? <==> forall i :: 0 <= i < |rules| ==> !rules[i].broken
    ensures r.Pass? ==> checked == |rules|
    ensures r.Fail? ==> 0 < checked <= |rules| && rules[checked - 1].broken
    ensures r.Fail? ==> forall j :: 0 <= j < checked - 1 ==> !rules[j].broken
    ensures r.Fail? ==> r == Validate(rules[checked - 1])
  {
    checked := 0;
    for i := 0 to |rules|
      invariant checked == i
      invariant forall j :: 0 <= j < i ==> !rules[j].broken
    {
      r := Validate(rules[i]);
      checked := checked + 1;
      if r.Fail? {
        return;
      }
    }
    r := Pass;
  }
}
