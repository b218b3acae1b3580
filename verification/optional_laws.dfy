/** Laws that relate several `Optional` operations: callbacks that are never
    consulted, the monad laws of `of`/`flatMap`, `map` composition, `filter`
    idempotence, the fallbacks, and the equality and string forms.
 */
module OptionalLaws {
  import opened Errors
  import opened Js
  import opened Optionals

  // ----- callbacks that are never consulted -----

  /** On an empty container, `filter`, `map` and `flatMap` return empty
      whatever callback they are given, including a missing one. */
  lemma EmptyIgnoresTransformers<T, U>(
    p1: JsVal<T -> bool>, p2: JsVal<T -> bool>,
    f1: JsVal<T -> JsVal<U>>, f2: JsVal<T -> JsVal<U>>,
    g1: JsVal<T -> JsVal<Optional<U>>>, g2: JsVal<T -> JsVal<Optional<U>>>)
    ensures Filter(Empty<T>(), p1) == Filter(Empty<T>(), p2) == Success(Empty())
    ensures Map(Empty<T>(), f1) == Map(Empty<T>(), f2) == Success(Empty())
    ensures FlatMap(Empty<T>(), g1) == FlatMap(Empty<T>(), g2) == Success(Empty())
  {
  }

  /** On a present container, the fallback operations return the receiver or
      its value whatever fallback they are given, including a missing one. */
  lemma PresentIgnoresFallbacks<T>(
    o: Optional<T>,
    s1: JsVal<() -> JsVal<Optional<T>>>, s2: JsVal<() -> JsVal<Optional<T>>>,
    x1: JsVal<T>, x2: JsVal<T>,
    t1: JsVal<() -> JsVal<T>>, t2: JsVal<() -> JsVal<T>>,
    e1: JsVal<() -> Error>, e2: JsVal<() -> Error>)
    requires IsPresent(o)
    ensures Or(o, s1) == Or(o, s2) == Success(o)
    ensures OrElse(o, x1) == OrElse(o, x2) == Defined(Get(o).value)
    ensures OrElseGet(o, t1) == OrElseGet(o, t2) == Success(Defined(Get(o).value))
    ensures OrElseThrow(o, e1) == OrElseThrow(o, e2) == Get(o)
  {
  }

  /** `ifPresentOrElse` on a present container is `ifPresent`, whatever the
      empty-branch action is; on an empty one it performs only that action. */
  lemma IfPresentOrElseRunsOneBranch<T, E>(o: Optional<T>, a: JsVal<T -> E>, e: JsVal<() -> E>)
    ensures IsPresent(o) ==> IfPresentOrElse(o, a, e) == IfPresent(o, a)
    ensures !IsPresent(o) && e.Defined? ==> IfPresentOrElse(o, a, e) == Success([e.get()])
    ensures !IsPresent(o) ==> IfPresent(o, a) == Success([])
  {
  }

  // ----- construction -----

  /** `ofNullable` of a present value agrees with `of`, and `get` returns the
      value given to either. */
  lemma OfNullableAgreesWithOf<T>(x: JsVal<T>)
    ensures x.Defined? ==> Of(x).Success? && Of(x).value == OfNullable(x)
    ensures x.Defined? ==> Get(OfNullable(x)) == Success(x.get)
    ensures x.IsNullish() ==> Get(OfNullable(x)).Failure?
  {
  }

  // ----- monad laws -----

  /** The mapper `value => Optional.of(value)`. */
  function OfMapper<T>(x: T): (r: JsVal<Optional<T>>)
    ensures r.Defined? && IsPresent(r.get)
  {
    Defined(Of(Defined(x)).value)
  }

  /** Right identity: `o.flatMap(of)` is `o`, empty or not. */
  lemma FlatMapOfIsIdentity<T>(o: Optional<T>)
    ensures FlatMap(o, Defined(OfMapper)) == Success(o)
  {
  }

  /** Left identity: `of(v).flatMap(f)` is `f(v)` when that is a container. */
  lemma OfThenFlatMap<T, U>(v: T, f: T -> JsVal<Optional<U>>)
    requires f(v).Defined?
    ensures FlatMap(Of(Defined(v)).value, Defined(f)) == Success(f(v).get)
  {
  }

  /** Runs `g` on the container `f` returns; the combined mapper of the
      associativity law. */
  function FlatThen<T, U, V>(f: T -> JsVal<Optional<U>>, g: U -> JsVal<Optional<V>>, x: T)
    : JsVal<Optional<V>>
  {
    if f(x).Defined? && FlatMap(f(x).get, Defined(g)).Success? then
      Defined(FlatMap(f(x).get, Defined(g)).value)
    else Null
  }

  /** Associativity of `flatMap` for mappers that always return a container. */
  lemma FlatMapAssociative<T, U, V>(o: Optional<T>, f: T -> JsVal<Optional<U>>, g: U -> JsVal<Optional<V>>)
    requires forall x :: f(x).Defined?
    requires forall y :: g(y).Defined?
    ensures FlatMap(o, Defined(f)).Success?
    ensures FlatMap(FlatMap(o, Defined(f)).value, Defined(g))
         == FlatMap(o, Defined(x => FlatThen(f, g, x)))
  {
    if IsPresent(o) {
      var inner := f(o.value).get;
      assert FlatMap(inner, Defined(g)).Success?;
      assert FlatThen(f, g, o.value) == Defined(FlatMap(inner, Defined(g)).value);
    }
  }

  /** `map(f)` is `flatMap` of `f` followed by `ofNullable`. */
  lemma MapIsFlatMapOfNullable<T, U>(o: Optional<T>, f: T -> JsVal<U>)
    ensures Map(o, Defined(f)) == FlatMap(o, Defined(x => Defined(OfNullable(f(x)))))
  {
  }

  /** Applies `g` to what `f` returns, passing `null` and `undefined` through. */
  function Then<T, U, V>(f: T -> JsVal<U>, g: U -> JsVal<V>, x: T): JsVal<V> {
    match f(x)
    case Defined(y) => g(y)
    case Null => Null
    case Undefined => Undefined
  }

  /** `o.map(f).map(g)` is `o.map(x => g(f(x)))`, with a missing intermediate
      result passed through; this holds whether or not `f` ever returns `null`. */
  lemma MapComposes<T, U, V>(o: Optional<T>, f: T -> JsVal<U>, g: U -> JsVal<V>)
    ensures Map(o, Defined(f)).Success?
    ensures Map(Map(o, Defined(f)).value, Defined(g)) == Map(o, Defined(x => Then(f, g, x)))
  {
  }

  // ----- filter -----

  /** Filtering twice with the same predicate is filtering once. */
  lemma FilterIdempotent<T>(o: Optional<T>, p: T -> bool)
    ensures Filter(o, Defined(p)).Success?
    ensures Filter(Filter(o, Defined(p)).value, Defined(p)) == Filter(o, Defined(p))
  {
  }

  /** Two filters in a row keep the value exactly when both predicates accept it. */
  lemma FilterConjunction<T>(o: Optional<T>, p: T -> bool, q: T -> bool)
    ensures Filter(o, Defined(p)).Success?
    ensures Filter(Filter(o, Defined(p)).value, Defined(q)) == Filter(o, Defined(x => p(x) && q(x)))
  {
  }

  // ----- fallbacks -----

  /** `orElseGet` with a constant supplier is `orElse`. */
  lemma OrElseGetOfConstant<T>(o: Optional<T>, other: JsVal<T>)
    ensures OrElseGet(o, Defined(() => other)) == Success(OrElse(o, other))
  {
  }

  /** `or` with a supplier of a container, followed by `orElse`, is `orElse`
      with the supplied container's own fallback. */
  lemma OrThenOrElse<T>(o: Optional<T>, alt: Optional<T>, other: JsVal<T>)
    ensures Or(o, Defined(() => Defined(alt))).Success?
    ensures OrElse(Or(o, Defined(() => Defined(alt))).value, other)
         == OrElse(o, OrElse(alt, other))
  {
  }

  /** `orElseThrow` with a supplier is `get` with the supplied error in place
      of `get`'s own: the same value when present, and exactly the supplied
      error, unmodified, when empty. */
  lemma OrElseThrowRaisesSupplied<T>(o: Optional<T>, err: Error)
    ensures OrElseThrow(Empty<T>(), Defined(() => err)) == Failure(err)
    ensures OrElseThrow(o, Defined(() => err)).Success? <==> Get(o).Success?
    ensures Get(o).Success? ==> OrElseThrow(o, Defined(() => err)) == Get(o)
    ensures Get(o).Failure? ==> OrElseThrow(o, Defined(() => err)) == Failure(err)
  {
  }

  // ----- equality -----

  /** No value has an own `equals`. */
  ghost predicate NoCustomEquals<T(!new)>(equalsOf: EqualsLookup<T>) {
    forall v :: equalsOf(v).None?
  }

  /** `===` is identity on the values at hand: none of them is `NaN`. */
  ghost predicate StrictIsIdentity<T(!new)>(strictEq: StrictEquality<T>) {
    forall x, y :: strictEq(x, y) <==> x == y
  }

  /** `===` does not depend on the order of its operands, as in JavaScript,
      `NaN` included. */
  ghost predicate StrictIsSymmetric<T(!new)>(strictEq: StrictEquality<T>) {
    forall x, y :: strictEq(x, y) == strictEq(y, x)
  }

  /** Without custom `equals` functions and without `NaN`, `equals` is
      structural equality of the two containers, in both directions. */
  lemma EqualsIsStructuralWithoutCustom<T(!new)>(a: Optional<T>, b: Optional<T>, equalsOf: EqualsLookup<T>,
                                                 strictEq: StrictEquality<T>)
    requires NoCustomEquals(equalsOf)
    requires StrictIsIdentity(strictEq)
    ensures Equals(a, Defined(b), equalsOf, strictEq) <==> a == b
  {
  }

  /** Without custom `equals` functions, `equals` is symmetric, `NaN`
      included. */
  lemma EqualsSymmetricWithoutCustom<T(!new)>(a: Optional<T>, b: Optional<T>, equalsOf: EqualsLookup<T>,
                                              strictEq: StrictEquality<T>)
    requires NoCustomEquals(equalsOf)
    requires StrictIsSymmetric(strictEq)
    ensures Equals(a, Defined(b), equalsOf, strictEq) == Equals(b, Defined(a), equalsOf, strictEq)
  {
  }

  /** With custom `equals` functions, only the left value's decides: the right
      value's `equals`, if any, is never consulted. */
  lemma EqualsConsultsLeftOnly<T>(a: T, b: T, eq1: EqualsLookup<T>, eq2: EqualsLookup<T>,
                                  strictEq: StrictEquality<T>)
    requires eq1(a) == eq2(a)
    ensures Equals(Present(a), Defined(Present(b)), eq1, strictEq)
         == Equals(Present(a), Defined(Present(b)), eq2, strictEq)
  {
  }

  /** A container equals itself exactly when it is empty or its value is
      equal to itself by its own `equals`, or by `===` when it has none: a
      container of `NaN` is not equal to itself. */
  lemma EqualsReflexive<T>(o: Optional<T>, equalsOf: EqualsLookup<T>, strictEq: StrictEquality<T>)
    ensures Equals(o, Defined(o), equalsOf, strictEq)
        <==> (!IsPresent(o)
              || (equalsOf(o.value).Some? && equalsOf(o.value).value(o.value))
              || (equalsOf(o.value).None? && strictEq(o.value, o.value)))
  {
  }

  /** `ofNullable(null)` and `ofNullable(undefined)` equal `empty()`. */
  lemma OfNullableOfNothingEqualsEmpty<T>(x: JsVal<T>, equalsOf: EqualsLookup<T>, strictEq: StrictEquality<T>)
    requires x.IsNullish()
    ensures Equals(OfNullable(x), Defined(Empty()), equalsOf, strictEq)
  {
  }

  // ----- string form -----

  /** The string form tells containers apart whenever the values' own string
      forms do and no value prints as `empty`. */
  lemma ToStringInjective<T>(a: Optional<T>, b: Optional<T>, show: T -> string)
    requires a.Present? ==> show(a.value) != "empty"
    requires b.Present? ==> show(b.value) != "empty"
    requires a.Present? && b.Present? && show(a.value) == show(b.value) ==> a.value == b.value
    ensures ToString(a, show) == ToString(b, show) ==> a == b
  {
  }
}
