# Optional container and argument checks, in Dafny

This project models a TypeScript library with two parts. The first is a
Java-style `Optional<T>` container: a slot that either holds a value or is
empty. It has constructors (`empty`, `of`, `ofNullable`), inspection
(`isPresent`, `get`), transformations (`filter`, `map`, `flatMap`), fallbacks
(`or`, `orElse`, `orElseGet`, `orElseThrow`), side effects (`ifPresent`,
`ifPresentOrElse`), `equals` and `toString`. The second is the `AssertUtil`
class of static argument checks (`notNullOrUndefined`, `notNull`,
`notUndefined`) that the container uses. The class has a constructor that
always throws.

Modules:

- `Errors`: the two library errors `IllegalArgument` and `IllegalAccess`,
  each with its message. A third case, `Thrown`, stands for any other error a
  caller's supplier builds. `Result` stands for "returns or throws".
- `Js`: `JsVal<T> = Null | Undefined | Defined(get)`. This is how the checks
  see a JavaScript value. Callback arguments are `JsVal`s of function type, so
  a missing callback can be passed, and `null` and `undefined` stay
  distinguishable (they produce different error messages).
- `AssertUtil`: the checks, their default messages, and the constructor that
  always throws.
- `Optionals`: the container `Optional<T> = Absent | Present(value)` and one
  function per operation. The receiver is the first parameter.
- `OptionalLaws`: laws that relate several operations. These include the
  monad laws, `map` composition, `filter` idempotence, "callback never
  consulted", how the fallbacks relate, and equality and string-form
  properties.
- `Chains`: fluent chains `o.filter(p).map(f).flatMap(g).or(s)`, evaluated
  left to right. The first call that throws ends the chain. Properties of
  chains of any length are proved here by induction.
- `Scenarios`: the library's test cases, stated as lemmas over a concrete universe of
  numbers, `NaN`, strings and objects with identity, with the tests' own
  values. Some instances come from the code and its doc comments rather
  than the tests: the `NaN` container, `notNull` letting `undefined` through
  and `notUndefined` letting `null` through, and an empty message falling
  back to the default.

Modelling choices:

- The private constructor's parameter defaults to `null`
  (src/type/optional.type.ts:26). So `undefined` and `null` both give the
  empty state, and the slot has exactly two states. `New` models this. `Slot`
  gives the field back as a `JsVal` that is never `undefined`.
- An action's side effect is the value it returns. `ifPresent` and
  `ifPresentOrElse` return the list of effects they performed. An empty list
  means no action ran; a one-element list means exactly one call.
- The "has its own `equals` function" capability is a parameter
  `equalsOf: T -> Option<T -> bool>`. JavaScript's `===` is a second
  parameter `strictEq: (T, T) -> bool`, and nothing assumes it reflexive,
  because `NaN === NaN` is false. The laws that need more of `===` say so in
  their `requires`. In `Scenarios`, `===` is identity except on `NaN`, and
  objects carry an identity, so two distinct objects are never `===`.
- The held value's `toString` is a parameter `show: T -> string`.
- The value type `T` stands for the JavaScript values other than `null` and
  `undefined`. It is never instantiated with a `JsVal`, so `Present(Null)`,
  which `of(null)` never builds, does not stand for any library state.
- The doc comment of `internalEqualResult` (src/type/optional.type.ts:319-321)
  says the custom `equals` is used when *both* values have one. The code
  consults only the left value's `equals`, and the tests rely on that
  asymmetry. The model follows the code.

## Model

| member | source | states |
|---|---|---|
| AssertUtil.New | src/util/assert.util.ts:9-11 | constructing the helper class always throws IllegalAccess("AssertUtil is an utility class"); no instance is ever produced |
| AssertUtil.NotNull | src/util/assert.util.ts:41-46 | fails exactly on `null`, and `undefined` passes; on success the argument comes back unchanged; the error message is the caller's if truthy, else "value is null" |
| AssertUtil.NotUndefined | src/util/assert.util.ts:60-65 | fails exactly on `undefined`, and `null` passes; on success the argument comes back unchanged; the error message is the caller's if truthy, else "value is not defined" |
| AssertUtil.NotNullOrUndefined | src/util/assert.util.ts:23-27 | succeeds exactly on a defined value and returns it; `undefined` reports "value is not defined" and `null` reports "value is null" |
| AssertUtil.CombinedCheckIsBothChecks | src/util/assert.util.ts:23-27 | the combined check accepts exactly what both single checks accept, whatever their messages; the undefined check runs first, so its error wins |
| AssertUtil.MissingValueMessage | src/util/assert.util.ts:23-27 | a missing value makes the combined check throw IllegalArgument with the message of the marker it is |
| Optionals.Slot | src/type/optional.type.ts:26 | the private field never holds `undefined` |
| Optionals.New | src/type/optional.type.ts:26 | the private constructor gives a present container exactly for a defined value, and `get` then returns that value |
| Optionals.IsPresent | src/type/optional.type.ts:196-198 | "neither undefined nor null" on the field is exactly the present state |
| Optionals.Empty | src/type/optional.type.ts:31-33 | `empty()` is not present |
| Optionals.Of | src/type/optional.type.ts:45-48 | succeeds exactly on a defined value, and the container is present with `get` returning that value; `undefined` and `null` throw IllegalArgument with their messages |
| Optionals.OfNullable | src/type/optional.type.ts:60-63 | never throws; a nullish argument gives `empty()`; a defined one gives the container `of` returns |
| Optionals.Get | src/type/optional.type.ts:147-150 | succeeds exactly on a present container and returns its value; on an empty one it throws IllegalArgument("value is null") |
| Optionals.Filter | src/type/optional.type.ts:98-105 | empty stays empty whatever the predicate, even a missing one; present with a missing predicate throws; otherwise the result is the receiver itself iff the predicate holds, else empty |
| Optionals.FlatMap | src/type/optional.type.ts:127-135 | empty stays empty whatever the mapper; present with a missing mapper throws; otherwise the mapper's container is returned unchanged, or IllegalArgument if the mapper returned null/undefined |
| Optionals.Map | src/type/optional.type.ts:218-225 | empty stays empty whatever the mapper; present with a missing mapper throws; otherwise never throws, and the result is present iff the mapper's result is defined, holding that result |
| Optionals.Or | src/type/optional.type.ts:241-249 | present returns the receiver whatever the supplier; empty with a missing supplier throws; otherwise the supplied container is returned, or IllegalArgument if it is null/undefined |
| Optionals.OrElse | src/type/optional.type.ts:259-261 | never throws; the held value if present, else `other` as given, even null/undefined |
| Optionals.OrElseGet | src/type/optional.type.ts:276-283 | the held value if present, whatever the supplier; empty with a missing supplier throws; otherwise the supplier's result, unchecked |
| Optionals.OrElseThrow | src/type/optional.type.ts:298-305 | the held value if present, whatever the supplier; empty always throws: IllegalArgument for a missing supplier, otherwise exactly the error the supplier built |
| Optionals.IfPresent | src/type/optional.type.ts:162-167 | empty performs nothing whatever the action; present with a missing action throws; otherwise the action runs exactly once on the value |
| Optionals.IfPresentOrElse | src/type/optional.type.ts:183-191 | exactly one action runs on success; only the callback of the branch taken is checked, so a missing empty-branch action is accepted on a present container |
| Optionals.InternalEqualResult | src/type/optional.type.ts:328-334 | the left value's own `equals` decides if it has one, else `===` (the `strictEq` parameter, not assumed reflexive); reading the other side with `get()` throws when it is empty |
| Optionals.Equals | src/type/optional.type.ts:75-82 | never throws on a null, undefined or container argument; false for a null/undefined argument or differing presence; true for two empties; for two present values, the left value's `equals` if it has one, else `===` (the `strictEq` parameter) |
| Optionals.ToString | src/type/optional.type.ts:313-316 | the string is "Optional[" + inner + "]", where inner is the value's own string form, or "empty" |
| OptionalLaws.EmptyIgnoresTransformers | src/type/optional.type.ts:98-225 | on an empty container, `filter`, `map` and `flatMap` give `empty()` and are independent of the callback passed, including a missing one |
| OptionalLaws.PresentIgnoresFallbacks | src/type/optional.type.ts:241-305 | on a present container, `or`, `orElse`, `orElseGet` and `orElseThrow` are independent of their argument and return the receiver or its value |
| OptionalLaws.IfPresentOrElseRunsOneBranch | src/type/optional.type.ts:162-191 | on a present container `ifPresentOrElse` is `ifPresent` whatever the empty action is; on an empty one only the empty action runs |
| OptionalLaws.OfNullableAgreesWithOf | src/type/optional.type.ts:45-63 | `ofNullable` of a defined value equals `of` of it and `get` recovers the value; of a nullish value, `get` fails |
| OptionalLaws.FlatMapOfIsIdentity | src/type/optional.type.ts:127-135 | `o.flatMap(of)` is `o`, for empty and present containers |
| OptionalLaws.OfThenFlatMap | src/type/optional.type.ts:127-135 | `of(v).flatMap(f)` is `f(v)` when `f(v)` is a container |
| OptionalLaws.FlatMapAssociative | src/type/optional.type.ts:127-135 | `o.flatMap(f).flatMap(g)` equals `o.flatMap(x => f(x).flatMap(g))` for mappers that always return a container |
| OptionalLaws.MapIsFlatMapOfNullable | src/type/optional.type.ts:200-225 | `map(f)` equals `flatMap(x => ofNullable(f(x)))` |
| OptionalLaws.MapComposes | src/type/optional.type.ts:218-225 | `o.map(f).map(g)` equals `o.map(x => g(f(x)))` when a null/undefined intermediate result is passed through |
| OptionalLaws.FilterIdempotent | src/type/optional.type.ts:98-105 | filtering twice with one predicate is filtering once |
| OptionalLaws.FilterConjunction | src/type/optional.type.ts:98-105 | two filters in a row are one filter by the conjunction |
| OptionalLaws.OrElseGetOfConstant | src/type/optional.type.ts:259-283 | `orElseGet(() => x)` equals `orElse(x)` |
| OptionalLaws.OrThenOrElse | src/type/optional.type.ts:241-261 | `o.or(() => alt).orElse(x)` equals `o.orElse(alt.orElse(x))` |
| OptionalLaws.OrElseThrowRaisesSupplied | src/type/optional.type.ts:298-305 | `orElseThrow` with a supplier is `get` with the supplied error in place of `get`'s: it succeeds exactly when `get` does, with the same value, and otherwise throws the supplier's error unmodified |
| OptionalLaws.EqualsIsStructuralWithoutCustom | src/type/optional.type.ts:328-334 | when no value has its own `equals` and `===` is identity on the values (no `NaN`), `equals` holds iff the two containers are the same, in both directions |
| OptionalLaws.EqualsSymmetricWithoutCustom | src/type/optional.type.ts:75-82 | when no value has its own `equals`, `equals` is symmetric, given only that `===` is symmetric (so `NaN` included) |
| OptionalLaws.EqualsConsultsLeftOnly | src/type/optional.type.ts:329-330 | the result depends only on the left value's `equals` capability, never on the right value's |
| OptionalLaws.EqualsReflexive | src/type/optional.type.ts:75-82 | a container equals itself exactly when it is empty, or its value equals itself by its own `equals`, or by `===` when it has none; so a container of `NaN` does not |
| OptionalLaws.OfNullableOfNothingEqualsEmpty | src/type/optional.type.ts:60-63 | `ofNullable(null)` and `ofNullable(undefined)` equal `empty()` |
| OptionalLaws.ToStringInjective | src/type/optional.type.ts:313-316 | distinct containers have distinct string forms when the values' string forms are distinct and none is "empty" |
| Chains.EmptyPassesThrough | src/type/optional.type.ts:98-225 | an empty container comes out of any chain of `filter`/`map`/`flatMap` calls as `empty()`, with no callback consulted or checked |
| Chains.PresentSkipsOr | src/type/optional.type.ts:241-249 | a present container comes out of any chain of `or` calls unchanged, with no supplier consulted or checked |
| Chains.FilterChain | src/type/optional.type.ts:98-105 | a chain of filters keeps the container iff every predicate accepts its value, else empties it |
| Chains.MapChain | src/type/optional.type.ts:218-225 | a chain of maps equals one `ofNullable` of the value threaded through the mappers, stopping at the first null/undefined |
| Chains.WellFormedChainSucceeds | src/type/optional.type.ts:98-249 | a chain whose callbacks are all passed, and whose container-returning callbacks never return null/undefined, never throws |
| Chains.ChainErrorsAreIllegalArgument | src/util/assert.util.ts:23-27 | a chain that throws, throws IllegalArgument with "value is null" or "value is not defined" |
| Scenarios.EqualityIsAsymmetric | test/type/optional.type.spec.ts:111-112 | `of(plain).equals(of(withEquals))` is false while the reverse is true |
| Scenarios.EqualityOfDifferentNames | test/type/optional.type.spec.ts:114-115 | objects with different names are unequal whichever side has `equals` |
| Scenarios.EqualityOfPrimitives | test/type/optional.type.spec.ts:78-100 | number against string, number against object and string against object are unequal in both directions; equal primitives are equal; empty equals empty; null compares unequal |
| Scenarios.StrictEqualsIsSymmetric | src/type/optional.type.ts:333 | `===` on the test values is symmetric, so the symmetry law without custom `equals` applies to them, and `NaN === NaN` is false |
| Scenarios.FilterKeepsOnlyAccepted | test/type/optional.type.spec.ts:136-156 | predicates accepting only 11, "ForTestPurposeV2" and an object named "ForTestPurposeV2" empty `of(10)`, `of("ForTestPurpose")` and the original object, and keep the `V2` containers |
| Scenarios.MapToName | test/type/optional.type.spec.ts:360-366 | `of(obj).map(o => o.name)` equals `of(obj.name)` |
| Scenarios.FlatMapToNothingThrows | test/type/optional.type.spec.ts:176-198 | a flatMap mapper returning null or undefined makes `flatMap` throw IllegalArgument |
| Scenarios.OrElseFallback | test/type/optional.type.spec.ts:402-421 | `empty().orElse` gives 11 and "ForTestPurpose2"; a present 10, "ForTestPurpose" or object is returned even with a null or undefined fallback |
| Scenarios.NaNContainerIsNotEqualToItself | src/type/optional.type.ts:328-334 | `of(NaN).equals(of(NaN))` is false, as the `===` branch gives, while its string form is "Optional[NaN]" |
| Scenarios.IfPresentOrElseWithNullEmptyAction | test/type/optional.type.spec.ts:318-330 | a null empty-branch action is accepted on a present container and rejected on an empty one |
| Scenarios.OrElseThrowTypeError | test/type/optional.type.spec.ts:476-491 | an empty container throws the supplier's TypeError, or IllegalArgument for a missing supplier |
| Scenarios.StringForms | test/type/optional.type.spec.ts:493-501 | "Optional[empty]", "Optional[10]" and "Optional[ForTestPurpose]" |
| Scenarios.AssertUtilChecks | test/util/assert.util.spec.ts:7-68 | the helper's constructor throws IllegalAccess; the checks reject `null` and `undefined` with the given message or their defaults and return defined values; from the code (src/util/assert.util.ts:42-43, 61-62) each single check passes the other marker through and an empty message gives the default |

## Left out

- In-place mutation of a held object by an `ifPresent`/`ifPresentOrElse`
  action. This is aliasing of a mutable JavaScript object, not container
  logic. Held values are immutable, and an action's effect is the value it
  returns.
- Callbacks that throw. Callbacks are total functions. In the library an
  exception from a callback propagates unchanged; the model has no such path.
- `orElseThrow` with a supplier that returns something other than an error
  (the library would `throw` that value). The supplier's type is `Error`.
- A predicate's truthiness. Predicates return `bool` rather than an arbitrary
  truthy or falsy value.
- `equals` across different type parameters (`equals<U>`). Both containers
  share the value type `T`, as JavaScript values share one runtime type.
  Chains are typed the same way. Likewise the argument of `equals` is
  `null`, `undefined` or a container: an object that is not an `Optional`,
  as in `of(1).equals({})`, would make the call `other.isPresent()`
  (src/type/optional.type.ts:78) throw a TypeError, which is not modelled.
- The `typeof value.equals === 'function'` lookup itself. The model takes
  its outcome as the `equalsOf` parameter. The `toString` of arbitrary
  values is the `show` parameter.
- Optionals.InternalEqualResult: requires a present receiver. The library
  reaches it only through `equals`, which checks that first. The non-null
  assertion `this.value!` is erased when compiled and checks nothing; on an
  empty receiver the property read `this.value['equals']` on `null`
  (src/type/optional.type.ts:329) would throw a TypeError, which is not
  modelled.
- Optionals.Equals: a custom `equals` returns `bool` here. In the library
  its result is returned as it is, without conversion to a boolean, so a
  truthy non-boolean result is not modelled.
- The `name` assignment and prototype fix-up in the two error classes. The
  errors are datatype constructors carrying their message.
- Counting calls on test spies and console output. "The callback is not
  invoked" is stated as the result not depending on the callback or on
  whether it is present.
