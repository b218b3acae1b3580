/** The library's test cases, stated as lemmas over a small universe of JavaScript
    values: numbers, `NaN`, strings, and objects with reference identity, a
    `name` field and possibly an own `equals` function. A few instances go
    beyond the tests and follow the code instead: the `NaN` container, the
    checks of `AssertUtil` letting the other marker through, and an empty
    message falling back to the default.
 */
module Scenarios {
  import opened Errors
  import opened Js
  import opened Optionals
  import AssertUtil
  import OptionalLaws

  /** A JavaScript value. Two objects are `===` only if they are the same
      object, which `id` stands for. */
  datatype Val = Num(n: int) | NaN | Str(s: string) | Obj(id: nat, name: string, hasEquals: bool)

  /** `a === b` on these values: identity, except that `NaN` is not `===` to
      anything, itself included. */
  function StrictEquals(a: Val, b: Val): bool {
    !a.NaN? && a == b
  }

  /** `===` on these values is symmetric, so `EqualsSymmetricWithoutCustom`
      applies to them, but not reflexive. */
  lemma StrictEqualsIsSymmetric()
    ensures OptionalLaws.StrictIsSymmetric(StrictEquals)
    ensures !StrictEquals(NaN, NaN)
  {
  }

  /** The test's `equals = function(obj) { return this.name === obj.name; }`,
      for objects that carry it. A value without a `name` reads it as
      `undefined`, which no string name is `===` to. */
  function EqualsOf(v: Val): Option<Val -> bool> {
    match v
    case Obj(_, name, true) => Some((other: Val) => other.Obj? && other.name == name)
    case _ => None
  }

  /** Decimal digits of a natural number, as `Number.prototype.toString`. */
  function DecimalString(n: nat): (s: string)
    ensures |s| > 0
    decreases n
  {
    var digit := ["0", "1", "2", "3", "4", "5", "6", "7", "8", "9"][n % 10];
    if n < 10 then digit else DecimalString(n / 10) + digit
  }

  /** `value.toString()` for the values of the tests. */
  function Show(v: Val): string {
    match v
    case Num(n) => if n < 0 then "-" + DecimalString(-n) else DecimalString(n)
    case NaN => "NaN"
    case Str(s) => s
    case Obj(_, _, _) => "[object Object]"
  }

  const Number10: Val := Num(10)
  const Text: Val := Str("ForTestPurpose")
  const Plain: Val := Obj(0, "ForTestPurpose", false)
  const WithEquals: Val := Obj(1, "ForTestPurpose", true)
  const V2WithEquals: Val := Obj(2, "ForTestPurposeV2", true)
  const PlainV2: Val := Obj(3, "ForTestPurposeV2", false)

  /** `of(Plain).equals(of(WithEquals))` is false by `===`, while
      `of(WithEquals).equals(of(Plain))` is true by the left value's
      `equals`: equality is not symmetric. */
  lemma EqualityIsAsymmetric()
    ensures !Equals(Present(Plain), Defined(Present(WithEquals)), EqualsOf, StrictEquals)
    ensures Equals(Present(WithEquals), Defined(Present(Plain)), EqualsOf, StrictEquals)
  {
  }

  /** Objects whose names differ are unequal whichever side has `equals`. */
  lemma EqualityOfDifferentNames()
    ensures !Equals(Present(Plain), Defined(Present(V2WithEquals)), EqualsOf, StrictEquals)
    ensures !Equals(Present(V2WithEquals), Defined(Present(Plain)), EqualsOf, StrictEquals)
  {
  }

  /** Values of different types are unequal; equal primitives are equal. */
  lemma EqualityOfPrimitives()
    ensures !Equals(Present(Number10), Defined(Present(Text)), EqualsOf, StrictEquals)
    ensures !Equals(Present(Text), Defined(Present(Number10)), EqualsOf, StrictEquals)
    ensures !Equals(Present(Number10), Defined(Present(Plain)), EqualsOf, StrictEquals)
    ensures !Equals(Present(Plain), Defined(Present(Number10)), EqualsOf, StrictEquals)
    ensures !Equals(Present(Text), Defined(Present(Plain)), EqualsOf, StrictEquals)
    ensures !Equals(Present(Plain), Defined(Present(Text)), EqualsOf, StrictEquals)
    ensures Equals(Present(Number10), Defined(Present(Num(10))), EqualsOf, StrictEquals)
    ensures !Equals(Present(Number10), Defined(Present(Num(11))), EqualsOf, StrictEquals)
    ensures !Equals(Present(Text), Null, EqualsOf, StrictEquals)
    ensures !Equals(Empty(), Defined(Present(Text)), EqualsOf, StrictEquals)
    ensures Equals(Empty(), Defined(Empty()), EqualsOf, StrictEquals)
  {
  }

  /** A predicate that accepts only the `V2` variant of each test value keeps
      the `V2` container and empties the original one. */
  lemma FilterKeepsOnlyAccepted()
    ensures Filter(Present(Num(10)), Defined((v: Val) => StrictEquals(v, Num(11)))) == Success(Empty())
    ensures Filter(Present(Num(11)), Defined((v: Val) => StrictEquals(v, Num(11)))) == Success(Present(Num(11)))
    ensures Filter(Present(Text), Defined((v: Val) => StrictEquals(v, Str("ForTestPurposeV2")))) == Success(Empty())
    ensures Filter(Present(Str("ForTestPurposeV2")), Defined((v: Val) => StrictEquals(v, Str("ForTestPurposeV2"))))
         == Success(Present(Str("ForTestPurposeV2")))
    ensures Filter(Present(Plain), Defined((v: Val) => v.Obj? && v.name == "ForTestPurposeV2")) == Success(Empty())
    ensures Filter(Present(PlainV2), Defined((v: Val) => v.Obj? && v.name == "ForTestPurposeV2"))
         == Success(Present(PlainV2))
  {
  }

  /** `of(obj).map(obj => obj.name)` is `of(obj.name)`. */
  lemma MapToName()
    ensures Map(Present(Plain), Defined((x: Val) => if x.Obj? then Defined(Str(x.name)) else Undefined))
         == Of(Defined(Text))
  {
  }

  /** `flatMap` with a mapper that returns `null` or `undefined` throws
      `IllegalArgument`. */
  lemma FlatMapToNothingThrows()
    ensures FlatMap<Val, Val>(Present(Number10), Defined((x: Val) => Null)) == Failure(IllegalArgument(AssertUtil.NullMessage))
    ensures FlatMap<Val, Val>(Present(Number10), Defined((x: Val) => Undefined))
         == Failure(IllegalArgument(AssertUtil.UndefinedMessage))
  {
  }

  /** `empty().orElse(other)` is `other`; on a present container `orElse`
      returns the value, even when `other` is `null` or `undefined`. */
  lemma OrElseFallback()
    ensures OrElse(Empty(), Defined(Num(11))) == Defined(Num(11))
    ensures OrElse(Empty(), Defined(Str("ForTestPurpose2"))) == Defined(Str("ForTestPurpose2"))
    ensures OrElse(Present(Number10), Null) == Defined(Number10)
    ensures OrElse(Present(Text), Undefined) == Defined(Text)
    ensures OrElse(Present(Plain), Null) == Defined(Plain)
  {
  }

  /** A container of `NaN` is not equal to itself, nor to another container
      of `NaN`, while its string form is `Optional[NaN]`. */
  lemma NaNContainerIsNotEqualToItself()
    ensures !Equals(Present(NaN), Defined(Present(NaN)), EqualsOf, StrictEquals)
    ensures !Equals(Of(Defined(NaN)).value, Defined(Of(Defined(NaN)).value), EqualsOf, StrictEquals)
    ensures ToString(Present(NaN), Show) == "Optional[NaN]"
  {
  }

  /** `ifPresentOrElse(action, null)` on a present container performs the
      action and does not throw. */
  lemma IfPresentOrElseWithNullEmptyAction()
    ensures IfPresentOrElse(Present(Plain), Defined((x: Val) => x), Null) == Success([Plain])
    ensures IfPresentOrElse(Empty<Val>(), Defined((x: Val) => x), Null)
         == Failure(IllegalArgument(AssertUtil.NullMessage))
  {
  }

  /** `orElseThrow` on an empty container throws the supplier's `TypeError`. */
  lemma OrElseThrowTypeError()
    ensures OrElseThrow(Empty<Val>(), Defined(() => Thrown("TypeError", "error")))
         == Failure(Thrown("TypeError", "error"))
    ensures OrElseThrow(Empty<Val>(), Undefined) == Failure(IllegalArgument(AssertUtil.UndefinedMessage))
  {
  }

  /** `toString` of the empty container, of a number and of a string. */
  lemma StringForms()
    ensures ToString(Empty<Val>(), Show) == "Optional[empty]"
    ensures ToString(Present(Number10), Show) == "Optional[10]"
    ensures ToString(Present(Text), Show) == "Optional[ForTestPurpose]"
  {
    assert DecimalString(1) == "1";
    assert Show(Number10) == "10";
    assert Show(Text) == "ForTestPurpose";
    assert "Optional[" + "ForTestPurpose" + "]" == "Optional[ForTestPurpose]";
  }

  /** `new AssertUtil()` throws `IllegalAccess`; the checks reject `null` and
      `undefined` with their default or the given message. */
  lemma AssertUtilChecks()
    ensures AssertUtil.New() == Failure(IllegalAccess("AssertUtil is an utility class"))
    ensures AssertUtil.NotNull<Val>(Null, Defined("There is an error")) == Failure(IllegalArgument("There is an error"))
    ensures AssertUtil.NotNull<Val>(Null, Undefined) == Failure(IllegalArgument("value is null"))
    ensures AssertUtil.NotNull<Val>(Undefined, Undefined) == Success(Undefined)
    ensures AssertUtil.NotUndefined<Val>(Undefined, Defined("")) == Failure(IllegalArgument("value is not defined"))
    ensures AssertUtil.NotUndefined<Val>(Null, Undefined) == Success(Null)
    ensures AssertUtil.NotUndefined<Val>(Undefined, Defined("There is an error"))
         == Failure(IllegalArgument("There is an error"))
    ensures AssertUtil.NotUndefined(Defined(Text), Undefined) == Success(Defined(Text))
    ensures AssertUtil.NotNull(Defined(Plain), Undefined) == Success(Defined(Plain))
    ensures AssertUtil.NotNullOrUndefined<Val>(Null).Failure?
    ensures AssertUtil.NotNullOrUndefined<Val>(Undefined).Failure?
    ensures AssertUtil.NotNullOrUndefined(Defined(Number10)) == Success(Number10)
    ensures AssertUtil.NotNullOrUndefined(Defined(Plain)) == Success(Plain)
  {
  }
}
