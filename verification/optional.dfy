/** The `Optional<T>` container: a single slot that either holds a value or is
    empty. Each operation is a function of the receiver and its arguments;
    one that may throw returns a `Result`. A callback argument is a `JsVal`, so
    a missing (`null` or `undefined`) callback can be passed, and a callback
    that is never called cannot influence the result.
 */
module Optionals {
  import opened Errors
  import opened Js
  import AssertUtil

  /** The slot is in exactly one of two states. */
  datatype Optional<+T> = Absent | Present(value: T)

  /** The private field `value: T | null` as a JavaScript value. */
  function Slot<T>(o: Optional<T>): (v: JsVal<T>)
    ensures !v.Undefined?
  {
    match o
    case Absent => Null
    case Present(x) => Defined(x)
  }

  /** The private constructor. Its parameter defaults to `null`, so `undefined`
      lands in the same empty state as `null`. */
  function New<T>(value: JsVal<T>): (o: Optional<T>)
    ensures IsPresent(o) <==> value.Defined?
    ensures value.Defined? ==> Get(o) == Success(value.get)
  {
    match value
    case Defined(x) => Present(x)
    case _ => Absent
  }

  /** `isPresent()`: the field is neither `undefined` nor `null`. */
  function IsPresent<T>(o: Optional<T>): (b: bool)
    ensures b <==> o.Present?
  {
    !Slot(o).Undefined? && !Slot(o).Null?
  }

  /** `empty()` */
  function Empty<T>(): (o: Optional<T>)
    ensures !IsPresent(o)
  {
    New(Null)
  }

  /** `of(value)`: rejects `null` and `undefined`, wraps anything else. */
  function Of<T>(value: JsVal<T>): (r: Result<Optional<T>>)
    ensures r.Success? <==> value.Defined?
    ensures r.Success? ==> IsPresent(r.value) && Get(r.value) == Success(value.get)
    ensures value.Undefined? ==> r == Failure(IllegalArgument(AssertUtil.UndefinedMessage))
    ensures value.Null? ==> r == Failure(IllegalArgument(AssertUtil.NullMessage))
  {
    var checked :- AssertUtil.NotNullOrUndefined(value);
    Success(New(Defined(checked)))
  }

  /** `ofNullable(value)`: never throws. */
  function OfNullable<T>(value: JsVal<T>): (o: Optional<T>)
    ensures value.IsNullish() ==> o == Empty()
    ensures value.Defined? ==> Of(value) == Success(o)
  {
    if value.Null? || value.Undefined? then Empty() else Of(value).value
  }

  /** `get()`: the held value, or `IllegalArgument` ("value is null") when
      empty. */
  function Get<T>(o: Optional<T>): (r: Result<T>)
    ensures r.Success? <==> IsPresent(o)
    ensures IsPresent(o) ==> r.value == o.value
    ensures !IsPresent(o) ==> r.error == IllegalArgument(AssertUtil.NullMessage)
  {
    var checked :- AssertUtil.NotNull(Slot(o), Undefined);
    Success(checked.get)
  }

  /** `filter(predicate)` */
  function Filter<T>(o: Optional<T>, pred: JsVal<T -> bool>): (r: Result<Optional<T>>)
    ensures !IsPresent(o) ==> r == Success(Empty())
    ensures IsPresent(o) && pred.IsNullish()
        ==> r == Failure(IllegalArgument(AssertUtil.MissingMessage(pred)))
    ensures IsPresent(o) && pred.Defined? ==> r.Success?
    ensures IsPresent(o) && pred.Defined?
        ==> (r.value == o <==> pred.get(o.value)) && (r.value == o || r.value == Empty())
  {
    if !IsPresent(o) then Success(Empty())
    else
      var p :- AssertUtil.NotNullOrUndefined(pred);
      if p(o.value) then Success(o) else Success(Empty())
  }

  /** `flatMap(mapper)`: the mapper's container is returned as it is, but it
      must not be `null` or `undefined` itself. */
  function FlatMap<T, U>(o: Optional<T>, mapper: JsVal<T -> JsVal<Optional<U>>>): (r: Result<Optional<U>>)
    ensures !IsPresent(o) ==> r == Success(Empty())
    ensures IsPresent(o) && mapper.IsNullish()
        ==> r == Failure(IllegalArgument(AssertUtil.MissingMessage(mapper)))
    ensures IsPresent(o) && mapper.Defined? && mapper.get(o.value).Defined?
        ==> r == Success(mapper.get(o.value).get)
    ensures IsPresent(o) && mapper.Defined? && mapper.get(o.value).IsNullish()
        ==> r == Failure(IllegalArgument(AssertUtil.MissingMessage(mapper.get(o.value))))
  {
    if !IsPresent(o) then Success(Empty())
    else
      var f :- AssertUtil.NotNullOrUndefined(mapper);
      var result := f(o.value);
      AssertUtil.NotNullOrUndefined(result)
  }

  /** `map(mapper)`: wraps the mapper's result as if by `ofNullable`, so a
      mapper returning `null` or `undefined` gives an empty container. */
  function Map<T, U>(o: Optional<T>, mapper: JsVal<T -> JsVal<U>>): (r: Result<Optional<U>>)
    ensures !IsPresent(o) ==> r == Success(Empty())
    ensures IsPresent(o) && mapper.IsNullish()
        ==> r == Failure(IllegalArgument(AssertUtil.MissingMessage(mapper)))
    ensures IsPresent(o) && mapper.Defined? ==> r.Success?
    ensures IsPresent(o) && mapper.Defined?
        ==> (IsPresent(r.value) <==> mapper.get(o.value).Defined?)
    ensures IsPresent(o) && mapper.Defined? && IsPresent(r.value)
        ==> Get(r.value) == Success(mapper.get(o.value).get)
  {
    if !IsPresent(o) then Success(Empty())
    else
      var f :- AssertUtil.NotNullOrUndefined(mapper);
      Success(OfNullable(f(o.value)))
  }

  /** `or(supplier)`: the receiver itself when present; otherwise the
      supplier's container, which must not be `null` or `undefined`. */
  function Or<T>(o: Optional<T>, supplier: JsVal<() -> JsVal<Optional<T>>>): (r: Result<Optional<T>>)
    ensures IsPresent(o) ==> r == Success(o)
    ensures !IsPresent(o) && supplier.IsNullish()
        ==> r == Failure(IllegalArgument(AssertUtil.MissingMessage(supplier)))
    ensures !IsPresent(o) && supplier.Defined? && supplier.get().Defined?
        ==> r == Success(supplier.get().get)
    ensures !IsPresent(o) && supplier.Defined? && supplier.get().IsNullish()
        ==> r == Failure(IllegalArgument(AssertUtil.MissingMessage(supplier.get())))
  {
    if IsPresent(o) then Success(o)
    else
      var s :- AssertUtil.NotNullOrUndefined(supplier);
      var result := s();
      AssertUtil.NotNullOrUndefined(result)
  }

  /** `orElse(other)`: never throws; `other` may itself be `null` or
      `undefined`. */
  function OrElse<T>(o: Optional<T>, other: JsVal<T>): (r: JsVal<T>)
    ensures IsPresent(o) ==> r == Defined(o.value)
    ensures !IsPresent(o) ==> r == other
  {
    if IsPresent(o) then Defined(o.value) else other
  }

  /** `orElseGet(supplier)`: the supplier's result is returned unchecked. */
  function OrElseGet<T>(o: Optional<T>, supplier: JsVal<() -> JsVal<T>>): (r: Result<JsVal<T>>)
    ensures IsPresent(o) ==> r == Success(Defined(o.value))
    ensures !IsPresent(o) && supplier.IsNullish()
        ==> r == Failure(IllegalArgument(AssertUtil.MissingMessage(supplier)))
    ensures !IsPresent(o) && supplier.Defined? ==> r == Success(supplier.get())
  {
    if IsPresent(o) then Success(Defined(o.value))
    else
      var s :- AssertUtil.NotNullOrUndefined(supplier);
      Success(s())
  }

  /** `orElseThrow(exceptionSupplier)`: throws the error the supplier builds. */
  function OrElseThrow<T>(o: Optional<T>, exceptionSupplier: JsVal<() -> Error>): (r: Result<T>)
    ensures IsPresent(o) ==> r == Success(o.value)
    ensures !IsPresent(o) ==> r.Failure?
    ensures !IsPresent(o) && exceptionSupplier.IsNullish()
        ==> r.error == IllegalArgument(AssertUtil.MissingMessage(exceptionSupplier))
    ensures !IsPresent(o) && exceptionSupplier.Defined? ==> r.error == exceptionSupplier.get()
  {
    if IsPresent(o) then Success(o.value)
    else
      var s :- AssertUtil.NotNullOrUndefined(exceptionSupplier);
      Failure(s())
  }

  /** `ifPresent(action)`. An action's side effect is the value `E` it
      produces; the result lists the effects performed, in order. */
  function IfPresent<T, E>(o: Optional<T>, action: JsVal<T -> E>): (r: Result<seq<E>>)
    ensures !IsPresent(o) ==> r == Success([])
    ensures IsPresent(o) && action.IsNullish()
        ==> r == Failure(IllegalArgument(AssertUtil.MissingMessage(action)))
    ensures IsPresent(o) && action.Defined? ==> r == Success([action.get(o.value)])
  {
    if IsPresent(o) then
      var a :- AssertUtil.NotNullOrUndefined(action);
      Success([a(o.value)])
    else
      Success([])
  }

  /** `ifPresentOrElse(action, emptyAction)`: performs exactly one of the two,
      and checks only the one it performs. */
  function IfPresentOrElse<T, E>(o: Optional<T>, action: JsVal<T -> E>, emptyAction: JsVal<() -> E>)
    : (r: Result<seq<E>>)
    ensures r.Success? ==> |r.value| == 1
    ensures IsPresent(o) && action.IsNullish()
        ==> r == Failure(IllegalArgument(AssertUtil.MissingMessage(action)))
    ensures IsPresent(o) && action.Defined? ==> r == Success([action.get(o.value)])
    ensures !IsPresent(o) && emptyAction.IsNullish()
        ==> r == Failure(IllegalArgument(AssertUtil.MissingMessage(emptyAction)))
    ensures !IsPresent(o) && emptyAction.Defined? ==> r == Success([emptyAction.get()])
  {
    if IsPresent(o) then
      var a :- AssertUtil.NotNullOrUndefined(action);
      Success([a(o.value)])
    else
      var e :- AssertUtil.NotNullOrUndefined(emptyAction);
      Success([e()])
  }

  /** The held value's own `equals` function, if `typeof value.equals` is
      `'function'`; `None` otherwise. */
  type EqualsLookup<!T> = T -> Option<T -> bool>

  /** JavaScript's `===` on held values. It is not reflexive: `NaN === NaN`
      is false. */
  type StrictEquality<!T> = (T, T) -> bool

  /** `internalEqualResult(other)`, a private helper reached only with a
      present receiver: the receiver's value decides with its own `equals` if
      it has one, else by `===`. The argument is read with `other.get()`, which
      throws when `other` is empty. */
  function InternalEqualResult<T>(o: Optional<T>, other: Optional<T>, equalsOf: EqualsLookup<T>,
                                  strictEq: StrictEquality<T>)
    : (r: Result<bool>)
    requires IsPresent(o)
    ensures r.Success? <==> IsPresent(other)
    ensures !IsPresent(other) ==> r.error == IllegalArgument(AssertUtil.NullMessage)
    ensures IsPresent(other) && equalsOf(o.value).Some?
        ==> r.value == equalsOf(o.value).value(other.value)
    ensures IsPresent(other) && equalsOf(o.value).None?
        ==> (r.value <==> strictEq(o.value, other.value))
  {
    match equalsOf(o.value)
    case Some(eq) =>
      var x :- Get(other);
      Success(eq(x))
    case None =>
      var x :- Get(other);
      Success(strictEq(o.value, x))
  }

  /** `equals(other)`: never throws. */
  function Equals<T>(o: Optional<T>, other: JsVal<Optional<T>>, equalsOf: EqualsLookup<T>,
                     strictEq: StrictEquality<T>): (b: bool)
    ensures other.IsNullish() ==> !b
    ensures other.Defined? && IsPresent(o) != IsPresent(other.get) ==> !b
    ensures other.Defined? && !IsPresent(o) && !IsPresent(other.get) ==> b
    ensures other.Defined? && IsPresent(o) && IsPresent(other.get) && equalsOf(o.value).Some?
        ==> (b <==> equalsOf(o.value).value(other.get.value))
    ensures other.Defined? && IsPresent(o) && IsPresent(other.get) && equalsOf(o.value).None?
        ==> (b <==> strictEq(o.value, other.get.value))
  {
    if other.Null? || other.Undefined? then false
    else if IsPresent(o) != IsPresent(other.get) then false
    else if !IsPresent(o) then true
    else InternalEqualResult(o, other.get, equalsOf, strictEq).value
  }

  /** `toString()`, given the held value's own `toString`. */
  function ToString<T>(o: Optional<T>, show: T -> string): (s: string)
    ensures |s| >= |"Optional[]"|
    ensures s[..9] == "Optional[" && s[|s| - 1] == ']'
    ensures s[9..|s| - 1] == if IsPresent(o) then show(o.value) else "empty"
  {
    var inner := if IsPresent(o) then show(o.value) else "empty";
    "Optional[" + inner + "]"
  }
}
