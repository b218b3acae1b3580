/** The argument checks of the `AssertUtil` class: each returns its argument
    unchanged or throws `IllegalArgument`, and the class itself cannot be
    instantiated.
 */
module AssertUtil {
  import opened Errors
  import opened Js

  const UtilityClassMessage: string := "AssertUtil is an utility class"
  const NullMessage: string := "value is null"
  const UndefinedMessage: string := "value is not defined"

  /** An instance of the helper class. The class has no state. */
  datatype Instance = Instance

  /** `new AssertUtil()`: the constructor always throws, so the class is a
      namespace of static checks only. */
  function New(): (r: Result<Instance>)
    ensures r.Failure?
    ensures r.error == IllegalAccess(UtilityClassMessage)
  {
    Failure(IllegalAccess(UtilityClassMessage))
  }

  /** `message ? message : default` */
  function MessageOr(message: JsVal<string>, default: string): string {
    if IsTruthy(message) then message.get else default
  }

  /** The message `NotNullOrUndefined` reports for a missing value. */
  function MissingMessage<V>(value: JsVal<V>): string {
    if value.Undefined? then UndefinedMessage else NullMessage
  }

  /** `notNull(value, message?)`: rejects `null` only. */
  function NotNull<V>(value: JsVal<V>, message: JsVal<string>): (r: Result<JsVal<V>>)
    ensures r.Success? <==> !value.Null?
    ensures r.Success? ==> r.value == value
    ensures IsTruthy(message) && r.Failure? ==> r.error == IllegalArgument(message.get)
    ensures !IsTruthy(message) && r.Failure? ==> r.error == IllegalArgument(NullMessage)
  {
    if value.Null? then Failure(IllegalArgument(MessageOr(message, NullMessage)))
    else Success(value)
  }

  /** `notUndefined(value, message?)`: rejects `undefined` only. */
  function NotUndefined<V>(value: JsVal<V>, message: JsVal<string>): (r: Result<JsVal<V>>)
    ensures r.Success? <==> !value.Undefined?
    ensures r.Success? ==> r.value == value
    ensures IsTruthy(message) && r.Failure? ==> r.error == IllegalArgument(message.get)
    ensures !IsTruthy(message) && r.Failure? ==> r.error == IllegalArgument(UndefinedMessage)
  {
    if value.Undefined? then Failure(IllegalArgument(MessageOr(message, UndefinedMessage)))
    else Success(value)
  }

  /** `notNullOrUndefined(value)`: `notUndefined` first, then `notNull`, both
      with their default messages. */
  function NotNullOrUndefined<V>(value: JsVal<V>): (r: Result<V>)
    ensures r.Success? <==> value.Defined?
    ensures value.Defined? ==> r.value == value.get
    ensures value.Undefined? ==> r.error == IllegalArgument(UndefinedMessage)
    ensures value.Null? ==> r.error == IllegalArgument(NullMessage)
  {
    var notUndefined :- NotUndefined(value, Undefined);
    var notNull :- NotNull(value, Undefined);
    Success(value.get)
  }

  /** The combined check accepts exactly what both single checks accept,
      whatever messages those are given, and fails with the error of the first
      single check that fails. */
  lemma CombinedCheckIsBothChecks<V>(value: JsVal<V>, m1: JsVal<string>, m2: JsVal<string>)
    ensures NotNullOrUndefined(value).Success?
        <==> NotUndefined(value, m1).Success? && NotNull(value, m2).Success?
    ensures NotUndefined(value, Undefined).Failure?
        ==> NotNullOrUndefined(value).error == NotUndefined(value, Undefined).error
    ensures NotUndefined(value, Undefined).Success? && NotNull(value, Undefined).Failure?
        ==> NotNullOrUndefined(value).error == NotNull(value, Undefined).error
  {
  }

  /** A failed check reports `MissingMessage`. */
  lemma MissingValueMessage<V>(value: JsVal<V>)
    requires value.IsNullish()
    ensures NotNullOrUndefined(value) == Failure(IllegalArgument(MissingMessage(value)))
  {
  }
}
