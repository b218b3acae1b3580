/** The part of JavaScript's value model the library inspects: the two
    "no value" markers, and whether a value offers an optional capability.
 */
module Js {

  /** A JavaScript value as the library's checks see it: `null`, `undefined`
      (which is also what a parameter that was not passed holds), or any other
      value of type `T`. A callback argument is a `JsVal` of a function type.
   */
  datatype JsVal<+T> = Null | Undefined | Defined(get: T) {

    /** `null === x || typeof x === 'undefined'` */
    predicate IsNullish() {
      Null? || Undefined?
    }
  }

  /** Whether a value offers a capability, such as an own `equals` function. */
  datatype Option<+T> = None | Some(value: T)

  /** JavaScript truthiness of an optional string: `null`, `undefined` and the
      empty string are falsy, every other string is truthy. */
  predicate IsTruthy(s: JsVal<string>) {
    s.Defined? && s.get != ""
  }
}
