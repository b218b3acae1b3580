/** Fluent call chains such as `o.filter(p).map(f).flatMap(g).or(s)`. Each
    call works on the container the previous one returned, and the first call
    that throws ends the chain with its error. The calls in one chain share the
    value type `T`, as JavaScript's values all live in one runtime type.
 */
module Chains {
  import opened Errors
  import opened Js
  import opened Optionals
  import AssertUtil

  /** One call of a chain with the argument passed to it. */
  datatype Call<!T> =
    | FilterCall(pred: JsVal<T -> bool>)
    | MapCall(mapper: JsVal<T -> JsVal<T>>)
    | FlatMapCall(flatMapper: JsVal<T -> JsVal<Optional<T>>>)
    | OrCall(supplier: JsVal<() -> JsVal<Optional<T>>>)

  function Apply<T>(o: Optional<T>, c: Call<T>): Result<Optional<T>> {
    match c
    case FilterCall(p) => Filter(o, p)
    case MapCall(f) => Map(o, f)
    case FlatMapCall(f) => FlatMap(o, f)
    case OrCall(s) => Or(o, s)
  }

  /** Evaluates the chain left to right, stopping at the first error. */
  function Run<T>(o: Optional<T>, calls: seq<Call<T>>): Result<Optional<T>>
    decreases |calls|
  {
    if |calls| == 0 then Success(o)
    else
      var next :- Apply(o, calls[0]);
      Run(next, calls[1..])
  }

  /** A chain made of `filter`, `map` and `flatMap` calls only. */
  predicate Transforms<T>(calls: seq<Call<T>>) {
    forall i :: 0 <= i < |calls| ==> !calls[i].OrCall?
  }

  /** An empty container passes unchanged through any chain of `filter`,
      `map` and `flatMap`, and no callback of it is consulted or checked. */
  lemma {:induction false} EmptyPassesThrough<T>(calls: seq<Call<T>>)
    requires Transforms(calls)
    ensures Run(Empty(), calls) == Success(Empty())
    decreases |calls|
  {
    if |calls| > 0 {
      assert Apply(Empty(), calls[0]) == Success(Empty());
      EmptyPassesThrough(calls[1..]);
    }
  }

  /** A present container passes unchanged through any chain of `or` calls,
      and no supplier of it is consulted or checked. */
  lemma {:induction false} PresentSkipsOr<T>(o: Optional<T>, calls: seq<Call<T>>)
    requires IsPresent(o)
    requires forall i :: 0 <= i < |calls| ==> calls[i].OrCall?
    ensures Run(o, calls) == Success(o)
    decreases |calls|
  {
    if |calls| > 0 {
      assert Apply(o, calls[0]) == Success(o);
      PresentSkipsOr(o, calls[1..]);
    }
  }

  /** Every predicate of a chain of `filter` calls accepts `v`. */
  predicate AllAccept<T>(calls: seq<Call<T>>, v: T)
    requires forall i :: 0 <= i < |calls| ==> calls[i].FilterCall? && calls[i].pred.Defined?
  {
    forall i :: 0 <= i < |calls| ==> calls[i].pred.get(v)
  }

  /** A chain of `filter` calls keeps the container exactly when every
      predicate accepts its value, and empties it otherwise. */
  lemma {:induction false} FilterChain<T>(o: Optional<T>, calls: seq<Call<T>>)
    requires forall i :: 0 <= i < |calls| ==> calls[i].FilterCall? && calls[i].pred.Defined?
    ensures Run(o, calls) == Success(if IsPresent(o) && AllAccept(calls, o.value) then o else Empty())
    decreases |calls|
  {
    if |calls| > 0 {
      var rest := calls[1..];
      assert forall i :: 0 <= i < |rest| ==> rest[i] == calls[i + 1];
      var next := Apply(o, calls[0]).value;
      FilterChain(next, rest);
      if IsPresent(o) && calls[0].pred.get(o.value) {
        assert next == o;
        assert AllAccept(calls, o.value) <==> AllAccept(rest, o.value);
      } else if IsPresent(o) {
        assert !AllAccept(calls, o.value);
      }
    }
  }

  /** Threads a value through the mappers of a chain of `map` calls, stopping
      at the first `null` or `undefined`: the value the chain ends with. */
  function Thread<T>(x: JsVal<T>, calls: seq<Call<T>>): JsVal<T>
    requires forall i :: 0 <= i < |calls| ==> calls[i].MapCall? && calls[i].mapper.Defined?
    decreases |calls|
  {
    if |calls| == 0 || !x.Defined? then x
    else Thread(calls[0].mapper.get(x.get), calls[1..])
  }

  /** A chain of `map` calls is one `ofNullable` of the threaded value: this
      generalises `o.map(f).map(g) == o.map(x => g(f(x)))` to any length. */
  lemma {:induction false} MapChain<T>(o: Optional<T>, calls: seq<Call<T>>)
    requires forall i :: 0 <= i < |calls| ==> calls[i].MapCall? && calls[i].mapper.Defined?
    ensures Run(o, calls) == Success(OfNullable(Thread(Slot(o), calls)))
    decreases |calls|
  {
    if |calls| == 0 {
      if IsPresent(o) {
        assert Of(Slot(o)) == Success(o);
      }
    } else {
      var rest := calls[1..];
      assert forall i :: 0 <= i < |rest| ==> rest[i] == calls[i + 1];
      var next := Apply(o, calls[0]).value;
      MapChain(next, rest);
      if IsPresent(o) {
        var y := calls[0].mapper.get(o.value);
        assert next == OfNullable(y);
        if y.Defined? {
          assert Slot(next) == y;
        } else {
          assert Slot(next) == Null;
          assert Thread(Null, rest) == Null;
        }
      } else {
        assert Thread(Slot(o), calls) == Null;
        assert Thread(Null, rest) == Null;
      }
    }
  }

  /** The call's callback is passed, and a callback whose result must be a
      container never returns `null` or `undefined`. */
  ghost predicate WellFormed<T(!new)>(c: Call<T>) {
    match c
    case FilterCall(p) => p.Defined?
    case MapCall(f) => f.Defined?
    case FlatMapCall(f) => f.Defined? && forall x :: f.get(x).Defined?
    case OrCall(s) => s.Defined? && s.get().Defined?
  }

  /** A chain of well-formed calls never throws. */
  lemma {:induction false} WellFormedChainSucceeds<T(!new)>(o: Optional<T>, calls: seq<Call<T>>)
    requires forall i :: 0 <= i < |calls| ==> WellFormed(calls[i])
    ensures Run(o, calls).Success?
    decreases |calls|
  {
    if |calls| > 0 {
      assert WellFormed(calls[0]);
      assert Apply(o, calls[0]).Success?;
      WellFormedChainSucceeds(Apply(o, calls[0]).value, calls[1..]);
    }
  }

  /** The only error a chain throws is `IllegalArgument`, with the message of
      `notNullOrUndefined`. */
  lemma {:induction false} ChainErrorsAreIllegalArgument<T>(o: Optional<T>, calls: seq<Call<T>>)
    ensures Run(o, calls).Failure? ==> Run(o, calls).error.IllegalArgument?
    ensures Run(o, calls).Failure?
        ==> Run(o, calls).error.message in {AssertUtil.NullMessage, AssertUtil.UndefinedMessage}
    decreases |calls|
  {
    if |calls| > 0 {
      var step := Apply(o, calls[0]);
      if step.Success? {
        ChainErrorsAreIllegalArgument(step.value, calls[1..]);
      }
    }
  }
}
