/** Failure-carrying datatypes used throughout the model, together with the
    JavaScript truthiness rules the source relies on (`a || b` on strings and
    numbers, `a ?? b` on optional values). */
module Wrappers {

  /** A value that may be absent: JavaScript's `undefined` / `null`. */
  datatype Option<+T> = None | Some(value: T) {

    /** The encapsulated value, or `default` when absent (JavaScript `??`). */
    function GetOr(default: T): T {
      match this
      case Some(v) => v
      case None => default
    }
  }

  /** The outcome of an operation that can throw: a value or an error. */
  datatype Result<+R, +E> = Success(value: R) | Failure(error: E)

  /** A string that JavaScript treats as true: present and non-empty. */
  predicate TruthyString(o: Option<string>) {
    o.Some? && o.value != ""
  }

  /** A number that JavaScript treats as true: present and non-zero. */
  predicate TruthyNumber(o: Option<int>) {
    o.Some? && o.value != 0
  }

  /** JavaScript `o || fallback` where `o` is an optional string. */
  function StringOr(o: Option<string>, fallback: string): (r: string)
    ensures TruthyString(o) ==> r == o.value
    ensures !TruthyString(o) ==> r == fallback
  {
    if TruthyString(o) then o.value else fallback
  }

  /** JavaScript `o || fallback` where `o` is an optional number. */
  function NumberOr(o: Option<int>, fallback: int): (r: int)
    ensures TruthyNumber(o) ==> r == o.value
    ensures !TruthyNumber(o) ==> r == fallback
  {
    if TruthyNumber(o) then o.value else fallback
  }
}
