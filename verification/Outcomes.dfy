/** Results of operations that the scripts end with a value, with None or with an exception. */
module Outcomes {

  datatype Option<+T> = None | Some(value: T)

  datatype Result<+T, +E> = Ok(value: T) | Err(error: E)

  /** What a loop has collected put before the outcome of the rest; a failure there is one of the whole. */
  function Prepend<T>(front: seq<T>, rest: Option<seq<T>>): Option<seq<T>> {
    match rest
    case None => None
    case Some(items) => Some(front + items)
  }

  lemma PrependTwice<T>(a: seq<T>, b: seq<T>, rest: Option<seq<T>>)
    ensures Prepend(a, Prepend(b, rest)) == Prepend(a + b, rest)
    ensures Prepend([], rest) == rest
  {
    match rest
    case None =>
    case Some(items) =>
      assert a + (b + items) == a + b + items;
      assert [] + items == items;
  }

  /** The same where the rest may end with an error. */
  function PrependOk<T, E>(front: seq<T>, rest: Result<seq<T>, E>): Result<seq<T>, E> {
    match rest
    case Ok(items) => Ok(front + items)
    case Err(e) => Err(e)
  }

  lemma PrependOkTwice<T, E>(a: seq<T>, b: seq<T>, rest: Result<seq<T>, E>)
    ensures PrependOk(a, PrependOk(b, rest)) == PrependOk(a + b, rest)
    ensures PrependOk([], rest) == rest
  {
    match rest
    case Err(_) =>
    case Ok(items) =>
      assert a + (b + items) == a + b + items;
      assert [] + items == items;
  }
}
