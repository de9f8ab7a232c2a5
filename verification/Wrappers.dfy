/** Option and Result values shared by all modules. */
module Wrappers {
  datatype Option<+T> = None | Some(value: T)

  datatype Result<+R, +E> = Success(value: R) | Failure(error: E)

  /** What was produced before, in front of what is still to come; a failure to come stands. */
  function After<T, E>(done: seq<T>, rest: Result<seq<T>, E>): Result<seq<T>, E> {
    match rest
    case Failure(_) => rest
    case Success(more) => Success(done + more)
  }

  lemma AfterBoth<T, E>(done: seq<T>, next: seq<T>, rest: Result<seq<T>, E>)
    ensures After([], rest) == rest && After(done, After(next, rest)) == After(done + next, rest)
  {
    assert forall more: seq<T> :: [] + more == more && done + (next + more) == (done + next) + more;
  }

  function AfterSome<T>(done: seq<T>, rest: Option<seq<T>>): Option<seq<T>> {
    match rest
    case None => None
    case Some(more) => Some(done + more)
  }

  lemma AfterSomeBoth<T>(done: seq<T>, next: seq<T>, rest: Option<seq<T>>)
    ensures AfterSome([], rest) == rest && AfterSome(done, AfterSome(next, rest)) == AfterSome(done + next, rest)
  {
    assert forall more: seq<T> :: [] + more == more && done + (next + more) == (done + next) + more;
  }
}
