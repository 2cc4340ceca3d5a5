/** Small datatypes shared by the models. */
module Basics {

  datatype Option<+T> = None | Some(value: T)

  datatype Result<+T, +E> = Ok(value: T) | Err(error: E)

  ghost predicate NoDuplicates<T>(s: seq<T>) {
    forall i, j | 0 <= i < j < |s| :: s[i] != s[j]
  }

  /** One step of a loop over a set, in no particular order. */
  method Take<T>(todo: set<T>) returns (x: T, rest: set<T>)
    requires todo != {}
    ensures x in todo && rest == todo - {x} && |rest| < |todo|
  {
    x :| x in todo;
    rest := todo - {x};
  }
}
