/** Results of operations that may yield nothing, or fail with an error. */
module Outcomes {

  datatype Option<+T> = None | Some(value: T)

  datatype Result<+T> = Ok(value: T) | Err

  /** An operation that may also panic. */
  datatype Attempt<+T> = Done(value: T) | Failed | Panicked

  /** Attempted one after another until one is not done, these come to a panic. */
  ghost predicate PanicsFirst<T>(outcomes: seq<Attempt<T>>)
  {
    exists i :: 0 <= i < |outcomes| && outcomes[i].Panicked? && forall j :: 0 <= j < i ==> outcomes[j].Done?
  }
}
