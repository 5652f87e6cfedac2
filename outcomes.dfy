/** Small result types shared by the model. */
module Outcomes {

  /** A value that may be absent (a nullable pointer). */
  datatype Option<T> = None | Some(value: T)

  /** The verdict of one assertion: it returns normally, or it reports a failure
      and never returns. */
  datatype Outcome<F> = Ok | Fail(failure: F)
}
