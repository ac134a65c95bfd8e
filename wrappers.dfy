/** Option and Result, the two failure-compatible shapes the Rust code uses
    (`Option<T>` and `anyhow::Result<T>`), plus the error kinds the model
    distinguishes where the source only carries an opaque `anyhow::Error`. */
module Wrappers {

  datatype Option<+T> = None | Some(value: T)

  datatype Result<+T, +E> = Success(value: T) | Failure(error: E) {
    predicate IsFailure() { Failure? }

    function PropagateFailure<U>(): Result<U, E>
      requires Failure?
    {
      Failure(error)
    }

    function Extract(): T
      requires Success?
    {
      value
    }
  }

  /** The failures the model tells apart. */
  datatype Error =
    | InvalidUrl        // `Url::parse` rejected the link buffer
    | RowNotFound       // `fetch_one` found no row
    | StatementFailed   // a statement inside a transaction failed
    | IdOutOfRange      // `i64 -> u32` conversion in `search`
    | RemoteFailed      // the remote bookmark source failed
    | LaunchFailed      // the browser could not be launched

  /** `Result<()>` of the source. */
  type Status = Result<(), Error>

  const Ok: Status := Success(())
}
