/** Sum types shared by every crate of the model. */
module Wrappers {

  /** Rust's `Option`. */
  datatype Option<T> = None | Some(value: T)

  /** Rust's `Result`. The failure arm is called `Fail` so that it is never
      confused with the `Err` arm of a `Rejection`. */
  datatype Result<T, E> = Ok(value: T) | Fail(error: E)

  /** The `Either` that the `Or` combinators tag their outputs with:
      `A` for the first branch, `B` for the second. */
  datatype Either<L, R> = A(left: L) | B(right: R)

  /** What driving a future to completion yields: its output, or a panic
      with the message the source passes to `panic!`. */
  datatype Run<T> = Done(value: T) | Panic(message: string)

  /** The elements of a sequence, as a set. */
  function Elems<T>(s: seq<T>): set<T> {
    set x | x in s
  }
}
