/** Result types shared by the whole model. */
module Wrappers {

  /** Rust's `Option`. */
  datatype Option<+T> = None | Some(value: T)

  /** How a call of the resolver ends: `Done(v)` is a normal return carrying `v`
      (Rust's `Some(v)`), `Fail` a normal return of `None`, and `Panic` a panic
      (an `expect` on a missing value, or a slice index out of range). */
  datatype Exit<+T> = Done(value: T) | Fail | Panic
}
