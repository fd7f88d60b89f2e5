/** The optional value every iterator in this project returns from `next`, and the pair
    `Iterator::size_hint` returns. */
module Wrappers {

  datatype Option<+T> = None | Some(value: T)

  /** A lower bound on the values an iterator has left and an upper bound, if it knows one. */
  type Bounds = (nat, Option<nat>)
}
