/** Vocabulary shared by every module of the matrix view model. */
module Base {
  /** A possibly missing value: a `null` slot of `selectedItems`, a failed DOM lookup. */
  datatype Option<T> = None | Some(value: T)

  /** The four logical directions of keyboard navigation and of `scrollIntoView`. */
  datatype Dir = Left | Right | Up | Down
}
