/** Small helper datatypes shared by the other modules. */
module Wrappers {

  /** A value that may be missing; `None` stands for C#'s `null` / `default(T)`. */
  datatype Option<+T> = None | Some(value: T)

  function Min(a: int, b: int): (m: int)
    ensures m <= a && m <= b && (m == a || m == b)
  {
    if a <= b then a else b
  }
}
