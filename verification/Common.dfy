/** Types and functions that several modules share. */
module Common {

  type Byte = x: int | 0 <= x < 256

  datatype Option<T> = None | Some(value: T)

  function Min(x: nat, y: nat): nat {
    if x < y then x else y
  }
}
