/** Small notions that every model uses. */
module Common {
  datatype Option<+T> = None | Some(value: T)

  function Min(a: nat, b: nat): nat {
    if a > b then b else a
  }
}
