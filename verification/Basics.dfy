/** What several parts of the model
    share. */
module Basics {

  datatype Option<T> = None | Some(value: T)

  function Power2(k: nat): (r: nat)
    ensures r > 0
  {
    if k == 0 then 1 else 2 * Power2(k - 1)
  }
}
