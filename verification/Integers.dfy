/** Absolute values. */
module Integers {
  function Abs(v: int): nat {
    if v < 0 then -v else v
  }
}
