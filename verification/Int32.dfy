/** 32-bit signed integers as Go converts to them. */
module Int32 {
  predicate InInt32(v: int) {
    -0x8000_0000 <= v < 0x8000_0000
  }

  /** Go's conversion to `int32`: the low 32 bits, read as a signed number. */
  function ToInt32(v: int): (r: int)
    ensures InInt32(r)
  {
    if InInt32(v) then v else (v + 0x8000_0000) % 0x1_0000_0000 - 0x8000_0000
  }

  /** The conversion is the only value in range that agrees with the argument modulo 2^32. */
  lemma ToInt32Iff(v: int, r: int)
    requires InInt32(r)
    ensures r == ToInt32(v) <==> (v - r) % 0x1_0000_0000 == 0
  {
  }
}
