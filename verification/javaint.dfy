/** Java's 32-bit `int` arithmetic, written out over unbounded integers. */
module JavaInt {
  import opened Arith

  const TwoTo31: int := 0x8000_0000
  const TwoTo32: int := 0x1_0000_0000

  /** The value of `v` after a Java narrowing to `int` (two's-complement wrap-around). */
  function Int32(v: int): (r: int)
    ensures -TwoTo31 <= r < TwoTo31
    ensures (r - v) % TwoTo32 == 0
    ensures -TwoTo31 <= v < TwoTo31 ==> r == v
  {
    (v + TwoTo31) % TwoTo32 - TwoTo31
  }

  function Abs(v: int): nat {
    if v < 0 then -v else v
  }

  /**
   * Truncating division over unbounded integers: Java's int division whenever
   * the quotient fits, that is except for MIN_VALUE / -1.
   */
  function JavaDiv(a: int, b: int): (q: int)
    requires b != 0
    ensures Abs(q) * Abs(b) <= Abs(a) < (Abs(q) + 1) * Abs(b)
    ensures q != 0 ==> ((q < 0) <==> ((a < 0) != (b < 0)))
  {
    var m := Abs(a) / Abs(b);
    DivBounds(Abs(a), Abs(b));
    if (a < 0) != (b < 0) then -m else m
  }
}
