/**
 * The C `int` of the targets the programs are built for: 32-bit two's
 * complement.  Shared by the trace serialiser (the `RefType` enum's
 * underlying type), the sorting comparator and the Dijkstra tables.
 */
module CInt {

  const IntMin: int := -0x8000_0000
  const IntMax: int := 0x7fff_ffff

  /** The values of a 32-bit `int`, INT_MIN to INT_MAX. */
  type Int32 = x: int | -0x8000_0000 <= x <= 0x7fff_ffff

  /** A 32-bit two's-complement result: `x` reduced into the Int32 range. */
  function Wrap32(x: int): (r: Int32)
    ensures (r - x) % 0x1_0000_0000 == 0
  {
    var m := x % 0x1_0000_0000;
    if m < 0x8000_0000 then m else m - 0x1_0000_0000
  }
}
