/**
 * Morton (Z-order) encoding of 3-D grid coordinates and the guarded flat
 * cell index of the particle-volume workload.
 *
 * `MortonEncode` interleaves three 21-bit coordinates into one 64-bit code by
 * spreading each coordinate with four mask-and-shift stages and OR-ing the
 * three spread values together, shifted by 0, 1 and 2.  Everything here is
 * 64-bit unsigned arithmetic, so it is modelled on `bv64`.
 */
module ParticleVolume {
  import opened Wrappers

  // The ten masks mask0..mask9, as the decimal values of the BITMASK_* macros.
  const Mask0: bv64 := 18300341342965825
  const Mask1: bv64 := 146402730743726600
  const Mask2: bv64 := 1152921504606846976
  const Mask3: bv64 := 844631138906115
  const Mask4: bv64 := 126113986927919296
  const Mask5: bv64 := 251658255
  const Mask6: bv64 := 1030792212480
  const Mask7: bv64 := 8725724278030336
  const Mask8: bv64 := 255
  const Mask9: bv64 := 137422176256

  /** The value of one binary digit character. */
  function Digit(c: char): (d: bv64)
    ensures d == 1 <==> c == '1'
    ensures d <= 1
  {
    if c == '1' then 1 else 0
  }

  /** An eight-character binary numeral, most significant digit first. */
  function Bin8(s: string): bv64
    requires |s| == 8
  {
    (Digit(s[0]) << 7) | (Digit(s[1]) << 6) | (Digit(s[2]) << 5) | (Digit(s[3]) << 4)
    | (Digit(s[4]) << 3) | (Digit(s[5]) << 2) | (Digit(s[6]) << 1) | Digit(s[7])
  }

  /** A 64-digit binary numeral given as eight groups of eight digits, most significant first. */
  function Bin64(b7: string, b6: string, b5: string, b4: string, b3: string, b2: string, b1: string, b0: string): bv64
    requires |b7| == 8 && |b6| == 8 && |b5| == 8 && |b4| == 8
    requires |b3| == 8 && |b2| == 8 && |b1| == 8 && |b0| == 8
  {
    (Bin8(b7) << 56) | (Bin8(b6) << 48) | (Bin8(b5) << 40) | (Bin8(b4) << 32)
    | (Bin8(b3) << 24) | (Bin8(b2) << 16) | (Bin8(b1) << 8) | Bin8(b0)
  }

  /**
   * Each decimal BITMASK_* value equals the binary numeral spelled in the
   * macro's name, which is also the 0b literal of the matching maskN.
   */
  lemma MaskSpelling()
    ensures Mask0 == Bin64("00000000", "01000001", "00000100", "00010000", "01000001", "00000100", "00010000", "01000001")
    ensures Mask1 == Bin64("00000010", "00001000", "00100000", "10000010", "00001000", "00100000", "10000010", "00001000")
    ensures Mask2 == Bin64("00010000", "00000000", "00000000", "00000000", "00000000", "00000000", "00000000", "00000000")
    ensures Mask3 == Bin64("00000000", "00000011", "00000000", "00110000", "00000011", "00000000", "00110000", "00000011")
    ensures Mask4 == Bin64("00000001", "11000000", "00001100", "00000000", "11000000", "00001100", "00000000", "11000000")
    ensures Mask5 == Bin64("00000000", "00000000", "00000000", "00000000", "00001111", "00000000", "00000000", "00001111")
    ensures Mask6 == Bin64("00000000", "00000000", "00000000", "11110000", "00000000", "00000000", "11110000", "00000000")
    ensures Mask7 == Bin64("00000000", "00011111", "00000000", "00000000", "00000000", "00000000", "00000000", "00000000")
    ensures Mask8 == Bin64("00000000", "00000000", "00000000", "00000000", "00000000", "00000000", "00000000", "11111111")
    ensures Mask9 == Bin64("00000000", "00000000", "00000000", "00011111", "11111111", "00000000", "00000000", "00000000")
  {
  }

  /** Bit `i` of `v`, as 0 or 1. */
  function Bit(v: bv64, i: bv64): (b: bv64)
    requires i < 64
    ensures b <= 1
  {
    (v >> i) & 1
  }

  /** The `i`-th group of `width` bits of `v` when groups start every `stride` bits. */
  function Group(v: bv64, i: bv64, stride: bv64, width: bv64): bv64
    requires i < 64 && stride < 64 && stride * i < 64 && width < 64
  {
    (v >> (stride * i)) & ((1 << width) - 1)
  }

  /** Bit `k` of coordinate `axis` (0 for x, 1 for y, 2 for z) inside a Morton code. */
  function CodeBit(code: bv64, k: bv64, axis: bv64): (b: bv64)
    requires k < 21 && axis < 3
    ensures b <= 1
  {
    Bit(code, 3 * k + axis)
  }

  /** Bit `k` of a 32-bit input coordinate. */
  function CoordBit(c: bv32, k: bv64): (b: bv64)
    requires k < 32
  {
    Group(c as bv64, k, 1, 1)
  }

  // The four spreading stages of morton_encode, one function per stage.

  function Stage1(v: bv64): bv64 { (v & Mask8) | ((v << 16) & Mask9) }

  function Stage2(v: bv64): bv64 { (v & Mask5) | ((v << 8) & Mask6) | ((v << 16) & Mask7) }

  function Stage3(v: bv64): bv64 { (v & Mask3) | ((v << 4) & Mask4) }

  function Stage4(v: bv64): bv64 { (v & Mask0) | ((v << 2) & Mask1) | ((v << 4) & Mask2) }

  /** One coordinate, widened to 64 bits, after all four stages. */
  function Spread(v: bv64): bv64
  {
    Stage4(Stage3(Stage2(Stage1(v))))
  }

  // The layout each spreading stage leaves behind, as drawn in the comment
  // after it in the source.  No other bit is set after any stage, so bits 21
  // and up of the input never survive.

  /** Stage 1 keeps bits 0-7 and moves bits 8-20 to bits 24-36. */
  lemma Stage1Layout(v: bv64)
    ensures Stage1(v) & !(Mask8 | Mask9) == 0
    ensures Group(Stage1(v), 0, 0, 8) == Group(v, 0, 0, 8)
    ensures Group(Stage1(v), 1, 24, 13) == Group(v, 1, 8, 13)
  {
  }

  lemma Stage2Nibble(v: bv64, i: bv64)
    requires i < 4
    ensures Group(Stage2(Stage1(v)), i, 12, 4) == Group(v, i, 4, 4)
  {
  }

  /** After stage 2, nibble i (i < 4) sits at bit 12i and bits 16-20 at bit 48. */
  lemma Stage2Layout(v: bv64)
    ensures Stage2(Stage1(v)) & !(Mask5 | Mask6 | Mask7) == 0
    ensures forall i: bv64 :: i < 4 ==> Group(Stage2(Stage1(v)), i, 12, 4) == Group(v, i, 4, 4)
    ensures Group(Stage2(Stage1(v)), 4, 12, 5) == Group(v, 4, 4, 5)
  {
    forall i: bv64 | i < 4 ensures Group(Stage2(Stage1(v)), i, 12, 4) == Group(v, i, 4, 4) {
      Stage2Nibble(v, i);
    }
  }

  lemma Stage3Pair(v: bv64, j: bv64)
    requires j < 9
    ensures Group(Stage3(Stage2(Stage1(v))), j, 6, 2) == Group(v, j, 2, 2)
  {
  }

  /** After stage 3, bit pair j (j < 9) sits at bit 6j and bits 18-20 at bit 54. */
  lemma Stage3Layout(v: bv64)
    ensures Stage3(Stage2(Stage1(v))) & !(Mask3 | Mask4) == 0
    ensures forall j: bv64 :: j < 9 ==> Group(Stage3(Stage2(Stage1(v))), j, 6, 2) == Group(v, j, 2, 2)
    ensures Group(Stage3(Stage2(Stage1(v))), 9, 6, 3) == Group(v, 9, 2, 3)
  {
    forall j: bv64 | j < 9 ensures Group(Stage3(Stage2(Stage1(v))), j, 6, 2) == Group(v, j, 2, 2) {
      Stage3Pair(v, j);
    }
  }

  lemma SpreadBit(v: bv64, k: bv64)
    requires k < 21
    ensures CodeBit(Spread(v), k, 0) == Group(v, k, 1, 1)
  {
  }

  /** After stage 4, bit k (k < 21) sits at bit 3k and every other bit is 0. */
  lemma SpreadLayout(v: bv64)
    ensures Spread(v) & !(Mask0 | Mask1 | Mask2) == 0
    ensures forall k: bv64 :: k < 21 ==> CodeBit(Spread(v), k, 0) == Group(v, k, 1, 1)
  {
    forall k: bv64 | k < 21 ensures CodeBit(Spread(v), k, 0) == Group(v, k, 1, 1) {
      SpreadBit(v, k);
    }
  }

  /** Three spread coordinates OR-ed together, shifted by 0, 1 and 2. */
  function Interleave(sx: bv64, sy: bv64, sz: bv64): bv64
  {
    sx | (sy << 1) | (sz << 2)
  }

  lemma InterleaveBitX(sx: bv64, sy: bv64, sz: bv64, k: bv64)
    requires sy & !(Mask0 | Mask1 | Mask2) == 0 && sz & !(Mask0 | Mask1 | Mask2) == 0
    requires k < 21
    ensures CodeBit(Interleave(sx, sy, sz), k, 0) == CodeBit(sx, k, 0)
  {
  }

  lemma InterleaveBitY(sx: bv64, sy: bv64, sz: bv64, k: bv64)
    requires sx & !(Mask0 | Mask1 | Mask2) == 0 && sz & !(Mask0 | Mask1 | Mask2) == 0
    requires k < 21
    ensures CodeBit(Interleave(sx, sy, sz), k, 1) == CodeBit(sy, k, 0)
  {
  }

  lemma InterleaveBitZ(sx: bv64, sy: bv64, sz: bv64, k: bv64)
    requires sx & !(Mask0 | Mask1 | Mask2) == 0 && sy & !(Mask0 | Mask1 | Mask2) == 0
    requires k < 21
    ensures CodeBit(Interleave(sx, sy, sz), k, 2) == CodeBit(sz, k, 0)
  {
  }

  lemma InterleaveTop(sx: bv64, sy: bv64, sz: bv64)
    requires sx & !(Mask0 | Mask1 | Mask2) == 0
    requires sy & !(Mask0 | Mask1 | Mask2) == 0
    requires sz & !(Mask0 | Mask1 | Mask2) == 0
    ensures Interleave(sx, sy, sz) >> 63 == 0
  {
  }

  /** Bits of the three spread coordinates sit at distinct positions of the code. */
  lemma InterleaveLayout(sx: bv64, sy: bv64, sz: bv64)
    requires sx & !(Mask0 | Mask1 | Mask2) == 0
    requires sy & !(Mask0 | Mask1 | Mask2) == 0
    requires sz & !(Mask0 | Mask1 | Mask2) == 0
    ensures forall k: bv64 :: k < 21 ==> CodeBit(Interleave(sx, sy, sz), k, 0) == CodeBit(sx, k, 0)
    ensures forall k: bv64 :: k < 21 ==> CodeBit(Interleave(sx, sy, sz), k, 1) == CodeBit(sy, k, 0)
    ensures forall k: bv64 :: k < 21 ==> CodeBit(Interleave(sx, sy, sz), k, 2) == CodeBit(sz, k, 0)
    ensures Interleave(sx, sy, sz) >> 63 == 0
  {
    forall k: bv64 | k < 21 ensures CodeBit(Interleave(sx, sy, sz), k, 0) == CodeBit(sx, k, 0) {
      InterleaveBitX(sx, sy, sz, k);
    }
    forall k: bv64 | k < 21 ensures CodeBit(Interleave(sx, sy, sz), k, 1) == CodeBit(sy, k, 0) {
      InterleaveBitY(sx, sy, sz, k);
    }
    forall k: bv64 | k < 21 ensures CodeBit(Interleave(sx, sy, sz), k, 2) == CodeBit(sz, k, 0) {
      InterleaveBitZ(sx, sy, sz, k);
    }
    InterleaveTop(sx, sy, sz);
  }

  /**
   * morton_encode: bit k of x, y and z lands at bits 3k, 3k+1 and 3k+2 of the
   * code for every k < 21, and bit 63 of the code is always 0.
   */
  function MortonEncode(x: bv32, y: bv32, z: bv32): (r: bv64)
    ensures forall k: bv64 :: k < 21 ==> CodeBit(r, k, 0) == CoordBit(x, k)
    ensures forall k: bv64 :: k < 21 ==> CodeBit(r, k, 1) == CoordBit(y, k)
    ensures forall k: bv64 :: k < 21 ==> CodeBit(r, k, 2) == CoordBit(z, k)
    ensures r >> 63 == 0
  {
    SpreadLayout(x as bv64); SpreadLayout(y as bv64); SpreadLayout(z as bv64);
    InterleaveLayout(Spread(x as bv64), Spread(y as bv64), Spread(z as bv64));
    Interleave(Spread(x as bv64), Spread(y as bv64), Spread(z as bv64))
  }

  /** The low 21 bits of a coordinate (BITMASK_21BITS is 2^21 - 1). */
  function Low21(c: bv32): bv32 { c & 0x1F_FFFF }

  /** Bits 0 .. m-1 of a coordinate, widened to 64 bits. */
  function LowPart(c: bv32, m: bv64): bv64
    requires m <= 32
  {
    (c as bv64) & ((1 << m) - 1)
  }

  lemma LowPartStep(a: bv32, b: bv32, m: bv64)
    requires m < 21
    requires LowPart(a, m) == LowPart(b, m)
    requires CoordBit(a, m) == CoordBit(b, m)
    ensures LowPart(a, m + 1) == LowPart(b, m + 1)
  {
  }

  lemma LowPart21(c: bv32)
    ensures LowPart(c, 21) == Low21(c) as bv64
  {
  }

  /** Two coordinates agreeing on bits 0 .. 20 have the same low 21 bits. */
  lemma {:induction false} SameBitsSameLow21(a: bv32, b: bv32)
    requires forall k: bv64 :: k < 21 ==> CoordBit(a, k) == CoordBit(b, k)
    ensures Low21(a) == Low21(b)
  {
    var m: bv64 := 0;
    while m < 21
      invariant m <= 21
      invariant LowPart(a, m) == LowPart(b, m)
      decreases 21 - m
    {
      LowPartStep(a, b, m);
      m := m + 1;
    }
    LowPart21(a);
    LowPart21(b);
  }

  /** Two coordinate triples share a code exactly when their low 21 bits agree. */
  lemma {:induction false} MortonSameCode(x1: bv32, y1: bv32, z1: bv32, x2: bv32, y2: bv32, z2: bv32)
    ensures MortonEncode(x1, y1, z1) == MortonEncode(x2, y2, z2)
        <==> Low21(x1) == Low21(x2) && Low21(y1) == Low21(y2) && Low21(z1) == Low21(z2)
  {
    if MortonEncode(x1, y1, z1) == MortonEncode(x2, y2, z2) {
      SameBitsSameLow21(x1, x2);
      SameBitsSameLow21(y1, y2);
      SameBitsSameLow21(z1, z2);
    }
    if Low21(x1) == Low21(x2) && Low21(y1) == Low21(y2) && Low21(z1) == Low21(z2) {
      MortonIgnoresHighBits(x1, y1, z1);
      MortonIgnoresHighBits(x2, y2, z2);
    }
  }

  /** Codes of coordinates below 2^21 never collide. */
  lemma {:induction false} MortonInjective(x1: bv32, y1: bv32, z1: bv32, x2: bv32, y2: bv32, z2: bv32)
    requires Low21(x1) == x1 && Low21(y1) == y1 && Low21(z1) == z1
    requires Low21(x2) == x2 && Low21(y2) == y2 && Low21(z2) == z2
    requires MortonEncode(x1, y1, z1) == MortonEncode(x2, y2, z2)
    ensures x1 == x2 && y1 == y2 && z1 == z2
  {
    MortonSameCode(x1, y1, z1, x2, y2, z2);
  }

  /** Stage 1 keeps only input bits 0-20, so the spread of a coordinate depends on those alone. */
  lemma SpreadLow21(c: bv32)
    ensures Spread(Low21(c) as bv64) == Spread(c as bv64)
  {
    assert Stage1(Low21(c) as bv64) == Stage1(c as bv64);
  }

  /** Only the low 21 bits of each coordinate reach the code. */
  lemma {:induction false} MortonIgnoresHighBits(x: bv32, y: bv32, z: bv32)
    ensures MortonEncode(x, y, z) == MortonEncode(Low21(x), Low21(y), Low21(z))
  {
    SpreadLow21(x);
    SpreadLow21(y);
    SpreadLow21(z);
  }

  /**
   * The flat grid index of cell (hx, hy, hz) in particle_over_grid, or None
   * when one of the two `continue` guards skips the cell.
   */
  function CellIndex(hx: int, hy: int, hz: int, nx: int, ny: int, nz: int): (r: Option<int>)
    ensures r.Some? <==> 0 <= hx < nx && 0 <= hy < ny && 0 <= hz < nz
    ensures r.Some? ==> 0 <= r.value < nx * ny * nz
  {
    if hz < 0 || hy < 0 || hx < 0 then None
    else if hz >= nz || hy >= ny || hx >= nx then None
    else
      CellIndexBound(hx, hy, hz, nx, ny, nz);
      Some(hx + nx * (hy + hz * ny))
  }

  lemma CellIndexBound(hx: nat, hy: nat, hz: nat, nx: int, ny: int, nz: int)
    requires hx < nx && hy < ny && hz < nz
    ensures 0 <= hx + nx * (hy + hz * ny) < nx * ny * nz
  {
    MulLe(hz, nz - 1, ny);
    assert (nz - 1) * ny == nz * ny - ny;
    var m := hy + hz * ny;
    assert 0 <= m <= nz * ny - 1;
    MulLe(m, nz * ny - 1, nx);
    assert (nz * ny - 1) * nx == nx * ny * nz - nx;
  }

  lemma MulLe(a: int, b: int, c: int)
    requires 0 <= a <= b && 0 <= c
    ensures 0 <= a * c <= b * c
  {
  }

  /** The cell coordinates (x, y, z) that a flat index stands for in an nx-by-ny-by-nz grid. */
  function CellCoordinates(c: nat, nx: nat, ny: nat): (int, int, int)
    requires nx > 0 && ny > 0
  {
    (c % nx, (c / nx) % ny, (c / nx) / ny)
  }

  /** A flat index determines its cell: distinct cells inside the grid get distinct indices. */
  lemma {:induction false} CellIndexRoundTrip(hx: int, hy: int, hz: int, nx: int, ny: int, nz: int)
    requires CellIndex(hx, hy, hz, nx, ny, nz).Some?
    ensures CellCoordinates(CellIndex(hx, hy, hz, nx, ny, nz).value, nx, ny) == (hx, hy, hz)
  {
    var m := hy + hz * ny;
    DivMod(hx + nx * m, nx, m, hx);
    DivMod(m, ny, hz, hy);
  }

  lemma DivMod(c: int, d: int, q: int, r: int)
    requires 0 <= r < d && c == d * q + r
    ensures c / d == q && c % d == r
  {
    var q', r' := c / d, c % d;
    assert d * q' + r' == d * q + r;
    if q' < q {
      MulLe(1, q - q', d);
    } else if q < q' {
      MulLe(1, q' - q, d);
    }
  }
}
