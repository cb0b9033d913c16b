/**
 * The tile arithmetic of src/core/worker.ts: the size of a tile at a level, the
 * grid cell of a world position, and the Morton (Z-order) index of a cell as
 * computed by `calcZOrderCurveValue` with JavaScript's 32-bit bitwise operators.
 */
module TileIndex {
  import opened Common

  // ---------------------------------------------------------------------------
  // JavaScript int32 conversions
  // ---------------------------------------------------------------------------

  const TwoTo32: int := 0x1_0000_0000
  const TwoTo31: int := 0x8000_0000

  /** ToInt32 as applied to the operands of `|`, `&` and `<<`: the integer modulo 2^32, as 32 bits. */
  function ToBits(i: int): bv32 {
    (i % TwoTo32) as bv32
  }

  /** The number a 32-bit result of `|` or `&` denotes: the bits read as a two's-complement integer. */
  function Signed(b: bv32): int {
    if b < 0x8000_0000 then b as int else b as int - TwoTo32
  }

  /** A signed 32-bit value lies in [-2^31, 2^31) and is negative exactly when bit 31 is set. */
  lemma SignedRange(b: bv32)
    ensures -TwoTo31 <= Signed(b) < TwoTo31
    ensures Signed(b) >= 0 <==> b < 0x8000_0000
  {
    if b < 0x8000_0000 {
      assert b as int < TwoTo31;
    } else {
      assert TwoTo31 <= b as int < TwoTo32;
    }
  }

  /** Distinct 32-bit results denote distinct numbers. */
  lemma SignedInjective(b1: bv32, b2: bv32)
    requires Signed(b1) == Signed(b2)
    ensures b1 == b2
  {
    assert b1 as int == b2 as int;
    assert (b1 as int) as bv32 == b1 && (b2 as int) as bv32 == b2;
  }

  /** ToInt32 leaves a coordinate in [0, 2^16) below 2^16, and below 2^15 exactly when it was. */
  lemma ToBitsSmall(i: int)
    requires 0 <= i < 0x1_0000
    ensures ToBits(i) < 0x1_0000
    ensures ToBits(i) < 0x8000 <==> i < 0x8000
  {
    assert i % TwoTo32 == i;
  }

  // ---------------------------------------------------------------------------
  // calcZOrderCurveValue
  // ---------------------------------------------------------------------------

  const Masks: seq<bv32> := [0x5555_5555, 0x3333_3333, 0x0f0f_0f0f, 0x00ff_00ff]
  const Shifts: seq<bv5> := [1, 2, 4, 8]

  /** One spreading step `v = (v | (v << SHIFTS[k])) & MASKS[k]`. */
  function Spread(v: bv32, k: nat): bv32
    requires k < 4
  {
    (v | (v << Shifts[k])) & Masks[k]
  }

  /** The four spreading steps in the order of the source: shift 8, 4, 2, then 1. */
  function Part1By1(v: bv32): bv32 {
    Spread(Spread(Spread(Spread(v, 3), 2), 1), 0)
  }

  /** `calcZOrderCurveValue` on the 32-bit images of its operands: `x | (y << 1)` after spreading both. */
  function ZOrderBits(x: bv32, y: bv32): bv32 {
    Part1By1(x) | (Part1By1(y) << 1)
  }

  /** `calcZOrderCurveValue(x, y)` for integer `x` and `y`, as the JavaScript number it returns. */
  function ZOrder(x: int, y: int): int {
    Signed(ZOrderBits(ToBits(x), ToBits(y)))
  }

  /** Gathers the even bits of `z` into the low 16 bits: the inverse of `Part1By1`. */
  function Compact(z: bv32): bv32 {
    var a := z & 0x5555_5555;
    var b := (a | (a >> 1)) & 0x3333_3333;
    var c := (b | (b >> 2)) & 0x0f0f_0f0f;
    var d := (c | (c >> 4)) & 0x00ff_00ff;
    (d | (d >> 8)) & 0x0000_ffff
  }

  /** Bit `i` of `b`. */
  function Bit(b: bv32, i: bv32): bool
    requires i < 32
  {
    (b >> i) & 1 == 1
  }

  /** Spreading places bit `i` of a 16-bit value at bit `2i` and clears every odd bit. */
  lemma Part1By1Bits(v: bv32, i: bv32)
    requires v < 0x1_0000 && i < 16
    ensures Bit(Part1By1(v), 2 * i) == Bit(v, i)
    ensures !Bit(Part1By1(v), 2 * i + 1)
  {
  }

  /** For 16-bit coordinates, bit 2i of the index is bit i of x and bit 2i+1 is bit i of y. */
  lemma ZOrderInterleaves(x: bv32, y: bv32, i: bv32)
    requires x < 0x1_0000 && y < 0x1_0000 && i < 16
    ensures Bit(ZOrderBits(x, y), 2 * i) == Bit(x, i)
    ensures Bit(ZOrderBits(x, y), 2 * i + 1) == Bit(y, i)
  {
    Part1By1Bits(x, i);
    Part1By1Bits(y, i);
  }

  /** `Compact` undoes the interleave: both coordinates can be read back from the index. */
  lemma ZOrderRoundTrip(x: bv32, y: bv32)
    requires x < 0x1_0000 && y < 0x1_0000
    ensures Compact(ZOrderBits(x, y)) == x
    ensures Compact(ZOrderBits(x, y) >> 1) == y
  {
  }

  /** Distinct cells with coordinates below 2^16 have distinct 32-bit indices. */
  lemma ZOrderBitsInjective(x1: bv32, y1: bv32, x2: bv32, y2: bv32)
    requires x1 < 0x1_0000 && y1 < 0x1_0000 && x2 < 0x1_0000 && y2 < 0x1_0000
    requires ZOrderBits(x1, y1) == ZOrderBits(x2, y2)
    ensures x1 == x2 && y1 == y2
  {
    ZOrderRoundTrip(x1, y1);
    ZOrderRoundTrip(x2, y2);
  }

  /** Cells whose 32-bit coordinates are below 2^16 get distinct indices. */
  lemma ZOrderInjective(x1: bv32, y1: bv32, x2: bv32, y2: bv32)
    requires x1 < 0x1_0000 && y1 < 0x1_0000 && x2 < 0x1_0000 && y2 < 0x1_0000
    requires Signed(ZOrderBits(x1, y1)) == Signed(ZOrderBits(x2, y2))
    ensures x1 == x2 && y1 == y2
  {
    SignedInjective(ZOrderBits(x1, y1), ZOrderBits(x2, y2));
    ZOrderBitsInjective(x1, y1, x2, y2);
  }

  /** With coordinates in [0, 2^16) the index is non-negative exactly when y < 2^15: bit 31 is bit 15 of y. */
  lemma ZOrderSign(x: int, y: int)
    requires 0 <= x < 0x1_0000 && 0 <= y < 0x1_0000
    ensures ZOrder(x, y) >= 0 <==> y < 0x8000
  {
    var cx, cy := ToBits(x), ToBits(y);
    ToBitsSmall(x);
    ToBitsSmall(y);
    ZOrderInterleaves(cx, cy, 15);
    SignedRange(ZOrderBits(cx, cy));
    assert ZOrderBits(cx, cy) < 0x8000_0000 <==> !Bit(ZOrderBits(cx, cy), 31);
    assert cy < 0x8000 <==> !Bit(cy, 15);
  }

  /** Concrete indices: (3, 5) interleaves to 39 and (5, 3) to 27. */
  lemma ZOrderExamples()
    ensures ZOrder(3, 5) == 39
    ensures ZOrder(5, 3) == 27
    ensures ZOrder(0, 0) == 0
  {
  }

  // ---------------------------------------------------------------------------
  // Tile size and tile coordinates
  // ---------------------------------------------------------------------------

  /** The edge of a level-0 tile in world units; the world spans [-8192, 8192). */
  const RootTileSize: real := 16384.0
  const HalfWorld: real := 8192.0

  /** The size a tile at `level` has: the root size halved `level` times. */
  function TileSizeAt(level: nat): (size: real)
    ensures size > 0.0
  {
    RootTileSize / (Pow2(level) as real)
  }

  /** `let tileSize = 16384; for (let i = 0; i < level; i++) tileSize /= 2;` */
  method TileSize(level: int) returns (tileSize: real)
    ensures tileSize == TileSizeAt(if level < 0 then 0 else level)
  {
    tileSize := 16384.0;
    var i := 0;
    while i < level
      invariant if level < 0 then i == 0 else 0 <= i <= level
      invariant tileSize == TileSizeAt(i)
      decreases level - i
    {
      assert Pow2(i + 1) as real == 2.0 * (Pow2(i) as real);
      tileSize := tileSize / 2.0;
      i := i + 1;
    }
  }

  /** `Math.floor((x + 8192) / tileSize)`: the grid column (or row) of a world coordinate. */
  function TileCoord(x: real, tileSize: real): int
    requires tileSize != 0.0
  {
    ((x + HalfWorld) / tileSize).Floor
  }

  /** Inside the world, a coordinate falls in one of the 2^level cells of its level. */
  lemma TileCoordInRange(x: real, level: nat)
    requires -HalfWorld <= x < HalfWorld
    ensures 0 <= TileCoord(x, TileSizeAt(level)) < Pow2(level)
  {
    var p := Pow2(level) as real;
    var t := TileSizeAt(level);
    assert t * p == RootTileSize;
    var q := (x + HalfWorld) / t;
    assert q * t == x + HalfWorld;
    assert 0.0 <= q;
    assert q * t < p * t;
    MulLess(q, p, t);
  }

  lemma MulLess(a: real, b: real, t: real)
    requires t > 0.0 && a * t < b * t
    ensures a < b
  {
  }

  /** Multiplying by a positive real keeps the order of its factors. */
  lemma MulMono(a: real, b: real, t: real)
    requires t > 0.0 && a <= b
    ensures a * t <= b * t && (a < b ==> a * t < b * t)
  {
  }

  /** A coordinate at cell `c` of `level` lies in [c * tileSize - 8192, (c + 1) * tileSize - 8192). */
  lemma TileCoordCell(x: real, level: nat)
    ensures var c := TileCoord(x, TileSizeAt(level)) as real;
      c * TileSizeAt(level) - HalfWorld <= x < (c + 1.0) * TileSizeAt(level) - HalfWorld
  {
    var t := TileSizeAt(level);
    var q := (x + HalfWorld) / t;
    var c := q.Floor as real;
    assert q * t == x + HalfWorld;
    assert c <= q < c + 1.0;
    MulMono(c, q, t);
    MulMono(q, c + 1.0, t);
  }
}
