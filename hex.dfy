/**
 * Integer hex-grid coordinate math: odd-r offset <-> cube conversions and the
 * correction step of cube rounding. Rust's `i32` operators are modelled exactly
 * where they differ from Dafny's (truncating `/`, two's-complement `& 1`).
 */
module Hex {

  /** Rust's `r & 1` on a two's-complement `i32`: the low bit, which is the Euclidean `r % 2`. */
  function LowBit(r: int): (b: int)
    ensures b == 0 || b == 1
    ensures (r - b) % 2 == 0
  {
    r % 2
  }

  /** Rust's `a / 2` on `i32`: division truncating toward zero. */
  function TruncHalf(a: int): (h: int)
    ensures a % 2 == 0 ==> 2 * h == a
    ensures 0 <= a ==> 0 <= h <= a && a - 1 <= 2 * h <= a
    ensures a <= 0 ==> a <= h <= 0 && a <= 2 * h <= a + 1
  {
    if a >= 0 then a / 2 else -((-a) / 2)
  }

  /** `cube_to_offset(q, r)`: the odd-r offset (column, row) of the cube hex with components q and r. */
  function CubeToOffset(q: int, r: int): (off: (int, int))
    ensures off.1 == r
    ensures 2 * (off.0 - q) == r - LowBit(r)
  {
    (q + TruncHalf(r - LowBit(r)), r)
  }

  /** `offset_to_cube(off_x, off_y)`: the cube triple (x, y, z) of an odd-r offset hex. */
  function OffsetToCube(offX: int, offY: int): (c: (int, int, int))
    ensures c.0 + c.1 + c.2 == 0
    ensures c.2 == offY
    ensures 2 * (offX - c.0) == offY - LowBit(offY)
  {
    var x := offX - TruncHalf(offY - LowBit(offY));
    var z := offY;
    var y := -x - z;
    (x, y, z)
  }

  /** Converting an offset hex to cube and back gives the offset hex again. */
  lemma OffsetCubeRoundTrip(offX: int, offY: int)
    ensures var c := OffsetToCube(offX, offY); CubeToOffset(c.0, c.2) == (offX, offY)
  {
  }

  /** Converting cube components (q, r) to offset and back gives the cube hex (q, -q-r, r). */
  lemma CubeOffsetRoundTrip(q: int, r: int)
    ensures var off := CubeToOffset(q, r); OffsetToCube(off.0, off.1) == (q, -q - r, r)
  {
  }

  function AbsReal(x: real): (a: real)
    ensures a >= 0.0 && (a == x || a == -x)
  {
    if x < 0.0 then -x else x
  }

  /** `f32::round` on exact reals: the nearest integer, halves rounded away from zero. */
  function RoundHalfAway(x: real): (n: int)
    ensures AbsReal(n as real - x) <= 0.5
    ensures AbsReal(n as real - x) == 0.5 ==> AbsReal(n as real) > AbsReal(x)
  {
    if x >= 0.0 then (x + 0.5).Floor else -((0.5 - x).Floor)
  }

  /** A whole number rounds to itself. */
  lemma RoundWhole(k: int)
    ensures RoundHalfAway(k as real) == k
  {
    if k >= 0 {
      assert (k as real + 0.5).Floor == k;
    } else {
      assert (0.5 - k as real).Floor == -k;
    }
  }

  /**
   * The state of `cube_round` after its first six lines: each component rounded
   * on its own, and the size of each rounding error.
   */
  datatype RoundedCube = RoundedCube(qi: int, ri: int, si: int, qDiff: real, rDiff: real, sDiff: real)

  /** Component-wise rounding of fractional cube coordinates, as `cube_round` starts. */
  function RoundCube(q: real, r: real, s: real): (c: RoundedCube)
    ensures c.qi == RoundHalfAway(q) && c.ri == RoundHalfAway(r) && c.si == RoundHalfAway(s)
    ensures c.qDiff == AbsReal(c.qi as real - q) && c.rDiff == AbsReal(c.ri as real - r)
         && c.sDiff == AbsReal(c.si as real - s)
    ensures c.qDiff <= 0.5 && c.rDiff <= 0.5 && c.sDiff <= 0.5
    ensures c.qDiff >= 0.0 && c.rDiff >= 0.0 && c.sDiff >= 0.0
  {
    var qi := RoundHalfAway(q);
    var ri := RoundHalfAway(r);
    var si := RoundHalfAway(s);
    RoundedCube(qi, ri, si, AbsReal(qi as real - q), AbsReal(ri as real - r), AbsReal(si as real - s))
  }

  /**
   * The correction step of `cube_round`: one component is recomputed from the
   * other two, so the result is always a valid cube coordinate.
   */
  function CubeRound(c: RoundedCube): (h: (int, int, int))
    ensures h.0 + h.1 + h.2 == 0
  {
    var (qi, ri, si) := (c.qi, c.ri, c.si);
    if c.qDiff > c.rDiff && c.qDiff > c.sDiff then
      (-ri - si, ri, si)
    else if c.rDiff > c.sDiff then
      (qi, -qi - si, si)
    else
      (qi, ri, -qi - ri)
  }

  /**
   * The component recomputed by `cube_round` is one with the largest rounding
   * error; the other two are kept. Because the comparisons are strict, a tie for
   * the largest error goes to the later component (s before r before q).
   */
  lemma CubeRoundRecomputesLargestError(c: RoundedCube)
    ensures var h := CubeRound(c);
      && (c.qDiff > c.rDiff && c.qDiff > c.sDiff ==> h == (-c.ri - c.si, c.ri, c.si))
      && (c.rDiff >= c.qDiff && c.rDiff > c.sDiff ==> h == (c.qi, -c.qi - c.si, c.si))
      && (c.sDiff >= c.qDiff && c.sDiff >= c.rDiff ==> h == (c.qi, c.ri, -c.qi - c.ri))
  {
  }

  /** Rounded components that already sum to zero are returned unchanged, whatever the errors. */
  lemma CubeRoundKeepsValidCube(c: RoundedCube)
    requires c.qi + c.ri + c.si == 0
    ensures CubeRound(c) == (c.qi, c.ri, c.si)
  {
  }

  /** `cube_round` of the exact cube coordinates of a hex gives that hex back. */
  lemma CubeRoundOfHex(q: int, r: int)
    ensures CubeRound(RoundCube(q as real, r as real, (-q - r) as real)) == (q, r, -q - r)
  {
    RoundWhole(q);
    RoundWhole(r);
    RoundWhole(-q - r);
  }
}
