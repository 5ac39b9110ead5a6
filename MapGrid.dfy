/**
 * The grid helpers of the map generator (mapGeneration.py): Python's integer
 * division and remainder, rounding to a chunk multiple, the constant border
 * around a tile map, and the corner regions searched for spawn points.
 *
 * A tile map is a numpy array of tile ids; it is modelled as its rows, each
 * a sequence of ints, with the array's shape given alongside.
 */
module MapGrid {
  import opened Wrappers
  import Arith

  /** What the generator's helpers raise. */
  datatype MapError =
    | DivisionByZero  // `%` or `//` by zero (ZeroDivisionError)
    | InvalidCorner   // a corner name other than the four known ones (ValueError)

  /** Python's `a // b`: the quotient rounded towards minus infinity. */
  function FloorDiv(a: int, b: int): (q: int)
    requires b != 0
    ensures b > 0 ==> b * q <= a < b * q + b
    ensures b < 0 ==> b * q >= a > b * q + b
  {
    if b > 0 || a % b == 0 then a / b else a / b - 1
  }

  /** Python's `a % b`: the remainder takes the sign of the divisor. */
  function FloorMod(a: int, b: int): (r: int)
    requires b != 0
    ensures a == b * FloorDiv(a, b) + r
    ensures b > 0 ==> 0 <= r < b
    ensures b < 0 ==> b < r <= 0
  {
    if b > 0 || a % b == 0 then a % b else a % b + b
  }

  /**
   * `round_to_chunk`: `number - number % chunk`. For a positive chunk this is
   * the greatest multiple of the chunk not above the number; for a negative
   * chunk, the least multiple not below it.
   */
  function RoundToChunk(number: int, chunk: int): (r: Result<int, MapError>)
    ensures r.Err? <==> chunk == 0
    ensures r.Ok? ==> r.value == chunk * FloorDiv(number, chunk)
    ensures r.Ok? && chunk > 0 ==> r.value <= number < r.value + chunk
    ensures r.Ok? && chunk < 0 ==> r.value >= number > r.value + chunk
  {
    if chunk == 0 then Err(DivisionByZero) else Ok(number - FloorMod(number, chunk))
  }

  // ---------------------------------------------------------------------------
  // Tile maps
  // ---------------------------------------------------------------------------

  /** A numpy array of shape (h, w): h rows of w entries each. */
  predicate Rectangular(grid: seq<seq<int>>, h: nat, w: nat)
  {
    |grid| == h && forall y :: 0 <= y < h ==> |grid[y]| == w
  }

  /** A cell on the outer ring of an h by w map. */
  predicate OnBorder(x: int, y: int, h: int, w: int)
  {
    x == 0 || x == w - 1 || y == 0 || y == h - 1
  }

  const Int32Modulus: int := 0x1_0000_0000
  const Int32Min: int := -0x8000_0000

  predicate IsInt32(v: int)
  {
    Int32Min <= v < Int32Min + Int32Modulus
  }

  /** `astype(np.int32)`: the value taken modulo 2^32 into [-2^31, 2^31). */
  function WrapInt32(v: int): (r: int)
    ensures IsInt32(r)
    ensures (r - v) % Int32Modulus == 0
  {
    var k := -((v - Int32Min) / Int32Modulus);
    var r := (v - Int32Min) % Int32Modulus + Int32Min;
    assert r - v == Int32Modulus * k;
    Arith.DivModUnique(r - v, Int32Modulus, k, 0);
    r
  }

  lemma WrapKeepsInt32(v: int)
    requires IsInt32(v)
    ensures WrapInt32(v) == v
  {
  }

  /**
   * `add_border`: the map padded by one cell on every side with the border
   * value, then cast to int32.
   */
  function AddBorder(grid: seq<seq<int>>, h: nat, w: nat, borderValue: int): (r: seq<seq<int>>)
    requires Rectangular(grid, h, w)
    ensures Rectangular(r, h + 2, w + 2)
    ensures forall y, x :: 0 <= y < h && 0 <= x < w ==> r[y + 1][x + 1] == WrapInt32(grid[y][x])
    ensures forall y, x :: 0 <= y < h + 2 && 0 <= x < w + 2 && OnBorder(x, y, h + 2, w + 2) ==>
      r[y][x] == WrapInt32(borderValue)
  {
    seq(h + 2, y requires 0 <= y < h + 2 =>
      seq(w + 2, x requires 0 <= x < w + 2 =>
        if OnBorder(x, y, h + 2, w + 2) then WrapInt32(borderValue) else WrapInt32(grid[y - 1][x - 1])))
  }

  /** With int32 tile ids and border value, the interior is the input map and the ring is the border value. */
  lemma BorderKeepsInt32Map(grid: seq<seq<int>>, h: nat, w: nat, borderValue: int)
    requires Rectangular(grid, h, w) && IsInt32(borderValue)
    requires forall y, x :: 0 <= y < h && 0 <= x < w ==> IsInt32(grid[y][x])
    ensures forall y, x :: 0 <= y < h && 0 <= x < w ==> AddBorder(grid, h, w, borderValue)[y + 1][x + 1] == grid[y][x]
    ensures forall y, x :: 0 <= y < h + 2 && 0 <= x < w + 2 && OnBorder(x, y, h + 2, w + 2) ==>
      AddBorder(grid, h, w, borderValue)[y][x] == borderValue
  {
    forall y, x | 0 <= y < h && 0 <= x < w
      ensures AddBorder(grid, h, w, borderValue)[y + 1][x + 1] == grid[y][x]
    {
      WrapKeepsInt32(grid[y][x]);
    }
    WrapKeepsInt32(borderValue);
  }

  // ---------------------------------------------------------------------------
  // Corner regions
  // ---------------------------------------------------------------------------

  function Min(a: int, b: int): int { if a <= b then a else b }
  function Max(a: int, b: int): int { if a >= b then a else b }

  /** Search bounds (x_min, x_max, y_min, y_max), inclusive. */
  datatype Region = Region(xMin: int, xMax: int, yMin: int, yMax: int)

  /**
   * `get_corner_region`: the bounds to search in the named corner. On a map
   * of at least 3 by 3 with a positive initial size the region is non-empty,
   * lies inside the border ring, touches its corner and spans fewer than
   * `initial_size + 1` cells each way.
   */
  function CornerRegion(corner: string, w: int, h: int, initialSize: int): (r: Result<Region, MapError>)
    ensures r.Err? <==> corner !in {"top_left", "top_right", "bottom_left", "bottom_right"}
    ensures r.Err? ==> r.error == InvalidCorner
    ensures r.Ok? && w >= 3 && h >= 3 && initialSize >= 1 ==>
      && 1 <= r.value.xMin <= r.value.xMax <= w - 2
      && 1 <= r.value.yMin <= r.value.yMax <= h - 2
      && r.value.xMax - r.value.xMin < initialSize
      && r.value.yMax - r.value.yMin < initialSize
      && (corner in {"top_left", "bottom_left"} ==> r.value.xMin == 1)
      && (corner in {"top_right", "bottom_right"} ==> r.value.xMax == w - 2)
      && (corner in {"top_left", "top_right"} ==> r.value.yMin == 1)
      && (corner in {"bottom_left", "bottom_right"} ==> r.value.yMax == h - 2)
  {
    if corner == "top_left" then
      Ok(Region(1, Min(initialSize, w - 2), 1, Min(initialSize, h - 2)))
    else if corner == "top_right" then
      Ok(Region(Max(w - 1 - initialSize, 1), w - 2, 1, Min(initialSize, h - 2)))
    else if corner == "bottom_left" then
      Ok(Region(1, Min(initialSize, w - 2), Max(h - 1 - initialSize, 1), h - 2))
    else if corner == "bottom_right" then
      Ok(Region(Max(w - 1 - initialSize, 1), w - 2, Max(h - 1 - initialSize, 1), h - 2))
    else Err(InvalidCorner)
  }
}
