/** Board geometry and the small vector helpers of the game (src/main.js:11-43).
    Positions are kept in quarter cells: every position the game ever reaches is a
    multiple of 0.25, so `Vec(4 * x, 4 * y)` stands for the cell position `[x, y]`. */
module Geometry {

  /** Board width and height in cells. Products, quotients and remainders below
      write the width (10), the cell count (180) and the quarter (4) as literals,
      which keeps that arithmetic linear for the solver. */
  const Width := 10
  const Height := 18
  /** Width * Height. */
  const Size := 180
  /** Number of position units per cell. */
  const Quarter := 4

  datatype Vec = Vec(x: int, y: int)

  /** `add`: component-wise sum. */
  function Add(a: Vec, b: Vec): (r: Vec)
    ensures r.x - b.x == a.x && r.y - b.y == a.y
  {
    Vec(a.x + b.x, a.y + b.y)
  }

  /** `eq`: component-wise comparison, which is structural equality. */
  function Eq(a: Vec, b: Vec): (r: bool)
    ensures r <==> a == b
  {
    a.x == b.x && a.y == b.y
  }

  /** `Math.trunc(q / 4)`: quarter units to whole cells, rounding toward zero. */
  function TruncQ(q: int): (c: int)
    ensures q >= 0 ==> 0 <= 4 * c <= q < 4 * c + Quarter
    ensures q < 0 ==> 4 * c - Quarter < q <= 4 * c <= 0
  {
    if q >= 0 then q / 4 else -((-q) / 4)
  }

  /** `trunc`: the cell a position lies in. Each component is rounded toward
      zero: it is the cell the coordinate lies in when the coordinate is 0 or
      more, and the cell one nearer to 0 when it is negative and not whole. */
  function Trunc(p: Vec): (c: Vec)
    ensures p.x >= 0 ==> 0 <= 4 * c.x <= p.x < 4 * c.x + Quarter
    ensures p.x < 0 ==> 4 * c.x - Quarter < p.x <= 4 * c.x <= 0
    ensures p.y >= 0 ==> 0 <= 4 * c.y <= p.y < 4 * c.y + Quarter
    ensures p.y < 0 ==> 4 * c.y - Quarter < p.y <= 4 * c.y <= 0
  {
    Vec(TruncQ(p.x), TruncQ(p.y))
  }

  /** `Math.trunc(i / 10)`: the row of an offset, rounding toward zero. */
  function TruncRow(i: int): (q: int)
    ensures i >= 0 ==> 0 <= 10 * q <= i < 10 * q + 10
    ensures i < 0 ==> 10 * q - 10 < i <= 10 * q <= 0
  {
    if i >= 0 then i / 10 else -((-i) / 10)
  }

  /** `index`: row-major offset of cell (x, y). */
  function Index(x: int, y: int): (i: int)
    ensures 0 <= x < Width && 0 <= y < Height ==> 0 <= i < Size
  {
    y * 10 + x
  }

  /** `unindex`: JavaScript's `%` keeps the sign of the dividend, and the row is
      truncated toward zero. */
  function Unindex(i: int): (p: Vec)
    ensures Index(p.x, p.y) == i
    ensures -Width < p.x < Width
    ensures i >= 0 ==> p.x >= 0
    ensures i <= 0 ==> p.x <= 0
    ensures 0 <= i < Size ==> 0 <= p.x < Width && 0 <= p.y < Height
  {
    var row := TruncRow(i);
    Vec(i - 10 * row, row)
  }

  lemma UnindexIndex(x: int, y: int)
    requires 0 <= x < Width && 0 <= y
    ensures Unindex(Index(x, y)) == Vec(x, y)
  {
    assert Index(x, y) / 10 == y;
  }

  /** Column and row of an in-range offset, in Dafny's own arithmetic. */
  lemma IndexParts(x: int, y: int)
    requires 0 <= x < Width && 0 <= y < Height
    ensures Index(x, y) % 10 == x && Index(x, y) / 10 == y
  {
  }

  /** The offsets of row y are those whose quotient by the width is y. */
  lemma RowsOf(y: int)
    ensures forall i :: y * 10 <= i < y * 10 + 10 ==> i / 10 == y
  {
  }

  lemma RowsBelow(y: int)
    ensures forall i :: 0 <= i < y * 10 ==> i / 10 < y
  {
  }

  lemma RowsAbove(y: int)
    ensures forall i :: y * 10 <= i ==> i / 10 >= y
  {
  }
}
