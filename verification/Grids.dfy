/**
  Grids of character cells, and how a flat buffer holds one (WinPort/src/ConsoleBuffer.cpp).
  */
module Grids {

  // CHAR_INFO
  datatype Cell = Cell(ch: nat, attr: nat)

  type Grid = seq<seq<Cell>>

  datatype Coord = Coord(x: int, y: int)

  // SMALL_RECT: both ends belong to it.
  datatype Rect = Rect(left: int, top: int, right: int, bottom: int)

  predicate In(r: Rect, x: int, y: int) {
    r.left <= x <= r.right && r.top <= y <= r.bottom
  }

  ghost predicate IsGrid(g: Grid, w: nat, h: nat) {
    |g| == h && forall y | 0 <= y < h :: |g[y]| == w
  }

  // ---------------------------------------------------------------------------------
  // A grid in a flat buffer, row after row
  // ---------------------------------------------------------------------------------

  // Where a row starts.
  function Offset(w: nat, y: nat): nat {
    if y == 0 then 0 else w + Offset(w, y - 1)
  }

  lemma {:induction false} OffsetIsProduct(w: nat, y: nat)
    ensures Offset(w, y) == y * w
  {
    if y > 0 {
      OffsetIsProduct(w, y - 1);
    }
  }

  lemma {:induction false} RowsDoNotOverlap(w: nat, y: nat, z: nat)
    requires y < z
    ensures Offset(w, y) + w <= Offset(w, z)
  {
    if y + 1 < z {
      RowsDoNotOverlap(w, y, z - 1);
    }
  }

  lemma RowFits(w: nat, y: nat, h: nat)
    requires y < h
    ensures Offset(w, y) + w <= Offset(w, h)
  {
    RowsDoNotOverlap(w, y, h);
  }

  function Row(data: seq<Cell>, w: nat, y: nat, h: nat): (row: seq<Cell>)
    requires y < h && Offset(w, h) <= |data|
    ensures |row| == w
  {
    RowFits(w, y, h);
    data[Offset(w, y)..Offset(w, y) + w]
  }

  function Matrix(data: seq<Cell>, w: nat, h: nat): (g: Grid)
    requires Offset(w, h) <= |data|
    ensures IsGrid(g, w, h)
  {
    seq(h, y requires 0 <= y < h => Row(data, w, y, h))
  }

  lemma MatrixAt(data: seq<Cell>, w: nat, h: nat, x: nat, y: nat)
    requires Offset(w, h) <= |data| && x < w && y < h
    ensures Offset(w, y) + x < |data| && Matrix(data, w, h)[y][x] == data[Offset(w, y) + x]
  {
    RowFits(w, y, h);
  }

  // A position is in the buffer exactly when its row is in the grid.
  lemma IndexInside(w: nat, x: nat, y: nat, h: nat)
    requires x < w
    ensures Offset(w, y) + x < Offset(w, h) <==> y < h
  {
    if y < h {
      RowFits(w, y, h);
    } else if h < y {
      RowFits(w, h, y);
    }
  }

  // The number of rows, as GetSize computes it.
  lemma RowCount(w: nat, h: nat)
    requires w > 0
    ensures Offset(w, h) / w == h
  {
    OffsetIsProduct(w, h);
    QuotientOfProduct(w, h);
  }

  lemma QuotientOfProduct(w: nat, h: nat)
    requires w > 0
    ensures (h * w) / w == h
  {
    var q := (h * w) / w;
    assert q * w <= h * w < q * w + w;
    OffsetIsProduct(w, q);
    OffsetIsProduct(w, h);
    if q < h {
      RowsDoNotOverlap(w, q, h);
    } else if h < q {
      RowsDoNotOverlap(w, h, q);
    }
  }

  // ---------------------------------------------------------------------------------
  // Operations on grids
  // ---------------------------------------------------------------------------------

  // The w by h cells at (sx, sy) of one grid replace those at (dx, dy) of another.
  function Pasted(dst: Grid, dx: nat, dy: nat, src: Grid, sx: nat, sy: nat, w: nat, h: nat): (g: Grid)
    requires sy + h <= |src| && forall y | sy <= y < sy + h :: sx + w <= |src[y]|
    ensures |g| == |dst| && forall y | 0 <= y < |dst| :: |g[y]| == |dst[y]|
    ensures forall y, x | 0 <= y < |dst| && 0 <= x < |dst[y]| ::
              g[y][x] == if dx <= x < dx + w && dy <= y < dy + h then src[y - dy + sy][x - dx + sx] else dst[y][x]
  {
    seq(|dst|, y requires 0 <= y < |dst| =>
      seq(|dst[y]|, x requires 0 <= x < |dst[y]| =>
        if dx <= x < dx + w && dy <= y < dy + h then src[y - dy + sy][x - dx + sx] else dst[y][x]))
  }

  predicate OnGrid(g: Grid, x: int, y: int) {
    0 <= y < |g| && 0 <= x < |g[y]|
  }

  // One cell replaced, if there is such a cell.
  function WithCell(g: Grid, x: int, y: int, c: Cell): Grid {
    if OnGrid(g, x, y) then g[y := g[y][x := c]] else g
  }

  function Blank(w: nat, h: nat, attr: nat): (g: Grid)
    ensures IsGrid(g, w, h)
    ensures forall y, x | 0 <= y < h && 0 <= x < w :: g[y][x] == Cell(0x20, attr)
  {
    seq(h, y => seq(w, x => Cell(0x20, attr)))
  }

  lemma SameGrid(a: Grid, b: Grid)
    requires |a| == |b| && forall y | 0 <= y < |a| :: |a[y]| == |b[y]|
    requires forall y, x | 0 <= y < |a| && 0 <= x < |a[y]| :: a[y][x] == b[y][x]
    ensures a == b
  {
    forall y | 0 <= y < |a|
      ensures a[y] == b[y]
    {
    }
  }
}
