/**
  The cells of the console screen (WinPort/src/ConsoleBuffer.cpp).
  */
module ConsoleBuffer {
  import opened Grids

  datatype WriteResult = Bad | Same | Modified

  predicate GoodData(size: Coord, pos: Coord) {
    0 <= pos.x < size.x && 0 <= pos.y < size.y
  }

  // InspectCopyArea: the rectangle it leaves behind, and whether there is something to copy.
  function Clipped(w: nat, h: nat, size: Coord, pos: Coord, r: Rect): Rect {
    if !GoodData(size, pos) then r else
      var right := if w <= r.right then w - 1 else r.right;
      var bottom := if h <= r.bottom then h - 1 else r.bottom;
      Rect(
        r.left, r.top,
        if size.x - pos.x <= right - r.left then r.left + (size.x - pos.x) - 1 else right,
        if size.y - pos.y <= bottom - r.top then r.top + (size.y - pos.y) - 1 else bottom)
  }

  predicate Copies(w: nat, h: nat, size: Coord, pos: Coord, r: Rect) {
    var c := Clipped(w, h, size, pos, r);
    GoodData(size, pos) && 0 <= c.left < w && c.left <= c.right && 0 <= c.top < h && c.top <= c.bottom
  }

  // What is copied is what the rectangle, the screen and the data have in common.
  lemma CopiesCommonPart(w: nat, h: nat, size: Coord, pos: Coord, r: Rect, x: int, y: int)
    requires Copies(w, h, size, pos, r)
    ensures In(Clipped(w, h, size, pos, r), x, y) <==>
            In(r, x, y) && x < w && y < h && x - r.left + pos.x < size.x && y - r.top + pos.y < size.y
  {
  }

  // There is nothing to copy exactly when nothing is in common, or the rectangle starts left of
  // the screen or above it.
  lemma CopiesExactlyWhen(w: nat, h: nat, size: Coord, pos: Coord, r: Rect)
    ensures Copies(w, h, size, pos, r) <==>
            GoodData(size, pos) && 0 <= r.left < w && r.left <= r.right && 0 <= r.top < h && r.top <= r.bottom
  {
  }

  function Written(g: Grid, w: nat, data: Grid, size: Coord, pos: Coord, r: Rect): (written: Grid)
    requires IsGrid(g, w, |g|) && (GoodData(size, pos) ==> IsGrid(data, size.x, size.y))
    ensures IsGrid(written, w, |g|)
  {
    if !Copies(w, |g|, size, pos, r) then g else
      var c := Clipped(w, |g|, size, pos, r);
      Pasted(g, c.left, c.top, data, pos.x, pos.y, c.right + 1 - c.left, c.bottom + 1 - c.top)
  }

  lemma WrittenAt(g: Grid, w: nat, data: Grid, size: Coord, pos: Coord, r: Rect, x: nat, y: nat)
    requires IsGrid(g, w, |g|) && (GoodData(size, pos) ==> IsGrid(data, size.x, size.y))
    requires y < |g| && x < w
    ensures var u, v := x - r.left + pos.x, y - r.top + pos.y;
            Written(g, w, data, size, pos, r)[y][x] ==
            if Copies(w, |g|, size, pos, r) && In(r, x, y) && u < size.x && v < size.y then data[v][u] else g[y][x]
  {
    if Copies(w, |g|, size, pos, r) {
      CopiesCommonPart(w, |g|, size, pos, r, x, y);
    }
  }

  // ---------------------------------------------------------------------------------
  // Copying rows between flat buffers
  // ---------------------------------------------------------------------------------

  method MemCopy(dst: array<Cell>, d: nat, src: array<Cell>, s: nat, n: nat)
    requires dst != src && d + n <= dst.Length && s + n <= src.Length
    modifies dst
    ensures forall i | 0 <= i < dst.Length :: dst[i] == if d <= i < d + n then src[s + i - d] else old(dst[i])
  {
    forall i | d <= i < d + n {
      dst[i] := src[s + i - d];
    }
  }

  // OffsetMatrixPtr
  method OffsetMatrix(w: nat, x: nat, y: nat) returns (index: nat)
    ensures index == Offset(w, y) + x
  {
    OffsetIsProduct(w, y);
    index := y;
    index := index * w;
    index := index + x;
  }

  // A stretch of a row replaced.
  lemma Stretch(now: seq<Cell>, next: seq<Cell>, w: nat, h: nat, x: nat, y: nat, line: seq<Cell>)
    requires |now| == |next| && Offset(w, h) <= |now| && x + |line| <= w && y < h
    requires forall i | 0 <= i < |now| ::
               next[i] ==
               if Offset(w, y) + x <= i < Offset(w, y) + x + |line| then line[i - (Offset(w, y) + x)] else now[i]
    ensures forall v, u | 0 <= v < h && 0 <= u < w ::
              Matrix(next, w, h)[v][u] == if v == y && x <= u < x + |line| then line[u - x] else Matrix(now, w, h)[v][u]
  {
    forall v, u | 0 <= v < h && 0 <= u < w
      ensures Matrix(next, w, h)[v][u] == if v == y && x <= u < x + |line| then line[u - x] else Matrix(now, w, h)[v][u]
    {
      MatrixAt(now, w, h, u, v);
      MatrixAt(next, w, h, u, v);
      if v < y {
        RowsDoNotOverlap(w, v, y);
      } else if v > y {
        RowsDoNotOverlap(w, y, v);
      }
    }
  }

  ghost predicate RowCopied(now: Grid, next: Grid, dx: nat, dy: nat, src: Grid, sx: nat, sy: nat, w: nat) {
    && sy < |src| && sx + w <= |src[sy]|
    && |next| == |now|
    && (forall y | 0 <= y < |now| :: |next[y]| == |now[y]|)
    && forall v, u | 0 <= v < |now| && 0 <= u < |now[v]| ::
         next[v][u] == if v == dy && dx <= u < dx + w then src[sy][u - dx + sx] else now[v][u]
  }

  // One more row of a rectangle.
  lemma NextRow(was: Grid, now: Grid, next: Grid, dx: nat, dy: nat, src: Grid, sx: nat, sy: nat, w: nat, k: nat)
    requires sy + k < |src| && forall y | sy <= y < sy + k + 1 :: sx + w <= |src[y]|
    requires now == Pasted(was, dx, dy, src, sx, sy, w, k)
    requires RowCopied(now, next, dx, dy + k, src, sx, sy + k, w)
    ensures next == Pasted(was, dx, dy, src, sx, sy, w, k + 1)
  {
    SameGrid(next, Pasted(was, dx, dy, src, sx, sy, w, k + 1));
  }

  method CopyRow(dst: array<Cell>, to: nat, ghost dw: nat, ghost dh: nat, ghost dx: nat, ghost dy: nat,
                 src: array<Cell>, from: nat, ghost sw: nat, ghost sh: nat, ghost sx: nat, ghost sy: nat, w: nat)
    requires dst != src && Offset(dw, dh) <= dst.Length && Offset(sw, sh) <= src.Length
    requires dx + w <= dw && dy < dh && sx + w <= sw && sy < sh
    requires to == Offset(dw, dy) + dx && from == Offset(sw, sy) + sx
    modifies dst
    ensures RowCopied(old(Matrix(dst[..], dw, dh)), Matrix(dst[..], dw, dh), dx, dy, Matrix(src[..], sw, sh), sx, sy, w)
  {
    RowFits(dw, dy, dh);
    RowFits(sw, sy, sh);
    ghost var now, line := dst[..], src[from..from + w];
    assert Matrix(src[..], sw, sh)[sy] == src[..][Offset(sw, sy)..Offset(sw, sy) + sw];
    MemCopy(dst, to, src, from, w);
    Stretch(now, dst[..], dw, dh, dx, dy, line);
  }

  // The loops of the block Read and Write.
  method CopyRows(dst: array<Cell>, dw: nat, ghost dh: nat, dx: nat, dy: nat,
                  src: array<Cell>, sw: nat, ghost sh: nat, sx: nat, sy: nat, w: nat, h: nat)
    requires dst != src && Offset(dw, dh) <= dst.Length && Offset(sw, sh) <= src.Length
    requires dx + w <= dw && dy + h <= dh && sx + w <= sw && sy + h <= sh
    modifies dst
    ensures Matrix(dst[..], dw, dh) ==
            Pasted(old(Matrix(dst[..], dw, dh)), dx, dy, Matrix(src[..], sw, sh), sx, sy, w, h)
  {
    var to := OffsetMatrix(dw, dx, dy);
    var from := OffsetMatrix(sw, sx, sy);
    ghost var was, grid := Matrix(dst[..], dw, dh), Matrix(src[..], sw, sh);
    SameGrid(was, Pasted(was, dx, dy, grid, sx, sy, w, 0));
    for k := 0 to h
      invariant to == Offset(dw, dy + k) + dx && from == Offset(sw, sy + k) + sx
      invariant Matrix(dst[..], dw, dh) == Pasted(was, dx, dy, grid, sx, sy, w, k)
    {
      ghost var now := Matrix(dst[..], dw, dh);
      CopyRow(dst, to, dw, dh, dx, dy + k, src, from, sw, sh, sx, sy + k, w);
      NextRow(was, now, Matrix(dst[..], dw, dh), dx, dy, grid, sx, sy, w, k);
      to := to + dw;
      from := from + sw;
    }
  }

  // ---------------------------------------------------------------------------------
  // The buffer
  // ---------------------------------------------------------------------------------

  class Buffer {
    var cells: array<Cell>
    var width: nat
    ghost var height: nat

    ghost predicate Valid()
      reads this
    {
      cells.Length == Offset(width, height) && (width == 0 ==> height == 0)
    }

    constructor ()
      ensures Valid() && width == 0 && Rows() == [] && fresh(cells)
    {
      cells, width, height := new Cell[0], 0, 0;
    }

    ghost function Rows(): (g: Grid)
      requires Valid()
      reads this, cells
      ensures IsGrid(g, width, height)
    {
      Matrix(cells[..], width, height)
    }

    method GetSize() returns (w: nat, h: nat)
      requires Valid()
      ensures w == width && h == height
    {
      w, h := width, 0;
      if width > 0 {
        RowCount(width, height);
        h := cells.Length / width;
      }
    }

    method InspectCopyArea(size: Coord, pos: Coord, area: Rect) returns (ok: bool, r: Rect)
      requires Valid() && width > 0
      ensures ok == Copies(width, height, size, pos, area)
      ensures r == Clipped(width, height, size, pos, area)
    {
      r := area;
      if pos.x < 0 || pos.y < 0 || size.x < 0 || size.y < 0 || pos.x >= size.x || pos.y >= size.y {
        return false, r;
      }
      var w, h := GetSize();
      if w <= r.right {
        r := r.(right := w - 1);
      }
      if h <= r.bottom {
        r := r.(bottom := h - 1);
      }
      var availWidth, availHeight := size.x - pos.x, size.y - pos.y;
      if availWidth <= r.right - r.left {
        r := r.(right := r.left + availWidth - 1);
      }
      if availHeight <= r.bottom - r.top {
        r := r.(bottom := r.top + availHeight - 1);
      }
      ok := !(w <= r.left || r.right < r.left || r.left < 0) && !(h <= r.top || r.bottom < r.top || r.top < 0);
    }

    // The block Read: the rest of the data keeps what it had.
    method Read(data: array<Cell>, size: Coord, pos: Coord, area: Rect) returns (r: Rect)
      requires Valid() && width > 0 && data != cells
      requires GoodData(size, pos) ==> Offset(size.x, size.y) <= data.Length
      modifies data
      ensures r == Clipped(width, height, size, pos, area)
      ensures !Copies(width, height, size, pos, area) ==> data[..] == old(data[..])
      ensures Copies(width, height, size, pos, area) ==>
                Matrix(data[..], size.x, size.y) ==
                Pasted(old(Matrix(data[..], size.x, size.y)), pos.x, pos.y, Rows(), r.left, r.top,
                       r.right + 1 - r.left, r.bottom + 1 - r.top)
    {
      var ok;
      ok, r := InspectCopyArea(size, pos, area);
      if ok {
        CopyRows(data, size.x, size.y, pos.x, pos.y, cells, width, height, r.left, r.top,
                 r.right + 1 - r.left, r.bottom + 1 - r.top);
      }
    }

    // The block Write.
    method Write(data: array<Cell>, size: Coord, pos: Coord, area: Rect) returns (r: Rect)
      requires Valid() && width > 0 && data != cells
      requires GoodData(size, pos) ==> Offset(size.x, size.y) <= data.Length
      modifies cells
      ensures Valid() && r == Clipped(width, height, size, pos, area)
      ensures Rows() ==
              Written(old(Rows()), width, if GoodData(size, pos) then Matrix(data[..], size.x, size.y) else [],
                                size, pos, area)
    {
      var ok;
      ok, r := InspectCopyArea(size, pos, area);
      if ok {
        CopyRows(cells, width, height, r.left, r.top, data, size.x, size.y, pos.x, pos.y,
                 r.right + 1 - r.left, r.bottom + 1 - r.top);
      }
    }

    // Whether there is a cell, and where.
    method Locate(pos: Coord) returns (index: int)
      requires Valid()
      ensures index >= 0 <==> OnGrid(Rows(), pos.x, pos.y)
      ensures index >= 0 ==>
              index < cells.Length && index == Offset(width, pos.y) + pos.x && Rows()[pos.y][pos.x] == cells[index]
    {
      if pos.x < 0 || pos.y < 0 || pos.x >= width {
        return -1;
      }
      index := OffsetMatrix(width, pos.x, pos.y);
      IndexInside(width, pos.x, pos.y, height);
      if index >= cells.Length {
        return -1;
      }
      MatrixAt(cells[..], width, height, pos.x, pos.y);
    }

    method ReadCell(pos: Coord) returns (ok: bool, c: Cell)
      requires Valid()
      ensures ok == OnGrid(Rows(), pos.x, pos.y)
      ensures c == if ok then Rows()[pos.y][pos.x] else Cell(0, 0)
    {
      var index := Locate(pos);
      ok, c := index >= 0, Cell(0, 0);
      if ok {
        c := cells[index];
      }
    }

    method WriteCell(c: Cell, pos: Coord) returns (r: WriteResult)
      requires Valid()
      modifies cells
      ensures Valid() && Rows() == WithCell(old(Rows()), pos.x, pos.y, c)
      ensures r == if !OnGrid(old(Rows()), pos.x, pos.y) then Bad
                   else if old(Rows())[pos.y][pos.x] == c then Same else Modified
    {
      ghost var before := cells[..];
      var index := Locate(pos);
      if index < 0 {
        return Bad;
      }
      if cells[index] == c {
        SameGrid(Rows(), WithCell(Rows(), pos.x, pos.y, c));
        return Same;
      }
      cells[index] := c;
      OneCell(before, cells[..], width, height, pos.x, pos.y, c);
      r := Modified;
    }

    method SetSize(w: nat, h: nat, attr: nat)
      requires Valid()
      modifies this
      ensures Valid() && width == w && height == (if w == 0 then 0 else h) && (cells == old(cells) || fresh(cells))
      ensures Rows() == Resized(old(Rows()), old(width), width, height, attr)
    {
      OffsetIsProduct(w, h);
      if w == width && w * h == cells.Length {
        if w > 0 {
          SameHeight(w, h, height);
        }
        SameGrid(Rows(), Resized(Rows(), width, width, height, attr));
        return;
      }
      var prevWidth, prevHeight := GetSize();
      var otherChars := cells;
      ghost var before := Rows();
      Reallocate(w, h, attr);
      RestoreOld(before, otherChars, prevWidth, prevHeight, attr);
    }

    // New cells, all blank.
    method Reallocate(w: nat, h: nat, attr: nat)
      modifies this
      ensures Valid() && width == w && height == (if w == 0 then 0 else h) && fresh(cells)
      ensures Rows() == Blank(width, height, attr)
    {
      OffsetIsProduct(w, h);
      cells := new Cell[h * w](i => Cell(0x20, attr));
      width, height := w, if w == 0 then 0 else h;
      AllBlank(cells[..], width, height, attr);
    }

    // The old cells go back where they were.
    method RestoreOld(ghost before: Grid, otherChars: array<Cell>, prevWidth: nat, prevHeight: nat, ghost attr: nat)
      requires Valid() && otherChars != cells && otherChars.Length == Offset(prevWidth, prevHeight)
      requires prevWidth == 0 ==> prevHeight == 0
      requires before == Matrix(otherChars[..], prevWidth, prevHeight) && Rows() == Blank(width, height, attr)
      modifies cells
      ensures Valid() && Rows() == Resized(before, prevWidth, width, height, attr)
    {
      EmptyScreen(prevWidth, prevHeight, width, height);
      if otherChars.Length != 0 && cells.Length != 0 {
        WriteOld(before, otherChars, prevWidth, prevHeight, attr);
      } else {
        SameGrid(Rows(), Resized(before, prevWidth, width, height, attr));
      }
    }

    method WriteOld(ghost before: Grid, otherChars: array<Cell>, prevWidth: nat, prevHeight: nat, ghost attr: nat)
      requires Valid() && otherChars != cells && otherChars.Length == Offset(prevWidth, prevHeight)
      requires prevWidth > 0 && prevHeight > 0 && width > 0 && height > 0
      requires before == Matrix(otherChars[..], prevWidth, prevHeight) && Rows() == Blank(width, height, attr)
      modifies cells
      ensures Valid() && Rows() == Resized(before, prevWidth, width, height, attr)
    {
      var w, h := GetSize();
      AreRestored(before, prevWidth, w, h, attr);
      var r := Write(otherChars, Coord(prevWidth, prevHeight), Coord(0, 0), Rect(0, 0, w - 1, h - 1));
    }
  }

  lemma AreRestored(before: Grid, prevWidth: nat, w: nat, h: nat, attr: nat)
    requires IsGrid(before, prevWidth, |before|) && |before| > 0 && prevWidth > 0 && w > 0 && h > 0
    ensures Written(Blank(w, h, attr), w, before, Coord(prevWidth, |before|), Coord(0, 0), Rect(0, 0, w - 1, h - 1)) ==
            Resized(before, prevWidth, w, h, attr)
  {
    var now := Written(Blank(w, h, attr), w, before, Coord(prevWidth, |before|), Coord(0, 0), Rect(0, 0, w - 1, h - 1));
    SameGrid(now, Resized(before, prevWidth, w, h, attr));
  }

  // The old cells stay where they were, and new ones are blank.
  function Resized(g: Grid, gw: nat, w: nat, h: nat, attr: nat): (r: Grid)
    requires IsGrid(g, gw, |g|)
    ensures IsGrid(r, w, h)
    ensures forall y, x | 0 <= y < h && 0 <= x < w :: r[y][x] == if y < |g| && x < gw then g[y][x] else Cell(0x20, attr)
  {
    seq(h, y requires 0 <= y < h =>
      seq(w, x requires 0 <= x < w => if y < |g| && x < gw then g[y][x] else Cell(0x20, attr)))
  }

  lemma AllBlank(data: seq<Cell>, w: nat, h: nat, attr: nat)
    requires |data| == Offset(w, h) && forall i | 0 <= i < |data| :: data[i] == Cell(0x20, attr)
    ensures Matrix(data, w, h) == Blank(w, h, attr)
  {
    forall y | 0 <= y < h
      ensures Matrix(data, w, h)[y] == Blank(w, h, attr)[y]
    {
      RowFits(w, y, h);
    }
  }

  lemma SameHeight(w: nat, h: nat, k: nat)
    requires w > 0 && Offset(w, h) == Offset(w, k)
    ensures h == k
  {
    if h < k {
      RowsDoNotOverlap(w, h, k);
    } else if k < h {
      RowsDoNotOverlap(w, k, h);
    }
  }

  lemma EmptyScreen(pw: nat, ph: nat, w: nat, h: nat)
    requires (pw == 0 ==> ph == 0) && (w == 0 ==> h == 0)
    ensures Offset(pw, ph) == 0 <==> ph == 0
    ensures Offset(w, h) == 0 <==> h == 0
  {
    if pw > 0 {
      IndexInside(pw, 0, 0, ph);
    }
    if w > 0 {
      IndexInside(w, 0, 0, h);
    }
  }

  lemma OneCell(before: seq<Cell>, after: seq<Cell>, w: nat, h: nat, x: nat, y: nat, c: Cell)
    requires |before| == Offset(w, h) && x < w && y < h && Offset(w, y) + x < |before|
    requires after == before[Offset(w, y) + x := c]
    ensures Matrix(after, w, h) == WithCell(Matrix(before, w, h), x, y, c)
  {
    Stretch(before, after, w, h, x, y, [c]);
    SameGrid(Matrix(after, w, h), WithCell(Matrix(before, w, h), x, y, c));
  }
}
