/**
  What the screen operations make of a grid of cells, and what the backend has been told of it
  (WinPort/src/ConsoleOutput.cpp).
  */
module Screen {
  import opened Wrappers
  import opened Grids
  import opened Repaints
  import opened ConsoleBuffer
  import opened Terminal

  // ---------------------------------------------------------------------------------
  // What the backend shows
  // ---------------------------------------------------------------------------------

  // The backend reads the cells of the areas again.
  ghost function Refreshed(shown: Grid, rows: Grid, areas: seq<Rect>): (g: Grid)
    requires |shown| > 0 && IsGrid(shown, |shown[0]|, |shown|) && IsGrid(rows, |shown[0]|, |shown|)
    ensures IsGrid(g, |shown[0]|, |shown|)
    ensures forall y, x | 0 <= y < |shown| && 0 <= x < |shown[0]| ::
              g[y][x] == if Covered(areas, x, y) then rows[y][x] else shown[y][x]
  {
    seq(|shown|, y requires 0 <= y < |shown| =>
      seq(|shown[0]|, x requires 0 <= x < |shown[0]| => if Covered(areas, x, y) then rows[y][x] else shown[y][x]))
  }

  // Every cell that differs from what the backend shows is in an area to repaint.
  ghost predicate Tracked(rows: Grid, shown: Grid, deferred: seq<Rect>, w: nat, h: nat) {
    && IsGrid(rows, w, h) && IsGrid(shown, w, h)
    && forall y, x | 0 <= y < h && 0 <= x < w :: shown[y][x] != rows[y][x] ==> Covered(deferred, x, y)
  }

  // All that changed is in the areas.
  ghost predicate ChangedWithin(before: Grid, after: Grid, areas: seq<Rect>, w: nat, h: nat) {
    && IsGrid(before, w, h) && IsGrid(after, w, h)
    && forall y, x | 0 <= y < h && 0 <= x < w :: before[y][x] != after[y][x] ==> Covered(areas, x, y)
  }

  lemma TrackedAndNothingDeferred(rows: Grid, shown: Grid, w: nat, h: nat)
    requires Tracked(rows, shown, [], w, h)
    ensures shown == rows
  {
    SameGrid(shown, rows);
  }

  lemma RefreshKeepsTrack(before: Grid, after: Grid, shown: Grid, areas: seq<Rect>, w: nat, h: nat)
    requires w > 0 && h > 0 && Tracked(before, shown, [], w, h) && ChangedWithin(before, after, areas, w, h)
    ensures Tracked(after, Refreshed(shown, after, areas), [], w, h)
  {
    TrackedAndNothingDeferred(before, shown, w, h);
  }

  function AddedAll(list: seq<Rect>, areas: seq<Rect>): seq<Rect>
    decreases |areas|
  {
    if areas == [] then list else Added(AddedAll(list, areas[..|areas| - 1]), areas[|areas| - 1])
  }

  lemma {:induction false} AddAllKeepsScreenCoverage(list: seq<Rect>, areas: seq<Rect>, w: nat, h: nat)
    requires AllHarmless(list, w, h) && AllHarmless(areas, w, h)
    ensures AllHarmless(AddedAll(list, areas), w, h)
    ensures forall x, y | 0 <= x < w && 0 <= y < h ::
              Covered(AddedAll(list, areas), x, y) <==> Covered(list, x, y) || Covered(areas, x, y)
    decreases |areas|
  {
    if areas != [] {
      var front, last := areas[..|areas| - 1], areas[|areas| - 1];
      assert areas == front + [last];
      AddAllKeepsScreenCoverage(list, front, w, h);
      AddKeepsScreenCoverage(AddedAll(list, front), last, w, h);
      forall x, y | 0 <= x < w && 0 <= y < h
        ensures Covered(AddedAll(list, areas), x, y) <==> Covered(list, x, y) || Covered(areas, x, y)
      {
        CoveredInFront(front, last, x, y);
      }
    }
  }

  lemma DeferKeepsTrack(before: Grid, after: Grid, shown: Grid, deferred: seq<Rect>, areas: seq<Rect>, w: nat, h: nat)
    requires Tracked(before, shown, deferred, w, h) && ChangedWithin(before, after, areas, w, h)
    requires AllHarmless(deferred, w, h) && AllHarmless(areas, w, h)
    ensures Tracked(after, shown, AddedAll(deferred, areas), w, h)
  {
    AddAllKeepsScreenCoverage(deferred, areas, w, h);
  }

  // ---------------------------------------------------------------------------------
  // Scrolling a rectangle
  // ---------------------------------------------------------------------------------

  // ClipRect: also how far the corner moves.
  function ClippedBy(r: Rect, clip: Rect): (Rect, Coord) {
    (Rect(
       if r.left < clip.left then clip.left else r.left,
       if r.top < clip.top then clip.top else r.top,
       if r.right > clip.right then clip.right else r.right,
       if r.bottom > clip.bottom then clip.bottom else r.bottom),
     Coord(if r.left < clip.left then clip.left - r.left else 0, if r.top < clip.top then clip.top - r.top else 0))
  }

  lemma ClipIsIntersection(r: Rect, clip: Rect)
    ensures forall x, y :: In(ClippedBy(r, clip).0, x, y) <==> In(r, x, y) && In(clip, x, y)
  {
  }

  function SizeOf(r: Rect): Coord {
    Coord(r.right + 1 - r.left, r.bottom + 1 - r.top)
  }

  function RectAt(at: Coord, size: Coord): Rect {
    Rect(at.x, at.y, at.x + size.x - 1, at.y + size.y - 1)
  }

  // The arguments of Scroll.
  datatype Move = Move(src: Rect, dest: Coord, clip: Option<Rect>, fill: Option<Cell>)

  predicate InClip(m: Move, x: int, y: int) {
    m.clip.Some? ==> In(m.clip.value, x, y)
  }

  predicate InTarget(m: Move, x: int, y: int) {
    In(RectAt(m.dest, SizeOf(m.src)), x, y) && InClip(m, x, y)
  }

  // Where the content of a target cell comes from.
  function SourceOf(m: Move, x: int, y: int): Coord {
    Coord(x - m.dest.x + m.src.left, y - m.dest.y + m.src.top)
  }

  // The target is the source shifted, cell by cell, as far as the clip rectangle reaches.
  lemma TargetIsShiftedSource(m: Move, x: int, y: int)
    ensures SourceOf(m, x, y) == Coord(x - m.dest.x + m.src.left, y - m.dest.y + m.src.top)
    ensures InTarget(m, x, y) <==>
            && In(m.src, x - m.dest.x + m.src.left, y - m.dest.y + m.src.top)
            && (m.clip.Some? ==> In(m.clip.value, x, y))
  {
  }

  function FilledCell(g: Grid, m: Move, x: nat, y: nat): Cell
    requires OnGrid(g, x, y)
  {
    if m.fill.Some? && In(m.src, x, y) && InClip(m, x, y) then m.fill.value else g[y][x]
  }

  function MovedCell(g: Grid, w: nat, m: Move, x: nat, y: nat): Cell
    requires IsGrid(g, w, |g|) && OnScreen(m.src, w, |g|) && y < |g| && x < w
  {
    if InTarget(m, x, y) then g[SourceOf(m, x, y).y][SourceOf(m, x, y).x] else FilledCell(g, m, x, y)
  }

  // All at once: cells at the destination get what the source held before, the rest of the source
  // is filled.
  function Moved(g: Grid, w: nat, m: Move): (r: Grid)
    requires IsGrid(g, w, |g|) && OnScreen(m.src, w, |g|)
    ensures IsGrid(r, w, |g|)
  {
    seq(|g|, y requires 0 <= y < |g| => seq(w, x requires 0 <= x < w => MovedCell(g, w, m, x, y)))
  }

  function Filled(g: Grid, w: nat, r: Rect, c: Cell): (f: Grid)
    requires IsGrid(g, w, |g|)
    ensures IsGrid(f, w, |g|)
    ensures forall y, x | 0 <= y < |g| && 0 <= x < w :: f[y][x] == if In(r, x, y) then c else g[y][x]
  {
    seq(|g|, y requires 0 <= y < |g| => seq(w, x requires 0 <= x < w => if In(r, x, y) then c else g[y][x]))
  }

  // Filling two rectangles that make up a third.
  lemma FilledTwice(g: Grid, w: nat, a: Rect, b: Rect, c: Rect, cell: Cell)
    requires IsGrid(g, w, |g|) && forall x, y :: In(c, x, y) <==> In(a, x, y) || In(b, x, y)
    ensures Filled(Filled(g, w, a, cell), w, b, cell) == Filled(g, w, c, cell)
  {
    SameGrid(Filled(Filled(g, w, a, cell), w, b, cell), Filled(g, w, c, cell));
  }

  lemma FilledOne(g: Grid, w: nat, x: int, y: int, cell: Cell)
    requires IsGrid(g, w, |g|)
    ensures WithCell(g, x, y, cell) == Filled(g, w, Rect(x, y, x, y), cell)
  {
    SameGrid(WithCell(g, x, y, cell), Filled(g, w, Rect(x, y, x, y), cell));
  }

  lemma FilledNone(g: Grid, w: nat, r: Rect, cell: Cell)
    requires IsGrid(g, w, |g|) && !NonEmpty(r)
    ensures Filled(g, w, r, cell) == g
  {
    SameGrid(Filled(g, w, r, cell), g);
  }

  // The areas that Scroll works on behind the clipping.
  function ClippedSource(w: nat, h: nat, m: Move): Rect {
    var r := Clipped(w, h, SizeOf(m.src), Coord(0, 0), m.src);
    if m.clip.Some? then ClippedBy(r, m.clip.value).0 else r
  }

  function ClippedTarget(m: Move): (Rect, Coord) {
    var dst := RectAt(m.dest, SizeOf(m.src));
    if m.clip.Some? then ClippedBy(dst, m.clip.value) else (dst, Coord(0, 0))
  }

  // Nothing is written to a target that starts left of the screen or above it.
  predicate TargetNotNegative(m: Move) {
    ClippedTarget(m).0.left >= 0 && ClippedTarget(m).0.top >= 0
  }

  // The coordinates that Scroll computes fit into 16 bits.
  predicate ScrollFitsShort(m: Move) {
    var size, pos := SizeOf(m.src), ClippedTarget(m).1;
    && size.x <= MAXSHORT && size.y <= MAXSHORT
    && RectAt(m.dest, size).right <= MAXSHORT && RectAt(m.dest, size).bottom <= MAXSHORT
    && pos.x <= MAXSHORT && pos.y <= MAXSHORT
  }

  // The part of the source that can be read: none of it when it starts left of the screen or above.
  predicate IsRead(g: Grid, src: Rect, x: int, y: int) {
    src.left >= 0 && src.top >= 0 && OnGrid(g, x, y)
  }

  // What the buffer holds of the source.
  ghost predicate HoldsSource(data: Grid, g: Grid, src: Rect)
    requires NonEmpty(src)
  {
    && IsGrid(data, SizeOf(src).x, SizeOf(src).y)
    && forall y, x | 0 <= y < SizeOf(src).y && 0 <= x < SizeOf(src).x ::
         IsRead(g, src, src.left + x, src.top + y) ==> data[y][x] == g[src.top + y][src.left + x]
  }

  function FilledSource(g: Grid, w: nat, m: Move): (f: Grid)
    requires IsGrid(g, w, |g|)
    ensures IsGrid(f, w, |g|)
  {
    if m.fill.Some? then Filled(g, w, ClippedSource(w, |g|, m), m.fill.value) else g
  }

  // The screen when the data has been written.
  function Scrolled(g: Grid, w: nat, data: Grid, m: Move): (after: Grid)
    requires IsGrid(g, w, |g|) && NonEmpty(m.src) && IsGrid(data, SizeOf(m.src).x, SizeOf(m.src).y)
    ensures IsGrid(after, w, |g|)
  {
    Written(FilledSource(g, w, m), w, data, SizeOf(m.src), ClippedTarget(m).1, ClippedTarget(m).0)
  }

  lemma FilledSourceAt(g: Grid, w: nat, m: Move, x: nat, y: nat)
    requires IsGrid(g, w, |g|) && NonEmpty(m.src) && y < |g| && x < w
    ensures FilledSource(g, w, m)[y][x] == FilledCell(g, m, x, y)
  {
  }

  // Which part of the data is written to a cell.
  lemma TargetAt(w: nat, h: nat, m: Move, x: nat, y: nat)
    requires NonEmpty(m.src) && y < h && x < w
    ensures var (dst, pos) := ClippedTarget(m);
            var u, v := x - dst.left + pos.x, y - dst.top + pos.y;
            && (Copies(w, h, SizeOf(m.src), pos, dst) && In(dst, x, y)
                && u < SizeOf(m.src).x && v < SizeOf(m.src).y <==>
                TargetNotNegative(m) && InTarget(m, x, y))
            && u == x - m.dest.x && v == y - m.dest.y
  {
    var (dst, pos) := ClippedTarget(m);
    CopiesExactlyWhen(w, h, SizeOf(m.src), pos, dst);
  }

  lemma ScrolledAt(g: Grid, w: nat, data: Grid, m: Move, x: nat, y: nat)
    requires IsGrid(g, w, |g|) && NonEmpty(m.src) && IsGrid(data, SizeOf(m.src).x, SizeOf(m.src).y) && y < |g| && x < w
    ensures Scrolled(g, w, data, m)[y][x] ==
            if TargetNotNegative(m) && InTarget(m, x, y) then data[y - m.dest.y][x - m.dest.x]
            else FilledCell(g, m, x, y)
  {
    var (dst, pos) := ClippedTarget(m);
    TargetAt(w, |g|, m, x, y);
    WrittenAt(FilledSource(g, w, m), w, data, SizeOf(m.src), pos, dst, x, y);
    FilledSourceAt(g, w, m, x, y);
  }

  // For any source, on the screen or partly off it: target cells get what was read of the source, in
  // the state before, and all others are filled or left alone. Where the source is off the screen,
  // the target gets what happens to be in the buffer.
  ghost predicate IsScrolled(g: Grid, w: nat, after: Grid, m: Move) {
    && IsGrid(g, w, |g|) && IsGrid(after, w, |g|)
    && forall y: nat, x: nat | y < |g| && x < w :: IsScrolledCell(g, m, x, y, after[y][x])
  }

  predicate IsScrolledCell(g: Grid, m: Move, x: nat, y: nat, c: Cell)
    requires OnGrid(g, x, y)
  {
    if TargetNotNegative(m) && InTarget(m, x, y) then
      var from := SourceOf(m, x, y);
      IsRead(g, m.src, from.x, from.y) ==> c == g[from.y][from.x]
    else c == FilledCell(g, m, x, y)
  }

  // Reading the source, filling it and writing to the destination moves it at once, also where the
  // two overlap.
  lemma CopiesAreScrolled(g: Grid, w: nat, data: Grid, m: Move)
    requires IsGrid(g, w, |g|) && NonEmpty(m.src) && HoldsSource(data, g, m.src)
    ensures IsScrolled(g, w, Scrolled(g, w, data, m), m)
  {
    var after := Scrolled(g, w, data, m);
    forall y: nat, x: nat | y < |g| && x < w
      ensures IsScrolledCell(g, m, x, y, after[y][x])
    {
      CellIsScrolled(g, w, data, m, x, y);
    }
  }

  lemma CellIsScrolled(g: Grid, w: nat, data: Grid, m: Move, x: nat, y: nat)
    requires IsGrid(g, w, |g|) && NonEmpty(m.src) && HoldsSource(data, g, m.src) && y < |g| && x < w
    ensures IsScrolledCell(g, m, x, y, Scrolled(g, w, data, m)[y][x])
  {
    ScrolledAt(g, w, data, m, x, y);
    if TargetNotNegative(m) && InTarget(m, x, y) {
      DataIsScrolled(g, w, data, m, x, y);
    }
  }

  lemma DataIsScrolled(g: Grid, w: nat, data: Grid, m: Move, x: nat, y: nat)
    requires IsGrid(g, w, |g|) && NonEmpty(m.src) && HoldsSource(data, g, m.src) && y < |g| && x < w
    requires TargetNotNegative(m) && InTarget(m, x, y)
    ensures 0 <= y - m.dest.y < |data| && 0 <= x - m.dest.x < |data[y - m.dest.y]|
    ensures IsScrolledCell(g, m, x, y, data[y - m.dest.y][x - m.dest.x])
  {
    HoldsAt(data, g, m.src, x - m.dest.x, y - m.dest.y, SourceOf(m, x, y));
  }

  lemma HoldsAt(data: Grid, g: Grid, src: Rect, u: nat, v: nat, from: Coord)
    requires NonEmpty(src) && HoldsSource(data, g, src) && u < SizeOf(src).x && v < SizeOf(src).y
    requires from.x == src.left + u && from.y == src.top + v
    ensures IsRead(g, src, from.x, from.y) ==> data[v][u] == g[from.y][from.x]
  {
  }

  // For a source on the screen that is all there is to say.
  lemma ScrolledIsMoved(g: Grid, w: nat, after: Grid, m: Move)
    requires IsScrolled(g, w, after, m) && OnScreen(m.src, w, |g|) && TargetNotNegative(m)
    ensures after == Moved(g, w, m)
  {
    forall y: nat, x: nat | y < |g| && x < w
      ensures after[y][x] == Moved(g, w, m)[y][x]
    {
      MovedAt(g, w, m, x, y);
    }
    SameGrid(after, Moved(g, w, m));
  }

  lemma MovedAt(g: Grid, w: nat, m: Move, x: nat, y: nat)
    requires IsGrid(g, w, |g|) && OnScreen(m.src, w, |g|) && y < |g| && x < w
    ensures Moved(g, w, m)[y][x] == MovedCell(g, w, m, x, y)
  {
  }

  lemma ReadHoldsSource(g: Grid, w: nat, was: Grid, data: Grid, src: Rect)
    requires IsGrid(g, w, |g|) && NonEmpty(src) && IsGrid(was, SizeOf(src).x, SizeOf(src).y)
    requires IsGrid(data, SizeOf(src).x, SizeOf(src).y)
    requires var c := Clipped(w, |g|, SizeOf(src), Coord(0, 0), src);
             Copies(w, |g|, SizeOf(src), Coord(0, 0), src) ==>
               data == Pasted(was, 0, 0, g, c.left, c.top, c.right + 1 - c.left, c.bottom + 1 - c.top)
    ensures HoldsSource(data, g, src)
  {
    CopiesExactlyWhen(w, |g|, SizeOf(src), Coord(0, 0), src);
    forall y, x | 0 <= y < SizeOf(src).y && 0 <= x < SizeOf(src).x
      ensures IsRead(g, src, src.left + x, src.top + y) ==> data[y][x] == g[src.top + y][src.left + x]
    {
      if Copies(w, |g|, SizeOf(src), Coord(0, 0), src) {
        CopiesCommonPart(w, |g|, SizeOf(src), Coord(0, 0), src, src.left + x, src.top + y);
      }
    }
  }

  // All that changes is in the two areas.
  lemma ScrollWithin(g: Grid, w: nat, data: Grid, m: Move)
    requires IsGrid(g, w, |g|) && NonEmpty(m.src) && IsGrid(data, SizeOf(m.src).x, SizeOf(m.src).y)
    ensures ChangedWithin(g, Scrolled(g, w, data, m), ScrollAreas(w, |g|, m), w, |g|)
  {
    var (dst, pos) := ClippedTarget(m);
    var areas, after := ScrollAreas(w, |g|, m), Scrolled(g, w, data, m);
    forall y: nat, x: nat | y < |g| && x < w && g[y][x] != after[y][x]
      ensures Covered(areas, x, y)
    {
      WrittenAt(FilledSource(g, w, m), w, data, SizeOf(m.src), pos, dst, x, y);
      if Copies(w, |g|, SizeOf(m.src), pos, dst) {
        CopiesCommonPart(w, |g|, SizeOf(m.src), pos, dst, x, y);
      }
      assert In(areas[0], x, y) || (m.fill.Some? && In(areas[1], x, y));
    }
  }

  // What Scroll reports: where it wrote, and what it filled.
  function ScrollAreas(w: nat, h: nat, m: Move): seq<Rect> {
    var (dst, pos) := ClippedTarget(m);
    var written := Clipped(w, h, SizeOf(m.src), pos, dst);
    if m.fill.Some? then [written, ClippedSource(w, h, m)] else [written]
  }

  // A clip rectangle that leaves no gap of a column or row to an area, or not before the far edge of
  // the screen.
  predicate ClipMeets(r: Rect, clip: Option<Rect>, w: nat, h: nat) {
    clip.Some? ==>
      var c := clip.value;
      && (|| (c.left <= r.right + 1 && r.left <= c.right + 1 && c.left <= c.right + 1)
          || (r.right >= w - 1 && c.right >= w - 1))
      && (|| (c.top <= r.bottom + 1 && r.top <= c.bottom + 1 && c.top <= c.bottom + 1)
          || (r.bottom >= h - 1 && c.bottom >= h - 1))
  }

  // Exactly when what Scroll reports is harmless: the clip rectangle leaves no gap to the target, and
  // none to the source if that is filled.
  lemma ScrollAreasAreHarmlessExactlyWhen(w: nat, h: nat, m: Move)
    requires w > 0 && h > 0 && OnScreen(m.src, w, h)
    ensures AllHarmless(ScrollAreas(w, h, m), w, h) <==>
            ClipMeets(RectAt(m.dest, SizeOf(m.src)), m.clip, w, h) && (m.fill.Some? ==> ClipMeets(m.src, m.clip, w, h))
  {
    var areas := ScrollAreas(w, h, m);
    assert AllHarmless(areas, w, h) <==> Harmless(areas[0], w, h) && (m.fill.Some? ==> Harmless(areas[1], w, h));
    assert Clipped(w, h, SizeOf(m.src), Coord(0, 0), m.src) == m.src;
  }

  ghost predicate AllOnScreen(list: seq<Rect>, w: nat, h: nat) {
    forall i | 0 <= i < |list| :: OnScreen(list[i], w, h)
  }

  // Nothing of the list or the areas is lost when the areas are added.
  ghost predicate KeepsCells(list: seq<Rect>, areas: seq<Rect>, w: nat, h: nat) {
    forall x, y | 0 <= x < w && 0 <= y < h && (Covered(list, x, y) || Covered(areas, x, y)) ::
      Covered(AddedAll(list, areas), x, y)
  }

  // The first area adds nothing, and the second takes away what was there before it.
  predicate UndoesBehind(first: Rect, r: Rect, w: nat, h: nat) {
    && first.left == r.left && first.top == r.top
    && (|| (UndoesColumns(r, w, h) && first.right == r.left - 1 && first.bottom == r.bottom)
        || (UndoesRows(r, w, h) && first.bottom == r.top - 1 && first.right == r.right))
  }

  predicate DefersSafely(w: nat, h: nat, m: Move) {
    var areas := ScrollAreas(w, h, m);
    && !UndoesColumns(areas[0], w, h) && !UndoesRows(areas[0], w, h)
    && (m.fill.Some? ==> !UndoesBehind(areas[0], areas[1], w, h))
  }

  // The last area of the list, when one has been added.
  lemma LastIs(list: seq<Rect>, area: Rect) returns (last: Rect)
    ensures Added(list, area) != [] && last == Added(list, area)[|Added(list, area)| - 1]
    ensures last == area ||
            (list != [] && Merged(list[|list| - 1], area).Some? && last == Merged(list[|list| - 1], area).value)
  {
    last := Added(list, area)[|Added(list, area)| - 1];
  }

  // Lists of areas on the screen: an area that undoes none of them loses nothing.
  lemma OneAreaKeepsCells(list: seq<Rect>, area: Rect, w: nat, h: nat)
    requires AllOnScreen(list, w, h) && !UndoesColumns(area, w, h) && !UndoesRows(area, w, h)
    ensures forall x, y | 0 <= x < w && 0 <= y < h ::
              Covered(Added(list, area), x, y) <==> Covered(list, x, y) || In(area, x, y)
  {
    UndoesExactlyWhen(area, w, h);
    AddKeepsCells(list, area, w, h);
  }

  // Nor does the filled source behind the target lose anything, except in the one case.
  lemma SecondAreaLosesNothing(w: nat, h: nat, m: Move, list: seq<Rect>, last: Rect)
    requires w > 0 && h > 0 && OnScreen(m.src, w, h) && m.fill.Some? && DefersSafely(w, h, m) && AllOnScreen(list, w, h)
    requires var area := ScrollAreas(w, h, m)[0];
             || last == area
             || (list != [] && Merged(list[|list| - 1], area).Some? && last == Merged(list[|list| - 1], area).value)
    ensures !Loses(last, ScrollAreas(w, h, m)[1], w, h)
  {
  }

  lemma AddedTwice(list: seq<Rect>, a: Rect, b: Rect)
    ensures AddedAll(list, [a]) == Added(list, a) && AddedAll(list, [a, b]) == Added(Added(list, a), b)
  {
    assert [a][..0] == [] && [a, b][..1] == [a];
  }

  lemma CoveredByTwo(a: Rect, b: Rect, x: int, y: int)
    ensures Covered([a], x, y) <==> In(a, x, y)
    ensures Covered([a, b], x, y) <==> In(a, x, y) || In(b, x, y)
  {
    assert [] + [a] == [a] && [a] + [b] == [a, b];
    CoveredInFront([], a, x, y);
    CoveredInFront([a], b, x, y);
  }

  lemma SafeScrollKeepsCells(w: nat, h: nat, m: Move, list: seq<Rect>)
    requires w > 0 && h > 0 && OnScreen(m.src, w, h) && DefersSafely(w, h, m) && AllOnScreen(list, w, h)
    ensures KeepsCells(list, ScrollAreas(w, h, m), w, h)
  {
    var areas := ScrollAreas(w, h, m);
    var first, second := areas[0], if m.fill.Some? then areas[1] else areas[0];
    OneAreaKeepsCells(list, first, w, h);
    AddedTwice(list, first, second);
    if m.fill.Some? {
      var last := LastIs(list, first);
      SecondAreaLosesNothing(w, h, m, list, last);
      AddKeepsCells(Added(list, first), second, w, h);
    }
    forall x, y | 0 <= x < w && 0 <= y < h && (Covered(list, x, y) || Covered(areas, x, y))
      ensures Covered(AddedAll(list, areas), x, y)
    {
      CoveredByTwo(first, second, x, y);
    }
  }

  // Otherwise the cells next to the undoing area were covered, and no longer are.
  function Undone(r: Rect, w: nat, h: nat): Rect {
    if UndoesColumns(r, w, h) then Rect(r.left - 1, r.top, r.left - 1, r.bottom)
    else Rect(r.left, r.top - 1, r.right, r.top - 1)
  }

  lemma UndoneIsLost(r: Rect, w: nat, h: nat)
    requires UndoesColumns(r, w, h) || UndoesRows(r, w, h)
    ensures var last := Undone(r, w, h);
            && OnScreen(last, w, h) && Covered([last], last.left, last.top)
            && !Covered(Added([last], r), last.left, last.top)
  {
    var last := Undone(r, w, h);
    var m := Merged(last, r).value;
    assert Added([last], r) == [m];
    CoveredByTwo(last, m, last.left, last.top);
    CoveredByTwo(m, m, last.left, last.top);
  }

  // The clip rectangle keeps the filled source away from what its target undoes.
  lemma FillSparesUndone(w: nat, h: nat, m: Move)
    requires w > 0 && h > 0 && OnScreen(m.src, w, h) && m.fill.Some?
    requires var area := ScrollAreas(w, h, m)[0]; UndoesColumns(area, w, h) || UndoesRows(area, w, h)
    ensures var last := Undone(ScrollAreas(w, h, m)[0], w, h); !In(ScrollAreas(w, h, m)[1], last.left, last.top)
  {
  }

  lemma FirstAddsNothing(first: Rect, r: Rect, w: nat, h: nat)
    requires UndoesBehind(first, r, w, h)
    ensures Added([Undone(r, w, h)], first) == [Undone(r, w, h)]
  {
  }

  lemma UnsafeScrollLosesCell(w: nat, h: nat, m: Move) returns (list: seq<Rect>)
    requires w > 0 && h > 0 && OnScreen(m.src, w, h) && !DefersSafely(w, h, m)
    ensures AllOnScreen(list, w, h) && !KeepsCells(list, ScrollAreas(w, h, m), w, h)
  {
    var areas := ScrollAreas(w, h, m);
    var first, second := areas[0], if m.fill.Some? then areas[1] else areas[0];
    AddedTwice([Undone(first, w, h)], first, second);
    AddedTwice([Undone(second, w, h)], first, second);
    var last;
    if UndoesColumns(first, w, h) || UndoesRows(first, w, h) {
      last := Undone(first, w, h);
      UndoneIsLost(first, w, h);
      if m.fill.Some? {
        FillSparesUndone(w, h, m);
        AddCoversNoMore(Added([last], first), second, last.left, last.top);
      }
    } else {
      last := Undone(second, w, h);
      FirstAddsNothing(first, second, w, h);
      UndoneIsLost(second, w, h);
    }
    list := [last];
    assert !Covered(AddedAll(list, areas), last.left, last.top);
  }

  // The areas of a scroll lose no cell of the screen, whatever areas on the screen were deferred
  // before, exactly when this can be seen from the areas.
  lemma ScrollDefersSafelyExactlyWhen(w: nat, h: nat, m: Move)
    requires w > 0 && h > 0 && OnScreen(m.src, w, h)
    ensures (forall list | AllOnScreen(list, w, h) :: KeepsCells(list, ScrollAreas(w, h, m), w, h)) <==>
            DefersSafely(w, h, m)
  {
    if DefersSafely(w, h, m) {
      forall list | AllOnScreen(list, w, h)
        ensures KeepsCells(list, ScrollAreas(w, h, m), w, h)
      {
        SafeScrollKeepsCells(w, h, m, list);
      }
    } else {
      var list := UnsafeScrollLosesCell(w, h, m);
    }
  }

  // ---------------------------------------------------------------------------------
  // Scrolling the region up
  // ---------------------------------------------------------------------------------

  // A block as wide as the screen: n rows from `top` on.
  function RowsPut(g: Grid, w: nat, data: Grid, top: nat, n: nat): (after: Grid)
    requires IsGrid(g, w, |g|) && IsGrid(data, w, n)
    ensures IsGrid(after, w, |g|)
  {
    Written(g, w, data, Coord(w, n), Coord(0, 0), Rect(0, top, w - 1, top + n - 1))
  }

  lemma RowsPutAt(g: Grid, w: nat, data: Grid, top: nat, n: nat, x: nat, y: nat)
    requires IsGrid(g, w, |g|) && IsGrid(data, w, n) && w > 0 && n > 0 && top + n <= |g| && y < |g| && x < w
    ensures RowsPut(g, w, data, top, n)[y][x] == if top <= y < top + n then data[y - top][x] else g[y][x]
  {
    WrittenAt(g, w, data, Coord(w, n), Coord(0, 0), Rect(0, top, w - 1, top + n - 1), x, y);
  }

  // It changes its rows only.
  lemma RowsPutWithin(g: Grid, w: nat, data: Grid, top: nat, n: nat)
    requires IsGrid(g, w, |g|) && IsGrid(data, w, n) && w > 0 && n > 0 && top + n <= |g|
    ensures var r := Rect(0, top, w - 1, top + n - 1);
            && Clipped(w, |g|, Coord(w, n), Coord(0, 0), r) == r && OnScreen(r, w, |g|)
            && ChangedWithin(g, RowsPut(g, w, data, top, n), [r], w, |g|)
  {
    var r := Rect(0, top, w - 1, top + n - 1);
    var after := RowsPut(g, w, data, top, n);
    forall y: nat, x: nat | y < |g| && x < w && g[y][x] != after[y][x]
      ensures Covered([r], x, y)
    {
      RowsPutAt(g, w, data, top, n, x, y);
      assert In([r][0], x, y);
    }
  }

  ghost predicate IsRowsOf(data: Grid, g: Grid, w: nat, from: nat, n: nat) {
    IsGrid(data, w, n) && from + n <= |g| && forall y | 0 <= y < n :: data[y] == g[from + y]
  }

  // What reading such a block gives.
  lemma RowsRead(g: Grid, w: nat, was: Grid, data: Grid, from: nat, n: nat)
    requires IsGrid(g, w, |g|) && IsGrid(was, w, n) && w > 0 && n > 0 && from + n <= |g|
    requires var r := Rect(0, from, w - 1, from + n - 1);
             var c := Clipped(w, |g|, Coord(w, n), Coord(0, 0), r);
             Copies(w, |g|, Coord(w, n), Coord(0, 0), r) ==>
               data == Pasted(was, 0, 0, g, c.left, c.top, c.right + 1 - c.left, c.bottom + 1 - c.top)
    ensures IsRowsOf(data, g, w, from, n)
  {
    assert Clipped(w, |g|, Coord(w, n), Coord(0, 0), Rect(0, from, w - 1, from + n - 1)) ==
      Rect(0, from, w - 1, from + n - 1);
    forall y | 0 <= y < n
      ensures data[y] == g[from + y]
    {
    }
  }

  // Moving the rows up, then blanking the last one, as two block writes.
  lemma CopiesAreScroll(env: Env, g: Grid, data: Grid, w: nat, top: nat, edge: nat)
    requires ValidEnv(env) && env.bottom != 0 && IsGrid(g, w, env.height)
    requires w == env.width && top == env.top && edge == ScrollEdge(env)
    requires IsRowsOf(data, g, w, top + 1, edge - 1 - top)
    ensures RowsPut(RowsPut(g, w, data, top, edge - 1 - top), w, [BlankRow(env)], edge - 1, 1) == ScrolledUp(env, g)
  {
    var result := RowsPut(RowsPut(g, w, data, top, edge - 1 - top), w, [BlankRow(env)], edge - 1, 1);
    forall y: nat, x: nat | y < env.height && x < w
      ensures result[y][x] == ScrolledUp(env, g)[y][x]
    {
      CopiedAt(env, g, data, w, top, edge, x, y);
      ScrolledUpAt(env, g, x, y);
    }
    SameGrid(result, ScrolledUp(env, g));
  }

  lemma CopiedAt(env: Env, g: Grid, data: Grid, w: nat, top: nat, edge: nat, x: nat, y: nat)
    requires IsGrid(g, w, |g|) && w == env.width && top + 1 < edge <= |g| && x < w && y < |g|
    requires IsRowsOf(data, g, w, top + 1, edge - 1 - top)
    ensures RowsPut(RowsPut(g, w, data, top, edge - 1 - top), w, [BlankRow(env)], edge - 1, 1)[y][x] ==
            if y < top || y >= edge then g[y][x] else if y + 1 < edge then g[y + 1][x] else BlankRow(env)[x]
  {
    RowsPutAt(RowsPut(g, w, data, top, edge - 1 - top), w, [BlankRow(env)], edge - 1, 1, x, y);
    RowsPutAt(g, w, data, top, edge - 1 - top, x, y);
  }

  lemma ScrolledUpAt(env: Env, g: Grid, x: nat, y: nat)
    requires ValidEnv(env) && env.bottom != 0 && IsGrid(g, env.width, env.height) && y < env.height && x < env.width
    ensures ScrolledUp(env, g)[y][x] ==
            if y < env.top || y >= ScrollEdge(env) then g[y][x]
            else if y + 1 < ScrollEdge(env) then g[y + 1][x] else BlankRow(env)[x]
  {
    ScrollMovesRegionOnly(env, g);
  }
}
