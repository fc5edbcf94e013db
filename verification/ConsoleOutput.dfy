/**
  The console screen (WinPort/src/ConsoleOutput.cpp).

  The ghost field `shown` is what the backend was last told. One thread at a time is inside the
  mutex, and every operation tells the backend before the next one starts.
  */
module ConsoleOutput {
  import opened Wrappers
  import opened Grids
  import opened Repaints
  import opened ConsoleBuffer
  import opened Terminal
  import opened SingleCharacters
  import opened Screen

  // Wide and high enough, and small enough for coordinates of 16 bits.
  predicate SizeInRange(w: nat, h: nat) {
    24 <= w <= MAXSHORT - 2 && 12 <= h <= MAXSHORT
  }

  // Nothing is waiting when repaints are not deferred; as long as only harmless areas were
  // deferred, no cell that the backend shows wrongly is missing from them.
  ghost predicate Reported(
    rows: Grid, shown: Grid, deferred: seq<Rect>, repaintDefer: nat, intact: bool, w: nat, h: nat) {
    && IsGrid(rows, w, h) && IsGrid(shown, w, h)
    && (repaintDefer == 0 ==> deferred == [])
    && (intact ==> AllHarmless(deferred, w, h) && Tracked(rows, shown, deferred, w, h))
  }

  // What is deferred, what the backend shows, and whether only harmless areas were deferred.
  datatype Outlook = Outlook(deferred: seq<Rect>, shown: Grid, intact: bool)

  // An operation that is over has told the backend of its areas, or deferred them.
  ghost predicate Reports(
    before: Outlook, after: Outlook, rows: Grid, areas: seq<Rect>, repaintDefer: nat, w: nat, h: nat) {
    if repaintDefer == 0 then
      && IsGrid(rows, w, h) && IsGrid(before.shown, w, h) && w > 0 && h > 0
      && after == Outlook([], Refreshed(before.shown, rows, areas), before.intact)
    else
      after == Outlook(AddedAll(before.deferred, areas), before.shown, before.intact && AllHarmless(areas, w, h))
  }

  // What changed is in the bounding area.
  ghost predicate InArea(before: Grid, after: Grid, area: Rect, w: nat, h: nat) {
    Bounding(area, w, h) && ChangedWithin(before, after, [area], w, h)
  }

  lemma InAreaGrows(before: Grid, now: Grid, after: Grid, area: Rect, r: Rect, w: nat, h: nat)
    requires SizeInRange(w, h) && InArea(before, now, area, w, h) && ChangedWithin(now, after, [r], w, h) &&
             OnScreen(r, w, h)
    ensures InArea(before, after, Affected(area, r), w, h)
  {
    AffectedBounds(area, r, w, h);
    forall y, x | 0 <= y < h && 0 <= x < w && before[y][x] != after[y][x]
      ensures Covered([Affected(area, r)], x, y)
    {
      assert Covered([area], x, y) || Covered([r], x, y);
      assert In([Affected(area, r)][0], x, y);
    }
  }

  class Console {
    const buf: Buffer
    const classes: Classes
    var processed: bool
    var wrap: bool
    var attributes: nat
    var cursor: Coord
    var prevPos: Coord
    var repaintDefer: nat
    var deferred: seq<Rect>
    var regionTop: nat
    var regionBottom: nat
    ghost var shown: Grid
    ghost var intact: bool

    constructor (classes: Classes)
      requires !classes.prefix(TAB) && !classes.suffix(TAB)
      ensures Valid() && fresh(buf) && fresh(buf.cells) && buf.width == 80 && buf.height == 25
      ensures attributes == 7 && buf.Rows() == Blank(80, 25, attributes) && shown == buf.Rows() &&
              repaintDefer == 0 && intact
    {
      buf := new Buffer();
      this.classes := classes;
      processed, wrap, attributes := true, true, 7;
      cursor, prevPos := Coord(0, 0), Coord(-1, -1);
      repaintDefer, deferred := 0, [];
      regionTop, regionBottom := 0, MAXSHORT;
      shown, intact := [], true;
      new;
      buf.SetSize(80, 25, attributes);
      SameGrid(buf.Rows(), Blank(80, 25, attributes));
      shown := buf.Rows();
    }

    ghost function Setup(): Env
      reads this, buf
    {
      Env(classes, processed, wrap, attributes, buf.width, buf.height, regionTop, regionBottom)
    }

    ghost predicate Usable()
      reads this, buf
    {
      buf.Valid() && SizeInRange(buf.width, buf.height) && ValidEnv(Setup())
    }

    ghost predicate Valid()
      reads this, buf, buf.cells
    {
      Usable() && Reported(buf.Rows(), shown, deferred, repaintDefer, intact, buf.width, buf.height)
    }

    // ---------------------------------------------------------------------------------
    // Deferred repaints
    // ---------------------------------------------------------------------------------

    // DeferredRepaints::Add
    method AddRepaint(area: Rect)
      modifies this`deferred
      ensures deferred == Added(old(deferred), area)
    {
      if |deferred| != 0 {
        var last := deferred[|deferred| - 1];
        if area.top == last.top && area.bottom == last.bottom && area.left == last.right + 1 {
          deferred := deferred[..|deferred| - 1] + [last.(right := area.right)];
          return;
        }
        if area.left == last.left && area.right == last.right && area.top == last.bottom + 1 {
          deferred := deferred[..|deferred| - 1] + [last.(bottom := area.bottom)];
          return;
        }
        if area.left == last.left && area.right == last.right && area.top == last.top && area.bottom == last.bottom {
          assert deferred == deferred[..|deferred| - 1] + [last];
          return;
        }
      }
      deferred := deferred + [area];
    }

    ghost function View(): Outlook
      reads this
    {
      Outlook(deferred, shown, intact)
    }

    // The areas are deferred.
    method Defer(areas: seq<Rect>, ghost before: Grid)
      requires Usable() && Reported(before, shown, deferred, repaintDefer, intact, buf.width, buf.height)
      requires ChangedWithin(before, buf.Rows(), areas, buf.width, buf.height) && repaintDefer > 0
      modifies this`deferred, this`intact
      ensures Valid() && deferred == AddedAll(old(deferred), areas)
      ensures intact == (old(intact) && AllHarmless(areas, buf.width, buf.height))
    {
      ghost var w, h := buf.width, buf.height;
      AddRepaints(areas);
      intact := intact && AllHarmless(areas, w, h);
      if intact {
        AddAllKeepsScreenCoverage(old(deferred), areas, w, h);
        DeferKeepsTrack(before, buf.Rows(), shown, old(deferred), areas, w, h);
      }
    }

    // DeferredRepaints::Add of several areas
    method AddRepaints(areas: seq<Rect>)
      modifies this`deferred
      ensures deferred == AddedAll(old(deferred), areas)
    {
      var i := 0;
      while i < |areas|
        invariant 0 <= i <= |areas| && deferred == AddedAll(old(deferred), areas[..i])
      {
        AddRepaint(areas[i]);
        i := i + 1;
        assert areas[..i][..i - 1] == areas[..i - 1];
      }
      assert areas[..i] == areas;
    }

    // The end of every operation: the areas are deferred, or the backend reads them again.
    method Report(areas: seq<Rect>, ghost before: Grid)
      requires Usable() && Reported(before, shown, deferred, repaintDefer, intact, buf.width, buf.height)
      requires ChangedWithin(before, buf.Rows(), areas, buf.width, buf.height)
      modifies this`deferred, this`shown, this`intact
      ensures Valid()
      ensures intact == (old(intact) && (repaintDefer == 0 || AllHarmless(areas, buf.width, buf.height)))
      ensures repaintDefer > 0 ==> shown == old(shown) && deferred == AddedAll(old(deferred), areas)
      ensures repaintDefer == 0 ==> shown == Refreshed(old(shown), buf.Rows(), areas)
    {
      if repaintDefer > 0 {
        Defer(areas, before);
      } else {
        if intact {
          RefreshKeepsTrack(before, buf.Rows(), shown, areas, buf.width, buf.height);
        }
        shown := Refreshed(shown, buf.Rows(), areas);
      }
    }

    method RepaintsDeferStart()
      requires Valid() && repaintDefer < 0xFFFF
      modifies this`repaintDefer
      ensures Valid() && repaintDefer == old(repaintDefer) + 1
    {
      repaintDefer := repaintDefer + 1;
    }

    // When the count gets to zero, the backend agrees with the screen.
    method RepaintsDeferFinish(force: bool)
      requires Valid()
      modifies this`repaintDefer, this`deferred, this`shown
      ensures Valid() && repaintDefer == if force || old(repaintDefer) == 0 then 0 else old(repaintDefer) - 1
      ensures repaintDefer == 0 ==> deferred == [] && shown == Refreshed(old(shown), buf.Rows(), old(deferred))
      ensures repaintDefer == 0 && intact ==> shown == buf.Rows()
      ensures repaintDefer > 0 ==> deferred == old(deferred) && shown == old(shown)
    {
      if force {
        repaintDefer := 0;
      } else if repaintDefer > 0 {
        repaintDefer := repaintDefer - 1;
      }
      if repaintDefer == 0 {
        var areas := deferred;
        deferred := [];
        FinishAgrees(buf.Rows(), shown, areas, intact, buf.width, buf.height);
        shown := Refreshed(shown, buf.Rows(), areas);
      }
    }

    // ---------------------------------------------------------------------------------
    // Cells and blocks
    // ---------------------------------------------------------------------------------

    method SetUpdateCellArea(pos: Coord) returns (area: Rect)
      requires Usable()
      ensures area == CellArea(buf.Rows(), classes, pos)
    {
      area := Rect(pos.x, pos.y, pos.x, pos.y);
      var ok, ci := buf.ReadCell(pos);
      if ok {
        if ci.ch == 0 && area.left > 0 {
          area := area.(left := area.left - 1);
        } else if classes.fullWidth(ci.ch) {
          area := area.(right := area.right + 1);
        }
      }
    }

    method SetCursor(pos: Coord)
      requires Valid()
      modifies this`cursor, this`deferred, this`shown, this`intact
      ensures Valid() && cursor == pos && intact == old(intact)
      ensures old(cursor) == pos ==> View() == old(View())
      ensures old(cursor) != pos ==>
                Reports(old(View()), View(), buf.Rows(),
                        [CellArea(buf.Rows(), classes, old(cursor)), CellArea(buf.Rows(), classes, pos)],
                        repaintDefer, buf.width, buf.height)
    {
      if cursor == pos {
        return;
      }
      var from := SetUpdateCellArea(cursor);
      cursor := pos;
      var to := SetUpdateCellArea(pos);
      Report([from, to], buf.Rows());
    }

    method WriteCell(c: Cell, pos: Coord) returns (ok: bool)
      requires Valid()
      modifies this`deferred, this`shown, this`intact, buf.cells
      ensures Valid() && intact == old(intact) && ok == OnGrid(old(buf.Rows()), pos.x, pos.y)
      ensures buf.Rows() == WithCell(old(buf.Rows()), pos.x, pos.y, c)
      ensures buf.Rows() == old(buf.Rows()) ==> View() == old(View())
      ensures buf.Rows() != old(buf.Rows()) ==>
                Reports(old(View()), View(), buf.Rows(), [CellArea(buf.Rows(), classes, pos)], repaintDefer,
                        buf.width, buf.height)
    {
      ghost var before := buf.Rows();
      var r := buf.WriteCell(c, pos);
      match r
      case Bad =>
        return false;
      case Same =>
        SameGrid(before, WithCell(before, pos.x, pos.y, c));
        return true;
      case Modified =>
        assert buf.Rows()[pos.y][pos.x] != before[pos.y][pos.x];
        var area := SetUpdateCellArea(pos);
        OneCellChanged(before, pos, c, area, buf.width, buf.height);
        Report([area], before);
        return true;
    }

    // The block Write: off the screen nothing is written, but an area is reported all the same.
    method Write(data: array<Cell>, size: Coord, pos: Coord, area: Rect) returns (r: Rect)
      requires Valid() && data != buf.cells
      requires GoodData(size, pos) ==> Offset(size.x, size.y) <= data.Length
      modifies this`deferred, this`shown, this`intact, buf.cells
      ensures Valid() && r == Clipped(buf.width, buf.height, size, pos, area)
      ensures Reports(old(View()), View(), buf.Rows(), [r], repaintDefer, buf.width, buf.height)
      ensures NonEmpty(area) ==> intact == old(intact)
      ensures buf.Rows() == Written(old(buf.Rows()), buf.width,
                                    if GoodData(size, pos) then Matrix(data[..], size.x, size.y) else [],
                                    size, pos, area)
    {
      ghost var before := buf.Rows();
      r := buf.Write(data, size, pos, area);
      WrittenWithin(before, buf.Rows(), buf.width, size, pos, area);
      Report([r], before);
    }

    // ---------------------------------------------------------------------------------
    // Scroll
    // ---------------------------------------------------------------------------------

    // One more cell of a row that is filled from `left` on.
    method FillOne(left: int, x: int, y: int, c: Cell, ghost before: Grid)
      requires Usable() && left <= x && IsGrid(before, buf.width, buf.height)
      requires buf.Rows() == Filled(before, buf.width, Rect(left, y, x - 1, y), c)
      modifies buf.cells
      ensures Usable() && buf.Rows() == Filled(before, buf.width, Rect(left, y, x, y), c)
    {
      ghost var now := buf.Rows();
      var ignored := buf.WriteCell(c, Coord(x, y));
      FilledOne(now, buf.width, x, y, c);
      FilledTwice(before, buf.width, Rect(left, y, x - 1, y), Rect(x, y, x, y), Rect(left, y, x, y), c);
    }

    method FillRow(r: Rect, y: int, c: Cell)
      requires Usable()
      modifies buf.cells
      ensures Usable() && buf.Rows() == Filled(old(buf.Rows()), buf.width, Rect(r.left, y, r.right, y), c)
    {
      ghost var before := buf.Rows();
      var x := r.left;
      FilledNone(before, buf.width, Rect(r.left, y, x - 1, y), c);
      while x <= r.right
        invariant Usable() && r.left <= x && (x <= r.right + 1 || x == r.left)
        invariant buf.Rows() == Filled(before, buf.width, Rect(r.left, y, x - 1, y), c)
      {
        FillOne(r.left, x, y, c, before);
        x := x + 1;
      }
      if r.left > r.right {
        FilledNone(before, buf.width, Rect(r.left, y, r.right, y), c);
      }
    }

    // Cell by cell, row by row.
    method FillRect(r: Rect, c: Cell)
      requires Usable()
      modifies buf.cells
      ensures Usable() && buf.Rows() == Filled(old(buf.Rows()), buf.width, r, c)
    {
      ghost var before := buf.Rows();
      var y := r.top;
      FilledNone(before, buf.width, Rect(r.left, r.top, r.right, y - 1), c);
      while y <= r.bottom
        invariant Usable() && r.top <= y && (y <= r.bottom + 1 || y == r.top)
        invariant buf.Rows() == Filled(before, buf.width, Rect(r.left, r.top, r.right, y - 1), c)
      {
        FillRow(r, y, c);
        FilledTwice(before, buf.width, Rect(r.left, r.top, r.right, y - 1), Rect(r.left, y, r.right, y),
          Rect(r.left, r.top, r.right, y), c);
        y := y + 1;
      }
      if r.top > r.bottom {
        FilledNone(before, buf.width, r, c);
      }
    }

    method ReadSource(scrollRect: Rect) returns (tempChars: array<Cell>, src: Rect)
      requires Usable() && NonEmpty(scrollRect)
      ensures fresh(tempChars) && Offset(SizeOf(scrollRect).x, SizeOf(scrollRect).y) <= tempChars.Length
      ensures src == Clipped(buf.width, buf.height, SizeOf(scrollRect), Coord(0, 0), scrollRect)
      ensures HoldsSource(Matrix(tempChars[..], SizeOf(scrollRect).x, SizeOf(scrollRect).y), buf.Rows(), scrollRect)
    {
      tempChars := Resize(SizeOf(scrollRect).x, SizeOf(scrollRect).y);
      src := ReadInto(tempChars, scrollRect);
    }

    // What was in the buffer before stays there where the source is off the screen.
    method ReadInto(tempChars: array<Cell>, scrollRect: Rect) returns (src: Rect)
      requires Usable() && NonEmpty(scrollRect) && tempChars != buf.cells
      requires Offset(SizeOf(scrollRect).x, SizeOf(scrollRect).y) <= tempChars.Length
      modifies tempChars
      ensures src == Clipped(buf.width, buf.height, SizeOf(scrollRect), Coord(0, 0), scrollRect)
      ensures HoldsSource(Matrix(tempChars[..], SizeOf(scrollRect).x, SizeOf(scrollRect).y), buf.Rows(), scrollRect)
    {
      var size := SizeOf(scrollRect);
      ghost var was := Matrix(tempChars[..], size.x, size.y);
      src := buf.Read(tempChars, size, Coord(0, 0), scrollRect);
      ghost var data := Matrix(tempChars[..], size.x, size.y);
      ReadHoldsSource(buf.Rows(), buf.width, was, data, scrollRect);
    }

    method Scroll(m: Move) returns (ok: bool)
      requires Valid() && ScrollFitsShort(m)
      modifies this`deferred, this`shown, this`intact, buf.cells
      ensures Valid() && ok == NonEmpty(m.src)
      ensures !ok ==>
                buf.Rows() == old(buf.Rows()) && View() == old(View())
      ensures ok ==> IsScrolled(old(buf.Rows()), buf.width, buf.Rows(), m)
      ensures OnScreen(m.src, buf.width, buf.height) && TargetNotNegative(m) ==>
                buf.Rows() == Moved(old(buf.Rows()), buf.width, m)
      ensures ok ==>
                Reports(old(View()), View(), buf.Rows(), ScrollAreas(buf.width, buf.height, m), repaintDefer,
                        buf.width, buf.height)
    {
      if m.src.right < m.src.left || m.src.bottom < m.src.top {
        return false;
      }
      ghost var before := buf.Rows();
      var tempChars, src := ReadSource(m.src);
      ghost var data := Matrix(tempChars[..], SizeOf(m.src).x, SizeOf(m.src).y);
      var areas := MoveAndWrite(m, tempChars, src);
      ScrollResult(before, buf.width, data, m);
      Report(areas, before);
      ok := true;
    }

    // ClipRect, the fill and the write.
    method MoveAndWrite(m: Move, tempChars: array<Cell>, source: Rect) returns (areas: seq<Rect>)
      requires Usable() && NonEmpty(m.src) && tempChars != buf.cells
      requires Offset(SizeOf(m.src).x, SizeOf(m.src).y) <= tempChars.Length
      requires source == Clipped(buf.width, buf.height, SizeOf(m.src), Coord(0, 0), m.src)
      modifies buf.cells
      ensures Usable() && areas == ScrollAreas(buf.width, buf.height, m)
      ensures buf.Rows() ==
              Scrolled(old(buf.Rows()), buf.width, Matrix(tempChars[..], SizeOf(m.src).x, SizeOf(m.src).y), m)
    {
      var src, size, pos := source, SizeOf(m.src), Coord(0, 0);
      var dst := RectAt(m.dest, size);
      if m.clip.Some? {
        var ignored;
        src, ignored := ClipRect(src, m.clip.value);
        dst, pos := ClipRect(dst, m.clip.value);
      }
      if m.fill.Some? {
        FillRect(src, m.fill.value);
      }
      dst := buf.Write(tempChars, size, pos, dst);
      areas := if m.fill.Some? then [dst, src] else [dst];
    }

    // ---------------------------------------------------------------------------------
    // ModifySequenceAt
    // ---------------------------------------------------------------------------------

    // Writing within an area, with the bounding area of all that changed since `before`.
    method Affect(area: Rect, r: Rect, ghost before: Grid, ghost now: Grid) returns (next: Rect)
      requires Usable() && OnScreen(r, buf.width, buf.height)
      requires InArea(before, now, area, buf.width, buf.height) &&
               ChangedWithin(now, buf.Rows(), [r], buf.width, buf.height)
      ensures InArea(before, buf.Rows(), next, buf.width, buf.height)
    {
      next := area;
      if next.left > r.left {
        next := next.(left := r.left);
      }
      if next.top > r.top {
        next := next.(top := r.top);
      }
      if next.right < r.right {
        next := next.(right := r.right);
      }
      if next.bottom < r.bottom {
        next := next.(bottom := r.bottom);
      }
      InAreaGrows(before, now, buf.Rows(), area, r, buf.width, buf.height);
    }

    // A cell, and the second half of a full-width one if the first was modified.
    method PutAt(c: Cell, at: Coord, out: nat, area: Rect, ghost before: Grid) returns (next: Rect)
      requires Usable() && InArea(before, buf.Rows(), area, buf.width, buf.height)
      modifies buf.cells
      ensures Usable() && buf.Rows() == PutCell(old(buf.Rows()), at, c, out)
      ensures InArea(before, buf.Rows(), next, buf.width, buf.height)
    {
      next := area;
      ghost var now := buf.Rows();
      var r := buf.WriteCell(c, at);
      if r == Modified {
        OneCellChanged(now, at, c, Rect(at.x, at.y, at.x, at.y), buf.width, buf.height);
        next := Affect(next, Rect(at.x, at.y, at.x, at.y), before, now);
        if out == 2 {
          next := PutSecondHalf(c.(ch := 0), Coord(at.x + 1, at.y), next, before);
        }
      } else {
        SameGrid(now, buf.Rows());
      }
    }

    method PutSecondHalf(c: Cell, at: Coord, area: Rect, ghost before: Grid) returns (next: Rect)
      requires Usable() && InArea(before, buf.Rows(), area, buf.width, buf.height)
      modifies buf.cells
      ensures Usable() && buf.Rows() == WithCell(old(buf.Rows()), at.x, at.y, c)
      ensures InArea(before, buf.Rows(), next, buf.width, buf.height)
    {
      next := area;
      ghost var now := buf.Rows();
      var r := buf.WriteCell(c, at);
      if r == Modified {
        OneCellChanged(now, at, c, Rect(at.x, at.y, at.x, at.y), buf.width, buf.height);
        next := Affect(next, Rect(at.x, at.y, at.x, at.y), before, now);
      } else {
        SameGrid(now, buf.Rows());
      }
    }

    method ModifySequenceEntityAt(kind: Kind, c: nat, pos: Coord, area: Rect, ghost before: Grid)
      returns (out: nat, next: Rect)
      requires Usable() && InArea(before, buf.Rows(), area, buf.width, buf.height)
      modifies this`prevPos, buf.cells
      ensures Usable() && InArea(before, buf.Rows(), next, buf.width, buf.height)
      ensures (Term(buf.Rows(), pos, prevPos), out) ==
              Entity(Setup(), kind, c, Term(old(buf.Rows()), pos, old(prevPos)))
    {
      next := area;
      match kind
      case WriteStr =>
        out, next := WriteEntityAt(c, pos, area, before);
      case FillChar(chr) =>
        out := 1;
        var ok, ch := buf.ReadCell(pos);
        if ok {
          next := PutAt(ch.(ch := chr), pos, out, area, before);
        }
      case FillAttr(attr) =>
        out := 1;
        var ok, ch := buf.ReadCell(pos);
        if ok {
          next := PutAt(ch.(attr := attr), pos, out, area, before);
        }
    }

    // One character of a string: a prefix, a suffix that joins the previous cell, a tab, or any other.
    method WriteEntityAt(c: nat, at: Coord, area: Rect, ghost before: Grid) returns (out: nat, next: Rect)
      requires Usable() && InArea(before, buf.Rows(), area, buf.width, buf.height)
      modifies this`prevPos, buf.cells
      ensures Usable() && InArea(before, buf.Rows(), next, buf.width, buf.height)
      ensures (Term(buf.Rows(), at, prevPos), out) ==
              Entity(Setup(), WriteStr, c, Term(old(buf.Rows()), at, old(prevPos)))
    {
      var pos, ch := at, Cell(0, 0);
      out, next := 1, area;
      if classes.prefix(c) {
        out := 0;
        ch := ch.(ch := c);
      } else if prevPos.x >= 0 && classes.suffix(c) {
        out := 0;
        var ok;
        ok, ch := buf.ReadCell(prevPos);
        if !ok {
          return;
        }
        pos := prevPos;
        ch := ch.(ch := classes.compose(ch.ch, c));
      } else if c == TAB && processed {
        ch := ch.(ch := BLANK);
      } else {
        ch := ch.(ch := c);
        if classes.fullWidth(c) {
          out := 2;
        }
      }
      ch := ch.(attr := attributes);
      prevPos := pos;
      next := PutAt(ch, pos, out, area, before);
    }

    method ScrollOutputOnOverflow(area: Rect, ghost before: Grid) returns (next: Rect)
      requires Usable() && InArea(before, buf.Rows(), area, buf.width, buf.height)
      modifies buf.cells
      ensures Usable() && InArea(before, buf.Rows(), next, buf.width, buf.height)
      ensures buf.Rows() == ScrolledUp(Setup(), old(buf.Rows()))
    {
      next := area;
      var width, height := buf.GetSize();
      if height > regionBottom + 1 {
        height := regionBottom + 1;
      }
      if (height - regionTop) % 0x1_0000_0000 < 2 || width == 0 {
        return;
      }
      var tempChars := Resize(width, height - 1);
      if tempChars.Length == 0 {
        return;
      }
      RowStarts(width, height);
      next := ShiftRegion(tempChars, width, height, next, before);
    }

    // The rows of the region move up, and the last one gets blank.
    method ShiftRegion(tempChars: array<Cell>, width: nat, height: nat, area: Rect, ghost before: Grid)
      returns (next: Rect)
      requires Usable() && InArea(before, buf.Rows(), area, buf.width, buf.height)
      requires width == buf.width && height == ScrollEdge(Setup()) && regionBottom != 0
      requires tempChars != buf.cells && tempChars.Length == Offset(width, height - 1)
      modifies buf.cells, tempChars
      ensures Usable() && InArea(before, buf.Rows(), next, buf.width, buf.height)
      ensures buf.Rows() == ScrolledUp(Setup(), old(buf.Rows()))
    {
      next := MoveRows(tempChars, width, height, area, before);
      next := BlankLastRow(tempChars, width, height, next, before);
    }

    // The rows of the region but the first, written one row higher.
    method MoveRows(tempChars: array<Cell>, width: nat, height: nat, area: Rect, ghost before: Grid)
      returns (next: Rect)
      requires Usable() && InArea(before, buf.Rows(), area, buf.width, buf.height)
      requires width == buf.width && height == ScrollEdge(Setup()) && regionBottom != 0
      requires tempChars != buf.cells && tempChars.Length == Offset(width, height - 1)
      modifies buf.cells, tempChars
      ensures Usable() && InArea(before, buf.Rows(), next, buf.width, buf.height)
      ensures RowsPut(buf.Rows(), width, [BlankRow(Setup())], height - 1, 1) == ScrolledUp(Setup(), old(buf.Rows()))
    {
      ghost var g := buf.Rows();
      ghost var data := ReadRegion(tempChars, width, height, Setup(), g);
      next := WriteRows(tempChars, width, regionTop, height - 1 - regionTop, data, area, before);
    }

    // The rows to move, which make up the scrolled region.
    method ReadRegion(tempChars: array<Cell>, width: nat, height: nat, ghost env: Env, ghost g: Grid)
      returns (ghost data: Grid)
      requires Usable() && width == buf.width && height == ScrollEdge(Setup()) && regionBottom != 0
      requires tempChars != buf.cells && tempChars.Length == Offset(width, height - 1)
      requires env == Setup() && g == buf.Rows()
      modifies tempChars
      ensures buf.Rows() == g && Offset(width, height - 1 - regionTop) <= tempChars.Length
      ensures data == Matrix(tempChars[..], width, height - 1 - regionTop)
      ensures MakesScroll(env, g, data, width, regionTop, height)
    {
      FewerRowsFit(width, height - 1 - regionTop, height - 1);
      data := ReadRows(tempChars, width, regionTop + 1, height - 1 - regionTop, g);
      RegionCopied(env, g, data, width, regionTop, height);
    }

    method ReadRows(tempChars: array<Cell>, width: nat, from: nat, n: nat, ghost g: Grid) returns (ghost data: Grid)
      requires buf.Valid() && width == buf.width > 0 && n > 0 && from + n <= buf.height && g == buf.Rows()
      requires tempChars != buf.cells && Offset(width, n) <= tempChars.Length
      modifies tempChars
      ensures buf.Rows() == g && data == Matrix(tempChars[..], width, n) && IsRowsOf(data, g, width, from, n)
    {
      ghost var was := Matrix(tempChars[..], width, n);
      var r := buf.Read(tempChars, Coord(width, n), Coord(0, 0), Rect(0, from, width - 1, from + n - 1));
      data := Matrix(tempChars[..], width, n);
      RowsRead(g, width, was, data, from, n);
    }

    method WriteRows(
      tempChars: array<Cell>, width: nat, top: nat, n: nat, ghost data: Grid, area: Rect, ghost before: Grid)
      returns (next: Rect)
      requires Usable() && InArea(before, buf.Rows(), area, buf.width, buf.height) && width == buf.width
      requires tempChars != buf.cells && Offset(width, n) <= tempChars.Length && n > 0 && top + n <= buf.height
      requires data == Matrix(tempChars[..], width, n)
      modifies buf.cells
      ensures Usable() && InArea(before, buf.Rows(), next, buf.width, buf.height)
      ensures buf.Rows() == RowsPut(old(buf.Rows()), width, data, top, n)
    {
      ghost var now := buf.Rows();
      RowsPutWithin(now, width, data, top, n);
      var r := buf.Write(tempChars, Coord(width, n), Coord(0, 0), Rect(0, top, width - 1, top + n - 1));
      assert buf.Rows() == RowsPut(now, width, data, top, n);
      next := Affect(area, r, before, now);
    }

    // The last row of the region.
    method BlankLastRow(tempChars: array<Cell>, width: nat, height: nat, area: Rect, ghost before: Grid)
      returns (next: Rect)
      requires Usable() && InArea(before, buf.Rows(), area, buf.width, buf.height)
      requires width == buf.width && 1 < height <= buf.height
      requires tempChars != buf.cells && tempChars.Length == Offset(width, height - 1)
      modifies buf.cells, tempChars
      ensures Usable() && InArea(before, buf.Rows(), next, buf.width, buf.height)
      ensures buf.Rows() == RowsPut(old(buf.Rows()), width, [BlankRow(Setup())], height - 1, 1)
    {
      RowFits(width, 0, height - 1);
      ghost var blank := BlankFirstRow(tempChars, width);
      assert blank[0] == BlankRow(Setup());
      assert blank == [BlankRow(Setup())];
      next := WriteRows(tempChars, width, height - 1, 1, blank, area, before);
    }

    // One row of blanks.
    method BlankFirstRow(tempChars: array<Cell>, width: nat) returns (ghost blank: Grid)
      requires Offset(width, 1) <= tempChars.Length
      modifies tempChars
      ensures blank == Matrix(tempChars[..], width, 1) && IsGrid(blank, width, 1)
      ensures forall x | 0 <= x < width :: blank[0][x] == Cell(BLANK, attributes)
    {
      for i := 0 to width
        invariant forall j | 0 <= j < i :: tempChars[j] == Cell(BLANK, attributes)
      {
        tempChars[i] := Cell(BLANK, attributes);
      }
      blank := Matrix(tempChars[..], width, 1);
    }

    // One turn of the loop, for anything but a bell.
    method TakeTurn(kind: Kind, c: nat, at: Coord, scrollEdge: nat, area: Rect, ghost before: Grid)
      returns (pos: Coord, next: Rect)
      requires Usable() && InArea(before, buf.Rows(), area, buf.width, buf.height) && !IsBell(Setup(), kind, c)
      requires scrollEdge == ScrollEdge(Setup())
      modifies this`prevPos, buf.cells
      ensures Usable() && InArea(before, buf.Rows(), next, buf.width, buf.height)
      ensures Term(buf.Rows(), pos, prevPos) == Turn(Setup(), kind, c, Term(old(buf.Rows()), at, old(prevPos)))
    {
      pos, next := at, area;
      if pos.x >= buf.width {
        if kind != WriteStr || (wrap && (!processed || (c != RETURN && c != NEWLINE))) {
          pos, next := GoDown(Coord(0, pos.y), scrollEdge, next, before);
        } else {
          pos := Coord(buf.width - 1, pos.y);
        }
      }
      assert Term(buf.Rows(), pos, prevPos) == BackOnScreen(Setup(), kind, c, Term(old(buf.Rows()), at, old(prevPos)));
      pos, next := ActAt(kind, c, pos, scrollEdge, next, before);
    }

    // Down one row, or scroll at the edge.
    method GoDown(at: Coord, scrollEdge: nat, area: Rect, ghost before: Grid) returns (pos: Coord, next: Rect)
      requires Usable() && InArea(before, buf.Rows(), area, buf.width, buf.height)
      requires scrollEdge == ScrollEdge(Setup())
      modifies buf.cells
      ensures Usable() && InArea(before, buf.Rows(), next, buf.width, buf.height)
      ensures Term(buf.Rows(), pos, prevPos) == RowDown(Setup(), Term(old(buf.Rows()), at, prevPos))
    {
      pos, next := Coord(at.x, at.y + 1), area;
      if pos.y >= scrollEdge {
        pos := Coord(pos.x, pos.y - 1);
        next := ScrollOutputOnOverflow(next, before);
      }
    }

    // A control character, or a cell.
    method ActAt(kind: Kind, c: nat, at: Coord, scrollEdge: nat, area: Rect, ghost before: Grid)
      returns (pos: Coord, next: Rect)
      requires Usable() && InArea(before, buf.Rows(), area, buf.width, buf.height)
      requires scrollEdge == ScrollEdge(Setup())
      modifies this`prevPos, buf.cells
      ensures Usable() && InArea(before, buf.Rows(), next, buf.width, buf.height)
      ensures Term(buf.Rows(), pos, prevPos) == Act(Setup(), kind, c, Term(old(buf.Rows()), at, old(prevPos)))
    {
      pos, next := at, area;
      if kind == WriteStr && c == BACKSPACE && processed {
        if pos.x > 0 {
          pos := Coord(pos.x - 1, pos.y);
        }
      } else if kind == WriteStr && c == RETURN && processed {
        pos := Coord(0, pos.y);
      } else if kind == WriteStr && c == NEWLINE && processed {
        pos, next := GoDown(pos, scrollEdge, next, before);
      } else {
        var out;
        out, next := ModifySequenceEntityAt(kind, c, pos, next, before);
        pos := Coord(pos.x + out, pos.y);
      }
    }

    // The loop of ModifySequenceAt; the items of a fill are its length only.
    method ModifySequence(kind: Kind, str: seq<nat>, at: Coord) returns (rv: nat, pos: Coord, area: Rect)
      requires Usable() && Finishes(Setup(), kind, str, Term(buf.Rows(), at, prevPos))
      modifies this`prevPos, buf.cells
      ensures Usable() && InArea(old(buf.Rows()), buf.Rows(), area, buf.width, buf.height)
      ensures Term(buf.Rows(), pos, prevPos) == Typed(Setup(), kind, str, Term(old(buf.Rows()), at, old(prevPos)))
      ensures rv + Bells(Setup(), kind, str) == |str|
    {
      ghost var before, env := buf.Rows(), Setup();
      ghost var t := Term(before, at, prevPos);
      ghost var goal := Typed(env, kind, str, t);
      rv, pos, area := 0, at, NO_AREA;
      var width, height := buf.GetSize();
      var scrollEdge := if height < regionBottom + 1 then height else regionBottom + 1;
      var i := 0;
      assert str[0..] == str;
      while i < |str|
        invariant Usable() && Setup() == env && InArea(before, buf.Rows(), area, buf.width, buf.height)
        invariant t == Term(buf.Rows(), pos, prevPos) && Remains(env, kind, str, i, t, goal, rv)
        decreases |str| - i, TurnsToStop(env, pos.x)
      {
        i, rv, pos, area, t := NextTurn(kind, str, i, rv, pos, scrollEdge, area, before, goal);
      }
      NothingRemains(env, kind, str, t, goal, rv);
    }

    // The body of the loop.
    method NextTurn(kind: Kind, str: seq<nat>, i: nat, rv: nat, at: Coord, scrollEdge: nat, area: Rect,
                    ghost before: Grid, ghost goal: Term)
      returns (j: nat, rw: nat, pos: Coord, next: Rect, ghost t: Term)
      requires Usable() && InArea(before, buf.Rows(), area, buf.width, buf.height)
      requires scrollEdge == ScrollEdge(Setup()) && i < |str|
      requires Remains(Setup(), kind, str, i, Term(buf.Rows(), at, prevPos), goal, rv)
      modifies this`prevPos, buf.cells
      ensures Usable() && InArea(before, buf.Rows(), next, buf.width, buf.height)
      ensures t == Term(buf.Rows(), pos, prevPos) && Remains(Setup(), kind, str, j, t, goal, rw)
      ensures j == i + 1 || (j == i && TurnsToStop(Setup(), pos.x) < TurnsToStop(Setup(), at.x))
    {
      TypedNext(Setup(), kind, str, i, Term(buf.Rows(), at, prevPos), goal, rv);
      var done, counted;
      pos, next, done, counted := TakeItem(kind, str[i], at, scrollEdge, area, before);
      t := Term(buf.Rows(), pos, prevPos);
      j, rw := if done then i + 1 else i, if counted then rv + 1 else rv;
    }

    // One turn of the loop, and whether the item is done with and counts.
    method TakeItem(kind: Kind, c: nat, at: Coord, scrollEdge: nat, area: Rect, ghost before: Grid)
      returns (pos: Coord, next: Rect, done: bool, counted: bool)
      requires Usable() && InArea(before, buf.Rows(), area, buf.width, buf.height)
      requires scrollEdge == ScrollEdge(Setup())
      modifies this`prevPos, buf.cells
      ensures Usable() && InArea(before, buf.Rows(), next, buf.width, buf.height)
      ensures Term(buf.Rows(), pos, prevPos) == Turn(Setup(), kind, c, Term(old(buf.Rows()), at, old(prevPos)))
      ensures done == Consumed(Setup(), kind, c, Term(buf.Rows(), pos, prevPos))
      ensures counted == (done && !IsBell(Setup(), kind, c))
    {
      pos, next := at, area;
      if kind == WriteStr && c == BELL && processed {
        return pos, next, true, false;
      }
      pos, next := TakeTurn(kind, c, pos, scrollEdge, area, before);
      done := kind != WriteStr || c != TAB || pos.x % TAB_WIDTH == 0 || !processed;
      counted := done;
    }

    // ModifySequenceAt: the cursor may be the position.
    method ModifySequenceAt(kind: Kind, str: seq<nat>, at: Coord, atCursor: bool) returns (rv: nat, pos: Coord)
      requires Valid() && Finishes(Setup(), kind, str, Term(buf.Rows(), at, prevPos))
      requires atCursor ==> at == cursor
      modifies this`prevPos, this`cursor, this`deferred, this`shown, this`intact, buf.cells
      ensures Valid() && intact == old(intact) && cursor == if atCursor then pos else old(cursor)
      ensures Term(buf.Rows(), pos, prevPos) == Typed(Setup(), kind, str, Term(old(buf.Rows()), at, old(prevPos)))
      ensures rv + Bells(Setup(), kind, str) == |str|
      ensures exists area :: InArea(old(buf.Rows()), buf.Rows(), area, buf.width, buf.height) &&
                Reports(old(View()), View(), buf.Rows(),
                        AreasFor(CellArea(old(buf.Rows()), classes, at), pos, atCursor, area), repaintDefer,
                        buf.width, buf.height)
    {
      ghost var before := buf.Rows();
      var from := SetUpdateCellArea(at);
      var area;
      rv, pos, area := ModifySequence(kind, str, at);
      if atCursor {
        cursor := pos;
      }
      var areas := AreasToRefresh(from, pos, atCursor, area);
      AreasCover(before, buf.Rows(), area, areas, buf.width, buf.height);
      Report(areas, before);
    }

    method WriteString(data: seq<nat>) returns (rv: nat)
      requires Valid() && Finishes(Setup(), WriteStr, data, Term(buf.Rows(), cursor, prevPos))
      modifies this`prevPos, this`cursor, this`deferred, this`shown, this`intact, buf.cells
      ensures Valid() && intact == old(intact) && rv + Bells(Setup(), WriteStr, data) == |data|
      ensures Term(buf.Rows(), cursor, prevPos) ==
              Typed(Setup(), WriteStr, data, Term(old(buf.Rows()), old(cursor), old(prevPos)))
    {
      var pos;
      rv, pos := ModifySequenceAt(WriteStr, data, cursor, true);
    }

    // ApplyConsoleSizeLimits, and the backend reads everything again.
    method SetSize(width: nat, height: nat)
      requires Valid() && width <= MAXSHORT - 2 && height <= MAXSHORT
      modifies this`regionTop, this`regionBottom, this`cursor, this`shown, this`intact, buf
      ensures Valid() && shown == buf.Rows()
      ensures buf.width == (if width < 24 then 24 else width) && buf.height == if height < 12 then 12 else height
      ensures buf.cells == old(buf.cells) || fresh(buf.cells)
      ensures buf.Rows() == Resized(old(buf.Rows()), old(buf.width), buf.width, buf.height, attributes)
      ensures cursor == Kept(old(cursor), buf.width, buf.height)
      ensures regionTop == 0 && regionBottom == MAXSHORT
    {
      var w, h := if width < 24 then 24 else width, if height < 12 then 12 else height;
      regionTop, regionBottom := 0, MAXSHORT;
      buf.SetSize(w, h, attributes);
      cursor := Kept(cursor, w, h);
      shown := buf.Rows();
      intact := AllHarmless(deferred, w, h);
    }

    // A region of the first row alone can get a top of 65535.
    method SetScrollRegion(top: int, bottom: int)
      requires Valid()
      modifies this`regionTop, this`regionBottom
      ensures Valid()
      ensures regionBottom == if bottom <= 0 then 0 else if bottom >= buf.height then buf.height - 1 else bottom
      ensures regionTop == if top <= 0 then 0
                           else if top < regionBottom then top
                           else if regionBottom == 0 then 0xFFFF else regionBottom - 1
    {
      var width, height := buf.GetSize();
      var b := ApplyCoordinateLimits(bottom, height);
      var t := ApplyCoordinateLimits(top, b);
      regionTop, regionBottom := t % 0x1_0000, b;
    }
  }

  method ClipRect(rect: Rect, clip: Rect) returns (r: Rect, offset: Coord)
    ensures (r, offset) == ClippedBy(rect, clip)
  {
    r, offset := rect, Coord(0, 0);
    if r.left < clip.left {
      offset := offset.(x := offset.x + clip.left - r.left);
      r := r.(left := clip.left);
    }
    if r.top < clip.top {
      offset := offset.(y := offset.y + clip.top - r.top);
      r := r.(top := clip.top);
    }
    if r.right > clip.right {
      r := r.(right := clip.right);
    }
    if r.bottom > clip.bottom {
      r := r.(bottom := clip.bottom);
    }
  }

  // _temp_chars.resize: what the cells hold does not matter.
  method Resize(w: nat, h: nat) returns (tempChars: array<Cell>)
    ensures fresh(tempChars) && tempChars.Length == Offset(w, h)
  {
    OffsetIsProduct(w, h);
    tempChars := new Cell[h * w];
  }

  lemma ScrollResult(before: Grid, w: nat, data: Grid, m: Move)
    requires IsGrid(before, w, |before|) && NonEmpty(m.src) && HoldsSource(data, before, m.src)
    ensures var after := Scrolled(before, w, data, m);
            && IsScrolled(before, w, after, m)
            && ChangedWithin(before, after, ScrollAreas(w, |before|, m), w, |before|)
            && (OnScreen(m.src, w, |before|) && TargetNotNegative(m) ==> after == Moved(before, w, m))
  {
    CopiesAreScrolled(before, w, data, m);
    ScrollWithin(before, w, data, m);
    if OnScreen(m.src, w, |before|) && TargetNotNegative(m) {
      ScrolledIsMoved(before, w, Scrolled(before, w, data, m), m);
    }
  }

  // The cursor stays on the screen.
  function Kept(cursor: Coord, w: nat, h: nat): (c: Coord)
    ensures w > 0 ==> c.x < w && (cursor.x < w ==> c.x == cursor.x)
    ensures h > 0 ==> c.y < h && (cursor.y < h ==> c.y == cursor.y)
  {
    Coord(if cursor.x >= w && w > 0 then w - 1 else cursor.x, if cursor.y >= h && h > 0 then h - 1 else cursor.y)
  }

  // A scroll along the first row that its clip rectangle leaves nothing of.
  predicate IsClippedAway(m: Move) {
    && m.src == Rect(0, 0, 10, 0) && m.dest == Coord(0, 0)
    && m.clip.Some? && m.clip.value == Rect(50, 0, 79, 24) && m.fill.None?
  }

  ghost predicate Deferring(c: Console)
    reads c, c.buf, c.buf.cells
  {
    c.Valid() && c.buf.width == 80 && c.buf.height == 25 && c.repaintDefer == 1
  }

  // The first fifty cells of the first row.
  method WriteFifty(c: Console, area: Rect)
    requires Deferring(c) && c.deferred == [] && area == Rect(0, 0, 49, 0)
    modifies c`deferred, c`shown, c`intact, c.buf.cells
    ensures Deferring(c) && c.deferred == [area] && c.shown == old(c.shown) && c.buf.Rows()[0][49] == Cell(0x78, 0)
  {
    var data := new Cell[50](i => Cell(0x78, 0));
    assert Offset(50, 1) == 50;
    ghost var before, row := c.buf.Rows(), Matrix(data[..], 50, 1);
    var r := c.Write(data, Coord(50, 1), Coord(0, 0), area);
    MatrixAt(data[..], 50, 1, 49, 0);
    WrittenAt(before, 80, row, Coord(50, 1), Coord(0, 0), area, 49, 0);
    OneAdded([], [area]);
  }

  method ScrollAway(c: Console, m: Move)
    requires Deferring(c) && NonEmpty(m.src) && ScrollFitsShort(m) && m.fill.None? && !InTarget(m, 49, 0)
    modifies c`deferred, c`shown, c`intact, c.buf.cells
    ensures Deferring(c) && c.shown == old(c.shown)
    ensures c.deferred == AddedAll(old(c.deferred), ScrollAreas(c.buf.width, c.buf.height, m))
    ensures c.buf.Rows()[0][49] == old(c.buf.Rows()[0][49])
  {
    var ok := c.Scroll(m);
    assert IsScrolledCell(old(c.buf.Rows()), m, 49, 0, c.buf.Rows()[0][49]);
  }

  lemma ClippedAwayFits(m: Move)
    requires IsClippedAway(m)
    ensures ScrollFitsShort(m) && NonEmpty(m.src)
  {
  }

  lemma ClippedAwayTarget(m: Move)
    requires IsClippedAway(m)
    ensures ClippedTarget(m).0 == Rect(50, 0, 10, 0) && ClippedTarget(m).1.x == 50
  {
  }

  lemma NothingInCommon(w: nat, h: nat, size: Coord, pos: Coord, r: Rect)
    requires pos.x >= size.x
    ensures Clipped(w, h, size, pos, r) == r
  {
  }

  lemma ClippedAwaySpares(m: Move)
    requires IsClippedAway(m)
    ensures m.fill.None? && !InTarget(m, 49, 0)
  {
  }

  lemma UnclippedTargetIsTheArea(m: Move, w: nat, h: nat)
    requires m.fill.None?
    requires Clipped(w, h, SizeOf(m.src), ClippedTarget(m).1, ClippedTarget(m).0) == ClippedTarget(m).0
    ensures ScrollAreas(w, h, m) == [ClippedTarget(m).0]
  {
  }

  // The area is empty, and undoes the one before.
  lemma EmptyAreaUndoes(list: seq<Rect>)
    requires |list| == 1 && list[0] == Rect(0, 0, 49, 0)
    ensures AddedAll(list, [Rect(50, 0, 10, 0)]) == [Rect(0, 0, 10, 0)]
  {
    var area := Rect(50, 0, 10, 0);
    OneAdded(list, [area]);
    AddedToOne(list, area);
  }

  method ClippedAwayMove(ghost w: nat, ghost h: nat, ghost list: seq<Rect>) returns (m: Move)
    requires |list| == 1 && list[0] == Rect(0, 0, 49, 0)
    ensures NonEmpty(m.src) && ScrollFitsShort(m) && m.fill.None? && !InTarget(m, 49, 0)
    ensures AddedAll(list, ScrollAreas(w, h, m)) == [Rect(0, 0, 10, 0)]
  {
    m := Move(Rect(0, 0, 10, 0), Coord(0, 0), Some(Rect(50, 0, 79, 24)), None);
    ClippedAwayFits(m);
    ClippedAwaySpares(m);
    ClippedAwayTarget(m);
    NothingInCommon(w, h, SizeOf(m.src), ClippedTarget(m).1, ClippedTarget(m).0);
    UnclippedTargetIsTheArea(m, w, h);
    EmptyAreaUndoes(list);
  }

  // The cell is shown blank, and holds something else.
  ghost predicate ShownWrongly(c: Console, x: nat, y: nat)
    reads c, c.buf, c.buf.cells
  {
    c.Valid() && x < c.buf.width && y < c.buf.height && c.shown[y][x] != c.buf.Rows()[y][x]
  }

  method WriteDeferred(classes: Classes) returns (c: Console)
    requires !classes.prefix(TAB) && !classes.suffix(TAB)
    ensures fresh(c) && fresh(c.buf) && fresh(c.buf.cells)
    ensures Deferring(c) && ShownWrongly(c, 49, 0) && c.deferred == [Rect(0, 0, 49, 0)]
  {
    c := new Console(classes);
    c.RepaintsDeferStart();
    WriteFifty(c, Rect(0, 0, 49, 0));
  }

  method LoseArea(c: Console)
    requires Deferring(c) && ShownWrongly(c, 49, 0) && c.deferred == [Rect(0, 0, 49, 0)]
    modifies c`deferred, c`shown, c`intact, c.buf.cells
    ensures Deferring(c) && ShownWrongly(c, 49, 0) && c.deferred == [Rect(0, 0, 10, 0)]
  {
    var m := ClippedAwayMove(c.buf.width, c.buf.height, c.deferred);
    ScrollAway(c, m);
  }

  // A run in which the finish leaves the backend wrong: the empty area of the scroll undoes the
  // area of the write.
  method FinishLeavesBackendWrong(classes: Classes) returns (c: Console)
    requires !classes.prefix(TAB) && !classes.suffix(TAB)
    ensures c.Valid() && c.repaintDefer == 0 && c.deferred == [] && c.shown != c.buf.Rows()
  {
    c := WriteDeferred(classes);
    LoseArea(c);
    assert !Covered(c.deferred, 49, 0);
    c.RepaintsDeferFinish(false);
    assert ShownWrongly(c, 49, 0);
  }

  lemma OneAdded(list: seq<Rect>, areas: seq<Rect>)
    requires |areas| == 1
    ensures AddedAll(list, areas) == Added(list, areas[0])
  {
    assert areas[..0] == [];
  }

  lemma AddedToOne(list: seq<Rect>, area: Rect)
    requires |list| == 1 && Merged(list[0], area).Some?
    ensures Added(list, area) == [Merged(list[0], area).value]
  {
  }

  method ApplyCoordinateLimits(v: int, limit: nat) returns (r: int)
    ensures r == if v <= 0 then 0 else if v >= limit then limit - 1 else v
  {
    r := v;
    if r <= 0 {
      r := 0;
    } else if r >= limit {
      r := limit - 1;
    }
  }

  // The bells among the items.
  function Bells(env: Env, kind: Kind, str: seq<nat>): (n: nat)
    ensures n <= |str|
  {
    if str == [] then 0 else (if IsBell(env, kind, str[0]) then 1 else 0) + Bells(env, kind, str[1..])
  }

  // They are the BEL characters of a string, where those are processed.
  lemma {:induction false} BellsAreCounted(env: Env, kind: Kind, str: seq<nat>)
    ensures Bells(env, kind, str) == if kind == WriteStr && env.processed then multiset(str)[7] else 0
  {
    if str != [] {
      BellsAreCounted(env, kind, str[1..]);
      assert str == [str[0]] + str[1..];
    }
  }

  // What is left to do after i items.
  ghost predicate Remains(env: Env, kind: Kind, str: seq<nat>, i: nat, t: Term, goal: Term, rv: nat) {
    && i <= |str| && ValidEnv(env) && ValidTerm(env, t) && Finishes(env, kind, str[i..], t)
    && Typed(env, kind, str[i..], t) == goal
    && rv + Bells(env, kind, str) == i + Bells(env, kind, str[i..])
  }

  lemma NothingRemains(env: Env, kind: Kind, str: seq<nat>, t: Term, goal: Term, rv: nat)
    requires Remains(env, kind, str, |str|, t, goal, rv)
    ensures t == goal && rv + Bells(env, kind, str) == |str|
  {
  }

  lemma TypedNext(env: Env, kind: Kind, str: seq<nat>, i: nat, t: Term, goal: Term, rv: nat)
    requires Remains(env, kind, str, i, t, goal, rv) && i < |str|
    ensures var u := Turn(env, kind, str[i], t);
            if Consumed(env, kind, str[i], u) then
              Remains(env, kind, str, i + 1, u, goal, if IsBell(env, kind, str[i]) then rv else rv + 1)
            else
              Remains(env, kind, str, i, u, goal, rv) && TurnsToStop(env, u.pos.x) < TurnsToStop(env, t.pos.x)
  {
    TurnStaysValid(env, kind, str[i], t);
    assert str[i..][1..] == str[i + 1..];
    if !Consumed(env, kind, str[i], Turn(env, kind, str[i], t)) {
      TabMovesOn(env, t);
    }
  }

  // A cell, and the other half of a full-width character, whichever half it is.
  function CellArea(g: Grid, classes: Classes, pos: Coord): (r: Rect)
    ensures In(r, pos.x, pos.y) && NonEmpty(r) && r.top == r.bottom
  {
    if OnGrid(g, pos.x, pos.y) && g[pos.y][pos.x].ch == 0 && pos.x > 0 then Rect(pos.x - 1, pos.y, pos.x, pos.y)
    else if OnGrid(g, pos.x, pos.y) && classes.fullWidth(g[pos.y][pos.x].ch) then Rect(pos.x, pos.y, pos.x + 1, pos.y)
    else Rect(pos.x, pos.y, pos.x, pos.y)
  }

  // The two halves that writing a full-width character leaves are always reported together.
  lemma HalvesGoTogether(env: Env, c: nat, t: Term)
    requires ValidEnv(env) && ValidTerm(env, t) && TakesCell(env, c, t) && env.classes.fullWidth(c) && c != 0
    requires 0 <= t.pos.x < env.width - 1 && 0 <= t.pos.y < env.height
    requires t.rows[t.pos.y][t.pos.x] != Cell(c, env.attr) && !env.classes.fullWidth(0)
    ensures Finishes(env, WriteStr, [c], t)
    ensures var g := Typed(env, WriteStr, [c], t).rows;
            var r := Rect(t.pos.x, t.pos.y, t.pos.x + 1, t.pos.y);
            CellArea(g, env.classes, t.pos) == r == CellArea(g, env.classes, Coord(t.pos.x + 1, t.pos.y))
  {
    ShownCharacter(env, c, t);
  }

  function AreasFor(from: Rect, pos: Coord, atCursor: bool, area: Rect): seq<Rect> {
    (if atCursor && (from.left != pos.x || from.top != pos.y) then [from, Rect(pos.x, pos.y, pos.x, pos.y)] else [])
    + if NonEmpty(area) then [area] else []
  }

  // The old and new place of the cursor, if it has moved, and the bounding area, if there is one.
  method AreasToRefresh(from: Rect, pos: Coord, atCursor: bool, area: Rect) returns (areas: seq<Rect>)
    requires NonEmpty(from)
    ensures areas == AreasFor(from, pos, atCursor, area)
    ensures NonEmpty(area) ==> area in areas
    ensures forall i | 0 <= i < |areas| :: NonEmpty(areas[i])
  {
    areas := [];
    if atCursor && (from.left != pos.x || from.top != pos.y) {
      areas := [from, Rect(pos.x, pos.y, pos.x, pos.y)];
    }
    if area.left <= area.right && area.top <= area.bottom {
      areas := areas + [area];
    }
  }

  lemma AreasCover(before: Grid, after: Grid, area: Rect, areas: seq<Rect>, w: nat, h: nat)
    requires InArea(before, after, area, w, h) && (NonEmpty(area) ==> area in areas)
    ensures ChangedWithin(before, after, areas, w, h)
  {
    if NonEmpty(area) {
      var i :| 0 <= i < |areas| && areas[i] == area;
    }
  }

  // Written one row higher, with a blank row behind, the data is the scrolled region.
  ghost predicate MakesScroll(env: Env, g: Grid, data: Grid, w: nat, top: nat, edge: nat) {
    && IsGrid(g, w, env.height) && w == env.width && top + 1 < edge <= env.height
    && IsGrid(data, w, edge - 1 - top)
    && RowsPut(RowsPut(g, w, data, top, edge - 1 - top), w, [BlankRow(env)], edge - 1, 1) == ScrolledUp(env, g)
  }

  lemma RegionCopied(env: Env, g: Grid, data: Grid, w: nat, top: nat, edge: nat)
    requires ValidEnv(env) && env.bottom != 0 && IsGrid(g, env.width, env.height)
    requires w == env.width && top == env.top && edge == ScrollEdge(env) &&
             IsRowsOf(data, g, w, top + 1, edge - 1 - top)
    ensures MakesScroll(env, g, data, w, top, edge)
  {
    CopiesAreScroll(env, g, data, w, top, edge);
  }

  lemma FewerRowsFit(w: nat, n: nat, h: nat)
    requires n <= h
    ensures Offset(w, n) <= Offset(w, h)
  {
    if n < h {
      RowsDoNotOverlap(w, n, h);
    }
  }

  lemma RowStarts(w: nat, h: nat)
    requires w > 0
    ensures h > 1 ==> Offset(w, h - 1) > 0
    ensures h == 1 ==> Offset(w, h - 1) == 0
  {
    if h > 1 {
      RowFits(w, 0, h - 1);
    }
  }

  lemma FinishAgrees(rows: Grid, shown: Grid, areas: seq<Rect>, intact: bool, w: nat, h: nat)
    requires SizeInRange(w, h) && IsGrid(rows, w, h) && IsGrid(shown, w, h) &&
             (intact ==> Tracked(rows, shown, areas, w, h))
    ensures intact ==> Refreshed(shown, rows, areas) == rows
  {
    if intact {
      SameGrid(Refreshed(shown, rows, areas), rows);
    }
  }

  lemma OneCellChanged(before: Grid, pos: Coord, c: Cell, area: Rect, w: nat, h: nat)
    requires IsGrid(before, w, h) && In(area, pos.x, pos.y)
    ensures ChangedWithin(before, WithCell(before, pos.x, pos.y, c), [area], w, h)
  {
    assert In([area][0], pos.x, pos.y);
  }

  lemma WrittenWithin(before: Grid, after: Grid, w: nat, size: Coord, pos: Coord, area: Rect)
    requires IsGrid(before, w, |before|) && IsGrid(after, w, |before|) && |before| > 0 && w > 0
    requires exists data: Grid ::
               && (GoodData(size, pos) ==> IsGrid(data, size.x, size.y))
               && after == Written(before, w, data, size, pos, area)
    ensures ChangedWithin(before, after, [Clipped(w, |before|, size, pos, area)], w, |before|)
    ensures NonEmpty(area) ==> Harmless(Clipped(w, |before|, size, pos, area), w, |before|)
  {
    var data: Grid :| (GoodData(size, pos) ==> IsGrid(data, size.x, size.y)) &&
      after == Written(before, w, data, size, pos, area);
    var r := Clipped(w, |before|, size, pos, area);
    forall y, x | 0 <= y < |before| && 0 <= x < w && before[y][x] != after[y][x]
      ensures Covered([r], x, y)
    {
      WrittenAt(before, w, data, size, pos, area, x, y);
      CopiesCommonPart(w, |before|, size, pos, area, x, y);
      assert In([r][0], x, y);
    }
  }
}
