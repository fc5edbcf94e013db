/**
  The list of areas to repaint later, and bounding areas (WinPort/src/ConsoleOutput.cpp).
  */
module Repaints {
  import opened Wrappers
  import opened Grids

  const MAXSHORT := 0x7FFF
  const NO_AREA := Rect(MAXSHORT, MAXSHORT, 0, 0)

  // How DeferredRepaints::Add changes the last area of the list, if it does.
  function Merged(last: Rect, area: Rect): Option<Rect> {
    if area.top == last.top && area.bottom == last.bottom && area.left == last.right + 1 then
      Some(last.(right := area.right))
    else if area.left == last.left && area.right == last.right && area.top == last.bottom + 1 then
      Some(last.(bottom := area.bottom))
    else if area == last then Some(last)
    else None
  }

  function Added(list: seq<Rect>, area: Rect): seq<Rect> {
    if list != [] && Merged(list[|list| - 1], area).Some? then
      list[..|list| - 1] + [Merged(list[|list| - 1], area).value]
    else
      list + [area]
  }

  // The list stays as long exactly when the new area continues the last one to the right or
  // downward, or is the last one again.
  lemma ListGrowsExactlyWhen(list: seq<Rect>, area: Rect)
    ensures |Added(list, area)| == |list| <==>
            list != [] && var last := list[|list| - 1];
            || (area.top == last.top && area.bottom == last.bottom && area.left == last.right + 1)
            || (area.left == last.left && area.right == last.right && area.top == last.bottom + 1)
            || area == last
    ensures list != [] ==> list[..|list| - 1] <= Added(list, area)
  {
  }

  ghost predicate Covered(list: seq<Rect>, x: int, y: int) {
    exists i | 0 <= i < |list| :: In(list[i], x, y)
  }

  predicate NonEmpty(r: Rect) {
    r.left <= r.right && r.top <= r.bottom
  }

  // Two stretches, the second right behind the first, together with the one from the first's start
  // to the second's end.
  predicate JoinsUp(start: int, end: int, newEnd: int) {
    (start <= end ==> end <= newEnd) && (end < newEnd ==> start <= end + 1)
  }

  predicate Joins(last: Rect, area: Rect) {
    if area.top == last.top && area.bottom == last.bottom && area.left == last.right + 1 then
      last.top > last.bottom || JoinsUp(last.left, last.right, area.right)
    else if area.left == last.left && area.right == last.right && area.top == last.bottom + 1 then
      last.left > last.right || JoinsUp(last.top, last.bottom, area.bottom)
    else true
  }

  // A merged area is never more than the two; it is no less exactly when they join up.
  lemma MergeIsExactWhen(last: Rect, area: Rect)
    requires Merged(last, area).Some?
    ensures var m := Merged(last, area).value;
            && (forall x, y :: In(m, x, y) ==> In(last, x, y) || In(area, x, y))
            && ((forall x, y :: In(last, x, y) || In(area, x, y) ==> In(m, x, y)) <==> Joins(last, area))
  {
    var m := Merged(last, area).value;
    if !Joins(last, area) {
      // cells at the corners that would be lost
      assert (In(last, last.right, last.top) && !In(m, last.right, last.top))
          || (In(area, area.left, last.top) && !In(m, area.left, last.top))
          || (In(last, last.left, last.bottom) && !In(m, last.left, last.bottom))
          || (In(area, last.left, area.top) && !In(m, last.left, area.top));
    }
  }

  lemma NonEmptyAreasJoin(last: Rect, area: Rect)
    requires NonEmpty(last) && NonEmpty(area)
    ensures Joins(last, area)
    ensures Merged(last, area).Some? ==> NonEmpty(Merged(last, area).value)
  {
  }

  // An empty area can undo the last one.
  lemma EmptyAreaLosesCoverage()
    ensures var last, area := Rect(0, 0, 49, 0), Rect(50, 0, 10, 0);
            Covered([last], 49, 0) && !Covered(Added([last], area), 49, 0)
  {
    var last, area := Rect(0, 0, 49, 0), Rect(50, 0, 10, 0);
    assert In([last][0], 49, 0);
  }

  lemma CoveredInFront(a: seq<Rect>, r: Rect, x: int, y: int)
    ensures Covered(a + [r], x, y) <==> Covered(a, x, y) || In(r, x, y)
  {
    if Covered(a, x, y) {
      var i :| 0 <= i < |a| && In(a[i], x, y);
      assert (a + [r])[i] == a[i];
    }
    assert (a + [r])[|a|] == r;
  }

  lemma AddKeepsCoverage(list: seq<Rect>, area: Rect)
    requires list != [] ==> Joins(list[|list| - 1], area)
    ensures forall x, y :: Covered(Added(list, area), x, y) <==> Covered(list, x, y) || In(area, x, y)
  {
    forall x, y
      ensures Covered(Added(list, area), x, y) <==> Covered(list, x, y) || In(area, x, y)
    {
      CoveredInFront(list, area, x, y);
      if list != [] && Merged(list[|list| - 1], area).Some? {
        var front, last := list[..|list| - 1], list[|list| - 1];
        assert list == front + [last];
        CoveredInFront(front, last, x, y);
        CoveredInFront(front, Merged(last, area).value, x, y);
        MergeIsExactWhen(last, area);
      }
    }
  }

  // ---------------------------------------------------------------------------------
  // On a screen of w by h cells
  // ---------------------------------------------------------------------------------

  predicate OnScreen(r: Rect, w: nat, h: nat) {
    0 <= r.left <= r.right < w && 0 <= r.top <= r.bottom < h
  }

  // A cell of the screen in one of the areas is lost by merging them.
  ghost predicate Loses(last: Rect, r: Rect, w: nat, h: nat) {
    && Merged(last, r).Some?
    && exists x, y :: 0 <= x < w && 0 <= y < h && (In(last, x, y) || In(r, x, y)) && !In(Merged(last, r).value, x, y)
  }

  // An area with a gap of columns, just behind a column of the screen: it ends more than one column
  // before it starts.
  predicate UndoesColumns(r: Rect, w: nat, h: nat) {
    0 < r.left <= w && r.right < r.left - 1 && 0 <= r.top <= r.bottom < h
  }

  predicate UndoesRows(r: Rect, w: nat, h: nat) {
    0 < r.top <= h && r.bottom < r.top - 1 && 0 <= r.left <= r.right < w
  }

  // Exactly such an area can undo one that was deferred before.
  lemma UndoesExactlyWhen(r: Rect, w: nat, h: nat)
    ensures (exists last :: OnScreen(last, w, h) && Loses(last, r, w, h)) <==>
            UndoesColumns(r, w, h) || UndoesRows(r, w, h)
  {
    if UndoesColumns(r, w, h) {
      ColumnIsLost(Rect(r.left - 1, r.top, r.left - 1, r.bottom), r, w, h);
    } else if UndoesRows(r, w, h) {
      RowIsLost(Rect(r.left, r.top - 1, r.right, r.top - 1), r, w, h);
    }
  }

  lemma ColumnIsLost(last: Rect, r: Rect, w: nat, h: nat)
    requires UndoesColumns(r, w, h) && last == Rect(r.left - 1, r.top, r.left - 1, r.bottom)
    ensures OnScreen(last, w, h) && Loses(last, r, w, h)
  {
    assert In(last, r.left - 1, r.top) && !In(Merged(last, r).value, r.left - 1, r.top);
  }

  lemma RowIsLost(last: Rect, r: Rect, w: nat, h: nat)
    requires UndoesRows(r, w, h) && last == Rect(r.left, r.top - 1, r.right, r.top - 1)
    ensures OnScreen(last, w, h) && Loses(last, r, w, h)
  {
    assert In(last, r.left, r.top - 1) && !In(Merged(last, r).value, r.left, r.top - 1);
  }

  // An area that leaves no gap of a column or row, or else reaches up to the right or bottom edge.
  predicate Harmless(r: Rect, w: nat, h: nat) {
    (r.left <= r.right + 1 || r.right >= w - 1) && (r.top <= r.bottom + 1 || r.bottom >= h - 1)
  }

  lemma HarmlessMerge(last: Rect, area: Rect, w: nat, h: nat)
    requires Harmless(last, w, h) && Harmless(area, w, h) && Merged(last, area).Some?
    ensures Harmless(Merged(last, area).value, w, h)
    ensures forall x, y | 0 <= x < w && 0 <= y < h ::
              In(Merged(last, area).value, x, y) <==> In(last, x, y) || In(area, x, y)
  {
  }

  ghost predicate AllHarmless(list: seq<Rect>, w: nat, h: nat) {
    forall i | 0 <= i < |list| :: Harmless(list[i], w, h)
  }

  // Adding an area loses nothing when the last area and the next one do not.
  lemma AddKeepsCells(list: seq<Rect>, area: Rect, w: nat, h: nat)
    requires list != [] ==> !Loses(list[|list| - 1], area, w, h)
    ensures forall x, y | 0 <= x < w && 0 <= y < h ::
              Covered(Added(list, area), x, y) <==> Covered(list, x, y) || In(area, x, y)
  {
    forall x, y | 0 <= x < w && 0 <= y < h
      ensures Covered(Added(list, area), x, y) <==> Covered(list, x, y) || In(area, x, y)
    {
      CoveredInFront(list, area, x, y);
      if list != [] && Merged(list[|list| - 1], area).Some? {
        var front, last := list[..|list| - 1], list[|list| - 1];
        assert list == front + [last];
        CoveredInFront(front, last, x, y);
        CoveredInFront(front, Merged(last, area).value, x, y);
      }
    }
  }

  // Nothing but the list and the area is covered, whatever is lost.
  lemma AddCoversNoMore(list: seq<Rect>, area: Rect, x: int, y: int)
    ensures Covered(Added(list, area), x, y) ==> Covered(list, x, y) || In(area, x, y)
  {
    CoveredInFront(list, area, x, y);
    if list != [] && Merged(list[|list| - 1], area).Some? {
      var front, last := list[..|list| - 1], list[|list| - 1];
      assert list == front + [last];
      CoveredInFront(front, last, x, y);
      CoveredInFront(front, Merged(last, area).value, x, y);
    }
  }

  // Such areas can be added one after the other without losing a cell of the screen.
  lemma AddKeepsScreenCoverage(list: seq<Rect>, area: Rect, w: nat, h: nat)
    requires AllHarmless(list, w, h) && Harmless(area, w, h)
    ensures AllHarmless(Added(list, area), w, h)
    ensures forall x, y | 0 <= x < w && 0 <= y < h ::
              Covered(Added(list, area), x, y) <==> Covered(list, x, y) || In(area, x, y)
  {
    if list != [] && Merged(list[|list| - 1], area).Some? {
      HarmlessMerge(list[|list| - 1], area, w, h);
    }
    AddKeepsCells(list, area, w, h);
  }

  // ---------------------------------------------------------------------------------
  // Bounding areas
  // ---------------------------------------------------------------------------------

  // AffectArea
  function Affected(area: Rect, r: Rect): Rect {
    Rect(
      if area.left > r.left then r.left else area.left,
      if area.top > r.top then r.top else area.top,
      if area.right < r.right then r.right else area.right,
      if area.bottom < r.bottom then r.bottom else area.bottom)
  }

  // Nothing yet, or an area on the screen.
  predicate Bounding(area: Rect, w: nat, h: nat) {
    area == NO_AREA || (0 <= area.left <= area.right < w && 0 <= area.top <= area.bottom < h)
  }

  // It grows no more than that: the first extension gives the extension itself, and later ones the
  // least area that holds both.
  lemma AffectedIsLeast(area: Rect, r: Rect, b: Rect, w: nat, h: nat)
    requires w <= MAXSHORT && h <= MAXSHORT && OnScreen(r, w, h)
    ensures Affected(NO_AREA, r) == r
    ensures (forall x, y | In(area, x, y) || In(r, x, y) :: In(b, x, y)) && OnScreen(area, w, h) ==>
              forall x, y | In(Affected(area, r), x, y) :: In(b, x, y)
  {
    if (forall x, y | In(area, x, y) || In(r, x, y) :: In(b, x, y)) && OnScreen(area, w, h) {
      assert In(area, area.left, area.top) && In(area, area.right, area.bottom);
      assert In(r, r.left, r.top) && In(r, r.right, r.bottom);
      assert In(b, area.left, area.top) && In(b, area.right, area.bottom);
      assert In(b, r.left, r.top) && In(b, r.right, r.bottom);
    }
  }

  lemma AffectedBounds(area: Rect, r: Rect, w: nat, h: nat)
    requires w <= MAXSHORT && h <= MAXSHORT && Bounding(area, w, h)
    requires 0 <= r.left <= r.right < w && 0 <= r.top <= r.bottom < h
    ensures Bounding(Affected(area, r), w, h) && NonEmpty(Affected(area, r))
    ensures forall x, y | In(area, x, y) || In(r, x, y) :: In(Affected(area, r), x, y)
  {
  }
}
