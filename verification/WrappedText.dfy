/**
  Plain text that runs over the ends of rows and over the scroll edge
  (WinPort/src/ConsoleOutput.cpp, ModifySequenceAt with wrapping).
  */
module WrappedText {
  import opened Grids
  import opened Terminal

  // Plain text written with wrapping, from the scroll region of several rows or just behind a row of it.
  ghost predicate Writes(env: Env, str: seq<nat>, t: Term) {
    && ValidEnv(env) && ValidTerm(env, t) && env.wrap && env.bottom != 0
    && env.top <= t.pos.y < ScrollEdge(env) && 0 <= t.pos.x <= env.width
    && forall i | 0 <= i < |str| :: Plain(env, str[i])
  }

  // The number of overflows: the text would reach that many rows over the scroll edge.
  ghost predicate Overflows(env: Env, t: Term, n: nat, over: nat)
    requires t.pos.y < ScrollEdge(env)
  {
    var rows := ScrollEdge(env) - t.pos.y;
    && t.pos.x + n <= Offset(env.width, rows + over)
    && (over > 0 ==> Offset(env.width, rows + over - 1) < t.pos.x + n)
  }

  // Character k of the text is at the place k behind the cursor, counted in row-major order, then
  // moved up by the overflows; where there is no text, the old rows of the region move up, with
  // blank ones behind.
  function WrappedCell(env: Env, str: seq<nat>, t: Term, over: nat, v: nat, c: nat): Cell
    requires ValidTerm(env, t) && 0 <= t.pos.y < ScrollEdge(env) && v < env.height && c < env.width
  {
    if v < env.top || v >= ScrollEdge(env) then t.rows[v][c]
    else if v + over < t.pos.y then t.rows[v + over][c]
    else
      var k := Offset(env.width, v + over - t.pos.y) + c - t.pos.x;
      if 0 <= k < |str| then Cell(str[k], env.attr)
      else if v + over < ScrollEdge(env) then t.rows[v + over][c]
      else Cell(BLANK, env.attr)
  }

  ghost predicate IsWrapped(env: Env, str: seq<nat>, t: Term, over: nat, u: Term)
    requires ValidTerm(env, t) && 0 <= t.pos.y < ScrollEdge(env)
  {
    && ValidTerm(env, u)
    && (forall v, c | 0 <= v < env.height && 0 <= c < env.width :: u.rows[v][c] == WrappedCell(env, str, t, over, v, c))
    && env.top <= u.pos.y < ScrollEdge(env) && t.pos.y <= u.pos.y + over && 0 <= u.pos.x <= env.width
    && t.pos.x + |str| == Offset(env.width, u.pos.y + over - t.pos.y) + u.pos.x
  }

  // Writing the rest from b gives the same cells as writing it all from t.
  ghost predicate Continues(env: Env, str: seq<nat>, t: Term, over: nat, rest: seq<nat>, b: Term, left: nat)
    requires ValidTerm(env, t) && 0 <= t.pos.y < ScrollEdge(env)
  {
    && Writes(env, rest, b) && Overflows(env, b, |rest|, left)
    && (|| (b.pos.y - left == t.pos.y - over && b.pos.x + |rest| == t.pos.x + |str|)
        || (b.pos.y - left == t.pos.y - over + 1 && b.pos.x + |rest| + env.width == t.pos.x + |str|))
    && forall v: nat, c: nat | v < env.height && c < env.width ::
         WrappedCell(env, rest, b, left, v, c) == WrappedCell(env, str, t, over, v, c)
  }

  lemma SameWrapped(env: Env, str: seq<nat>, t: Term, over: nat, rest: seq<nat>, b: Term, left: nat, u: Term)
    requires ValidTerm(env, t) && 0 <= t.pos.y < ScrollEdge(env)
    requires Continues(env, str, t, over, rest, b, left) && IsWrapped(env, rest, b, left, u)
    ensures IsWrapped(env, str, t, over, u)
  {
  }

  // A plain character is written, and the cursor moves on.
  ghost predicate WroteOne(env: Env, c: nat, t: Term, b: Term)
    requires ValidTerm(env, t)
  {
    && ValidTerm(env, b) && b.pos == Coord(t.pos.x + 1, t.pos.y)
    && forall y, x | 0 <= y < env.height && 0 <= x < env.width ::
         b.rows[y][x] == if (x, y) == (t.pos.x, t.pos.y) then Cell(c, env.attr) else t.rows[y][x]
  }

  lemma PlainTurn(env: Env, str: seq<nat>, t: Term)
    requires Writes(env, str, t) && str != [] && t.pos.x < env.width && Finishes(env, WriteStr, str, t)
    ensures var b := Turn(env, WriteStr, str[0], t);
            && WroteOne(env, str[0], t, b) && Finishes(env, WriteStr, str[1..], b)
            && Typed(env, WriteStr, str, t) == Typed(env, WriteStr, str[1..], b)
  {
    TurnStaysValid(env, WriteStr, str[0], t);
    PutOne(t.rows, t.pos, Cell(str[0], env.attr));
  }

  // The first character, in the row of the cursor.
  lemma OneCharacter(env: Env, str: seq<nat>, t: Term, over: nat, b: Term)
    requires Writes(env, str, t) && str != [] && t.pos.x < env.width && Overflows(env, t, |str|, over)
    requires WroteOne(env, str[0], t, b)
    ensures Continues(env, str, t, over, str[1..], b, over)
  {
    forall v: nat, c: nat | v < env.height && c < env.width
      ensures WrappedCell(env, str[1..], b, over, v, c) == WrappedCell(env, str, t, over, v, c)
    {
      if v + over > t.pos.y {
        RowsDoNotOverlap(env.width, 0, v + over - t.pos.y);
      }
    }
  }

  // Behind the last column the text goes on in the next row.
  lemma OneRowDown(env: Env, str: seq<nat>, t: Term, over: nat)
    requires Writes(env, str, t) && str != [] && t.pos.x == env.width && Overflows(env, t, |str|, over)
    requires t.pos.y + 1 < ScrollEdge(env)
    ensures Continues(env, str, t, over, str, t.(pos := Coord(0, t.pos.y + 1)), over)
  {
    var b := t.(pos := Coord(0, t.pos.y + 1));
    forall v: nat, c: nat | v < env.height && c < env.width
      ensures WrappedCell(env, str, b, over, v, c) == WrappedCell(env, str, t, over, v, c)
    {
    }
  }

  // At the scroll edge the region moves up instead.
  lemma OneScroll(env: Env, str: seq<nat>, t: Term, over: nat)
    requires Writes(env, str, t) && str != [] && t.pos.x == env.width && Overflows(env, t, |str|, over)
    requires t.pos.y + 1 == ScrollEdge(env)
    ensures over > 0
    ensures Continues(env, str, t, over, str, Term(ScrolledUp(env, t.rows), Coord(0, t.pos.y), t.prev), over - 1)
  {
    var b := Term(ScrolledUp(env, t.rows), Coord(0, t.pos.y), t.prev);
    assert Offset(env.width, 1) == env.width;
    forall v: nat, c: nat | v < env.height && c < env.width
      ensures WrappedCell(env, str, b, over - 1, v, c) == WrappedCell(env, str, t, over, v, c)
    {
      ScrolledCell(env, str, t, over, v, c);
    }
  }

  lemma ScrolledCell(env: Env, str: seq<nat>, t: Term, over: nat, v: nat, c: nat)
    requires Writes(env, str, t) && t.pos.x == env.width && t.pos.y + 1 == ScrollEdge(env) && over > 0
    requires v < env.height && c < env.width
    ensures WrappedCell(env, str, Term(ScrolledUp(env, t.rows), Coord(0, t.pos.y), t.prev), over - 1, v, c) ==
            WrappedCell(env, str, t, over, v, c)
  {
    ScrollMovesRegionOnly(env, t.rows);
  }

  // Getting back on the screen first makes no difference.
  lemma BackFirst(env: Env, str: seq<nat>, t: Term)
    requires Writes(env, str, t) && str != [] && t.pos.x == env.width && Finishes(env, WriteStr, str, t)
    ensures var b := if t.pos.y + 1 < ScrollEdge(env) then t.(pos := Coord(0, t.pos.y + 1))
                     else Term(ScrolledUp(env, t.rows), Coord(0, t.pos.y), t.prev);
            ValidTerm(env, b) && Finishes(env, WriteStr, str, b) &&
            Typed(env, WriteStr, str, t) == Typed(env, WriteStr, str, b)
  {
    var b := BackOnScreen(env, WriteStr, str[0], t);
    TurnStaysValid(env, WriteStr, str[0], t);
    TurnStaysValid(env, WriteStr, str[0], b);
    assert Turn(env, WriteStr, str[0], t) == Turn(env, WriteStr, str[0], b);
  }

  // One character, or the end of a row.
  lemma OneStep(env: Env, str: seq<nat>, t: Term, over: nat) returns (rest: seq<nat>, b: Term, left: nat)
    requires Writes(env, str, t) && str != [] && Overflows(env, t, |str|, over) && Finishes(env, WriteStr, str, t)
    ensures Continues(env, str, t, over, rest, b, left)
    ensures Finishes(env, WriteStr, rest, b) && Typed(env, WriteStr, str, t) == Typed(env, WriteStr, rest, b)
    ensures if t.pos.x < env.width then rest == str[1..] && b.pos.x > 0 else rest == str && b.pos.x == 0
  {
    if t.pos.x < env.width {
      rest, b, left := str[1..], Turn(env, WriteStr, str[0], t), over;
      PlainTurn(env, str, t);
      OneCharacter(env, str, t, over, b);
    } else {
      BackFirst(env, str, t);
      rest := str;
      if t.pos.y + 1 < ScrollEdge(env) {
        b, left := t.(pos := Coord(0, t.pos.y + 1)), over;
        OneRowDown(env, str, t, over);
      } else {
        OneScroll(env, str, t, over);
        b, left := Term(ScrolledUp(env, t.rows), Coord(0, t.pos.y), t.prev), over - 1;
      }
    }
  }

  // Plain text of any length, with wrapping: every cell of the screen, and the cursor.
  lemma {:induction false} WrappedTextAppears(env: Env, str: seq<nat>, t: Term, over: nat)
    requires Writes(env, str, t) && Overflows(env, t, |str|, over)
    ensures Finishes(env, WriteStr, str, t) && IsWrapped(env, str, t, over, Typed(env, WriteStr, str, t))
    ensures str != [] ==> Typed(env, WriteStr, str, t).pos.x > 0
    decreases |str|, t.pos.x == env.width
  {
    if str == [] {
      NothingWritten(env, t, over);
    } else {
      NoStuckTabFinishes(env, WriteStr, str, t);
      var rest, b, left := OneStep(env, str, t, over);
      WrappedTextAppears(env, rest, b, left);
      SameWrapped(env, str, t, over, rest, b, left, Typed(env, WriteStr, rest, b));
    }
  }

  lemma NothingWritten(env: Env, t: Term, over: nat)
    requires Writes(env, [], t) && Overflows(env, t, 0, over)
    ensures over == 0 && IsWrapped(env, [], t, over, t)
  {
    var m := ScrollEdge(env) - t.pos.y + over - 1;
    if m > 0 {
      RowsDoNotOverlap(env.width, 0, m);
    }
  }

  // For every text there is one such number.
  lemma {:induction false} SomeOverflow(env: Env, t: Term, n: nat) returns (over: nat)
    requires ValidEnv(env) && t.pos.y < ScrollEdge(env) && 0 <= t.pos.x <= env.width
    ensures Overflows(env, t, n, over)
  {
    if n == 0 {
      RowsDoNotOverlap(env.width, 0, ScrollEdge(env) - t.pos.y);
      return 0;
    }
    over := SomeOverflow(env, t, n - 1);
    if t.pos.x + n > Offset(env.width, ScrollEdge(env) - t.pos.y + over) {
      over := over + 1;
    }
  }
}
