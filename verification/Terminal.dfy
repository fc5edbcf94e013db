/**
  What writing a sequence of characters makes of the screen and the cursor, character by
  character (WinPort/src/ConsoleOutput.cpp, ModifySequenceAt and what it calls).
  */
module Terminal {
  import opened Grids

  const TAB_WIDTH := 8
  const BELL: nat := 7
  const BACKSPACE: nat := 8
  const TAB: nat := 9
  const NEWLINE: nat := 10
  const RETURN: nat := 13
  const BLANK: nat := 0x20

  // CharClasses and the registry of composite characters.
  datatype Classes = Classes(
    prefix: nat -> bool, suffix: nat -> bool, fullWidth: nat -> bool, compose: (nat, nat) -> nat)

  // SM_WRITE_STR, SM_FILL_CHAR, SM_FILL_ATTR
  datatype Kind = WriteStr | FillChar(ch: nat) | FillAttr(attr: nat)

  // What stays the same during a call.
  datatype Env = Env(
    classes: Classes,
    processed: bool,  // ENABLE_PROCESSED_OUTPUT
    wrap: bool,       // ENABLE_WRAP_AT_EOL_OUTPUT
    attr: nat,
    width: nat,
    height: nat,
    top: nat,         // the scroll region
    bottom: nat)

  // The screen, where the next character goes, and where the previous one is.
  datatype Term = Term(rows: Grid, pos: Coord, prev: Coord)

  function ScrollEdge(env: Env): nat {
    if env.height < env.bottom + 1 then env.height else env.bottom + 1
  }

  // A scroll region of one row may have any top.
  ghost predicate ValidEnv(env: Env) {
    && env.width >= TAB_WIDTH && env.height > 0
    && (env.bottom == 0 || env.top + 1 < ScrollEdge(env))
    && !env.classes.prefix(TAB) && !env.classes.suffix(TAB)
  }

  ghost predicate ValidTerm(env: Env, t: Term) {
    IsGrid(t.rows, env.width, env.height)
  }

  // ---------------------------------------------------------------------------------
  // Scrolling the region up
  // ---------------------------------------------------------------------------------

  function BlankRow(env: Env): (row: seq<Cell>)
    ensures |row| == env.width && forall x | 0 <= x < env.width :: row[x] == Cell(BLANK, env.attr)
  {
    seq(env.width, x => Cell(BLANK, env.attr))
  }

  function ScrolledUp(env: Env, rows: Grid): (g: Grid)
    requires IsGrid(rows, env.width, env.height)
    ensures IsGrid(g, env.width, env.height)
  {
    var edge := ScrollEdge(env);
    if env.top + 1 < edge then rows[..env.top] + rows[env.top + 1..edge] + [BlankRow(env)] + rows[edge..] else rows
  }

  // Only the region moves, by one row; its last row is blank. A region of one row stays.
  lemma ScrollMovesRegionOnly(env: Env, rows: Grid)
    requires IsGrid(rows, env.width, env.height) && ValidEnv(env)
    ensures forall y | 0 <= y < env.height ::
              ScrolledUp(env, rows)[y] ==
              if env.bottom == 0 || y < env.top || y >= ScrollEdge(env) then rows[y]
              else if y + 1 < ScrollEdge(env) then rows[y + 1] else BlankRow(env)
  {
    var top, edge := env.top, ScrollEdge(env);
    if env.bottom != 0 {
      var g := rows[..top] + rows[top + 1..edge] + [BlankRow(env)] + rows[edge..];
      assert ScrolledUp(env, rows) == g;
      forall y | 0 <= y < env.height
        ensures g[y] == if y < top || y >= edge then rows[y] else if y + 1 < edge then rows[y + 1] else BlankRow(env)
      {
      }
    } else {
      assert ScrolledUp(env, rows) == rows;
    }
  }

  // ---------------------------------------------------------------------------------
  // One character
  // ---------------------------------------------------------------------------------

  function PutCell(rows: Grid, at: Coord, c: Cell, out: nat): Grid {
    if !OnGrid(rows, at.x, at.y) || rows[at.y][at.x] == c then rows
    else
      var g := WithCell(rows, at.x, at.y, c);
      if out == 2 then WithCell(g, at.x + 1, at.y, c.(ch := 0)) else g
  }

  lemma PutOne(rows: Grid, at: Coord, c: Cell)
    requires OnGrid(rows, at.x, at.y)
    ensures var g := PutCell(rows, at, c, 1);
            && |g| == |rows|
            && forall y, x | OnGrid(rows, x, y) ::
                 OnGrid(g, x, y) && g[y][x] == if (x, y) == (at.x, at.y) then c else rows[y][x]
  {
  }

  lemma PutInRow(rows: Grid, at: Coord, c: Cell, out: nat)
    ensures var g := PutCell(rows, at, c, out);
            |g| == |rows| && forall y | 0 <= y < |rows| && y != at.y :: g[y] == rows[y]
  {
  }

  predicate Joining(env: Env, c: nat, prev: Coord) {
    !env.classes.prefix(c) && prev.x >= 0 && env.classes.suffix(c)
  }

  // ModifySequenceEntityAt: also gives how far the cursor goes.
  function Entity(env: Env, kind: Kind, c: nat, t: Term): (Term, nat) {
    match kind
    case WriteStr =>
      if env.classes.prefix(c) then
        (Term(PutCell(t.rows, t.pos, Cell(c, env.attr), 0), t.pos, t.pos), 0)
      else if Joining(env, c, t.prev) then
        if !OnGrid(t.rows, t.prev.x, t.prev.y) then (t, 0)
        else
          var ch := env.classes.compose(t.rows[t.prev.y][t.prev.x].ch, c);
          (Term(PutCell(t.rows, t.prev, Cell(ch, env.attr), 0), t.pos, t.prev), 0)
      else if c == TAB && env.processed then
        (Term(PutCell(t.rows, t.pos, Cell(BLANK, env.attr), 1), t.pos, t.pos), 1)
      else
        var out := if env.classes.fullWidth(c) then 2 else 1;
        (Term(PutCell(t.rows, t.pos, Cell(c, env.attr), out), t.pos, t.pos), out)
    case FillChar(ch) =>
      if !OnGrid(t.rows, t.pos.x, t.pos.y) then (t, 1)
      else (t.(rows := PutCell(t.rows, t.pos, t.rows[t.pos.y][t.pos.x].(ch := ch), 1)), 1)
    case FillAttr(attr) =>
      if !OnGrid(t.rows, t.pos.x, t.pos.y) then (t, 1)
      else (t.(rows := PutCell(t.rows, t.pos, t.rows[t.pos.y][t.pos.x].(attr := attr), 1)), 1)
  }

  // Down one row, scrolling at the edge.
  function RowDown(env: Env, t: Term): Term
    requires ValidTerm(env, t)
  {
    if t.pos.y + 1 >= ScrollEdge(env) then t.(rows := ScrolledUp(env, t.rows))
    else t.(pos := Coord(t.pos.x, t.pos.y + 1))
  }

  predicate Wraps(env: Env, kind: Kind, c: nat) {
    kind != WriteStr || (env.wrap && (!env.processed || (c != RETURN && c != NEWLINE)))
  }

  // A cursor beyond the last column.
  function BackOnScreen(env: Env, kind: Kind, c: nat, t: Term): Term
    requires ValidTerm(env, t)
  {
    if t.pos.x < env.width then t
    else if Wraps(env, kind, c) then RowDown(env, t.(pos := Coord(0, t.pos.y)))
    else t.(pos := Coord(env.width - 1, t.pos.y))
  }

  // A control character, or a cell.
  function Act(env: Env, kind: Kind, c: nat, t: Term): Term
    requires ValidTerm(env, t)
  {
    if kind == WriteStr && c == BACKSPACE && env.processed then
      if t.pos.x > 0 then t.(pos := Coord(t.pos.x - 1, t.pos.y)) else t
    else if kind == WriteStr && c == RETURN && env.processed then t.(pos := Coord(0, t.pos.y))
    else if kind == WriteStr && c == NEWLINE && env.processed then RowDown(env, t)
    else
      var (u, out) := Entity(env, kind, c, t);
      u.(pos := Coord(u.pos.x + out, u.pos.y))
  }

  predicate IsBell(env: Env, kind: Kind, c: nat) {
    kind == WriteStr && c == BELL && env.processed
  }

  // One turn of the loop.
  function Turn(env: Env, kind: Kind, c: nat, t: Term): Term
    requires ValidTerm(env, t)
  {
    if IsBell(env, kind, c) then t
    else
      TermStaysValid(env, kind, c, t);
      Act(env, kind, c, BackOnScreen(env, kind, c, t))
  }

  // A tab is not done before the next tab stop.
  predicate Consumed(env: Env, kind: Kind, c: nat, after: Term) {
    kind == WriteStr && c == TAB && env.processed ==> after.pos.x % TAB_WIDTH == 0
  }

  lemma TermStaysValid(env: Env, kind: Kind, c: nat, t: Term)
    requires ValidTerm(env, t)
    ensures ValidTerm(env, BackOnScreen(env, kind, c, t)) && ValidTerm(env, Act(env, kind, c, t))
  {
  }

  lemma TurnStaysValid(env: Env, kind: Kind, c: nat, t: Term)
    requires ValidTerm(env, t)
    ensures ValidTerm(env, Turn(env, kind, c, t))
  {
    TermStaysValid(env, kind, c, t);
    TermStaysValid(env, kind, c, BackOnScreen(env, kind, c, t));
  }

  // ---------------------------------------------------------------------------------
  // Whether the loop ends
  // ---------------------------------------------------------------------------------

  // Every tab gets to a tab stop.
  predicate TabsEnd(env: Env, kind: Kind) {
    kind != WriteStr || !env.processed || env.wrap || env.width % TAB_WIDTH == 0
  }

  // A tab behind the last tab stop of a row that is not left.
  predicate Stuck(env: Env, kind: Kind, c: nat, t: Term) {
    !TabsEnd(env, kind) && c == TAB && env.width / TAB_WIDTH * TAB_WIDTH <= t.pos.x
  }

  // How many turns a tab takes at most.
  function TurnsToStop(env: Env, x: int): nat {
    if x >= env.width then 2 * TAB_WIDTH
    else if 0 <= x < TAB_WIDTH then TAB_WIDTH - x
    else 2 * TAB_WIDTH + (TAB_WIDTH - x % TAB_WIDTH)
  }

  lemma TabMovesOn(env: Env, t: Term)
    requires ValidEnv(env) && ValidTerm(env, t) && env.processed && !Stuck(env, WriteStr, TAB, t)
    ensures var u := Turn(env, WriteStr, TAB, t);
            Consumed(env, WriteStr, TAB, u) || TurnsToStop(env, u.pos.x) < TurnsToStop(env, t.pos.x)
  {
    var b := BackOnScreen(env, WriteStr, TAB, t);
    assert b.pos.x == if t.pos.x < env.width then t.pos.x else if env.wrap then 0 else env.width - 1;
    assert Turn(env, WriteStr, TAB, t).pos.x == b.pos.x + 1;
  }

  lemma TabStaysStuck(env: Env, t: Term)
    requires ValidEnv(env) && ValidTerm(env, t) && Stuck(env, WriteStr, TAB, t)
    ensures var u := Turn(env, WriteStr, TAB, t);
            ValidTerm(env, u) && Stuck(env, WriteStr, TAB, u) && !Consumed(env, WriteStr, TAB, u)
  {
    TurnStaysValid(env, WriteStr, TAB, t);
    var b := BackOnScreen(env, WriteStr, TAB, t);
    assert b.pos.x == if t.pos.x < env.width then t.pos.x else env.width - 1;
    assert Turn(env, WriteStr, TAB, t).pos.x == b.pos.x + 1;
  }

  // No tab of the string is met behind the last tab stop.
  predicate Finishes(env: Env, kind: Kind, str: seq<nat>, t: Term)
    requires ValidEnv(env) && ValidTerm(env, t)
    decreases |str|, TurnsToStop(env, t.pos.x)
  {
    str != [] ==>
      && !Stuck(env, kind, str[0], t)
      && (TurnStaysValid(env, kind, str[0], t);
          var u := Turn(env, kind, str[0], t);
          if Consumed(env, kind, str[0], u) then Finishes(env, kind, str[1..], u)
          else
            TabMovesOn(env, t);
            Finishes(env, kind, str, u))
  }

  // The whole loop.
  function Typed(env: Env, kind: Kind, str: seq<nat>, t: Term): (u: Term)
    requires ValidEnv(env) && ValidTerm(env, t) && Finishes(env, kind, str, t)
    ensures ValidTerm(env, u)
    decreases |str|, TurnsToStop(env, t.pos.x)
  {
    if str == [] then t
    else
      TurnStaysValid(env, kind, str[0], t);
      var u := Turn(env, kind, str[0], t);
      if Consumed(env, kind, str[0], u) then Typed(env, kind, str[1..], u)
      else
        TabMovesOn(env, t);
        Typed(env, kind, str, u)
  }

  // The loop as a machine that may run for ever.
  function Machine(env: Env, kind: Kind, str: seq<nat>, t: Term, turns: nat): (seq<nat>, Term)
    requires ValidTerm(env, t)
    decreases turns
  {
    if turns == 0 || str == [] then (str, t)
    else
      TurnStaysValid(env, kind, str[0], t);
      var u := Turn(env, kind, str[0], t);
      Machine(env, kind, if Consumed(env, kind, str[0], u) then str[1..] else str, u, turns - 1)
  }

  ghost predicate Ends(env: Env, kind: Kind, str: seq<nat>, t: Term)
    requires ValidTerm(env, t)
  {
    exists turns :: Machine(env, kind, str, t, turns).0 == []
  }

  lemma {:induction false} EndsWhenFinishes(env: Env, kind: Kind, str: seq<nat>, t: Term)
    requires ValidEnv(env) && ValidTerm(env, t) && Finishes(env, kind, str, t)
    ensures exists turns :: Machine(env, kind, str, t, turns) == ([], Typed(env, kind, str, t))
    decreases |str|, TurnsToStop(env, t.pos.x)
  {
    if str == [] {
      assert Machine(env, kind, str, t, 0) == ([], t);
    } else {
      TurnStaysValid(env, kind, str[0], t);
      var u := Turn(env, kind, str[0], t);
      if !Consumed(env, kind, str[0], u) {
        TabMovesOn(env, t);
      }
      var rest := if Consumed(env, kind, str[0], u) then str[1..] else str;
      EndsWhenFinishes(env, kind, rest, u);
      var turns: nat :| Machine(env, kind, rest, u, turns) == ([], Typed(env, kind, rest, u));
      assert Machine(env, kind, str, t, turns + 1) == ([], Typed(env, kind, str, t));
    }
  }

  lemma {:induction false} NeverEnds(env: Env, kind: Kind, str: seq<nat>, t: Term, turns: nat)
    requires ValidEnv(env) && ValidTerm(env, t) && !Finishes(env, kind, str, t)
    ensures Machine(env, kind, str, t, turns).0 != []
    decreases turns
  {
    if turns > 0 {
      TurnStaysValid(env, kind, str[0], t);
      var u := Turn(env, kind, str[0], t);
      if Stuck(env, kind, str[0], t) {
        TabStaysStuck(env, t);
      }
      NeverEnds(env, kind, if Consumed(env, kind, str[0], u) then str[1..] else str, u, turns - 1);
    }
  }

  // A string is done with after some turns, with the result that `Typed` says, exactly when none of
  // its tabs is met behind the last tab stop of a row that is not left.
  lemma EndsExactlyWhen(env: Env, kind: Kind, str: seq<nat>, t: Term)
    requires ValidEnv(env) && ValidTerm(env, t)
    ensures Ends(env, kind, str, t) <==> Finishes(env, kind, str, t)
    ensures Finishes(env, kind, str, t) ==>
              exists turns :: Machine(env, kind, str, t, turns) == ([], Typed(env, kind, str, t))
  {
    if Finishes(env, kind, str, t) {
      EndsWhenFinishes(env, kind, str, t);
    } else {
      forall turns: nat
        ensures Machine(env, kind, str, t, turns).0 != []
      {
        NeverEnds(env, kind, str, t, turns);
      }
    }
  }

  lemma {:induction false} NoStuckTabFinishes(env: Env, kind: Kind, str: seq<nat>, t: Term)
    requires ValidEnv(env) && ValidTerm(env, t) && (TabsEnd(env, kind) || TAB !in str)
    ensures Finishes(env, kind, str, t)
    decreases |str|, TurnsToStop(env, t.pos.x)
  {
    if str != [] {
      TurnStaysValid(env, kind, str[0], t);
      var u := Turn(env, kind, str[0], t);
      if Consumed(env, kind, str[0], u) {
        NoStuckTabFinishes(env, kind, str[1..], u);
      } else {
        TabMovesOn(env, t);
        NoStuckTabFinishes(env, kind, str, u);
      }
    }
  }

  // All strings end from everywhere exactly when lines wrap, control characters are not processed,
  // or the width is a multiple of the tab width.
  lemma AllEndExactlyWhen(env: Env, kind: Kind)
    requires ValidEnv(env)
    ensures TabsEnd(env, kind) <==>
            forall str, t {:trigger Ends(env, kind, str, t)} | ValidTerm(env, t) :: Ends(env, kind, str, t)
  {
    if TabsEnd(env, kind) {
      forall str, t | ValidTerm(env, t)
        ensures Ends(env, kind, str, t)
      {
        NoStuckTabFinishes(env, kind, str, t);
        EndsExactlyWhen(env, kind, str, t);
      }
    } else {
      var t := Term(Blank(env.width, env.height, env.attr), Coord(env.width, 0), Coord(-1, -1));
      assert Stuck(env, kind, TAB, t);
      EndsExactlyWhen(env, kind, [TAB], t);
    }
  }

  // ---------------------------------------------------------------------------------
  // What holds after any string
  // ---------------------------------------------------------------------------------

  // Writing in two parts is the same as writing at once, and ends when the two parts do.
  lemma {:induction false} TypedInParts(env: Env, kind: Kind, a: seq<nat>, b: seq<nat>, t: Term)
    requires ValidEnv(env) && ValidTerm(env, t)
    ensures Finishes(env, kind, a + b, t) <==>
            Finishes(env, kind, a, t) && Finishes(env, kind, b, Typed(env, kind, a, t))
    ensures Finishes(env, kind, a + b, t) ==>
              Typed(env, kind, a + b, t) == Typed(env, kind, b, Typed(env, kind, a, t))
    decreases |a|, TurnsToStop(env, t.pos.x)
  {
    if a == [] {
      assert a + b == b;
    } else {
      TurnStaysValid(env, kind, a[0], t);
      var u := Turn(env, kind, a[0], t);
      assert (a + b)[0] == a[0] && (a + b)[1..] == a[1..] + b;
      if Consumed(env, kind, a[0], u) {
        TypedInParts(env, kind, a[1..], b, u);
      } else if !Stuck(env, kind, a[0], t) {
        TabMovesOn(env, t);
        TypedInParts(env, kind, a, b, u);
      }
    }
  }

  ghost predicate CursorMoved(env: Env, from: Coord, to: Coord) {
    && 0 <= to.x <= env.width + 1
    && from.y <= to.y && (to.y == from.y || to.y < ScrollEdge(env))
  }

  lemma TurnMovesCursor(env: Env, kind: Kind, c: nat, t: Term)
    requires ValidEnv(env) && ValidTerm(env, t) && 0 <= t.pos.x <= env.width + 1
    ensures CursorMoved(env, t.pos, Turn(env, kind, c, t).pos)
  {
  }

  // The column stays between 0 and the width plus one, and the row never passes the scroll edge.
  lemma {:induction false} CursorStays(env: Env, kind: Kind, str: seq<nat>, t: Term)
    requires ValidEnv(env) && ValidTerm(env, t) && Finishes(env, kind, str, t)
    requires 0 <= t.pos.x <= env.width + 1
    ensures CursorMoved(env, t.pos, Typed(env, kind, str, t).pos)
    decreases |str|, TurnsToStop(env, t.pos.x)
  {
    if str != [] {
      TurnStaysValid(env, kind, str[0], t);
      TurnMovesCursor(env, kind, str[0], t);
      var u := Turn(env, kind, str[0], t);
      if Consumed(env, kind, str[0], u) {
        CursorStays(env, kind, str[1..], u);
      } else {
        TabMovesOn(env, t);
        CursorStays(env, kind, str, u);
      }
    }
  }

  predicate InRegion(env: Env, y: int) {
    (if env.bottom == 0 then 0 else env.top) <= y < ScrollEdge(env)
  }

  // Nothing outside the scroll region changes when the cursor starts inside.
  lemma {:induction false} RestStays(env: Env, kind: Kind, str: seq<nat>, t: Term)
    requires ValidEnv(env) && ValidTerm(env, t) && Finishes(env, kind, str, t)
    requires InRegion(env, t.pos.y) && (t.prev.x >= 0 ==> InRegion(env, t.prev.y))
    ensures forall y | 0 <= y < env.height && !InRegion(env, y) :: Typed(env, kind, str, t).rows[y] == t.rows[y]
    decreases |str|, TurnsToStop(env, t.pos.x)
  {
    if str != [] {
      TurnStaysValid(env, kind, str[0], t);
      TurnStaysInRegion(env, kind, str[0], t);
      var u := Turn(env, kind, str[0], t);
      if Consumed(env, kind, str[0], u) {
        RestStays(env, kind, str[1..], u);
      } else {
        TabMovesOn(env, t);
        RestStays(env, kind, str, u);
      }
    }
  }

  ghost predicate KeepsRest(env: Env, t: Term, u: Term)
    requires ValidTerm(env, t) && ValidTerm(env, u)
  {
    && InRegion(env, u.pos.y) && (u.prev.x >= 0 ==> InRegion(env, u.prev.y))
    && forall y | 0 <= y < env.height && !InRegion(env, y) :: u.rows[y] == t.rows[y]
  }

  lemma RowDownInRegion(env: Env, t: Term)
    requires ValidEnv(env) && ValidTerm(env, t)
    requires InRegion(env, t.pos.y) && (t.prev.x >= 0 ==> InRegion(env, t.prev.y))
    ensures KeepsRest(env, t, RowDown(env, t))
  {
    ScrollMovesRegionOnly(env, t.rows);
  }

  lemma EntityInRegion(env: Env, kind: Kind, c: nat, t: Term)
    requires ValidEnv(env) && ValidTerm(env, t)
    requires InRegion(env, t.pos.y) && (t.prev.x >= 0 ==> InRegion(env, t.prev.y))
    ensures ValidTerm(env, Entity(env, kind, c, t).0) && KeepsRest(env, t, Entity(env, kind, c, t).0)
  {
    forall ch: Cell, out: nat
      ensures forall y | 0 <= y < env.height && y != t.pos.y :: PutCell(t.rows, t.pos, ch, out)[y] == t.rows[y]
      ensures forall y | 0 <= y < env.height && y != t.prev.y :: PutCell(t.rows, t.prev, ch, out)[y] == t.rows[y]
    {
      PutInRow(t.rows, t.pos, ch, out);
      PutInRow(t.rows, t.prev, ch, out);
    }
  }

  lemma BackInRegion(env: Env, kind: Kind, c: nat, t: Term)
    requires ValidEnv(env) && ValidTerm(env, t)
    requires InRegion(env, t.pos.y) && (t.prev.x >= 0 ==> InRegion(env, t.prev.y))
    ensures ValidTerm(env, BackOnScreen(env, kind, c, t)) && KeepsRest(env, t, BackOnScreen(env, kind, c, t))
  {
    RowDownInRegion(env, t.(pos := Coord(0, t.pos.y)));
  }

  lemma TurnStaysInRegion(env: Env, kind: Kind, c: nat, t: Term)
    requires ValidEnv(env) && ValidTerm(env, t)
    requires InRegion(env, t.pos.y) && (t.prev.x >= 0 ==> InRegion(env, t.prev.y))
    ensures ValidTerm(env, Turn(env, kind, c, t)) && KeepsRest(env, t, Turn(env, kind, c, t))
  {
    BackInRegion(env, kind, c, t);
    var b := BackOnScreen(env, kind, c, t);
    RowDownInRegion(env, b);
    EntityInRegion(env, kind, c, b);
  }

  // ---------------------------------------------------------------------------------
  // Plain text
  // ---------------------------------------------------------------------------------

  predicate Plain(env: Env, c: nat) {
    && c != BELL && c != BACKSPACE && c != TAB && c != NEWLINE && c != RETURN
    && !env.classes.prefix(c) && !env.classes.suffix(c) && !env.classes.fullWidth(c)
  }

  // Plain text that fits in a row appears in that row and changes nothing else.
  lemma {:induction false} PlainTextAppears(env: Env, str: seq<nat>, t: Term)
    requires ValidEnv(env) && ValidTerm(env, t)
    requires 0 <= t.pos.x && t.pos.x + |str| <= env.width && 0 <= t.pos.y < env.height
    requires forall i | 0 <= i < |str| :: Plain(env, str[i])
    ensures Finishes(env, WriteStr, str, t)
    ensures var u := Typed(env, WriteStr, str, t);
            && u.pos == Coord(t.pos.x + |str|, t.pos.y)
            && forall y, x | 0 <= y < env.height && 0 <= x < env.width ::
                 u.rows[y][x] ==
                 if y == t.pos.y && t.pos.x <= x < t.pos.x + |str| then Cell(str[x - t.pos.x], env.attr)
                 else t.rows[y][x]
    decreases |str|
  {
    if str != [] {
      TurnStaysValid(env, WriteStr, str[0], t);
      var u := Turn(env, WriteStr, str[0], t);
      assert u.pos == Coord(t.pos.x + 1, t.pos.y);
      PutOne(t.rows, t.pos, Cell(str[0], env.attr));
      PlainTextAppears(env, str[1..], u);
    }
  }

  // A fill that fits in a row changes the characters, or the attributes, of its cells and nothing else.
  lemma {:induction false} FillAppears(env: Env, kind: Kind, str: seq<nat>, t: Term)
    requires ValidEnv(env) && ValidTerm(env, t) && kind != WriteStr
    requires 0 <= t.pos.x && t.pos.x + |str| <= env.width && 0 <= t.pos.y < env.height
    ensures Finishes(env, kind, str, t)
    ensures var u := Typed(env, kind, str, t);
            && u.pos == Coord(t.pos.x + |str|, t.pos.y) && u.prev == t.prev
            && forall y, x | 0 <= y < env.height && 0 <= x < env.width ::
                 u.rows[y][x] ==
                 if y == t.pos.y && t.pos.x <= x < t.pos.x + |str| then FilledCell(kind, t.rows[y][x])
                 else t.rows[y][x]
    decreases |str|
  {
    if str != [] {
      TurnStaysValid(env, kind, str[0], t);
      var u := Turn(env, kind, str[0], t);
      PutOne(t.rows, t.pos, FilledCell(kind, t.rows[t.pos.y][t.pos.x]));
      assert u.pos == Coord(t.pos.x + 1, t.pos.y);
      FillAppears(env, kind, str[1..], u);
    }
  }

  function FilledCell(kind: Kind, c: Cell): Cell {
    match kind
    case WriteStr => c
    case FillChar(ch) => c.(ch := ch)
    case FillAttr(attr) => c.(attr := attr)
  }

  // A tab blanks the cells up to the next tab stop, if that is in the row.
  lemma {:induction false} TabBlanksToStop(env: Env, t: Term, stop: nat)
    requires ValidEnv(env) && ValidTerm(env, t) && env.processed
    requires 0 <= t.pos.x < stop <= env.width && stop % TAB_WIDTH == 0 && stop - t.pos.x <= TAB_WIDTH &&
             0 <= t.pos.y < env.height
    ensures Finishes(env, WriteStr, [TAB], t)
    ensures var u := Typed(env, WriteStr, [TAB], t);
            && u.pos == Coord(stop, t.pos.y)
            && forall y, x | 0 <= y < env.height && 0 <= x < env.width ::
                 u.rows[y][x] == if y == t.pos.y && t.pos.x <= x < stop then Cell(BLANK, env.attr) else t.rows[y][x]
    decreases stop - t.pos.x
  {
    TurnStaysValid(env, WriteStr, TAB, t);
    TabMovesOn(env, t);
    var u := Turn(env, WriteStr, TAB, t);
    PutOne(t.rows, t.pos, Cell(BLANK, env.attr));
    assert u.pos == Coord(t.pos.x + 1, t.pos.y);
    if t.pos.x + 1 < stop {
      assert !Consumed(env, WriteStr, TAB, u);
      TabBlanksToStop(env, u, stop);
    } else {
      assert [TAB][1..] == [];
    }
  }

  // Line ends at the scroll edge scroll the region up and leave the cursor in the first column.
  lemma LineEndScrolls(env: Env, t: Term)
    requires ValidEnv(env) && ValidTerm(env, t) && env.processed
    requires 0 <= t.pos.x && t.pos.y + 1 == ScrollEdge(env)
    ensures Finishes(env, WriteStr, [RETURN, NEWLINE], t)
    ensures Typed(env, WriteStr, [RETURN, NEWLINE], t) == Term(ScrolledUp(env, t.rows), Coord(0, t.pos.y), t.prev)
  {
    TurnStaysValid(env, WriteStr, RETURN, t);
    var u := Turn(env, WriteStr, RETURN, t);
    assert u == t.(pos := Coord(0, t.pos.y));
    TurnStaysValid(env, WriteStr, NEWLINE, u);
    assert [RETURN, NEWLINE][1..] == [NEWLINE] && [NEWLINE][1..] == [];
    assert Typed(env, WriteStr, [NEWLINE], u) == Turn(env, WriteStr, NEWLINE, u);
  }
}
