/**
  What single characters do to the screen and the cursor (WinPort/src/ConsoleOutput.cpp,
  ModifySequenceAt), in terms of the cells before and after.
  */
module SingleCharacters {
  import opened Grids
  import opened Terminal

  predicate IsControl(c: nat) {
    c == BELL || c == BACKSPACE || c == TAB || c == NEWLINE || c == RETURN
  }

  // The characters that take a cell, or two, at the cursor.
  predicate TakesCell(env: Env, c: nat, t: Term) {
    !(env.processed && IsControl(c)) && !env.classes.prefix(c) && !(env.classes.suffix(c) && t.prev.x >= 0)
  }

  lemma OneTurn(env: Env, kind: Kind, c: nat, t: Term)
    requires ValidEnv(env) && ValidTerm(env, t) && (kind == WriteStr && env.processed ==> c != TAB)
    ensures Finishes(env, kind, [c], t) && Typed(env, kind, [c], t) == Turn(env, kind, c, t)
  {
    TurnStaysValid(env, kind, c, t);
    var u := Turn(env, kind, c, t);
    assert [c][1..] == [];
    assert Typed(env, kind, [], u) == u;
  }

  // ---------------------------------------------------------------------------------
  // Control characters
  // ---------------------------------------------------------------------------------

  // A line feed goes down and stays in its column; at the scroll edge the rows move up instead.
  lemma LineFeed(env: Env, t: Term)
    requires ValidEnv(env) && ValidTerm(env, t) && env.processed && t.pos.x < env.width
    ensures Finishes(env, WriteStr, [NEWLINE], t)
    ensures Typed(env, WriteStr, [NEWLINE], t) ==
            if t.pos.y + 1 < ScrollEdge(env) then t.(pos := Coord(t.pos.x, t.pos.y + 1))
            else Term(ScrolledUp(env, t.rows), t.pos, t.prev)
  {
    OneTurn(env, WriteStr, NEWLINE, t);
  }

  // A return goes to the first column of the row, also from behind the last one.
  lemma CarriageReturn(env: Env, t: Term)
    requires ValidEnv(env) && ValidTerm(env, t) && env.processed
    ensures Finishes(env, WriteStr, [RETURN], t)
    ensures Typed(env, WriteStr, [RETURN], t) == t.(pos := Coord(0, t.pos.y))
  {
    OneTurn(env, WriteStr, RETURN, t);
  }

  // A backspace goes back one column and erases nothing.
  lemma Backspace(env: Env, t: Term)
    requires ValidEnv(env) && ValidTerm(env, t) && env.processed && 0 <= t.pos.x < env.width
    ensures Finishes(env, WriteStr, [BACKSPACE], t)
    ensures Typed(env, WriteStr, [BACKSPACE], t) ==
            t.(pos := Coord(if t.pos.x > 0 then t.pos.x - 1 else 0, t.pos.y))
  {
    OneTurn(env, WriteStr, BACKSPACE, t);
  }

  // A bell does nothing, not even behind the last column.
  lemma Bell(env: Env, t: Term)
    requires ValidEnv(env) && ValidTerm(env, t) && env.processed
    ensures Finishes(env, WriteStr, [BELL], t) && Typed(env, WriteStr, [BELL], t) == t
  {
    OneTurn(env, WriteStr, BELL, t);
  }

  // ---------------------------------------------------------------------------------
  // Characters that are shown
  // ---------------------------------------------------------------------------------

  // The cell at the cursor gets the character, and a full-width one takes the next cell as well, if
  // there is one and the first was not the same before.
  lemma ShownCharacter(env: Env, c: nat, t: Term)
    requires ValidEnv(env) && ValidTerm(env, t) && TakesCell(env, c, t)
    requires 0 <= t.pos.x < env.width && 0 <= t.pos.y < env.height
    ensures Finishes(env, WriteStr, [c], t)
    ensures var u := Typed(env, WriteStr, [c], t);
            var wide := env.classes.fullWidth(c);
            && u.pos == Coord(t.pos.x + (if wide then 2 else 1), t.pos.y) && u.prev == t.pos
            && forall y, x | 0 <= y < env.height && 0 <= x < env.width ::
                 u.rows[y][x] ==
                 if (x, y) == (t.pos.x, t.pos.y) then Cell(c, env.attr)
                 else if wide && (x, y) == (t.pos.x + 1, t.pos.y)
                         && t.rows[t.pos.y][t.pos.x] != Cell(c, env.attr) then Cell(0, env.attr)
                 else t.rows[y][x]
  {
    OneTurn(env, WriteStr, c, t);
  }

  // A prefix is shown, and the next character will replace it.
  lemma PrefixCharacter(env: Env, c: nat, t: Term)
    requires ValidEnv(env) && ValidTerm(env, t) && env.classes.prefix(c) && !(env.processed && IsControl(c))
    requires 0 <= t.pos.x < env.width && 0 <= t.pos.y < env.height
    ensures Finishes(env, WriteStr, [c], t)
    ensures var u := Typed(env, WriteStr, [c], t);
            && u.pos == t.pos && u.prev == t.pos
            && forall y, x | 0 <= y < env.height && 0 <= x < env.width ::
                 u.rows[y][x] == if (x, y) == (t.pos.x, t.pos.y) then Cell(c, env.attr) else t.rows[y][x]
  {
    OneTurn(env, WriteStr, c, t);
  }

  // A suffix joins the character in the previous cell, and the cursor stays.
  lemma SuffixCharacter(env: Env, c: nat, t: Term)
    requires ValidEnv(env) && ValidTerm(env, t) && !(env.processed && IsControl(c))
    requires env.classes.suffix(c) && !env.classes.prefix(c)
    requires 0 <= t.pos.x < env.width && 0 <= t.prev.x < env.width && 0 <= t.prev.y < env.height
    ensures Finishes(env, WriteStr, [c], t)
    ensures var u := Typed(env, WriteStr, [c], t);
            && u.pos == t.pos && u.prev == t.prev
            && forall y, x | 0 <= y < env.height && 0 <= x < env.width ::
                 u.rows[y][x] ==
                 if (x, y) == (t.prev.x, t.prev.y) then Cell(env.classes.compose(t.rows[y][x].ch, c), env.attr)
                 else t.rows[y][x]
  {
    OneTurn(env, WriteStr, c, t);
  }

  // Off the screen nothing is written; the cursor moves all the same, and a suffix is lost.
  lemma OffScreen(env: Env, c: nat, t: Term)
    requires ValidEnv(env) && ValidTerm(env, t) && !(env.processed && IsControl(c)) && 0 <= t.pos.x < env.width
    requires t.pos.y < 0 || t.pos.y >= env.height
    ensures Finishes(env, WriteStr, [c], t)
    ensures TakesCell(env, c, t) ==>
              Typed(env, WriteStr, [c], t) ==
              Term(t.rows, Coord(t.pos.x + (if env.classes.fullWidth(c) then 2 else 1), t.pos.y), t.pos)
    ensures (env.classes.suffix(c) && !env.classes.prefix(c)
             && t.prev.x >= 0 && !OnGrid(t.rows, t.prev.x, t.prev.y)) ==>
              Typed(env, WriteStr, [c], t) == t
  {
    OneTurn(env, WriteStr, c, t);
  }

  // So a character and a suffix behind it share one cell.
  lemma SuffixJoinsCharacter(env: Env, base: nat, c: nat, t: Term)
    requires ValidEnv(env) && ValidTerm(env, t) && TakesCell(env, base, t) && !env.classes.fullWidth(base)
    requires env.classes.suffix(c) && !env.classes.prefix(c) && !(env.processed && IsControl(c))
    requires 0 <= t.pos.x < env.width - 1 && 0 <= t.pos.y < env.height
    ensures Finishes(env, WriteStr, [base, c], t)
    ensures var u := Typed(env, WriteStr, [base, c], t);
            && u.pos == Coord(t.pos.x + 1, t.pos.y)
            && forall y, x | 0 <= y < env.height && 0 <= x < env.width ::
                 u.rows[y][x] ==
                 if (x, y) == (t.pos.x, t.pos.y) then Cell(env.classes.compose(base, c), env.attr) else t.rows[y][x]
  {
    ShownCharacter(env, base, t);
    var u := Typed(env, WriteStr, [base], t);
    SuffixCharacter(env, c, u);
    TypedInParts(env, WriteStr, [base], [c], t);
    assert [base] + [c] == [base, c];
  }

  // ---------------------------------------------------------------------------------
  // Behind the last column
  // ---------------------------------------------------------------------------------

  // Without wrapping the last column is written over; with wrapping the next row follows, and at the
  // scroll edge the rows move up.
  lemma ShownBehindLastColumn(env: Env, c: nat, t: Term)
    requires ValidEnv(env) && ValidTerm(env, t) && TakesCell(env, c, t) && !env.classes.fullWidth(c)
    requires t.pos.x >= env.width && 0 <= t.pos.y < env.height
    ensures Finishes(env, WriteStr, [c], t)
    ensures var u := Typed(env, WriteStr, [c], t);
            var scrolls := env.wrap && t.pos.y + 1 >= ScrollEdge(env);
            var at := Coord(if env.wrap then 0 else env.width - 1,
                            if env.wrap && !scrolls then t.pos.y + 1 else t.pos.y);
            var rows := if scrolls then ScrolledUp(env, t.rows) else t.rows;
            && u.pos == Coord(at.x + 1, at.y) && u.prev == at
            && forall y, x | 0 <= y < env.height && 0 <= x < env.width ::
                 u.rows[y][x] == if (x, y) == (at.x, at.y) then Cell(c, env.attr) else rows[y][x]
  {
    OneTurn(env, WriteStr, c, t);
    var b := BackOnScreen(env, WriteStr, c, t);
    PutOne(b.rows, b.pos, Cell(c, env.attr));
  }

  // Fills go on in the next row whatever the mode.
  lemma FillBehindLastColumn(env: Env, kind: Kind, c: nat, t: Term)
    requires ValidEnv(env) && ValidTerm(env, t) && kind != WriteStr
    requires t.pos.x >= env.width && 0 <= t.pos.y < env.height
    ensures Finishes(env, kind, [c], t)
    ensures var u := Typed(env, kind, [c], t);
            var scrolls := t.pos.y + 1 >= ScrollEdge(env);
            var row := if scrolls then t.pos.y else t.pos.y + 1;
            var rows := if scrolls then ScrolledUp(env, t.rows) else t.rows;
            && u.pos == Coord(1, row) && u.prev == t.prev
            && forall y, x | 0 <= y < env.height && 0 <= x < env.width ::
                 u.rows[y][x] == if (x, y) == (0, row) then FilledCell(kind, rows[y][x]) else rows[y][x]
  {
    OneTurn(env, kind, c, t);
    var b := BackOnScreen(env, kind, c, t);
    PutOne(b.rows, b.pos, FilledCell(kind, b.rows[b.pos.y][b.pos.x]));
  }

  // A full row, a return and a line feed: the next row, with no empty one between.
  lemma LineEndBehindFullRow(env: Env, t: Term)
    requires ValidEnv(env) && ValidTerm(env, t) && env.processed
    requires t.pos.x >= env.width && t.pos.y + 1 < ScrollEdge(env)
    ensures Finishes(env, WriteStr, [RETURN, NEWLINE], t)
    ensures Typed(env, WriteStr, [RETURN, NEWLINE], t) == t.(pos := Coord(0, t.pos.y + 1))
  {
    CarriageReturn(env, t);
    LineFeed(env, t.(pos := Coord(0, t.pos.y)));
    TypedInParts(env, WriteStr, [RETURN], [NEWLINE], t);
    assert [RETURN] + [NEWLINE] == [RETURN, NEWLINE];
  }

  lemma TabStep(env: Env, t: Term) returns (u: Term)
    requires ValidEnv(env) && ValidTerm(env, t) && env.processed && Finishes(env, WriteStr, [TAB], t)
    requires env.width / TAB_WIDTH * TAB_WIDTH <= t.pos.x < env.width && 0 <= t.pos.y < env.height
    ensures ValidTerm(env, u) && Finishes(env, WriteStr, [TAB], u)
    ensures Typed(env, WriteStr, [TAB], t) == Typed(env, WriteStr, [TAB], u)
    ensures u.pos == Coord(t.pos.x + 1, t.pos.y) && u.prev == t.pos
    ensures forall y, x | 0 <= y < env.height && 0 <= x < env.width ::
              u.rows[y][x] == if (x, y) == (t.pos.x, t.pos.y) then Cell(BLANK, env.attr) else t.rows[y][x]
  {
    TurnStaysValid(env, WriteStr, TAB, t);
    TabMovesOn(env, t);
    PutOne(t.rows, t.pos, Cell(BLANK, env.attr));
    u := Turn(env, WriteStr, TAB, t);
    assert u.pos == Coord(t.pos.x + 1, t.pos.y) && !Consumed(env, WriteStr, TAB, u);
  }

  // A tab with no tab stop left in its row blanks the rest of the row before it goes on.
  lemma {:induction false} TabToEdge(env: Env, t: Term) returns (u: Term)
    requires ValidEnv(env) && ValidTerm(env, t) && env.processed && Finishes(env, WriteStr, [TAB], t)
    requires env.width / TAB_WIDTH * TAB_WIDTH <= t.pos.x < env.width && 0 <= t.pos.y < env.height
    ensures ValidTerm(env, u) && Finishes(env, WriteStr, [TAB], u)
    ensures Typed(env, WriteStr, [TAB], t) == Typed(env, WriteStr, [TAB], u)
    ensures u.pos == Coord(env.width, t.pos.y) && u.prev == Coord(env.width - 1, t.pos.y)
    ensures forall y, x | 0 <= y < env.height && 0 <= x < env.width ::
              u.rows[y][x] == if y == t.pos.y && t.pos.x <= x then Cell(BLANK, env.attr) else t.rows[y][x]
    decreases env.width - t.pos.x
  {
    u := TabStep(env, t);
    if t.pos.x + 1 < env.width {
      u := TabToEdge(env, u);
    }
  }

  // From there it goes on in the next row, up to its first tab stop.
  lemma TabBehindLastColumn(env: Env, t: Term)
    requires ValidEnv(env) && ValidTerm(env, t) && env.processed && env.wrap
    requires t.pos.x >= env.width && 0 <= t.pos.y < env.height
    ensures Finishes(env, WriteStr, [TAB], t)
    ensures var u := Typed(env, WriteStr, [TAB], t);
            var scrolls := t.pos.y + 1 >= ScrollEdge(env);
            var row := if scrolls then t.pos.y else t.pos.y + 1;
            var rows := if scrolls then ScrolledUp(env, t.rows) else t.rows;
            && u.pos == Coord(TAB_WIDTH, row)
            && forall y, x | 0 <= y < env.height && 0 <= x < env.width ::
                 u.rows[y][x] == if y == row && x < TAB_WIDTH then Cell(BLANK, env.attr) else rows[y][x]
  {
    NoStuckTabFinishes(env, WriteStr, [TAB], t);
    var b := BackOnScreen(env, WriteStr, TAB, t);
    TurnStaysValid(env, WriteStr, TAB, t);
    TurnStaysValid(env, WriteStr, TAB, b);
    TabMovesOn(env, t);
    TabMovesOn(env, b);
    TabBlanksToStop(env, b, TAB_WIDTH);
    assert Turn(env, WriteStr, TAB, t) == Turn(env, WriteStr, TAB, b);
    assert Typed(env, WriteStr, [TAB], t) == Typed(env, WriteStr, [TAB], b);
  }
}
