/**
  The line-by-line search of the incremental search plugin (incsrch/search.c, FindString).

  The editor is a sequence of lines, a cursor and a selection on the cursor's line.
  */
module IncrementalSearch {
  import opened Characters
  import opened Wrappers
  import opened Substring

  datatype Position = Position(line: nat, column: int)

  ghost predicate Occurs(lines: seq<seq<WChar>>, pattern: seq<WChar>, at: Position) {
    at.line < |lines| && MatchAt(lines[at.line], pattern, at.column)
  }

  ghost predicate Before(a: Position, b: Position) {
    a.line < b.line || (a.line == b.line && a.column < b.column)
  }

  // a comes no later than b in the direction of the search.
  ghost predicate Reached(forward: bool, a: Position, b: Position) {
    if forward then !Before(b, a) else !Before(a, b)
  }

  // The nearest occurrence from `from` on, in document order.
  ghost predicate IsNearest(
    lines: seq<seq<WChar>>, pattern: seq<WChar>, forward: bool, from: Position, r: Option<Position>) {
    match r
    case None => forall at | Reached(forward, from, at) :: !Occurs(lines, pattern, at)
    case Some(found) =>
      && Occurs(lines, pattern, found)
      && Reached(forward, from, found)
      && forall at | Reached(forward, from, at) && Occurs(lines, pattern, at) :: Reached(forward, found, at)
  }

  // The number of lines visited before `line` when the search wraps around after `start`.
  function VisitNumber(forward: bool, total: nat, start: nat, line: nat): int {
    if forward then if line > start then line - start else line - start + total
    else if line < start then start - line else start - line + total
  }

  ghost predicate IsFirstInLine(lines: seq<seq<WChar>>, pattern: seq<WChar>, forward: bool, at: Position) {
    && Occurs(lines, pattern, at)
    && forall c | MatchAt(lines[at.line], pattern, c) :: Reached(forward, at, Position(at.line, c))
  }

  // The first occurrence of the line in which the second phase of a wrapping search stops.
  ghost predicate StopsAt(lines: seq<seq<WChar>>, pattern: seq<WChar>, forward: bool, start: nat, at: Position) {
    && IsFirstInLine(lines, pattern, forward, at)
    && NoneBefore(lines, pattern, forward, start, VisitNumber(forward, |lines|, start, at.line))
  }

  // A wrapping search: the rest of the cursor's line, then every line, the cursor's own last.
  ghost predicate IsWrapResult(
    lines: seq<seq<WChar>>, pattern: seq<WChar>, forward: bool, cursor: Position, from: Position, r: Option<Position>)
    requires from.line == cursor.line < |lines|
  {
    if exists c :: MatchAt(lines[from.line], pattern, c) && Reached(forward, from, Position(from.line, c)) then
      && r.Some? && r.value.line == from.line
      && IsNearest(lines, pattern, forward, from, r)
    else
      match r
      case Some(at) => StopsAt(lines, pattern, forward, cursor.line, at) && !EndsAt(at, pattern, cursor)
      case None =>
        || (forall at :: !Occurs(lines, pattern, at))
        || (exists at :: StopsAt(lines, pattern, forward, cursor.line, at) && EndsAt(at, pattern, cursor))
  }

  ghost predicate IsResult(
    lines: seq<seq<WChar>>, pattern: seq<WChar>, forward: bool, wrap: bool, cursor: Position, from: Position,
    r: Option<Position>)
    requires from.line == cursor.line < |lines|
  {
    if wrap then IsWrapResult(lines, pattern, forward, cursor, from, r)
    else IsNearest(lines, pattern, forward, from, r)
  }

  // Where to look: with "next" strictly behind the start, or in front of it when searching backward;
  // otherwise at the start itself as well.
  ghost predicate LooksAt(next: bool, forward: bool, start: Position, at: Position) {
    if next then if forward then Before(start, at) else Before(at, start) else Reached(forward, start, at)
  }

  ghost predicate IsNearestTo(
    lines: seq<seq<WChar>>, pattern: seq<WChar>, next: bool, forward: bool, start: Position, r: Option<Position>) {
    match r
    case None => forall at | LooksAt(next, forward, start, at) :: !Occurs(lines, pattern, at)
    case Some(found) =>
      && Occurs(lines, pattern, found)
      && LooksAt(next, forward, start, found)
      && forall at | LooksAt(next, forward, start, at) && Occurs(lines, pattern, at) :: Reached(forward, found, at)
  }

  // Without wrapping, or with an occurrence to look at in the line of the start, the nearest of all.
  ghost predicate IsNextResult(
    lines: seq<seq<WChar>>, pattern: seq<WChar>, next: bool, forward: bool, wrap: bool, start: Position,
    r: Option<Position>) {
    || IsNearestTo(lines, pattern, next, forward, start, r)
    || (wrap && forall at: Position | at.line == start.line && LooksAt(next, forward, start, at) ::
          !Occurs(lines, pattern, at))
  }

  lemma MovedByOne(
    lines: seq<seq<WChar>>, pattern: seq<WChar>, next: bool, forward: bool, wrap: bool, cursor: Position,
    start: Position, from: Position, r: Option<Position>)
    requires from.line == start.line == cursor.line < |lines|
    requires from.column == if !next then start.column else if forward then start.column + 1 else start.column - 1
    requires IsResult(lines, pattern, forward, wrap, cursor, from, r)
    ensures IsNextResult(lines, pattern, next, forward, wrap, start, r)
  {
    assert forall at :: LooksAt(next, forward, start, at) <==> Reached(forward, from, at);
    if wrap && !IsNearest(lines, pattern, forward, from, r) {
      forall at: Position | at.line == start.line && LooksAt(next, forward, start, at)
        ensures !Occurs(lines, pattern, at)
      {
        assert at == Position(from.line, at.column);
      }
    }
  }

  // Without "next" an occurrence at the start itself is the answer.
  lemma StartIsFound(
    lines: seq<seq<WChar>>, pattern: seq<WChar>, forward: bool, wrap: bool, start: Position, r: Option<Position>)
    requires IsNextResult(lines, pattern, false, forward, wrap, start, r) && Occurs(lines, pattern, start)
    ensures r == Some(start)
  {
    assert LooksAt(false, forward, start, start);
    if r.Some? {
      assert Reached(forward, r.value, start) && Reached(forward, start, r.value);
    }
  }

  // With "next" the search leaves an occurrence at the start behind.
  lemma StartIsLeft(
    lines: seq<seq<WChar>>, pattern: seq<WChar>, forward: bool, start: Position, r: Option<Position>)
    requires IsNextResult(lines, pattern, true, forward, false, start, r)
    ensures r.Some? ==> if forward then Before(start, r.value) else Before(r.value, start)
    ensures r.None? <==> forall at | Occurs(lines, pattern, at) && at != start :: LooksAt(true, !forward, start, at)
  {
    forall at | at != start
      ensures LooksAt(true, !forward, start, at) <==> !LooksAt(true, forward, start, at)
    {
      assert at == Position(at.line, at.column) && start == Position(start.line, start.column);
    }
  }

  // The nearest occurrence in the line of `from`.
  ghost predicate IsNearestInLine(
    text: seq<WChar>, pattern: seq<WChar>, forward: bool, from: Position, r: Option<nat>) {
    match r
    case None => forall c | Reached(forward, from, Position(from.line, c)) :: !MatchAt(text, pattern, c)
    case Some(i) =>
      && MatchAt(text, pattern, i) && Reached(forward, from, Position(from.line, i))
      && forall c | Reached(forward, from, Position(from.line, c)) && MatchAt(text, pattern, c) ::
           Reached(forward, Position(from.line, i), Position(from.line, c))
  }

  // A match that starts no later than `column` ends no later than `end`.
  predicate MayEnd(column: int, n: nat, end: int, length: nat) {
    end == if column + n > length then length else column + n
  }

  // The result of the search in the lines other than the cursor's.
  ghost predicate IsLinesResult(
    lines: seq<seq<WChar>>, pattern: seq<WChar>, forward: bool, wrap: bool, cursor: Position, r: Option<Position>)
    requires cursor.line < |lines|
  {
    match r
    case Some(at) =>
      && StopsAt(lines, pattern, forward, cursor.line, at)
      && (wrap ==> !EndsAt(at, pattern, cursor))
      && (!wrap ==> if forward then cursor.line < at.line else at.line < cursor.line)
    case None =>
      || NoneBefore(lines, pattern, forward, cursor.line,
                    1 + if wrap then |lines| else if forward then |lines| - 1 - cursor.line else cursor.line)
      || (wrap && exists at :: StopsAt(lines, pattern, forward, cursor.line, at) && EndsAt(at, pattern, cursor))
  }

  ghost predicate EndsAt(at: Position, pattern: seq<WChar>, cursor: Position) {
    at.line == cursor.line && at.column + |pattern| == cursor.column
  }

  function FoldLines(fold: WChar -> WChar, lines: seq<seq<WChar>>): seq<seq<WChar>> {
    seq(|lines|, i requires 0 <= i < |lines| => FoldText(fold, lines[i]))
  }

  class Editor {
    const searcher: Searcher
    var lines: seq<seq<WChar>>
    var typed: seq<WChar>
    var cursor: Position
    var selectionStart: Option<nat>  // on the cursor's line
    var restartEOF: bool
    var notFound: bool

    ghost predicate Valid()
      reads this, searcher
    {
      && searcher.skip.Length == SKIP_SIZE
      && cursor.line < |lines|
      && cursor.column >= 0
    }

    constructor (searcher: Searcher, lines: seq<seq<WChar>>)
      requires searcher.skip.Length == SKIP_SIZE && lines != []
      ensures Valid() && this.searcher == searcher && this.lines == lines
    {
      this.searcher, this.lines := searcher, lines;
      typed, cursor, selectionStart, restartEOF, notFound := [], Position(0, 0), None, false, false;
    }

    function FoldedLines(): seq<seq<WChar>>
      reads this`lines, searcher`caseSensitive
    {
      FoldLines(searcher.Fold(), lines)
    }

    ghost predicate Prepared(forward: bool)
      reads searcher, searcher.skip
    {
      if forward then IsSkipTableL(searcher.skip[..], searcher.pattern)
      else IsSkipTableR(searcher.skip[..], searcher.pattern)
    }

    // Where the search starts: the selection or the cursor, moved by one for "next".
    function Origin(next: bool, forward: bool): Position
      reads this`cursor, this`selectionStart
    {
      var column := if selectionStart.Some? then selectionStart.value else cursor.column;
      Position(cursor.line, if !next then column else if forward then column + 1 else column - 1)
    }

    method SubString(forward: bool, text: seq<WChar>) returns (r: Option<nat>)
      requires searcher.pattern != []
      requires Prepared(forward)
      ensures if forward then IsLeftmost(searcher.Folded(text), searcher.pattern, r)
              else IsRightmost(searcher.Folded(text), searcher.pattern, r)
    {
      if forward {
        r := searcher.SubStringL(text);
      } else {
        r := searcher.SubStringR(text);
      }
    }

    // The search in the rest of the cursor's line.
    method FindInCurrentLine(next: bool, forward: bool) returns (r: Option<nat>)
      requires Valid() && searcher.pattern != []
      requires Prepared(forward)
      ensures IsNearestInLine(searcher.Folded(lines[cursor.line]), searcher.pattern, forward, Origin(next, forward), r)
    {
      var text, n := lines[cursor.line], |searcher.pattern|;
      var pos := if selectionStart.Some? then selectionStart.value else cursor.column;
      if next && forward {
        pos := pos + 1;
      } else if !forward {
        pos := pos + n;
        if next {
          pos := pos - 1;
        }
        if pos > |text| {
          pos := |text|;
        }
      }
      r := None;
      if |text| >= n && ((pos < |text| && forward) || (!forward && pos > 0)) {
        if forward {
          r := FindBehind(text, pos, cursor.line);
        } else {
          r := FindInFront(text, pos, cursor.line);
        }
      }
    }

    method FindBehind(text: seq<WChar>, pos: nat, ghost line: nat) returns (r: Option<nat>)
      requires pos <= |text| && searcher.pattern != [] && Prepared(true)
      ensures IsNearestInLine(searcher.Folded(text), searcher.pattern, true, Position(line, pos), r)
    {
      assert searcher.Folded(text[pos..]) == searcher.Folded(text)[pos..];
      SuffixMatches(searcher.Folded(text), searcher.Folded(text[pos..]), searcher.pattern, pos);
      r := searcher.SubStringL(text[pos..]);
      if r.Some? {
        r := Some(pos + r.value);
      }
    }

    method FindInFront(text: seq<WChar>, pos: nat, ghost line: nat) returns (r: Option<nat>)
      requires pos <= |text| && searcher.pattern != [] && Prepared(false)
      ensures forall from: Position | from.line == line && MayEnd(from.column, |searcher.pattern|, pos, |text|) ::
                IsNearestInLine(searcher.Folded(text), searcher.pattern, false, from, r)
    {
      assert searcher.Folded(text[..pos]) == searcher.Folded(text)[..pos];
      PrefixMatches(searcher.Folded(text), searcher.Folded(text[..pos]), searcher.pattern, pos);
      r := searcher.SubStringR(text[..pos]);
    }

    method NextLine(line: int, forward: bool) returns (next: int)
      requires 0 <= line < |lines|
      requires restartEOF || if forward then line + 1 < |lines| else line > 0
      ensures 0 <= next < |lines|
      ensures forall start | 0 <= start < |lines| ::
                VisitNumber(forward, |lines|, start, next) ==
                if line == start then 1 else VisitNumber(forward, |lines|, start, line) + 1
      ensures !restartEOF ==> next == if forward then line + 1 else line - 1
    {
      next := line;
      if forward {
        next := next + 1;
        if restartEOF && next == |lines| {
          next := 0;
        }
      } else {
        if restartEOF && next == 0 {
          next := |lines|;
        }
        next := next - 1;
      }
    }

    // The loop over the other lines; with restartEOF the cursor's line comes last. The user may stop
    // it during any visit.
    method FindInLines(forward: bool, stops: nat -> bool) returns (r: Option<Position>, stopped: bool)
      requires Valid() && searcher.pattern != []
      requires Prepared(forward)
      ensures stopped ==> r == None && exists k :: stops(k)
      ensures !stopped ==> IsLinesResult(FoldedLines(), searcher.pattern, forward, restartEOF, cursor, r)
    {
      var n := |searcher.pattern|;
      var line: int := cursor.line;
      var stopLine := if restartEOF then cursor.line else if forward then |lines| - 1 else 0;
      var startLoop := restartEOF;
      var visits := 0;
      ghost var total, folded, pattern := |lines|, FoldedLines(), searcher.pattern;
      while startLoop || line != stopLine
        invariant startLoop <==> restartEOF && visits == 0
        invariant Visiting(total, forward, restartEOF, cursor.line, line, visits)
        invariant NoneBefore(folded, pattern, forward, cursor.line, visits + 1)
        decreases total - visits
      {
        startLoop := false;
        line := NextLine(line, forward);
        visits := visits + 1;
        if stops(visits) {
          return None, true;
        }
        var p := FindInLine(line, forward, cursor.line);
        if p.Some? {
          var at := Position(line, p.value);
          if restartEOF && cursor.line == line && cursor.column == p.value + n {
            assert EndsAt(at, pattern, cursor);
            return None, false;
          }
          return Some(at), false;
        }
      }
      return None, false;
    }

    // One visit; nothing is found in an empty line.
    method FindInLine(line: nat, forward: bool, ghost start: nat) returns (p: Option<nat>)
      requires Valid() && searcher.pattern != [] && line < |lines| && start < |lines|
      requires Prepared(forward)
      requires NoneBefore(FoldedLines(), searcher.pattern, forward, start, VisitNumber(forward, |lines|, start, line))
      ensures p.Some? ==> StopsAt(FoldedLines(), searcher.pattern, forward, start, Position(line, p.value))
      ensures p.None? ==>
                NoneBefore(FoldedLines(), searcher.pattern, forward, start,
                           VisitNumber(forward, |lines|, start, line) + 1)
    {
      p := None;
      if |lines[line]| != 0 {
        p := SubString(forward, lines[line]);
        if p.Some? {
          StopsAtFirst(FoldedLines(), searcher.pattern, forward, start, Position(line, p.value), p);
          return;
        }
      }
      NothingInLine(FoldedLines(), searcher.pattern, forward, start, line);
    }

    // Both phases of the search.
    method FindNearest(next: bool, forward: bool, stops: nat -> bool) returns (r: Option<Position>, stopped: bool)
      requires Valid() && searcher.pattern != []
      requires Prepared(forward)
      ensures stopped ==> r == None && exists k :: stops(k)
      ensures !stopped ==>
                IsResult(FoldedLines(), searcher.pattern, forward, restartEOF, cursor, Origin(next, forward), r)
    {
      ghost var folded, pattern, from := FoldedLines(), searcher.pattern, Origin(next, forward);
      assert folded[cursor.line] == searcher.Folded(lines[cursor.line]);
      var p := FindInCurrentLine(next, forward);
      if p.Some? {
        InCurrentLine(folded, pattern, forward, restartEOF, cursor, from, p.value);
        return Some(Position(cursor.line, p.value)), false;
      }
      r, stopped := FindInLines(forward, stops);
      if !stopped {
        InOtherLines(folded, pattern, forward, restartEOF, cursor, from, r);
      }
    }

    // The same, as seen from the selection or the cursor.
    method FindNext(next: bool, forward: bool, stops: nat -> bool) returns (r: Option<Position>, stopped: bool)
      requires Valid() && searcher.pattern != []
      requires Prepared(forward)
      ensures stopped ==> r == None && exists k :: stops(k)
      ensures !stopped ==>
                IsResult(FoldedLines(), searcher.pattern, forward, restartEOF, cursor, Origin(next, forward), r)
      ensures !stopped ==>
                IsNextResult(FoldedLines(), searcher.pattern, next, forward, restartEOF,
                             Position(cursor.line,
                                      if selectionStart.Some? then selectionStart.value else cursor.column), r)
    {
      r, stopped := FindNearest(next, forward, stops);
      if !stopped {
        var start := Position(cursor.line, if selectionStart.Some? then selectionStart.value else cursor.column);
        MovedByOne(FoldedLines(), searcher.pattern, next, forward, restartEOF, cursor, start, Origin(next, forward), r);
      }
    }

    method SetPattern(pattern: seq<WChar>, forward: bool)
      requires Valid()
      modifies searcher`pattern, searcher.skip
      ensures searcher.pattern == pattern && Prepared(forward)
    {
      if forward {
        searcher.SetSubstringPatternL(pattern);
      } else {
        searcher.SetSubstringPatternR(pattern);
      }
    }

    // The pattern in upper case, and its skip table.
    method Prepare(forward: bool)
      requires Valid()
      modifies searcher`pattern, searcher.skip
      ensures Valid() && searcher.pattern == searcher.Folded(typed) && Prepared(forward)
      ensures FoldedLines() == old(FoldedLines())
    {
      SetPattern(searcher.Folded(typed), forward);
    }

    // Where the match is that the cursor is now behind.
    function Selected(found: bool): Option<Position>
      reads this`cursor, this`typed
    {
      if found then Some(Position(cursor.line, cursor.column - |typed|)) else None
    }

    // Selects what is found.
    method Select(next: bool, forward: bool, stops: nat -> bool) returns (found: bool, stopped: bool)
      requires Valid() && searcher.pattern != [] && |searcher.pattern| == |typed|
      requires Prepared(forward)
      modifies this`cursor, this`notFound
      ensures Valid()
      ensures stopped ==> !found && exists k :: stops(k)
      ensures !stopped ==>
                IsResult(FoldedLines(), searcher.pattern, forward, restartEOF, old(cursor), old(Origin(next, forward)),
                         Selected(found))
      ensures !stopped ==>
                IsNextResult(FoldedLines(), searcher.pattern, next, forward, restartEOF,
                             old(Position(cursor.line,
                                          if selectionStart.Some? then selectionStart.value else cursor.column)),
                             Selected(found))
      ensures !found ==> cursor == old(cursor)
      ensures notFound == (old(notFound) || (!found && !stopped))
    {
      var r;
      r, stopped := FindNext(next, forward, stops);
      found := r.Some?;
      if found {
        assert MatchAt(FoldedLines()[r.value.line], searcher.pattern, r.value.column);
        cursor := Position(r.value.line, r.value.column + |typed|);
        assert Selected(true) == r;
      } else if !stopped {
        notFound := true;
      }
    }

    // The typed string is not empty. The user may stop the search in the other lines.
    method FindString(next: bool, forward: bool, stops: nat -> bool) returns (found: bool, stopped: bool)
      requires Valid() && typed != []
      modifies this`cursor, this`notFound, searcher`pattern, searcher.skip
      ensures Valid() && searcher.pattern == searcher.Folded(typed)
      ensures stopped ==> !found && exists k :: stops(k)
      ensures !stopped ==>
                IsResult(old(FoldedLines()), searcher.pattern, forward, restartEOF, old(cursor),
                         old(Origin(next, forward)), Selected(found))
      ensures !stopped ==>
                IsNextResult(old(FoldedLines()), searcher.pattern, next, forward, restartEOF,
                             old(Position(cursor.line,
                                          if selectionStart.Some? then selectionStart.value else cursor.column)),
                             Selected(found))
      ensures !found ==> cursor == old(cursor)
      ensures notFound == (old(notFound) || (!found && !stopped))
    {
      Prepare(forward);
      found, stopped := Select(next, forward, stops);
    }
  }

  // Where the search is after some visits.
  ghost predicate Visiting(total: nat, forward: bool, wrap: bool, start: nat, line: int, visits: int) {
    && 0 <= line < total && 0 <= visits <= total
    && (if visits == 0 then line == start else visits == VisitNumber(forward, total, start, line))
    && (!wrap ==> line == if forward then start + visits else start - visits)
  }

  // No match in the lines visited before the given visit.
  ghost predicate NoneBefore(lines: seq<seq<WChar>>, pattern: seq<WChar>, forward: bool, start: nat, visits: int) {
    forall line | 0 <= line < |lines| && VisitNumber(forward, |lines|, start, line) < visits ::
      !HasMatch(lines[line], pattern)
  }

  lemma StopsAtFirst(
    lines: seq<seq<WChar>>, pattern: seq<WChar>, forward: bool, start: nat, at: Position, p: Option<nat>)
    requires at.line < |lines| && p == Some(at.column)
    requires if forward then IsLeftmost(lines[at.line], pattern, p) else IsRightmost(lines[at.line], pattern, p)
    requires NoneBefore(lines, pattern, forward, start, VisitNumber(forward, |lines|, start, at.line))
    ensures StopsAt(lines, pattern, forward, start, at)
  {
  }

  lemma NothingInLine(lines: seq<seq<WChar>>, pattern: seq<WChar>, forward: bool, start: nat, line: nat)
    requires start < |lines| && line < |lines| && pattern != []
    requires lines[line] == [] || forall c :: !MatchAt(lines[line], pattern, c)
    requires NoneBefore(lines, pattern, forward, start, VisitNumber(forward, |lines|, start, line))
    ensures NoneBefore(lines, pattern, forward, start, VisitNumber(forward, |lines|, start, line) + 1)
  {
    assert !HasMatch(lines[line], pattern);
  }

  // An occurrence in the cursor's line from `from` on is nearer than any in the other lines.
  lemma InCurrentLine(
    lines: seq<seq<WChar>>, pattern: seq<WChar>, forward: bool, wrap: bool, cursor: Position, from: Position,
    column: nat)
    requires from.line == cursor.line < |lines|
    requires IsNearestInLine(lines[from.line], pattern, forward, from, Some(column))
    ensures IsResult(lines, pattern, forward, wrap, cursor, from, Some(Position(from.line, column)))
  {
    var found := Position(from.line, column);
    forall at | Reached(forward, from, at) && Occurs(lines, pattern, at)
      ensures Reached(forward, found, at)
    {
      assert at == Position(at.line, at.column);
    }
    assert IsNearest(lines, pattern, forward, from, Some(found));
  }

  // Otherwise the answer is that of the search in the other lines.
  lemma InOtherLines(
    lines: seq<seq<WChar>>, pattern: seq<WChar>, forward: bool, wrap: bool, cursor: Position, from: Position,
    r: Option<Position>)
    requires from.line == cursor.line < |lines|
    requires IsNearestInLine(lines[from.line], pattern, forward, from, None)
    requires IsLinesResult(lines, pattern, forward, wrap, cursor, r)
    ensures IsResult(lines, pattern, forward, wrap, cursor, from, r)
  {
    if !wrap {
      BeyondCurrentLine(lines, pattern, forward, cursor, from, r);
    } else if r.None? && NoneBefore(lines, pattern, forward, cursor.line, 1 + |lines|) {
      forall at
        ensures !Occurs(lines, pattern, at)
      {
        assert at.line < |lines| ==> !HasMatch(lines[at.line], pattern);
      }
    }
  }

  lemma BeyondCurrentLine(
    lines: seq<seq<WChar>>, pattern: seq<WChar>, forward: bool, cursor: Position, from: Position, r: Option<Position>)
    requires from.line == cursor.line < |lines|
    requires IsNearestInLine(lines[from.line], pattern, forward, from, None)
    requires IsLinesResult(lines, pattern, forward, false, cursor, r)
    ensures IsNearest(lines, pattern, forward, from, r)
  {
    forall at | Reached(forward, from, at)
      ensures Occurs(lines, pattern, at) ==> r.Some? && Reached(forward, r.value, at)
    {
      assert at == Position(at.line, at.column);
      assert Occurs(lines, pattern, at) ==> HasMatch(lines[at.line], pattern);
    }
  }

  // The contract of the plain search leaves one answer.
  lemma NearestIsUnique(
    lines: seq<seq<WChar>>, pattern: seq<WChar>, forward: bool, from: Position, r: Option<Position>,
    s: Option<Position>)
    requires IsNearest(lines, pattern, forward, from, r) && IsNearest(lines, pattern, forward, from, s)
    ensures r == s
  {
    if r.Some? && s.Some? {
      assert Reached(forward, r.value, s.value) && Reached(forward, s.value, r.value);
    }
  }

  // So does the order in which a wrapping search visits the lines.
  lemma StopIsUnique(lines: seq<seq<WChar>>, pattern: seq<WChar>, forward: bool, start: nat, a: Position, b: Position)
    requires start < |lines| && StopsAt(lines, pattern, forward, start, a) && StopsAt(lines, pattern, forward, start, b)
    ensures a == b
  {
    assert HasMatch(lines[a.line], pattern) && HasMatch(lines[b.line], pattern);
    assert a.line == b.line;
    assert Reached(forward, a, Position(a.line, b.column)) && Reached(forward, b, Position(b.line, a.column));
  }

  // The contract of the wrapping search leaves one answer, too.
  lemma WrapResultIsUnique(
    lines: seq<seq<WChar>>, pattern: seq<WChar>, forward: bool, cursor: Position, from: Position,
    r: Option<Position>, s: Option<Position>)
    requires from.line == cursor.line < |lines|
    requires IsWrapResult(lines, pattern, forward, cursor, from, r) &&
             IsWrapResult(lines, pattern, forward, cursor, from, s)
    ensures r == s
  {
    if exists c :: MatchAt(lines[from.line], pattern, c) && Reached(forward, from, Position(from.line, c)) {
      NearestIsUnique(lines, pattern, forward, from, r, s);
    } else {
      forall a, b | StopsAt(lines, pattern, forward, cursor.line, a) && StopsAt(lines, pattern, forward, cursor.line, b)
        ensures a == b
      {
        StopIsUnique(lines, pattern, forward, cursor.line, a, b);
      }
    }
  }

  // With or without wrapping, one answer.
  lemma ResultIsUnique(
    lines: seq<seq<WChar>>, pattern: seq<WChar>, forward: bool, wrap: bool, cursor: Position, from: Position,
    r: Option<Position>, s: Option<Position>)
    requires from.line == cursor.line < |lines|
    requires IsResult(lines, pattern, forward, wrap, cursor, from, r) &&
             IsResult(lines, pattern, forward, wrap, cursor, from, s)
    ensures r == s
  {
    if wrap {
      WrapResultIsUnique(lines, pattern, forward, cursor, from, r, s);
    } else {
      NearestIsUnique(lines, pattern, forward, from, r, s);
    }
  }

  // When a wrapping search may answer with nothing although there are occurrences.
  ghost predicate AllAtCursor(
    lines: seq<seq<WChar>>, pattern: seq<WChar>, forward: bool, cursor: Position, from: Position) {
    && (forall at | Occurs(lines, pattern, at) :: at.line == cursor.line && !Reached(forward, from, at))
    && exists at :: IsFirstInLine(lines, pattern, forward, at) && EndsAt(at, pattern, cursor)
  }

  lemma NoneMeansAllAtCursor(
    lines: seq<seq<WChar>>, pattern: seq<WChar>, forward: bool, cursor: Position, from: Position)
    requires from.line == cursor.line < |lines| && exists at :: Occurs(lines, pattern, at)
    requires IsWrapResult(lines, pattern, forward, cursor, from, None)
    ensures AllAtCursor(lines, pattern, forward, cursor, from)
  {
    var stop :| StopsAt(lines, pattern, forward, cursor.line, stop) && EndsAt(stop, pattern, cursor);
    forall at | Occurs(lines, pattern, at)
      ensures at.line == cursor.line && !Reached(forward, from, at)
    {
      assert HasMatch(lines[at.line], pattern);
      assert at == Position(at.line, at.column);
    }
  }

  lemma AllAtCursorMeansNone(
    lines: seq<seq<WChar>>, pattern: seq<WChar>, forward: bool, cursor: Position, from: Position)
    requires from.line == cursor.line < |lines| && AllAtCursor(lines, pattern, forward, cursor, from)
    ensures IsWrapResult(lines, pattern, forward, cursor, from, None)
  {
    var start := cursor.line;
    var first :| IsFirstInLine(lines, pattern, forward, first) && EndsAt(first, pattern, cursor);
    forall line | 0 <= line < |lines| && line != start
      ensures !HasMatch(lines[line], pattern)
    {
      assert forall c :: MatchAt(lines[line], pattern, c) ==> Occurs(lines, pattern, Position(line, c));
    }
    assert StopsAt(lines, pattern, forward, start, first);
    assert forall c :: MatchAt(lines[start], pattern, c) ==> Occurs(lines, pattern, Position(start, c));
  }

  // The answer of a wrapping search on a document with occurrences is nothing exactly when they are
  // all in the cursor's line, none lies ahead there, and the first of the line ends at the cursor.
  lemma WrapFailsExactlyWhen(
    lines: seq<seq<WChar>>, pattern: seq<WChar>, forward: bool, cursor: Position, from: Position, r: Option<Position>)
    requires from.line == cursor.line < |lines| && exists at :: Occurs(lines, pattern, at)
    requires IsWrapResult(lines, pattern, forward, cursor, from, r)
    ensures r == None <==> AllAtCursor(lines, pattern, forward, cursor, from)
  {
    if r == None {
      NoneMeansAllAtCursor(lines, pattern, forward, cursor, from);
    } else if AllAtCursor(lines, pattern, forward, cursor, from) {
      AllAtCursorMeansNone(lines, pattern, forward, cursor, from);
      WrapResultIsUnique(lines, pattern, forward, cursor, from, r, None);
    }
  }

  // "aaa", looking for "aa" from a cursor in column 2: there is a match in column 1, and the answer is
  // nothing.
  lemma WrapMissesMatch(r: Option<Position>)
    requires IsWrapResult([[97, 97, 97]], [97, 97], true, Position(0, 2), Position(0, 2), r)
    ensures Occurs([[97, 97, 97]], [97, 97], Position(0, 1)) && r == None
  {
    var lines: seq<seq<WChar>>, pattern: seq<WChar> := [[97, 97, 97]], [97, 97];
    assert lines[0][0..2] == pattern && lines[0][1..3] == pattern;
    assert IsFirstInLine(lines, pattern, true, Position(0, 0));
    assert EndsAt(Position(0, 0), pattern, Position(0, 2));
    assert Occurs(lines, pattern, Position(0, 1));
    WrapFailsExactlyWhen(lines, pattern, true, Position(0, 2), Position(0, 2), r);
  }

  lemma SuffixMatches(text: seq<WChar>, suffix: seq<WChar>, pattern: seq<WChar>, pos: nat)
    requires pos <= |text| && suffix == text[pos..]
    ensures forall c: int :: MatchAt(suffix, pattern, c) ==> MatchAt(text, pattern, pos + c)
    ensures forall c: int :: c >= pos && MatchAt(text, pattern, c) ==> MatchAt(suffix, pattern, c - pos)
  {
    forall c: int
      ensures MatchAt(suffix, pattern, c) ==> MatchAt(text, pattern, pos + c)
    {
    }
    forall c: int | c >= pos && MatchAt(text, pattern, c)
      ensures MatchAt(suffix, pattern, c - pos)
    {
      assert suffix[c - pos..c - pos + |pattern|] == text[c..c + |pattern|];
    }
  }

  lemma PrefixMatches(text: seq<WChar>, prefix: seq<WChar>, pattern: seq<WChar>, pos: nat)
    requires pos <= |text| && prefix == text[..pos]
    ensures forall c: int :: MatchAt(prefix, pattern, c) <==> MatchAt(text, pattern, c) && c + |pattern| <= pos
  {
    forall c: int
      ensures MatchAt(prefix, pattern, c) <==> MatchAt(text, pattern, c) && c + |pattern| <= pos
    {
      if 0 <= c && c + |pattern| <= pos {
        assert prefix[c..c + |pattern|] == text[c..c + |pattern|];
      }
    }
  }
}
