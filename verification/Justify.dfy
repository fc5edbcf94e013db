/**
  Justification of one line (align/src/Align.cpp, JustifyString).
  */
module Justify {
  import opened Wrappers
  import opened Sequences

  const SPACE: char := ' '

  function Spaces(n: nat): (s: seq<char>)
    ensures |s| == n && forall i | 0 <= i < n :: s[i] == SPACE
  {
    seq(n, i => SPACE)
  }

  // A word is followed by a gap here.
  predicate GapAfter(s: seq<char>) {
    |s| >= 2 && s[0] != SPACE && s[1] == SPACE
  }

  function CountGaps(s: seq<char>): nat {
    if s == [] then 0 else (if GapAfter(s) then 1 else 0) + CountGaps(s[1..])
  }

  function TrimRight(s: seq<char>): (r: seq<char>)
    ensures |r| <= |s|
  {
    if s != [] && s[|s| - 1] == SPACE then TrimRight(s[..|s| - 1]) else s
  }

  // The line as a list of words and the gaps between them.
  datatype Line = Last(word: seq<char>) | More(word: seq<char>, gap: nat, rest: Line)

  ghost predicate IsWord(w: seq<char>) {
    w != [] && forall i | 0 <= i < |w| :: w[i] != SPACE
  }

  ghost predicate Proper(line: Line) {
    IsWord(line.word) && (line.More? ==> line.gap > 0 && Proper(line.rest))
  }

  function Render(line: Line): seq<char> {
    match line
    case Last(word) => word
    case More(word, gap, rest) => word + (Spaces(gap) + Render(rest))
  }

  function Words(line: Line): seq<seq<char>> {
    match line
    case Last(word) => [word]
    case More(word, _, rest) => [word] + Words(rest)
  }

  function Gaps(line: Line): seq<nat> {
    match line
    case Last(_) => []
    case More(_, gap, rest) => [gap] + Gaps(rest)
  }

  // ---------------------------------------------------------------------------------
  // What the loop does to the characters
  // ---------------------------------------------------------------------------------

  function Share(add: nat, rem: nat): nat {
    add + if rem > 0 then 1 else 0
  }

  function Less(rem: nat): nat {
    if rem > 0 then rem - 1 else 0
  }

  function Widen(s: seq<char>, add: nat, rem: nat): seq<char> {
    if s == [] then []
    else if GapAfter(s) then [s[0]] + (Spaces(Share(add, rem)) + Widen(s[1..], add, Less(rem)))
    else [s[0]] + Widen(s[1..], add, rem)
  }

  // The room that takes.
  function Need(s: seq<char>, add: nat, rem: nat): nat {
    if s == [] then 0
    else if GapAfter(s) then Share(add, rem) + Need(s[1..], add, Less(rem))
    else Need(s[1..], add, rem)
  }

  lemma {:induction false} NeedIsSlack(s: seq<char>, add: nat, rem: nat)
    requires rem <= CountGaps(s)
    ensures Need(s, add, rem) == CountGaps(s) * add + rem
  {
    if s != [] {
      NeedIsSlack(s[1..], add, if GapAfter(s) then Less(rem) else rem);
    }
  }

  lemma {:induction false} WidenedLength(s: seq<char>, add: nat, rem: nat)
    ensures |Widen(s, add, rem)| == |s| + Need(s, add, rem)
  {
    if s != [] {
      WidenedLength(s[1..], add, if GapAfter(s) then Less(rem) else rem);
    }
  }

  lemma SlackIsFilled(s: seq<char>, slack: nat)
    requires CountGaps(s) > 0
    ensures Need(s, slack / CountGaps(s), slack % CountGaps(s)) == slack
    ensures |Widen(s, slack / CountGaps(s), slack % CountGaps(s))| == |s| + slack
  {
    var n := CountGaps(s);
    var add, rem := slack / n, slack % n;
    Divided(slack, n);
    NeedIsSlack(s, add, rem);
    WidenedLength(s, add, rem);
  }

  lemma Divided(a: nat, n: nat)
    requires n > 0
    ensures n * (a / n) + a % n == a && a / n >= 0 && 0 <= a % n < n
  {
  }

  lemma {:induction false} NothingToAdd(s: seq<char>)
    ensures Widen(s, 0, 0) == s
  {
    if s != [] {
      NothingToAdd(s[1..]);
    }
  }

  // Spaces are passed by.
  lemma {:induction false} WidenSpaces(n: nat, s: seq<char>, add: nat, rem: nat)
    ensures Widen(Spaces(n) + s, add, rem) == Spaces(n) + Widen(s, add, rem)
    ensures Need(Spaces(n) + s, add, rem) == Need(s, add, rem)
    ensures CountGaps(Spaces(n) + s) == CountGaps(s)
  {
    var all := Spaces(n) + s;
    if n > 0 {
      WidenSpaces(n - 1, s, add, rem);
      assert all[1..] == Spaces(n - 1) + s;
      assert Spaces(n) == [SPACE] + Spaces(n - 1);
      assert !GapAfter(all);
    } else {
      assert all == s;
    }
  }

  function Filled(s: seq<char>, slack: nat): seq<char>
    requires CountGaps(s) > 0
  {
    Widen(s, slack / CountGaps(s), slack % CountGaps(s))
  }

  function Justification(text: seq<char>, rightMargin: nat): Option<seq<char>>
    requires |text| < rightMargin
  {
    var s := TrimRight(text);
    if CountGaps(s) == 0 then None else Some(Filled(s, rightMargin - |s|))
  }

  lemma {:induction false} TrimmedGaps(text: seq<char>)
    ensures var s := TrimRight(text);
            && |s| <= |text| && text == s + Spaces(|text| - |s|)
            && (s != [] ==> s[|s| - 1] != SPACE)
            && CountGaps(text) == CountGaps(s) + if s != [] && |s| < |text| then 1 else 0
  {
    if text != [] && text[|text| - 1] == SPACE {
      var shorter := text[..|text| - 1];
      TrimmedGaps(shorter);
      GapAtEnd(shorter);
      OneMore(TrimRight(shorter), |shorter| - |TrimRight(shorter)|);
    }
  }

  lemma OneMore(s: seq<char>, n: nat)
    ensures s + Spaces(n) + [SPACE] == s + Spaces(n + 1)
    ensures n > 0 ==> (s + Spaces(n))[|s| + n - 1] == SPACE
  {
  }

  lemma {:induction false} GapAtEnd(s: seq<char>)
    ensures CountGaps(s + [SPACE]) == CountGaps(s) + if s != [] && s[|s| - 1] != SPACE then 1 else 0
  {
    if |s| > 1 {
      GapAtEnd(s[1..]);
      assert (s + [SPACE])[1..] == s[1..] + [SPACE];
    } else {
      assert (s + [SPACE])[|s|..] == [SPACE];
      assert CountGaps([SPACE]) == 0;
      assert (s + [SPACE])[0..] == s + [SPACE];
    }
  }

  // How many gaps there are, from the ends of words.
  method CountWords(text: seq<char>) returns (wordCount: int)
    ensures wordCount <= 0 <==> CountGaps(TrimRight(text)) == 0
    ensures wordCount > 0 ==> wordCount == CountGaps(TrimRight(text))
  {
    wordCount := 0;
    var i := 0;
    while i < |text| - 1
      invariant 0 <= i <= |text|
      invariant text != [] ==> i < |text|
      invariant wordCount + CountGaps(text[i..]) == CountGaps(text)
    {
      assert text[i..][1..] == text[i + 1..];
      if text[i] != SPACE && text[i + 1] == SPACE {
        wordCount := wordCount + 1;
      }
      i := i + 1;
    }
    if |text| > 0 && text[|text| - 1] == SPACE {
      wordCount := wordCount - 1;
    }
    TrimmedGaps(text);
  }

  // Trailing spaces do not count.
  method Trim(text: seq<char>) returns (length: nat)
    ensures length <= |text| && text[..length] == TrimRight(text)
  {
    length := |text|;
    assert text[..length] == text;
    while length > 0 && text[length - 1] == SPACE
      invariant length <= |text| && TrimRight(text[..length]) == TrimRight(text)
    {
      assert text[..length][..length - 1] == text[..length - 1];
      length := length - 1;
    }
  }

  // The characters from `at` on move to the right, and spaces fill the hole.
  method InsertSpaces(a: array<char>, at: nat, count: nat, ghost whole: seq<char>)
    requires at + count <= a.Length && whole == a[..]
    modifies a
    ensures a[..] == whole[..at] + Spaces(count) + whole[at..|whole| - count]
  {
    forall j | at + count <= j < a.Length {
      a[j] := a[j - count];
    }
    var moveSize := count;
    while moveSize > 0
      invariant 0 <= moveSize <= count
      invariant forall j | 0 <= j < at :: a[j] == whole[j]
      invariant forall j | at + moveSize <= j < at + count :: a[j] == SPACE
      invariant forall j | at + count <= j < a.Length :: a[j] == whole[j - count]
    {
      moveSize := moveSize - 1;
      a[at + moveSize] := SPACE;
    }
  }

  // What is left of the line and the padding behind it, from position i on.
  ghost predicate Ahead(whole: seq<char>, i: nat, rest: seq<char>, add: nat, rem: nat, target: seq<char>) {
    && i < |whole|
    && rest != [] && rest[|rest| - 1] != SPACE
    && whole[i..] == rest + Spaces(Need(rest, add, rem))
    && target == whole[..i] + Widen(rest, add, rem)
  }

  lemma PassCharacter(whole: seq<char>, i: nat, rest: seq<char>, add: nat, rem: nat, target: seq<char>)
    requires Ahead(whole, i, rest, add, rem, target) && i < |whole| - 1
    requires whole[i] == SPACE || whole[i + 1] != SPACE
    ensures Ahead(whole, i + 1, rest[1..], add, rem, target)
  {
    assert whole[i] == whole[i..][0] && whole[i + 1] == whole[i..][1];
    assert |rest| == 1 ==> Need(rest, add, rem) == 0;
    assert !GapAfter(rest);
    DropDrop(whole, i, 1);
    TailOfSum(rest, Spaces(Need(rest, add, rem)));
    Associate3(whole[..i], [rest[0]], Widen(rest[1..], add, rem));
    assert whole[..i + 1] == whole[..i] + [rest[0]];
  }

  lemma Started(whole: seq<char>, rest: seq<char>, add: nat, rem: nat)
    requires rest != [] && rest[|rest| - 1] != SPACE && whole == rest + Spaces(Need(rest, add, rem))
    ensures Ahead(whole, 0, rest, add, rem, Widen(rest, add, rem))
  {
    assert whole[0..] == whole;
  }

  lemma Finished(whole: seq<char>, i: nat, rest: seq<char>, add: nat, rem: nat, target: seq<char>)
    requires Ahead(whole, i, rest, add, rem, target) && i == |whole| - 1
    ensures whole == target
  {
    assert |whole[i..]| == 1 == |rest|;
    assert Widen(rest, add, rem) == rest;
    SplitDrop(whole, 0, i);
    assert whole[0..] == whole && whole[0..i] == whole[..i];
  }

  // There is a gap here, not the padding behind the last word.
  lemma AtGap(whole: seq<char>, i: nat, rest: seq<char>, add: nat, rem: nat, target: seq<char>)
    requires Ahead(whole, i, rest, add, rem, target) && i < |whole| - 1
    requires whole[i] != SPACE && whole[i + 1] == SPACE
    ensures GapAfter(rest) && i + 1 + Share(add, rem) <= |whole|
    ensures Share(add, rem) == 0 ==> whole == target
  {
    assert whole[i] == whole[i..][0] && whole[i + 1] == whole[i..][1];
    assert |rest| == 1 ==> Need(rest, add, rem) == 0;
    if Share(add, rem) == 0 {
      NeedIsSlack(rest, 0, 0);
      NothingToAdd(rest);
      assert whole == whole[..i] + whole[i..];
    }
  }

  lemma WidenGap(whole: seq<char>, i: nat, rest: seq<char>, add: nat, rem: nat, target: seq<char>, next: seq<char>)
    requires Ahead(whole, i, rest, add, rem, target) && i < |whole| - 1 && GapAfter(rest)
    requires var m := Share(add, rem);
             i + 1 + m <= |whole| && next == whole[..i + 1] + Spaces(m) + whole[i + 1..|whole| - m]
    ensures Ahead(next, i + 1, Spaces(Share(add, rem)) + rest[1..], add, Less(rem), target)
  {
    var m, need := Share(add, rem), Need(rest[1..], add, Less(rem));
    WidenSpaces(m, rest[1..], add, Less(rem));
    assert whole[i] == whole[i..][0];
    DropDrop(whole, i, 1);
    TailOfSum(rest, Spaces(m + need));
    ShortenPadding(whole, i + 1, rest[1..], m, need);
    Associate3(Spaces(m), rest[1..], Spaces(need));
    assert next[i + 1..] == Spaces(m) + (rest[1..] + Spaces(need));
    Associate4(whole[..i], [rest[0]], Spaces(m), Widen(rest[1..], add, Less(rem)));
    assert next[..i + 1] == whole[..i] + [rest[0]];
  }

  lemma ShortenPadding(whole: seq<char>, at: nat, s: seq<char>, m: nat, n: nat)
    requires at <= |whole| && whole[at..] == s + Spaces(m + n)
    ensures at <= |whole| - m && whole[at..|whole| - m] == s + Spaces(n)
  {
    assert |s| + n == |whole| - m - at;
    TakeDrop(whole, at, |s| + n);
  }

  // Widens one gap after the other, from the left.
  method Spread(text: seq<char>, length: nat, add: nat, rem: nat, newString: array<char>)
    requires 0 < length <= |text| && text[length - 1] != SPACE
    requires newString.Length == length + Need(text[..length], add, rem)
    modifies newString
    ensures newString[..] == Widen(text[..length], add, rem)
  {
    ghost var target, rest := Widen(text[..length], add, rem), text[..length];
    Pad(text, length, newString);
    Started(newString[..], rest, add, rem);
    var reminder, i := rem, 0;
    while i < newString.Length - 1
      invariant Ahead(newString[..], i, rest, add, reminder, target)
    {
      if newString[i] != SPACE && newString[i + 1] == SPACE {
        var filled;
        filled, reminder, rest := WidenHere(newString, i, add, reminder, rest, target);
        if filled {
          return;
        }
      } else {
        PassCharacter(newString[..], i, rest, add, reminder, target);
        rest := rest[1..];
      }
      i := i + 1;
    }
    Finished(newString[..], i, rest, add, reminder, target);
  }

  // Widens the gap behind position i, unless there is nothing left to add.
  method WidenHere(
    newString: array<char>, i: nat, add: nat, reminder: nat, ghost rest: seq<char>, ghost target: seq<char>)
    returns (filled: bool, left: nat, ghost next: seq<char>)
    requires Ahead(newString[..], i, rest, add, reminder, target) && i < newString.Length - 1
    requires newString[i] != SPACE && newString[i + 1] == SPACE
    modifies newString
    ensures if filled then newString[..] == target else Ahead(newString[..], i + 1, next, add, left, target)
  {
    ghost var whole := newString[..];
    AtGap(whole, i, rest, add, reminder, target);
    var moveSize := add;
    left, next := reminder, rest;
    if left > 0 {
      moveSize := moveSize + 1;
      left := left - 1;
    }
    filled := moveSize == 0;
    if !filled {
      InsertSpaces(newString, i + 1, moveSize, whole);
      WidenGap(whole, i, rest, add, reminder, target, newString[..]);
      next := Spaces(moveSize) + rest[1..];
    }
  }

  // malloc, memset and memcpy.
  method Pad(text: seq<char>, length: nat, newString: array<char>)
    requires length <= |text| && length <= newString.Length
    modifies newString
    ensures newString[..] == text[..length] + Spaces(newString.Length - length)
  {
    forall j | 0 <= j < newString.Length {
      newString[j] := if j < length then text[j] else SPACE;
    }
  }

  method JustifyString(text: seq<char>, rightMargin: nat) returns (r: Option<seq<char>>)
    requires |text| < rightMargin
    ensures r == Justification(text, rightMargin)
  {
    TrimmedGaps(text);
    var wordCount := CountWords(text);
    if wordCount <= 0 {
      return None;
    }
    var length := Trim(text);
    var newString := new char[rightMargin];
    Fill(text, length, wordCount, newString);
    return Some(newString[..]);
  }

  // Shares the slack out.
  method Fill(text: seq<char>, length: nat, wordCount: nat, newString: array<char>)
    requires 0 < length <= |text| && length <= newString.Length && text[length - 1] != SPACE
    requires wordCount == CountGaps(text[..length]) > 0
    modifies newString
    ensures newString[..] == Filled(text[..length], newString.Length - length)
  {
    var totalAddSize := newString.Length - length;
    var addSize, reminder := totalAddSize / wordCount, totalAddSize % wordCount;
    SlackIsFilled(text[..length], totalAddSize);
    Spread(text, length, addSize, reminder, newString);
  }

  // ---------------------------------------------------------------------------------
  // What that makes of words and gaps
  // ---------------------------------------------------------------------------------

  function Distribute(line: Line, add: nat, rem: nat): Line {
    match line
    case Last(word) => line
    case More(word, gap, rest) => More(word, gap + Share(add, rem), Distribute(rest, add, Less(rem)))
  }

  // What is behind a word.
  function Behind(s: seq<char>, add: nat, rem: nat): seq<char> {
    if s == [] then [] else Spaces(Share(add, rem)) + Widen(s, add, Less(rem))
  }

  lemma {:induction false} WidenWord(w: seq<char>, s: seq<char>, add: nat, rem: nat)
    requires IsWord(w) && (s != [] ==> s[0] == SPACE)
    ensures CountGaps(w + s) == (if s == [] then 0 else 1) + CountGaps(s)
    ensures Widen(w + s, add, rem) == w + Behind(s, add, rem)
  {
    TailOfSum(w, s);
    HeadOfSum(w, Behind(s, add, rem));
    if |w| > 1 {
      assert !GapAfter(w + s);
      WidenWord(w[1..], s, add, rem);
    } else {
      assert w[1..] + s == s && w[1..] + Behind(s, add, rem) == Behind(s, add, rem);
      assert GapAfter(w + s) <==> s != [];
    }
  }

  lemma MoreSpaces(m: nat, n: nat, s: seq<char>)
    ensures Spaces(m) + (Spaces(n) + s) == Spaces(n + m) + s
  {
  }

  lemma {:induction false} WidenLine(line: Line, add: nat, rem: nat)
    requires Proper(line)
    ensures Widen(Render(line), add, rem) == Render(Distribute(line, add, rem))
    ensures CountGaps(Render(line)) == |Gaps(line)|
  {
    match line
    case Last(word) =>
      WidenWord(word, [], add, rem);
      assert word + [] == word;
    case More(word, gap, rest) =>
      WidenGapAndRest(word, gap, Render(rest), add, rem);
      WidenLine(rest, add, Less(rem));
      var wider := Distribute(line, add, rem);
      assert Render(wider) == word + (Spaces(wider.gap) + Render(wider.rest));
  }

  lemma WidenGapAndRest(word: seq<char>, gap: nat, rest: seq<char>, add: nat, rem: nat)
    requires IsWord(word) && gap > 0
    ensures Widen(word + (Spaces(gap) + rest), add, rem) ==
            word + (Spaces(gap + Share(add, rem)) + Widen(rest, add, Less(rem)))
    ensures CountGaps(word + (Spaces(gap) + rest)) == 1 + CountGaps(rest)
  {
    var s := Spaces(gap) + rest;
    WidenWord(word, s, add, rem);
    WidenSpaces(gap, rest, add, Less(rem));
    MoreSpaces(Share(add, rem), gap, Widen(rest, add, Less(rem)));
  }

  // The same words; every gap is wider by `add`, and the first `rem` gaps by one more.
  ghost predicate WiderBy(line: Line, wider: Line, add: nat, rem: nat) {
    && Words(wider) == Words(line)
    && |Gaps(wider)| == |Gaps(line)|
    && forall k | 0 <= k < |Gaps(line)| :: Gaps(wider)[k] == Gaps(line)[k] + add + if k < rem then 1 else 0
  }

  lemma {:induction false} DistributeIsEven(line: Line, add: nat, rem: nat)
    ensures WiderBy(line, Distribute(line, add, rem), add, rem)
  {
    if line.More? {
      DistributeIsEven(line.rest, add, Less(rem));
    }
  }

  lemma {:induction false} EndsInWord(line: Line)
    requires Proper(line)
    ensures Render(line) != [] && Render(line)[|Render(line)| - 1] != SPACE
  {
    if line.More? {
      EndsInWord(line.rest);
    }
  }

  lemma {:induction false} TrimPadded(s: seq<char>, n: nat)
    requires s != [] ==> s[|s| - 1] != SPACE
    ensures TrimRight(s + Spaces(n)) == s
  {
    if n > 0 {
      TrimPadded(s, n - 1);
      assert (s + Spaces(n))[..|s| + n - 1] == s + Spaces(n - 1);
    } else {
      assert s + Spaces(0) == s;
    }
  }

  // A line of several words is filled up to the margin: same indent, same words, each gap wider
  // by the same amount or, for the first ones, by one more.
  lemma LineIsJustified(indent: nat, line: Line, trailing: nat, rightMargin: nat) returns (wider: Line)
    requires Proper(line) && line.More?
    requires |Spaces(indent) + Render(line) + Spaces(trailing)| < rightMargin
    ensures Justification(Spaces(indent) + Render(line) + Spaces(trailing), rightMargin) ==
            Some(Spaces(indent) + Render(wider))
    ensures indent + |Render(wider)| == rightMargin
    ensures var slack := rightMargin - indent - |Render(line)|;
            WiderBy(line, wider, slack / |Gaps(line)|, slack % |Gaps(line)|)
  {
    var s := Spaces(indent) + Render(line);
    var n, slack := |Gaps(line)|, rightMargin - |s|;
    var add, rem := slack / n, slack % n;
    wider := Distribute(line, add, rem);
    SameGaps(indent, line, trailing);
    SlackIsFilled(s, slack);
    WidenIndented(indent, line, add, rem);
    DistributeIsEven(line, add, rem);
  }

  lemma SameGaps(indent: nat, line: Line, trailing: nat)
    requires Proper(line)
    ensures var s := Spaces(indent) + Render(line); TrimRight(s + Spaces(trailing)) == s && CountGaps(s) == |Gaps(line)|
  {
    EndsInWord(line);
    TrimPadded(Spaces(indent) + Render(line), trailing);
    WidenLine(line, 0, 0);
    WidenSpaces(indent, Render(line), 0, 0);
  }

  lemma WidenIndented(indent: nat, line: Line, add: nat, rem: nat)
    requires Proper(line)
    ensures Widen(Spaces(indent) + Render(line), add, rem) == Spaces(indent) + Render(Distribute(line, add, rem))
  {
    WidenSpaces(indent, Render(line), add, rem);
    WidenLine(line, add, rem);
  }

  // A line without a gap between words is left alone.
  lemma OneWordIsLeftAlone(indent: nat, word: seq<char>, trailing: nat, rightMargin: nat)
    requires IsWord(word) || (word == [] && indent == 0)
    requires |Spaces(indent) + word + Spaces(trailing)| < rightMargin
    ensures Justification(Spaces(indent) + word + Spaces(trailing), rightMargin) == None
  {
    TrimPadded(Spaces(indent) + word, trailing);
    WidenSpaces(indent, word, 0, 0);
    if word != [] {
      WidenLine(Last(word), 0, 0);
    }
  }

  // Every text is one of these: blank, or an indent, a list of words and trailing spaces.
  lemma {:induction false} EveryTextIsALine(text: seq<char>) returns (indent: nat, line: Option<Line>, trailing: nat)
    ensures line == None ==> text == Spaces(trailing)
    ensures line.Some? ==> Proper(line.value) && text == Spaces(indent) + Render(line.value) + Spaces(trailing)
  {
    if text == [] {
      return 0, None, 0;
    }
    indent, line, trailing := EveryTextIsALine(text[1..]);
    var c := text[0];
    assert text == [c] + text[1..];
    match line
    case None =>
      if c == SPACE {
        trailing := trailing + 1;
      } else {
        indent, line := 0, Some(Last([c]));
        assert text == Spaces(0) + [c] + Spaces(trailing);
      }
    case Some(l) =>
      if c == SPACE {
        indent := indent + 1;
      } else {
        ghost var first := if indent > 0 then More([c], indent, l)
          else match l case Last(w) => Last([c] + w) case More(w, g, r) => More([c] + w, g, r);
        FirstCharacter(c, indent, l, first);
        assert text == Spaces(0) + Render(first) + Spaces(trailing);
        indent, line := 0, Some(first);
      }
  }

  lemma FirstCharacter(c: char, indent: nat, l: Line, first: Line)
    requires c != SPACE && Proper(l)
    requires first == if indent > 0 then More([c], indent, l)
                      else match l case Last(w) => Last([c] + w) case More(w, g, r) => More([c] + w, g, r)
    ensures Proper(first) && Render(first) == [c] + (Spaces(indent) + Render(l))
  {
    if indent == 0 {
      assert Spaces(0) + Render(l) == Render(l);
      if l.More? {
        Associate3([c], l.word, Spaces(l.gap) + Render(l.rest));
      }
    }
  }
}
