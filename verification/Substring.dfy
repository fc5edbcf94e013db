/**
  Substring search of the incremental search plugin (incsrch/loc.c).

  A skip table indexed by the low 16 bits of a character drives a search from the left
  (SubStringL) and one from the right (SubStringR). Characters that share their low 16 bits
  share an entry.
  */
module Substring {
  import opened Characters
  import opened Wrappers

  const SKIP_SIZE := 0x1_0000

  // The cast to unsigned short.
  function Truncate(c: WChar): (k: nat)
    ensures k < SKIP_SIZE
  {
    c % SKIP_SIZE
  }

  function FoldText(fold: WChar -> WChar, text: seq<WChar>): seq<WChar> {
    seq(|text|, i requires 0 <= i < |text| => fold(text[i]))
  }

  ghost predicate MatchAt(text: seq<WChar>, pattern: seq<WChar>, start: int) {
    0 <= start <= |text| - |pattern| && text[start..start + |pattern|] == pattern
  }

  ghost predicate HasMatch(text: seq<WChar>, pattern: seq<WChar>) {
    exists start :: MatchAt(text, pattern, start)
  }

  // The leftmost match, or none when there is no match at all.
  ghost predicate IsLeftmost(text: seq<WChar>, pattern: seq<WChar>, r: Option<nat>) {
    match r
    case None => forall start :: !MatchAt(text, pattern, start)
    case Some(i) => MatchAt(text, pattern, i) && forall start | start < i :: !MatchAt(text, pattern, start)
  }

  ghost predicate IsRightmost(text: seq<WChar>, pattern: seq<WChar>, r: Option<nat>) {
    match r
    case None => forall start :: !MatchAt(text, pattern, start)
    case Some(i) => MatchAt(text, pattern, i) && forall start | start > i :: !MatchAt(text, pattern, start)
  }

  // The distance from the end of the pattern to the last character with low bits k among the
  // first `upTo` characters, or the length of the pattern when there is none.
  ghost predicate IsSkipL(distance: nat, k: nat, pattern: seq<WChar>, upTo: nat)
    requires upTo <= |pattern|
  {
    var n := |pattern|;
    && distance <= n
    && (distance < n ==> n - 1 - distance < upTo && Truncate(pattern[n - 1 - distance]) == k)
    && forall i | n - 1 - distance < i < upTo :: Truncate(pattern[i]) != k
  }

  // The index of the first character with low bits k from index `from` on.
  ghost predicate IsSkipR(distance: nat, k: nat, pattern: seq<WChar>, from: nat)
    requires from <= |pattern|
  {
    && distance <= |pattern|
    && (distance < |pattern| ==> from <= distance && Truncate(pattern[distance]) == k)
    && forall i | from <= i < distance :: Truncate(pattern[i]) != k
  }

  ghost predicate IsSkipTableL(skip: seq<nat>, pattern: seq<WChar>) {
    |skip| == SKIP_SIZE && forall k | 0 <= k < SKIP_SIZE :: IsSkipL(skip[k], k, pattern, |pattern|)
  }

  ghost predicate IsSkipTableR(skip: seq<nat>, pattern: seq<WChar>) {
    |skip| == SKIP_SIZE && forall k | 0 <= k < SKIP_SIZE :: IsSkipR(skip[k], k, pattern, 0)
  }

  // The globals of loc.c.
  class Searcher {
    var pattern: seq<WChar>
    const skip: array<nat>
    var caseSensitive: bool
    const upper: WChar -> WChar

    constructor (upper: WChar -> WChar)
      ensures this.upper == upper && fresh(skip) && skip.Length == SKIP_SIZE
    {
      pattern, caseSensitive := [], false;
      skip := new nat[SKIP_SIZE](_ => 0);
      this.upper := upper;
    }

    function Fold(): WChar -> WChar
      reads this`caseSensitive
    {
      if caseSensitive then c => c else upper
    }

    function Folded(text: seq<WChar>): (r: seq<WChar>)
      reads this`caseSensitive
      ensures |r| == |text| && forall i | 0 <= i < |r| :: r[i] == if caseSensitive then text[i] else upper(text[i])
    {
      FoldText(Fold(), text)
    }

    method PreInitSkipTable(newPattern: seq<WChar>)
      requires skip.Length == SKIP_SIZE
      modifies this`pattern, skip
      ensures pattern == newPattern
      ensures forall k | 0 <= k < SKIP_SIZE :: skip[k] == |newPattern|
    {
      var s := SKIP_SIZE - 1;
      pattern := newPattern;
      skip[s] := |newPattern|;
      while s > 0
        invariant 0 <= s < SKIP_SIZE
        invariant forall k | s <= k < SKIP_SIZE :: skip[k] == |newPattern|
        invariant pattern == newPattern
      {
        s := s - 1;
        skip[s] := |newPattern|;
      }
    }

    method SetSubstringPatternL(newPattern: seq<WChar>)
      requires skip.Length == SKIP_SIZE
      modifies this`pattern, skip
      ensures pattern == newPattern
      ensures IsSkipTableL(skip[..], newPattern)
    {
      PreInitSkipTable(newPattern);
      var n := |newPattern|;
      var i := 0;
      while i < n
        invariant 0 <= i <= n
        invariant pattern == newPattern
        invariant forall k | 0 <= k < SKIP_SIZE :: IsSkipL(skip[k], k, newPattern, i)
      {
        skip[Truncate(pattern[i])] := n - 1 - i;
        i := i + 1;
      }
    }

    method SetSubstringPatternR(newPattern: seq<WChar>)
      requires skip.Length == SKIP_SIZE
      modifies this`pattern, skip
      ensures pattern == newPattern
      ensures IsSkipTableR(skip[..], newPattern)
    {
      PreInitSkipTable(newPattern);
      var n := |newPattern|;
      var i := n;
      while i > 0
        invariant 0 <= i <= n
        invariant pattern == newPattern
        invariant forall k | 0 <= k < SKIP_SIZE :: IsSkipR(skip[k], k, newPattern, i)
      {
        i := i - 1;
        skip[Truncate(pattern[i])] := i;
      }
    }

    // The position of the leftmost match of the pattern in the folded text.
    method SubStringL(text: seq<WChar>) returns (r: Option<nat>)
      requires IsSkipTableL(skip[..], pattern)
      ensures IsLeftmost(Folded(text), pattern, r)
    {
      var n, length := |pattern|, |text|;
      ghost var folded := Folded(text);
      if n == 0 {
        return Some(0);
      }
      if n > length {
        return None;
      }
      var p, t := n - 1, n - 1;
      while true
        invariant 0 <= p < n && p <= t && t - p <= length - n
        invariant folded[t + 1..t - p + n] == pattern[p + 1..]
        invariant forall start | start < t - p :: !MatchAt(folded, pattern, start)
        decreases length - (t - p), p
      {
        var c := Fold()(text[t]);
        if c == pattern[p] {
          assert folded[t..t - p + n] == [c] + folded[t + 1..t - p + n];
          if p == 0 {
            return Some(t);
          }
          t, p := t - 1, p - 1;
        } else {
          var step := n - p;
          if step < skip[Truncate(c)] {
            step := skip[Truncate(c)];
          }
          NoMatchBeforeStepL(folded, pattern, t, p, skip[Truncate(c)]);
          if t + step >= length {
            return None;
          }
          t, p := t + step, n - 1;
        }
      }
    }

    // The position of the rightmost match; the empty pattern is found at the start.
    method SubStringR(text: seq<WChar>) returns (r: Option<nat>)
      requires IsSkipTableR(skip[..], pattern)
      ensures if pattern == [] then r == Some(0) else IsRightmost(Folded(text), pattern, r)
    {
      var n, length := |pattern|, |text|;
      ghost var folded := Folded(text);
      if n == 0 {
        return Some(0);
      }
      if n > length {
        return None;
      }
      var p, t := 0, length - n;
      while true
        invariant 0 <= p < n && p <= t && t - p <= length - n
        invariant folded[t - p..t] == pattern[..p]
        invariant forall start | start > t - p :: !MatchAt(folded, pattern, start)
        decreases t - p, n - p
      {
        var c := Fold()(text[t]);
        if c == pattern[p] {
          assert folded[t - p..t + 1] == folded[t - p..t] + [c];
          if p == n - 1 {
            return Some(t - n + 1);
          }
          t, p := t + 1, p + 1;
        } else {
          var step := p + 1;
          if step < skip[Truncate(c)] {
            step := skip[Truncate(c)];
          }
          NoMatchBeforeStepR(folded, pattern, t, p, skip[Truncate(c)]);
          if t < step {
            return None;
          }
          t, p := t - step, 0;
        }
      }
    }
  }

  // After a mismatch of text[t] with pattern[p] no match starts before the new window.
  lemma NoMatchBeforeStepL(text: seq<WChar>, pattern: seq<WChar>, t: nat, p: nat, distance: nat)
    requires p < |pattern| && p <= t < |text| && text[t] != pattern[p]
    requires IsSkipL(distance, Truncate(text[t]), pattern, |pattern|)
    ensures var step := if |pattern| - p < distance then distance else |pattern| - p;
            forall start | t - p <= start <= t + step - |pattern| :: !MatchAt(text, pattern, start)
  {
    var step := if |pattern| - p < distance then distance else |pattern| - p;
    forall start | t - p <= start <= t + step - |pattern|
      ensures !MatchAt(text, pattern, start)
    {
      assert 0 <= start <= |text| - |pattern| ==> text[start..start + |pattern|][t - start] == text[t];
    }
  }

  lemma NoMatchBeforeStepR(text: seq<WChar>, pattern: seq<WChar>, t: nat, p: nat, distance: nat)
    requires p < |pattern| && p <= t < |text| && text[t] != pattern[p]
    requires IsSkipR(distance, Truncate(text[t]), pattern, 0)
    ensures var step := if p + 1 < distance then distance else p + 1;
            forall start | t - step < start <= t - p :: !MatchAt(text, pattern, start)
  {
    var step := if p + 1 < distance then distance else p + 1;
    forall start | t - step < start <= t - p
      ensures !MatchAt(text, pattern, start)
    {
      assert 0 <= start <= |text| - |pattern| ==> text[start..start + |pattern|][t - start] == text[t];
    }
  }
}
