/**
  Comparison of strings by weight (WinPort/wineguts/sortkey.c, compare_weights).

  The decomposition, the weights and the class of symbols are parameters. A string is
  compared as the stream of its decomposed characters.
  */
module Collation {
  import opened Characters

  const HYPHEN: WChar := 0x2D
  const APOSTROPHE: WChar := 0x27

  // What the comparison looks up for a character.
  datatype Alphabet = Alphabet(
    decompose: WChar -> seq<WChar>,  // wine_decompose
    weight: WChar -> nat,            // eval_weight
    symbol: WChar -> bool)           // punctuation or space

  // NORM_IGNORESYMBOLS, SORT_STRINGSORT, NORM_STOP_ON_NULL
  datatype Flags = Flags(ignoreSymbols: bool, stringSort: bool, stopOnNull: bool)

  // No decomposition is empty or larger than 4 characters.
  ghost predicate ValidAlphabet(t: Alphabet) {
    forall c :: 1 <= |t.decompose(c)| <= 4
  }

  predicate IsHyphen(c: WChar) {
    c == HYPHEN || c == APOSTROPHE
  }

  // ---------------------------------------------------------------------------------
  // The comparison of two streams of decomposed characters
  // ---------------------------------------------------------------------------------

  function StreamFrom(t: Alphabet, f: Flags, str: seq<WChar>, i: nat): seq<WChar>
    requires i <= |str|
    decreases |str| - i
  {
    if i == |str| || (f.stopOnNull && str[i] == 0) then [] else t.decompose(str[i]) + StreamFrom(t, f, str, i + 1)
  }

  predicate HasWeight(w: WChar -> nat, u: seq<WChar>) {
    u != [] && (w(u[0]) != 0 || HasWeight(w, u[1..]))
  }

  function Sign(a: bool, b: bool): int {
    (if a then 1 else 0) - (if b then 1 else 0)
  }

  // Which of two current characters are left behind; none when their weights decide.
  function Skip(f: Flags, w: WChar -> nat, symbol: WChar -> bool, a: WChar, b: WChar): (bool, bool) {
    if f.ignoreSymbols && (symbol(a) || symbol(b)) then (symbol(a), symbol(b))
    else if !f.stringSort && IsHyphen(a) != IsHyphen(b) then (IsHyphen(a), IsHyphen(b))
    else if w(a) != 0 && w(b) != 0 && w(a) != w(b) then (false, false)
    else (w(a) == 0 || w(b) != 0, w(b) == 0 || w(a) != 0)
  }

  function Compare(f: Flags, w: WChar -> nat, symbol: WChar -> bool, u: seq<WChar>, v: seq<WChar>): int
    decreases |u| + |v|
  {
    if u == [] || v == [] then Sign(HasWeight(w, u), HasWeight(w, v))
    else
      var (skipU, skipV) := Skip(f, w, symbol, u[0], v[0]);
      if !skipU && !skipV then if w(u[0]) > w(v[0]) then 1 else -1
      else Compare(f, w, symbol, if skipU then u[1..] else u, if skipV then v[1..] else v)
  }

  // A position in a string: the string pointer, the remaining length, and the position in
  // the decomposition of the current character once it has been decomposed.
  datatype Cursor = Cursor(pos: nat, len: nat, dpos: nat, dlen: nat, dstr: seq<WChar>)

  ghost predicate ValidCursor(t: Alphabet, f: Flags, str: seq<WChar>, c: Cursor) {
    || c.len == 0
    || (&& c.pos + c.len == |str|
        && if c.dlen == 0 then c.dpos == 0
           else c.dpos < c.dlen == |c.dstr| && c.dstr == t.decompose(str[c.pos]) && !(f.stopOnNull && str[c.pos] == 0))
  }

  // What is still to be compared.
  ghost function Rest(t: Alphabet, f: Flags, str: seq<WChar>, c: Cursor): seq<WChar>
    requires ValidCursor(t, f, str, c)
  {
    if c.len == 0 then [] else if c.dlen == 0 then StreamFrom(t, f, str, c.pos)
    else c.dstr[c.dpos..] + StreamFrom(t, f, str, c.pos + 1)
  }

  // inc_str_pos
  method IncStrPos(ghost t: Alphabet, ghost f: Flags, ghost str: seq<WChar>, c: Cursor) returns (next: Cursor)
    requires ValidCursor(t, f, str, c) && c.len > 0 && c.dlen > 0
    ensures ValidCursor(t, f, str, next) && Rest(t, f, str, next) == Rest(t, f, str, c)[1..]
  {
    next := c.(dpos := c.dpos + 1);
    if next.dpos == next.dlen {
      next := Cursor(c.pos + 1, c.len - 1, 0, 0, []);
      assert c.dstr[c.dpos..] == [c.dstr[c.dpos]];
    } else {
      assert c.dstr[c.dpos..] == [c.dstr[c.dpos]] + c.dstr[c.dpos + 1..];
    }
  }

  // The check for the terminating NUL and the decomposition of the current character.
  method Load(t: Alphabet, f: Flags, str: seq<WChar>, c: Cursor) returns (next: Cursor)
    requires ValidAlphabet(t) && ValidCursor(t, f, str, c) && c.len > 0
    ensures ValidCursor(t, f, str, next) && Rest(t, f, str, next) == Rest(t, f, str, c)
    ensures next.len == 0 <==> f.stopOnNull && str[c.pos] == 0
    ensures next.len > 0 ==> next.dlen > 0 && Rest(t, f, str, next)[0] == next.dstr[next.dpos]
    ensures next.len == 0 <==> Rest(t, f, str, next) == []
  {
    next := c;
    if f.stopOnNull && str[c.pos] == 0 {
      next := next.(len := 0);
    } else if c.dlen == 0 {
      var dstr := t.decompose(str[c.pos]);
      next := next.(dlen := |dstr|, dstr := dstr);
    }
  }

  // The tail loops skip what weighs nothing.
  method SkipWeightless(t: Alphabet, f: Flags, str: seq<WChar>, c: Cursor) returns (next: Cursor)
    requires ValidAlphabet(t) && ValidCursor(t, f, str, c)
    ensures next.len != 0 <==> HasWeight(t.weight, Rest(t, f, str, c))
  {
    next := c;
    ghost var w := t.weight;
    while next.len != 0
      invariant ValidCursor(t, f, str, next)
      invariant HasWeight(w, Rest(t, f, str, next)) == HasWeight(w, Rest(t, f, str, c))
      decreases |Rest(t, f, str, next)|, next.len
    {
      next := Load(t, f, str, next);
      if next.len == 0 {
        break;
      }
      if t.weight(next.dstr[next.dpos]) != 0 {
        break;
      }
      next := IncStrPos(t, f, str, next);
    }
  }

  // compare_weights.
  method CompareWeights(t: Alphabet, f: Flags, str1: seq<WChar>, str2: seq<WChar>) returns (r: int)
    requires ValidAlphabet(t)
    ensures r == CompareStrings(t, f, str1, str2)
  {
    ghost var w, symbol := t.weight, t.symbol;
    var c1, c2 := Cursor(0, |str1|, 0, 0, []), Cursor(0, |str2|, 0, 0, []);
    ghost var u, v := Rest(t, f, str1, c1), Rest(t, f, str2, c2);
    ghost var goal := Compare(f, w, symbol, u, v);
    while c1.len > 0 && c2.len > 0
      invariant ValidCursor(t, f, str1, c1) && ValidCursor(t, f, str2, c2)
      invariant u == Rest(t, f, str1, c1) && v == Rest(t, f, str2, c2)
      invariant goal == Compare(f, w, symbol, u, v)
      decreases |u| + |v|, c1.len + c2.len
    {
      c1 := Load(t, f, str1, c1);
      c2 := Load(t, f, str2, c2);
      if c1.len == 0 || c2.len == 0 {
        break;
      }
      var d1, d2 := c1.dstr[c1.dpos], c2.dstr[c2.dpos];
      var skip1, skip2 := Skips(t, f, d1, d2);
      if !skip1 && !skip2 {
        return if t.weight(d1) > t.weight(d2) then 1 else -1;
      }
      if skip1 {
        c1 := IncStrPos(t, f, str1, c1);
      }
      if skip2 {
        c2 := IncStrPos(t, f, str2, c2);
      }
      u, v := Rest(t, f, str1, c1), Rest(t, f, str2, c2);
    }
    assert u == [] || v == [];
    c1 := SkipWeightless(t, f, str1, c1);
    c2 := SkipWeightless(t, f, str2, c2);
    return if c1.len > c2.len then 1 else if c1.len < c2.len then -1 else 0;
  }

  // Which of the two current characters are left behind; none when they decide.
  method Skips(t: Alphabet, f: Flags, d1: WChar, d2: WChar) returns (skip1: bool, skip2: bool)
    ensures (skip1, skip2) == Skip(f, t.weight, t.symbol, d1, d2)
  {
    if f.ignoreSymbols {
      skip1, skip2 := t.symbol(d1), t.symbol(d2);
      if skip1 || skip2 {
        return;
      }
    }
    if !f.stringSort {
      if IsHyphen(d1) {
        if !IsHyphen(d2) {
          return true, false;
        }
      } else if IsHyphen(d2) {
        return false, true;
      }
    }
    var ce1, ce2 := t.weight(d1), t.weight(d2);
    if ce1 != 0 && ce2 != 0 && ce1 != ce2 {
      return false, false;
    }
    skip1 := ce1 == 0 || ce2 != 0;
    skip2 := ce2 == 0 || ce1 != 0;
  }

  // ---------------------------------------------------------------------------------
  // For every combination of flags
  // ---------------------------------------------------------------------------------

  lemma {:induction false} CompareIsAntisymmetric(
    f: Flags, w: WChar -> nat, symbol: WChar -> bool, u: seq<WChar>, v: seq<WChar>)
    ensures Compare(f, w, symbol, u, v) == -Compare(f, w, symbol, v, u)
    decreases |u| + |v|
  {
    if u != [] && v != [] {
      var (skipU, skipV) := Skip(f, w, symbol, u[0], v[0]);
      if skipU || skipV {
        CompareIsAntisymmetric(f, w, symbol, if skipU then u[1..] else u, if skipV then v[1..] else v);
      }
    }
  }

  lemma {:induction false} CompareWithItself(f: Flags, w: WChar -> nat, symbol: WChar -> bool, u: seq<WChar>)
    ensures Compare(f, w, symbol, u, u) == 0
  {
    if u != [] {
      CompareWithItself(f, w, symbol, u[1..]);
    }
  }

  // ---------------------------------------------------------------------------------
  // With SORT_STRINGSORT and without NORM_IGNORESYMBOLS: lexicographic order
  // ---------------------------------------------------------------------------------

  // The weights of a stream, without the zeros.
  function Weights(w: WChar -> nat, u: seq<WChar>): seq<nat> {
    if u == [] then [] else if w(u[0]) == 0 then Weights(w, u[1..]) else [w(u[0])] + Weights(w, u[1..])
  }

  function Lexicographic(a: seq<nat>, b: seq<nat>): int {
    if a == [] || b == [] then Sign(a != [], b != [])
    else if a[0] != b[0] then if a[0] > b[0] then 1 else -1
    else Lexicographic(a[1..], b[1..])
  }

  lemma {:induction false} LexicographicIsTotalOrder(a: seq<nat>, b: seq<nat>, c: seq<nat>)
    ensures Lexicographic(a, b) == 0 <==> a == b
    ensures Lexicographic(a, b) == -Lexicographic(b, a)
    ensures Lexicographic(a, b) <= 0 && Lexicographic(b, c) <= 0 ==> Lexicographic(a, c) <= 0
  {
    if a != [] && b != [] {
      LexicographicIsTotalOrder(a[1..], b[1..], if c == [] then [] else c[1..]);
      assert a == [a[0]] + a[1..] && b == [b[0]] + b[1..];
    }
  }

  lemma {:induction false} HasWeightIsWeights(w: WChar -> nat, u: seq<WChar>)
    ensures HasWeight(w, u) <==> Weights(w, u) != []
  {
    if u != [] {
      HasWeightIsWeights(w, u[1..]);
    }
  }

  lemma {:induction false} StringSortIsLexicographic(
    f: Flags, w: WChar -> nat, symbol: WChar -> bool, u: seq<WChar>, v: seq<WChar>)
    requires f.stringSort && !f.ignoreSymbols
    ensures Compare(f, w, symbol, u, v) == Lexicographic(Weights(w, u), Weights(w, v))
    decreases |u| + |v|
  {
    HasWeightIsWeights(w, u);
    HasWeightIsWeights(w, v);
    if u != [] && v != [] {
      var (skipU, skipV) := Skip(f, w, symbol, u[0], v[0]);
      if skipU || skipV {
        StringSortIsLexicographic(f, w, symbol, if skipU then u[1..] else u, if skipV then v[1..] else v);
      }
    }
  }

  // ---------------------------------------------------------------------------------
  // When characters of a class are passed over
  // ---------------------------------------------------------------------------------

  // The characters that the two flags pass over when the other string has something else.
  ghost predicate PassedOver(f: Flags, symbol: WChar -> bool, c: WChar) {
    (f.ignoreSymbols && symbol(c)) || (!f.stringSort && IsHyphen(c))
  }

  // The flags act as one rule: hyphen and apostrophe are symbols, or symbols are not passed over
  // and hyphen and apostrophe weigh the same.
  ghost predicate OneClass(f: Flags, w: WChar -> nat, symbol: WChar -> bool) {
    || f.stringSort
    || (f.ignoreSymbols && symbol(HYPHEN) && symbol(APOSTROPHE))
    || (!f.ignoreSymbols && w(HYPHEN) == w(APOSTROPHE))
  }

  // The characters that count first: their weights, without those passed over.
  function Core(w: WChar -> nat, passed: WChar -> bool, u: seq<WChar>): seq<nat> {
    if u == [] then [] else if passed(u[0]) then Core(w, passed, u[1..]) else [w(u[0])] + Core(w, passed, u[1..])
  }

  // The number of passed-over characters at the very end.
  function Trailing(passed: WChar -> bool, u: seq<WChar>): nat {
    if u == [] then 0
    else if passed(u[0]) && Trailing(passed, u[1..]) == |u| - 1 then |u| else Trailing(passed, u[1..])
  }

  lemma {:induction false} AllTrailing(w: WChar -> nat, passed: WChar -> bool, u: seq<WChar>)
    ensures Trailing(passed, u) <= |u|
    ensures Core(w, passed, u) == [] <==> Trailing(passed, u) == |u|
  {
    if u != [] {
      AllTrailing(w, passed, u[1..]);
    }
  }

  function KeyOrder(a: (seq<nat>, nat), b: (seq<nat>, nat)): int {
    if Lexicographic(a.0, b.0) != 0 then Lexicographic(a.0, b.0) else Sign(a.1 > b.1, a.1 < b.1)
  }

  function Key(w: WChar -> nat, passed: WChar -> bool, u: seq<WChar>): (seq<nat>, nat) {
    (Core(w, passed, u), Trailing(passed, u))
  }

  ghost predicate NothingWeightless(w: WChar -> nat, u: seq<WChar>) {
    forall i | 0 <= i < |u| :: w(u[i]) != 0
  }

  // What may be left behind together: characters passed over, or two that weigh the same.
  ghost predicate MayLeave(w: WChar -> nat, passed: WChar -> bool, a: WChar, b: WChar, skipA: bool, skipB: bool) {
    if skipA && skipB then passed(a) == passed(b) && (!passed(a) ==> w(a) == w(b))
    else passed(a) == skipA && passed(b) == skipB
  }

  lemma SkippedKeepsOrder(
    w: WChar -> nat, passed: WChar -> bool, u: seq<WChar>, v: seq<WChar>, skipU: bool, skipV: bool)
    requires u != [] && v != [] && (skipU || skipV) && MayLeave(w, passed, u[0], v[0], skipU, skipV)
    ensures KeyOrder(Key(w, passed, u), Key(w, passed, v)) ==
            KeyOrder(Key(w, passed, if skipU then u[1..] else u), Key(w, passed, if skipV then v[1..] else v))
  {
    AllTrailing(w, passed, u);
    AllTrailing(w, passed, v);
    AllTrailing(w, passed, u[1..]);
    AllTrailing(w, passed, v[1..]);
  }

  // The comparison is by the characters not passed over, then by the number of trailing ones.
  lemma {:induction false} CompareIsByKey(
    f: Flags, w: WChar -> nat, symbol: WChar -> bool, passed: WChar -> bool, u: seq<WChar>, v: seq<WChar>)
    requires NothingWeightless(w, u) && NothingWeightless(w, v) && OneClass(f, w, symbol)
    requires forall c :: passed(c) == PassedOver(f, symbol, c)
    ensures Compare(f, w, symbol, u, v) == KeyOrder(Key(w, passed, u), Key(w, passed, v))
    decreases |u| + |v|
  {
    AllTrailing(w, passed, u);
    AllTrailing(w, passed, v);
    if u == [] {
      WeighsAnything(w, v);
    } else if v == [] {
      WeighsAnything(w, u);
    } else {
      var (skipU, skipV) := Skip(f, w, symbol, u[0], v[0]);
      if skipU || skipV {
        SkippedKeepsOrder(w, passed, u, v, skipU, skipV);
        CompareIsByKey(f, w, symbol, passed, if skipU then u[1..] else u, if skipV then v[1..] else v);
      }
    }
  }

  lemma WeighsAnything(w: WChar -> nat, u: seq<WChar>)
    requires NothingWeightless(w, u)
    ensures HasWeight(w, u) <==> u != []
  {
  }

  ghost predicate SymbolsWeightless(w: WChar -> nat, symbol: WChar -> bool, u: seq<WChar>) {
    forall i | 0 <= i < |u| :: symbol(u[i]) ==> w(u[i]) == 0
  }

  lemma {:induction false} WeightlessSymbols(
    f: Flags, w: WChar -> nat, symbol: WChar -> bool, u: seq<WChar>, v: seq<WChar>)
    requires f.stringSort && f.ignoreSymbols && SymbolsWeightless(w, symbol, u) && SymbolsWeightless(w, symbol, v)
    ensures Compare(f, w, symbol, u, v) == Lexicographic(Weights(w, u), Weights(w, v))
    decreases |u| + |v|
  {
    HasWeightIsWeights(w, u);
    HasWeightIsWeights(w, v);
    if u != [] && v != [] {
      var (skipU, skipV) := Skip(f, w, symbol, u[0], v[0]);
      if skipU || skipV {
        WeightlessSymbols(f, w, symbol, if skipU then u[1..] else u, if skipV then v[1..] else v);
      }
    }
  }

  // ---------------------------------------------------------------------------------
  // When the comparison of strings is an order
  // ---------------------------------------------------------------------------------

  function CompareStrings(t: Alphabet, f: Flags, a: seq<WChar>, b: seq<WChar>): int {
    Compare(f, t.weight, t.symbol, StreamFrom(t, f, a, 0), StreamFrom(t, f, b, 0))
  }

  ghost predicate IsTransitive(t: Alphabet, f: Flags) {
    forall a, b, c :: CompareStrings(t, f, a, b) <= 0 && CompareStrings(t, f, b, c) <= 0 ==>
      CompareStrings(t, f, a, c) <= 0
  }

  // A character that is its own decomposition, and at which no string stops.
  ghost predicate Atom(t: Alphabet, f: Flags, c: WChar) {
    t.decompose(c) == [c] && !(f.stopOnNull && c == 0)
  }

  ghost predicate AllAtoms(t: Alphabet, f: Flags, u: seq<WChar>) {
    forall i | 0 <= i < |u| :: Atom(t, f, u[i])
  }

  // Decompositions are carried through to the end.
  ghost predicate Settled(t: Alphabet, f: Flags) {
    forall c :: (f.stopOnNull && c == 0) || AllAtoms(t, f, t.decompose(c))
  }

  lemma {:induction false} StreamOfAtoms(t: Alphabet, f: Flags, str: seq<WChar>, i: nat)
    requires i <= |str| && Settled(t, f)
    ensures AllAtoms(t, f, StreamFrom(t, f, str, i))
    decreases |str| - i
  {
    if i < |str| && !(f.stopOnNull && str[i] == 0) {
      StreamOfAtoms(t, f, str, i + 1);
      assert AllAtoms(t, f, t.decompose(str[i]));
    }
  }

  // A string of atoms is its own stream.
  lemma {:induction false} AtomsAreTheirStream(t: Alphabet, f: Flags, str: seq<WChar>, i: nat)
    requires i <= |str| && AllAtoms(t, f, str)
    ensures StreamFrom(t, f, str, i) == str[i..]
    decreases |str| - i
  {
    if i < |str| {
      AtomsAreTheirStream(t, f, str, i + 1);
      assert str[i..] == [str[i]] + str[i + 1..];
    }
  }

  lemma CompareAtoms(t: Alphabet, f: Flags, a: seq<WChar>, b: seq<WChar>)
    requires AllAtoms(t, f, a) && AllAtoms(t, f, b)
    ensures CompareStrings(t, f, a, b) == Compare(f, t.weight, t.symbol, a, b)
  {
    AtomsAreTheirStream(t, f, a, 0);
    AtomsAreTheirStream(t, f, b, 0);
    assert a[0..] == a && b[0..] == b;
  }

  lemma {:induction false} WeightsOfSum(w: WChar -> nat, u: seq<WChar>, v: seq<WChar>)
    ensures Weights(w, u + v) == Weights(w, u) + Weights(w, v)
  {
    if u == [] {
      assert u + v == v;
    } else {
      WeightsOfSum(w, u[1..], v);
      assert (u + v)[1..] == u[1..] + v;
    }
  }

  lemma {:induction false} LexicographicBehind(p: seq<nat>, a: seq<nat>, b: seq<nat>)
    ensures Lexicographic(p + a, p + b) == Lexicographic(a, b)
  {
    if p == [] {
      assert p + a == a && p + b == b;
    } else {
      LexicographicBehind(p[1..], a, b);
      assert (p + a)[1..] == p[1..] + a && (p + b)[1..] == p[1..] + b;
    }
  }

  // With SORT_STRINGSORT, strings that differ in a character from some place on are in the order of
  // the weights there.
  lemma FirstDifferenceDecides(
    t: Alphabet, f: Flags, front: seq<WChar>, a: WChar, b: WChar, x: seq<WChar>, y: seq<WChar>)
    requires f.stringSort && !f.ignoreSymbols
    requires AllAtoms(t, f, front + [a] + x) && AllAtoms(t, f, front + [b] + y)
    requires t.weight(a) != 0 && t.weight(b) != 0 && t.weight(a) != t.weight(b)
    ensures CompareStrings(t, f, front + [a] + x, front + [b] + y) == if t.weight(a) < t.weight(b) then -1 else 1
  {
    var w := t.weight;
    CompareAtoms(t, f, front + [a] + x, front + [b] + y);
    StringSortIsLexicographic(f, w, t.symbol, front + [a] + x, front + [b] + y);
    WeightsBehind(w, front, a, x);
    WeightsBehind(w, front, b, y);
    LexicographicBehind(Weights(w, front), [w(a)] + Weights(w, x), [w(b)] + Weights(w, y));
  }

  lemma WeightsBehind(w: WChar -> nat, front: seq<WChar>, a: WChar, x: seq<WChar>)
    requires w(a) != 0
    ensures Weights(w, front + [a] + x) == Weights(w, front) + ([w(a)] + Weights(w, x))
  {
    assert front + [a] + x == front + ([a] + x);
    WeightsOfSum(w, front, [a] + x);
    assert ([a] + x)[1..] == x;
  }

  // Strings whose characters weigh the same, one by one, are equal.
  lemma SameWeightsAreEqual(t: Alphabet, f: Flags, a: seq<WChar>, b: seq<WChar>)
    requires f.stringSort && !f.ignoreSymbols && AllAtoms(t, f, a) && AllAtoms(t, f, b)
    requires |a| == |b| && forall i | 0 <= i < |a| :: t.weight(a[i]) == t.weight(b[i])
    ensures CompareStrings(t, f, a, b) == 0
  {
    CompareAtoms(t, f, a, b);
    StringSortIsLexicographic(f, t.weight, t.symbol, a, b);
    SameWeights(t.weight, a, b);
    LexicographicIsTotalOrder(Weights(t.weight, a), Weights(t.weight, b), []);
  }

  lemma {:induction false} SameWeights(w: WChar -> nat, a: seq<WChar>, b: seq<WChar>)
    requires |a| == |b| && forall i | 0 <= i < |a| :: w(a[i]) == w(b[i])
    ensures Weights(w, a) == Weights(w, b)
  {
    if a != [] {
      SameWeights(w, a[1..], b[1..]);
    }
  }

  // ---------------------------------------------------------------------------------
  // What of a string is compared
  // ---------------------------------------------------------------------------------

  // With NORM_STOP_ON_NULL nothing behind the first NUL counts.
  lemma {:induction false} NothingBehindNul(t: Alphabet, f: Flags, a: seq<WChar>, rest: seq<WChar>, i: nat)
    requires f.stopOnNull && i <= |a|
    ensures StreamFrom(t, f, a + [0] + rest, i) == StreamFrom(t, f, a, i)
    decreases |a| - i
  {
    if i < |a| {
      NothingBehindNul(t, f, a, rest, i + 1);
    }
  }

  lemma ComparedUpToNul(t: Alphabet, f: Flags, a: seq<WChar>, rest: seq<WChar>, b: seq<WChar>)
    requires f.stopOnNull
    ensures CompareStrings(t, f, a + [0] + rest, b) == CompareStrings(t, f, a, b)
    ensures CompareStrings(t, f, b, a + [0] + rest) == CompareStrings(t, f, b, a)
  {
    NothingBehindNul(t, f, a, rest, 0);
  }

  // Without it, every character counts, a NUL like any other: one character more adds its
  // decomposition.
  lemma {:induction false} EverythingCounts(t: Alphabet, f: Flags, a: seq<WChar>, c: WChar, i: nat)
    requires !f.stopOnNull && i <= |a|
    ensures StreamFrom(t, f, a + [c], i) == StreamFrom(t, f, a, i) + t.decompose(c)
    decreases |a| - i
  {
    if i < |a| {
      EverythingCounts(t, f, a, c, i + 1);
      assert t.decompose(a[i]) + (StreamFrom(t, f, a, i + 1) + t.decompose(c)) ==
        t.decompose(a[i]) + StreamFrom(t, f, a, i + 1) + t.decompose(c);
    } else {
      assert StreamFrom(t, f, a + [c], i + 1) == [];
      assert [] + t.decompose(c) == t.decompose(c) + [];
    }
  }

  lemma KeyOrderIsTransitive(a: (seq<nat>, nat), b: (seq<nat>, nat), c: (seq<nat>, nat))
    requires KeyOrder(a, b) <= 0 && KeyOrder(b, c) <= 0
    ensures KeyOrder(a, c) <= 0
  {
    LexicographicIsTotalOrder(a.0, b.0, c.0);
    LexicographicIsTotalOrder(b.0, c.0, a.0);
    LexicographicIsTotalOrder(a.0, c.0, b.0);
    LexicographicIsTotalOrder(c.0, a.0, b.0);
  }

  // No stream holds a weightless character.
  ghost predicate StreamsWeigh(t: Alphabet, f: Flags) {
    forall str :: NothingWeightless(t.weight, StreamFrom(t, f, str, 0))
  }

  lemma KeyedIsTransitive(t: Alphabet, f: Flags)
    requires OneClass(f, t.weight, t.symbol) && StreamsWeigh(t, f)
    ensures IsTransitive(t, f)
  {
    var passed := (c: WChar) => (f.ignoreSymbols && t.symbol(c)) || (!f.stringSort && IsHyphen(c));
    forall a, b, c | CompareStrings(t, f, a, b) <= 0 && CompareStrings(t, f, b, c) <= 0
      ensures CompareStrings(t, f, a, c) <= 0
    {
      var u, v, x := StreamFrom(t, f, a, 0), StreamFrom(t, f, b, 0), StreamFrom(t, f, c, 0);
      CompareIsByKey(f, t.weight, t.symbol, passed, u, v);
      CompareIsByKey(f, t.weight, t.symbol, passed, v, x);
      CompareIsByKey(f, t.weight, t.symbol, passed, u, x);
      KeyOrderIsTransitive(Key(t.weight, passed, u), Key(t.weight, passed, v), Key(t.weight, passed, x));
    }
  }

  // The comparison is by the weights that are not zero.
  ghost predicate IsLexicographic(t: Alphabet, f: Flags) {
    forall a, b ::
      CompareStrings(t, f, a, b) ==
      Lexicographic(Weights(t.weight, StreamFrom(t, f, a, 0)), Weights(t.weight, StreamFrom(t, f, b, 0)))
  }

  lemma LexicographicIsTransitive(t: Alphabet, f: Flags)
    requires IsLexicographic(t, f)
    ensures IsTransitive(t, f)
  {
    forall a, b, c | CompareStrings(t, f, a, b) <= 0 && CompareStrings(t, f, b, c) <= 0
      ensures CompareStrings(t, f, a, c) <= 0
    {
      LexicographicIsTotalOrder(
        Weights(t.weight, StreamFrom(t, f, a, 0)), Weights(t.weight, StreamFrom(t, f, b, 0)),
        Weights(t.weight, StreamFrom(t, f, c, 0)));
    }
  }

  lemma StringSortIsTransitive(t: Alphabet, f: Flags)
    requires f.stringSort && !f.ignoreSymbols
    ensures IsTransitive(t, f)
  {
    forall a, b
      ensures CompareStrings(t, f, a, b) ==
              Lexicographic(Weights(t.weight, StreamFrom(t, f, a, 0)), Weights(t.weight, StreamFrom(t, f, b, 0)))
    {
      StringSortIsLexicographic(f, t.weight, t.symbol, StreamFrom(t, f, a, 0), StreamFrom(t, f, b, 0));
    }
    LexicographicIsTransitive(t, f);
  }

  const LETTER: WChar := 0x41

  // Without SORT_STRINGSORT, the strings "-A" and "'A" both equal "A" and differ from each other.
  lemma HyphensBreakTheOrder(t: Alphabet, f: Flags)
    requires !f.stringSort && !f.ignoreSymbols
    requires Atom(t, f, HYPHEN) && Atom(t, f, APOSTROPHE) && Atom(t, f, LETTER)
    requires t.weight(HYPHEN) != 0 && t.weight(APOSTROPHE) != 0 && t.weight(HYPHEN) != t.weight(APOSTROPHE)
    ensures CompareStrings(t, f, [HYPHEN, LETTER], [LETTER]) == 0 ==
            CompareStrings(t, f, [APOSTROPHE, LETTER], [LETTER])
    ensures CompareStrings(t, f, [HYPHEN, LETTER], [APOSTROPHE, LETTER]) != 0
    ensures !IsTransitive(t, f)
  {
    var plain, hyphen, apostrophe := [LETTER], [HYPHEN, LETTER], [APOSTROPHE, LETTER];
    CompareAtoms(t, f, hyphen, plain);
    CompareAtoms(t, f, apostrophe, plain);
    CompareAtoms(t, f, hyphen, apostrophe);
    assert hyphen[1..] == plain && apostrophe[1..] == plain;
    CompareWithItself(f, t.weight, t.symbol, plain);
    Reversed(t, f, plain, hyphen);
    Reversed(t, f, plain, apostrophe);
    Reversed(t, f, hyphen, apostrophe);
  }

  lemma Reversed(t: Alphabet, f: Flags, a: seq<WChar>, b: seq<WChar>)
    ensures CompareStrings(t, f, a, b) == -CompareStrings(t, f, b, a)
  {
    CompareIsAntisymmetric(f, t.weight, t.symbol, StreamFrom(t, f, a, 0), StreamFrom(t, f, b, 0));
  }

  // A weightless character equals the empty string and any single passed-over character.
  lemma WeightlessBreaksTheOrder(t: Alphabet, f: Flags, z: WChar, s: WChar)
    requires Atom(t, f, z) && Atom(t, f, s)
    requires t.weight(z) == 0 && t.weight(s) != 0 && PassedOver(f, t.symbol, s)
    requires !f.stringSort ==> t.weight(HYPHEN) != 0 && t.weight(APOSTROPHE) != 0
    requires f.ignoreSymbols && !f.stringSort ==> t.symbol(HYPHEN) && t.symbol(APOSTROPHE)
    ensures CompareStrings(t, f, [s], [z]) == 0 == CompareStrings(t, f, [z], []) && CompareStrings(t, f, [s], []) == 1
    ensures !IsTransitive(t, f)
  {
    CompareAtoms(t, f, [s], [z]);
    CompareAtoms(t, f, [z], []);
    CompareAtoms(t, f, [s], []);
    assert !HasWeight(t.weight, [z]) && HasWeight(t.weight, [s]);
  }

  ghost predicate AtomsWeigh(t: Alphabet, f: Flags) {
    forall c | Atom(t, f, c) :: t.weight(c) != 0
  }

  ghost predicate PassedOverAtomsWeightless(t: Alphabet, f: Flags) {
    forall c | Atom(t, f, c) && PassedOver(f, t.symbol, c) :: t.weight(c) == 0
  }

  lemma AtomsWeighInStreams(t: Alphabet, f: Flags)
    requires Settled(t, f) && AtomsWeigh(t, f)
    ensures StreamsWeigh(t, f)
  {
    forall str
      ensures NothingWeightless(t.weight, StreamFrom(t, f, str, 0))
    {
      StreamOfAtoms(t, f, str, 0);
    }
  }

  lemma WeightlessSymbolsIsLexicographic(t: Alphabet, f: Flags)
    requires Settled(t, f) && f.stringSort && f.ignoreSymbols && PassedOverAtomsWeightless(t, f)
    ensures IsLexicographic(t, f)
  {
    forall a, b
      ensures CompareStrings(t, f, a, b) ==
              Lexicographic(Weights(t.weight, StreamFrom(t, f, a, 0)), Weights(t.weight, StreamFrom(t, f, b, 0)))
    {
      StreamOfAtoms(t, f, a, 0);
      StreamOfAtoms(t, f, b, 0);
      assert forall c :: t.symbol(c) ==> PassedOver(f, t.symbol, c);
      WeightlessSymbols(f, t.weight, t.symbol, StreamFrom(t, f, a, 0), StreamFrom(t, f, b, 0));
    }
  }

  // Exactly when the comparison of strings is transitive, for tables in which hyphen and apostrophe
  // weigh something and are symbols together, and whose decompositions are carried to the end.
  lemma TransitiveExactlyWhen(t: Alphabet, f: Flags)
    requires Settled(t, f) && Atom(t, f, HYPHEN) && Atom(t, f, APOSTROPHE) && Atom(t, f, LETTER)
    requires t.weight(HYPHEN) != 0 && t.weight(APOSTROPHE) != 0
    requires f.ignoreSymbols && !f.stringSort ==> t.symbol(HYPHEN) && t.symbol(APOSTROPHE)
    ensures IsTransitive(t, f) <==>
            || (f.stringSort && !f.ignoreSymbols)
            || (OneClass(f, t.weight, t.symbol) && (AtomsWeigh(t, f) || PassedOverAtomsWeightless(t, f)))
  {
    if f.stringSort && !f.ignoreSymbols {
      StringSortIsTransitive(t, f);
    } else if !OneClass(f, t.weight, t.symbol) {
      HyphensBreakTheOrder(t, f);
    } else if AtomsWeigh(t, f) {
      AtomsWeighInStreams(t, f);
      KeyedIsTransitive(t, f);
    } else if PassedOverAtomsWeightless(t, f) {
      assert PassedOver(f, t.symbol, HYPHEN) ==> t.weight(HYPHEN) == 0;
      WeightlessSymbolsIsLexicographic(t, f);
      LexicographicIsTransitive(t, f);
    } else {
      var z :| Atom(t, f, z) && t.weight(z) == 0;
      var s :| Atom(t, f, s) && PassedOver(f, t.symbol, s) && t.weight(s) != 0;
      WeightlessBreaksTheOrder(t, f, z, s);
    }
  }
}
