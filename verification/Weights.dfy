/**
  Character weights (WinPort/wineguts/sortkey.c, eval_weight and wine_compare_string).

  The collation table, the character types and the decomposition are parameters. The fields
  of a weight do not overlap, so the bitwise or of the program is written as a sum.
  */
module Weights {
  import opened Characters
  import opened Collation

  const DOT: WChar := 0x2E
  // A collation element of 32 bits.
  type Element = x: nat | x < 0x1_0000_0000

  const NO_ELEMENT: Element := 0xFFFF_FFFF

  // The bits of get_char_typeW that the comparison looks at.
  datatype CharType = CharType(upper: bool, digit: bool, space: bool, punct: bool, cntrl: bool, blank: bool)

  datatype Tables = Tables(
    collation: WChar -> Element,     // NO_ELEMENT for none
    charType: WChar -> CharType,
    decompose: WChar -> seq<WChar>)  // wine_decompose

  // DIACRITIC_WEIGHT, CASE_WEIGHT
  datatype Types = Types(diacritic: bool, casing: bool)

  // ---------------------------------------------------------------------------------
  // eval_weight
  // ---------------------------------------------------------------------------------

  // Bits 28 to 30.
  function Class(ch: WChar, t: CharType): nat {
    if ch == DOT then 0
    else if t.digit then 4
    else if !t.punct && !t.space && !t.cntrl && !t.blank then 6
    else if !t.punct then 2
    else 1
  }

  function EvalWeight(t: Tables, types: Types, ch: WChar): nat {
    var w: nat := if t.collation(ch) == NO_ELEMENT then ch % 0x1_0000_0000 else t.collation(ch);
    var diacritic := if types.diacritic then w / 0x100 % 0x100 else 0;
    var lower := if ch != DOT && !t.charType(ch).upper && types.casing then 1 else 0;
    w / 0x1_0000 % 0x1_0000 + 0x1_0000 * diacritic + 0x0800_0000 * lower + 0x1000_0000 * Class(ch, t.charType(ch))
  }

  // The four fields, and what they come from.
  lemma {:induction false} WeightFields(t: Tables, types: Types, ch: WChar)
    ensures var w := EvalWeight(t, types, ch);
            && w < 0x8000_0000
            && w / 0x1000_0000 == Class(ch, t.charType(ch))
            && (w / 0x0800_0000 % 2 == 1 <==> ch != DOT && !t.charType(ch).upper && types.casing)
            && (ch == DOT ==> w < 0x0100_0000)
  {
  }

  // A lower class sorts first whatever the collation elements are: the dot, then punctuation,
  // white space and control, digits, letters. Within a class what is not upper case is last.
  lemma {:induction false} ClassDecides(t: Tables, types: Types, a: WChar, b: WChar)
    requires || Class(a, t.charType(a)) < Class(b, t.charType(b))
             || (a != DOT && b != DOT && types.casing && Class(a, t.charType(a)) == Class(b, t.charType(b))
                 && t.charType(a).upper && !t.charType(b).upper)
    ensures EvalWeight(t, types, a) < EvalWeight(t, types, b)
  {
    WeightFields(t, types, a);
    WeightFields(t, types, b);
  }

  predicate Punctuation(t: CharType) {
    t.punct && !t.digit
  }

  predicate SpaceOrControl(t: CharType) {
    (t.space || t.cntrl || t.blank) && !t.punct && !t.digit
  }

  predicate AnyOther(t: CharType) {
    !t.punct && !t.space && !t.cntrl && !t.blank && !t.digit
  }

  // The dot, punctuation, white space and control characters, digits, and then all others.
  lemma {:induction false} KindsInOrder(t: Tables, types: Types, a: WChar, b: WChar)
    requires b != DOT
    requires var s, u := t.charType(a), t.charType(b);
             || a == DOT || (Punctuation(s) && SpaceOrControl(u)) || (SpaceOrControl(s) && u.digit)
             || (s.digit && AnyOther(u))
    ensures EvalWeight(t, types, a) < EvalWeight(t, types, b)
  {
    WeightFields(t, types, a);
    WeightFields(t, types, b);
  }

  // Two characters of the same type: what differs first decides, the diacritic if it counts, then
  // the high half of the elements. A character with no element is its own element.
  ghost predicate SameKind(t: Tables, a: WChar, b: WChar) {
    a != DOT && b != DOT && t.charType(a) == t.charType(b)
  }

  function ElementOf(t: Tables, ch: WChar): nat {
    if t.collation(ch) == 0xFFFF_FFFF then ch % 0x1_0000_0000 else t.collation(ch)
  }

  lemma {:induction false} DiacriticThenUnicodeWeight(t: Tables, types: Types, a: WChar, b: WChar)
    requires SameKind(t, a, b)
    ensures var e, f := ElementOf(t, a), ElementOf(t, b);
            EvalWeight(t, types, a) < EvalWeight(t, types, b) <==>
            if types.diacritic && e / 0x100 % 0x100 != f / 0x100 % 0x100 then e / 0x100 % 0x100 < f / 0x100 % 0x100
            else e / 0x1_0000 % 0x1_0000 < f / 0x1_0000 % 0x1_0000
  {
  }

  // Letters of the two cases that have the same element weigh the same exactly when case is ignored.
  lemma {:induction false} CaseCountsUnlessIgnored(t: Tables, types: Types, a: WChar, b: WChar)
    requires a != DOT && b != DOT && ElementOf(t, a) == ElementOf(t, b)
    requires t.charType(a).upper && t.charType(b) == t.charType(a).(upper := false)
    ensures EvalWeight(t, types, a) == EvalWeight(t, types, b) <==> !types.casing
    ensures types.casing ==> EvalWeight(t, types, a) < EvalWeight(t, types, b)
  {
    assert Class(a, t.charType(a)) == Class(b, t.charType(b));
  }

  // ---------------------------------------------------------------------------------
  // wine_compare_string
  // ---------------------------------------------------------------------------------

  function AlphabetOf(t: Tables, types: Types): Alphabet {
    Alphabet(
      t.decompose, (c: WChar) => EvalWeight(t, types, c),
      (c: WChar) => t.charType(c).punct || t.charType(c).space)
  }

  method CompareString(
    t: Tables, f: Flags, ignoreNonSpace: bool, ignoreCase: bool, str1: seq<WChar>, str2: seq<WChar>)
    returns (r: int)
    requires forall c :: 1 <= |t.decompose(c)| <= 4
    ensures r == CompareStrings(AlphabetOf(t, Types(!ignoreNonSpace, !ignoreCase)), f, str1, str2)
  {
    r := CompareWeights(AlphabetOf(t, Types(!ignoreNonSpace, !ignoreCase)), f, str1, str2);
  }

  lemma OnlyDotIsWeightless(t: Tables, types: Types)
    ensures forall c | c != DOT :: AlphabetOf(t, types).weight(c) != 0
  {
    forall c | c != DOT
      ensures AlphabetOf(t, types).weight(c) != 0
    {
      WeightFields(t, types, c);
    }
  }

  // Names that differ in one letter: the letter's element orders them, whatever follows.
  lemma FirstLetterDecides(
    t: Tables, f: Flags, types: Types, front: seq<WChar>, a: WChar, b: WChar, x: seq<WChar>, y: seq<WChar>)
    requires f.stringSort && !f.ignoreSymbols && SameKind(t, a, b)
    requires var al := AlphabetOf(t, types); AllAtoms(al, f, front + [a] + x) && AllAtoms(al, f, front + [b] + y)
    requires ElementOf(t, a) / 0x100 % 0x100 == ElementOf(t, b) / 0x100 % 0x100
    requires ElementOf(t, a) / 0x1_0000 % 0x1_0000 < ElementOf(t, b) / 0x1_0000 % 0x1_0000
    ensures CompareStrings(AlphabetOf(t, types), f, front + [a] + x, front + [b] + y) == -1
  {
    var al := AlphabetOf(t, types);
    DiacriticThenUnicodeWeight(t, types, a, b);
    OnlyDotIsWeightless(t, types);
    FirstDifferenceDecides(al, f, front, a, b, x, y);
  }

  // Names that differ in the case of one letter only are equal when case is ignored.
  lemma CaseIgnored(t: Tables, f: Flags, types: Types, front: seq<WChar>, a: WChar, b: WChar, back: seq<WChar>)
    requires f.stringSort && !f.ignoreSymbols && a != DOT && b != DOT && ElementOf(t, a) == ElementOf(t, b)
    requires t.charType(a).upper && t.charType(b) == t.charType(a).(upper := false)
    requires var al := AlphabetOf(t, types); AllAtoms(al, f, front + [a] + back) && AllAtoms(al, f, front + [b] + back)
    ensures CompareStrings(AlphabetOf(t, types), f, front + [a] + back, front + [b] + back) ==
            if types.casing then -1 else 0
  {
    var al := AlphabetOf(t, types);
    CaseCountsUnlessIgnored(t, types, a, b);
    OnlyDotIsWeightless(t, types);
    if types.casing {
      FirstDifferenceDecides(al, f, front, a, b, back, back);
    } else {
      SameWeightsAreEqual(al, f, front + [a] + back, front + [b] + back);
    }
  }

  // With NORM_IGNORESYMBOLS, punctuation or white space in front of any other character is passed
  // over; anything else is not, unless it is weightless or a hyphen.
  lemma SymbolsIgnored(t: Tables, f: Flags, types: Types, c: WChar, s: seq<WChar>)
    requires f.ignoreSymbols && s != [] && AllAtoms(AlphabetOf(t, types), f, [c] + s)
    requires (t.charType(c).punct || t.charType(c).space) && !t.charType(s[0]).punct && !t.charType(s[0]).space
    ensures CompareStrings(AlphabetOf(t, types), f, [c] + s, s) == 0
  {
    var al := AlphabetOf(t, types);
    assert forall i | 0 <= i < |s| :: s[i] == ([c] + s)[i + 1];
    CompareAtoms(al, f, [c] + s, s);
    assert ([c] + s)[1..] == s;
    CompareWithItself(f, al.weight, al.symbol, s);
  }

  lemma OthersAreNotIgnored(t: Tables, f: Flags, types: Types, c: WChar, s: seq<WChar>)
    requires f.stringSort && s != [] && AllAtoms(AlphabetOf(t, types), f, [c] + s)
    requires forall d | d in {c, s[0]} :: f.ignoreSymbols ==> !t.charType(d).punct && !t.charType(d).space
    requires c != DOT && s[0] != DOT && EvalWeight(t, types, c) < EvalWeight(t, types, s[0])
    ensures CompareStrings(AlphabetOf(t, types), f, [c] + s, s) == -1
  {
    var al := AlphabetOf(t, types);
    assert forall i | 0 <= i < |s| :: s[i] == ([c] + s)[i + 1];
    CompareAtoms(al, f, [c] + s, s);
    OnlyDotIsWeightless(t, types);
  }

  // For all tables and strings: SORT_STRINGSORT without NORM_IGNORESYMBOLS is a total preorder.
  lemma StringSortIsPreorder(t: Tables, f: Flags, types: Types, a: seq<WChar>, b: seq<WChar>)
    requires f.stringSort && !f.ignoreSymbols
    ensures var al := AlphabetOf(t, types);
            && CompareStrings(al, f, a, a) == 0
            && CompareStrings(al, f, a, b) == -CompareStrings(al, f, b, a)
            && IsTransitive(al, f)
  {
    var al := AlphabetOf(t, types);
    CompareWithItself(f, al.weight, al.symbol, StreamFrom(al, f, a, 0));
    Reversed(al, f, a, b);
    StringSortIsTransitive(al, f);
  }

  // The characters used to tell an order from none decompose into themselves.
  ghost predicate PlainCharacters(t: Tables) {
    && t.decompose(HYPHEN) == [HYPHEN] && t.decompose(APOSTROPHE) == [APOSTROPHE]
    && t.decompose(DOT) == [DOT] && t.decompose(LETTER) == [LETTER]
  }

  // Without the two flags strings are ordered when hyphen and apostrophe weigh the same and the dot
  // weighs something, whatever the decompositions; with those of plain characters, only then.
  lemma PlainSortIsPreorderExactlyWhen(t: Tables, f: Flags, types: Types)
    requires !f.stringSort && !f.ignoreSymbols
    ensures var same := EvalWeight(t, types, HYPHEN) == EvalWeight(t, types, APOSTROPHE) &&
            EvalWeight(t, types, DOT) != 0;
            && (same ==> IsTransitive(AlphabetOf(t, types), f))
            && (PlainCharacters(t) ==> (IsTransitive(AlphabetOf(t, types), f) <==> same))
  {
    var al := AlphabetOf(t, types);
    OnlyDotIsWeightless(t, types);
    if EvalWeight(t, types, HYPHEN) != EvalWeight(t, types, APOSTROPHE) {
      if PlainCharacters(t) {
        HyphensBreakTheOrder(al, f);
      }
    } else if EvalWeight(t, types, DOT) != 0 {
      assert forall c :: al.weight(c) != 0;
      KeyedIsTransitive(al, f);
    } else if PlainCharacters(t) {
      WeightlessBreaksTheOrder(al, f, DOT, HYPHEN);
    }
  }
}
