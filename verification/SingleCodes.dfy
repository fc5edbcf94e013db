/**
  What the conversion to a code page writes for single characters and for pairs that compose
  (WinPort/wineguts/wctomb.c), byte by byte.
  */
module SingleCodes {
  import opened Characters
  import opened Wrappers
  import opened CodePages

  // The conversion that wine_cp_wcstombs makes of its arguments.
  function Called(t: Table, double: bool, flags: Flags, compose: (Unit, Unit) -> Unit, defchar: Option<(Byte, Byte)>)
    : Conversion {
    Conversion(t, flags, DefaultChar(t, double, defchar), compose)
  }

  // A character is replaced when its code does not stand for it, if that matters: with
  // WC_NO_BEST_FIT_CHARS always, otherwise for the table's own default character only.
  predicate IsReplaced(t: Table, flags: Flags, w: Unit) {
    (flags.noBestFit || t.toCode(w) == t.defChar) && FromCode(t, t.toCode(w)) != w
  }

  lemma OneCode(c: Conversion, w: Unit)
    ensures Encode(c, [w], 0) == Bytes(Choose(c, [w], 0).code)
  {
    assert Encode(c, [w], 1) == [];
    assert Encode(c, [w], 0) == Bytes(Choose(c, [w], 0).code) + Encode(c, [w], 1);
  }

  // What is not replaced is written as its code, the high byte first.
  lemma KeptCharacter(t: Table, double: bool, flags: Flags, compose: (Unit, Unit) -> Unit,
                      defchar: Option<(Byte, Byte)>, w: Unit)
    requires !IsReplaced(t, flags, w)
    ensures var code := t.toCode(w);
            Encode(Called(t, double, flags, compose, defchar), [w], 0) ==
            if code < 0x100 then [code] else [code / 0x100, code % 0x100]
  {
    OneCode(Called(t, double, flags, compose, defchar), w);
  }

  // A given default character is written for what is replaced: one byte on a single-byte page; on a
  // double-byte page both, unless the second is zero.
  lemma GivenDefault(t: Table, double: bool, flags: Flags, compose: (Unit, Unit) -> Unit, d: Byte, e: Byte, w: Unit)
    requires IsReplaced(t, flags, w)
    ensures Encode(Called(t, double, flags, compose, Some((d, e))), [w], 0) ==
            if double && d != 0 && e != 0 then [d, e] else if double && e != 0 then [e] else [d]
  {
    OneCode(Called(t, double, flags, compose, Some((d, e))), w);
  }

  // With none given it is the table's.
  lemma TableDefault(t: Table, double: bool, flags: Flags, compose: (Unit, Unit) -> Unit, w: Unit)
    requires IsReplaced(t, flags, w)
    ensures Encode(Called(t, double, flags, compose, None), [w], 0) ==
            if !double then [t.defChar % 0x100]
            else if t.defChar < 0x100 then [t.defChar] else [t.defChar / 0x100, t.defChar % 0x100]
  {
    OneCode(Called(t, double, flags, compose, None), w);
  }

  // `used` tells whether it was replaced.
  lemma ReplacedIsUsed(t: Table, double: bool, flags: Flags, compose: (Unit, Unit) -> Unit,
                       defchar: Option<(Byte, Byte)>, w: Unit)
    ensures UsesDefault(Called(t, double, flags, compose, defchar), [w], 0) <==> IsReplaced(t, flags, w)
  {
  }

  // Without composition every character is written for itself.
  lemma {:induction false} OneByOne(c: Conversion, src: seq<Unit>, w: Unit, i: nat)
    requires !c.flags.compositeCheck && i <= |src|
    ensures Encode(c, src + [w], i) == Encode(c, src, i) + Encode(c, [w], 0)
    ensures UsesDefault(c, src + [w], i) <==> UsesDefault(c, src, i) || UsesDefault(c, [w], 0)
    decreases |src| - i
  {
    var all := src + [w];
    OneCode(c, w);
    if i < |src| {
      OneByOne(c, src, w, i + 1);
      assert Choose(c, all, i) == Choose(c, src, i);
    } else {
      assert Encode(c, all, i + 1) == [] && Choose(c, all, i) == Choose(c, [w], 0).(next := i + 1);
    }
  }

  // ---------------------------------------------------------------------------------
  // A character and one that may compose with it
  // ---------------------------------------------------------------------------------

  lemma TwoCodes(c: Conversion, a: Unit, b: Unit)
    ensures var r := Choose(c, [a, b], 0);
            Encode(c, [a, b], 0) == Bytes(r.code) + if r.next == 2 then [] else Encode(c, [b], 0)
  {
    OneCode(c, b);
    assert Encode(c, [a, b], 2) == [];
    assert Encode(c, [a, b], 1) == Bytes(Choose(c, [a, b], 1).code) + Encode(c, [a, b], 2);
    assert Choose(c, [a, b], 1).code == Choose(c, [b], 0).code;
  }

  // With WC_COMPOSITECHECK, where the two have a composition: its code, if that need not be replaced;
  // otherwise, with WC_DEFAULTCHAR, the default character for both; otherwise, with WC_DISCARDNS, the
  // first one alone; otherwise each for itself.
  lemma ComposedPair(c: Conversion, a: Unit, b: Unit)
    requires c.flags.compositeCheck && c.compose(a, b) != 0
    ensures Encode(c, [a, b], 0) ==
            if !IsReplaced(c.table, c.flags, c.compose(a, b)) then Bytes(c.table.toCode(c.compose(a, b)))
            else if c.flags.defaultChar then Bytes(c.def)
            else if c.flags.discardNs then Encode(c, [a], 0)
            else Encode(c, [a], 0) + Encode(c, [b], 0)
  {
    TwoCodes(c, a, b);
    OneCode(c, a);
  }

  // Without the flag, or without a composition, each for itself.
  lemma SeparatePair(c: Conversion, a: Unit, b: Unit)
    requires !c.flags.compositeCheck || c.compose(a, b) == 0
    ensures Encode(c, [a, b], 0) == Encode(c, [a], 0) + Encode(c, [b], 0)
  {
    TwoCodes(c, a, b);
    OneCode(c, a);
  }

  // ---------------------------------------------------------------------------------
  // From bytes
  // ---------------------------------------------------------------------------------

  // A lead byte takes the next byte along, but not a zero, and not where there is none.
  lemma LeadByte(t: Table, a: Byte, b: Byte)
    ensures Decode(t, [a], 0) == [t.cp2uni(a)]
    ensures Decode(t, [a, b], 0) ==
            if t.lead(a) != 0 && b != 0 then [t.cp2uni(t.lead(a) * 0x100 + b)] else [t.cp2uni(a), t.cp2uni(b)]
  {
    assert Decode(t, [a], 1) == [] && Decode(t, [a, b], 2) == [];
    assert Decode(t, [a, b], 1) == [t.cp2uni(b)] + Decode(t, [a, b], 2);
  }
}
