/**
  Conversion between wide characters and the bytes of a code page
  (WinPort/wineguts/wctomb.c and mbtowc.c).

  The tables and wine_compose are parameters. A single-byte code page is one whose codes are
  below 256 and that has no lead bytes.
  */
module CodePages {
  import opened Characters
  import opened Wrappers
  import opened Sequences
  import opened OutputBuffers

  type Code = Unit

  datatype Table = Table(
    toCode: Unit -> Code,   // uni2cp_high and uni2cp_low
    lead: Byte -> Byte,     // cp2uni_leadbytes
    cp2uni: nat -> Unit,
    defChar: Code)

  datatype Flags = Flags(compositeCheck: bool, defaultChar: bool, discardNs: bool, noBestFit: bool)

  const NO_FLAGS := Flags(false, false, false, false)

  // A conversion: `def` replaces what cannot be mapped; `compose` gives 0 for no composition.
  datatype Conversion = Conversion(table: Table, flags: Flags, def: Code, compose: (Unit, Unit) -> Unit)

  ghost predicate SingleByte(t: Table) {
    t.defChar < 0x100 && (forall w :: t.toCode(w) < 0x100) && (forall b :: t.lead(b) == 0)
  }

  // ---------------------------------------------------------------------------------
  // From wide characters to bytes
  // ---------------------------------------------------------------------------------

  function Bytes(code: Code): seq<Byte> {
    if code >= 0x100 then [code / 0x100, code % 0x100] else [code]
  }

  // The character that a code stands for.
  function FromCode(t: Table, code: Code): Unit {
    if code >= 0x100 then t.cp2uni(t.lead(code / 0x100) * 0x100 + code % 0x100) else t.cp2uni(code)
  }

  // is_valid_sbcs_mapping and is_valid_dbcs_mapping
  predicate IsValidMapping(c: Conversion, w: Unit, code: Code) {
    c.flags.noBestFit || code == c.table.defChar ==> FromCode(c.table, code) == w
  }

  datatype Choice = Choice(code: Code, used: bool, next: nat)

  function ChooseSingle(c: Conversion, w: Unit, next: nat): Choice {
    var code := c.table.toCode(w);
    if IsValidMapping(c, w, code) then Choice(code, false, next) else Choice(c.def, true, next)
  }

  function Composed(c: Conversion, src: seq<Unit>, i: nat): Unit
    requires i < |src|
  {
    if c.flags.compositeCheck && i + 1 < |src| then c.compose(src[i], src[i + 1]) else 0
  }

  // The code for the next one or two characters, and where the following ones start.
  function Choose(c: Conversion, src: seq<Unit>, i: nat): (r: Choice)
    requires i < |src|
    ensures i < r.next <= i + 2 && r.next <= |src|
  {
    var composed := Composed(c, src, i);
    var code := c.table.toCode(composed);
    if composed == 0 then ChooseSingle(c, src[i], i + 1)
    else if IsValidMapping(c, composed, code) then Choice(code, false, i + 2)
    else if c.flags.defaultChar then Choice(c.def, true, i + 2)
    else ChooseSingle(c, src[i], if c.flags.discardNs then i + 2 else i + 1)
  }

  function Encode(c: Conversion, src: seq<Unit>, i: nat): seq<Byte>
    requires i <= |src|
    decreases |src| - i
  {
    if i == |src| then [] else var r := Choose(c, src, i); Bytes(r.code) + Encode(c, src, r.next)
  }

  // What of it goes into a buffer with that much room: whole codes, up to the first that does not fit.
  function EncodeInto(c: Conversion, src: seq<Unit>, i: nat, room: nat): (fit: seq<Byte>)
    requires i <= |src|
    ensures |fit| <= room
    decreases |src| - i
  {
    if i == |src| then []
    else
      var r := Choose(c, src, i);
      if |Bytes(r.code)| > room then []
      else Bytes(r.code) + EncodeInto(c, src, r.next, room - |Bytes(r.code)|)
  }

  // No half of a code, and no room for the next one.
  lemma {:induction false} EncodeIntoIsLongest(c: Conversion, src: seq<Unit>, i: nat, room: nat) returns (end: nat)
    requires i <= |src|
    ensures i <= end <= |src| && EncodeInto(c, src, i, room) + Encode(c, src, end) == Encode(c, src, i)
    ensures end < |src| ==> |EncodeInto(c, src, i, room)| + |Bytes(Choose(c, src, end).code)| > room
    decreases |src| - i
  {
    end := i;
    if i < |src| {
      var r := Choose(c, src, i);
      if |Bytes(r.code)| <= room {
        end := EncodeIntoIsLongest(c, src, r.next, room - |Bytes(r.code)|);
        Associate3(
          Bytes(r.code), EncodeInto(c, src, r.next, room - |Bytes(r.code)|), Encode(c, src, end));
      }
    }
  }

  // Whether the default character stands for something.
  predicate UsesDefault(c: Conversion, src: seq<Unit>, i: nat)
    requires i <= |src|
    decreases |src| - i
  {
    i < |src| && var r := Choose(c, src, i); r.used || UsesDefault(c, src, r.next)
  }

  // The choice as the loops make it.
  method ChooseCode(c: Conversion, src: seq<Unit>, at: nat) returns (code: Code, used: bool, i: nat)
    requires at < |src|
    ensures Choice(code, used, i) == Choose(c, src, at)
  {
    used, i := false, at;
    var wch := src[i];
    if c.flags.compositeCheck && |src| - i > 1 {
      var composed := c.compose(src[i], src[i + 1]);
      if composed != 0 {
        code := c.table.toCode(composed);
        if IsValidMapping(c, composed, code) {
          return code, false, i + 2;
        }
        if c.flags.defaultChar {
          return c.def, true, i + 2;
        }
        if c.flags.discardNs {
          i := i + 1;
        }
      }
    }
    code := c.table.toCode(wch);
    if !IsValidMapping(c, wch, code) {
      code, used := c.def, true;
    }
    i := i + 1;
  }

  // A code into the buffer; no half of it is left behind.
  method OutputCode(dst: array<Byte>, d: nat, code: Code, ghost before: seq<Byte>, ghost out: seq<Byte>)
    returns (ok: bool, next: nat)
    requires dst.Length > 0 && Written(dst[..], before, out) && d == |out|
    modifies dst
    ensures WroteOrFull(ok, next, dst[..], before, out + Bytes(code))
    ensures !ok ==> dst[..] == old(dst[..])
  {
    next := d;
    ok := true;
    if code >= 0x100 {
      if dst.Length - d <= 1 {
        return false, next;
      }
      ok, next := Write(dst, next, code / 0x100, before, out);
      ok, next := Write(dst, next, code % 0x100, before, out + [code / 0x100]);
      assert out + [code / 0x100] + [code % 0x100] == out + Bytes(code);
    } else {
      ok, next := Write(dst, next, code, before, out);
    }
  }

  // What the conversion loops keep: `out` is done, the rest starts at i.
  ghost predicate Converting(
    c: Conversion, src: seq<Unit>, i: nat, used: bool, dst: seq<Byte>, before: seq<Byte>, out: seq<Byte>) {
    && i <= |src| && before != [] && Written(dst, before, out) && |out| <= |before|
    && out + Encode(c, src, i) == Encode(c, src, 0)
    && out + EncodeInto(c, src, i, |before| - |out|) == EncodeInto(c, src, 0, |before|)
    && (UsesDefault(c, src, 0) <==> used || UsesDefault(c, src, i))
  }

  lemma OneMore(
    c: Conversion, src: seq<Unit>, i: nat, used: bool, dst: seq<Byte>, before: seq<Byte>, out: seq<Byte>,
    after: seq<Byte>)
    requires Converting(c, src, i, used, dst, before, out) && i < |src|
    requires var r := Choose(c, src, i);
             |out + Bytes(r.code)| <= |before| && Written(after, before, out + Bytes(r.code))
    ensures var r := Choose(c, src, i);
            Converting(c, src, r.next, used || r.used, after, before, out + Bytes(r.code))
  {
    var r := Choose(c, src, i);
    Associate3(out, Bytes(r.code), Encode(c, src, r.next));
    Associate3(out, Bytes(r.code), EncodeInto(c, src, r.next, |before| - |out| - |Bytes(r.code)|));
  }

  lemma NoneMore(
    c: Conversion, src: seq<Unit>, i: nat, used: bool, dst: seq<Byte>, before: seq<Byte>, out: seq<Byte>)
    requires Converting(c, src, i, used, dst, before, out) && i < |src|
    requires |out + Bytes(Choose(c, src, i).code)| > |before|
    ensures Converted(-1, Encode(c, src, 0), EncodeInto(c, src, 0, |before|), before, dst)
  {
    var r := Choose(c, src, i);
    Associate3(out, Bytes(r.code), Encode(c, src, r.next));
    assert out + [] == out;
  }

  // wcstombs_dbcs_slow, and wcstombs_sbcs_slow where no code takes two bytes.
  method WcstombsSlow(c: Conversion, src: seq<Unit>, dst: array<Byte>) returns (ret: int, used: bool)
    requires dst.Length > 0
    modifies dst
    ensures Converted(ret, Encode(c, src, 0), EncodeInto(c, src, 0, dst.Length), old(dst[..]), dst[..])
    ensures ret >= 0 ==> (used <==> UsesDefault(c, src, 0))
  {
    ghost var before, out := dst[..], [];
    used := false;
    var i, d := 0, 0;
    while i < |src| && d < dst.Length
      invariant 0 <= i && d == |out| && Converting(c, src, i, used, dst[..], before, out)
      decreases |src| - i
    {
      ghost var was, now, at := used, dst[..], i;
      var code, isDefault, next := ChooseCode(c, src, i);
      used := used || isDefault;
      var ok;
      ok, d := OutputCode(dst, d, code, before, out);
      if !ok {
        NoneMore(c, src, at, was, dst[..], before, out);
        return -1, used;
      }
      OneMore(c, src, at, was, now, before, out, dst[..]);
      out := out + Bytes(code);
      i := next;
    }
    if i < |src| {
      NoneMore(c, src, i, used, dst[..], before, out);
      return -1, used;
    }
    AllWritten(dst[..], before, out, [], EncodeInto(c, src, 0, dst.Length));
    assert out + [] == out;
    return d, used;
  }

  // get_length_dbcs behind its short path, and get_length_sbcs.
  method GetLength(c: Conversion, src: seq<Unit>) returns (len: nat, used: bool)
    ensures len == |Encode(c, src, 0)|
    ensures used <==> UsesDefault(c, src, 0)
  {
    len, used := 0, false;
    var i := 0;
    while i < |src|
      invariant 0 <= i <= |src| && len + |Encode(c, src, i)| == |Encode(c, src, 0)|
      invariant UsesDefault(c, src, 0) <==> used || UsesDefault(c, src, i)
      decreases |src| - i
    {
      var code, isDefault, next := ChooseCode(c, src, i);
      used := used || isDefault;
      len := len + if code >= 0x100 then 2 else 1;
      i := next;
    }
  }

  // ---------------------------------------------------------------------------------
  // The fast forms, without flags
  // ---------------------------------------------------------------------------------

  function Mapped(t: Table, src: seq<Unit>, i: nat): seq<Byte>
    requires i <= |src|
    decreases |src| - i
  {
    if i == |src| then [] else Bytes(t.toCode(src[i])) + Mapped(t, src, i + 1)
  }

  function MappedInto(t: Table, src: seq<Unit>, i: nat, room: nat): (fit: seq<Byte>)
    requires i <= |src|
    ensures |fit| <= room
    decreases |src| - i
  {
    if i == |src| || |Bytes(t.toCode(src[i]))| > room then []
    else Bytes(t.toCode(src[i])) + MappedInto(t, src, i + 1, room - |Bytes(t.toCode(src[i]))|)
  }

  // Without flags and with the table's own default character the fast forms do the same.
  lemma {:induction false} FastIsSlow(c: Conversion, src: seq<Unit>, i: nat)
    requires c.flags == NO_FLAGS && c.def == c.table.defChar && i <= |src|
    ensures Encode(c, src, i) == Mapped(c.table, src, i)
    decreases |src| - i
  {
    if i < |src| {
      FastIsSlow(c, src, i + 1);
    }
  }

  lemma {:induction false} FastFillsLikeSlow(c: Conversion, src: seq<Unit>, i: nat, room: nat)
    requires c.flags == NO_FLAGS && c.def == c.table.defChar && i <= |src|
    ensures EncodeInto(c, src, i, room) == MappedInto(c.table, src, i, room)
    decreases |src| - i
  {
    if i < |src| {
      var n := |Bytes(c.table.toCode(src[i]))|;
      assert Choose(c, src, i).code == c.table.toCode(src[i]) && Choose(c, src, i).next == i + 1;
      if n <= room {
        FastFillsLikeSlow(c, src, i + 1, room - n);
      }
    }
  }

  lemma {:induction false} MappedSingle(t: Table, src: seq<Unit>, i: nat)
    requires SingleByte(t) && i <= |src|
    ensures |Mapped(t, src, i)| == |src| - i
    ensures forall k | i <= k < |src| :: Mapped(t, src, i)[k - i] == t.toCode(src[k])
    decreases |src| - i
  {
    if i < |src| {
      MappedSingle(t, src, i + 1);
    }
  }

  // One byte after the other fills the whole buffer.
  lemma {:induction false} MappedSingleInto(t: Table, src: seq<Unit>, i: nat, room: nat)
    requires SingleByte(t) && i <= |src|
    ensures MappedInto(t, src, i, room) == Front(Mapped(t, src, i), room)
    decreases |src| - i
  {
    MappedSingle(t, src, i);
    if i < |src| && room > 0 {
      MappedSingleInto(t, src, i + 1, room - 1);
      MappedSingle(t, src, i + 1);
    }
  }

  // What its loop keeps: `out` is done, the rest starts at i.
  ghost predicate Mapping(t: Table, src: seq<Unit>, i: nat, dst: seq<Byte>, before: seq<Byte>, out: seq<Byte>) {
    && i <= |src| && before != [] && Written(dst, before, out) && |out| <= |before|
    && out + Mapped(t, src, i) == Mapped(t, src, 0)
    && out + MappedInto(t, src, i, |before| - |out|) == MappedInto(t, src, 0, |before|)
  }

  lemma OneMoreMapped(
    t: Table, src: seq<Unit>, i: nat, dst: seq<Byte>, before: seq<Byte>, out: seq<Byte>, after: seq<Byte>)
    requires Mapping(t, src, i, dst, before, out) && i < |src|
    requires var b := Bytes(t.toCode(src[i])); |out + b| <= |before| && Written(after, before, out + b)
    ensures Mapping(t, src, i + 1, after, before, out + Bytes(t.toCode(src[i])))
  {
    var b := Bytes(t.toCode(src[i]));
    Associate3(out, b, Mapped(t, src, i + 1));
    Associate3(out, b, MappedInto(t, src, i + 1, |before| - |out| - |b|));
  }

  lemma NoneMoreMapped(t: Table, src: seq<Unit>, i: nat, dst: seq<Byte>, before: seq<Byte>, out: seq<Byte>)
    requires Mapping(t, src, i, dst, before, out) && i < |src|
    requires |out + Bytes(t.toCode(src[i]))| > |before|
    ensures Converted(-1, Mapped(t, src, 0), MappedInto(t, src, 0, |before|), before, dst)
  {
    Associate3(out, Bytes(t.toCode(src[i])), Mapped(t, src, i + 1));
    assert out + [] == out;
  }

  // wcstombs_dbcs
  method WcstombsDbcs(t: Table, src: seq<Unit>, dst: array<Byte>) returns (ret: int)
    requires dst.Length > 0
    modifies dst
    ensures Converted(ret, Mapped(t, src, 0), MappedInto(t, src, 0, dst.Length), old(dst[..]), dst[..])
  {
    ghost var before, out := dst[..], [];
    var i, d := 0, 0;
    while i < |src| && d < dst.Length
      invariant 0 <= i && d == |out| && Mapping(t, src, i, dst[..], before, out)
      decreases |src| - i
    {
      ghost var now := dst[..];
      var res := t.toCode(src[i]);
      var ok;
      ok, d := OutputCode(dst, d, res, before, out);
      if !ok {
        NoneMoreMapped(t, src, i, dst[..], before, out);
        return -1;
      }
      OneMoreMapped(t, src, i, now, before, out, dst[..]);
      out := out + Bytes(res);
      i := i + 1;
    }
    if i < |src| {
      NoneMoreMapped(t, src, i, dst[..], before, out);
      return -1;
    }
    AllWritten(dst[..], before, out, Mapped(t, src, i), MappedInto(t, src, 0, dst.Length));
    return d;
  }

  // The loops that are unrolled sixteen times, for both directions.
  method MapBlock<S, T(0)>(f: S -> T, src: seq<S>, dst: array<T>, at: nat)
    requires at + 16 <= |src| && at + 16 <= dst.Length
    modifies dst
    ensures forall k | 0 <= k < dst.Length :: dst[k] == if at <= k < at + 16 then f(src[k]) else old(dst[k])
  {
    MapFour(f, src, dst, at);
    MapFour(f, src, dst, at + 4);
    MapFour(f, src, dst, at + 8);
    MapFour(f, src, dst, at + 12);
  }

  method MapFour<S, T(0)>(f: S -> T, src: seq<S>, dst: array<T>, at: nat)
    requires at + 4 <= |src| && at + 4 <= dst.Length
    modifies dst
    ensures forall k | 0 <= k < dst.Length :: dst[k] == if at <= k < at + 4 then f(src[k]) else old(dst[k])
  {
    dst[at] := f(src[at]);
    dst[at + 1] := f(src[at + 1]);
    dst[at + 2] := f(src[at + 2]);
    dst[at + 3] := f(src[at + 3]);
  }

  // wcstombs_sbcs and mbstowcs_sbcs: as much as fits is mapped element by element.
  method MapUnrolled<S, T(0)>(f: S -> T, src: seq<S>, dst: array<T>) returns (ret: int)
    modifies dst
    ensures ret == if dst.Length < |src| then -1 else |src|
    ensures forall k | 0 <= k < dst.Length :: dst[k] == if k < |src| then f(src[k]) else old(dst[k])
  {
    var srclen := |src|;
    ret := srclen;
    if dst.Length < srclen {
      srclen := dst.Length;
      ret := -1;
    }
    var at := 0;
    while srclen - at >= 16
      invariant 0 <= at <= srclen
      invariant forall k | 0 <= k < dst.Length :: dst[k] == if k < at then f(src[k]) else old(dst[k])
    {
      MapBlock(f, src, dst, at);
      at := at + 16;
    }
    // the cases of the switch fall through
    var n := srclen - at;
    while n > 0
      invariant 0 <= n <= srclen - at
      invariant forall k | 0 <= k < dst.Length :: dst[k] == if k < srclen - n then f(src[k]) else old(dst[k])
    {
      dst[srclen - n] := f(src[srclen - n]);
      n := n - 1;
    }
  }

  // ---------------------------------------------------------------------------------
  // The length query of a double-byte code page
  // ---------------------------------------------------------------------------------

  // The length query without a default character, `used` or composition.
  method ShortLength(t: Table, src: seq<Unit>) returns (len: nat)
    ensures len == |Mapped(t, src, 0)|
  {
    len := 0;
    for i := 0 to |src|
      invariant len + |Mapped(t, src, i)| == |Mapped(t, src, 0)|
    {
      if t.toCode(src[i]) >= 0x100 {
        len := len + 1;
      }
      len := len + 1;
    }
  }

  // Whatever the default character replaces takes as many bytes as the default character.
  ghost predicate ReplacesSameLength(c: Conversion) {
    forall w: Unit :: !IsValidMapping(c, w, c.table.toCode(w)) ==> |Bytes(c.table.toCode(w))| == |Bytes(c.def)|
  }

  lemma {:induction false} SameLength(c: Conversion, src: seq<Unit>, i: nat)
    requires !c.flags.compositeCheck && ReplacesSameLength(c) && i <= |src|
    ensures |Encode(c, src, i)| == |Mapped(c.table, src, i)|
    decreases |src| - i
  {
    if i < |src| {
      SameLength(c, src, i + 1);
    }
  }

  ghost predicate ShortPathIsExact(c: Conversion, src: seq<Unit>) {
    |Encode(c, src, 0)| == |Mapped(c.table, src, 0)|
  }

  // The short path ignores WC_NO_BEST_FIT_CHARS. It is right for every string exactly when no
  // replacement changes the length.
  lemma ShortPathIsExactExactlyWhen(c: Conversion)
    requires !c.flags.compositeCheck
    ensures (forall src :: ShortPathIsExact(c, src)) <==> ReplacesSameLength(c)
  {
    if ReplacesSameLength(c) {
      forall src
        ensures ShortPathIsExact(c, src)
      {
        SameLength(c, src, 0);
      }
    } else {
      var w: Unit :| !IsValidMapping(c, w, c.table.toCode(w)) && |Bytes(c.table.toCode(w))| != |Bytes(c.def)|;
      assert Encode(c, [w], 1) == [] && Mapped(c.table, [w], 1) == [];
      assert Encode(c, [w], 0) == Bytes(c.def) + Encode(c, [w], 1) &&
        Mapped(c.table, [w], 0) == Bytes(c.table.toCode(w)) + Mapped(c.table, [w], 1);
      assert !ShortPathIsExact(c, [w]);
    }
  }

  // A page that maps one ideograph to two bytes that stand for another character, with "?" as its
  // default: two bytes are counted, and one is written.
  lemma ShortPathMiscounts() returns (c: Conversion)
    ensures c.flags == NO_FLAGS.(noBestFit := true) && c.def == c.table.defChar
    ensures |Mapped(c.table, [0x4E00], 0)| == 2 && Encode(c, [0x4E00], 0) == [0x3F]
    ensures !ShortPathIsExact(c, [0x4E00])
  {
    var table := Table(
      (w: Unit) => if w == 0x4E00 then 0x8140 else 0x3F, (b: Byte) => if b == 0x81 then 1 else 0,
      (n: nat) => 0x3F, 0x3F);
    c := Conversion(table, NO_FLAGS.(noBestFit := true), 0x3F, (a: Unit, b: Unit) => 0);
    assert Encode(c, [0x4E00], 1) == [] && Mapped(table, [0x4E00], 1) == [];
    assert !IsValidMapping(c, 0x4E00, 0x8140);
    assert Choose(c, [0x4E00], 0) == Choice(0x3F, true, 1);
    assert Bytes(0x8140) == [0x81, 0x40];
  }

  // Without WC_NO_BEST_FIT_CHARS only the default character itself is ever replaced, by itself.
  lemma NoFlagNoHarm(c: Conversion)
    requires !c.flags.noBestFit && c.def == c.table.defChar
    ensures ReplacesSameLength(c)
  {
  }

  // ---------------------------------------------------------------------------------
  // wine_cp_wcstombs
  // ---------------------------------------------------------------------------------

  // get_defchar_dbcs, and the first byte for a single-byte code page
  function DefaultChar(t: Table, double: bool, defchar: Option<(Byte, Byte)>): Code {
    match defchar
    case None => if double then t.defChar else t.defChar % 0x100
    case Some(d) => if !double || d.1 == 0 then d.0 else d.0 * 0x100 + d.1
  }

  method Wcstombs(t: Table, double: bool, flags: Flags, compose: (Unit, Unit) -> Unit, src: seq<Unit>, dst: array<Byte>,
                  defchar: Option<(Byte, Byte)>, wantUsed: bool) returns (ret: int, used: bool)
    requires !double ==> SingleByte(t)
    modifies dst
    ensures var c := Conversion(t, flags, DefaultChar(t, double, defchar), compose);
            if double && dst.Length == 0 && defchar == None && !wantUsed && !flags.compositeCheck then
              ret == |Mapped(t, src, 0)|
            else Converted(ret, Encode(c, src, 0), EncodeInto(c, src, 0, dst.Length), old(dst[..]), dst[..])
                 && (wantUsed && ret >= 0 ==> (used <==> UsesDefault(c, src, 0)))
  {
    var c := Conversion(t, flags, DefaultChar(t, double, defchar), compose);
    used := false;
    if flags == NO_FLAGS && defchar == None {
      FastIsSlow(c, src, 0);
      FastFillsLikeSlow(c, src, 0, dst.Length);
    }
    if !double {
      if flags != NO_FLAGS || defchar != None || wantUsed {
        if dst.Length == 0 {
          ret, used := GetLength(c, src);
        } else {
          ret, used := WcstombsSlow(c, src, dst);
        }
      } else {
        MappedSingle(t, src, 0);
        if dst.Length == 0 {
          ret := |src|;
        } else {
          ret := WcstombsSbcs(t, src, dst);
        }
      }
    } else if dst.Length == 0 {
      if defchar == None && !wantUsed && !flags.compositeCheck {
        ret := ShortLength(t, src);
      } else {
        ret, used := GetLength(c, src);
      }
    } else if flags != NO_FLAGS || defchar != None || wantUsed {
      ret, used := WcstombsSlow(c, src, dst);
    } else {
      ret := WcstombsDbcs(t, src, dst);
    }
  }

  method WcstombsSbcs(t: Table, src: seq<Unit>, dst: array<Byte>) returns (ret: int)
    requires SingleByte(t) && dst.Length > 0
    modifies dst
    ensures Converted(ret, Mapped(t, src, 0), MappedInto(t, src, 0, dst.Length), old(dst[..]), dst[..])
  {
    ghost var before := dst[..];
    ret := MapUnrolled((w: Unit) => t.toCode(w) % 0x100, src, dst);
    MappedSingle(t, src, 0);
    MappedSingleInto(t, src, 0, dst.Length);
    if |src| <= dst.Length {
      assert dst[..] == Mapped(t, src, 0) + before[|src|..];
    } else {
      assert dst[..] == MappedInto(t, src, 0, dst.Length);
    }
  }

  // ---------------------------------------------------------------------------------
  // From bytes to wide characters
  // ---------------------------------------------------------------------------------

  predicate IsPair(t: Table, src: seq<Byte>, i: nat)
    requires i < |src|
  {
    t.lead(src[i]) != 0 && i + 1 < |src| && src[i + 1] != 0
  }

  function Decode(t: Table, src: seq<Byte>, i: nat): seq<Unit>
    requires i <= |src|
    decreases |src| - i
  {
    if i == |src| then []
    else if IsPair(t, src, i) then [t.cp2uni(t.lead(src[i]) * 0x100 + src[i + 1])] + Decode(t, src, i + 2)
    else [t.cp2uni(src[i])] + Decode(t, src, i + 1)
  }

  // mbstowcs_dbcs; with an empty buffer, get_length_dbcs.
  method MbstowcsDbcs(t: Table, src: seq<Byte>, dst: array<Unit>) returns (ret: int)
    modifies dst
    ensures Converted(ret, Decode(t, src, 0), Front(Decode(t, src, 0), dst.Length), old(dst[..]), dst[..])
  {
    ghost var before, out := dst[..], [];
    if dst.Length == 0 {
      ret := CountDbcs(t, src);
      return;
    }
    var i, d := 0, 0;
    while i < |src| && d < dst.Length
      invariant 0 <= i <= |src| && d == |out| <= dst.Length && Written(dst[..], before, out)
      invariant out + Decode(t, src, i) == Decode(t, src, 0)
      decreases |src| - i
    {
      var ch, next := DecodeNext(t, src, i);
      var ok;
      ok, d := Write(dst, d, ch, before, out);
      Associate3(out, [ch], Decode(t, src, next));
      out := out + [ch];
      i := next;
    }
    if i < |src| {
      var ch, next := DecodeNext(t, src, i);
      FrontIsWritten(before, out, Decode(t, src, i));
      DoesNotFit(dst[..], before, out, [ch], Decode(t, src, next), Front(Decode(t, src, 0), dst.Length));
      return -1;
    }
    AllWritten(dst[..], before, out, Decode(t, src, i), Front(Decode(t, src, 0), dst.Length));
    return d;
  }

  // The next character.
  method DecodeNext(t: Table, src: seq<Byte>, i: nat) returns (ch: Unit, next: nat)
    requires i < |src|
    ensures i < next <= |src| && Decode(t, src, i) == [ch] + Decode(t, src, next)
  {
    var off: nat := t.lead(src[i]);
    if off != 0 && |src| - i > 1 && src[i + 1] != 0 {
      return t.cp2uni(off * 0x100 + src[i + 1]), i + 2;
    }
    return t.cp2uni(src[i]), i + 1;
  }

  method CountDbcs(t: Table, src: seq<Byte>) returns (len: nat)
    ensures len == |Decode(t, src, 0)|
  {
    len := 0;
    var i := 0;
    while i < |src|
      invariant 0 <= i <= |src| && len + |Decode(t, src, i)| == |Decode(t, src, 0)|
      decreases |src| - i
    {
      if t.lead(src[i]) != 0 && |src| - i > 1 && src[i + 1] != 0 {
        i := i + 1;
      }
      i := i + 1;
      len := len + 1;
    }
  }

  lemma {:induction false} DecodeSingle(t: Table, src: seq<Byte>, i: nat)
    requires SingleByte(t) && i <= |src|
    ensures |Decode(t, src, i)| == |src| - i
    ensures forall k | i <= k < |src| :: Decode(t, src, i)[k - i] == t.cp2uni(src[k])
    decreases |src| - i
  {
    if i < |src| {
      DecodeSingle(t, src, i + 1);
    }
  }

  method MbstowcsSbcs(t: Table, src: seq<Byte>, dst: array<Unit>) returns (ret: int)
    requires SingleByte(t)
    modifies dst
    ensures Converted(ret, Decode(t, src, 0), Front(Decode(t, src, 0), dst.Length), old(dst[..]), dst[..])
  {
    ghost var before := dst[..];
    DecodeSingle(t, src, 0);
    if dst.Length == 0 {
      return |src|;
    }
    ret := MapUnrolled((b: Byte) => t.cp2uni(b), src, dst);
    if |src| <= dst.Length {
      assert dst[..] == Decode(t, src, 0) + before[|src|..];
    } else {
      assert dst[..] == Front(Decode(t, src, 0), dst.Length);
    }
  }

  // ---------------------------------------------------------------------------------
  // There and back
  // ---------------------------------------------------------------------------------

  // Codes of one byte do not start with a lead byte; those of two do, and have no zero byte second.
  ghost predicate LeadsAgree(t: Table) {
    forall w: Unit :: var code := t.toCode(w);
      if code < 0x100 then t.lead(code) == 0 else t.lead(code / 0x100) != 0 && code % 0x100 != 0
  }

  lemma DecodeCode(t: Table, w: Unit, rest: seq<Byte>)
    requires LeadsAgree(t)
    ensures var b := Bytes(t.toCode(w)); Decode(t, b + rest, 0) == [FromCode(t, t.toCode(w))] + Decode(t, b + rest, |b|)
  {
  }

  lemma {:induction false} DecodeBehind(t: Table, a: seq<Byte>, b: seq<Byte>, i: nat)
    requires i <= |b|
    ensures Decode(t, a + b, |a| + i) == Decode(t, b, i)
    decreases |b| - i
  {
    if i < |b| {
      assert (a + b)[|a| + i] == b[i];
      assert i + 1 < |b| ==> (a + b)[|a| + i + 1] == b[i + 1];
      DecodeBehind(t, a, b, if IsPair(t, b, i) then i + 2 else i + 1);
    }
  }

  predicate MapsBack(t: Table, w: Unit) {
    FromCode(t, t.toCode(w)) == w
  }

  // The source with each pair replaced by its composition where that maps back, and otherwise
  // without its second character if such are discarded.
  function Composing(c: Conversion, src: seq<Unit>, i: nat): seq<Unit>
    requires i <= |src|
    decreases |src| - i
  {
    if i == |src| then []
    else
      var composed := Composed(c, src, i);
      if composed == 0 then [src[i]] + Composing(c, src, i + 1)
      else if MapsBack(c.table, composed) then [composed] + Composing(c, src, i + 2)
      else [src[i]] + Composing(c, src, if c.flags.discardNs then i + 2 else i + 1)
  }

  // With WC_NO_BEST_FIT_CHARS, what is reported as not needing the default character is lossless
  // up to composition.
  lemma {:induction false} LosslessWithoutDefault(c: Conversion, src: seq<Unit>, i: nat)
    requires LeadsAgree(c.table) && c.flags.noBestFit && i <= |src|
    requires !UsesDefault(c, src, i)
    ensures Decode(c.table, Encode(c, src, i), 0) == Composing(c, src, i)
    decreases |src| - i
  {
    if i < |src| {
      var r := Choose(c, src, i);
      LosslessWithoutDefault(c, src, r.next);
      var kept := ChosenMapsBack(c, src, i);
      DecodeFirst(c.table, kept, Encode(c, src, r.next));
    }
  }

  lemma ChosenMapsBack(c: Conversion, src: seq<Unit>, i: nat) returns (kept: Unit)
    requires c.flags.noBestFit && i < |src| && !Choose(c, src, i).used
    ensures Choose(c, src, i).code == c.table.toCode(kept) && MapsBack(c.table, kept)
    ensures Composing(c, src, i) == [kept] + Composing(c, src, Choose(c, src, i).next)
  {
    var composed := Composed(c, src, i);
    kept := if composed != 0 && MapsBack(c.table, composed) then composed else src[i];
  }

  lemma DecodeFirst(t: Table, w: Unit, rest: seq<Byte>)
    requires LeadsAgree(t) && MapsBack(t, w)
    ensures Decode(t, Bytes(t.toCode(w)) + rest, 0) == [w] + Decode(t, rest, 0)
  {
    DecodeCode(t, w, rest);
    DecodeBehind(t, Bytes(t.toCode(w)), rest, 0);
  }

  // And the default character is reported exactly when something to be kept does not map back.
  lemma {:induction false} UsesDefaultExactlyWhen(c: Conversion, src: seq<Unit>, i: nat)
    requires c.flags.noBestFit && !c.flags.defaultChar && i <= |src|
    ensures UsesDefault(c, src, i) <==>
            exists k :: 0 <= k < |Composing(c, src, i)| && !MapsBack(c.table, Composing(c, src, i)[k])
    decreases |src| - i
  {
    if i < |src| {
      var r := Choose(c, src, i);
      UsesDefaultExactlyWhen(c, src, r.next);
      var all, rest := Composing(c, src, i), Composing(c, src, r.next);
      assert all == [all[0]] + rest && (r.used <==> !MapsBack(c.table, all[0]));
      assert forall k | 0 <= k < |rest| :: all[k + 1] == rest[k];
      assert forall k | 1 <= k < |all| :: all[k] == rest[k - 1];
    }
  }

  // Without composition nothing is lost at all.
  lemma {:induction false} NothingComposed(c: Conversion, src: seq<Unit>, i: nat)
    requires !c.flags.compositeCheck && i <= |src|
    ensures Composing(c, src, i) == src[i..]
    decreases |src| - i
  {
    if i < |src| {
      NothingComposed(c, src, i + 1);
    }
  }
}
