/**
  Decoding UTF-8 with composition of characters (WinPort/wineguts/utf8.c, MB_COMPOSITE).

  wine_compose is a parameter that gives 0 for no composition.
  */
module Utf8Compose {
  import opened Characters
  import opened OutputBuffers
  import opened Sequences
  import opened Utf8
  import opened Wrappers

  type Compose = (Unit, Unit) -> Unit

  // What has been produced, and the unit that the next character may compose with, 0 for none.
  datatype Progress = Progress(out: seq<Unit>, last: Unit)

  ghost predicate ValidProgress(p: Progress) {
    p.last != 0 ==> p.out != [] && p.out[|p.out| - 1] == p.last
  }

  function Append(compose: Compose, p: Progress, v: nat, ascii: bool): (q: Progress)
    requires v <= 0x10FFFF && ValidProgress(p)
    ensures ValidProgress(q) && |p.out| <= |q.out|
  {
    if v > 0xFFFF then Progress(p.out + UnitsOf(v), 0)
    else if ascii || p.last == 0 || compose(p.last, v) == 0 then Progress(p.out + [v], v)
    else Progress(p.out[..|p.out| - 1] + [compose(p.last, v)], compose(p.last, v))
  }

  function ComposeFrom(compose: Compose, src: seq<Byte>, i: nat, p: Progress, strict: bool): (o: Output<Unit>)
    requires i <= |src| && ValidProgress(p)
    ensures |p.out| <= |o.code|
    decreases |src| - i
  {
    if i == |src| then Output(p.out, false)
    else
      var d := CharAt(src, i);
      match d.value
      case None => if strict then Output(p.out, true) else ComposeFrom(compose, src, d.next, p, strict)
      case Some(v) => ComposeFrom(compose, src, d.next, Append(compose, p, v, src[i] < 0x80), strict)
  }

  // What of it goes into a buffer with that much room, up to the first character that does not fit or
  // is invalid.
  function ComposeInto(compose: Compose, src: seq<Byte>, i: nat, p: Progress, strict: bool, room: nat)
    : (fit: seq<Unit>)
    requires i <= |src| && ValidProgress(p) && |p.out| <= room
    ensures |fit| <= room
    decreases |src| - i
  {
    if i == |src| then p.out
    else
      var d := CharAt(src, i);
      match d.value
      case None => if strict then p.out else ComposeInto(compose, src, d.next, p, strict, room)
      case Some(v) =>
        var q := Append(compose, p, v, src[i] < 0x80);
        if |q.out| > room then p.out else ComposeInto(compose, src, d.next, q, strict, room)
  }

  // get_length_mbs_utf8_compose
  method LengthCompose(compose: Compose, strict: bool, src: seq<Byte>) returns (ret: int)
    ensures Finished(ret, ComposeFrom(compose, src, 0, Progress([], 0), strict), [], [], [])
  {
    var i: nat, len: nat, last: Unit := 0, 0, 0;
    ghost var p := Progress([], 0);
    while i < |src|
      invariant i <= |src| && ValidProgress(p) && len == |p.out| && last == p.last
      invariant ComposeFrom(compose, src, 0, Progress([], 0), strict) == ComposeFrom(compose, src, i, p, strict)
      decreases |src| - i
    {
      if src[i] < 0x80 {
        p := Append(compose, p, src[i], true);
        last, len, i := src[i], len + 1, i + 1;
        continue;
      }
      var res, str := DecodeByte(src, i);
      if res.Some? && res.value <= 0xFFFF {
        p := Append(compose, p, res.value, false);
        var composed := if last != 0 then compose(last, res.value) else 0;
        if composed != 0 {
          last := composed;
        } else {
          last, len := res.value, len + 1;
        }
      } else if res.Some? && res.value <= 0x10FFFF {
        p := Append(compose, p, res.value, false);
        last, len := 0, len + 2;
      } else if strict {
        return -2;
      }
      i := str;
    }
    return len;
  }

  // One decoded character into the buffer.
  method EmitComposed(
    compose: Compose, dst: array<Unit>, index: nat, v: nat, last: Unit, ghost before: seq<Unit>, ghost p: Progress)
    returns (ok: bool, next: nat, now: Unit)
    requires v <= 0x10FFFF && ValidProgress(p) && last == p.last
    requires before != [] && Written(dst[..], before, p.out) && index == |p.out|
    modifies dst
    ensures ok ==> next == |Append(compose, p, v, false).out| && now == Append(compose, p, v, false).last
    ensures ok ==> Written(dst[..], before, Append(compose, p, v, false).out)
    ensures !ok ==> |Append(compose, p, v, false).out| > |before| && dst[..] == old(dst[..])
  {
    next, now := index, last;
    if v <= 0xFFFF {
      var composed := if last != 0 then compose(last, v) else 0;
      if composed != 0 {
        dst[index - 1] := composed;
        return true, index, composed;
      }
      now := v;
      ok, next := Write(dst, index, v, before, p.out);
    } else {
      if index + 1 >= dst.Length {
        return false, index, last;
      }
      now := 0;
      ok, next := EmitScalar(dst, index, v, before, p.out);
    }
  }

  // utf8_mbstowcs_compose
  method MbstowcsCompose(compose: Compose, strict: bool, src: seq<Byte>, dst: array<Unit>) returns (ret: int)
    modifies dst
    ensures var p := Progress([], 0);
            Finished(
              ret, ComposeFrom(compose, src, 0, p, strict), ComposeInto(compose, src, 0, p, strict, dst.Length),
              old(dst[..]), dst[..])
  {
    if dst.Length == 0 {
      ret := LengthCompose(compose, strict, src);
      return;
    }
    var i: nat, index: nat, last: Unit := 0, 0, 0;
    ghost var before, p, goal := dst[..], Progress([], 0), ComposeFrom(compose, src, 0, Progress([], 0), strict);
    ghost var fit := ComposeInto(compose, src, 0, p, strict, dst.Length);
    while i < |src|
      invariant i <= |src| && ValidProgress(p) && index == |p.out| <= dst.Length && last == p.last
      invariant Written(dst[..], before, p.out)
      invariant goal == ComposeFrom(compose, src, i, p, strict)
      invariant fit == ComposeInto(compose, src, i, p, strict, dst.Length)
      decreases |src| - i
    {
      var ok;
      if src[i] < 0x80 {
        ok, index := Write(dst, index, src[i], before, p.out);
        if !ok {
          return -1;
        }
        p := Append(compose, p, src[i], true);
        last, i := src[i], i + 1;
        continue;
      }
      var res, str := DecodeByte(src, i);
      if res.Some? && res.value <= 0x10FFFF {
        ok, index, last := EmitComposed(compose, dst, index, res.value, last, before, p);
        if !ok {
          return -1;
        }
        p := Append(compose, p, res.value, false);
      } else if strict {
        return -2;
      }
      i := str;
    }
    assert goal == Output(p.out, false);
    return index;
  }

  // ---------------------------------------------------------------------------------
  // What composes
  // ---------------------------------------------------------------------------------

  const START := Progress([], 0)

  // The bytes of v are at i, and end before j.
  ghost predicate IsCharacter(src: seq<Byte>, i: nat, v: nat, j: nat) {
    IsScalar(v) && i < j <= |src| && src[i..j] == Utf8Bytes(v)
  }

  ghost predicate IsDecoded(src: seq<Byte>, i: nat, v: nat, j: nat) {
    i < j <= |src| && v <= 0x10FFFF && CharAt(src, i) == Decoded(Some(v), j) && (src[i] < 0x80 <==> v < 0x80)
  }

  lemma CharacterIsDecoded(src: seq<Byte>, i: nat, v: nat, j: nat)
    requires IsCharacter(src, i, v, j)
    ensures IsDecoded(src, i, v, j)
  {
    assert src[i] == src[i..j][0];
    if v >= 0x80 {
      DecodesShortestForms(src, i, v);
    }
  }

  lemma OneAppended(compose: Compose, src: seq<Byte>, i: nat, v: nat, j: nat, p: Progress, strict: bool)
    requires IsDecoded(src, i, v, j) && ValidProgress(p)
    ensures ComposeFrom(compose, src, i, p, strict) ==
            ComposeFrom(compose, src, j, Append(compose, p, v, v < 0x80), strict)
  {
  }

  lemma TwoAppended(compose: Compose, src: seq<Byte>, a: nat, i: nat, b: nat, j: nat, strict: bool)
    requires IsDecoded(src, 0, a, i) && IsDecoded(src, i, b, j)
    ensures var p := Append(compose, START, a, a < 0x80);
            ComposeFrom(compose, src, 0, START, strict) ==
            ComposeFrom(compose, src, j, Append(compose, p, b, b < 0x80), strict)
  {
    OneAppended(compose, src, 0, a, i, START, strict);
    OneAppended(compose, src, i, b, j, Append(compose, START, a, a < 0x80), strict);
  }

  lemma FirstAppended(compose: Compose, a: nat)
    requires a <= 0x10FFFF
    ensures Append(compose, START, a, a < 0x80) == Progress(UnitsOf(a), if a <= 0xFFFF then a else 0)
  {
  }

  // A base and a character behind it that have a composition make one unit; but a character below
  // 0x80 never joins, and nothing joins one above U+FFFF or a NUL.
  lemma PairComposes(compose: Compose, src: seq<Byte>, a: nat, i: nat, b: nat, strict: bool)
    requires IsCharacter(src, 0, a, i) && IsCharacter(src, i, b, |src|)
    ensures ComposeFrom(compose, src, 0, START, strict) ==
            Output(
              if 0 < a <= 0xFFFF && 0x80 <= b <= 0xFFFF && compose(a, b) != 0 then [compose(a, b)]
              else UnitsOf(a) + UnitsOf(b), false)
  {
    CharacterIsDecoded(src, 0, a, i);
    CharacterIsDecoded(src, i, b, |src|);
    TwoAppended(compose, src, a, i, b, |src|, strict);
    FirstAppended(compose, a);
  }

  // What has been composed can compose with the next character, too.
  lemma ComposesAgain(compose: Compose, src: seq<Byte>, a: nat, i: nat, b: nat, j: nat, c: nat, strict: bool)
    requires IsCharacter(src, 0, a, i) && IsCharacter(src, i, b, j) && IsCharacter(src, j, c, |src|)
    requires 0 < a <= 0xFFFF && 0x80 <= b <= 0xFFFF && 0x80 <= c <= 0xFFFF
    requires compose(a, b) != 0 && compose(compose(a, b), c) != 0
    ensures ComposeFrom(compose, src, 0, START, strict) == Output([compose(compose(a, b), c)], false)
  {
    CharacterIsDecoded(src, 0, a, i);
    CharacterIsDecoded(src, i, b, j);
    CharacterIsDecoded(src, j, c, |src|);
    TwoAppended(compose, src, a, i, b, j, strict);
    FirstAppended(compose, a);
    JoinsOne(compose, a, b);
    JoinsOne(compose, compose(a, b), c);
    OneAppended(compose, src, j, c, |src|, Progress([compose(a, b)], compose(a, b)), strict);
  }

  lemma JoinsOne(compose: Compose, u: Unit, c: nat)
    requires u != 0 && 0x80 <= c <= 0xFFFF && compose(u, c) != 0
    ensures Append(compose, Progress([u], u), c, false) == Progress([compose(u, c)], compose(u, c))
  {
    assert [u][..0] == [];
  }

  // ---------------------------------------------------------------------------------
  // Composition keeps the meaning
  // ---------------------------------------------------------------------------------

  type Decomposition = Unit -> seq<Unit>

  // A composed character decomposes into what its parts decompose into.
  ghost predicate Undoes(d: Decomposition, compose: Compose) {
    forall a, b :: compose(a, b) != 0 ==> d(compose(a, b)) == d(a) + d(b)
  }

  function Flatten(d: Decomposition, s: seq<Unit>): seq<Unit> {
    if s == [] then [] else d(s[0]) + Flatten(d, s[1..])
  }

  lemma {:induction false} FlattenSum(d: Decomposition, a: seq<Unit>, b: seq<Unit>)
    ensures Flatten(d, a + b) == Flatten(d, a) + Flatten(d, b)
  {
    if a == [] {
      assert a + b == b;
    } else {
      FlattenSum(d, a[1..], b);
      TailOfSum(a, b);
      Associate3(d(a[0]), Flatten(d, a[1..]), Flatten(d, b));
    }
  }

  lemma FlattenOne(d: Decomposition, u: Unit)
    ensures Flatten(d, [u]) == d(u)
  {
    assert [u][1..] == [];
  }

  lemma AppendKeepsMeaning(compose: Compose, d: Decomposition, p: Progress, v: nat, ascii: bool)
    requires v <= 0x10FFFF && ValidProgress(p) && Undoes(d, compose)
    ensures Flatten(d, Append(compose, p, v, ascii).out) == Flatten(d, p.out) + Flatten(d, UnitsOf(v))
  {
    FlattenSum(d, p.out, UnitsOf(v));
    if v <= 0xFFFF && !ascii && p.last != 0 && compose(p.last, v) != 0 {
      var front, composed := p.out[..|p.out| - 1], compose(p.last, v);
      assert p.out == front + [p.last];
      FlattenSum(d, front, [p.last]);
      FlattenSum(d, front, [composed]);
      FlattenOne(d, p.last);
      FlattenOne(d, v);
      FlattenOne(d, composed);
      Associate3(Flatten(d, front), d(p.last), d(v));
    }
  }

  // Decomposed, the result is what the plain decoder gives, decomposed; and the same sources are refused.
  lemma {:induction false} ComposingKeepsMeaning(
    compose: Compose, d: Decomposition, src: seq<Byte>, i: nat, p: Progress, strict: bool)
    requires i <= |src| && ValidProgress(p) && Undoes(d, compose)
    ensures var composed, plain := ComposeFrom(compose, src, i, p, strict), DecodeFrom(src, i, strict);
            && composed.bad == plain.bad
            && Flatten(d, composed.code) == Flatten(d, p.out) + Flatten(d, plain.code)
            && |composed.code| <= |p.out| + |plain.code|
    decreases |src| - i
  {
    if i < |src| {
      var c := CharAt(src, i);
      if c.value.Some? {
        var v := c.value.value;
        var q := Append(compose, p, v, src[i] < 0x80);
        ComposingKeepsMeaning(compose, d, src, c.next, q, strict);
        AppendKeepsMeaning(compose, d, p, v, src[i] < 0x80);
        var rest := DecodeFrom(src, c.next, strict).code;
        FlattenSum(d, UnitsOf(v), rest);
        Associate3(Flatten(d, p.out), Flatten(d, UnitsOf(v)), Flatten(d, rest));
      } else if !strict {
        ComposingKeepsMeaning(compose, d, src, c.next, p, strict);
      }
    }
  }
}
