/**
  What the UTF-8 routines make of sources that are not well-formed (WinPort/wineguts/utf8.c).
  */
module MalformedUtf8 {
  import opened Characters
  import opened Wrappers
  import opened Utf8

  // A high surrogate and a low one behind it.
  predicate IsPair(src: seq<Unit>, i: nat)
    requires i < |src|
  {
    0xD800 <= src[i] <= 0xDBFF && i + 1 < |src| && 0xDC00 <= src[i + 1] <= 0xDFFF
  }

  // A surrogate alone is dropped, or refused when the flag is strict; nothing else is lost with it.
  lemma LoneSurrogate(src: seq<Unit>, i: nat)
    requires i < |src| && 0xD800 <= src[i] <= 0xDFFF && !IsPair(src, i)
    ensures EncodeFrom(src, i, false) == EncodeFrom(src, i + 1, false)
    ensures EncodeFrom(src, i, true) == Output([], true)
  {
  }

  lemma SurrogatePair(src: seq<Unit>, i: nat, strict: bool)
    requires i < |src| && IsPair(src, i)
    ensures EncodeFrom(src, i, strict) ==
            Prepend(Utf8Bytes(PairValue(src[i] - 0xD800, src[i + 1] - 0xDC00)), EncodeFrom(src, i + 2, strict))
  {
    assert SurrogateValue(src, i) == PairValue(src[i] - 0xD800, src[i + 1] - 0xDC00);
  }

  // Ten bits of each, above the first plane.
  function PairValue(high: nat, low: nat): (v: nat)
    requires high < 0x400 && low < 0x400
    ensures 0x1_0000 <= v <= 0x10_FFFF
  {
    0x1_0000 + high * 0x400 + low
  }

  lemma NoSurrogate(src: seq<Unit>, i: nat, strict: bool)
    requires i < |src| && (src[i] < 0xD800 || src[i] > 0xDFFF)
    ensures EncodeFrom(src, i, strict) == Prepend(Utf8Bytes(src[i]), EncodeFrom(src, i + 1, strict))
  {
  }

  // ---------------------------------------------------------------------------------
  // Bytes that are no character
  // ---------------------------------------------------------------------------------

  predicate Needs(lead: Byte, n: nat) {
    (n == 1 && 0xC2 <= lead <= 0xDF) || (n == 2 && 0xE0 <= lead <= 0xEF) || (n == 3 && 0xF0 <= lead <= 0xF4)
  }

  // Decoding goes on at byte k; a strict decoder stops.
  ghost predicate Drops(src: seq<Byte>, i: nat, k: nat)
    requires i < |src| && k <= |src|
  {
    && DecodeFrom(src, i, false) == DecodeFrom(src, k, false)
    && DecodeFrom(src, i, true) == Output([], true)
  }

  // A byte that starts no character is dropped alone.
  lemma NoLeadByte(src: seq<Byte>, i: nat)
    requires i < |src| && (0x80 <= src[i] <= 0xC1 || src[i] >= 0xF5)
    ensures Drops(src, i, i + 1)
  {
  }

  // So is a lead byte whose bytes would reach past the end of the source.
  lemma SourceTooShort(src: seq<Byte>, i: nat, n: nat)
    requires i < |src| && Needs(src[i], n) && i + 1 + n > |src|
    ensures Drops(src, i, i + 1)
  {
  }

  // Otherwise the lead byte goes with the continuation bytes behind it, up to the first byte that is none.
  lemma BrokenOff(src: seq<Byte>, i: nat, n: nat, k: nat)
    requires i < |src| && Needs(src[i], n) && i + 1 + n <= |src| && k < n
    requires forall j | i + 1 <= j < i + 1 + k :: 0x80 <= src[j] <= 0xBF
    requires src[i + 1 + k] < 0x80 || src[i + 1 + k] > 0xBF
    ensures Drops(src, i, i + 1 + k)
  {
    TrailBroken(src, i + 1, n, k, LeadBits(src[i]), MinValue(n));
  }

  lemma {:induction false} TrailBroken(src: seq<Byte>, i: nat, n: nat, k: nat, res: nat, min: nat)
    requires i + n <= |src| && k < n
    requires forall j | i <= j < i + k :: 0x80 <= src[j] <= 0xBF
    requires src[i + k] < 0x80 || src[i + k] > 0xBF
    ensures DecodeTrail(src, i, n, res, min) == Decoded(None, i + k)
    decreases k
  {
    if k > 0 {
      TrailBroken(src, i + 1, n - 1, k - 1, res * 64 + (src[i] - 0x80), min);
    }
  }

  // A complete sequence that is longer than need be, or beyond U+10FFFF, is dropped as a whole.
  lemma TooLong(src: seq<Byte>, i: nat)
    requires i + 2 < |src| && src[i] == 0xE0 && 0x80 <= src[i + 1] < 0xA0 && IsTrail(src[i + 2])
    ensures Drops(src, i, i + 3)
  {
    ThreeBytes(src, i, 0, src[i + 1] - 0x80, src[i + 2] - 0x80);
  }

  lemma OutOfRange(src: seq<Byte>, i: nat)
    requires i + 3 < |src| && IsTrail(src[i + 1]) && IsTrail(src[i + 2]) && IsTrail(src[i + 3])
    requires (src[i] == 0xF0 && src[i + 1] < 0x90) || (src[i] == 0xF4 && src[i + 1] >= 0x90)
    ensures Drops(src, i, i + 4)
  {
    FourBytes(src, i, src[i] - 0xF0, src[i + 1] - 0x80, src[i + 2] - 0x80, src[i + 3] - 0x80);
  }

  // A surrogate in three bytes is taken, as the unit that it is.
  lemma SurrogateIsTaken(src: seq<Byte>, i: nat, strict: bool)
    requires i + 2 < |src| && src[i] == 0xED && 0xA0 <= src[i + 1] <= 0xBF && IsTrail(src[i + 2])
    ensures DecodeFrom(src, i, strict) ==
            Prepend([ThreeValue(0xD, src[i + 1] - 0x80, src[i + 2] - 0x80)], DecodeFrom(src, i + 3, strict))
  {
    ThreeBytes(src, i, 0xD, src[i + 1] - 0x80, src[i + 2] - 0x80);
  }

  function ThreeValue(a: nat, b: nat, c: nat): (v: nat)
    requires a < 0x10 && b < 0x40 && c < 0x40
    ensures v < 0x1_0000
  {
    (a * 0x40 + b) * 0x40 + c
  }

  lemma ThreeBytes(src: seq<Byte>, i: nat, a: nat, b: nat, c: nat)
    requires i + 2 < |src| && a < 0x10 && b < 0x40 && c < 0x40
    requires src[i] == 0xE0 + a && src[i + 1] == 0x80 + b && src[i + 2] == 0x80 + c
    ensures DecodeChar(src, i) ==
            Decoded(if ThreeValue(a, b, c) < 0x800 then None else Some(ThreeValue(a, b, c)), i + 3)
  {
    assert DecodeTrail(src, i + 1, 2, a, 0x800) == DecodeTrail(src, i + 2, 1, a * 64 + b, 0x800);
    assert DecodeTrail(src, i + 2, 1, a * 64 + b, 0x800) == DecodeTrail(src, i + 3, 0, ThreeValue(a, b, c), 0x800);
  }

  lemma FourBytes(src: seq<Byte>, i: nat, l: nat, a: nat, b: nat, c: nat)
    requires i + 3 < |src| && l <= 4 && a < 0x40 && b < 0x40 && c < 0x40
    requires src[i] == 0xF0 + l && src[i + 1] == 0x80 + a && src[i + 2] == 0x80 + b && src[i + 3] == 0x80 + c
    ensures var v := ((l * 64 + a) * 64 + b) * 64 + c;
            DecodeChar(src, i) == Decoded(if v < 0x10000 then None else Some(v), i + 4)
  {
    var v := ((l * 64 + a) * 64 + b) * 64 + c;
    assert DecodeTrail(src, i + 1, 3, l, 0x10000) == DecodeTrail(src, i + 2, 2, l * 64 + a, 0x10000);
    assert DecodeTrail(src, i + 2, 2, l * 64 + a, 0x10000) ==
      DecodeTrail(src, i + 3, 1, (l * 64 + a) * 64 + b, 0x10000);
    assert DecodeTrail(src, i + 3, 1, (l * 64 + a) * 64 + b, 0x10000) == DecodeTrail(src, i + 4, 0, v, 0x10000);
  }
}
