/**
  UTF-7 (WinPort/src/APIStringCodepages.cpp; RFC 2152, "UTF-7 Definition").

  Encoder and decoder keep a 32-bit buffer of which only the low `offset` bits matter. The
  reference functions Encode and Decode keep exactly those bits.
  */
module Utf7 {
  import opened Characters
  import opened OutputBuffers
  import opened PowersOfTwo
  import opened Sequences

  type Sextet = x: nat | x < 64

  const PLUS: Byte := 0x2B
  const MINUS: Byte := 0x2D
  const DWORD_SIZE := 0x1_0000_0000

  // utf7_can_directly_encode, its table written as ranges.
  predicate DirectlyEncodable(c: Unit) {
    || c == 0x00 || c == 0x09 || c == 0x0A || c == 0x0D || c == 0x20
    || 0x27 <= c <= 0x29 || 0x2B <= c <= 0x3A || c == 0x3F
    || 0x41 <= c <= 0x5A || 0x61 <= c <= 0x7A
  }

  // base64_encoding_table
  function Base64Char(v: Sextet): Byte {
    if v < 26 then 0x41 + v else if v < 52 then 0x61 + v - 26 else if v < 62 then 0x30 + v - 52
    else if v == 62 then 0x2B else 0x2F
  }

  // base64_decoding_table, for the characters below 0x80
  function Base64Value(c: Byte): int {
    if 0x41 <= c <= 0x5A then c - 0x41 else if 0x61 <= c <= 0x7A then c - 0x61 + 26
    else if 0x30 <= c <= 0x39 then c - 0x30 + 52 else if c == 0x2B then 62 else if c == 0x2F then 63 else -1
  }

  lemma Base64Inverse(v: Sextet)
    ensures Base64Value(Base64Char(v)) == v && Base64Char(v) < 0x80 && Base64Char(v) != MINUS
  {
  }

  // The alphabet of RFC 2045, table 1.
  lemma Base64Alphabet(v: Sextet)
    ensures v < 26 ==> Base64Char(v) == 'A' as int + v
    ensures 26 <= v < 52 ==> Base64Char(v) == 'a' as int + (v - 26)
    ensures 52 <= v < 62 ==> Base64Char(v) == '0' as int + (v - 52)
    ensures Base64Char(62) == '+' as int && Base64Char(63) == '/' as int
  {
  }

  // ---------------------------------------------------------------------------------
  // Reference functions
  // ---------------------------------------------------------------------------------

  // The base64 sextets of the low `bits` bits of v followed by the units, zero-padded.
  function Sextets(units: seq<Unit>, v: nat, bits: nat): seq<Sextet>
    requires v < Pow2(bits)
    decreases |units|, bits
  {
    if bits >= 6 then
      TopSextet(v, bits);
      [Shr(v, bits - 6)] + Sextets(units, Low(v, bits - 6), bits - 6)
    else if units == [] then
      if bits == 0 then [] else LastSextet(v, bits); [Shl(v, 6 - bits)]
    else
      NextUnit(v, bits, units[0]);
      Sextets(units[1..], v * 0x1_0000 + units[0], bits + 16)
  }

  lemma TopSextet(v: nat, bits: nat)
    requires v < Pow2(bits) && bits >= 6
    ensures Shr(v, bits - 6) < 64
  {
    Values(v);
    HighBits(v, bits - 6, 6);
  }

  lemma LastSextet(v: nat, bits: nat)
    requires v < Pow2(bits) && bits <= 6
    ensures Shl(v, 6 - bits) < 64
  {
    Values(v);
    Append(v, bits, 6 - bits, 0);
  }

  lemma NextUnit(v: nat, bits: nat, u: Unit)
    requires v < Pow2(bits)
    ensures v * 0x1_0000 + u < Pow2(bits + 16)
  {
    Values(v);
    Append(v, bits, 16, u);
  }

  function Base64(sextets: seq<Sextet>): seq<Byte> {
    seq(|sextets|, i requires 0 <= i < |sextets| => Base64Char(sextets[i]))
  }

  // The end of the run of units from i on that need base64.
  function RunEnd(src: seq<Unit>, i: nat): (j: nat)
    requires i <= |src|
    ensures i <= j <= |src|
    ensures forall k | i <= k < j :: !DirectlyEncodable(src[k])
    ensures j < |src| ==> DirectlyEncodable(src[j])
    decreases |src| - i
  {
    if i == |src| || DirectlyEncodable(src[i]) then i else RunEnd(src, i + 1)
  }

  // A whole base64 run.
  function RunOf(units: seq<Unit>): seq<Byte> {
    [PLUS] + Base64(Sextets(units, 0, 0)) + [MINUS]
  }

  // What one round of the encoder produces from index i on, and where the next one starts.
  function PieceAt(src: seq<Unit>, i: nat): seq<Byte>
    requires i < |src|
  {
    if src[i] == PLUS then [PLUS, MINUS]
    else if DirectlyEncodable(src[i]) then [src[i]]
    else RunOf(src[i..RunEnd(src, i)])
  }

  function NextIndex(src: seq<Unit>, i: nat): (j: nat)
    requires i < |src|
    ensures i < j <= |src|
  {
    if DirectlyEncodable(src[i]) then i + 1 else RunEnd(src, i)
  }

  function EncodeFrom(src: seq<Unit>, i: nat): seq<Byte>
    requires i <= |src|
    decreases |src| - i
  {
    if i == |src| then [] else PieceAt(src, i) + EncodeFrom(src, NextIndex(src, i))
  }

  function Encode(src: seq<Unit>): seq<Byte> {
    EncodeFrom(src, 0)
  }

  // What is written of a run that does not fit: byte by byte, but no padded sextet without the
  // closing '-'. A run ends in a padded sextet unless its units come in threes.
  function CutRun(units: seq<Unit>, room: nat): (cut: seq<Byte>)
    requires room < |RunOf(units)|
    ensures |cut| == if |units| % 3 != 0 && room == |RunOf(units)| - 1 then room - 1 else room
  {
    RunOf(units)[..if |units| % 3 != 0 && room == |RunOf(units)| - 1 then room - 1 else room]
  }

  function CutPiece(src: seq<Unit>, i: nat, room: nat): (cut: seq<Byte>)
    requires i < |src| && room < |PieceAt(src, i)|
    ensures |cut| <= room
  {
    if DirectlyEncodable(src[i]) then PieceAt(src, i)[..room] else CutRun(src[i..RunEnd(src, i)], room)
  }

  // What of the encoding goes into a buffer with that much room.
  function EncodeInto(src: seq<Unit>, i: nat, room: nat): (fit: seq<Byte>)
    requires i <= |src|
    ensures |fit| <= room
    decreases |src| - i
  {
    if i == |src| then []
    else if |PieceAt(src, i)| <= room then
      PieceAt(src, i) + EncodeInto(src, NextIndex(src, i), room - |PieceAt(src, i)|)
    else CutPiece(src, i, room)
  }

  lemma CutIsLongest(src: seq<Unit>, i: nat, room: nat)
    requires i < |src| && room < |PieceAt(src, i)|
    ensures room - 1 <= |CutPiece(src, i, room)| && CutPiece(src, i, room) <= PieceAt(src, i)
  {
  }

  // It is the byte less only where the buffer would end in a padded sextet (see CutRun).
  lemma CutInsideRun(src: seq<Unit>, i: nat, units: seq<Unit>, room: nat)
    requires i < |src| && !DirectlyEncodable(src[i]) && units == src[i..RunEnd(src, i)] && room < |RunOf(units)|
    ensures EncodeInto(src, i, room) == CutRun(units, room)
  {
    RunIsCut(src, i, units, room);
  }

  // Letters, digits, white space and the marks of RFC 2152's set D other than '+' stand for themselves.
  lemma DirectlyEncoded(src: seq<Unit>, i: nat)
    requires i < |src|
    requires var c := src[i];
             || 0x41 <= c <= 0x5A || 0x61 <= c <= 0x7A || 0x30 <= c <= 0x39
             || c in {0x00, 0x09, 0x0A, 0x0D, 0x20, 0x27, 0x28, 0x29, 0x2C, 0x2D, 0x2E, 0x2F, 0x3A, 0x3F}
    ensures EncodeFrom(src, i) == [src[i]] + EncodeFrom(src, i + 1)
  {
    NextPiece(src, i, [src[i]]);
  }

  lemma PlusIsEscaped(src: seq<Unit>, i: nat)
    requires i < |src| && src[i] == PLUS
    ensures EncodeFrom(src, i) == [PLUS, MINUS] + EncodeFrom(src, i + 1)
  {
    NextPiece(src, i, [PLUS, MINUS]);
  }

  // All others take a base64 run, backslash and tilde among them, and neighbours share one.
  lemma NeverDirect(c: Unit)
    requires c in {0x5C, 0x7E} || c >= 0x7B || 0x0E <= c <= 0x1F || 0x5B <= c <= 0x60 || 0x21 <= c <= 0x26
             || 0x3B <= c <= 0x3E || c == 0x40 || c == 0x2A || 0x01 <= c <= 0x08 || c == 0x0B || c == 0x0C
    ensures !DirectlyEncodable(c)
  {
  }

  lemma EncodedInOneRun(src: seq<Unit>, i: nat, j: nat)
    requires i < j <= |src| && (forall k | i <= k < j :: !DirectlyEncodable(src[k]))
    requires j < |src| ==> DirectlyEncodable(src[j])
    ensures EncodeFrom(src, i) == [PLUS] + Base64(Sextets(src[i..j], 0, 0)) + [MINUS] + EncodeFrom(src, j)
  {
    EndOfRun(src, i, j);
    PieceIsRun(src, i, src[i..j]);
    NextPiece(src, i, RunOf(src[i..j]));
  }

  lemma {:induction false} EndOfRun(src: seq<Unit>, i: nat, j: nat)
    requires i <= j <= |src| && (forall k | i <= k < j :: !DirectlyEncodable(src[k]))
    requires j < |src| ==> DirectlyEncodable(src[j])
    ensures RunEnd(src, i) == j
    decreases j - i
  {
    if i < j {
      EndOfRun(src, i + 1, j);
    }
  }

  lemma PieceIsRun(src: seq<Unit>, i: nat, units: seq<Unit>)
    requires i < |src| && !DirectlyEncodable(src[i]) && units == src[i..RunEnd(src, i)]
    ensures PieceAt(src, i) == RunOf(units)
  {
  }

  // All of it, or as much as there is room for, or one byte less.
  lemma {:induction false} EncodeIntoIsLongest(src: seq<Unit>, i: nat, room: nat)
    requires i <= |src|
    ensures EncodeInto(src, i, room) <= EncodeFrom(src, i)
    ensures |EncodeFrom(src, i)| <= room ==> EncodeInto(src, i, room) == EncodeFrom(src, i)
    ensures |EncodeFrom(src, i)| > room ==> |EncodeInto(src, i, room)| >= room - 1
    decreases |src| - i
  {
    if i < |src| {
      var piece := PieceAt(src, i);
      NextPiece(src, i, piece);
      if |piece| <= room {
        NextPieceFits(src, i, piece, room);
        EncodeIntoIsLongest(src, NextIndex(src, i), room - |piece|);
      } else {
        CutIsLongest(src, i, room);
      }
    }
  }

  // Outside a base64 run. The low `bits` bits of an unfinished run may still be pending.
  function Decode(src: seq<Byte>, v: nat, bits: nat): seq<Unit>
    requires v < Pow2(bits) && bits < 16
    decreases |src|, 0
  {
    if src == [] then []
    else if src[0] != PLUS then [src[0]] + Decode(src[1..], v, bits)
    else if |src| == 1 then []
    else if src[1] == MINUS then [PLUS] + Decode(src[2..], v, bits)
    else DecodeRun(src[1..], v, bits)
  }

  // Inside a base64 run.
  function DecodeRun(src: seq<Byte>, v: nat, bits: nat): seq<Unit>
    requires v < Pow2(bits) && bits < 16
    decreases |src|, 1
  {
    if src == [] then []
    else if src[0] == MINUS then Decode(src[1..], 0, 0)
    else if src[0] >= 0x80 then Decode(src, v, bits)
    else if Base64Value(src[0]) == -1 then Decode(src, 0, 0)
    else
      NextSextet(v, bits, Base64Value(src[0]));
      var v' := v * 64 + Base64Value(src[0]);
      if bits + 6 < 16 then DecodeRun(src[1..], v', bits + 6)
      else
        FinishedUnit(v', bits);
        [Shr(v', bits - 10)] + DecodeRun(src[1..], Low(v', bits - 10), bits - 10)
  }

  lemma NextSextet(v: nat, bits: nat, s: Sextet)
    requires v < Pow2(bits)
    ensures v * 64 + s < Pow2(bits + 6)
  {
    Values(v);
    Append(v, bits, 6, s);
  }

  lemma FinishedUnit(v: nat, bits: nat)
    requires v < Pow2(bits + 6) && bits >= 10
    ensures Shr(v, bits - 10) < 0x1_0000
  {
    Values(v);
    HighBits(v, bits - 10, 16);
  }

  // ---------------------------------------------------------------------------------
  // The base64 of a run is its big-endian bit string, padded
  // ---------------------------------------------------------------------------------

  function FromUnits(start: nat, units: seq<Unit>): nat
    decreases |units|
  {
    if units == [] then start else FromUnits(start * 0x1_0000 + units[0], units[1..])
  }

  function FromSextets(start: nat, sextets: seq<Sextet>): nat
    decreases |sextets|
  {
    if sextets == [] then start else FromSextets(start * 64 + sextets[0], sextets[1..])
  }

  lemma {:induction false} SextetCount(units: seq<Unit>, v: nat, bits: nat)
    requires v < Pow2(bits)
    ensures |Sextets(units, v, bits)| == (16 * |units| + bits + 5) / 6
    decreases |units|, bits
  {
    if bits >= 6 {
      SextetCount(units, Low(v, bits - 6), bits - 6);
    } else if units != [] {
      NextUnit(v, bits, units[0]);
      SextetCount(units[1..], v * 0x1_0000 + units[0], bits + 16);
    }
  }

  // Read as base-64 digits, the sextets are the units read as base-65536 digits, shifted by
  // the padding of less than one sextet.
  lemma {:induction false} SextetsAreTheBits(units: seq<Unit>, v: nat, bits: nat, start: nat)
    requires v < Pow2(bits)
    ensures var pad := 6 * |Sextets(units, v, bits)| - 16 * |units| - bits;
            && 0 <= pad < 6
            && FromSextets(start, Sextets(units, v, bits)) == Shl(FromUnits(Shl(start, bits) + v, units), pad)
    decreases |units|, bits
  {
    SextetCount(units, v, bits);
    if bits >= 6 {
      var s, low := Shr(v, bits - 6), Low(v, bits - 6);
      TopSextet(v, bits);
      SextetsAreTheBits(units, low, bits - 6, start * 64 + s);
      MoveSextet(start, v, bits);
      FirstSextet(start, s, Sextets(units, low, bits - 6));
    } else if units == [] {
      if bits > 0 {
        LastSextet(v, bits);
        PadShift(start, v, bits);
      }
    } else {
      NextUnit(v, bits, units[0]);
      SextetsAreTheBits(units[1..], v * 0x1_0000 + units[0], bits + 16, start);
      MoveUnit(start, v, bits, units[0]);
    }
  }

  lemma FirstSextet(start: nat, s: Sextet, rest: seq<Sextet>)
    ensures FromSextets(start, [s] + rest) == FromSextets(start * 64 + s, rest)
  {
    assert ([s] + rest)[1..] == rest;
  }

  lemma MoveSextet(start: nat, v: nat, bits: nat)
    requires bits >= 6
    ensures Shl(start * 64 + Shr(v, bits - 6), bits - 6) + Low(v, bits - 6) == Shl(start, bits) + v
  {
    SplitAt(v, bits - 6);
    Values(start);
    ShlShl(start, 6, bits - 6);
    ShlSum(start * 64, Shr(v, bits - 6), bits - 6);
  }

  lemma MoveUnit(start: nat, v: nat, bits: nat, u: Unit)
    ensures Shl(start, bits + 16) + (v * 0x1_0000 + u) == (Shl(start, bits) + v) * 0x1_0000 + u
  {
    ShlShl(start, bits, 16);
    Values(Shl(start, bits));
  }

  lemma PadShift(start: nat, v: nat, bits: nat)
    requires bits <= 6
    ensures start * 64 + Shl(v, 6 - bits) == Shl(Shl(start, bits) + v, 6 - bits)
  {
    Values(start);
    ShlShl(start, bits, 6 - bits);
    ShlSum(Shl(start, bits), v, 6 - bits);
  }

  // ---------------------------------------------------------------------------------
  // Decoding undoes encoding
  // ---------------------------------------------------------------------------------

  // The bits held by the decoder (w) followed by the bits held by the encoder (v): `count` whole units.
  ghost predicate InStep(w: nat, dbits: nat, v: nat, bits: nat, count: nat) {
    v < Pow2(bits) && w < Pow2(dbits) && dbits < 16 && dbits + bits == 16 * count && count <= 2
  }

  // The number both hold together.
  function Joined(w: nat, v: nat, bits: nat): nat {
    Shl(w, bits) + v
  }

  ghost function UnitsOf(p: nat, count: nat): seq<nat> {
    if count == 0 then [] else if count == 1 then [p] else [Shr(p, 16), Low(p, 16)]
  }

  lemma JoinedBound(w: nat, dbits: nat, v: nat, bits: nat, count: nat)
    requires InStep(w, dbits, v, bits, count)
    ensures Joined(w, v, bits) < Pow2(16 * count)
    ensures count == 0 ==> Joined(w, v, bits) == 0
    ensures count == 1 ==> Joined(w, v, bits) < 0x1_0000
  {
    Values(w);
    Append(w, dbits, bits, v);
  }

  // The encoder hands one sextet over; the decoder does not finish a unit.
  lemma HandOver(w: nat, dbits: nat, v: nat, bits: nat, count: nat)
    requires InStep(w, dbits, v, bits, count) && bits >= 6 && dbits + 6 < 16
    ensures var w' := w * 64 + Shr(v, bits - 6);
            && InStep(w', dbits + 6, Low(v, bits - 6), bits - 6, count)
            && Joined(w', Low(v, bits - 6), bits - 6) == Joined(w, v, bits)
  {
    TopSextet(v, bits);
    NextSextet(w, dbits, Shr(v, bits - 6));
    MoveSextet(w, v, bits);
  }

  lemma Regroup(w: nat, a: nat, v: nat, b: nat)
    ensures Joined(w, v, b) == Shl(Shr(w, a), a + b) + Joined(Low(w, a), v, b)
  {
    SplitAt(w, a);
    ShlSum(Shl(Shr(w, a), a), Low(w, a), b);
    ShlShl(Shr(w, a), a, b);
  }

  lemma FinishFirst(w: nat, a: nat, v: nat, b: nat, k: nat)
    requires v < Pow2(b) && k <= 1 && if k == 0 then a == b == 0 else a + b == 16
    ensures UnitsOf(Joined(w, v, b), k + 1) == [Shr(w, a)] + UnitsOf(Joined(Low(w, a), v, b), k)
  {
    if k == 1 {
      var joined := Joined(Low(w, a), v, b);
      Regroup(w, a, v, b);
      assert joined < Pow2(16) by {
        Append(Low(w, a), a, b, v);
      }
      SplitIs(Shr(w, a), 16, joined);
    }
  }

  // The decoder finishes the first pending unit.
  lemma HandOverAndFinish(w: nat, dbits: nat, v: nat, bits: nat, count: nat)
    requires InStep(w, dbits, v, bits, count) && bits >= 6 && dbits + 6 >= 16
    ensures var w' := w * 64 + Shr(v, bits - 6);
            && count >= 1
            && InStep(Low(w', dbits - 10), dbits - 10, Low(v, bits - 6), bits - 6, count - 1)
            && UnitsOf(Joined(w, v, bits), count) ==
               [Shr(w', dbits - 10)] + UnitsOf(Joined(Low(w', dbits - 10), Low(v, bits - 6), bits - 6), count - 1)
  {
    MoveSextet(w, v, bits);
    FinishFirst(w * 64 + Shr(v, bits - 6), dbits - 10, Low(v, bits - 6), bits - 6, count - 1);
  }

  // The encoder takes the next unit.
  lemma TakeUnit(w: nat, dbits: nat, v: nat, bits: nat, count: nat, u: Unit)
    requires InStep(w, dbits, v, bits, count) && bits < 6
    ensures InStep(w, dbits, v * 0x1_0000 + u, bits + 16, count + 1)
    ensures UnitsOf(Joined(w, v * 0x1_0000 + u, bits + 16), count + 1) == UnitsOf(Joined(w, v, bits), count) + [u]
  {
    NextUnit(v, bits, u);
    MoveUnit(w, v, bits, u);
    JoinedBound(w, dbits, v, bits, count);
    Values(Joined(w, v, bits));
    SplitIs(Joined(w, v, bits), 16, u);
  }

  // The padded last sextet finishes the last unit; the padding stays behind.
  lemma FinishPadded(w: nat, dbits: nat, v: nat, bits: nat, count: nat)
    requires InStep(w, dbits, v, bits, count) && 0 < bits < 6
    ensures count == 1
    ensures var w' := w * 64 + Shl(v, 6 - bits);
            Shr(w', dbits - 10) == Joined(w, v, bits) && Low(w', dbits - 10) == 0
  {
    PadShift(w, v, bits);
    SplitIs(Joined(w, v, bits), 6 - bits, 0);
  }

  lemma DecodeSextet(s: Sextet, tail: seq<Byte>, w: nat, dbits: nat)
    requires w < Pow2(dbits) && dbits < 16
    ensures var w' := w * 64 + s;
            && w' < Pow2(dbits + 6)
            && (dbits >= 10 ==> Shr(w', dbits - 10) < 0x1_0000)
            && DecodeRun([Base64Char(s)] + tail, w, dbits) ==
               if dbits + 6 < 16 then DecodeRun(tail, w', dbits + 6)
               else [Shr(w', dbits - 10)] + DecodeRun(tail, Low(w', dbits - 10), dbits - 10)
  {
    Base64Inverse(s);
    NextSextet(w, dbits, s);
    if dbits >= 10 {
      FinishedUnit(w * 64 + s, dbits);
    }
    var all := [Base64Char(s)] + tail;
    assert all[1..] == tail;
  }

  lemma SextetsOfTop(units: seq<Unit>, v: nat, bits: nat, end: seq<Byte>)
    requires v < Pow2(bits) && bits >= 6
    ensures Shr(v, bits - 6) < 64
    ensures Base64(Sextets(units, v, bits)) + end ==
            [Base64Char(Shr(v, bits - 6))] + (Base64(Sextets(units, Low(v, bits - 6), bits - 6)) + end)
  {
    TopSextet(v, bits);
  }

  // The bytes of a run from one point of the encoder on, and what is behind them.
  function RunBytes(units: seq<Unit>, v: nat, bits: nat, end: seq<Byte>): seq<Byte>
    requires v < Pow2(bits)
  {
    Base64(Sextets(units, v, bits)) + end
  }

  // One sextet, handed over: the bits both sides hold, less what the decoder has finished.
  ghost predicate HandedOver(
    units: seq<Unit>, v: nat, bits: nat, w: nat, dbits: nat, count: nat, end: seq<Byte>,
    done: seq<Unit>, w': nat, dbits': nat, count': nat)
    requires InStep(w, dbits, v, bits, count) && bits >= 6
  {
    && InStep(w', dbits', Low(v, bits - 6), bits - 6, count')
    && UnitsOf(Joined(w, v, bits), count) == done + UnitsOf(Joined(w', Low(v, bits - 6), bits - 6), count')
    && DecodeRun(RunBytes(units, v, bits, end), w, dbits) ==
       done + DecodeRun(RunBytes(units, Low(v, bits - 6), bits - 6, end), w', dbits')
  }

  lemma SextetKept(units: seq<Unit>, v: nat, bits: nat, w: nat, dbits: nat, count: nat, end: seq<Byte>)
    requires InStep(w, dbits, v, bits, count) && bits >= 6 && dbits + 6 < 16
    ensures HandedOver(units, v, bits, w, dbits, count, end, [], w * 64 + Shr(v, bits - 6), dbits + 6, count)
  {
    DecodeOne(units, v, bits, w, dbits, end);
    HandOver(w, dbits, v, bits, count);
  }

  lemma SextetFinishes(units: seq<Unit>, v: nat, bits: nat, w: nat, dbits: nat, count: nat, end: seq<Byte>)
    requires InStep(w, dbits, v, bits, count) && bits >= 6 && dbits + 6 >= 16
    ensures var x := w * 64 + Shr(v, bits - 6);
            && count >= 1 && Shr(x, dbits - 10) < 0x1_0000
            && HandedOver(units, v, bits, w, dbits, count, end, [Shr(x, dbits - 10)], Low(x, dbits - 10),
                          dbits - 10, count - 1)
  {
    DecodeOne(units, v, bits, w, dbits, end);
    HandOverAndFinish(w, dbits, v, bits, count);
    FinishedUnit(w * 64 + Shr(v, bits - 6), dbits);
  }

  // What one sextet does to both sides.
  lemma OneSextet(units: seq<Unit>, v: nat, bits: nat, w: nat, dbits: nat, count: nat, end: seq<Byte>)
    returns (done: seq<Unit>, w': nat, dbits': nat, count': nat)
    requires InStep(w, dbits, v, bits, count) && bits >= 6
    ensures HandedOver(units, v, bits, w, dbits, count, end, done, w', dbits', count')
  {
    var x := w * 64 + Shr(v, bits - 6);
    if dbits + 6 < 16 {
      SextetKept(units, v, bits, w, dbits, count, end);
      return [], x, dbits + 6, count;
    } else {
      SextetFinishes(units, v, bits, w, dbits, count, end);
      return [Shr(x, dbits - 10)], Low(x, dbits - 10), dbits - 10, count - 1;
    }
  }

  lemma DecodeOne(units: seq<Unit>, v: nat, bits: nat, w: nat, dbits: nat, end: seq<Byte>)
    requires v < Pow2(bits) && w < Pow2(dbits) && dbits < 16 && bits >= 6
    ensures var after := RunBytes(units, Low(v, bits - 6), bits - 6, end);
            var x := w * 64 + Shr(v, bits - 6);
            && x < Pow2(dbits + 6)
            && DecodeRun(RunBytes(units, v, bits, end), w, dbits) ==
               if dbits + 6 < 16 then DecodeRun(after, x, dbits + 6)
               else [Shr(x, dbits - 10)] + DecodeRun(after, Low(x, dbits - 10), dbits - 10)
  {
    SextetsOfTop(units, v, bits, end);
    DecodeSextet(Shr(v, bits - 6), RunBytes(units, Low(v, bits - 6), bits - 6, end), w, dbits);
  }

  lemma NextUnitBytes(units: seq<Unit>, v: nat, bits: nat, end: seq<Byte>)
    requires v < Pow2(bits) && bits < 6 && units != []
    ensures v * 0x1_0000 + units[0] < Pow2(bits + 16)
    ensures RunBytes(units, v, bits, end) == RunBytes(units[1..], v * 0x1_0000 + units[0], bits + 16, end)
  {
    NextUnit(v, bits, units[0]);
  }

  lemma HeadAndTail(a: seq<nat>, units: seq<Unit>)
    requires units != []
    ensures a + [units[0]] + units[1..] == a + units
  {
  }

  // The zero bits that fill up the last sextet of a run.
  function Padding(units: nat, bits: nat): (n: nat)
    ensures n < 6
  {
    (6 - (bits + 16 * units) % 6) % 6
  }

  lemma SamePadding(units: nat, bits: nat)
    ensures units > 0 ==> Padding(units - 1, bits + 16) == Padding(units, bits)
    ensures bits >= 6 ==> Padding(units, bits - 6) == Padding(units, bits)
  {
  }

  // Decoding gives the units pending and the rest of the run, and goes on behind it with the padding.
  ghost predicate DecodesBack(
    units: seq<Unit>, v: nat, bits: nat, w: nat, dbits: nat, count: nat, end: seq<Byte>)
    requires InStep(w, dbits, v, bits, count)
  {
    DecodeRun(RunBytes(units, v, bits, end), w, dbits) ==
      UnitsOf(Joined(w, v, bits), count) + units + DecodeRun(end, 0, Padding(|units|, bits))
  }

  // Decoding the sextets of a run, from any point where both bit buffers are in step, whatever follows.
  lemma {:induction false} RunRoundTrip(
    units: seq<Unit>, v: nat, bits: nat, w: nat, dbits: nat, count: nat, end: seq<Byte>)
    requires InStep(w, dbits, v, bits, count)
    ensures DecodesBack(units, v, bits, w, dbits, count, end)
    decreases |units|, bits
  {
    if bits >= 6 {
      var done, w', dbits', count' := OneSextet(units, v, bits, w, dbits, count, end);
      RunRoundTrip(units, Low(v, bits - 6), bits - 6, w', dbits', count', end);
      AfterSextet(units, v, bits, w, dbits, count, done, w', dbits', count', end);
    } else if units == [] {
      RunEnds(v, bits, w, dbits, count, end);
      assert UnitsOf(Joined(w, v, bits), count) + [] == UnitsOf(Joined(w, v, bits), count);
    } else {
      TakeUnit(w, dbits, v, bits, count, units[0]);
      RunRoundTrip(units[1..], v * 0x1_0000 + units[0], bits + 16, w, dbits, count + 1, end);
      AfterUnit(units, v, bits, w, dbits, count, end);
    }
  }

  lemma AfterSextet(
    units: seq<Unit>, v: nat, bits: nat, w: nat, dbits: nat, count: nat,
    done: seq<Unit>, w': nat, dbits': nat, count': nat, end: seq<Byte>)
    requires InStep(w, dbits, v, bits, count) && bits >= 6
    requires HandedOver(units, v, bits, w, dbits, count, end, done, w', dbits', count')
    requires DecodesBack(units, Low(v, bits - 6), bits - 6, w', dbits', count', end)
    ensures DecodesBack(units, v, bits, w, dbits, count, end)
  {
    Associate4(
      done, UnitsOf(Joined(w', Low(v, bits - 6), bits - 6), count'), units, DecodeRun(end, 0, Padding(|units|, bits)));
  }

  lemma AfterUnit(units: seq<Unit>, v: nat, bits: nat, w: nat, dbits: nat, count: nat, end: seq<Byte>)
    requires InStep(w, dbits, v, bits, count) && bits < 6 && units != []
    requires InStep(w, dbits, v * 0x1_0000 + units[0], bits + 16, count + 1)
    requires DecodesBack(units[1..], v * 0x1_0000 + units[0], bits + 16, w, dbits, count + 1, end)
    ensures DecodesBack(units, v, bits, w, dbits, count, end)
  {
    TakeUnit(w, dbits, v, bits, count, units[0]);
    NextUnitBytes(units, v, bits, end);
    HeadAndTail(UnitsOf(Joined(w, v, bits), count), units);
    SamePadding(|units|, bits);
  }

  lemma RunEnds(v: nat, bits: nat, w: nat, dbits: nat, count: nat, end: seq<Byte>)
    requires InStep(w, dbits, v, bits, count) && bits < 6
    ensures DecodeRun(RunBytes([], v, bits, end), w, dbits) ==
            UnitsOf(Joined(w, v, bits), count) + DecodeRun(end, 0, Padding(0, bits))
  {
    if bits == 0 {
      assert RunBytes([], v, bits, end) == end;
    } else {
      RunEndsPadded(v, bits, w, dbits, count, end);
    }
  }

  lemma RunEndsPadded(v: nat, bits: nat, w: nat, dbits: nat, count: nat, end: seq<Byte>)
    requires InStep(w, dbits, v, bits, count) && 0 < bits < 6
    ensures DecodeRun(RunBytes([], v, bits, end), w, dbits) ==
            UnitsOf(Joined(w, v, bits), count) + DecodeRun(end, 0, 6 - bits)
  {
    var s := Shl(v, 6 - bits);
    LastSextet(v, bits);
    assert RunBytes([], v, bits, end) == [Base64Char(s)] + end;
    DecodeSextet(s, end, w, dbits);
    FinishPadded(w, dbits, v, bits, count);
  }

  // ---------------------------------------------------------------------------------
  // What ends a run
  // ---------------------------------------------------------------------------------

  // A '-' is dropped, with the bits of an unfinished unit.
  lemma MinusEndsRun(rest: seq<Byte>, v: nat, bits: nat)
    requires v < Pow2(bits) && bits < 16
    ensures DecodeRun([MINUS] + rest, v, bits) == Decode(rest, 0, 0)
  {
    assert ([MINUS] + rest)[1..] == rest;
  }

  // Any other character outside base64 is decoded as itself; only the unfinished bits are dropped.
  lemma OtherEndsRun(c: Byte, rest: seq<Byte>, v: nat, bits: nat)
    requires v < Pow2(bits) && bits < 16 && c < 0x80 && c != MINUS && Base64Value(c) == -1
    ensures DecodeRun([c] + rest, v, bits) == [c] + Decode(rest, 0, 0)
  {
    assert ([c] + rest)[1..] == rest;
  }

  // A byte from 0x80 on is decoded as itself, too, and the unfinished bits stay for the next run.
  lemma HighByteEndsRun(c: Byte, rest: seq<Byte>, v: nat, bits: nat)
    requires v < Pow2(bits) && bits < 16 && c >= 0x80
    ensures DecodeRun([c] + rest, v, bits) == [c] + Decode(rest, v, bits)
  {
    assert ([c] + rest)[1..] == rest;
  }

  // So a run may be closed by any of these, or by the end of the source.
  lemma RunDecodes(run: seq<Unit>, end: seq<Byte>)
    requires end == [] || run != [] || end[0] != MINUS
    ensures Decode([PLUS] + Base64(Sextets(run, 0, 0)) + end, 0, 0) == run + DecodeRun(end, 0, Padding(|run|, 0))
  {
    var tail := Base64(Sextets(run, 0, 0)) + end;
    var all := [PLUS] + Base64(Sextets(run, 0, 0)) + end;
    assert all == [PLUS] + tail && all[1..] == tail;
    if run != [] {
      RunIsNotEmpty(run);
    } else {
      assert tail == end;
    }
    RunRoundTrip(run, 0, 0, 0, 0, 0, end);
    assert UnitsOf(Joined(0, 0, 0), 0) + run == run;
  }

  lemma RunClosedByMinus(run: seq<Unit>, rest: seq<Byte>)
    requires run != []
    ensures Decode([PLUS] + Base64(Sextets(run, 0, 0)) + [MINUS] + rest, 0, 0) == run + Decode(rest, 0, 0)
  {
    RunDecodes(run, [MINUS] + rest);
    MinusEndsRun(rest, 0, Padding(|run|, 0));
    Associate3([PLUS] + Base64(Sextets(run, 0, 0)), [MINUS], rest);
  }

  lemma RunClosedByOther(run: seq<Unit>, c: Byte, rest: seq<Byte>)
    requires c < 0x80 && c != MINUS && Base64Value(c) == -1
    ensures Decode([PLUS] + Base64(Sextets(run, 0, 0)) + [c] + rest, 0, 0) == run + [c] + Decode(rest, 0, 0)
  {
    RunDecodes(run, [c] + rest);
    OtherEndsRun(c, rest, 0, Padding(|run|, 0));
    Associate3([PLUS] + Base64(Sextets(run, 0, 0)), [c], rest);
    Associate3(run, [c], Decode(rest, 0, 0));
  }

  lemma RunClosedByHighByte(run: seq<Unit>, c: Byte, rest: seq<Byte>)
    requires c >= 0x80
    ensures Decode([PLUS] + Base64(Sextets(run, 0, 0)) + [c] + rest, 0, 0) ==
            run + [c] + Decode(rest, 0, Padding(|run|, 0))
  {
    RunDecodes(run, [c] + rest);
    HighByteEndsRun(c, rest, 0, Padding(|run|, 0));
    Associate3([PLUS] + Base64(Sextets(run, 0, 0)), [c], rest);
    Associate3(run, [c], Decode(rest, 0, Padding(|run|, 0)));
  }

  lemma RunClosedByEnd(run: seq<Unit>)
    ensures Decode([PLUS] + Base64(Sextets(run, 0, 0)), 0, 0) == run
  {
    RunDecodes(run, []);
    assert [PLUS] + Base64(Sextets(run, 0, 0)) + [] == [PLUS] + Base64(Sextets(run, 0, 0));
    assert run + [] == run;
  }

  // Outside a run every byte but '+' is decoded as itself. Pending bits stay until a run begins.
  lemma OutsideRun(c: Byte, rest: seq<Byte>, v: nat, bits: nat)
    requires v < Pow2(bits) && bits < 16
    ensures c != PLUS ==> Decode([c] + rest, v, bits) == [c] + Decode(rest, v, bits)
    ensures c != MINUS ==> Decode([PLUS, c] + rest, v, bits) == DecodeRun([c] + rest, v, bits)
    ensures Decode([PLUS, MINUS] + rest, v, bits) == [PLUS] + Decode(rest, v, bits)
    ensures Decode([PLUS], v, bits) == []
  {
    assert ([c] + rest)[1..] == rest && ([PLUS, MINUS] + rest)[2..] == rest;
    assert ([PLUS, c] + rest)[1..] == [c] + rest;
  }

  // ---------------------------------------------------------------------------------
  // There and back
  // ---------------------------------------------------------------------------------

  // Decoding the encoding of any sequence of 16-bit units gives the sequence back.
  lemma RoundTrip(src: seq<Unit>)
    ensures Decode(Encode(src), 0, 0) == src
  {
    RoundTripFrom(src, 0);
  }

  lemma {:induction false} RoundTripFrom(src: seq<Unit>, i: nat)
    requires i <= |src|
    ensures Decode(EncodeFrom(src, i), 0, 0) == src[i..]
    decreases |src| - i
  {
    if i < |src| {
      var j := NextIndex(src, i);
      RoundTripFrom(src, j);
      PieceDecodes(src, i, EncodeFrom(src, j));
      SplitDrop(src, i, j);
    }
  }

  lemma PieceDecodes(src: seq<Unit>, i: nat, rest: seq<Byte>)
    requires i < |src|
    ensures Decode(PieceAt(src, i) + rest, 0, 0) == src[i..NextIndex(src, i)] + Decode(rest, 0, 0)
  {
    var all := PieceAt(src, i) + rest;
    if src[i] == PLUS {
      assert all[2..] == rest;
    } else if DirectlyEncodable(src[i]) {
      assert all[1..] == rest && all[0] == src[i];
      OneOf(src, i);
    } else {
      RunClosedByMinus(src[i..RunEnd(src, i)], rest);
    }
  }

  // A base64 run never starts with '-'.
  lemma RunIsNotEmpty(run: seq<Unit>)
    requires run != []
    ensures |Sextets(run, 0, 0)| >= 3 && Base64(Sextets(run, 0, 0))[0] != MINUS
  {
    SextetCount(run, 0, 0);
    Base64Inverse(Sextets(run, 0, 0)[0]);
  }

  // MaxCharSize is 5.
  lemma EncodedLength(src: seq<Unit>)
    ensures |Encode(src)| <= 5 * |src|
  {
    EncodedLengthFrom(src, 0);
  }

  lemma {:induction false} EncodedLengthFrom(src: seq<Unit>, i: nat)
    requires i <= |src|
    ensures |EncodeFrom(src, i)| <= 5 * (|src| - i)
    decreases |src| - i
  {
    if i < |src| {
      EncodedLengthFrom(src, NextIndex(src, i));
      SextetCount(src[i..RunEnd(src, i)], 0, 0);
    }
  }

  // ---------------------------------------------------------------------------------
  // The 32-bit bit buffer
  // ---------------------------------------------------------------------------------

  // byte_pair = (byte_pair << k) | d, in a DWORD: the low bits are exact.
  lemma BufferShiftIn(buffer: nat, offset: nat, k: nat, d: nat)
    requires offset + k <= 32 && d < Pow2(k)
    ensures Low((Shl(buffer, k) + d) % DWORD_SIZE, offset + k) == Shl(Low(buffer, offset), k) + d
  {
    var x := Shl(buffer, k) + d;
    Mask32(x);
    LowOfLow(x, offset + k, 32 - offset - k);
    ShiftIn(buffer, offset, k, d);
  }

  lemma BufferTakesUnit(buffer: nat, offset: nat, u: Unit)
    requires offset <= 16
    ensures Low((buffer * 0x1_0000 + u) % DWORD_SIZE, offset + 16) == Low(buffer, offset) * 0x1_0000 + u
  {
    Values(buffer);
    Values(Low(buffer, offset));
    BufferShiftIn(buffer, offset, 16, u);
  }

  // (byte_pair << (6 - offset)) & 0x3F
  lemma BufferPads(buffer: nat, offset: nat)
    requires offset <= 6
    ensures Shl(buffer, 6 - offset) % DWORD_SIZE % 64 == Shl(Low(buffer, offset), 6 - offset)
  {
    BufferShiftIn(buffer, offset, 6 - offset, 0);
    Mask6(Shl(buffer, 6 - offset) % DWORD_SIZE);
  }

  // (byte_pair >> (offset - 6)) & 0x3F
  lemma BufferSextet(buffer: nat, offset: nat)
    requires offset >= 6
    ensures Shr(buffer, offset - 6) % 64 == Shr(Low(buffer, offset), offset - 6)
    ensures Low(buffer, offset - 6) == Low(Low(buffer, offset), offset - 6)
  {
    ShrOfLow(buffer, offset - 6, 6);
    Mask6(Shr(buffer, offset - 6));
    LowOfLow(buffer, offset - 6, 6);
  }

  // (byte_pair >> (offset - 16)) & 0xFFFF
  lemma BufferUnit(buffer: nat, offset: nat)
    requires offset >= 16
    ensures Shr(buffer, offset - 16) % 0x1_0000 == Shr(Low(buffer, offset), offset - 16)
    ensures Low(buffer, offset - 16) == Low(Low(buffer, offset), offset - 16)
  {
    ShrOfLow(buffer, offset - 16, 16);
    Mask16(Shr(buffer, offset - 16));
    LowOfLow(buffer, offset - 16, 16);
  }

  // ---------------------------------------------------------------------------------
  // The code
  // ---------------------------------------------------------------------------------

  // The bytes of the run still to come when the low `offset` bits of the buffer are pending.
  function Pending(units: seq<Unit>, buffer: nat, offset: nat): seq<Byte> {
    Base64(Sextets(units, Low(buffer, offset), offset))
  }

  lemma PendingSextet(units: seq<Unit>, buffer: nat, offset: nat)
    requires offset >= 6
    ensures Pending(units, buffer, offset) ==
            [Base64Char(Shr(buffer, offset - 6) % 64)] + Pending(units, buffer, offset - 6)
  {
    BufferSextet(buffer, offset);
    TopSextet(Low(buffer, offset), offset);
  }

  lemma PendingUnit(units: seq<Unit>, buffer: nat, offset: nat)
    requires offset < 6 && units != []
    ensures Pending(units, buffer, offset) ==
            Pending(units[1..], (buffer * 0x1_0000 + units[0]) % DWORD_SIZE, offset + 16)
  {
    BufferTakesUnit(buffer, offset, units[0]);
  }

  lemma PendingPad(buffer: nat, offset: nat)
    requires offset < 6
    ensures Pending([], buffer, offset) ==
            if offset == 0 then [] else [Base64Char(Shl(buffer, 6 - offset) % DWORD_SIZE % 64)]
  {
    BufferPads(buffer, offset);
  }

  // The loop over offset >= 6.
  method WriteSextets(dst: array<Byte>, index: nat, buffer: nat, bits: nat,
                      ghost units: seq<Unit>, ghost before: seq<Byte>, ghost out: seq<Byte>)
    returns (ok: bool, next: nat, offset: nat, ghost done: seq<Byte>)
    requires Written(dst[..], before, out) && index == |out|
    modifies dst
    ensures ok ==> offset < 6 && Written(dst[..], before, out + done) && next == |out + done|
    ensures ok ==> Pending(units, buffer, bits) == done + Pending(units, buffer, offset)
    ensures ok ==> offset == bits % 6
    ensures !ok ==> Written(dst[..], before, out + done) && 0 < dst.Length == |out + done|
    ensures !ok ==> done <= Pending(units, buffer, bits) && done != Pending(units, buffer, bits)
  {
    ok, next, offset, done := true, index, bits, [];
    while offset >= 6
      invariant offset % 6 == bits % 6
      invariant ok && Written(dst[..], before, out + done) && next == |out + done|
      invariant Pending(units, buffer, bits) == done + Pending(units, buffer, offset)
    {
      PendingSextet(units, buffer, offset);
      var c := Base64Char(Shr(buffer, offset - 6) % 64);
      ok, next := Write(dst, next, c, before, out + done);
      if !ok {
        return;
      }
      Associate3(out, done, [c]);
      Associate3(done, [c], Pending(units, buffer, offset - 6));
      done := done + [c];
      offset := offset - 6;
    }
  }

  // The padded sextet and the closing '-'.
  method WriteEnd(dst: array<Byte>, index: nat, buffer: nat, offset: nat, ghost before: seq<Byte>, ghost out: seq<Byte>)
    returns (ok: bool, next: nat)
    requires Written(dst[..], before, out) && index == |out| && offset < 6
    modifies dst
    ensures WroteOrFull(ok, next, dst[..], before, out + (Pending([], buffer, offset) + [MINUS]))
    ensures !ok ==> dst[..] == old(dst[..])
    ensures |Pending([], buffer, offset)| == if offset == 0 then 0 else 1
  {
    PendingPad(buffer, offset);
    ghost var pad := Pending([], buffer, offset);
    next := index;
    if offset > 0 {
      if dst.Length > 0 && next + 1 >= dst.Length {
        return false, next;
      }
      ok, next := Write(dst, next, Base64Char(Shl(buffer, 6 - offset) % DWORD_SIZE % 64), before, out);
      if !ok {
        return;
      }
    }
    Associate3(out, pad, [MINUS]);
    ok, next := Write(dst, next, MINUS, before, out + pad);
  }

  // The bits of the last unit that do not make up a sextet.
  function BitsLeft(units: nat): (bits: nat)
    ensures bits < 6 && (bits == 0 <==> units % 3 == 0)
  {
    if units % 3 == 0 then 0 else if units % 3 == 1 then 4 else 2
  }

  lemma BitsLeftNext(units: nat)
    ensures (BitsLeft(units) + 16) % 6 == BitsLeft(units + 1)
  {
  }

  // The next piece did not fit, and was cut.
  ghost predicate WrittenCut(dst: seq<Byte>, before: seq<Byte>, out: seq<Byte>, src: seq<Unit>, i: nat)
    requires i < |src| && |out| <= |dst|
  {
    0 < |dst| < |out + PieceAt(src, i)| && Written(dst, before, out + CutPiece(src, i, |dst| - |out|))
  }

  // There was no room at all.
  lemma NothingFits(dst: seq<Byte>, before: seq<Byte>, out: seq<Byte>, src: seq<Unit>, i: nat)
    requires i < |src| && 0 < |dst| == |out| && Written(dst, before, out)
    ensures WrittenCut(dst, before, out, src, i)
  {
    assert PieceAt(src, i) != [];
    assert out + [] == out;
  }

  // The run was cut short while its first part was written.
  lemma CutInRun(dst: seq<Byte>, before: seq<Byte>, out: seq<Byte>, src: seq<Unit>, i: nat, units: seq<Unit>,
                 done: seq<Byte>, more: seq<Byte>, left: seq<Byte>)
    requires i < |src| && !DirectlyEncodable(src[i]) && units == src[i..RunEnd(src, i)]
    requires RunOf(units) == done + left + [MINUS] && more <= left && more != left
    requires 0 < |dst| == |out + done + more| && Written(dst, before, out + done + more)
    ensures |out| <= |dst| && WrittenCut(dst, before, out, src, i)
  {
    var all, tail := done + more, left[|more|..];
    Associate3(done, more, tail);
    Associate3(out, done, more);
    CutUnits(units, |all|, all, tail);
    CutIsWritten(dst, before, out, src, i, units, |all|, all);
  }

  lemma CutIsWritten(dst: seq<Byte>, before: seq<Byte>, out: seq<Byte>, src: seq<Unit>, i: nat, units: seq<Unit>,
                     room: nat, cut: seq<Byte>)
    requires i < |src| && !DirectlyEncodable(src[i]) && units == src[i..RunEnd(src, i)]
    requires room < |RunOf(units)| && CutRun(units, room) == cut
    requires 0 < |dst| == |out| + room && Written(dst, before, out + cut)
    ensures WrittenCut(dst, before, out, src, i)
  {
    RunIsCut(src, i, units, room);
  }

  // The last part, with the padding if there is any, did not fit.
  lemma CutAtEnd(dst: seq<Byte>, before: seq<Byte>, out: seq<Byte>, src: seq<Unit>, i: nat, units: seq<Unit>,
                 done: seq<Byte>, pad: seq<Byte>)
    requires i < |src| && !DirectlyEncodable(src[i]) && units == src[i..RunEnd(src, i)]
    requires RunOf(units) == done + pad + [MINUS] && |pad| == if |units| % 3 == 0 then 0 else 1
    requires 0 < |dst| && |out + done| <= |dst| < |out + done| + |pad| + 1 && Written(dst, before, out + done)
    ensures WrittenCut(dst, before, out, src, i)
  {
    var room := |dst| - |out|;
    CutUnits(units, room, done, pad);
    CutIsWritten(dst, before, out, src, i, units, room, done);
  }

  lemma RunIsCut(src: seq<Unit>, i: nat, units: seq<Unit>, room: nat)
    requires i < |src| && !DirectlyEncodable(src[i]) && units == src[i..RunEnd(src, i)] && room < |RunOf(units)|
    ensures PieceAt(src, i) == RunOf(units) && CutPiece(src, i, room) == CutRun(units, room)
  {
  }

  lemma CutUnits(units: seq<Unit>, room: nat, done: seq<Byte>, tail: seq<Byte>)
    requires RunOf(units) == done + tail + [MINUS]
    requires |done| <= room <= |done + tail|
    requires if room == |done| then tail != [] || |units| % 3 == 0 else |units| % 3 != 0 && |tail| == 1
    ensures room < |RunOf(units)| && CutRun(units, room) == done
  {
    var n := |RunOf(units)|;
    assert n == |done| + |tail| + 1;
    assert RunOf(units)[..|done|] == done;
  }

  // The loop over the units of a run, behind its '+'.
  method WriteUnits(
    src: seq<Unit>, start: nat, dst: array<Byte>, index: nat, ghost before: seq<Byte>, ghost out: seq<Byte>)
    returns (ok: bool, i: nat, next: nat, buffer: nat, offset: nat, ghost done: seq<Byte>)
    requires start < |src| && !DirectlyEncodable(src[start])
    requires Written(dst[..], before, out + [PLUS]) && index == |out| + 1
    modifies dst
    ensures ok ==> i == RunEnd(src, start) && offset == BitsLeft(i - start)
    ensures ok ==> Written(dst[..], before, out + done) && next == |out + done|
    ensures ok ==> RunOf(src[start..i]) == done + Pending([], buffer, offset) + [MINUS]
    ensures !ok ==> |out| <= dst.Length && WrittenCut(dst[..], before, out, src, start)
  {
    i := start;
    ghost var end := RunEnd(src, start);
    ok, next, buffer, offset, done := true, index, 0, 0, [PLUS];
    while i < |src| && !DirectlyEncodable(src[i])
      invariant start <= i <= end && offset == BitsLeft(i - start) && ok
      invariant Written(dst[..], before, out + done) && next == |out + done|
      invariant RunOf(src[start..end]) == done + Pending(src[i..end], buffer, offset) + [MINUS]
    {
      BitsLeftNext(i - start);
      PendingUnit(src[i..end], buffer, offset);
      TailOfSlice(src, i, end);
      buffer := (buffer * 0x1_0000 + src[i]) % DWORD_SIZE;
      offset := offset + 16;
      i := i + 1;
      ghost var more: seq<Byte>;
      ghost var left := Pending(src[i..end], buffer, offset);
      ok, next, offset, more := WriteSextets(dst, next, buffer, offset, src[i..end], before, out + done);
      if !ok {
        CutInRun(dst[..], before, out, src, start, src[start..end], done, more, left);
        return;
      }
      Associate3(out, done, more);
      Associate3(done, more, Pending(src[i..end], buffer, offset));
      done := done + more;
    }
  }

  // The end of a run, behind its units.
  method FinishRun(
    dst: array<Byte>, index: nat, buffer: nat, offset: nat, ghost before: seq<Byte>, ghost out: seq<Byte>,
    ghost src: seq<Unit>, ghost start: nat, ghost units: seq<Unit>, ghost done: seq<Byte>)
    returns (ok: bool, next: nat)
    requires start < |src| && !DirectlyEncodable(src[start]) && units == src[start..RunEnd(src, start)]
    requires Written(dst[..], before, out + done) && index == |out + done| && offset == BitsLeft(|units|)
    requires RunOf(units) == done + Pending([], buffer, offset) + [MINUS]
    modifies dst
    ensures WroteOrFull(ok, next, dst[..], before, out + RunOf(units))
    ensures !ok ==> |out| <= dst.Length && WrittenCut(dst[..], before, out, src, start)
  {
    ghost var pad := Pending([], buffer, offset);
    Associate3(done, pad, [MINUS]);
    Associate3(out, done, pad + [MINUS]);
    ok, next := WriteEnd(dst, index, buffer, offset, before, out + done);
    if !ok {
      CutAtEnd(dst[..], before, out, src, start, units, done, pad);
    }
  }

  // A whole base64 run.
  method WriteRun(
    src: seq<Unit>, start: nat, dst: array<Byte>, index: nat, ghost before: seq<Byte>, ghost out: seq<Byte>)
    returns (ok: bool, i: nat, next: nat)
    requires start < |src| && !DirectlyEncodable(src[start]) && Written(dst[..], before, out) && index == |out|
    modifies dst
    ensures ok ==> i == RunEnd(src, start)
    ensures WroteOrFull(ok, next, dst[..], before, out + RunOf(src[start..RunEnd(src, start)]))
    ensures !ok ==> |out| <= dst.Length && WrittenCut(dst[..], before, out, src, start)
  {
    i := start;
    ghost var done;
    var offset, buffer;
    ok, next := Write(dst, index, PLUS, before, out);
    if !ok {
      NothingFits(dst[..], before, out, src, start);
      return;
    }
    ok, i, next, buffer, offset, done := WriteUnits(src, start, dst, next, before, out);
    if ok {
      ok, next := FinishRun(dst, next, buffer, offset, before, out, src, start, src[start..i], done);
    }
  }

  // The escaped plus sign.
  method WritePlus(dst: array<Byte>, index: nat, ghost before: seq<Byte>, ghost out: seq<Byte>)
    returns (ok: bool, next: nat)
    requires Written(dst[..], before, out) && index == |out|
    modifies dst
    ensures WroteOrFull(ok, next, dst[..], before, out + [PLUS, MINUS])
    ensures !ok ==> |out| <= dst.Length < |out| + 2 &&
                    Written(dst[..], before, out + [PLUS, MINUS][..dst.Length - |out|])
  {
    assert [PLUS, MINUS][..0] == [] && [PLUS, MINUS][..1] == [PLUS] && out + [] == out;
    ok, next := Write(dst, index, PLUS, before, out);
    if ok {
      ok, next := Write(dst, next, MINUS, before, out + [PLUS]);
      assert out + [PLUS] + [MINUS] == out + [PLUS, MINUS];
    }
  }

  // One round of the loop.
  method WritePiece(
    src: seq<Unit>, start: nat, dst: array<Byte>, index: nat, ghost before: seq<Byte>, ghost out: seq<Byte>)
    returns (ok: bool, i: nat, next: nat)
    requires start < |src| && Written(dst[..], before, out) && index == |out|
    modifies dst
    ensures ok ==> i == NextIndex(src, start)
    ensures WroteOrFull(ok, next, dst[..], before, out + PieceAt(src, start))
    ensures !ok ==> |out| <= dst.Length && WrittenCut(dst[..], before, out, src, start)
  {
    i := start;
    if src[i] == PLUS {
      ok, next := WritePlus(dst, index, before, out);
      i := i + 1;
    } else if DirectlyEncodable(src[i]) {
      ok, next := Write(dst, index, src[i], before, out);
      if !ok {
        NothingFits(dst[..], before, out, src, start);
      }
      i := i + 1;
    } else {
      ok, i, next := WriteRun(src, i, dst, index, before, out);
    }
  }

  // The round in terms of what remains to be encoded.
  method WriteRound(
    src: seq<Unit>, start: nat, dst: array<Byte>, index: nat, ghost before: seq<Byte>, ghost out: seq<Byte>)
    returns (ok: bool, i: nat, next: nat, ghost piece: seq<Byte>)
    requires start < |src| && Written(dst[..], before, out) && index == |out|
    modifies dst
    ensures start < i <= |src|
    ensures piece == PieceAt(src, start) && i == NextIndex(src, start)
    ensures WroteOrFull(ok, next, dst[..], before, out + piece)
    ensures !ok ==> |out| <= dst.Length && WrittenCut(dst[..], before, out, src, start)
  {
    piece := PieceAt(src, start);
    ok, i, next := WritePiece(src, start, dst, index, before, out);
    if !ok {
      i := NextIndex(src, start);
    }
  }

  // What the loop keeps: `out` is done, the rest starts at i.
  ghost predicate Encoding(src: seq<Unit>, i: nat, before: seq<Byte>, out: seq<Byte>) {
    i <= |src| && Encode(src) == out + EncodeFrom(src, i) && (before != [] ==> Fits(src, i, |before|, out))
  }

  ghost predicate Fits(src: seq<Unit>, i: nat, room: nat, out: seq<Byte>) {
    i <= |src| && |out| <= room && out + EncodeInto(src, i, room - |out|) == EncodeInto(src, 0, room)
  }

  lemma OneMore(src: seq<Unit>, i: nat, piece: seq<Byte>, before: seq<Byte>, out: seq<Byte>)
    requires Encoding(src, i, before, out) && i < |src| && piece == PieceAt(src, i)
    requires before != [] ==> |out + piece| <= |before|
    ensures Encoding(src, NextIndex(src, i), before, out + piece)
  {
    var j := NextIndex(src, i);
    NextPiece(src, i, piece);
    Moved(out, piece, EncodeFrom(src, i), EncodeFrom(src, j));
    if before != [] {
      NextPieceFits(src, i, piece, |before| - |out|);
      Moved(out, piece, EncodeInto(src, i, |before| - |out|), EncodeInto(src, j, |before| - |out + piece|));
    }
  }

  lemma Moved(out: seq<Byte>, piece: seq<Byte>, whole: seq<Byte>, rest: seq<Byte>)
    requires whole == piece + rest
    ensures out + piece + rest == out + whole
  {
    Associate3(out, piece, rest);
  }

  lemma NextPiece(src: seq<Unit>, i: nat, piece: seq<Byte>)
    requires i < |src| && piece == PieceAt(src, i)
    ensures EncodeFrom(src, i) == piece + EncodeFrom(src, NextIndex(src, i))
  {
  }

  lemma NextPieceFits(src: seq<Unit>, i: nat, piece: seq<Byte>, room: nat)
    requires i < |src| && piece == PieceAt(src, i) && |piece| <= room
    ensures EncodeInto(src, i, room) == piece + EncodeInto(src, NextIndex(src, i), room - |piece|)
  {
  }

  lemma CutShort(src: seq<Unit>, i: nat, dst: seq<Byte>, before: seq<Byte>, out: seq<Byte>)
    requires Encoding(src, i, before, out) && i < |src| && |out| <= |dst| && |before| == |dst|
    requires WrittenCut(dst, before, out, src, i)
    ensures Converted(-1, Encode(src), EncodeInto(src, 0, |dst|), before, dst)
  {
    NextPiece(src, i, PieceAt(src, i));
    assert EncodeInto(src, i, |dst| - |out|) == CutPiece(src, i, |dst| - |out|);
  }

  // utf7_wcstombs; an empty dst stands for dstlen == 0.
  method Wcstombs(src: seq<Unit>, dst: array<Byte>) returns (ret: int)
    modifies dst
    ensures Converted(ret, Encode(src), EncodeInto(src, 0, dst.Length), old(dst[..]), dst[..])
  {
    ghost var before, out: seq<Byte> := dst[..], [];
    var i: nat, index: nat := 0, 0;
    while i < |src|
      invariant Written(dst[..], before, out) && index == |out| && Encoding(src, i, before, out)
    {
      var ok: bool;
      ghost var at, piece: seq<Byte> := i, [];
      ok, i, index, piece := WriteRound(src, i, dst, index, before, out);
      if !ok {
        CutShort(src, at, dst[..], before, out);
        return -1;
      }
      OneMore(src, at, piece, before, out);
      out := out + piece;
    }
    AllWritten(dst[..], before, out, EncodeFrom(src, i), EncodeInto(src, 0, dst.Length));
    return index;
  }

  // One sextet of a base64 run: the buffer, the number of pending bits and what is finished.
  lemma PendingBits(src: seq<Byte>, i: nat, buffer: nat, offset: nat)
    requires i < |src| && offset < 16 && src[i] < 0x80 && src[i] != MINUS && Base64Value(src[i]) != -1
    ensures var next := (buffer * 64 + Base64Value(src[i])) % DWORD_SIZE;
            DecodeRun(src[i..], Low(buffer, offset), offset) ==
            if offset + 6 < 16 then DecodeRun(src[i + 1..], Low(next, offset + 6), offset + 6)
            else [Shr(next, offset - 10) % 0x1_0000] + DecodeRun(src[i + 1..], Low(next, offset - 10), offset - 10)
  {
    var s := Base64Value(src[i]);
    DropDrop(src, i, 1);
    assert src[i..][0] == src[i];
    PendingSextetIn(buffer, offset, s);
    if offset >= 10 {
      PendingUnitOut((buffer * 64 + s) % DWORD_SIZE, offset);
    }
  }

  // The buffer after six more bits were shifted in.
  lemma PendingSextetIn(buffer: nat, offset: nat, s: Sextet)
    requires offset < 16
    ensures var next := (buffer * 64 + s) % DWORD_SIZE; var v := Low(buffer, offset) * 64 + s;
            v < Pow2(offset + 6) && Low(next, offset + 6) == v
  {
    Values(buffer);
    Values(Low(buffer, offset));
    BufferShiftIn(buffer, offset, 6, s);
    NextSextet(Low(buffer, offset), offset, s);
  }

  // The unit that is now complete.
  lemma PendingUnitOut(next: nat, offset: nat)
    requires offset >= 10 && Low(next, offset + 6) < Pow2(offset + 6)
    ensures Shr(next, offset - 10) % 0x1_0000 == Shr(Low(next, offset + 6), offset - 10) < 0x1_0000
    ensures Low(next, offset - 10) == Low(Low(next, offset + 6), offset - 10)
  {
    BufferUnit(next, offset + 6);
    FinishedUnit(Low(next, offset + 6), offset);
  }

  // One sextet into the buffer, and a unit out of it when there is one.
  method TakeSextet(src: seq<Byte>, i: nat, dst: array<Unit>, index: nat, buffer0: nat, offset0: nat,
                    ghost before: seq<Unit>, ghost out: seq<Unit>)
    returns (ok: bool, next: nat, buffer: nat, offset: nat, ghost piece: seq<Unit>)
    requires i < |src| && offset0 < 16 && src[i] < 0x80 && src[i] != MINUS && Base64Value(src[i]) != -1
    requires Written(dst[..], before, out) && index == |out|
    modifies dst
    ensures offset < 16 && WroteOrFull(ok, next, dst[..], before, out + piece)
    ensures !ok ==> piece != [] && |out| == dst.Length && dst[..] == old(dst[..])
    ensures DecodeRun(src[i..], Low(buffer0, offset0), offset0) ==
            piece + DecodeRun(src[i + 1..], Low(buffer, offset), offset)
  {
    PendingBits(src, i, buffer0, offset0);
    buffer := (buffer0 * 64 + Base64Value(src[i])) % DWORD_SIZE;
    offset := offset0 + 6;
    ok, next, piece := true, index, [];
    if offset >= 16 {
      var u := Shr(buffer, offset - 16) % 0x1_0000;
      ok, next := Write(dst, next, u, before, out);
      piece := [u];
      offset := offset - 16;
    } else {
      assert out + piece == out;
    }
  }

  // The code does not fit, and what there is room for has been written.
  ghost predicate FilledUp(dst: seq<Unit>, before: seq<Unit>, code: seq<Unit>) {
    0 < |dst| < |code| && Written(dst, before, Front(code, |dst|))
  }

  // The do-while loop over a base64 run.
  method ReadRun(src: seq<Byte>, start: nat, dst: array<Unit>, index: nat, buffer0: nat, offset0: nat,
                 ghost before: seq<Unit>, ghost out: seq<Unit>)
    returns (ok: bool, i: nat, next: nat, buffer: nat, offset: nat, ghost done: seq<Unit>)
    requires start < |src| && offset0 < 16 && Written(dst[..], before, out) && index == |out|
    modifies dst
    ensures offset < 16 && start <= i <= |src|
    ensures ok ==>
              DecodeRun(src[start..], Low(buffer0, offset0), offset0) ==
              done + Decode(src[i..], Low(buffer, offset), offset)
    ensures ok ==> Written(dst[..], before, out + done) && next == |out + done|
    ensures !ok ==> FilledUp(dst[..], before, out + DecodeRun(src[start..], Low(buffer0, offset0), offset0))
  {
    ghost var goal := DecodeRun(src[start..], Low(buffer0, offset0), offset0);
    ok, i, next, buffer, offset, done := true, start, index, buffer0, offset0, [];
    while i < |src|
      invariant start <= i <= |src| && offset < 16
      invariant Written(dst[..], before, out + done) && next == |out + done| && ok
      invariant goal == done + DecodeRun(src[i..], Low(buffer, offset), offset)
    {
      var c := src[i];
      assert src[i..][0] == c;
      if c == MINUS {
        DropDrop(src, i, 1);
        return ok, i + 1, next, buffer, 0, done;
      }
      if c >= 0x80 {
        return;
      }
      var sextet := Base64Value(c);
      if sextet == -1 {
        return ok, i, next, buffer, 0, done;
      }
      ghost var piece;
      ok, next, buffer, offset, piece := TakeSextet(src, i, dst, next, buffer, offset, before, out + done);
      ghost var rest := DecodeRun(src[i + 1..], Low(buffer, offset), offset);
      Associate3(out, done, piece);
      Associate3(done, piece, rest);
      i := i + 1;
      if !ok {
        Associate3(out, done, piece + rest);
        FrontIsWritten(before, out + done, piece + rest);
        return;
      }
      done := done + piece;
    }
  }

  // One round of the outer loop of the decoder.
  method ReadPiece(src: seq<Byte>, start: nat, dst: array<Unit>, index: nat, buffer0: nat, offset0: nat,
                   ghost before: seq<Unit>, ghost out: seq<Unit>)
    returns (ok: bool, i: nat, next: nat, buffer: nat, offset: nat, ghost done: seq<Unit>)
    requires start < |src| && offset0 < 16 && Written(dst[..], before, out) && index == |out|
    modifies dst
    ensures offset < 16 && start < i <= |src|
    ensures ok ==>
              Decode(src[start..], Low(buffer0, offset0), offset0) ==
              done + Decode(src[i..], Low(buffer, offset), offset)
    ensures ok ==> Written(dst[..], before, out + done) && next == |out + done|
    ensures !ok ==> FilledUp(dst[..], before, out + Decode(src[start..], Low(buffer0, offset0), offset0))
  {
    ghost var goal := Decode(src[start..], Low(buffer0, offset0), offset0);
    ok, i, next, buffer, offset, done := true, start, index, buffer0, offset0, [];
    DropDrop(src, start, 1);
    if src[i] == PLUS {
      i := i + 1;
      if i >= |src| {
        return;
      }
      if src[i] == MINUS {
        DropDrop(src, start, 2);
        done := [PLUS];
        ok, next := Write(dst, next, PLUS, before, out);
        i := i + 1;
      } else {
        ok, i, next, buffer, offset, done := ReadRun(src, i, dst, next, buffer, offset, before, out);
      }
    } else {
      done := [src[i]];
      ok, next := Write(dst, next, src[i], before, out);
      i := i + 1;
    }
    if !ok && |out| == dst.Length {
      FrontIsWritten(before, out, goal);
    }
  }

  // utf7_mbstowcs; an empty dst stands for dstlen == 0.
  method Mbstowcs(src: seq<Byte>, dst: array<Unit>) returns (ret: int)
    modifies dst
    ensures Converted(ret, Decode(src, 0, 0), Front(Decode(src, 0, 0), dst.Length), old(dst[..]), dst[..])
  {
    ghost var before, out: seq<Unit> := dst[..], [];
    var i: nat, index: nat, buffer: nat, offset: nat := 0, 0, 0, 0;
    while i < |src|
      invariant i <= |src| && offset < 16
      invariant Written(dst[..], before, out) && index == |out|
      invariant Decode(src, 0, 0) == out + Decode(src[i..], Low(buffer, offset), offset)
    {
      var ok: bool;
      ghost var done: seq<Unit>;
      ok, i, index, buffer, offset, done := ReadPiece(src, i, dst, index, buffer, offset, before, out);
      if !ok {
        return -1;
      }
      Associate3(out, done, Decode(src[i..], Low(buffer, offset), offset));
      out := out + done;
    }
    AllWritten(
      dst[..], before, out, Decode(src[i..], Low(buffer, offset), offset), Front(Decode(src, 0, 0), dst.Length));
    return index;
  }
}
