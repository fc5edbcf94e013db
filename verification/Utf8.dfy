/**
  UTF-8 (WinPort/wineguts/utf8.c; RFC 3629, sections 3 and 4; RFC 2781, section 2).

  `strict` stands for WC_ERR_INVALID_CHARS and MB_ERR_INVALID_CHARS. Without it the code drops
  what it cannot convert.
  */
module Utf8 {
  import opened Characters
  import opened OutputBuffers
  import opened Sequences
  import opened Wrappers


  predicate IsScalar(v: nat) {
    v < 0xD800 || 0xE000 <= v <= 0x10FFFF
  }

  // ---------------------------------------------------------------------------------
  // Encoding
  // ---------------------------------------------------------------------------------

  // get_surrogate_value: 0 for an unpaired surrogate.
  function SurrogateValue(src: seq<Unit>, i: nat): nat
    requires i < |src|
  {
    if 0xD800 <= src[i] <= 0xDFFF then
      if src[i] > 0xDBFF || i + 1 >= |src| || src[i + 1] < 0xDC00 || src[i + 1] > 0xDFFF then 0
      else
        var high: nat, low: nat := src[i], src[i + 1];
        0x10000 + high % 0x400 * 0x400 + low % 0x400
    else src[i]
  }

  // The scalar value at i, None for an unpaired surrogate, and the number of units it takes.
  function ScalarAt(src: seq<Unit>, i: nat): (v: Option<nat>)
    requires i < |src|
    ensures v.Some? ==> IsScalar(v.value)
    ensures v.Some? && v.value >= 0x10000 ==> i + 1 < |src|
  {
    if src[i] < 0x800 then Some(src[i])
    else if SurrogateValue(src, i) == 0 then None
    else Some(SurrogateValue(src, i))
  }

  function UnitsOf(v: nat): seq<Unit>
    requires v <= 0x10FFFF
  {
    if v < 0x10000 then [v] else [0xD800 + (v - 0x10000) / 0x400, 0xDC00 + (v - 0x10000) % 0x400]
  }

  function NextUnit(src: seq<Unit>, i: nat): (j: nat)
    requires i < |src|
    ensures i < j <= |src|
  {
    if ScalarAt(src, i).Some? && ScalarAt(src, i).value >= 0x10000 then i + 2 else i + 1
  }

  // The shortest form, for values of at most 21 bits.
  function Utf8Bytes(v: nat): (bytes: seq<Byte>)
    requires v < 0x20_0000
    ensures 1 <= |bytes| <= 4
  {
    if v < 0x80 then [v]
    else if v < 0x800 then [0xC0 + v / 64, 0x80 + v % 64]
    else if v < 0x10000 then [0xE0 + v / 64 / 64, 0x80 + v / 64 % 64, 0x80 + v % 64]
    else [0xF0 + v / 64 / 64 / 64, 0x80 + v / 64 / 64 % 64, 0x80 + v / 64 % 64, 0x80 + v % 64]
  }

  // What a conversion has produced when it stops; `bad` when it stops at an invalid character.
  datatype Output<T> = Output(code: seq<T>, bad: bool)

  function Prepend<T>(piece: seq<T>, o: Output<T>): Output<T> {
    Output(piece + o.code, o.bad)
  }

  function EncodeFrom(src: seq<Unit>, i: nat, strict: bool): Output<Byte>
    requires i <= |src|
    decreases |src| - i
  {
    if i == |src| then Output([], false)
    else match ScalarAt(src, i)
      case None => if strict then Output([], true) else EncodeFrom(src, i + 1, strict)
      case Some(v) => Prepend(Utf8Bytes(v), EncodeFrom(src, NextUnit(src, i), strict))
  }

  // What of it goes into a buffer with that much room: whole characters, up to the first that does
  // not fit or is invalid.
  function EncodeInto(src: seq<Unit>, i: nat, strict: bool, room: nat): (fit: seq<Byte>)
    requires i <= |src|
    ensures |fit| <= room
    decreases |src| - i
  {
    if i == |src| then []
    else match ScalarAt(src, i)
      case None => if strict then [] else EncodeInto(src, i + 1, strict, room)
      case Some(v) =>
        if |Utf8Bytes(v)| > room then []
        else Utf8Bytes(v) + EncodeInto(src, NextUnit(src, i), strict, room - |Utf8Bytes(v)|)
  }

  // No half of a character, and no room for the next one.
  lemma {:induction false} EncodeIntoIsLongest(src: seq<Unit>, i: nat, strict: bool, room: nat) returns (end: nat)
    requires i <= |src|
    ensures i <= end <= |src|
    ensures EncodeFrom(src, i, strict) == Prepend(EncodeInto(src, i, strict, room), EncodeFrom(src, end, strict))
    ensures end < |src| ==>
              var v := ScalarAt(src, end);
              if v.None? then strict else |EncodeInto(src, i, strict, room)| + |Utf8Bytes(v.value)| > room
    decreases |src| - i
  {
    end := i;
    if i < |src| {
      var v := ScalarAt(src, i);
      if v.None? && !strict {
        end := EncodeIntoIsLongest(src, i + 1, strict, room);
      } else if v.Some? && |Utf8Bytes(v.value)| <= room {
        var left := room - |Utf8Bytes(v.value)|;
        end := EncodeIntoIsLongest(src, NextUnit(src, i), strict, left);
        Associate3(
          Utf8Bytes(v.value), EncodeInto(src, NextUnit(src, i), strict, left), EncodeFrom(src, end, strict).code);
      }
    }
  }

  // -1 for a full buffer, -2 for an invalid character met before that. The buffer then holds `fit`,
  // and what is behind is as it was.
  ghost predicate Finished<T>(ret: int, o: Output<T>, fit: seq<T>, before: seq<T>, after: seq<T>) {
    if before != [] && |o.code| > |before| then ret == -1 && Written(after, before, fit)
    else if o.bad then ret == -2 && (before != [] ==> Written(after, before, fit))
    else Converted(ret, o.code, fit, before, after)
  }

  method Store2(dst: array<Byte>, index: nat, ch: Unit, ghost before: seq<Byte>, ghost out: seq<Byte>)
    returns (ok: bool, next: nat)
    requires Written(dst[..], before, out) && index == |out| && 0 < dst.Length && 0x80 <= ch < 0x800
    modifies dst
    ensures WroteOrFull(ok, next, dst[..], before, out + Utf8Bytes(ch))
    ensures !ok ==> dst[..] == old(dst[..])
  {
    if dst.Length - index - 2 < 0 {
      return false, index;
    }
    dst[index + 1] := 0x80 + ch % 64;
    dst[index] := 0xC0 + ch / 64;
    assert dst[index..index + 2] == Utf8Bytes(ch);
    PieceWritten(old(dst[..]), dst[..], before, out, Utf8Bytes(ch));
    return true, index + 2;
  }

  method Store3(dst: array<Byte>, index: nat, v: nat, ghost before: seq<Byte>, ghost out: seq<Byte>)
    returns (ok: bool, next: nat)
    requires Written(dst[..], before, out) && index == |out| && 0 < dst.Length && 0x800 <= v < 0x10000
    modifies dst
    ensures WroteOrFull(ok, next, dst[..], before, out + Utf8Bytes(v))
    ensures !ok ==> dst[..] == old(dst[..])
  {
    if dst.Length - index - 3 < 0 {
      return false, index;
    }
    var val := v;
    dst[index + 2] := 0x80 + val % 64;
    val := val / 64;
    dst[index + 1] := 0x80 + val % 64;
    val := val / 64;
    dst[index] := 0xE0 + val;
    assert dst[index..index + 3] == Utf8Bytes(v);
    PieceWritten(old(dst[..]), dst[..], before, out, Utf8Bytes(v));
    return true, index + 3;
  }

  method Store4(dst: array<Byte>, index: nat, v: nat, ghost before: seq<Byte>, ghost out: seq<Byte>)
    returns (ok: bool, next: nat)
    requires Written(dst[..], before, out) && index == |out| && 0 < dst.Length && 0x10000 <= v <= 0x10FFFF
    modifies dst
    ensures WroteOrFull(ok, next, dst[..], before, out + Utf8Bytes(v))
    ensures !ok ==> dst[..] == old(dst[..])
  {
    if dst.Length - index - 4 < 0 {
      return false, index;
    }
    var val := v;
    dst[index + 3] := 0x80 + val % 64;
    val := val / 64;
    dst[index + 2] := 0x80 + val % 64;
    val := val / 64;
    dst[index + 1] := 0x80 + val % 64;
    val := val / 64;
    dst[index] := 0xF0 + val;
    assert dst[index..index + 4] == Utf8Bytes(v);
    PieceWritten(old(dst[..]), dst[..], before, out, Utf8Bytes(v));
    return true, index + 4;
  }

  // One round of the loop. `ok` is false when the buffer is full.
  method StoreScalar(
    src: seq<Unit>, i: nat, dst: array<Byte>, index: nat, ghost before: seq<Byte>, ghost out: seq<Byte>)
    returns (ok: bool, bad: bool, next: nat)
    requires i < |src| && Written(dst[..], before, out) && index == |out| && 0 < dst.Length
    modifies dst
    ensures bad <==> ScalarAt(src, i).None?
    ensures bad || !ok ==> dst[..] == old(dst[..])
    ensures bad ==> ok
    ensures !bad ==> WroteOrFull(ok, next, dst[..], before, out + Utf8Bytes(ScalarAt(src, i).value))
  {
    var ch := src[i];
    bad := false;
    if ch < 0x80 {
      ok, next := Write(dst, index, ch, before, out);
      return;
    }
    if ch < 0x800 {
      ok, next := Store2(dst, index, ch, before, out);
      return;
    }
    var val := SurrogateValue(src, i);
    if val == 0 {
      return true, true, index;
    }
    if val < 0x10000 {
      ok, next := Store3(dst, index, val, before, out);
    } else {
      ok, next := Store4(dst, index, val, before, out);
    }
  }

  // get_length_wcs_utf8
  method LengthWcs(strict: bool, src: seq<Unit>) returns (ret: int)
    ensures Finished(ret, EncodeFrom(src, 0, strict), [], [], [])
  {
    var i, len: nat := 0, 0;
    while i < |src|
      invariant i <= |src|
      invariant EncodeFrom(src, 0, strict).bad == EncodeFrom(src, i, strict).bad
      invariant |EncodeFrom(src, 0, strict).code| == len + |EncodeFrom(src, i, strict).code|
    {
      if src[i] < 0x80 {
        len := len + 1;
      } else if src[i] < 0x800 {
        len := len + 2;
      } else {
        var val := SurrogateValue(src, i);
        if val == 0 {
          if strict {
            return -2;
          }
        } else if val < 0x10000 {
          len := len + 3;
        } else {
          len := len + 4;
          i := i + 1;
        }
      }
      i := i + 1;
    }
    return len;
  }

  // What the loop keeps: `out` is done, the rest starts at i.
  ghost predicate Encoding(
    src: seq<Unit>, i: nat, strict: bool, dst: seq<Byte>, before: seq<Byte>, out: seq<Byte>) {
    && i <= |src| && before != [] && Written(dst, before, out) && |out| <= |before|
    && EncodeFrom(src, 0, strict) == Prepend(out, EncodeFrom(src, i, strict))
    && out + EncodeInto(src, i, strict, |before| - |out|) == EncodeInto(src, 0, strict, |before|)
  }

  ghost predicate EncodingStops(ret: int, src: seq<Unit>, strict: bool, before: seq<Byte>, after: seq<Byte>) {
    Finished(ret, EncodeFrom(src, 0, strict), EncodeInto(src, 0, strict, |before|), before, after)
  }

  lemma Invalid(src: seq<Unit>, i: nat, strict: bool, dst: seq<Byte>, before: seq<Byte>, out: seq<Byte>)
    requires Encoding(src, i, strict, dst, before, out) && i < |src| && ScalarAt(src, i).None?
    ensures if strict then EncodingStops(-2, src, strict, before, dst)
            else Encoding(src, i + 1, strict, dst, before, out)
  {
    assert out + [] == out;
  }

  lemma OneMore(
    src: seq<Unit>, i: nat, strict: bool, dst: seq<Byte>, before: seq<Byte>, out: seq<Byte>, after: seq<Byte>)
    requires Encoding(src, i, strict, dst, before, out) && i < |src| && ScalarAt(src, i).Some?
    ensures var next := out + Utf8Bytes(ScalarAt(src, i).value);
            if |next| > |before| then EncodingStops(-1, src, strict, before, dst)
            else Written(after, before, next) ==> Encoding(src, NextUnit(src, i), strict, after, before, next)
  {
    var piece := Utf8Bytes(ScalarAt(src, i).value);
    Associate3(out, piece, EncodeFrom(src, NextUnit(src, i), strict).code);
    if |out + piece| > |before| {
      assert out + [] == out;
    } else {
      Associate3(out, piece, EncodeInto(src, NextUnit(src, i), strict, |before| - |out| - |piece|));
    }
  }

  // wine_utf8_wcstombs; an empty dst stands for dstlen == 0.
  method Wcstombs(strict: bool, src: seq<Unit>, dst: array<Byte>) returns (ret: int)
    modifies dst
    ensures Finished(
              ret, EncodeFrom(src, 0, strict), EncodeInto(src, 0, strict, dst.Length), old(dst[..]), dst[..])
  {
    if dst.Length == 0 {
      ret := LengthWcs(strict, src);
      return;
    }
    ghost var before, out: seq<Byte> := dst[..], [];
    var i: nat, index: nat := 0, 0;
    while i < |src|
      invariant Encoding(src, i, strict, dst[..], before, out) && index == |out|
    {
      ghost var now := dst[..];
      var ok, bad, next := StoreScalar(src, i, dst, index, before, out);
      if bad {
        Invalid(src, i, strict, dst[..], before, out);
        if strict {
          return -2;
        }
        i := i + 1;
        continue;
      }
      OneMore(src, i, strict, now, before, out, dst[..]);
      if !ok {
        return -1;
      }
      out, index := out + Utf8Bytes(ScalarAt(src, i).value), next;
      i := NextUnit(src, i);
    }
    AllWritten(dst[..], before, out, EncodeFrom(src, i, strict).code, EncodeInto(src, 0, strict, dst.Length));
    return index;
  }

  // ---------------------------------------------------------------------------------
  // Decoding
  // ---------------------------------------------------------------------------------

  // utf8_length: the number of bytes that follow a lead byte.
  function TrailLength(lead: Byte): (n: nat)
    ensures n <= 3
  {
    if 0xC2 <= lead <= 0xDF then 1 else if 0xE0 <= lead <= 0xEF then 2 else if 0xF0 <= lead <= 0xF4 then 3 else 0
  }

  // ch & utf8_mask[len]
  function LeadBits(lead: Byte): nat {
    match TrailLength(lead)
    case 0 => lead % 0x80
    case 1 => lead % 0x20
    case 2 => lead % 0x10
    case _ => lead % 0x08
  }

  // utf8_minval
  function MinValue(n: nat): nat {
    if n == 0 then 0 else if n == 1 then 0x80 else if n == 2 then 0x800 else 0x10000
  }

  predicate IsTrail(b: Byte) { 0x80 <= b <= 0xBF }

  // A decoded value, or None for an invalid sequence, and the index of the byte after what was read.
  datatype Decoded = Decoded(value: Option<nat>, next: nat)

  // n more bytes; every valid one is read even when a later one is not.
  function DecodeTrail(src: seq<Byte>, i: nat, n: nat, res: nat, min: nat): (d: Decoded)
    requires i + n <= |src|
    ensures i <= d.next <= i + n
    decreases n
  {
    if n == 0 then Decoded(if res < min then None else Some(res), i)
    else if !IsTrail(src[i]) then Decoded(None, i)
    else DecodeTrail(src, i + 1, n - 1, res * 64 + (src[i] - 0x80), min)
  }

  // The sequence whose lead byte is at i; the lead byte is always read.
  function DecodeChar(src: seq<Byte>, i: nat): (d: Decoded)
    requires i < |src|
    ensures i < d.next <= |src|
  {
    var n := TrailLength(src[i]);
    if i + 1 + n > |src| || n == 0 then Decoded(None, i + 1)
    else DecodeTrail(src, i + 1, n, LeadBits(src[i]), MinValue(n))
  }

  // decode_utf8_char; None stands for ~0.
  method DecodeUtf8Char(src: seq<Byte>, lead: nat) returns (res: Option<nat>, str: nat)
    requires lead < |src|
    ensures Decoded(res, str) == DecodeChar(src, lead)
  {
    str := lead + 1;
    var len := TrailLength(src[lead]);
    var value := LeadBits(src[lead]);
    var end := str + len;
    if end > |src| {
      return None, str;
    }
    if len == 3 {
      if !IsTrail(src[end - 3]) {
        return None, str;
      }
      value := value * 64 + (src[end - 3] - 0x80);
      str := str + 1;
    }
    if len >= 2 {
      if !IsTrail(src[end - 2]) {
        return None, str;
      }
      value := value * 64 + (src[end - 2] - 0x80);
      str := str + 1;
    }
    if len >= 1 {
      if !IsTrail(src[end - 1]) {
        return None, str;
      }
      value := value * 64 + (src[end - 1] - 0x80);
      str := str + 1;
      if value < MinValue(len) {
        return None, str;
      }
      return Some(value), str;
    }
    return None, str;
  }

  // One round of the decoder: the scalar value at i, None for what it ignores.
  function CharAt(src: seq<Byte>, i: nat): (d: Decoded)
    requires i < |src|
    ensures i < d.next <= |src|
    ensures d.value.Some? ==> d.value.value <= 0x10FFFF
  {
    if src[i] < 0x80 then Decoded(Some(src[i]), i + 1)
    else
      var d := DecodeChar(src, i);
      if d.value.Some? && d.value.value > 0x10FFFF then Decoded(None, d.next) else d
  }

  function DecodeFrom(src: seq<Byte>, i: nat, strict: bool): Output<Unit>
    requires i <= |src|
    decreases |src| - i
  {
    if i == |src| then Output([], false)
    else
      var d := CharAt(src, i);
      match d.value
      case None => if strict then Output([], true) else DecodeFrom(src, d.next, strict)
      case Some(v) => Prepend(UnitsOf(v), DecodeFrom(src, d.next, strict))
  }

  // get_length_mbs_utf8
  method LengthMbs(strict: bool, src: seq<Byte>) returns (ret: int)
    ensures Finished(ret, DecodeFrom(src, 0, strict), [], [], [])
  {
    var i: nat, len: nat := 0, 0;
    while i < |src|
      invariant i <= |src|
      invariant DecodeFrom(src, 0, strict).bad == DecodeFrom(src, i, strict).bad
      invariant |DecodeFrom(src, 0, strict).code| == len + |DecodeFrom(src, i, strict).code|
    {
      if src[i] < 0x80 {
        len := len + 1;
        i := i + 1;
        continue;
      }
      var res, str := DecodeUtf8Char(src, i);
      if res.Some? && res.value <= 0x10FFFF {
        if res.value > 0xFFFF {
          len := len + 1;
        }
        len := len + 1;
      } else if strict {
        return -2;
      }
      i := str;
    }
    return len;
  }

  // ---------------------------------------------------------------------------------
  // Decoding into a buffer of limited size
  // ---------------------------------------------------------------------------------

  datatype Stop = Done | Full | Bad

  // What the real conversion does: it never looks at a byte once the buffer is full.
  function BoundedFrom(src: seq<Byte>, i: nat, strict: bool, room: nat): (r: (seq<Unit>, Stop))
    requires i <= |src|
    ensures |r.0| <= room
    decreases |src| - i
  {
    if i == |src| then ([], Done)
    else if room == 0 then ([], Full)
    else
      var d := CharAt(src, i);
      match d.value
      case None => if strict then ([], Bad) else BoundedFrom(src, d.next, strict, room)
      case Some(v) =>
        if |UnitsOf(v)| > room then ([], Full)
        else
          var rest := BoundedFrom(src, d.next, strict, room - |UnitsOf(v)|);
          (UnitsOf(v) + rest.0, rest.1)
  }

  ghost predicate BoundedResult(ret: int, r: (seq<Unit>, Stop), before: seq<Unit>, after: seq<Unit>) {
    match r.1
    case Done => |r.0| <= |before| && ret == |r.0| && after == r.0 + before[|r.0|..]
    case Full => ret == -1 && Written(after, before, r.0)
    case Bad => ret == -2 && Written(after, before, r.0)
  }

  lemma BoundedStop(out: seq<Unit>, before: seq<Unit>, after: seq<Unit>)
    requires Written(after, before, out) && before != []
    ensures BoundedResult(|out|, (out + [], Done), before, after)
    ensures BoundedResult(-1, (out + [], Full), before, after) && BoundedResult(-2, (out + [], Bad), before, after)
  {
    assert out + [] == out;
  }

  // The real conversion of wine_utf8_mbstowcs.
  method ConvertMbs(strict: bool, src: seq<Byte>, dst: array<Unit>) returns (ret: int)
    requires dst.Length > 0
    modifies dst
    ensures BoundedResult(ret, BoundedFrom(src, 0, strict, dst.Length), old(dst[..]), dst[..])
  {
    ghost var before, out: seq<Unit>, rest := dst[..], [], BoundedFrom(src, 0, strict, dst.Length);
    var i: nat, index: nat := 0, 0;
    assert out + rest.0 == rest.0;
    while index < dst.Length && i < |src|
      invariant i <= |src| && index <= dst.Length
      invariant Written(dst[..], before, out) && index == |out|
      invariant rest == BoundedFrom(src, i, strict, dst.Length - index)
      invariant BoundedFrom(src, 0, strict, dst.Length) == (out + rest.0, rest.1)
    {
      var res, str := DecodeByte(src, i);
      if res.None? || res.value > 0x10FFFF {
        if strict {
          BoundedStop(out, before, dst[..]);
          return -2;
        }
        i := str;
        continue;
      }
      ghost var piece := UnitsOf(res.value);
      var ok;
      ok, index := EmitScalar(dst, index, res.value, before, out);
      if !ok {
        BoundedStop(out, before, dst[..]);
        return -1;
      }
      rest := BoundedFrom(src, str, strict, dst.Length - index);
      Associate3(out, piece, rest.0);
      out := out + piece;
      i := str;
    }
    BoundedStop(out, before, dst[..]);
    if i < |src| {
      return -1;
    }
    return index;
  }

  // The fast case for 7-bit characters, or decode_utf8_char.
  method DecodeByte(src: seq<Byte>, i: nat) returns (res: Option<nat>, str: nat)
    requires i < |src|
    ensures i < str <= |src|
    ensures CharAt(src, i) == Decoded(if res.Some? && res.value > 0x10FFFF then None else res, str)
  {
    if src[i] < 0x80 {
      return Some(src[i]), i + 1;
    }
    res, str := DecodeUtf8Char(src, i);
  }

  // One unit or a surrogate pair.
  method EmitScalar(dst: array<Unit>, index: nat, v: nat, ghost before: seq<Unit>, ghost out: seq<Unit>)
    returns (ok: bool, next: nat)
    requires Written(dst[..], before, out) && index == |out| < dst.Length && v <= 0x10FFFF
    modifies dst
    ensures WroteOrFull(ok, next, dst[..], before, out + UnitsOf(v))
    ensures !ok ==> dst[..] == old(dst[..])
  {
    if v <= 0xFFFF {
      ok, next := Write(dst, index, v, before, out);
      return;
    }
    if index == dst.Length - 1 {
      return false, index;
    }
    var res := v - 0x10000;
    dst[index] := 0xD800 + res / 0x400;
    dst[index + 1] := 0xDC00 + res % 0x400;
    return true, index + 2;
  }

  // wine_utf8_mbstowcs without MB_COMPOSITE; an empty dst stands for dstlen == 0.
  method Mbstowcs(strict: bool, src: seq<Byte>, dst: array<Unit>) returns (ret: int)
    modifies dst
    ensures dst.Length == 0 ==> Finished(ret, DecodeFrom(src, 0, strict), [], [], [])
    ensures dst.Length > 0 ==> BoundedResult(ret, BoundedFrom(src, 0, strict, dst.Length), old(dst[..]), dst[..])
  {
    if dst.Length == 0 {
      ret := LengthMbs(strict, src);
    } else {
      ret := ConvertMbs(strict, src, dst);
    }
  }

  // The last round of the decoder ignores what it reads.
  predicate EndsIgnored(src: seq<Byte>, i: nat)
    requires i <= |src|
    decreases |src| - i
  {
    i < |src| &&
    if CharAt(src, i).next == |src| then CharAt(src, i).value.None? else EndsIgnored(src, CharAt(src, i).next)
  }

  // When a buffer that is not empty suffices: the length query's answer is enough unless the
  // source ends in bytes that would be ignored; then one more unit of room is needed.
  lemma {:induction false} RoomNeeded(src: seq<Byte>, i: nat, room: nat)
    requires i <= |src|
    ensures var n := |DecodeFrom(src, i, false).code|; var r := BoundedFrom(src, i, false, room);
            if n < room || (n == room && !EndsIgnored(src, i)) then r == (DecodeFrom(src, i, false).code, Done)
            else r.1 == Full
    decreases |src| - i
  {
    if i < |src| {
      var d := CharAt(src, i);
      if d.value.None? {
        RoomNeeded(src, d.next, room);
      } else if |UnitsOf(d.value.value)| <= room {
        RoomNeeded(src, d.next, room - |UnitsOf(d.value.value)|);
      }
      if room == 0 && DecodeFrom(src, i, false).code == [] {
        NothingDecoded(src, i);
      }
    }
  }

  lemma {:induction false} NothingDecoded(src: seq<Byte>, i: nat)
    requires i < |src| && DecodeFrom(src, i, false).code == []
    ensures EndsIgnored(src, i)
    decreases |src| - i
  {
    var d := CharAt(src, i);
    assert d.value.None?;
    if d.next < |src| {
      NothingDecoded(src, d.next);
    }
  }

  // With the strict flag an invalid character is reported only while there is room.
  lemma {:induction false} StrictRoomNeeded(src: seq<Byte>, i: nat, room: nat)
    requires i <= |src|
    ensures var o := DecodeFrom(src, i, true); var r := BoundedFrom(src, i, true, room);
            if o.bad then if |o.code| < room then r.1 == Bad else r.1 == Full
            else if |o.code| <= room then r == (o.code, Done) else r.1 == Full
    decreases |src| - i
  {
    if i < |src| {
      var d := CharAt(src, i);
      if d.value.Some? && |UnitsOf(d.value.value)| <= room {
        StrictRoomNeeded(src, d.next, room - |UnitsOf(d.value.value)|);
      }
    }
  }

  // "A" followed by a stray byte: one unit is counted, and one unit of room is not enough.
  lemma CountedRoomIsNotEnough()
    ensures var src: seq<Byte> := [0x41, 0xFF];
            |DecodeFrom(src, 0, false).code| == 1 && BoundedFrom(src, 0, false, 1).1 == Full
  {
    var src: seq<Byte> := [0x41, 0xFF];
    assert CharAt(src, 0) == Decoded(Some(0x41), 1);
    assert CharAt(src, 1) == Decoded(None, 2);
    assert DecodeFrom(src, 1, false).code == [];
  }

  // ---------------------------------------------------------------------------------
  // Exactness of the decoder
  // ---------------------------------------------------------------------------------

  // The largest value of four bytes whose lead byte is 0xF4.
  const MAX_DECODED := 0x13FFFF

  ghost predicate StartsWith(src: seq<Byte>, i: nat, bytes: seq<Byte>) {
    i + |bytes| <= |src| && src[i..i + |bytes|] == bytes
  }

  lemma LeadBitsValue(lead: Byte)
    ensures TrailLength(lead) == 1 ==> LeadBits(lead) == lead - 0xC0
    ensures TrailLength(lead) == 2 ==> LeadBits(lead) == lead - 0xE0
    ensures TrailLength(lead) == 3 ==> LeadBits(lead) == lead - 0xF0
  {
  }

  function Value2(b0: int, b1: int): int { (b0 - 0xC0) * 64 + (b1 - 0x80) }

  function Value3(b0: int, b1: int, b2: int): int { ((b0 - 0xE0) * 64 + (b1 - 0x80)) * 64 + (b2 - 0x80) }

  function Value4(b0: int, b1: int, b2: int, b3: int): int {
    (((b0 - 0xF0) * 64 + (b1 - 0x80)) * 64 + (b2 - 0x80)) * 64 + (b3 - 0x80)
  }

  // The bytes of a value give the value back ...
  lemma BytesGiveValue(v: nat)
    requires 0x80 <= v <= MAX_DECODED
    ensures var b := Utf8Bytes(v); var n := |b| - 1;
            && n == TrailLength(b[0]) && MinValue(n) <= v
            && (forall k | 1 <= k <= n :: IsTrail(b[k]))
            && (n == 1 ==> v == Value2(b[0], b[1]))
            && (n == 2 ==> v == Value3(b[0], b[1], b[2]))
            && (n == 3 ==> v == Value4(b[0], b[1], b[2], b[3]))
  {
    if v < 0x800 {
    } else if v < 0x10000 {
      assert v / 64 == v / 64 / 64 * 64 + v / 64 % 64;
    } else {
      assert v / 64 / 64 == v / 64 / 64 / 64 * 64 + v / 64 / 64 % 64;
      assert v / 64 == v / 64 / 64 * 64 + v / 64 % 64;
    }
  }

  lemma LowDigit(q: nat, r: nat)
    requires r < 64
    ensures (q * 64 + r) / 64 == q && (q * 64 + r) % 64 == r
  {
  }

  // ... and a value that is not overlong has just these bytes.
  lemma ValueGivesBytes2(b0: Byte, b1: Byte)
    requires TrailLength(b0) == 1 && IsTrail(b1)
    ensures var v := Value2(b0, b1); 0x80 <= v < 0x800 && Utf8Bytes(v) == [b0, b1]
  {
    LowDigit(b0 - 0xC0, b1 - 0x80);
  }

  lemma ValueGivesBytes3(b0: Byte, b1: Byte, b2: Byte)
    requires TrailLength(b0) == 2 && IsTrail(b1) && IsTrail(b2) && 0x800 <= Value3(b0, b1, b2)
    ensures var v := Value3(b0, b1, b2); v < 0x10000 && Utf8Bytes(v) == [b0, b1, b2]
  {
    LowDigit(b0 - 0xE0, b1 - 0x80);
    LowDigit((b0 - 0xE0) * 64 + (b1 - 0x80), b2 - 0x80);
  }

  lemma ValueGivesBytes4(b0: Byte, b1: Byte, b2: Byte, b3: Byte)
    requires TrailLength(b0) == 3 && IsTrail(b1) && IsTrail(b2) && IsTrail(b3) && 0x10000 <= Value4(b0, b1, b2, b3)
    ensures var v := Value4(b0, b1, b2, b3); v <= MAX_DECODED && Utf8Bytes(v) == [b0, b1, b2, b3]
  {
    var x := (b0 - 0xF0) * 64 + (b1 - 0x80);
    LowDigit(b0 - 0xF0, b1 - 0x80);
    LowDigit(x, b2 - 0x80);
    LowDigit(x * 64 + (b2 - 0x80), b3 - 0x80);
  }

  // The trailing bytes of a sequence whose first one is at i.
  ghost predicate Trails(src: seq<Byte>, i: nat, n: nat) {
    i + n <= |src| && forall k | i <= k < i + n :: IsTrail(src[k])
  }

  function TrailValue(src: seq<Byte>, i: nat, n: nat, res: nat): nat
    requires Trails(src, i, n)
    decreases n
  {
    if n == 0 then res else TrailValue(src, i + 1, n - 1, res * 64 + (src[i] - 0x80))
  }

  lemma {:induction false} TrailDecodes(src: seq<Byte>, i: nat, n: nat, res: nat, min: nat)
    requires i + n <= |src|
    ensures var d := DecodeTrail(src, i, n, res, min);
            && (d.value.Some? <==> Trails(src, i, n) && min <= TrailValue(src, i, n, res))
            && (d.value.Some? ==> d == Decoded(Some(TrailValue(src, i, n, res)), i + n))
    decreases n
  {
    if n > 0 && IsTrail(src[i]) {
      TrailDecodes(src, i + 1, n - 1, res * 64 + (src[i] - 0x80), min);
      assert Trails(src, i + 1, n - 1) ==> Trails(src, i, n);
    }
  }

  // The value that the bytes at i stand for.
  lemma TrailValueIs(src: seq<Byte>, i: nat, n: nat)
    requires i < |src| && 1 <= n == TrailLength(src[i]) && Trails(src, i + 1, n)
    ensures TrailValue(src, i + 1, n, LeadBits(src[i])) ==
            if n == 1 then Value2(src[i], src[i + 1])
            else if n == 2 then Value3(src[i], src[i + 1], src[i + 2])
            else Value4(src[i], src[i + 1], src[i + 2], src[i + 3])
  {
    LeadBitsValue(src[i]);
    var a := LeadBits(src[i]) * 64 + (src[i + 1] - 0x80);
    if n == 2 {
      assert TrailValue(src, i + 1, n, LeadBits(src[i])) == TrailValue(src, i + 2, 1, a);
    } else if n == 3 {
      assert TrailValue(src, i + 1, n, LeadBits(src[i])) == TrailValue(src, i + 2, 2, a);
      assert TrailValue(src, i + 2, 2, a) == TrailValue(src, i + 3, 1, a * 64 + (src[i + 2] - 0x80));
    }
  }

  lemma StartsWithIndex(src: seq<Byte>, i: nat, bytes: seq<Byte>)
    requires StartsWith(src, i, bytes)
    ensures forall k | i <= k < i + |bytes| :: src[k] == bytes[k - i]
  {
    assert forall k | i <= k < i + |bytes| :: src[i..i + |bytes|][k - i] == src[k];
  }

  // decode_utf8_char finds every complete shortest-form sequence ...
  lemma DecodesShortestForms(src: seq<Byte>, i: nat, v: nat)
    requires i < |src| && 0x80 <= v <= MAX_DECODED && StartsWith(src, i, Utf8Bytes(v))
    ensures DecodeChar(src, i) == Decoded(Some(v), i + |Utf8Bytes(v)|)
  {
    var n := |Utf8Bytes(v)| - 1;
    BytesGiveValue(v);
    StartsWithIndex(src, i, Utf8Bytes(v));
    assert Trails(src, i + 1, n);
    TrailValueIs(src, i, n);
    TrailDecodes(src, i + 1, n, LeadBits(src[i]), MinValue(n));
  }

  // ... and nothing else.
  lemma DecodesNothingElse(src: seq<Byte>, i: nat)
    requires i < |src| && DecodeChar(src, i).value.Some?
    ensures var d := DecodeChar(src, i); var v := d.value.value;
            0x80 <= v <= MAX_DECODED && d.next == i + |Utf8Bytes(v)| && StartsWith(src, i, Utf8Bytes(v))
  {
    var n := TrailLength(src[i]);
    TrailDecodes(src, i + 1, n, LeadBits(src[i]), MinValue(n));
    TrailValueIs(src, i, n);
    if n == 1 {
      ValueGivesBytes2(src[i], src[i + 1]);
      assert src[i..i + 2] == [src[i], src[i + 1]];
    } else if n == 2 {
      ValueGivesBytes3(src[i], src[i + 1], src[i + 2]);
      assert src[i..i + 3] == [src[i], src[i + 1], src[i + 2]];
    } else {
      ValueGivesBytes4(src[i], src[i + 1], src[i + 2], src[i + 3]);
      assert src[i..i + 4] == [src[i], src[i + 1], src[i + 2], src[i + 3]];
    }
  }

  // ---------------------------------------------------------------------------------
  // Round trips
  // ---------------------------------------------------------------------------------

  // The source without its unpaired surrogates.
  function KeepPaired(src: seq<Unit>, i: nat): seq<Unit>
    requires i <= |src|
    decreases |src| - i
  {
    if i == |src| then []
    else if ScalarAt(src, i).None? then KeepPaired(src, i + 1)
    else src[i..NextUnit(src, i)] + KeepPaired(src, NextUnit(src, i))
  }

  lemma UnitsOfScalar(src: seq<Unit>, i: nat)
    requires i < |src| && ScalarAt(src, i).Some?
    ensures UnitsOf(ScalarAt(src, i).value) == src[i..NextUnit(src, i)]
  {
  }

  lemma CharOfScalar(v: nat, rest: seq<Byte>)
    requires IsScalar(v)
    ensures CharAt(Utf8Bytes(v) + rest, 0) == Decoded(Some(v), |Utf8Bytes(v)|)
  {
    var all := Utf8Bytes(v) + rest;
    if v >= 0x80 {
      DecodesShortestForms(all, 0, v);
    }
  }

  lemma CharAfterPrefix(prefix: seq<Byte>, src: seq<Byte>, i: nat)
    requires i < |src|
    ensures var d := CharAt(src, i);
            CharAt(prefix + src, |prefix| + i) == Decoded(d.value, |prefix| + d.next)
  {
    var all, k := prefix + src, |prefix| + i;
    assert all[k] == src[i];
    var n := TrailLength(src[i]);
    if src[i] >= 0x80 && n > 0 && i + 1 + n <= |src| {
      TrailAfterPrefix(prefix, src, i + 1, n, LeadBits(src[i]), MinValue(n));
    }
  }

  lemma {:induction false} TrailAfterPrefix(prefix: seq<Byte>, src: seq<Byte>, i: nat, n: nat, res: nat, min: nat)
    requires i + n <= |src|
    ensures var d := DecodeTrail(src, i, n, res, min);
            DecodeTrail(prefix + src, |prefix| + i, n, res, min) == Decoded(d.value, |prefix| + d.next)
    decreases n
  {
    if n > 0 {
      assert (prefix + src)[|prefix| + i] == src[i];
      if IsTrail(src[i]) {
        TrailAfterPrefix(prefix, src, i + 1, n - 1, res * 64 + (src[i] - 0x80), min);
      }
    }
  }

  lemma {:induction false} DecodeAfterPrefix(prefix: seq<Byte>, src: seq<Byte>, i: nat, strict: bool)
    requires i <= |src|
    ensures DecodeFrom(prefix + src, |prefix| + i, strict) == DecodeFrom(src, i, strict)
    decreases |src| - i
  {
    if i < |src| {
      CharAfterPrefix(prefix, src, i);
      DecodeAfterPrefix(prefix, src, CharAt(src, i).next, strict);
    }
  }

  // Decoding what was encoded gives the source back, without its unpaired surrogates.
  lemma {:induction false} RoundTrip(src: seq<Unit>, i: nat, strict: bool)
    requires i <= |src|
    ensures DecodeFrom(EncodeFrom(src, i, false).code, 0, strict) == Output(KeepPaired(src, i), false)
    decreases |src| - i
  {
    if i < |src| {
      if ScalarAt(src, i).None? {
        RoundTrip(src, i + 1, strict);
      } else {
        var v, j := ScalarAt(src, i).value, NextUnit(src, i);
        var rest := EncodeFrom(src, j, false).code;
        RoundTrip(src, j, strict);
        CharOfScalar(v, rest);
        DecodeAfterPrefix(Utf8Bytes(v), rest, 0, strict);
        UnitsOfScalar(src, i);
      }
    }
  }

  // A UTF-16 source without unpaired surrogates.
  predicate IsWellFormedUtf16(src: seq<Unit>, i: nat)
    requires i <= |src|
    decreases |src| - i
  {
    i == |src| || (ScalarAt(src, i).Some? && IsWellFormedUtf16(src, NextUnit(src, i)))
  }

  lemma {:induction false} KeepPairedIsIdentity(src: seq<Unit>, i: nat)
    requires i <= |src|
    ensures |KeepPaired(src, i)| <= |src| - i
    ensures KeepPaired(src, i) == src[i..] <==> IsWellFormedUtf16(src, i)
    ensures EncodeFrom(src, i, true).bad <==> !IsWellFormedUtf16(src, i)
    decreases |src| - i
  {
    if i < |src| {
      var j := NextUnit(src, i);
      KeepPairedIsIdentity(src, j);
      SplitDrop(src, i, j);
      if ScalarAt(src, i).Some? {
        assert src[i..][j - i..] == src[j..];
      }
    }
  }

  // Decoding the encoding is the identity exactly on well-formed UTF-16.
  lemma RoundTripExactly(src: seq<Unit>)
    ensures DecodeFrom(EncodeFrom(src, 0, false).code, 0, true).code == src <==> IsWellFormedUtf16(src, 0)
  {
    RoundTrip(src, 0, true);
    KeepPairedIsIdentity(src, 0);
  }

  // The syntax of section 4 of RFC 3629: the length of the UTF-8 character at i, 0 for none.
  function SyntaxLength(src: seq<Byte>, i: nat): (n: nat)
    requires i < |src|
    ensures i + n <= |src|
  {
    var b, left := src[i], |src| - i;
    if b <= 0x7F then 1
    else if 0xC2 <= b <= 0xDF then if left >= 2 && IsTrail(src[i + 1]) then 2 else 0
    else if 0xE0 <= b <= 0xEF then
      if left >= 3 && IsTrail(src[i + 1]) && IsTrail(src[i + 2])
         && (b == 0xE0 ==> 0xA0 <= src[i + 1]) && (b == 0xED ==> src[i + 1] <= 0x9F) then 3 else 0
    else if 0xF0 <= b <= 0xF4 then
      if left >= 4 && IsTrail(src[i + 1]) && IsTrail(src[i + 2]) && IsTrail(src[i + 3])
         && (b == 0xF0 ==> 0x90 <= src[i + 1]) && (b == 0xF4 ==> src[i + 1] <= 0x8F) then 4 else 0
    else 0
  }

  predicate IsWellFormedUtf8(src: seq<Byte>, i: nat)
    requires i <= |src|
    decreases |src| - i
  {
    i == |src| || (SyntaxLength(src, i) > 0 && IsWellFormedUtf8(src, i + SyntaxLength(src, i)))
  }

  lemma SyntaxOfTrails(src: seq<Byte>, i: nat)
    requires i < |src| && src[i] >= 0x80
    ensures var n := TrailLength(src[i]);
            SyntaxLength(src, i) > 0 <==>
            && n > 0 && Trails(src, i + 1, n)
            && MinValue(n) <= TrailValue(src, i + 1, n, LeadBits(src[i]))
            && IsScalar(TrailValue(src, i + 1, n, LeadBits(src[i])))
    ensures SyntaxLength(src, i) > 0 ==> SyntaxLength(src, i) == 1 + TrailLength(src[i])
  {
    var n := TrailLength(src[i]);
    if n > 0 && Trails(src, i + 1, n) {
      TrailValueIs(src, i, n);
    }
  }

  // The decoder accepts a scalar value exactly where the syntax has a character.
  lemma SyntaxIsWhatDecodes(src: seq<Byte>, i: nat)
    requires i < |src|
    ensures var d := CharAt(src, i);
            && (SyntaxLength(src, i) > 0 <==> d.value.Some? && IsScalar(d.value.value))
            && (SyntaxLength(src, i) > 0 ==>
              d.next == i + SyntaxLength(src, i) && src[i..d.next] == Utf8Bytes(d.value.value))
  {
    if src[i] >= 0x80 {
      SyntaxOfTrails(src, i);
      var n := TrailLength(src[i]);
      if i + 1 + n <= |src| {
        TrailDecodes(src, i + 1, n, LeadBits(src[i]), MinValue(n));
      }
      if DecodeChar(src, i).value.Some? {
        DecodesNothingElse(src, i);
      }
    }
  }

  lemma {:induction false} WellFormedAfterPrefix(prefix: seq<Byte>, src: seq<Byte>, i: nat)
    requires i <= |src|
    ensures IsWellFormedUtf8(prefix + src, |prefix| + i) <==> IsWellFormedUtf8(src, i)
    decreases |src| - i
  {
    if i < |src| {
      CharAfterPrefix(prefix, src, i);
      SyntaxIsWhatDecodes(src, i);
      SyntaxIsWhatDecodes(prefix + src, |prefix| + i);
      if SyntaxLength(src, i) > 0 {
        WellFormedAfterPrefix(prefix, src, i + SyntaxLength(src, i));
      }
    }
  }

  // Whatever the source, the encoder's output is well-formed.
  lemma {:induction false} EncodingIsWellFormed(src: seq<Unit>, i: nat, strict: bool)
    requires i <= |src|
    ensures IsWellFormedUtf8(EncodeFrom(src, i, strict).code, 0)
    decreases |src| - i
  {
    if i < |src| {
      if ScalarAt(src, i).None? {
        EncodingIsWellFormed(src, i + 1, strict);
      } else {
        var v, j := ScalarAt(src, i).value, NextUnit(src, i);
        var rest := EncodeFrom(src, j, strict).code;
        EncodingIsWellFormed(src, j, strict);
        CharOfScalar(v, rest);
        SyntaxIsWhatDecodes(Utf8Bytes(v) + rest, 0);
        WellFormedAfterPrefix(Utf8Bytes(v), rest, 0);
      }
    }
  }

  lemma ScalarOfUnits(v: nat, rest: seq<Unit>)
    requires IsScalar(v)
    ensures var all := UnitsOf(v) + rest; ScalarAt(all, 0) == Some(v) && NextUnit(all, 0) == |UnitsOf(v)|
  {
  }

  lemma {:induction false} EncodeAfterPrefix(prefix: seq<Unit>, src: seq<Unit>, i: nat, strict: bool)
    requires i <= |src|
    ensures EncodeFrom(prefix + src, |prefix| + i, strict) == EncodeFrom(src, i, strict)
    decreases |src| - i
  {
    if i < |src| {
      assert ScalarAt(prefix + src, |prefix| + i) == ScalarAt(src, i);
      EncodeAfterPrefix(prefix, src, NextUnit(src, i), strict);
    }
  }

  lemma {:induction false} ReverseRoundTrip(src: seq<Byte>, i: nat)
    requires i <= |src| && IsWellFormedUtf8(src, i)
    ensures EncodeFrom(DecodeFrom(src, i, false).code, 0, false).code == src[i..]
    decreases |src| - i
  {
    if i < |src| {
      var d := CharAt(src, i);
      SyntaxIsWhatDecodes(src, i);
      ReverseRoundTrip(src, d.next);
      var rest := DecodeFrom(src, d.next, false).code;
      ScalarOfUnits(d.value.value, rest);
      EncodeAfterPrefix(UnitsOf(d.value.value), rest, 0, false);
      SplitDrop(src, i, d.next);
    }
  }

  // Encoding what was decoded gives the bytes back exactly when they are well-formed UTF-8.
  lemma ReverseRoundTripExactly(src: seq<Byte>)
    ensures EncodeFrom(DecodeFrom(src, 0, false).code, 0, false).code == src <==> IsWellFormedUtf8(src, 0)
  {
    EncodingIsWellFormed(DecodeFrom(src, 0, false).code, 0, false);
    if IsWellFormedUtf8(src, 0) {
      ReverseRoundTrip(src, 0);
    }
  }
}
