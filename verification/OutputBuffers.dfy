/**
  The destination buffer of a conversion. An empty buffer stands for a null destination: the
  conversion then only counts what it would have written.
  */
module OutputBuffers {

  // `out` has been written to dst; an empty dst only counts.
  ghost predicate Written<T>(dst: seq<T>, before: seq<T>, out: seq<T>) {
    |dst| == |before| && (dst != [] ==> |out| <= |dst| && dst == out + before[|out|..])
  }

  // As much of a sequence as there is room for.
  function Front<T>(s: seq<T>, room: nat): seq<T> {
    if |s| <= room then s else s[..room]
  }

  // The return value and the buffer of a conversion that produces `code`; an empty buffer only counts.
  // When the code does not fit, the buffer holds `fit`, and what is behind is as it was.
  ghost predicate Converted<T>(ret: int, code: seq<T>, fit: seq<T>, before: seq<T>, after: seq<T>) {
    if before == [] then ret == |code|
    else if |code| <= |before| then ret == |code| && after == code + before[|code|..]
    else ret == -1 && Written(after, before, fit)
  }

  // The same, but nothing is said of what is behind `fit`.
  ghost predicate ConvertedInFront<T>(ret: int, code: seq<T>, fit: seq<T>, before: seq<T>, after: seq<T>) {
    if before == [] || |code| <= |before| then Converted(ret, code, fit, before, after)
    else ret == -1 && fit <= after
  }

  // out + piece has been written, or does not fit.
  ghost predicate WroteOrFull<T>(ok: bool, next: nat, dst: seq<T>, before: seq<T>, out: seq<T>) {
    && (ok <==> before == [] || |out| <= |before|)
    && (ok ==> next == |out| && Written(dst, before, out))
  }

  lemma AllWritten<T>(dst: seq<T>, before: seq<T>, out: seq<T>, rest: seq<T>, fit: seq<T>)
    requires Written(dst, before, out) && rest == []
    ensures Converted(|out|, out + rest, fit, before, dst)
  {
    assert out + rest == out;
  }

  lemma DoesNotFit<T>(dst: seq<T>, before: seq<T>, out: seq<T>, piece: seq<T>, rest: seq<T>, fit: seq<T>)
    requires 0 < |before| < |out + piece| && Written(dst, before, out) && out == fit
    ensures Converted(-1, out + (piece + rest), fit, before, dst)
  {
  }

  // Full, where single elements are written.
  lemma FrontIsWritten<T>(before: seq<T>, out: seq<T>, rest: seq<T>)
    requires |out| == |before|
    ensures Front(out + rest, |before|) == out
  {
  }

  // Writes one element (utf7_write_c, utf7_write_w).
  method Write<T>(dst: array<T>, index: nat, c: T, ghost before: seq<T>, ghost out: seq<T>)
    returns (ok: bool, next: nat)
    requires Written(dst[..], before, out) && index == |out|
    modifies dst
    ensures WroteOrFull(ok, next, dst[..], before, out + [c])
    ensures !ok ==> dst[..] == old(dst[..])
  {
    if dst.Length > 0 {
      if index >= dst.Length {
        return false, index;
      }
      dst[index] := c;
    }
    return true, index + 1;
  }

  // A piece of several elements stored after what has been written.
  lemma PieceWritten<T>(dst: seq<T>, after: seq<T>, before: seq<T>, out: seq<T>, piece: seq<T>)
    requires Written(dst, before, out) && dst != [] && |after| == |dst| && |out + piece| <= |dst|
    requires after[..|out|] == dst[..|out|] && after[|out|..|out + piece|] == piece
    requires after[|out + piece|..] == dst[|out + piece|..]
    ensures Written(after, before, out + piece)
  {
    assert dst[..|out|] == out;
    assert dst[|out + piece|..] == before[|out + piece|..];
    assert after == after[..|out|] + after[|out|..|out + piece|] + after[|out + piece|..];
  }
}
