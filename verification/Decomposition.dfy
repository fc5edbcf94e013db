/**
  Decomposition of characters (WinPort/wineguts/decompose.c), and the conversion from a code page
  that decomposes what it decodes (WinPort/wineguts/mbtowc.c).
  */
module Decomposition {
  import opened Characters
  import opened OutputBuffers
  import opened Sequences
  import opened CodePages

  // The entry of a character: nothing, or one or two characters of lower rank.
  datatype Entries = Entries(entry: Unit -> seq<Unit>, rank: Unit -> nat)

  ghost predicate Acyclic(e: Entries) {
    forall ch :: |e.entry(ch)| <= 2 && forall k | 0 <= k < |e.entry(ch)| :: e.rank(e.entry(ch)[k]) < e.rank(ch)
  }

  // Decomposed as far as it goes.
  function Full(e: Entries, ch: Unit): (s: seq<Unit>)
    requires Acyclic(e)
    ensures s != []
    decreases e.rank(ch), 1
  {
    if e.entry(ch) == [] then [ch] else FullAll(e, ch, 0)
  }

  function FullAll(e: Entries, ch: Unit, k: nat): (s: seq<Unit>)
    requires Acyclic(e) && k <= |e.entry(ch)|
    ensures |s| >= |e.entry(ch)| - k
    decreases e.rank(ch), 0, |e.entry(ch)| - k
  {
    if k == |e.entry(ch)| then [] else Full(e, e.entry(ch)[k]) + FullAll(e, ch, k + 1)
  }

  // Nothing in the result has an entry of its own.
  lemma {:induction false} FullIsFinal(e: Entries, ch: Unit)
    requires Acyclic(e)
    ensures forall k | 0 <= k < |Full(e, ch)| :: e.entry(Full(e, ch)[k]) == []
    decreases e.rank(ch), 1
  {
    if e.entry(ch) != [] {
      AllAreFinal(e, ch, 0);
    }
  }

  lemma {:induction false} AllAreFinal(e: Entries, ch: Unit, i: nat)
    requires Acyclic(e) && i <= |e.entry(ch)|
    ensures forall k | 0 <= k < |FullAll(e, ch, i)| :: e.entry(FullAll(e, ch, i)[k]) == []
    decreases e.rank(ch), 0, |e.entry(ch)| - i
  {
    if i < |e.entry(ch)| {
      FullIsFinal(e, e.entry(ch)[i]);
      AllAreFinal(e, ch, i + 1);
    }
  }

  // A character without an entry stays, and decomposing any one character of a string by its entry
  // first makes no difference: together with FullIsFinal that leaves one result for every string.
  lemma NoEntryStays(e: Entries, ch: Unit)
    requires Acyclic(e) && e.entry(ch) == []
    ensures Full(e, ch) == [ch]
  {
  }

  lemma EntryFirst(e: Entries, front: seq<Unit>, ch: Unit, back: seq<Unit>)
    requires Acyclic(e) && e.entry(ch) != []
    ensures FullOfAll(e, front + [ch] + back) == FullOfAll(e, front + e.entry(ch) + back)
  {
    FullOfThree(e, front, [ch], back);
    FullOfThree(e, front, e.entry(ch), back);
    FullOfEntry(e, ch, 0);
    assert FullOfAll(e, [ch]) == Full(e, ch) + FullOfAll(e, []);
    assert e.entry(ch)[0..] == e.entry(ch);
  }

  lemma {:induction false} FullOfEntry(e: Entries, ch: Unit, k: nat)
    requires Acyclic(e) && k <= |e.entry(ch)|
    ensures FullAll(e, ch, k) == FullOfAll(e, e.entry(ch)[k..])
    decreases |e.entry(ch)| - k
  {
    if k < |e.entry(ch)| {
      FullOfEntry(e, ch, k + 1);
    }
  }

  lemma {:induction false} FullOfSum(e: Entries, a: seq<Unit>, b: seq<Unit>)
    requires Acyclic(e)
    ensures FullOfAll(e, a + b) == FullOfAll(e, a) + FullOfAll(e, b)
  {
    if a == [] {
      assert a + b == b;
    } else {
      FullOfSum(e, a[1..], b);
      TailOfSum(a, b);
      Associate3(Full(e, a[0]), FullOfAll(e, a[1..]), FullOfAll(e, b));
    }
  }

  lemma FullOfThree(e: Entries, a: seq<Unit>, b: seq<Unit>, c: seq<Unit>)
    requires Acyclic(e)
    ensures FullOfAll(e, a + b + c) == FullOfAll(e, a) + FullOfAll(e, b) + FullOfAll(e, c)
  {
    FullOfSum(e, a + b, c);
    FullOfSum(e, a, b);
  }

  ghost predicate OnlyWithin(before: seq<Unit>, after: seq<Unit>, at: nat, room: nat) {
    && |before| == |after| && at + room <= |before|
    && forall i | 0 <= i < |before| && (i < at || i >= at + room) :: after[i] == before[i]
  }

  // wine_decompose with no flags: 0 exactly when the room does not suffice.
  method Decompose(e: Entries, ch: Unit, dst: array<Unit>, at: nat, room: nat) returns (res: nat)
    requires Acyclic(e) && room > 0 && at + room <= dst.Length
    modifies dst
    ensures res == if |Full(e, ch)| <= room then |Full(e, ch)| else 0
    ensures res > 0 ==> dst[at..at + res] == Full(e, ch)
    ensures OnlyWithin(old(dst[..]), dst[..], at, if res > 0 then res else room)
    decreases e.rank(ch), 1
  {
    dst[at] := ch;
    if |e.entry(ch)| == 0 {
      return 1;
    }
    if room < |e.entry(ch)| {
      return 0;
    }
    res := DecomposeEntry(e, ch, dst, at, room);
  }

  // The recursive loop; one place is kept free for each part still to come.
  method DecomposeEntry(e: Entries, ch: Unit, dst: array<Unit>, at: nat, room: nat) returns (res: nat)
    requires Acyclic(e) && 0 < |e.entry(ch)| <= room && at + room <= dst.Length
    modifies dst
    ensures res == if |FullAll(e, ch, 0)| <= room then |FullAll(e, ch, 0)| else 0
    ensures res > 0 ==> dst[at..at + res] == FullAll(e, ch, 0)
    ensures OnlyWithin(old(dst[..]), dst[..], at, if res > 0 then res else room)
    decreases e.rank(ch), 0
  {
    var len := |e.entry(ch)|;
    var part := Decompose(e, e.entry(ch)[0], dst, at, room - (len - 1));
    assert FullAll(e, ch, 0) == Full(e, e.entry(ch)[0]) + FullAll(e, ch, 1);
    if part == 0 {
      return 0;
    }
    if len == 1 {
      assert FullAll(e, ch, 1) == [];
      return part;
    }
    assert FullAll(e, ch, 1) == Full(e, e.entry(ch)[1]) + FullAll(e, ch, 2) && FullAll(e, ch, 2) == [];
    ghost var first := dst[..];
    var second := Decompose(e, e.entry(ch)[1], dst, at + part, room - part);
    if second == 0 {
      return 0;
    }
    res := part + second;
    Joined(first, dst[..], at, part, second, Full(e, e.entry(ch)[0]), Full(e, e.entry(ch)[1]));
  }

  lemma Joined(before: seq<Unit>, after: seq<Unit>, at: nat, m: nat, n: nat, a: seq<Unit>, b: seq<Unit>)
    requires |before| == |after| && at + m + n <= |after| && before[at..at + m] == a && after[at + m..at + m + n] == b
    requires forall i | 0 <= i < at + m :: after[i] == before[i]
    ensures after[at..at + m + n] == a + b
  {
    assert after[at..at + m] == a;
    assert after[at..at + m + n] == after[at..at + m] + after[at + m..at + m + n];
  }

  // ---------------------------------------------------------------------------------
  // Decoding a code page with decomposition
  // ---------------------------------------------------------------------------------

  function FullOfAll(e: Entries, s: seq<Unit>): seq<Unit>
    requires Acyclic(e)
  {
    if s == [] then [] else Full(e, s[0]) + FullOfAll(e, s[1..])
  }

  // What of it goes into a buffer with that much room: whole decompositions.
  function FullInto(e: Entries, s: seq<Unit>, room: nat): (fit: seq<Unit>)
    requires Acyclic(e)
    ensures |fit| <= room
  {
    if s == [] || |Full(e, s[0])| > room then [] else Full(e, s[0]) + FullInto(e, s[1..], room - |Full(e, s[0])|)
  }

  lemma {:induction false} FullIntoIsLongest(e: Entries, s: seq<Unit>, room: nat) returns (n: nat)
    requires Acyclic(e)
    ensures n <= |s| && FullInto(e, s, room) == FullOfAll(e, s[..n])
    ensures n < |s| ==> |FullInto(e, s, room)| + |Full(e, s[n])| > room
  {
    n := 0;
    if s != [] && |Full(e, s[0])| <= room {
      var m := FullIntoIsLongest(e, s[1..], room - |Full(e, s[0])|);
      n := m + 1;
      assert s[..n][0] == s[0] && s[..n][1..] == s[1..][..m];
    }
  }

  // mbstowcs_dbcs_decompose, and mbstowcs_sbcs_decompose where there are no lead bytes.
  method MbstowcsDecompose(t: Table, e: Entries, src: seq<Byte>, dst: array<Unit>) returns (ret: int)
    requires Acyclic(e) && forall ch :: |Full(e, ch)| <= 4
    modifies dst
    ensures var code := Decode(t, src, 0);
            ConvertedInFront(ret, FullOfAll(e, code), FullInto(e, code, dst.Length), old(dst[..]), dst[..])
  {
    ghost var before, out := dst[..], [];
    ghost var fit := FullInto(e, Decode(t, src, 0), dst.Length);
    if dst.Length == 0 {
      ret := CountDecomposed(t, e, src);
      return;
    }
    var i, d := 0, 0;
    assert out + fit == fit;
    while i < |src| && d < dst.Length
      invariant 0 <= i <= |src| && d == |out| <= dst.Length && Written(dst[..], before, out)
      invariant out + FullOfAll(e, Decode(t, src, i)) == FullOfAll(e, Decode(t, src, 0))
      invariant out + FullInto(e, Decode(t, src, i), dst.Length - d) == fit
      decreases |src| - i
    {
      var ch, next := DecodeNext(t, src, i);
      FirstOfAll(e, ch, Decode(t, src, next), dst.Length - d);
      Associate3(out, Full(e, ch), FullOfAll(e, Decode(t, src, next)));
      var ok;
      ok, d := StoreDecomposed(e, ch, dst, d, before, out);
      if !ok {
        assert out + [] == out;
        return -1;
      }
      Associate3(out, Full(e, ch), FullInto(e, Decode(t, src, next), dst.Length - d));
      out := out + Full(e, ch);
      i := next;
    }
    if i < |src| {
      var ch, next := DecodeNext(t, src, i);
      FirstOfAll(e, ch, Decode(t, src, next), dst.Length - d);
      assert out + [] == out;
      return -1;
    }
    AllWritten(dst[..], before, out, FullOfAll(e, Decode(t, src, i)), fit);
    return d;
  }

  lemma FirstOfAll(e: Entries, ch: Unit, rest: seq<Unit>, room: nat)
    requires Acyclic(e)
    ensures FullOfAll(e, [ch] + rest) == Full(e, ch) + FullOfAll(e, rest)
    ensures FullInto(e, [ch] + rest, room) ==
            if |Full(e, ch)| > room then [] else Full(e, ch) + FullInto(e, rest, room - |Full(e, ch)|)
  {
    assert ([ch] + rest)[1..] == rest;
  }

  method StoreDecomposed(e: Entries, ch: Unit, dst: array<Unit>, d: nat, ghost before: seq<Unit>, ghost out: seq<Unit>)
    returns (ok: bool, next: nat)
    requires Acyclic(e) && d < dst.Length && Written(dst[..], before, out) && d == |out|
    modifies dst
    ensures WroteOrFull(ok, next, dst[..], before, out + Full(e, ch))
    ensures !ok ==> out <= dst[..]
  {
    ghost var now := dst[..];
    var res := Decompose(e, ch, dst, d, dst.Length - d);
    ok, next := res > 0, d + res;
    if ok {
      PieceWritten(now, dst[..], before, out, Full(e, ch));
    }
  }

  method CountDecomposed(t: Table, e: Entries, src: seq<Byte>) returns (len: nat)
    requires Acyclic(e) && forall ch :: |Full(e, ch)| <= 4
    ensures len == |FullOfAll(e, Decode(t, src, 0))|
  {
    var dummy := new Unit[4];
    len := 0;
    var i := 0;
    while i < |src|
      invariant 0 <= i <= |src| && len + |FullOfAll(e, Decode(t, src, i))| == |FullOfAll(e, Decode(t, src, 0))|
      decreases |src| - i
    {
      var ch, next := DecodeNext(t, src, i);
      FirstOfAll(e, ch, Decode(t, src, next), 0);
      var res := Decompose(e, ch, dummy, 0, 4);
      len := len + res;
      i := next;
    }
  }
}
