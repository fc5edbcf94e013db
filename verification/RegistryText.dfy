/**
  The text forms of registry values: escaped strings, hexadecimal numbers and byte listings
  (WinPort/src/APIRegistry.cpp).
  */
module RegistryText {
  import opened Characters
  import opened Wrappers
  import opened Sequences

  type Text = seq<Byte>

  const NUL: Byte := 0
  const TAB: Byte := 9
  const LF: Byte := 10
  const CR: Byte := 13
  const BLANK: Byte := 0x20
  const BACKSLASH: Byte := 0x5C

  // ---------------------------------------------------------------------------------
  // RegEscape and RegUnescape
  // ---------------------------------------------------------------------------------

  predicate Special(c: Byte) {
    c == BACKSLASH || c == CR || c == LF || c == NUL
  }

  // The letter that stands for a special character: `\`, `r`, `n`, `0`.
  function Letter(c: Byte): Byte {
    if c == CR then 0x72 else if c == LF then 0x6E else if c == NUL then 0x30 else c
  }

  function Meaning(c: Byte): Byte {
    if c == 0x72 then CR else if c == 0x6E then LF else if c == 0x30 then NUL else c
  }

  // A line ends after each NUL that is not the last character.
  function EscapeOne(c: Byte, isLast: bool): Text {
    if !Special(c) then [c]
    else [BACKSLASH, Letter(c)] + if c == NUL && !isLast then [LF] else []
  }

  function Escape(s: Text): Text {
    if s == [] then [] else EscapeOne(s[0], |s| == 1) + Escape(s[1..])
  }

  function Unescape(s: Text): Text {
    if s == [] then []
    else if s[0] == BACKSLASH then if |s| == 1 then [] else [Meaning(s[1])] + Unescape(s[2..])
    else if Special(s[0]) then Unescape(s[1..])
    else [s[0]] + Unescape(s[1..])
  }

  lemma UnescapeAfterOne(c: Byte, isLast: bool, rest: Text)
    ensures Unescape(EscapeOne(c, isLast) + rest) == [c] + Unescape(rest)
  {
    var s := EscapeOne(c, isLast) + rest;
    if Special(c) {
      if c == NUL && !isLast {
        assert s[2..] == [LF] + rest;
        assert ([LF] + rest)[1..] == rest;
      } else {
        assert s[2..] == rest;
      }
    } else {
      assert s[1..] == rest;
    }
  }

  // Whatever the bytes, and with or without the line end that the file puts behind them.
  lemma {:induction false} EscapeThenUnescape(s: Text, tail: Text)
    requires tail == [] || tail == [LF]
    ensures Unescape(Escape(s) + tail) == s
  {
    if s == [] {
      assert Escape(s) + tail == tail;
      assert tail != [] ==> tail[1..] == [];
    } else {
      var rest := Escape(s[1..]);
      EscapeThenUnescape(s[1..], tail);
      UnescapeAfterOne(s[0], |s| == 1, rest + tail);
      Associate3(EscapeOne(s[0], |s| == 1), rest, tail);
    }
  }

  // So reading up to a NUL reads all of it.
  lemma {:induction false} EscapedHasNoNul(s: Text)
    ensures NUL !in Escape(s) && CR !in Escape(s)
  {
    if s != [] {
      EscapedHasNoNul(s[1..]);
    }
  }

  // The stored form is at most three times as long.
  lemma {:induction false} EscapedLength(s: Text)
    ensures |s| <= |Escape(s)| <= 3 * |s|
  {
    if s != [] {
      EscapedLength(s[1..]);
    }
  }

  // One more character: itself, or two for a special one; a NUL in front of it ends its line first.
  lemma {:induction false} EscapeOneMore(s: Text, c: Byte)
    ensures Escape(s + [c]) ==
            Escape(s) + (if s != [] && s[|s| - 1] == 0 then [0x0A] else [])
            + if c == 0x5C then [0x5C, 0x5C] else if c == 0x0D then [0x5C, 0x72]
              else if c == 0x0A then [0x5C, 0x6E] else if c == 0 then [0x5C, 0x30] else [c]
  {
    var all, end := s + [c], if s != [] && s[|s| - 1] == 0 then [0x0A] else [];
    if s == [] {
      assert all[1..] == [];
    } else {
      EscapeOneMore(s[1..], c);
      assert all[1..] == s[1..] + [c];
      if |s| == 1 {
        assert s[1..] == [];
      }
    }
  }

  // Text that was not escaped: an unknown letter behind a backslash stands for itself, a backslash
  // at the end stands for nothing, and line ends and NULs are dropped.
  lemma UnescapeOne(c: Byte, d: Byte, rest: Text)
    ensures c == 0x5C ==>
              Unescape([c, d] + rest) ==
              [if d == 0x72 then 0x0D else if d == 0x6E then 0x0A else if d == 0x30 then 0 else d] + Unescape(rest)
    ensures Unescape([0x5C]) == []
    ensures c in {0, 0x0A, 0x0D} ==> Unescape([c] + rest) == Unescape(rest)
    ensures c !in {0, 0x0A, 0x0D, 0x5C} ==> Unescape([c] + rest) == [c] + Unescape(rest)
  {
    assert ([c, d] + rest)[2..] == rest && ([c] + rest)[1..] == rest;
  }

  method RegEscape(text: Text) returns (s: Text)
    ensures s == Escape(text)
  {
    s := text;
    var i := 0;
    ghost var k := 0;  // how much of the text is done
    while i != |s|
      invariant k <= |text| && 0 <= i <= |s| && s[i..] == text[k..]
      invariant s[..i] + Escape(text[k..]) == Escape(text)
      decreases |text| - k
    {
      ghost var done := s[..i];
      DropDrop(text, k, 1);
      Associate3(done, EscapeOne(text[k], k + 1 == |text|), Escape(text[k + 1..]));
      assert s[i] == s[i..][0];
      s, i := EscapeAt(s, i);
      k := k + 1;
    }
    assert text[k..] == [] && s[..i] == s && Escape(text[k..]) == [];
  }

  // One character, escaped in place.
  method EscapeAt(text: Text, at: nat) returns (s: Text, i: nat)
    requires at < |text|
    ensures i <= |s| && s[..i] == text[..at] + EscapeOne(text[at], at + 1 == |text|) && s[i..] == text[at + 1..]
  {
    s, i := text, at;
    if s[i] == BACKSLASH || s[i] == CR || s[i] == LF || s[i] == NUL {
      s, i := EscapeSpecial(text, at);
    } else {
      OneOf(text, at);
      assert text[..at + 1] == text[..at] + text[at..at + 1];
      i := i + 1;
    }
  }

  // A backslash in front, and a letter for the character.
  method EscapeSpecial(text: Text, at: nat) returns (s: Text, i: nat)
    requires at < |text| && Special(text[at])
    ensures i <= |s| && s[..i] == text[..at] + EscapeOne(text[at], at + 1 == |text|) && s[i..] == text[at + 1..]
  {
    var c := text[at];
    ghost var before, after := text[..at], text[at + 1..];
    s := text[..at] + [BACKSLASH] + text[at..];
    i := at + 1;
    assert s[i] == c;
    if c == CR {
      s := s[i := 0x72];
    } else if c == LF {
      s := s[i := 0x6E];
    } else if c == NUL {
      s := s[i := 0x30];
    }
    assert s == before + [BACKSLASH, Letter(c)] + after;
    if c == NUL && i + 1 != |s| {
      i := i + 1;
      s := s[..i] + [LF] + s[i..];
      assert s == before + [BACKSLASH, Letter(c), LF] + after;
    }
    i := i + 1;
  }

  method RegUnescape(text: Text) returns (s: Text)
    ensures s == Unescape(text)
  {
    s := text;
    var i := 0;
    assert s[..0] + Unescape(s[0..]) == Unescape(text);
    while i != |s|
      invariant 0 <= i <= |s| && s[..i] + Unescape(s[i..]) == Unescape(text)
      decreases |s| - i
    {
      s, i := UnescapeAt(s, i);
    }
    assert s[i..] == [] && s[..i] == s;
  }

  // One character, unescaped or dropped in place.
  method UnescapeAt(text: Text, at: nat) returns (s: Text, i: nat)
    requires at < |text|
    ensures i <= |s| && |s| - i < |text| - at
    ensures s[..i] + Unescape(s[i..]) == text[..at] + Unescape(text[at..])
  {
    s, i := text, at;
    ghost var done, ahead := text[..at], text[at..];
    if s[i] == BACKSLASH {
      s := s[..i] + s[i + 1..];
      if i == |s| {
        assert ahead == [BACKSLASH];
        return;
      }
      assert ahead[1] == s[i];
      DropDrop(text, at, 2);
      if s[i] == 0x72 {
        s := s[i := CR];
      } else if s[i] == 0x6E {
        s := s[i := LF];
      } else if s[i] == 0x30 {
        s := s[i := NUL];
      }
      i := i + 1;
      assert s[..i] == done + [Meaning(ahead[1])] && s[i..] == text[at + 2..];
      Associate3(done, [Meaning(ahead[1])], Unescape(ahead[2..]));
    } else {
      DropDrop(text, at, 1);
      if s[i] == CR || s[i] == LF || s[i] == NUL {
        s := s[..i] + s[i + 1..];
        assert s[..i] == done && s[i..] == text[at + 1..];
      } else {
        i := i + 1;
        assert s[..i] == done + [text[at]];
        Associate3(done, [text[at]], Unescape(ahead[1..]));
      }
    }
  }

  // ---------------------------------------------------------------------------------
  // Hexadecimal numbers
  // ---------------------------------------------------------------------------------

  function HexDigit(d: nat): Byte
    requires d < 16
  {
    if d < 10 then 0x30 + d else 0x61 + d - 10
  }

  predicate IsHex(c: Byte) {
    0x30 <= c <= 0x39 || 0x61 <= c <= 0x66 || 0x41 <= c <= 0x46
  }

  function HexValue(c: Byte): nat
    requires IsHex(c)
  {
    if c <= 0x39 then c - 0x30 else if c >= 0x61 then c - 0x61 + 10 else c - 0x41 + 10
  }

  lemma DigitIsHex(d: nat)
    requires d < 16
    ensures IsHex(HexDigit(d)) && HexValue(HexDigit(d)) == d && HexDigit(d) >= 0x30
  {
  }

  // What `<< std::hex` prints.
  function HexText(n: nat): Text {
    if n < 16 then [HexDigit(n)] else HexText(n / 16) + [HexDigit(n % 16)]
  }

  function HexPrefix(s: Text, acc: nat): nat {
    if s == [] || !IsHex(s[0]) then acc else HexPrefix(s[1..], acc * 16 + HexValue(s[0]))
  }

  predicate IsSpace(c: Byte) {
    c == BLANK || TAB <= c <= CR
  }

  // The "%x" of sscanf, as the C standard has it: None when there is no digit.
  function ScanHex(s: Text): Option<int> {
    if s != [] && IsSpace(s[0]) then ScanHex(s[1..])
    else if s != [] && s[0] == 0x2D then ScanDigits(s[1..], -1)
    else if s != [] && s[0] == 0x2B then ScanDigits(s[1..], 1)
    else ScanDigits(s, 1)
  }

  function ScanDigits(s: Text, sign: int): Option<int> {
    var digits := if |s| >= 2 && s[0] == 0x30 && (s[1] == 0x78 || s[1] == 0x58) then s[2..] else s;
    if digits != [] && IsHex(digits[0]) then Some(sign * HexPrefix(digits, 0)) else None
  }

  lemma {:induction false} ScanPrinted(n: nat, tail: Text)
    ensures HexPrefix(HexText(n) + tail, 0) == HexPrefix(tail, n)
    ensures HexText(n) != [] && forall i | 0 <= i < |HexText(n)| :: IsHex(HexText(n)[i])
  {
    var d := n % 16;
    DigitIsHex(d);
    if n < 16 {
      assert ([HexDigit(d)] + tail)[1..] == tail;
    } else {
      ScanPrinted(n / 16, [HexDigit(d)] + tail);
      Associate3(HexText(n / 16), [HexDigit(d)], tail);
      assert ([HexDigit(d)] + tail)[1..] == tail;
    }
  }

  lemma PrintThenScan(n: nat)
    ensures ScanHex(HexText(n) + [LF]) == Some(n)
    ensures ScanHex(HexText(n)) == Some(n)
  {
    ScanPrinted(n, [LF]);
    ScanPrinted(n, []);
    assert HexText(n) + [] == HexText(n);
    assert IsHex(HexText(n)[0]);
    assert |HexText(n)| >= 2 ==> IsHex(HexText(n)[1]);
  }

  // ---------------------------------------------------------------------------------
  // Bytes of a number, lowest first
  // ---------------------------------------------------------------------------------

  function FromBytes(b: Text): nat {
    if b == [] then 0 else b[0] + 0x100 * FromBytes(b[1..])
  }

  lemma LowestFirst(a: Byte, b: Byte, c: Byte, d: Byte)
    ensures FromBytes([a, b, c, d]) == a + 0x100 * b + 0x1_0000 * c + 0x100_0000 * d
  {
    assert [d][1..] == [] && [c, d][1..] == [d] && [b, c, d][1..] == [c, d] && [a, b, c, d][1..] == [b, c, d];
    assert FromBytes([d]) == d;
    assert FromBytes([c, d]) == c + 0x100 * d;
    assert FromBytes([b, c, d]) == b + 0x100 * (c + 0x100 * d);
  }

  // Of an int in two's complement: what does not fit is cut off.
  function ToBytes(n: int, width: nat): (b: Text)
    ensures |b| == width
    decreases width
  {
    if width == 0 then [] else [n % 0x100] + ToBytes(n / 0x100, width - 1)
  }

  lemma {:induction false} BytesThroughNumber(b: Text)
    ensures ToBytes(FromBytes(b), |b|) == b
  {
    if b != [] {
      BytesThroughNumber(b[1..]);
      LowByte(b[0], FromBytes(b[1..]));
      assert b == [b[0]] + b[1..];
    }
  }

  lemma LowByte(low: Byte, high: nat)
    ensures (low + 0x100 * high) % 0x100 == low && (low + 0x100 * high) / 0x100 == high
  {
  }

  // ---------------------------------------------------------------------------------
  // Listings of bytes
  // ---------------------------------------------------------------------------------

  // "%02x "
  function Listed(b: Byte): Text {
    [HexDigit(b / 16), HexDigit(b % 16), BLANK]
  }

  // Sixteen bytes in a line.
  function Listing(data: Text, i: nat): Text
    requires i <= |data|
    decreases |data| - i
  {
    if i == |data| then []
    else (if i != 0 && i % 16 == 0 then [LF] else []) + Listed(data[i]) + Listing(data, i + 1)
  }

  // One more byte: two lower-case digits and a blank, in a new line after every sixteen bytes.
  lemma {:induction false} ListingOneMore(data: Text, b: Byte, i: nat)
    requires i <= |data|
    ensures Listing(data + [b], i) ==
            Listing(data, i) + (if |data| != 0 && |data| % 16 == 0 then [LF] else [])
            + [HexDigit(b / 16), HexDigit(b % 16), 0x20]
    decreases |data| - i
  {
    var all := data + [b];
    if i < |data| {
      ListingOneMore(data, b, i + 1);
      Associate3(
        (if i != 0 && i % 16 == 0 then [LF] else []) + Listed(data[i]), Listing(data, i + 1),
        if |data| != 0 && |data| % 16 == 0 then [LF] else []);
    } else {
      assert Listing(all, i + 1) == [];
    }
  }

  predicate Separates(c: Byte) {
    c == LF || c == CR || c == BLANK
  }

  // Two characters make a byte; a pair without a digit makes a zero.
  function PairValue(a: Byte, b: Byte): Byte {
    match ScanHex([a, b])
    case Some(v) => v % 0x100
    case None => 0
  }

  // Digits of both cases count; of a pair only the leading digits do.
  lemma PairsAreScanned(a: Byte, b: Byte, d: nat)
    requires d < 6 && !IsSpace(a) && a != 0x2B && a != 0x2D
    ensures IsHex(a) && IsHex(b) ==> PairValue(a, b) == 16 * HexValue(a) + HexValue(b)
    ensures IsHex(a) && !IsHex(b) && b != 0x78 && b != 0x58 ==> PairValue(a, b) == HexValue(a)
    ensures !IsHex(a) ==> PairValue(a, b) == 0
    ensures HexValue(0x61 + d) == HexValue(0x41 + d) == 10 + d
  {
    var s := [a, b];
    assert s[1..] == [b] && s[1..][1..] == [];
    if IsHex(a) {
      assert HexPrefix([b], HexValue(a)) ==
        if IsHex(b) then HexPrefix([], HexValue(a) * 16 + HexValue(b)) else HexValue(a);
      assert HexPrefix(s, 0) == HexPrefix([b], HexValue(a));
    }
  }

  function Parse(s: Text): Text {
    if s == [] then []
    else if Separates(s[0]) then Parse(s[1..])
    else if s[0] == NUL || |s| == 1 || s[1] == NUL then []
    else [PairValue(s[0], s[1])] + Parse(s[2..])
  }

  lemma PairOfListed(b: Byte)
    ensures var s := Listed(b);
            PairValue(s[0], s[1]) == b && !Separates(s[0]) && s[0] != NUL && s[1] != NUL
  {
    DigitIsHex(b / 16);
    DigitIsHex(b % 16);
    var s := [HexDigit(b / 16), HexDigit(b % 16)];
    assert s[1..] == [s[1]];
    assert s[1..][1..] == [];
    assert HexPrefix([], b) == b;
    assert HexPrefix([s[1]], b / 16) == b;
    assert HexPrefix(s, 0) == b;
    assert ScanHex(s) == Some(b);
  }

  lemma ParseListed(b: Byte, newLine: bool, rest: Text)
    ensures Parse((if newLine then [LF] else []) + Listed(b) + rest) == [b] + Parse(rest)
  {
    PairOfListed(b);
    var s := Listed(b) + rest;
    assert s[2..] == [BLANK] + rest;
    assert ([BLANK] + rest)[1..] == rest;
    assert Parse(s) == [b] + Parse(rest);
    if newLine {
      assert ([LF] + Listed(b) + rest)[1..] == s;
    } else {
      assert [] + Listed(b) + rest == s;
    }
  }

  lemma {:induction false} ListThenParse(data: Text, i: nat, tail: Text)
    requires i <= |data| && (tail == [] || tail == [LF])
    ensures Parse(Listing(data, i) + tail) == data[i..]
    decreases |data| - i
  {
    if i == |data| {
      assert Listing(data, i) + tail == tail;
      assert tail != [] ==> tail[1..] == [];
    } else {
      var newLine := i != 0 && i % 16 == 0;
      var rest := Listing(data, i + 1);
      ListThenParse(data, i + 1, tail);
      ParseListed(data[i], newLine, rest + tail);
      Associate3((if newLine then [LF] else []) + Listed(data[i]), rest, tail);
    }
  }

  lemma {:induction false} ListingHasNoNul(data: Text, i: nat)
    requires i <= |data|
    ensures NUL !in Listing(data, i)
    decreases |data| - i
  {
    if i < |data| {
      ListingHasNoNul(data, i + 1);
    }
  }

  // RegValueSerializeBinary
  method SerializeBinary(data: Text) returns (os: Text)
    ensures os == Listing(data, 0)
  {
    os := [];
    for i := 0 to |data|
      invariant os + Listing(data, i) == Listing(data, 0)
    {
      ghost var before := os;
      if i != 0 && i % 16 == 0 {
        os := os + [LF];
      }
      os := os + Listed(data[i]);
      Associate3(before, (if i != 0 && i % 16 == 0 then [LF] else []) + Listed(data[i]), Listing(data, i + 1));
    }
  }
}
