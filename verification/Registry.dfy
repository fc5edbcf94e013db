/**
  Registry values as files: RegSetValueEx writes one, RegQueryValueEx reads it back
  (WinPort/src/APIRegistry.cpp).

  Conversion between wide and multibyte strings is a parameter; wide strings are given by
  their bytes, four for a character.
  */
module Registry {
  import opened Characters
  import opened Wrappers
  import opened Sequences
  import opened RegistryText

  const REG_SZ := 1
  const REG_EXPAND_SZ := 2
  const REG_BINARY := 3
  const REG_DWORD := 4
  const REG_MULTI_SZ := 7
  const REG_QWORD := 11
  const REG_SZ_MB := 101
  const REG_EXPAND_SZ_MB := 102
  const REG_MULTI_SZ_MB := 107

  type Type = t: nat | t < 0x1_0000_0000

  datatype Status = Success | MoreData | InvalidParameter

  datatype Codec = Codec(toMB: Text -> Text, toWide: Text -> Text)

  ghost predicate ValidCodec(codec: Codec) {
    forall w: Text {:trigger codec.toMB(w)} :: |w| % 4 == 0 ==> codec.toWide(codec.toMB(w)) == w
  }

  predicate IsWide(t: Type) {
    t == REG_SZ || t == REG_MULTI_SZ || t == REG_EXPAND_SZ
  }

  predicate IsMultibyte(t: Type) {
    t == REG_SZ_MB || t == REG_MULTI_SZ_MB || t == REG_EXPAND_SZ_MB
  }

  // The names of the types in a file; other types go by their number.
  const SZ: Text := [0x53, 0x5A]
  const MB: Text := [0x5F, 0x4D, 0x42]                       // _MB
  const MULTI: Text := [0x4D, 0x55, 0x4C, 0x54, 0x49, 0x5F]        // MULTI_
  const EXPAND: Text := [0x45, 0x58, 0x50, 0x41, 0x4E, 0x44, 0x5F]  // EXPAND_
  const DWORD: Text := [0x44, 0x57, 0x4F, 0x52, 0x44]
  const QWORD: Text := [0x51, 0x57, 0x4F, 0x52, 0x44]
  const BINARY: Text := [0x42, 0x49, 0x4E, 0x41, 0x52, 0x59]

  function TipOf(t: Type): Text {
    if t == REG_DWORD then DWORD
    else if t == REG_QWORD then QWORD
    else if t == REG_SZ then SZ
    else if t == REG_MULTI_SZ then MULTI + SZ
    else if t == REG_EXPAND_SZ then EXPAND + SZ
    else if t == REG_SZ_MB then SZ + MB
    else if t == REG_MULTI_SZ_MB then MULTI + SZ + MB
    else if t == REG_EXPAND_SZ_MB then EXPAND + SZ + MB
    else if t == REG_BINARY then BINARY
    else HexText(t)
  }

  function TypeOf(tip: Text): Type {
    if tip == DWORD then REG_DWORD
    else if tip == QWORD then REG_QWORD
    else if tip == SZ then REG_SZ
    else if tip == MULTI + SZ then REG_MULTI_SZ
    else if tip == EXPAND + SZ then REG_EXPAND_SZ
    else if tip == SZ + MB then REG_SZ_MB
    else if tip == MULTI + SZ + MB then REG_MULTI_SZ_MB
    else if tip == EXPAND + SZ + MB then REG_EXPAND_SZ_MB
    else if tip == BINARY then REG_BINARY
    else match ScanHex(tip)
      case Some(n) => n % 0x1_0000_0000
      case None => REG_BINARY
  }

  // ---------------------------------------------------------------------------------
  // Writing
  // ---------------------------------------------------------------------------------

  function Whole(data: Text): Text {
    data[..|data| / 4 * 4]
  }

  // The memory that RegSetValueEx reads.
  predicate Readable(t: Type, data: Text) {
    (t == REG_DWORD ==> |data| >= 4) && (t == REG_QWORD ==> |data| >= 8)
  }

  function Body(codec: Codec, t: Type, data: Text): Text
    requires Readable(t, data)
  {
    if t == REG_DWORD then HexText(FromBytes(data[..4]))
    else if t == REG_QWORD then HexText(FromBytes(data[..8]))
    else if IsWide(t) then Escape(codec.toMB(Whole(data)))
    else if IsMultibyte(t) then Escape(data)
    else Listing(data, 0)
  }

  function FileOf(codec: Codec, name: Text, t: Type, data: Text): Text
    requires Readable(t, data)
  {
    name + [LF] + (TipOf(t) + [LF] + (Body(codec, t, data) + [LF]))
  }

  // RegValueSerialize: a line with the type, and the rest of the file.
  method Serialize(codec: Codec, t: Type, data: Text) returns (tip: Text, body: Text)
    requires Readable(t, data)
    ensures tip == TipOf(t) && body == Body(codec, t, data)
  {
    if t == REG_DWORD {
      tip, body := DWORD, HexText(FromBytes(data[..4]));
    } else if t == REG_QWORD {
      tip, body := QWORD, HexText(FromBytes(data[..8]));
    } else if IsWide(t) {
      body := RegEscape(codec.toMB(Whole(data)));
      tip := if t == REG_SZ then SZ else if t == REG_MULTI_SZ then MULTI + SZ else EXPAND + SZ;
    } else if IsMultibyte(t) {
      body := RegEscape(data);
      tip := if t == REG_SZ_MB then SZ + MB else if t == REG_MULTI_SZ_MB then MULTI + SZ + MB else EXPAND + SZ + MB;
    } else {
      tip := if t == REG_BINARY then BINARY else HexText(t);
      body := SerializeBinary(data);
    }
  }

  lemma Assemble(name: Text, tip: Text, body: Text)
    ensures name + [LF] + tip + [LF] + body + [LF] == name + [LF] + (tip + [LF] + (body + [LF]))
  {
    Associate3(tip + [LF], body, [LF]);
    Associate4(name + [LF], tip, [LF], body);
    Associate3(name + [LF], tip + [LF] + body, [LF]);
  }

  // What is written to the file of the value.
  method RegSetValueEx(codec: Codec, name: Text, t: Type, data: Text) returns (file: Text)
    requires Readable(t, data)
    ensures file == FileOf(codec, name, t, data)
    ensures file == name + [LF] + TipOf(t) + [LF] + Body(codec, t, data) + [LF]
  {
    file := name + [LF];
    var tip, body := Serialize(codec, t, data);
    file := file + tip + [LF] + body;
    file := file + [LF];
    Assemble(name, tip, body);
  }

  // ---------------------------------------------------------------------------------
  // Reading
  // ---------------------------------------------------------------------------------

  // The line up to a delimiter, and what follows.
  function GetLine(s: Text, delimiter: Byte): (Text, Text) {
    if s == [] then ([], [])
    else if s[0] == delimiter then ([], s[1..])
    else
      var (line, rest) := GetLine(s[1..], delimiter);
      ([s[0]] + line, rest)
  }

  // What a file holds: a number (unless there is no digit), a string with the size of its
  // terminator, or bytes.
  datatype Value = Number(width: nat, scanned: Option<int>) | Str(data: Text, terminator: nat) | Bytes(data: Text)

  function Interpret(codec: Codec, tip: Text, s: Text): Value {
    if tip == DWORD then Number(4, ScanHex(s))
    else if tip == QWORD then Number(8, ScanHex(s))
    else if WideTip(tip) then Str(codec.toWide(Unescape(s)), 4)
    else if MultibyteTip(tip) then Str(Unescape(s), 1)
    else Bytes(Parse(s))
  }

  predicate WideTip(tip: Text) {
    tip == SZ || tip == MULTI + SZ || tip == EXPAND + SZ
  }

  predicate MultibyteTip(tip: Text) {
    tip == SZ + MB || tip == MULTI + SZ + MB || tip == EXPAND + SZ + MB
  }

  function Size(v: Value): nat {
    if v.Number? then v.width else |v.data|
  }

  // The bytes of a value.
  function Data(v: Value): Option<Text> {
    match v
    case Number(width, Some(n)) => Some(ToBytes(n, width))
    case Number(_, None) => None
    case Str(data, _) => Some(data)
    case Bytes(data) => Some(data)
  }

  function Put(buffer: Text, b: Text): Text
    requires |b| <= |buffer|
  {
    b + buffer[|b|..]
  }

  // What the caller's buffer holds afterwards.
  function Delivered(v: Value, buffer: Text, room: nat): Text
    requires room <= |buffer|
  {
    match v
    case Number(width, scanned) =>
      if room < width || scanned == None then buffer else Put(buffer, ToBytes(scanned.value, width))
    case Str(data, terminator) =>
      if |data| > room then buffer
      else if |data| + terminator <= room then Put(buffer, data + seq(terminator, i => 0))
      else Put(buffer, data)
    case Bytes(data) => Put(buffer, if |data| <= room then data else data[..room])
  }

  // Whatever fits is delivered whole and in front; nothing is written behind the given room.
  lemma DeliveredWhole(v: Value, buffer: Text, room: nat)
    requires room <= |buffer|
    ensures |Delivered(v, buffer, room)| == |buffer| && Delivered(v, buffer, room)[room..] == buffer[room..]
    ensures Size(v) <= room && Data(v).Some? ==> Delivered(v, buffer, room)[..Size(v)] == Data(v).value
    ensures Size(v) > room && !v.Bytes? ==> Delivered(v, buffer, room) == buffer
  {
  }

  // Behind a string that leaves room for it comes its terminator, and the rest of the buffer is as it
  // was; without the room there is none, not even a part.
  lemma StringsAreTerminated(data: Text, terminator: nat, buffer: Text, room: nat)
    requires |data| <= room <= |buffer|
    ensures var d := Delivered(Str(data, terminator), buffer, room);
            var end := if |data| + terminator <= room then |data| + terminator else |data|;
            && |d| == |buffer| && d[..|data|] == data
            && (forall i | |data| <= i < end :: d[i] == 0)
            && (forall i | end <= i < |buffer| :: d[i] == buffer[i])
  {
  }

  // A text without a digit leaves the buffer alone, and of bytes that do not fit the first ones come.
  lemma DeliveredInPart(width: nat, data: Text, buffer: Text, room: nat)
    requires room <= |buffer|
    ensures Delivered(Number(width, None), buffer, room) == buffer
    ensures |data| > room ==> Delivered(Bytes(data), buffer, room) == data[..room] + buffer[room..]
  {
  }

  // A name that is none and has no digit in front goes by REG_BINARY, and so does an empty one.
  lemma UnknownTypeIsBinary(c: Byte, rest: Text)
    requires !IsHex(c) && !IsSpace(c) && c != 0x2B && c != 0x2D && c !in {0x44, 0x51, 0x53, 0x4D, 0x45, 0x42}
    ensures TypeOf([c] + rest) == REG_BINARY && TypeOf([]) == REG_BINARY
  {
    var tip := [c] + rest;
    NamesDiffer();
    assert tip[0] == c;
    assert |tip| >= 2 && tip[0] == 0x30 ==> IsHex(c);
    assert ScanHex(tip) == None;
    assert ScanHex([]) == None;
  }

  // Wide strings end in four zero bytes, the others in one.
  lemma TerminatorOf(codec: Codec, t: Type, s: Text)
    ensures Interpret(codec, TipOf(t), s).Str? <==> IsWide(t) || IsMultibyte(t)
    ensures IsWide(t) ==> Interpret(codec, TipOf(t), s).terminator == 4
    ensures IsMultibyte(t) ==> Interpret(codec, TipOf(t), s).terminator == 1
  {
    TypeThroughTip(t);
  }

  method PutAll(lpData: array<Byte>, b: Text)
    requires |b| <= lpData.Length
    modifies lpData
    ensures lpData[..] == Put(old(lpData[..]), b)
  {
    forall i | 0 <= i < |b| {
      lpData[i] := b[i];
    }
  }

  // RegValueDeserializeMB and RegValueDeserializeWide
  method DeliverString(data: Text, terminator: nat, lpData: array?<Byte>, room: nat) returns (status: Status, size: nat)
    requires lpData != null ==> room <= lpData.Length
    modifies lpData
    ensures size == |data| && status == if lpData != null && size > room then MoreData else Success
    ensures lpData != null ==> lpData[..] == Delivered(Str(data, terminator), old(lpData[..]), room)
  {
    size := |data|;
    if lpData != null {
      if size > room {
        return MoreData, size;
      }
      if size + terminator <= room {
        PutAll(lpData, data + seq(terminator, i => 0));
      } else {
        PutAll(lpData, data);
      }
    }
    status := Success;
  }

  // RegValueDeserializeINT
  method DeliverNumber(s: Text, width: nat, lpData: array?<Byte>, room: nat) returns (status: Status, size: nat)
    requires lpData != null ==> room <= lpData.Length
    modifies lpData
    ensures size == width && status == if lpData != null && size > room then MoreData else Success
    ensures lpData != null ==> lpData[..] == Delivered(Number(width, ScanHex(s)), old(lpData[..]), room)
  {
    size := width;
    if lpData != null {
      if room < size {
        return MoreData, size;
      }
      var n := ScanHex(s);
      if n.Some? {
        PutAll(lpData, ToBytes(n.value, width));
      }
    }
    status := Success;
  }

  // Passes by what separates bytes.
  method SkipSeparators(s: Text, at: nat) returns (pos: nat)
    requires at <= |s|
    ensures at <= pos <= |s| && (pos < |s| ==> !Separates(s[pos])) && Parse(s[pos..]) == Parse(s[at..])
  {
    pos := at;
    while pos < |s| && (s[pos] == LF || s[pos] == CR || s[pos] == BLANK)
      invariant at <= pos <= |s| && Parse(s[pos..]) == Parse(s[at..])
    {
      DropDrop(s, pos, 1);
      pos := pos + 1;
    }
  }

  // RegValueDeserializeBinary
  method DeliverBytes(s: Text, lpData: array?<Byte>, room: nat) returns (status: Status, size: nat)
    requires lpData != null ==> room <= lpData.Length
    modifies lpData
    ensures size == |Parse(s)| && status == if lpData != null && size > room then MoreData else Success
    ensures lpData != null ==> lpData[..] == Delivered(Bytes(Parse(s)), old(lpData[..]), room)
  {
    size := 0;
    var pos := 0;
    ghost var all, was := Parse(s), if lpData == null then [] else lpData[..];
    assert s[0..] == s && all[0..] == all;
    while true
      invariant 0 <= pos <= |s| && 0 <= size <= |all| && all[size..] == Parse(s[pos..])
      invariant lpData != null ==> lpData[..] == Delivered(Bytes(all[..size]), was, room)
      decreases |s| - pos
    {
      pos := SkipSeparators(s, pos);
      if pos == |s| || s[pos] == NUL || pos + 1 == |s| || s[pos + 1] == NUL {
        break;
      }
      NextPair(s, pos, all, size);
      StoreByte(lpData, room, size, PairValue(s[pos], s[pos + 1]), all, was);
      size := size + 1;
      pos := pos + 2;
    }
    assert Parse(s[pos..]) == [] && all[..size] == all;
    status := if lpData == null || size <= room then Success else MoreData;
  }

  method StoreByte(lpData: array?<Byte>, room: nat, size: nat, b: Byte, ghost all: Text, ghost was: Text)
    requires size < |all| && all[size] == b
    requires lpData != null ==> room <= lpData.Length == |was| && lpData[..] == Delivered(Bytes(all[..size]), was, room)
    modifies lpData
    ensures lpData != null ==> lpData[..] == Delivered(Bytes(all[..size + 1]), was, room)
  {
    if lpData != null && size < room {
      lpData[size] := b;
    }
    assert all[..size + 1] == all[..size] + [b];
  }

  lemma NextPair(s: Text, pos: nat, all: Text, size: nat)
    requires pos + 1 < |s| && !Separates(s[pos]) && s[pos] != NUL && s[pos + 1] != NUL
    requires size <= |all| && all[size..] == Parse(s[pos..])
    ensures size < |all| && all[size] == PairValue(s[pos], s[pos + 1]) && all[size + 1..] == Parse(s[pos + 2..])
  {
    DropDrop(s, pos, 2);
    assert all[size] == all[size..][0];
    assert all[size + 1..] == all[size..][1..];
  }

  // RegValueDeserialize. The size is stored when the caller gives a place for it; for a listing
  // of bytes the caller has to.
  method Deserialize(codec: Codec, tip: Text, s: Text, lpData: array?<Byte>, lpcbData: Option<nat>)
    returns (status: Status, t: Type, size: nat)
    requires lpData != null && lpcbData.Some? ==> lpcbData.value <= lpData.Length
    requires lpData == null && lpcbData.None? ==>
             Interpret(codec, tip, s) == Bytes([]) || !Interpret(codec, tip, s).Bytes?
    modifies lpData
    ensures status == InvalidParameter <==> lpData != null && lpcbData == None
    ensures status == InvalidParameter ==> lpData[..] == old(lpData[..])
    ensures status != InvalidParameter ==>
              && t == TypeOf(tip) && size == Size(Interpret(codec, tip, s))
              && (status == MoreData <==> lpData != null && size > lpcbData.value)
              && (lpData != null ==> lpData[..] == Delivered(Interpret(codec, tip, s), old(lpData[..]), lpcbData.value))
  {
    if lpData != null && lpcbData == None {
      return InvalidParameter, 0, 0;
    }
    var room := if lpcbData.Some? then lpcbData.value else 0;
    t := TypeOf(tip);
    if tip == DWORD {
      status, size := DeliverNumber(s, 4, lpData, room);
    } else if tip == QWORD {
      status, size := DeliverNumber(s, 8, lpData, room);
    } else if tip == SZ || tip == MULTI + SZ || tip == EXPAND + SZ {
      var us := RegUnescape(s);
      status, size := DeliverString(codec.toWide(us), 4, lpData, room);
    } else if tip == SZ + MB || tip == MULTI + SZ + MB || tip == EXPAND + SZ + MB {
      var us := RegUnescape(s);
      status, size := DeliverString(us, 1, lpData, room);
    } else {
      status, size := DeliverBytes(s, lpData, room);
    }
  }

  function Read(codec: Codec, file: Text): (Text, Type, Value) {
    var (name, rest) := GetLine(file, LF);
    var (tip, body) := GetLine(rest, LF);
    var s := GetLine(body, NUL).0;
    (name, TypeOf(tip), Interpret(codec, tip, s))
  }

  // CommonQueryValue of a file that exists.
  method RegQueryValueEx(codec: Codec, file: Text, lpData: array?<Byte>, lpcbData: nat)
    returns (status: Status, name: Text, t: Type, size: nat)
    requires lpData != null ==> lpcbData <= lpData.Length
    modifies lpData
    ensures (name, t) == (Read(codec, file).0, Read(codec, file).1) && size == Size(Read(codec, file).2)
    ensures status == if lpData != null && size > lpcbData then MoreData else Success
    ensures lpData != null ==> lpData[..] == Delivered(Read(codec, file).2, old(lpData[..]), lpcbData)
  {
    var (line, rest) := GetLine(file, LF);
    var (tip, body) := GetLine(rest, LF);
    var s := GetLine(body, NUL).0;
    name := line;
    status, t, size := Deserialize(codec, tip, s, lpData, Some(lpcbData));
  }

  // ---------------------------------------------------------------------------------
  // What was written is read back
  // ---------------------------------------------------------------------------------

  lemma {:induction false} LineThenRest(a: Text, delimiter: Byte, b: Text)
    requires delimiter !in a
    ensures GetLine(a + [delimiter] + b, delimiter) == (a, b)
    ensures GetLine(a, delimiter) == (a, [])
  {
    var s := a + [delimiter] + b;
    if a == [] {
      assert s[1..] == b;
    } else {
      LineThenRest(a[1..], delimiter, b);
      assert s[1..] == a[1..] + [delimiter] + b;
      assert s[0] == a[0] && [a[0]] + a[1..] == a;
    }
  }

  lemma {:induction false} HexIsLower(n: nat)
    ensures HexText(n) != []
    ensures forall i | 0 <= i < |HexText(n)| :: 0x30 <= HexText(n)[i] <= 0x39 || 0x61 <= HexText(n)[i] <= 0x66
  {
    if n >= 16 {
      HexIsLower(n / 16);
    }
  }

  lemma NamesDiffer()
    ensures |DWORD| == 5 && DWORD[0] == 0x44 && |QWORD| == 5 && QWORD[0] == 0x51 && |BINARY| == 6 && BINARY[0] == 0x42
    ensures |SZ| == 2 && SZ[0] == 0x53 && |MULTI + SZ| == 8 && (MULTI + SZ)[0] == 0x4D && |EXPAND + SZ| == 9 &&
            (EXPAND + SZ)[0] == 0x45
    ensures |SZ + MB| == 5 && (SZ + MB)[0] == 0x53
    ensures |MULTI + SZ + MB| == 11 && (MULTI + SZ + MB)[0] == 0x4D
    ensures |EXPAND + SZ + MB| == 12 && (EXPAND + SZ + MB)[0] == 0x45
  {
  }

  lemma TypeThroughTip(t: Type)
    ensures TypeOf(TipOf(t)) == t
    ensures WideTip(TipOf(t)) <==> IsWide(t)
    ensures MultibyteTip(TipOf(t)) <==> IsMultibyte(t)
    ensures TipOf(t) == DWORD <==> t == REG_DWORD
    ensures TipOf(t) == QWORD <==> t == REG_QWORD
  {
    NamesDiffer();
    if TipOf(t) == HexText(t) {
      HexIsLower(t);
      PrintThenScan(t);
    }
  }

  function Ascii(s: string): Text {
    seq(|s|, i requires 0 <= i < |s| => s[i] as int % 0x100)
  }

  // How the types are named.
  lemma TypeNames()
    ensures TipOf(1) == Ascii("SZ") && TipOf(2) == Ascii("EXPAND_SZ") && TipOf(7) == Ascii("MULTI_SZ")
    ensures TipOf(3) == Ascii("BINARY") && TipOf(4) == Ascii("DWORD") && TipOf(11) == Ascii("QWORD")
    ensures TipOf(8) == Ascii("8")
  {
  }

  lemma MultibyteTypeNames()
    ensures TipOf(101) == Ascii("SZ_MB") && TipOf(102) == Ascii("EXPAND_SZ_MB")
    ensures TipOf(107) == Ascii("MULTI_SZ_MB")
  {
  }

  lemma TipIsOneLine(t: Type)
    ensures LF !in TipOf(t)
  {
    HexIsLower(t);
  }

  lemma BodyHasNoNul(codec: Codec, t: Type, data: Text)
    requires Readable(t, data)
    ensures NUL !in Body(codec, t, data) + [LF]
  {
    if t == REG_DWORD || t == REG_QWORD {
      HexIsLower(FromBytes(data[..if t == REG_DWORD then 4 else 8]));
    } else if IsWide(t) {
      EscapedHasNoNul(codec.toMB(Whole(data)));
    } else if IsMultibyte(t) {
      EscapedHasNoNul(data);
    } else {
      ListingHasNoNul(data, 0);
    }
  }

  // The bytes that a value of the type has room for.
  function Stored(t: Type, data: Text): Text
    requires Readable(t, data)
  {
    if t == REG_DWORD then data[..4] else if t == REG_QWORD then data[..8] else if IsWide(t) then Whole(data) else data
  }

  lemma BodyThroughFile(codec: Codec, t: Type, data: Text)
    requires ValidCodec(codec) && Readable(t, data)
    ensures var v := Interpret(codec, TipOf(t), Body(codec, t, data) + [LF]);
            Data(v) == Some(Stored(t, data)) && Size(v) == |Stored(t, data)|
  {
    TypeThroughTip(t);
    if t == REG_DWORD || t == REG_QWORD {
      PrintThenScan(FromBytes(Stored(t, data)));
      BytesThroughNumber(Stored(t, data));
    } else if IsWide(t) {
      EscapeThenUnescape(codec.toMB(Whole(data)), [LF]);
    } else if IsMultibyte(t) {
      EscapeThenUnescape(data, [LF]);
    } else {
      ListThenParse(data, 0, [LF]);
    }
  }

  lemma ReadsBack(codec: Codec, name: Text, t: Type, data: Text)
    requires ValidCodec(codec) && Readable(t, data) && LF !in name
    ensures var (n, u, v) := Read(codec, FileOf(codec, name, t, data));
            n == name && u == t && Data(v) == Some(Stored(t, data)) && Size(v) == |Stored(t, data)|
  {
    var body := Body(codec, t, data) + [LF];
    var rest := TipOf(t) + [LF] + body;
    LineThenRest(name, LF, rest);
    TipIsOneLine(t);
    LineThenRest(TipOf(t), LF, body);
    BodyHasNoNul(codec, t, data);
    LineThenRest(body, NUL, []);
    TypeThroughTip(t);
    BodyThroughFile(codec, t, data);
  }

  // Written and read into a buffer: the same type, the same size, the same bytes.
  ghost predicate RoundTrips(codec: Codec, name: Text, t: Type, data: Text)
    requires Readable(t, data)
  {
    var (_, u, v) := Read(codec, FileOf(codec, name, t, data));
    && u == t && Size(v) == |data|
    && forall buffer: Text, room: nat {:trigger Delivered(v, buffer, room)} ::
         |data| <= room <= |buffer| ==> Delivered(v, buffer, room)[..|data|] == data
  }

  // The sizes that are stored whole.
  predicate WholeSize(t: Type, n: nat) {
    (t == REG_DWORD ==> n == 4) && (t == REG_QWORD ==> n == 8) && (IsWide(t) ==> n % 4 == 0)
  }

  lemma RoundTripsExactlyWhen(codec: Codec, name: Text, t: Type, data: Text)
    requires ValidCodec(codec) && Readable(t, data) && LF !in name
    ensures RoundTrips(codec, name, t, data) <==> WholeSize(t, |data|)
  {
    ReadsBack(codec, name, t, data);
    var v := Read(codec, FileOf(codec, name, t, data)).2;
    assert |Stored(t, data)| == |data| <==> WholeSize(t, |data|);
    if WholeSize(t, |data|) {
      assert Stored(t, data) == data;
      forall buffer: Text, room: nat {:trigger Delivered(v, buffer, room)} | |data| <= room <= |buffer|
        ensures Delivered(v, buffer, room)[..|data|] == data
      {
        DeliveredWhole(v, buffer, room);
      }
    }
  }

  // With a line end in the name, the type is read from the name.
  lemma {:induction false} LineInside(a: Text, delimiter: Byte, b: Text)
    requires delimiter in a
    ensures GetLine(a + b, delimiter) == (GetLine(a, delimiter).0, GetLine(a, delimiter).1 + b)
  {
    assert (a + b)[1..] == a[1..] + b;
    if a[0] != delimiter {
      LineInside(a[1..], delimiter, b);
    }
  }

  lemma NameFixesTheType(codec: Codec, name: Text, t: Type, data: Text)
    requires LF in name && Readable(t, data)
    ensures Read(codec, FileOf(codec, name, t, data)).1 == TypeOf(GetLine(GetLine(name, LF).1, LF).0)
  {
    var rest := TipOf(t) + [LF] + (Body(codec, t, data) + [LF]);
    Associate3(name, [LF], rest);
    LineInside(name, LF, [LF] + rest);
    var tail := GetLine(name, LF).1;
    Associate3(tail, [LF], rest);
    if LF in tail {
      LineInside(tail, LF, [LF] + rest);
    } else {
      LineThenRest(tail, LF, rest);
    }
  }

  // Every value comes back under a name exactly when the name is one line.
  lemma NamesAreOneLine(codec: Codec, name: Text)
    requires ValidCodec(codec)
    ensures LF !in name <==>
            forall t: Type, data: Text {:trigger RoundTrips(codec, name, t, data)} ::
              Readable(t, data) && WholeSize(t, |data|) ==> RoundTrips(codec, name, t, data)
  {
    if LF in name {
      NameFixesTheType(codec, name, REG_BINARY, []);
      NameFixesTheType(codec, name, REG_SZ_MB, []);
      assert !RoundTrips(codec, name, REG_BINARY, []) || !RoundTrips(codec, name, REG_SZ_MB, []);
    } else {
      forall t: Type, data: Text {:trigger RoundTrips(codec, name, t, data)} | Readable(t, data) && WholeSize(t, |data|)
        ensures RoundTrips(codec, name, t, data)
      {
        RoundTripsExactlyWhen(codec, name, t, data);
      }
    }
  }
}
