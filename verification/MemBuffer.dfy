/** A buffer for serialisation: a first dry run finds the size, a second run writes, and
    the reader takes the same types in the same order. */
module MemBuffers {
  import opened Bytes
  import opened Options

  /** One written value. A number is given by the eight bytes of its double precision
      format, a text by the bytes of its UTF-8 encoding. */
  datatype Item =
    | U8(value: int) | U16(value: int) | U32(value: int) | Flag(flag: bool)
    | Number(bits: seq<byte>) | Bytes(data: seq<byte>) | Text(data: seq<byte>)
  {
    predicate WellFormed() {
      Number? ==> |bits| == 8
    }

    /** The value fits its format. */
    predicate InRange() {
      match this
      case U8(v) => 0 <= v < 0x100
      case U16(v) => 0 <= v < 0x1_0000
      case U32(v) => 0 <= v < 0x1_0000_0000
      case Bytes(d) => |d| < 0x1_0000_0000
      case Text(d) => |d| < 0x1_0000_0000
      case _ => true
    }

    function Kind(): Kind {
      match this
      case U8(_) => KU8
      case U16(_) => KU16
      case U32(_) => KU32
      case Flag(_) => KFlag
      case Number(_) => KNumber
      case Bytes(_) => KBytes
      case Text(_) => KText
    }
  }

  datatype Kind = KU8 | KU16 | KU32 | KFlag | KNumber | KBytes | KText

  // Encoding. Integers are stored modulo their size, the most significant byte first.

  function Byte(value: int): byte { value % 0x100 }

  function Encode16(value: int): (r: seq<byte>) ensures |r| == 2 {
    [Byte(value / 0x100), Byte(value)]
  }

  function Encode32(value: int): (r: seq<byte>) ensures |r| == 4 {
    [Byte(value / 0x100_0000), Byte(value / 0x1_0000), Byte(value / 0x100), Byte(value)]
  }

  function Encode(item: Item): (r: seq<byte>)
    ensures item.WellFormed() ==> |r| > 0
  {
    match item
    case U8(v) => [Byte(v)]
    case U16(v) => Encode16(v)
    case U32(v) => Encode32(v)
    case Flag(f) => [if f then 1 else 0]
    case Number(bits) => bits
    case Bytes(d) => Encode32(|d|) + d
    case Text(d) => Encode32(|d|) + d
  }

  function EncodeAll(items: seq<Item>): seq<byte> {
    if items == [] then [] else EncodeAll(items[..|items| - 1]) + Encode(items[|items| - 1])
  }

  /** The number that bytes stand for when the most significant one comes first. */
  function BigEndian(s: seq<byte>): int {
    if s == [] then 0 else 0x100 * BigEndian(s[..|s| - 1]) + s[|s| - 1]
  }

  /** The bytes that are written: integers with the most significant byte first, the byte 1 or
      0 for a boolean, and the length in four bytes in front of an array or text. */
  lemma EncodingIs(item: Item)
    ensures match item
            case U8(v) => |Encode(item)| == 1 && BigEndian(Encode(item)) == v % 0x100
            case U16(v) => |Encode(item)| == 2 && BigEndian(Encode(item)) == v % 0x1_0000
            case U32(v) => |Encode(item)| == 4 && BigEndian(Encode(item)) == v % 0x1_0000_0000
            case Flag(f) => Encode(item) == if f then [1] else [0]
            case Number(bits) => Encode(item) == bits
            case Bytes(d) =>
              |Encode(item)| == 4 + |d| && Encode(item)[4..] == d
              && BigEndian(Encode(item)[..4]) == |d| % 0x1_0000_0000
            case Text(d) =>
              |Encode(item)| == 4 + |d| && Encode(item)[4..] == d
              && BigEndian(Encode(item)[..4]) == |d| % 0x1_0000_0000
  {
    match item
    case U8(v) => BigEndianOne(Byte(v));
    case U16(v) => Encoding16Is(v);
    case U32(v) => Encoding32Is(v);
    case Flag(_) =>
    case Number(_) =>
    case Bytes(d) => Encoding32Is(|d|); assert Encode(item)[..4] == Encode32(|d|);
    case Text(d) => Encoding32Is(|d|); assert Encode(item)[..4] == Encode32(|d|);
  }

  lemma BigEndianOne(b: byte)
    ensures BigEndian([b]) == b
  {
    assert [b][..0] == [];
  }

  lemma BigEndianMore(s: seq<byte>, b: byte)
    ensures BigEndian(s + [b]) == 0x100 * BigEndian(s) + b
  {
    assert (s + [b])[..|s|] == s;
  }

  lemma Encoding16Is(v: int)
    ensures BigEndian(Encode16(v)) == v % 0x1_0000
  {
    var a, b := Byte(v / 0x100), Byte(v);
    BigEndianOne(a);
    BigEndianMore([a], b);
    assert Encode16(v) == [a] + [b];
  }

  lemma Encoding32Is(v: int)
    ensures BigEndian(Encode32(v)) == v % 0x1_0000_0000
  {
    var high, low := Encode16(v / 0x1_0000), Encode16(v);
    Encoding16Is(v / 0x1_0000);
    Encoding16Is(v);
    BigEndianMore(high, low[0]);
    BigEndianMore(high + [low[0]], low[1]);
    BigEndianOne(low[0]);
    BigEndianMore([low[0]], low[1]);
    assert low == [low[0]] + [low[1]];
    Quotient(v);
    assert Encode32(v) == high + [low[0]] + [low[1]];
  }

  lemma Quotient(v: int)
    ensures v / 0x1_0000 / 0x100 == v / 0x100_0000
  {
  }

  // Reading at an offset. Nothing can be read past the end, except that an array is cut
  // off there without an error, and the offset moves past the end.

  function Decode16(s: seq<byte>): int requires |s| == 2 { 0x100 * (s[0] as int) + s[1] }

  function Decode32(s: seq<byte>): int requires |s| == 4 {
    0x100_0000 * (s[0] as int) + 0x1_0000 * (s[1] as int) + 0x100 * (s[2] as int) + s[3]
  }

  function Slice(b: seq<byte>, offset: nat, n: nat): (r: Option<seq<byte>>)
    ensures r.Some? ==> |r.value| == n
  {
    if offset + n <= |b| then Some(b[offset..offset + n]) else None
  }

  function DecodeArray(b: seq<byte>, offset: nat): Option<(seq<byte>, nat)> {
    match Slice(b, offset, 4)
    case None => None
    case Some(s) =>
      var from := offset + 4;
      var end := from + Decode32(s);
      Some((b[from..if end <= |b| then end else |b|], end))
  }

  /** The item at an offset, and the offset behind it. */
  function Decode(b: seq<byte>, offset: nat, kind: Kind): Option<(Item, nat)> {
    match kind
    case KU8 => (match Slice(b, offset, 1) case Some(s) => Some((U8(s[0]), offset + 1)) case None => None)
    case KU16 => (match Slice(b, offset, 2) case Some(s) => Some((U16(Decode16(s)), offset + 2)) case None => None)
    case KU32 => (match Slice(b, offset, 4) case Some(s) => Some((U32(Decode32(s)), offset + 4)) case None => None)
    case KFlag => (match Slice(b, offset, 1) case Some(s) => Some((Flag(s[0] != 0), offset + 1)) case None => None)
    case KNumber => (match Slice(b, offset, 8) case Some(s) => Some((Number(s), offset + 8)) case None => None)
    case KBytes => (match DecodeArray(b, offset) case Some(a) => Some((Bytes(a.0), a.1)) case None => None)
    case KText => (match DecodeArray(b, offset) case Some(a) => Some((Text(a.0), a.1)) case None => None)
  }

  /** What is read: the number for which the bytes stand, true for any byte other than 0, and as
      many bytes as the length says; where the end comes first, only those up to there, while the
      offset moves past it. */
  lemma DecodingIs(b: seq<byte>, offset: nat, kind: Kind)
    requires Decode(b, offset, kind).Some?
    ensures var (item, next) := Decode(b, offset, kind).value;
            && item.Kind() == kind && offset <= |b|
            && match item
               case U8(v) => next == offset + 1 <= |b| && v == BigEndian(b[offset..next])
               case U16(v) => next == offset + 2 <= |b| && v == BigEndian(b[offset..next])
               case U32(v) => next == offset + 4 <= |b| && v == BigEndian(b[offset..next])
               case Flag(f) => next == offset + 1 <= |b| && (f <==> b[offset] != 0)
               case Number(bits) => next == offset + 8 <= |b| && bits == b[offset..next]
               case Bytes(d) => ReadsArray(b, offset, d, next)
               case Text(d) => ReadsArray(b, offset, d, next)
  {
    match kind
    case KU8 => BigEndianOne(b[offset]); assert b[offset..offset + 1] == [b[offset]];
    case KU16 => Decoding16Is(b[offset..offset + 2]);
    case KU32 => Decoding32Is(b[offset..offset + 4]);
    case KFlag =>
    case KNumber =>
    case KBytes => Decoding32Is(b[offset..offset + 4]);
    case KText => Decoding32Is(b[offset..offset + 4]);
  }

  predicate ReadsArray(b: seq<byte>, offset: nat, d: seq<byte>, next: int) {
    && offset + 4 <= |b| && next == offset + 4 + BigEndian(b[offset..offset + 4])
    && offset + 4 <= next && d == b[offset + 4..if next <= |b| then next else |b|]
  }

  lemma Decoding16Is(s: seq<byte>)
    requires |s| == 2
    ensures Decode16(s) == BigEndian(s)
  {
    BigEndianOne(s[0]);
    BigEndianMore([s[0]], s[1]);
    assert s == [s[0]] + [s[1]];
  }

  lemma Decoding32Is(s: seq<byte>)
    requires |s| == 4
    ensures Decode32(s) == BigEndian(s)
  {
    Decoding16Is(s[..2]);
    BigEndianMore(s[..2], s[2]);
    BigEndianMore(s[..2] + [s[2]], s[3]);
    assert s == s[..2] + [s[2]] + [s[3]];
  }

  /** The items of the given kinds, one after the other. */
  function DecodeAll(b: seq<byte>, offset: nat, kinds: seq<Kind>): Option<(seq<Item>, nat)> {
    if kinds == [] then Some(([], offset)) else
      match DecodeAll(b, offset, kinds[..|kinds| - 1])
      case None => None
      case Some(r) =>
        match Decode(b, r.1, kinds[|kinds| - 1])
        case None => None
        case Some(s) => Some((r.0 + [s.0], s.1))
  }

  // The buffer itself.

  class MemBuffer {
    /** Missing in a dry run. */
    var buffer: array?<byte>
    var writeOffset: nat
    var readOffset: nat

    constructor (length: nat)
      ensures writeOffset == readOffset == 0
      ensures if length > 0 then buffer != null && fresh(buffer) && buffer.Length == length else buffer == null
    {
      buffer := null;
      writeOffset, readOffset := 0, 0;
      new;
      if length > 0 {
        buffer := new byte[length](_ => 0);
      }
    }

    constructor From(data: array<byte>)
      ensures writeOffset == readOffset == 0 && buffer == data
    {
      buffer, writeOffset, readOffset := data, 0, 0;
    }

    /** Room for `n` more bytes; a dry run has always. */
    predicate Fits(n: nat)
      reads this
    {
      buffer == null || writeOffset + n <= buffer.Length
    }

    /** The view holds what has been written. */
    predicate Valid()
      reads this
    {
      buffer == null || writeOffset <= buffer.Length
    }

    /** What has been written. */
    ghost function Written(): seq<byte>
      requires Valid()
      reads this, buffer
    {
      if buffer == null then [] else buffer[..writeOffset]
    }

    /** Sets the bytes of one value. If there is no room it is a range error, which is
        returned as false. */
    method SetBytes(bytes: seq<byte>) returns (ok: bool)
      requires Valid()
      modifies this`writeOffset, buffer
      ensures Valid() && ok == old(Fits(|bytes|)) && writeOffset == old(writeOffset) + (if ok then |bytes| else 0)
      ensures Written() == old(Written()) + if ok && buffer != null then bytes else []
    {
      if buffer != null {
        if writeOffset + |bytes| > buffer.Length {
          return false;
        }
        for i := 0 to |bytes|
          invariant writeOffset == old(writeOffset) && writeOffset + |bytes| <= buffer.Length
          invariant buffer[..writeOffset + i] == old(Written()) + bytes[..i]
        {
          buffer[writeOffset + i] := bytes[i];
        }
      }
      assert bytes[..|bytes|] == bytes;
      writeOffset := writeOffset + |bytes|;
      ok := true;
    }

    /** First the length, then the data. */
    method WriteArrayBuffer(data: seq<byte>) returns (ok: bool)
      requires Valid()
      modifies this`writeOffset, buffer
      ensures Valid() && ok == old(Fits(4 + |data|))
      ensures ok ==> writeOffset == old(writeOffset) + 4 + |data|
      ensures ok && buffer != null ==> Written() == old(Written()) + (Encode32(|data|) + data)
    {
      ok := SetBytes(Encode32(|data|));
      if ok {
        ok := SetBytes(data);
      }
    }

    method Write(item: Item) returns (ok: bool)
      requires Valid()
      modifies this`writeOffset, buffer
      ensures Valid() && ok == old(Fits(|Encode(item)|))
      ensures ok ==> writeOffset == old(writeOffset) + |Encode(item)|
      ensures ok && buffer != null ==> Written() == old(Written()) + Encode(item)
    {
      match item
      case U8(v) => ok := SetBytes([Byte(v)]);
      case U16(v) => ok := SetBytes(Encode16(v));
      case U32(v) => ok := SetBytes(Encode32(v));
      case Flag(f) => ok := SetBytes([if f then 1 else 0]);
      case Number(bits) => ok := SetBytes(bits);
      case Bytes(d) => ok := WriteArrayBuffer(d);
      case Text(d) => ok := WriteArrayBuffer(d);
    }

    /** Writes an object, which is a list of items. All of it is written exactly if there
        is room for all of it. */
    method Serialize(items: seq<Item>) returns (ok: bool)
      requires Valid()
      modifies this`writeOffset, buffer
      ensures Valid() && ok == old(Fits(|EncodeAll(items)|))
      ensures ok ==> writeOffset == old(writeOffset) + |EncodeAll(items)|
      ensures ok && buffer != null ==> Written() == old(Written()) + EncodeAll(items)
    {
      hide Encode, EncodeAll;
      ok := true;
      EncodeNone(items);
      for i := 0 to |items|
        invariant Valid() && ok && old(Fits(|EncodeAll(items[..i])|))
        invariant writeOffset == old(writeOffset) + |EncodeAll(items[..i])|
        invariant buffer != null ==> Written() == old(Written()) + EncodeAll(items[..i])
      {
        EncodeMore(items, i);
        EncodeGrows(items, i + 1);
        ok := Write(items[i]);
        if !ok {
          return;
        }
      }
      assert items[..|items|] == items;
    }

    /** The size of an object: the offset after a dry run. */
    static method GetSize(items: seq<Item>) returns (size: nat)
      ensures size == |EncodeAll(items)|
    {
      var memBufferSize := new MemBuffer(0);
      var _ := memBufferSize.Serialize(items);
      size := memBufferSize.writeOffset;
    }

    /** Gets the bytes of one value from the view. */
    method GetBytes(n: nat) returns (bytes: Option<seq<byte>>)
      requires buffer != null
      modifies this`readOffset
      ensures bytes == Slice(buffer[..], old(readOffset), n)
      ensures readOffset == old(readOffset) + if bytes.Some? then n else 0
    {
      if readOffset + n > buffer.Length {
        return None;
      }
      bytes := Some(buffer[readOffset..readOffset + n]);
      readOffset := readOffset + n;
    }

    method ReadArrayBuffer() returns (data: Option<seq<byte>>)
      requires buffer != null
      modifies this`readOffset
      ensures match DecodeArray(buffer[..], old(readOffset))
              case Some(r) => data == Some(r.0) && readOffset == r.1
              case None => data == None
    {
      var length := GetBytes(4);
      if length.None? {
        return None;
      }
      var end := readOffset + Decode32(length.value);
      data := Some(buffer[readOffset..if end <= buffer.Length then end else buffer.Length]);
      readOffset := end;
    }

    method Read(kind: Kind) returns (item: Option<Item>)
      requires buffer != null
      modifies this`readOffset
      ensures match Decode(buffer[..], old(readOffset), kind)
              case Some(r) => item == Some(r.0) && readOffset == r.1
              case None => item == None
    {
      hide DecodeArray, Slice;
      item := None;
      match kind
      case KU8 => var b := GetBytes(1); if b.Some? { item := Some(U8(b.value[0])); }
      case KU16 => var b := GetBytes(2); if b.Some? { item := Some(U16(Decode16(b.value))); }
      case KU32 => var b := GetBytes(4); if b.Some? { item := Some(U32(Decode32(b.value))); }
      case KFlag => var b := GetBytes(1); if b.Some? { item := Some(Flag(b.value[0] != 0)); }
      case KNumber => var b := GetBytes(8); if b.Some? { item := Some(Number(b.value)); }
      case KBytes => var d := ReadArrayBuffer(); if d.Some? { item := Some(Bytes(d.value)); }
      case KText => var d := ReadArrayBuffer(); if d.Some? { item := Some(Text(d.value)); }
    }

    /** Reads an object back. */
    method Deserialize(kinds: seq<Kind>) returns (items: Option<seq<Item>>)
      requires buffer != null
      modifies this`readOffset
      ensures match DecodeAll(buffer[..], old(readOffset), kinds)
              case Some(r) => items == Some(r.0) && readOffset == r.1
              case None => items == None
    {
      hide Decode;
      ghost var b := buffer[..];
      var read := [];
      for i := 0 to |kinds|
        invariant buffer[..] == b && DecodeAll(b, old(readOffset), kinds[..i]) == Some((read, readOffset))
      {
        assert kinds[..i + 1][..i] == kinds[..i];
        var item := Read(kinds[i]);
        if item.None? {
          StaysUnreadable(b, old(readOffset), kinds, i + 1);
          return None;
        }
        read := read + [item.value];
      }
      assert kinds[..|kinds|] == kinds;
      items := Some(read);
    }
  }

  lemma EncodeNone(items: seq<Item>)
    ensures EncodeAll(items[..0]) == []
  {
  }

  lemma EncodeMore(items: seq<Item>, i: nat)
    requires i < |items|
    ensures EncodeAll(items[..i + 1]) == EncodeAll(items[..i]) + Encode(items[i])
  {
    assert items[..i + 1][..i] == items[..i];
  }

  lemma {:induction false} EncodeGrows(items: seq<Item>, i: nat)
    requires i <= |items|
    ensures |EncodeAll(items[..i])| <= |EncodeAll(items)|
    decreases |items|
  {
    if i < |items| {
      assert items[..|items| - 1][..i] == items[..i];
      EncodeGrows(items[..|items| - 1], i);
    } else {
      assert items[..i] == items;
    }
  }

  lemma {:induction false} StaysUnreadable(b: seq<byte>, offset: nat, kinds: seq<Kind>, i: nat)
    requires i <= |kinds| && DecodeAll(b, offset, kinds[..i]).None?
    ensures DecodeAll(b, offset, kinds).None?
    decreases |kinds|
  {
    if i < |kinds| {
      assert kinds[..|kinds| - 1][..i] == kinds[..i];
      StaysUnreadable(b, offset, kinds[..|kinds| - 1], i);
    } else {
      assert kinds[..i] == kinds;
    }
  }

  // Round trips.

  function Kinds(items: seq<Item>): (r: seq<Kind>)
    ensures |r| == |items|
  {
    seq(|items|, i requires 0 <= i < |items| => items[i].Kind())
  }

  lemma Wrap16(v: int)
    ensures Decode16(Encode16(v)) == v % 0x1_0000
  {
    var a := v / 0x100;
    assert v == 0x1_0000 * (a / 0x100) + (0x100 * (a % 0x100) + v % 0x100);
  }

  lemma Wrap32(v: int)
    ensures Decode32(Encode32(v)) == v % 0x1_0000_0000
  {
    var a := v / 0x100;
    var b := a / 0x100;
    var c := b / 0x100;
    assert v / 0x1_0000 == b && v / 0x100_0000 == c;
    Mod32(v, c / 0x100, 0x100_0000 * (c % 0x100) + 0x1_0000 * (b % 0x100) + 0x100 * (a % 0x100) + v % 0x100);
  }

  lemma Mod32(v: int, q: int, r: int)
    requires v == 0x1_0000_0000 * q + r && 0 <= r < 0x1_0000_0000
    ensures v % 0x1_0000_0000 == r
  {
  }

  /** The bytes `e` are in the buffer at the offset. */
  predicate HoldsAt(b: seq<byte>, offset: nat, e: seq<byte>) {
    offset + |e| <= |b| && b[offset..offset + |e|] == e
  }

  lemma HoldsSplit(b: seq<byte>, offset: nat, x: seq<byte>, y: seq<byte>)
    requires HoldsAt(b, offset, x + y)
    ensures HoldsAt(b, offset, x) && HoldsAt(b, offset + |x|, y)
  {
    var z := b[offset..offset + |x + y|];
    assert z[..|x|] == x && z[|x|..] == y;
  }

  /** What is read back where an item has been written: the item, exactly if it is in
      range. Behind it comes the next one. */
  lemma ItemReadsBackIff(b: seq<byte>, offset: nat, item: Item)
    requires item.WellFormed() && HoldsAt(b, offset, Encode(item))
    ensures var r := Decode(b, offset, item.Kind());
            && (item.InRange() ==> r == Some((item, offset + |Encode(item)|)))
            && (!item.InRange() ==> r.Some? && r.value.0 != item)
  {
    hide DecodeArray, Encode16, Encode32, Decode16, Decode32;
    match item
    case U16(v) => Wrap16(v);
    case U32(v) => Wrap32(v);
    case Bytes(d) => ArrayReadsBack(b, offset, d);
    case Text(d) => ArrayReadsBack(b, offset, d);
    case _ =>
  }

  lemma ArrayReadsBack(b: seq<byte>, offset: nat, d: seq<byte>)
    requires HoldsAt(b, offset, Encode32(|d|) + d)
    ensures var n := |d| % 0x1_0000_0000;
            && DecodeArray(b, offset) == Some((d[..n], offset + 4 + n))
            && (|d| < 0x1_0000_0000 <==> d[..n] == d)
  {
    hide Encode32, Decode32;
    var n := |d| % 0x1_0000_0000;
    Wrap32(|d|);
    HoldsSplit(b, offset, Encode32(|d|), d);
    assert b[offset + 4..offset + 4 + |d|][..n] == b[offset + 4..offset + 4 + n];
    assert d[..|d|] == d;
  }

  ghost predicate AllWellFormed(items: seq<Item>) {
    forall item <- items :: item.WellFormed()
  }

  ghost predicate AllInRange(items: seq<Item>) {
    forall item <- items :: item.InRange()
  }

  lemma AllSplit(items: seq<Item>)
    requires items != []
    ensures var most, last := items[..|items| - 1], items[|items| - 1];
            && items == most + [last]
            && (AllWellFormed(items) <==> AllWellFormed(most) && last.WellFormed())
            && (AllInRange(items) <==> AllInRange(most) && last.InRange())
            && Kinds(items)[..|items| - 1] == Kinds(most) && Kinds(items)[|items| - 1] == last.Kind()
  {
    assert items == items[..|items| - 1] + [items[|items| - 1]];
  }

  lemma EncodingSplit(b: seq<byte>, offset: nat, items: seq<Item>)
    requires items != [] && HoldsAt(b, offset, EncodeAll(items))
    ensures var most, last := items[..|items| - 1], items[|items| - 1];
            && EncodeAll(items) == EncodeAll(most) + Encode(last)
            && HoldsAt(b, offset, EncodeAll(most)) && HoldsAt(b, offset + |EncodeAll(most)|, Encode(last))
  {
    hide Encode, HoldsAt;
    HoldsSplit(b, offset, EncodeAll(items[..|items| - 1]), Encode(items[|items| - 1]));
  }

  lemma NothingReadsBack(b: seq<byte>, offset: nat)
    ensures DecodeAll(b, offset, Kinds([])) == Some(([], offset)) && EncodeAll([]) == [] && AllInRange([])
  {
  }

  lemma DecodeMore(b: seq<byte>, offset: nat, kinds: seq<Kind>, items: seq<Item>, from: nat, item: Item, end: nat)
    requires kinds != [] && DecodeAll(b, offset, kinds[..|kinds| - 1]) == Some((items, from))
    requires Decode(b, from, kinds[|kinds| - 1]) == Some((item, end))
    ensures DecodeAll(b, offset, kinds) == Some((items + [item], end))
  {
    hide Decode;
  }

  /** Reading the same kinds as were written returns the items and ends behind them. */
  lemma {:induction false} RoundTrip(b: seq<byte>, offset: nat, items: seq<Item>)
    requires AllWellFormed(items) && AllInRange(items) && HoldsAt(b, offset, EncodeAll(items))
    ensures DecodeAll(b, offset, Kinds(items)) == Some((items, offset + |EncodeAll(items)|))
  {
    hide *;
    if items == [] {
      NothingReadsBack(b, offset);
    } else {
      var most, last := items[..|items| - 1], items[|items| - 1];
      AllSplit(items);
      EncodingSplit(b, offset, items);
      RoundTrip(b, offset, most);
      var from := offset + |EncodeAll(most)|;
      ItemReadsBackIff(b, from, last);
      DecodeMore(b, offset, Kinds(items), most, from, last, from + |Encode(last)|);
    }
  }

  /** The last item is read last. */
  lemma LastReadsBack(b: seq<byte>, offset: nat, kinds: seq<Kind>, items: seq<Item>)
    requires kinds != [] && |items| == |kinds|
    requires var r := DecodeAll(b, offset, kinds); r.Some? && r.value.0 == items
    ensures var r := DecodeAll(b, offset, kinds[..|kinds| - 1]);
            && r.Some? && r.value.0 == items[..|items| - 1]
            && var s := Decode(b, r.value.1, kinds[|kinds| - 1]);
               s.Some? && s.value.0 == items[|items| - 1]
  {
    hide Decode;
  }

  /** The items come back exactly if all of them are in range. */
  lemma {:induction false} RoundTripIff(b: seq<byte>, offset: nat, items: seq<Item>)
    requires AllWellFormed(items) && HoldsAt(b, offset, EncodeAll(items))
    ensures var r := DecodeAll(b, offset, Kinds(items)); (r.Some? && r.value.0 == items) <==> AllInRange(items)
  {
    hide *;
    NothingReadsBack(b, offset);
    if AllInRange(items) {
      RoundTrip(b, offset, items);
    }
    var r := DecodeAll(b, offset, Kinds(items));
    if r.Some? && r.value.0 == items && items != [] {
      var most, last := items[..|items| - 1], items[|items| - 1];
      AllSplit(items);
      EncodingSplit(b, offset, items);
      LastReadsBack(b, offset, Kinds(items), items);
      RoundTripIff(b, offset, most);
      RoundTrip(b, offset, most);
      ItemReadsBackIff(b, offset + |EncodeAll(most)|, last);
    }
  }
}
