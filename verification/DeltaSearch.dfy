/** The search for a text that is stored with an unknown constant added to every
    character: only the differences between neighbours are compared. */
module DeltaSearch {
  import opened Bytes
  import opened MemoryDumps
  import opened Sequences

  datatype Result<T> = Ok(value: T) | Err(error: Error)

  datatype Error =
    | AddressOutOfRange | SizeOutOfRange | SearchStringTooShort
    | DiffRequiresTwoNumbers | SequenceNotFound

  /** The difference as the search calculates it: never negative. */
  function Delta(a: byte, b: byte): byte {
    if b - a < 0 then b - a + 256 else b - a
  }

  function DiffValues(search: seq<byte>): (r: seq<byte>)
    requires |search| > 0
    ensures |r| == |search| - 1 && forall j :: 0 <= j < |r| ==> r[j] == Delta(search[j], search[j + 1])
  {
    seq(|search| - 1, j requires 0 <= j < |search| - 1 => Delta(search[j], search[j + 1]))
  }

  /** The differences at index `k` are the wanted ones. Nothing is found at the end of
      the data, where there is no next byte. */
  predicate DiffsAt(data: seq<byte>, k: int, diffValues: seq<byte>) {
    0 <= k && forall j :: 0 <= j < |diffValues| ==> IsDiff(data, k + j, diffValues[j])
  }

  predicate IsDiff(data: seq<byte>, k: int, d: byte) {
    0 <= k < |data| - 1 && Delta(data[k], data[k + 1]) == d
  }

  predicate FoundIn(b: MetaBlock, a: int, diffValues: seq<byte>) {
    0 <= a - b.address <= b.size - |diffValues| && DiffsAt(b.data, a - b.address, diffValues)
  }

  /** Searches one block. */
  method SearchBlock(mb: MetaBlock, diffValues: seq<byte>) returns (found: set<int>)
    ensures forall a :: a in found <==> FoundIn(mb, a, diffValues)
  {
    var diffLen := |diffValues|;
    found := {};
    var k := 0;
    var mbLen := mb.size - diffLen;
    while k <= mbLen
      invariant 0 <= k
      invariant forall a :: a in found <==> a < mb.address + k && FoundIn(mb, a, diffValues)
    {
      // Search all diff values.
      var j := 0;
      while j < diffLen && IsDiff(mb.data, k + j, diffValues[j])
        invariant 0 <= j <= diffLen
        invariant forall i :: 0 <= i < j ==> IsDiff(mb.data, k + i, diffValues[i])
      {
        j := j + 1;
      }
      if j == diffLen {
        assert FoundIn(mb, mb.address + k, diffValues);
        found := found + {mb.address + k};
      } else {
        assert !FoundIn(mb, mb.address + k, diffValues);
      }
      k := k + 1;
    }
  }

  method SearchDiff(metaBlocks: seq<MetaBlock>, diffValues: seq<byte>) returns (found: set<int>)
    ensures forall a :: a in found <==> exists b <- metaBlocks :: FoundIn(b, a, diffValues)
  {
    found := {};
    for i := 0 to |metaBlocks|
      invariant forall a :: a in found <==> exists b <- metaBlocks[..i] :: FoundIn(b, a, diffValues)
    {
      var more := SearchBlock(metaBlocks[i], diffValues);
      found := found + more;
      assert metaBlocks[..i + 1] == metaBlocks[..i] + [metaBlocks[i]];
    }
    assert metaBlocks[..|metaBlocks|] == metaBlocks;
  }

  /** `searchData` in diff mode. */
  method SearchData(metaBlocks: seq<MetaBlock>, search: seq<byte>) returns (found: Result<set<int>>)
    ensures |search| == 0 ==> found == Ok({})
    ensures |search| == 1 ==> found == Err(DiffRequiresTwoNumbers)
    ensures |search| >= 2 ==> found.Ok? && forall a :: a in found.value <==>
              exists b <- metaBlocks :: FoundIn(b, a, DiffValues(search))
  {
    if |search| == 0 {
      return Ok({});
    }
    if |search| < 2 {
      return Err(DiffRequiresTwoNumbers);
    }
    var addresses := SearchDiff(metaBlocks, DiffValues(search));
    found := Ok(addresses);
  }

  /** One byte read with an offset. */
  function Decoded(val: byte, offset: int): byte {
    (val + offset) % 0x100
  }

  /** The text is at index `k`, if the offset is added to every byte. */
  predicate TextAt(data: seq<byte>, k: int, search: seq<byte>, offset: int) {
    0 <= k <= |data| - |search| && forall j :: 0 <= j < |search| ==> (data[k + j] + offset) % 0x100 == search[j]
  }

  /** The text is at index `k`, with some offset. */
  ghost predicate IsText(data: seq<byte>, k: int, search: seq<byte>) {
    exists offset :: TextAt(data, k, search, offset)
  }

  /** The offset that is derived from the first character. */
  function OffsetOf(first: byte, val: byte): int {
    first - val
  }

  lemma DeltaDecodes(a: byte, b: byte, s: byte, t: byte, offset: int)
    requires Decoded(a, offset) == s
    ensures Delta(a, b) == Delta(s, t) <==> Decoded(b, offset) == t
  {
  }

  /** The search is a search up to a constant: the differences match exactly if the text
      is there with some offset, and then with the one of its first character. */
  lemma {:induction false} SearchIsUpToConstant(data: seq<byte>, k: int, search: seq<byte>)
    requires |search| >= 2
    ensures DiffsAt(data, k, DiffValues(search)) <==> IsText(data, k, search)
    ensures DiffsAt(data, k, DiffValues(search)) ==>
              0 <= k < |data| && TextAt(data, k, search, OffsetOf(search[0], data[k]))
  {
    if DiffsAt(data, k, DiffValues(search)) {
      DiffsGiveText(data, k, search);
    }
    forall offset | TextAt(data, k, search, offset)
      ensures DiffsAt(data, k, DiffValues(search))
    {
      TextGivesDiffs(data, k, search, offset);
    }
  }

  /** From the first character on, every difference fixes the next character. */
  lemma {:induction false} DiffsGiveCharacter(data: seq<byte>, k: int, search: seq<byte>, j: nat)
    requires |search| >= 2 && DiffsAt(data, k, DiffValues(search)) && j < |search|
    ensures 0 <= k && k + j < |data| && Decoded(data[k + j], OffsetOf(search[0], data[k])) == search[j]
  {
    var diffs := DiffValues(search);
    if j == 0 {
      assert IsDiff(data, k + 0, diffs[0]);
    } else {
      DiffsGiveCharacter(data, k, search, j - 1);
      assert IsDiff(data, k + (j - 1), diffs[j - 1]);
      DeltaDecodes(data[k + j - 1], data[k + j], search[j - 1], search[j], OffsetOf(search[0], data[k]));
    }
  }

  lemma DiffsGiveText(data: seq<byte>, k: int, search: seq<byte>)
    requires |search| >= 2 && DiffsAt(data, k, DiffValues(search))
    ensures 0 <= k < |data| && TextAt(data, k, search, OffsetOf(search[0], data[k]))
  {
    DiffsGiveCharacter(data, k, search, |search| - 1);
    forall j | 0 <= j < |search|
      ensures Decoded(data[k + j], OffsetOf(search[0], data[k])) == search[j]
    {
      DiffsGiveCharacter(data, k, search, j);
    }
  }

  lemma TextGivesDiffs(data: seq<byte>, k: int, search: seq<byte>, offset: int)
    requires |search| >= 2 && TextAt(data, k, search, offset)
    ensures DiffsAt(data, k, DiffValues(search))
  {
    forall j | 0 <= j < |search| - 1
      ensures IsDiff(data, k + j, DiffValues(search)[j])
    {
      assert Decoded(data[k + (j + 1)], offset) == search[j + 1];
      DeltaDecodes(data[k + j], data[k + j + 1], search[j], search[j + 1], offset);
    }
  }

  // The command.

  /** A line of the output: the values in the columns from `first` on. */
  datatype Row = Row(address: int, first: nat, values: seq<byte>)

  const CLMNS := 16

  function Values(rows: seq<Row>): seq<byte> {
    if rows == [] then [] else Values(rows[..|rows| - 1]) + rows[|rows| - 1].values
  }

  /** A row starts at a multiple of the columns, and each value is in the column of its
      address. */
  predicate RowFits(startAddress: int, rows: seq<Row>, i: nat)
    requires i < |rows|
  {
    && rows[i].address % CLMNS == 0 && rows[i].first + |rows[i].values| <= CLMNS
    && rows[i].address + rows[i].first == startAddress + |Values(rows[..i])|
  }

  function DecodedAll(data: seq<byte>, offset: int): (r: seq<byte>)
    ensures |r| == |data| && forall i :: 0 <= i < |r| ==> r[i] == Decoded(data[i], offset)
  {
    seq(|data|, i requires 0 <= i < |data| => Decoded(data[i], offset))
  }

  /** Prints one row from index `i` on. */
  method PrintRow(startAddress: nat, data: seq<byte>, offset: int, i: nat) returns (row: Row, next: nat)
    requires i < |data|
    ensures i < next <= |data| && row.values == DecodedAll(data, offset)[i..next]
    ensures row.address % CLMNS == 0 && row.address + row.first == startAddress + i
    ensures row.first + (next - i) <= CLMNS && (next < |data| ==> row.first + (next - i) == CLMNS)
  {
    var addr := startAddress + i;
    var remainder := addr % CLMNS;
    var values := [];
    next := i;
    var k := remainder;
    while k < CLMNS && next < |data|
      invariant remainder <= k <= CLMNS && i <= next <= |data| && next - i == k - remainder
      invariant values == DecodedAll(data, offset)[i..next]
    {
      var modValue := Decoded(data[next], offset);
      values := values + [modValue];
      next := next + 1;
      k := k + 1;
    }
    row := Row(addr - remainder, remainder, values);
  }

  /** Prints the whole range with one offset: every byte once, in order, and in the row
      and column of its address. */
  method PrintRange(startAddress: nat, data: seq<byte>, offset: int) returns (rows: seq<Row>)
    ensures Values(rows) == DecodedAll(data, offset)
    ensures forall i :: 0 <= i < |rows| ==> RowFits(startAddress, rows, i)
  {
    rows := [];
    var i := 0;
    while i < |data|
      invariant 0 <= i <= |data| && Values(rows) == DecodedAll(data, offset)[..i]
      invariant forall j :: 0 <= j < |rows| ==> RowFits(startAddress, rows, j)
    {
      var row, next := PrintRow(startAddress, data, offset, i);
      ghost var before := rows;
      rows := rows + [row];
      assert rows[..|before|] == before;
      forall j | 0 <= j < |rows|
        ensures RowFits(startAddress, rows, j)
      {
        if j < |before| {
          assert RowFits(startAddress, before, j) && rows[..j] == before[..j];
        }
      }
      i := next;
    }
    assert DecodedAll(data, offset)[..|data|] == DecodedAll(data, offset);
  }

  predicate Hit(addresses: set<int>, startAddress: int, k: int) {
    startAddress + k in addresses
  }

  /** With this offset the first character is right at one of the addresses. */
  predicate IsOffset(startAddress: int, data: seq<byte>, first: byte, addresses: set<int>, n: nat, offset: int)
    requires n <= |data|
  {
    exists k :: 0 <= k < n && Hit(addresses, startAddress, k) && offset == OffsetOf(first, data[k])
  }

  /** The different offsets of the found addresses, in the order of the addresses. */
  method CollectOffsets(startAddress: int, data: seq<byte>, first: byte, addresses: set<int>)
    returns (valueOffsets: seq<int>)
    ensures Distinct(valueOffsets)
    ensures forall o :: o in valueOffsets <==> IsOffset(startAddress, data, first, addresses, |data|, o)
  {
    valueOffsets := [];
    for k := 0 to |data|
      invariant Distinct(valueOffsets)
      invariant forall o :: o in valueOffsets <==> IsOffset(startAddress, data, first, addresses, k, o)
    {
      if Hit(addresses, startAddress, k) {
        var valOffset := OffsetOf(first, data[k]);
        if valOffset !in valueOffsets {
          valueOffsets := valueOffsets + [valOffset];
        }
      }
    }
  }

  /** The output for one offset. */
  datatype Print = Print(offset: int, rows: seq<Row>)

  /** The output shows every byte of the range, decoded with its offset, in the row and column of
      its address. */
  predicate PrintsRange(p: Print, startAddress: int, data: seq<byte>) {
    && |Values(p.rows)| == |data| && (forall i :: 0 <= i < |data| ==> Values(p.rows)[i] == (data[i] + p.offset) % 0x100)
    && forall i :: 0 <= i < |p.rows| ==> RowFits(startAddress, p.rows, i)
  }

  method PrintAll(startAddress: nat, data: seq<byte>, valueOffsets: seq<int>) returns (prints: seq<Print>)
    ensures |prints| == |valueOffsets|
    ensures forall i :: 0 <= i < |prints| ==>
              prints[i].offset == valueOffsets[i] && PrintsRange(prints[i], startAddress, data)
  {
    prints := [];
    for i := 0 to |valueOffsets|
      invariant |prints| == i
      invariant forall j :: 0 <= j < i ==>
                  prints[j].offset == valueOffsets[j] && PrintsRange(prints[j], startAddress, data)
    {
      var rows := PrintRange(startAddress, data, valueOffsets[i]);
      prints := prints + [Print(valueOffsets[i], rows)];
    }
  }

  /** With this offset the text appears, and the first character is the right one. */
  ghost predicate MakesText(data: seq<byte>, search: seq<byte>, offset: int)
    requires |search| > 0
  {
    exists k :: 0 <= k < |data| && data[k] + offset == search[0] && TextAt(data, k, search, offset)
  }

  /** The offsets are exactly those that make the text appear. */
  ghost predicate RightOffsets(data: seq<byte>, search: seq<byte>, offsets: seq<int>) {
    |search| >= 2 && offsets != [] && Distinct(offsets) && forall o :: o in offsets <==> MakesText(data, search, o)
  }

  /** `evalMemDelta`: the offsets with which the text is found, and for each of them the
      whole range decoded with it. The search string is already parsed. */
  method EvalMemDelta(startAddress: int, size: int, data: seq<byte>, searchLength: nat, search: seq<byte>)
      returns (output: Result<seq<Print>>, ghost offsets: seq<int>)
    requires |data| == size || size < 0
    ensures output == Err(AddressOutOfRange) <==> !(0 <= startAddress <= 0xFFFF)
    ensures output == Err(SizeOutOfRange) <==> 0 <= startAddress <= 0xFFFF && !(0 <= size <= 0xFFFF)
    ensures output.Ok? <==> 0 <= startAddress <= 0xFFFF && 0 <= size <= 0xFFFF && searchLength >= 2
                            && |search| >= 2 && exists k :: IsText(data, k, search)
    ensures output == Err(SearchStringTooShort) <==>
            0 <= startAddress <= 0xFFFF && 0 <= size <= 0xFFFF && searchLength < 2
    ensures output == Err(DiffRequiresTwoNumbers) <==>
            0 <= startAddress <= 0xFFFF && 0 <= size <= 0xFFFF && searchLength >= 2 && |search| == 1
    ensures output.Ok? ==> RightOffsets(data, search, offsets) && |output.value| == |offsets|
    ensures output.Ok? ==> forall i :: 0 <= i < |offsets| ==>
              output.value[i].offset == offsets[i] && PrintsRange(output.value[i], startAddress, data)
  {
    offsets := [];
    if startAddress < 0 || startAddress > 0xFFFF {
      return Err(AddressOutOfRange), offsets;
    }
    if size < 0 || size > 0xFFFF {
      return Err(SizeOutOfRange), offsets;
    }
    if searchLength < 2 {
      return Err(SearchStringTooShort), offsets;
    }
    var mb := MetaBlock(startAddress, size, data, []);
    var found := SearchData([mb], search);
    if found.Err? {
      return Err(found.error), offsets;
    }
    if |search| >= 2 {
      FoundIsText(mb, search, found.value);
    }
    if found.value == {} {
      return Err(SequenceNotFound), offsets;
    }
    var valueOffsets := CollectOffsets(startAddress, data, search[0], found.value);
    OffsetsMakeText(mb, search, found.value, valueOffsets);
    offsets := valueOffsets;
    var prints := PrintAll(startAddress, data, valueOffsets);
    output := Ok(prints);
  }

  lemma HitIsText(mb: MetaBlock, search: seq<byte>, found: set<int>, k: int)
    requires |search| >= 2 && mb.size == |mb.data|
    requires forall a :: a in found <==> exists b <- [mb] :: FoundIn(b, a, DiffValues(search))
    ensures Hit(found, mb.address, k) <==> IsText(mb.data, k, search)
  {
    hide TextAt, DiffsAt;
    SearchIsUpToConstant(mb.data, k, search);
    assert mb in [mb];
    assert Hit(found, mb.address, k) <==> FoundIn(mb, mb.address + k, DiffValues(search));
    if IsText(mb.data, k, search) {
      TextFits(mb.data, k, search);
    }
  }

  /** The addresses found in a single block are those of the text, with any offset. */
  lemma FoundIsText(mb: MetaBlock, search: seq<byte>, found: set<int>)
    requires |search| >= 2 && mb.size == |mb.data|
    requires forall a :: a in found <==> exists b <- [mb] :: FoundIn(b, a, DiffValues(search))
    ensures forall k :: Hit(found, mb.address, k) <==> IsText(mb.data, k, search)
    ensures found != {} ==> exists k :: Hit(found, mb.address, k)
  {
    forall k
      ensures Hit(found, mb.address, k) <==> IsText(mb.data, k, search)
    {
      HitIsText(mb, search, found, k);
    }
    if found != {} {
      var a :| a in found;
      assert Hit(found, mb.address, a - mb.address);
    }
  }

  lemma TextFits(data: seq<byte>, k: int, search: seq<byte>)
    requires |search| > 0 && IsText(data, k, search)
    ensures 0 <= k <= |data| - |search|
  {
  }

  lemma OffsetsMakeText(mb: MetaBlock, search: seq<byte>, found: set<int>, offsets: seq<int>)
    requires |search| >= 2 && exists k :: Hit(found, mb.address, k)
    requires forall k :: Hit(found, mb.address, k) <==> IsText(mb.data, k, search)
    requires Distinct(offsets)
    requires forall o :: o in offsets <==> IsOffset(mb.address, mb.data, search[0], found, |mb.data|, o)
    ensures RightOffsets(mb.data, search, offsets)
  {
    hide TextAt;
    forall k | Hit(found, mb.address, k)
      ensures 0 <= k < |mb.data| && TextAt(mb.data, k, search, OffsetOf(search[0], mb.data[k]))
    {
      TextFits(mb.data, k, search);
      SearchIsUpToConstant(mb.data, k, search);
    }
    forall o
      ensures o in offsets <==> MakesText(mb.data, search, o)
    {
      if MakesText(mb.data, search, o) {
        var k :| 0 <= k < |mb.data| && o == OffsetOf(search[0], mb.data[k]) && TextAt(mb.data, k, search, o);
        assert IsText(mb.data, k, search);
      }
    }
    var k :| Hit(found, mb.address, k);
    assert IsOffset(mb.address, mb.data, search[0], found, |mb.data|, OffsetOf(search[0], mb.data[k]));
  }
}
