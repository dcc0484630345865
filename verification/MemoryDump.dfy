/** Memory dumps: the difference of two of them, and the search for a text that is known
    only up to a constant offset. */
module MemoryDumps {
  import opened Bytes

  const MAX_SAFE_INTEGER := 0x1F_FFFF_FFFF_FFFF

  datatype MetaBlock = MetaBlock(address: int, size: int, data: seq<byte>, prevData: seq<byte>)

  /** One byte of two dumps. */
  datatype Cell = Cell(addr: int, val: byte, prev: byte)

  datatype Diff = NoCheck | NotEqual | By(value: int)

  predicate KeepValue(diff: Diff, c: Cell) {
    match diff
    case NoCheck => true
    case NotEqual => c.val - c.prev != 0
    case By(value) => value == c.val - c.prev
  }

  /** The first `n` bytes of block `b` beside those of block `base`. */
  function BlockCells(b: MetaBlock, base: MetaBlock, n: nat): (r: seq<Cell>)
    requires n <= |b.data| && n <= |base.data|
    ensures |r| == n && forall k :: 0 <= k < n ==> r[k] == Cell(b.address + k, b.data[k], base.data[k])
  {
    seq(n, k requires 0 <= k < n => Cell(b.address + k, b.data[k], base.data[k]))
  }

  /** Both dumps have the same blocks. */
  predicate SameStructure(blocks: seq<MetaBlock>, base: seq<MetaBlock>) {
    |blocks| == |base| && forall i :: 0 <= i < |blocks| ==> |blocks[i].data| == |base[i].data|
  }

  /** All bytes of the dumps, in the order of the blocks. */
  function Cells(blocks: seq<MetaBlock>, base: seq<MetaBlock>): seq<Cell>
    requires SameStructure(blocks, base)
  {
    if blocks == [] then [] else
      var n := |blocks| - 1;
      Cells(blocks[..n], base[..n]) + BlockCells(blocks[n], base[n], |blocks[n].data|)
  }

  function Kept(diff: Diff, cells: seq<Cell>): seq<Cell> {
    if cells == [] then [] else
      var n := |cells| - 1;
      Kept(diff, cells[..n]) + if KeepValue(diff, cells[n]) then [cells[n]] else []
  }

  // The scan: a map from start addresses to the bytes of a run, with its keys in the
  // order of their insertion.

  datatype Run = Run(data: seq<byte>, prevData: seq<byte>)

  datatype Scan = Scan(order: seq<int>, runs: map<int, Run>, address: int, baseAddress: int)

  const START := Scan([], map[], -MAX_SAFE_INTEGER, -1)

  /** One more byte is kept. */
  function KeepCell(s: Scan, c: Cell): Scan {
    var next := s.address + 1;
    var base := if c.addr != next then c.addr else s.baseAddress;
    if base in s.runs then
      var r := s.runs[base];
      Scan(s.order, s.runs[base := Run(r.data + [c.val], r.prevData + [c.prev])], c.addr, base)
    else
      Scan(s.order + [base], s.runs[base := Run([c.val], [c.prev])], c.addr, base)
  }

  function ScanOf(cells: seq<Cell>): Scan {
    if cells == [] then START else KeepCell(ScanOf(cells[..|cells| - 1]), cells[|cells| - 1])
  }

  function ToBlock(address: int, r: Run): MetaBlock {
    MetaBlock(address, if |r.data| > 0x10000 then 0x10000 else |r.data|, r.data, r.prevData)
  }

  predicate WellKeyed(s: Scan) {
    forall i :: 0 <= i < |s.order| ==> s.order[i] in s.runs
  }

  function BlocksOf(s: Scan): (r: seq<MetaBlock>)
    requires WellKeyed(s)
    ensures |r| == |s.order| && forall i :: 0 <= i < |r| ==> r[i] == ToBlock(s.order[i], s.runs[s.order[i]])
  {
    seq(|s.order|, i requires 0 <= i < |s.order| => ToBlock(s.order[i], s.runs[s.order[i]]))
  }

  lemma {:induction false} ScanIsKeyed(cells: seq<Cell>)
    ensures WellKeyed(ScanOf(cells))
  {
    if cells != [] {
      ScanIsKeyed(cells[..|cells| - 1]);
    }
  }

  class MemoryDump {
    var metaBlocks: seq<MetaBlock>

    constructor ()
      ensures metaBlocks == []
    {
      metaBlocks := [];
    }

    method AddBlockWithoutBoundary(startAddress: int, size: nat)
      modifies this
      ensures metaBlocks ==
              old(metaBlocks) + [MetaBlock(startAddress, if size > 0x10000 then 0x10000 else size, [], [])]
    {
      var n := if size > 0x10000 then 0x10000 else size;
      metaBlocks := metaBlocks + [MetaBlock(startAddress, n, [], [])];
    }

    /** Sets the data of the last block. */
    method SetData(data: seq<byte>, prevData: seq<byte>)
      requires metaBlocks != []
      modifies this
      ensures metaBlocks == old(metaBlocks)[..|old(metaBlocks)| - 1]
                            + [old(metaBlocks)[|old(metaBlocks)| - 1].(data := data, prevData := prevData)]
    {
      var mb := metaBlocks[|metaBlocks| - 1];
      metaBlocks := metaBlocks[..|metaBlocks| - 1] + [mb.(data := data, prevData := prevData)];
    }

    /** Adds a byte to the run that it continues, or starts a new one. */
    static method AddToRuns(s: Scan, c: Cell) returns (t: Scan)
      ensures t == KeepCell(s, c)
    {
      var address, baseAddress := s.address + 1, s.baseAddress;
      if c.addr != address {
        baseAddress := c.addr;
        address := baseAddress;
      }
      // Handle the data.
      var order, dataInfo := s.order, Run([], []);
      if baseAddress in s.runs {
        dataInfo := s.runs[baseAddress];
      } else {
        order := order + [baseAddress];
      }
      assert [] + [c.val] == [c.val] && [] + [c.prev] == [c.prev];
      dataInfo := Run(dataInfo.data + [c.val], dataInfo.prevData + [c.prev]);
      t := Scan(order, s.runs[baseAddress := dataInfo], address, baseAddress);
    }

    /** Collects the bytes of block `i` that meet the criterion. */
    method ScanBlock(baseMemDump: MemoryDump, diff: Diff, i: nat, s: Scan, ghost before: seq<Cell>) returns (t: Scan)
      requires SameStructure(metaBlocks, baseMemDump.metaBlocks) && i < |metaBlocks|
      requires s == ScanOf(Kept(diff, before))
      ensures t == ScanOf(Kept(diff,
                               before + BlockCells(metaBlocks[i], baseMemDump.metaBlocks[i], |metaBlocks[i].data|)))
    {
      hide Kept, ScanOf, KeepCell;
      var mb, baseMb := metaBlocks[i], baseMemDump.metaBlocks[i];
      t := s;
      ghost var cells := before;
      for k := 0 to |mb.data|
        invariant cells == before + BlockCells(mb, baseMb, k)
        invariant t == ScanOf(Kept(diff, cells))
      {
        var c := Cell(mb.address + k, mb.data[k], baseMb.data[k]);
        KeepMore(diff, cells, c);
        if KeepValue(diff, c) {
          t := AddToRuns(t, c);
        }
        cells := cells + [c];
      }
    }

    /** The bytes of this dump that differ as wanted from those of the other one. */
    method GetDiffMemDump(baseMemDump: MemoryDump, diff: Diff) returns (diffMemDump: MemoryDump)
      requires SameStructure(metaBlocks, baseMemDump.metaBlocks)
      ensures fresh(diffMemDump)
      ensures diff == NoCheck ==>
                && |diffMemDump.metaBlocks| == |metaBlocks|
                && forall i :: 0 <= i < |metaBlocks| ==>
                     diffMemDump.metaBlocks[i] == metaBlocks[i].(prevData := baseMemDump.metaBlocks[i].data)
      ensures diff != NoCheck ==>
                var s := ScanOf(Kept(diff, Cells(metaBlocks, baseMemDump.metaBlocks)));
                WellKeyed(s) && diffMemDump.metaBlocks == BlocksOf(s)
    {
      diffMemDump := new MemoryDump();
      if diff == NoCheck {
        for i := 0 to |metaBlocks|
          invariant fresh(diffMemDump) && |diffMemDump.metaBlocks| == i
          invariant forall j :: 0 <= j < i ==>
                      diffMemDump.metaBlocks[j] == metaBlocks[j].(prevData := baseMemDump.metaBlocks[j].data)
        {
          var mb := metaBlocks[i];
          diffMemDump.AddBlockWithData(mb.(prevData := baseMemDump.metaBlocks[i].data));
        }
        return;
      }
      var addresses := ScanAll(baseMemDump, diff);
      ScanIsKeyed(Kept(diff, Cells(metaBlocks, baseMemDump.metaBlocks)));
      // Create the new dump from the runs.
      for i := 0 to |addresses.order|
        invariant fresh(diffMemDump) && diffMemDump.metaBlocks == BlocksOf(addresses)[..i]
      {
        var address := addresses.order[i];
        var dataInfo := addresses.runs[address];
        diffMemDump.AddBlockWithoutBoundary(address, |dataInfo.data|);
        diffMemDump.SetData(dataInfo.data, dataInfo.prevData);
      }
      assert BlocksOf(addresses)[..|addresses.order|] == BlocksOf(addresses);
    }

    method AddBlockWithData(mb: MetaBlock)
      modifies this
      ensures metaBlocks == old(metaBlocks) + [mb]
    {
      metaBlocks := metaBlocks + [mb];
    }

    method ScanAll(baseMemDump: MemoryDump, diff: Diff) returns (t: Scan)
      requires SameStructure(metaBlocks, baseMemDump.metaBlocks)
      ensures t == ScanOf(Kept(diff, Cells(metaBlocks, baseMemDump.metaBlocks)))
    {
      hide ScanOf, Kept, Cells;
      t := START;
      ghost var cells := [];
      ScanStarts(diff, metaBlocks, baseMemDump.metaBlocks);
      for i := 0 to |metaBlocks|
        invariant cells == Cells(metaBlocks[..i], baseMemDump.metaBlocks[..i])
        invariant t == ScanOf(Kept(diff, cells))
      {
        t := ScanBlock(baseMemDump, diff, i, t, cells);
        CellsMore(metaBlocks, baseMemDump.metaBlocks, i);
        cells := Cells(metaBlocks[..i + 1], baseMemDump.metaBlocks[..i + 1]);
      }
      assert metaBlocks[..|metaBlocks|] == metaBlocks
             && baseMemDump.metaBlocks[..|metaBlocks|] == baseMemDump.metaBlocks;
    }
  }

  lemma ScanStarts(diff: Diff, blocks: seq<MetaBlock>, base: seq<MetaBlock>)
    requires SameStructure(blocks, base)
    ensures START == ScanOf(Kept(diff, Cells(blocks[..0], base[..0]))) && Cells(blocks[..0], base[..0]) == []
  {
  }

  lemma CellsMore(blocks: seq<MetaBlock>, base: seq<MetaBlock>, i: nat)
    requires SameStructure(blocks, base) && i < |blocks|
    ensures Cells(blocks[..i + 1], base[..i + 1]) ==
            Cells(blocks[..i], base[..i]) + BlockCells(blocks[i], base[i], |blocks[i].data|)
  {
    assert blocks[..i + 1][..i] == blocks[..i] && base[..i + 1][..i] == base[..i];
  }

  lemma KeepMore(diff: Diff, cells: seq<Cell>, c: Cell)
    ensures Kept(diff, cells + [c]) == Kept(diff, cells) + if KeepValue(diff, c) then [c] else []
    ensures !KeepValue(diff, c) ==> Kept(diff, cells + [c]) == Kept(diff, cells)
    ensures KeepValue(diff, c) ==> ScanOf(Kept(diff, cells + [c])) == KeepCell(ScanOf(Kept(diff, cells)), c)
  {
    assert (cells + [c])[..|cells|] == cells;
    var kept := Kept(diff, cells);
    assert (kept + [c])[..|kept|] == kept;
  }

  // What the difference is.

  predicate Ascending(cells: seq<Cell>) {
    forall i, j :: 0 <= i < j < |cells| ==> cells[i].addr < cells[j].addr
  }

  /** The cells of the blocks, one block after the other. */
  function Flat(blocks: seq<MetaBlock>): seq<Cell>
    requires forall b <- blocks :: |b.data| == |b.prevData|
  {
    if blocks == [] then [] else
      var n := |blocks| - 1;
      Flat(blocks[..n]) + BlockCells(blocks[n], MetaBlock(0, 0, blocks[n].prevData, []), |blocks[n].data|)
  }

  /** The blocks are not empty, in ascending order, and never touch one another. */
  predicate Separated(blocks: seq<MetaBlock>) {
    && (forall b <- blocks :: |b.data| > 0)
    && forall i, j :: 0 <= i < j < |blocks| ==> blocks[i].address + |blocks[i].data| < blocks[j].address
  }

  lemma FlatMore(blocks: seq<MetaBlock>, b: MetaBlock)
    requires forall c <- blocks + [b] :: |c.data| == |c.prevData|
    ensures forall c <- blocks :: |c.data| == |c.prevData|
    ensures Flat(blocks + [b]) == Flat(blocks) + BlockCells(b, MetaBlock(0, 0, b.prevData, []), |b.data|)
  {
    assert forall c <- blocks :: c in blocks + [b];
    assert (blocks + [b])[..|blocks|] == blocks;
  }

  /** The blocks are the runs of the cells. */
  ghost predicate AreRunsOf(blocks: seq<MetaBlock>, cells: seq<Cell>) {
    && (forall b <- blocks :: |b.data| == |b.prevData|)
    && Flat(blocks) == cells
    && Separated(blocks)
  }

  /** What the scan of ascending addresses has collected: the runs of the cells. The
      last address belongs to the last run. */
  ghost predicate Collected(s: Scan, cells: seq<Cell>) {
    && WellKeyed(s)
    && (forall a <- s.runs :: a in s.order)
    && AreRunsOf(BlocksOf(s), cells)
    && if cells == [] then s == START else
         && s.order != [] && s.baseAddress == s.order[|s.order| - 1]
         && s.address == s.baseAddress + |s.runs[s.baseAddress].data| - 1 == cells[|cells| - 1].addr
  }

  lemma SeparatedMore(blocks: seq<MetaBlock>, b: MetaBlock)
    requires Separated(blocks) && |b.data| > 0 && forall c <- blocks :: c.address + |c.data| < b.address
    ensures Separated(blocks + [b])
  {
    var r := blocks + [b];
    forall i, j | 0 <= i < j < |r|
      ensures r[i].address + |r[i].data| < r[j].address
    {
      assert r[i] in blocks;
    }
  }

  lemma NewRunBlocks(s: Scan, c: Cell)
    requires WellKeyed(s) && c.addr != s.address + 1 && c.addr !in s.runs
    ensures var t := KeepCell(s, c);
            WellKeyed(t) && BlocksOf(t) == BlocksOf(s) + [ToBlock(c.addr, Run([c.val], [c.prev]))]
  {
    var t := KeepCell(s, c);
    assert forall i :: 0 <= i < |s.order| ==> t.order[i] == s.order[i] && s.order[i] != c.addr;
  }

  lemma LongerRunBlocks(s: Scan, c: Cell)
    requires WellKeyed(s) && c.addr == s.address + 1 && s.order != [] && s.baseAddress == s.order[|s.order| - 1]
    requires forall i :: 0 <= i < |s.order| - 1 ==> s.order[i] != s.baseAddress
    ensures var t, r := KeepCell(s, c), s.runs[s.baseAddress];
            && WellKeyed(t) && t.order == s.order
            && BlocksOf(t) == BlocksOf(s)[..|s.order| - 1]
                              + [ToBlock(s.baseAddress, Run(r.data + [c.val], r.prevData + [c.prev]))]
  {
  }

  lemma MoreRuns(blocks: seq<MetaBlock>, cells: seq<Cell>, c: Cell)
    requires AreRunsOf(blocks, cells) && forall b <- blocks :: b.address + |b.data| < c.addr
    ensures AreRunsOf(blocks + [ToBlock(c.addr, Run([c.val], [c.prev]))], cells + [c])
  {
    var b := ToBlock(c.addr, Run([c.val], [c.prev]));
    FlatMore(blocks, b);
    assert BlockCells(b, MetaBlock(0, 0, b.prevData, []), 1) == [c];
    SeparatedMore(blocks, b);
  }

  /** A byte behind the last run becomes a run of its own. */
  lemma NewRun(s: Scan, cells: seq<Cell>, c: Cell)
    requires Collected(s, cells) && c.addr != s.address + 1 && (cells != [] ==> s.address < c.addr)
    ensures Collected(KeepCell(s, c), cells + [c])
  {
    hide AreRunsOf, BlocksOf;
    OrderedBelow(s, cells, c.addr);
    NewRunBlocks(s, c);
    MoreRuns(BlocksOf(s), cells, c);
  }

  /** The runs end before any later address. */
  lemma OrderedBelow(s: Scan, cells: seq<Cell>, a: int)
    requires Collected(s, cells) && (cells != [] ==> s.address < a) && a != s.address + 1
    ensures forall o <- s.order :: o < a
    ensures forall b <- BlocksOf(s) :: b.address + |b.data| < a
  {
    var blocks := BlocksOf(s);
    forall i | 0 <= i < |blocks|
      ensures blocks[i].address + |blocks[i].data| < a
    {
      assert i < |blocks| - 1 ==> blocks[i].address + |blocks[i].data| < blocks[|blocks| - 1].address;
      assert blocks[|blocks| - 1] in blocks;
    }
  }

  lemma FlatLonger(blocks: seq<MetaBlock>, b: MetaBlock, c: Cell)
    requires blocks != [] && forall x <- blocks :: |x.data| == |x.prevData|
    requires var last := blocks[|blocks| - 1];
             && b.address == last.address && b.data == last.data + [c.val] && b.prevData == last.prevData + [c.prev]
             && c.addr == last.address + |last.data|
    ensures forall x <- blocks[..|blocks| - 1] + [b] :: |x.data| == |x.prevData|
    ensures Flat(blocks[..|blocks| - 1] + [b]) == Flat(blocks) + [c]
  {
    var n := |blocks| - 1;
    assert blocks[n] in blocks && blocks == blocks[..n] + [blocks[n]];
    FlatMore(blocks[..n], blocks[n]);
    FlatMore(blocks[..n], b);
    assert BlockCells(b, MetaBlock(0, 0, b.prevData, []), |b.data|)
        == BlockCells(blocks[n], MetaBlock(0, 0, blocks[n].prevData, []), |blocks[n].data|) + [c];
  }

  lemma LongerRuns(blocks: seq<MetaBlock>, cells: seq<Cell>, b: MetaBlock, c: Cell)
    requires AreRunsOf(blocks, cells) && blocks != []
    requires var last := blocks[|blocks| - 1];
             && b.address == last.address && b.data == last.data + [c.val] && b.prevData == last.prevData + [c.prev]
             && c.addr == last.address + |last.data|
    ensures AreRunsOf(blocks[..|blocks| - 1] + [b], cells + [c])
  {
    var n := |blocks| - 1;
    FlatLonger(blocks, b, c);
    assert Separated(blocks[..n]) && forall x <- blocks[..n] :: x.address + |x.data| < b.address;
    SeparatedMore(blocks[..n], b);
  }

  /** A byte right behind the last run continues it. */
  lemma LongerRun(s: Scan, cells: seq<Cell>, c: Cell)
    requires Collected(s, cells) && cells != [] && c.addr == s.address + 1
    ensures Collected(KeepCell(s, c), cells + [c])
  {
    hide AreRunsOf, BlocksOf;
    var r := s.runs[s.baseAddress];
    RunsBeforeLast(s, cells);
    LongerRunBlocks(s, c);
    LongerRuns(BlocksOf(s), cells, ToBlock(s.baseAddress, Run(r.data + [c.val], r.prevData + [c.prev])), c);
  }

  lemma RunsBeforeLast(s: Scan, cells: seq<Cell>)
    requires Collected(s, cells) && cells != []
    ensures forall i :: 0 <= i < |s.order| - 1 ==> s.order[i] != s.baseAddress
  {
    var n, blocks := |s.order| - 1, BlocksOf(s);
    assert blocks[n].address == s.baseAddress;
    assert forall i :: 0 <= i < n ==>
             blocks[i].address == s.order[i] && blocks[i].address + |blocks[i].data| < blocks[n].address;
  }

  lemma {:induction false} ScanCollects(cells: seq<Cell>)
    requires Ascending(cells) && forall c <- cells :: c.addr >= 0
    ensures Collected(ScanOf(cells), cells)
  {
    if cells == [] {
      assert BlocksOf(START) == [];
    } else {
      var n := |cells| - 1;
      var s, c := ScanOf(cells[..n]), cells[n];
      assert cells == cells[..n] + [c] && c in cells && (n > 0 ==> cells[n - 1].addr < c.addr);
      assert ScanOf(cells) == KeepCell(s, c);
      ScanCollects(cells[..n]);
      ScanGoesOn(s, cells[..n], c);
    }
  }

  lemma ScanGoesOn(s: Scan, cells: seq<Cell>, c: Cell)
    requires Collected(s, cells) && c.addr >= 0 && (cells != [] ==> cells[|cells| - 1].addr < c.addr)
    ensures Collected(KeepCell(s, c), cells + [c])
  {
    hide Collected, KeepCell;
    CollectedEnd(s, cells);
    if c.addr == s.address + 1 {
      LongerRun(s, cells, c);
    } else {
      NewRun(s, cells, c);
    }
  }

  lemma CollectedEnd(s: Scan, cells: seq<Cell>)
    requires Collected(s, cells)
    ensures if cells == [] then s == START else s.address == cells[|cells| - 1].addr
  {
  }

  /** The blocks are in ascending order and do not overlap. */
  predicate InOrder(blocks: seq<MetaBlock>) {
    && (forall b <- blocks :: b.address >= 0)
    && forall i, j :: 0 <= i < j < |blocks| ==> blocks[i].address + |blocks[i].data| <= blocks[j].address
  }

  lemma {:induction false} CellsAscend(blocks: seq<MetaBlock>, base: seq<MetaBlock>)
    requires SameStructure(blocks, base) && InOrder(blocks)
    ensures Ascending(Cells(blocks, base))
    ensures forall c <- Cells(blocks, base) :: 0 <= c.addr && exists b <- blocks :: c.addr < b.address + |b.data|
  {
    if blocks != [] {
      var n := |blocks| - 1;
      CellsAscend(blocks[..n], base[..n]);
      var most, more := Cells(blocks[..n], base[..n]), BlockCells(blocks[n], base[n], |blocks[n].data|);
      assert blocks[n] in blocks;
      forall i | 0 <= i < |most|
        ensures 0 <= most[i].addr < blocks[n].address
      {
        assert most[i] in most;
        var b :| b in blocks[..n] && most[i].addr < b.address + |b.data|;
      }
    }
  }

  /** The difference is exact and maximal: for blocks in ascending order that do not
      overlap, it holds exactly the bytes that meet the criterion, each with its
      current and its old value at its address, as runs that never touch one another. */
  lemma DiffIsExact(blocks: seq<MetaBlock>, base: seq<MetaBlock>, diff: Diff)
    requires SameStructure(blocks, base) && InOrder(blocks)
    ensures var s := ScanOf(Kept(diff, Cells(blocks, base)));
            && WellKeyed(s)
            && (forall b <- BlocksOf(s) :: |b.data| == |b.prevData| && (|b.data| <= 0x10000 ==> b.size == |b.data|))
            && Flat(BlocksOf(s)) == Kept(diff, Cells(blocks, base))
            && Separated(BlocksOf(s))
            && forall c :: c in Flat(BlocksOf(s)) <==> IsByte(blocks, base, c) && Differs(diff, c.val, c.prev)
  {
    CellsAscend(blocks, base);
    KeptIsAscending(diff, Cells(blocks, base));
    ScanCollects(Kept(diff, Cells(blocks, base)));
    forall c
      ensures c in Cells(blocks, base) <==> IsByte(blocks, base, c)
    {
      CellIsByte(blocks, base, c);
    }
  }

  /** The byte at some place of the new dump, and the one at the same place of the old dump. */
  ghost predicate IsByte(blocks: seq<MetaBlock>, base: seq<MetaBlock>, c: Cell)
    requires SameStructure(blocks, base)
  {
    exists i, k :: 0 <= i < |blocks| && 0 <= k < |blocks[i].data|
                   && c == Cell(blocks[i].address + k, blocks[i].data[k], base[i].data[k])
  }

  /** What is asked for: all bytes, those that have changed, or those that have grown by a
      number. */
  predicate Differs(diff: Diff, val: int, prev: int) {
    match diff
    case NoCheck => true
    case NotEqual => val != prev
    case By(value) => val == prev + value
  }

  lemma {:induction false} CellIsByte(blocks: seq<MetaBlock>, base: seq<MetaBlock>, c: Cell)
    requires SameStructure(blocks, base)
    ensures c in Cells(blocks, base) <==> IsByte(blocks, base, c)
  {
    if blocks != [] {
      var n := |blocks| - 1;
      CellIsByte(blocks[..n], base[..n], c);
      var last := BlockCells(blocks[n], base[n], |blocks[n].data|);
      if IsByte(blocks, base, c) {
        var i, k :| 0 <= i < |blocks| && 0 <= k < |blocks[i].data|
                    && c == Cell(blocks[i].address + k, blocks[i].data[k], base[i].data[k]);
        if i == n {
          assert last[k] == c;
        } else {
          assert blocks[..n][i] == blocks[i] && base[..n][i] == base[i];
        }
      }
      if c in last {
        var k :| 0 <= k < |last| && last[k] == c;
        assert c == Cell(blocks[n].address + k, blocks[n].data[k], base[n].data[k]);
      }
    }
  }

  lemma {:induction false} KeptIsAscending(diff: Diff, cells: seq<Cell>)
    requires Ascending(cells)
    ensures Ascending(Kept(diff, cells))
    ensures forall c :: c in Kept(diff, cells) <==> c in cells && KeepValue(diff, c)
  {
    if cells != [] {
      var n := |cells| - 1;
      KeptIsAscending(diff, cells[..n]);
      assert cells == cells[..n] + [cells[n]];
      var most := Kept(diff, cells[..n]);
      forall i | 0 <= i < |most|
        ensures most[i].addr < cells[n].addr
      {
        assert most[i] in cells[..n];
      }
    }
  }
}
