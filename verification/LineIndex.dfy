/** The relation between the lines of the disassembly text and addresses, in both
    directions. Breakpoints are set and shown with it. */
module LineIndexes {
  import opened Options

  /** One call of the callback: the bytes from `addr` on are shown in the line. */
  datatype Association = Association(line: nat, addr: int, count: nat)

  /** Lines up to this one that have no address yet get this one. */
  function ExtendedTo(lineAddr: seq<int>, line: nat, longAddr: int): (r: seq<int>)
    ensures lineAddr <= r && |r| == if |lineAddr| <= line then line + 1 else |lineAddr|
    ensures forall i :: |lineAddr| <= i < |r| ==> r[i] == longAddr
  {
    if |lineAddr| <= line then lineAddr + seq(line + 1 - |lineAddr|, i => longAddr) else lineAddr
  }

  /** All of `n` bytes get the line, as far as they are in the 64K. */
  function WithBytes(m: map<int, nat>, long: int -> int, line: nat, addr: int, n: nat): map<int, nat> {
    if n == 0 then m else
      var r := WithBytes(m, long, line, addr, n - 1);
      if n == 1 || addr + n - 1 <= 0xFFFF then r[long(addr + n - 1) := line] else r
  }

  function Bytes(a: Association): nat {
    if a.count == 0 then 1 else a.count
  }

  function LineAddrs(long: int -> int, log: seq<Association>): seq<int> {
    if log == [] then [] else
      var a := log[|log| - 1];
      ExtendedTo(LineAddrs(long, log[..|log| - 1]), a.line, long(a.addr))
  }

  function AddrLines(long: int -> int, log: seq<Association>): map<int, nat> {
    if log == [] then map[] else
      var a := log[|log| - 1];
      WithBytes(AddrLines(long, log[..|log| - 1]), long, a.line, a.addr, Bytes(a))
  }

  class LineIndex {
    /** The long address of a 64K address, with the current slots. */
    const createLongAddress: int -> int
    var lineAddrArray: seq<int>
    var addrLineMap: map<int, nat>
    ghost var log: seq<Association>

    constructor (createLongAddress: int -> int)
      ensures Valid() && log == [] && this.createLongAddress == createLongAddress
    {
      this.createLongAddress, lineAddrArray, addrLineMap, log := createLongAddress, [], map[], [];
    }

    ghost predicate Valid()
      reads this
    {
      lineAddrArray == LineAddrs(createLongAddress, log) && addrLineMap == AddrLines(createLongAddress, log)
    }

    /** The callback of the renderer. */
    method Associate(lineNr: nat, addr64k: int, bytesCount: nat)
      requires Valid()
      modifies this
      ensures Valid() && log == old(log) + [Association(lineNr, addr64k, bytesCount)]
    {
      ghost var a := Association(lineNr, addr64k, bytesCount);
      assert (log + [a])[..|log|] == log;
      var longAddr := createLongAddress(addr64k);
      while |lineAddrArray| <= lineNr
        invariant old(lineAddrArray) <= lineAddrArray && unchanged(`addrLineMap) && unchanged(`log)
        invariant |lineAddrArray| <= lineNr + 1 || lineAddrArray == old(lineAddrArray)
        invariant forall i :: |old(lineAddrArray)| <= i < |lineAddrArray| ==> lineAddrArray[i] == longAddr
      {
        lineAddrArray := lineAddrArray + [longAddr];
      }
      assert lineAddrArray == ExtendedTo(old(lineAddrArray), lineNr, longAddr);
      // Add all bytes.
      addrLineMap := addrLineMap[longAddr := lineNr];
      var addr := addr64k;
      var i := 1;
      while i < bytesCount
        invariant 1 <= i <= Bytes(a) && addr == addr64k + i - 1
        invariant addrLineMap == WithBytes(old(addrLineMap), createLongAddress, lineNr, addr64k, i)
        invariant lineAddrArray == ExtendedTo(old(lineAddrArray), lineNr, longAddr) && unchanged(`log)
      {
        addr := addr + 1;
        if addr > 0xFFFF {
          NoMoreBytes(old(addrLineMap), createLongAddress, lineNr, addr64k, i, bytesCount);
          break;
        }
        addrLineMap := addrLineMap[createLongAddress(addr) := lineNr];
        i := i + 1;
      }
      log := log + [a];
    }

    function GetLineForAddress(longAddress: int): Option<nat>
      reads this
    {
      if longAddress in addrLineMap then Some(addrLineMap[longAddress]) else None
    }

    /** -1 if there is none. */
    function GetAddressForLine(lineNr: nat): int
      reads this
    {
      if lineNr >= |lineAddrArray| then -1 else lineAddrArray[lineNr]
    }
  }

  lemma {:induction false} NoMoreBytes(m: map<int, nat>, long: int -> int, line: nat, addr: int, i: nat, n: nat)
    requires 1 <= i <= n && addr + i > 0xFFFF
    ensures WithBytes(m, long, line, addr, n) == WithBytes(m, long, line, addr, i)
  {
    if i < n {
      NoMoreBytes(m, long, line, addr, i, n - 1);
    }
  }

  // What the index says, if the associations are in order.

  predicate LinesIncrease(log: seq<Association>) {
    forall i, j :: 0 <= i < j < |log| ==> log[i].line < log[j].line
  }

  predicate RangesAscend(log: seq<Association>) {
    && (forall i :: 0 <= i < |log| ==> 0 <= log[i].addr <= 0xFFFF)
    && forall i, j :: 0 <= i < j < |log| ==> log[i].addr + log[i].count <= log[j].addr
  }

  /** A long address contains the 64K address. */
  ghost predicate KeepsAddress(long: int -> int) {
    forall a :: 0 <= a <= 0xFFFF ==> long(a) >= 0 && long(a) % 0x10000 == a
  }

  /** The first association at or behind a line. */
  function FirstFrom(log: seq<Association>, line: nat): (i: nat)
    requires log != [] && line <= log[|log| - 1].line
    ensures i < |log| && log[i].line >= line && (i == 0 || log[i - 1].line < line)
  {
    var n := |log| - 1;
    if n == 0 || log[n - 1].line < line then n else FirstFrom(log[..n], line)
  }

  lemma {:induction false} LineCount(long: int -> int, log: seq<Association>)
    requires LinesIncrease(log)
    ensures |LineAddrs(long, log)| == if log == [] then 0 else log[|log| - 1].line + 1
  {
    if log != [] {
      LineCount(long, log[..|log| - 1]);
    }
  }

  /** Every line up to the last one that has been associated has an address: that of the
      first association at or behind it. There are no others. */
  lemma {:induction false} LineAddrIs(long: int -> int, log: seq<Association>, l: nat)
    requires LinesIncrease(log)
    ensures l < |LineAddrs(long, log)| <==> log != [] && l <= log[|log| - 1].line
    ensures l < |LineAddrs(long, log)| ==> LineAddrs(long, log)[l] == long(log[FirstFrom(log, l)].addr)
  {
    LineCount(long, log);
    if log != [] && l <= log[|log| - 1].line {
      var n := |log| - 1;
      LineCount(long, log[..n]);
      if n > 0 && l <= log[n - 1].line {
        LineAddrIs(long, log[..n], l);
      }
    }
  }

  lemma {:induction false} BytesAreSet(m: map<int, nat>, long: int -> int, line: nat, addr: int, n: nat, b: int)
    requires KeepsAddress(long) && 0 <= addr <= 0xFFFF && 0 <= b <= 0xFFFF
    ensures var r := WithBytes(m, long, line, addr, n);
            if addr <= b < addr + n then long(b) in r && r[long(b)] == line
            else (long(b) in r <==> long(b) in m) && (long(b) in m ==> r[long(b)] == m[long(b)])
  {
    if n > 0 {
      BytesAreSet(m, long, line, addr, n - 1, b);
    }
  }

  /** Every byte of an association is found in its line, if the ranges do not overlap. */
  lemma {:induction false} AddrLinesAre(long: int -> int, log: seq<Association>, i: nat, b: int)
    requires KeepsAddress(long) && RangesAscend(log) && i < |log|
    requires log[i].addr <= b < log[i].addr + log[i].count && b <= 0xFFFF
    ensures long(b) in AddrLines(long, log) && AddrLines(long, log)[long(b)] == log[i].line
  {
    var n := |log| - 1;
    var a := log[n];
    BytesAreSet(AddrLines(long, log[..n]), long, a.line, a.addr, Bytes(a), b);
    if i < n {
      assert RangesAscend(log[..n]);
      AddrLinesAre(long, log[..n], i, b);
    }
  }

  lemma {:induction false} AddrLinesOnly(long: int -> int, log: seq<Association>, b: int)
    requires KeepsAddress(long) && RangesAscend(log) && 0 <= b <= 0xFFFF && long(b) in AddrLines(long, log)
    ensures exists a <- log :: a.line == AddrLines(long, log)[long(b)] && a.addr <= b < a.addr + Bytes(a)
  {
    if log != [] {
      var n := |log| - 1;
      var a := log[n];
      BytesAreSet(AddrLines(long, log[..n]), long, a.line, a.addr, Bytes(a), b);
      if !(a.addr <= b < a.addr + Bytes(a)) {
        assert RangesAscend(log[..n]);
        AddrLinesOnly(long, log[..n], b);
      }
    }
  }

  lemma FirstIsUnique(log: seq<Association>, i: nat)
    requires LinesIncrease(log) && i < |log|
    ensures log[i].line <= log[|log| - 1].line && FirstFrom(log, log[i].line) == i
  {
  }

  lemma FirstAscends(log: seq<Association>, l: nat, m: nat)
    requires LinesIncrease(log) && log != [] && l <= m <= log[|log| - 1].line
    ensures FirstFrom(log, l) <= FirstFrom(log, m)
  {
  }

  /** The round trip: the line of any byte that is shown leads back to the start of what
      is shown in that line; so for the start of an instruction to itself. */
  lemma RoundTrip(index: LineIndex, i: nat, b: int)
    requires index.Valid() && KeepsAddress(index.createLongAddress)
    requires LinesIncrease(index.log) && RangesAscend(index.log) && i < |index.log|
    requires var a := index.log[i]; a.addr <= b < a.addr + a.count && b <= 0xFFFF
    ensures var a, long := index.log[i], index.createLongAddress;
            && index.GetLineForAddress(long(b)) == Some(a.line)
            && index.GetAddressForLine(a.line) == long(a.addr)
  {
    var log, long := index.log, index.createLongAddress;
    AddrLinesAre(long, log, i, b);
    LineAddrIs(long, log, log[i].line);
    FirstIsUnique(log, i);
  }

  /** The addresses of the lines are total up to the last associated line, and never
      decrease. */
  lemma AddressesAscend(index: LineIndex, l: nat, m: nat)
    requires index.Valid() && KeepsAddress(index.createLongAddress)
    requires LinesIncrease(index.log) && RangesAscend(index.log)
    requires l <= m && index.log != [] && m <= index.log[|index.log| - 1].line
    ensures 0 <= index.GetAddressForLine(l)
            && index.GetAddressForLine(l) % 0x10000 <= index.GetAddressForLine(m) % 0x10000
  {
    hide LineAddrs, AddrLines, FirstFrom;
    var log, long := index.log, index.createLongAddress;
    LineAddrIs(long, log, l);
    LineAddrIs(long, log, m);
    FirstAscends(log, l, m);
    var i, k := FirstFrom(log, l), FirstFrom(log, m);
    assert log[i].addr <= log[k].addr;
  }
}
