/** Rendering of the disassembly as text. The texts themselves are abstracted: a line is
    an empty one or not. What counts is which line shows which addresses. */
module RenderTexts {
  import opened Options
  import opened LineIndexes
  import opened Z80Image
  import Sorting

  datatype RenderHint = RENDER_EVERYTHING | RENDER_DATA_AND_DISASSEMBLY | RENDER_NOTHING

  /** What is rendered of a node: the lengths of its instructions, and the addresses that
      they refer to. */
  datatype NodeText = NodeText(start: int, bankBorder: bool, lengths: seq<nat>, dataReferences: seq<int>)

  class RenderedLines {
    /** Whether a line has a text. */
    var lines: seq<bool>

    constructor ()
      ensures lines == []
    {
      lines := [];
    }

    /** Adds an empty line, but only behind a line with a text. */
    method AddNewline()
      modifies this
      ensures lines == old(lines) || lines == old(lines) + [false]
      ensures lines != [] ==> !lines[|lines| - 1]
    {
      if lines != [] && lines[|lines| - 1] {
        lines := lines + [false];
      }
    }

    method AddLine()
      modifies this
      ensures lines == old(lines) + [true]
    {
      lines := lines + [true];
    }
  }

  /** Descending: the last one is the lowest. */
  predicate Descending(s: seq<int>) {
    forall i, j :: 0 <= i < j < |s| ==> s[i] >= s[j]
  }

  /** An area ends with the 64K. */
  function AreaEnd(addr64k: int, dataLen: nat): int {
    if addr64k + dataLen > MEM_SIZE then MEM_SIZE else addr64k + dataLen
  }

  /** No reference is left before an address. */
  predicate NoneBelow(s: seq<int>, addr: int) {
    forall i :: 0 <= i < |s| ==> s[i] >= addr
  }

  /** The lowest reference on the stack. */
  function LastOf(s: seq<int>): Option<int> {
    if s == [] then None else Some(s[|s| - 1])
  }

  function DropLast(s: seq<int>): seq<int> {
    if s == [] then [] else s[..|s| - 1]
  }

  /** The references at an address or behind it. */
  function From(s: seq<int>, addr: int): seq<int> {
    if s == [] || s[|s| - 1] >= addr then s else From(DropLast(s), addr)
  }

  /** Without the lowest references that are the same as `x`. */
  function PopSame(s: seq<int>, x: int): seq<int> {
    if s == [] || s[|s| - 1] != x then s else PopSame(DropLast(s), x)
  }

  /** References before the area are left over. */
  predicate Stale(s: seq<int>, addr: int) {
    s != [] && s[|s| - 1] < addr
  }

  /** The stack when the first reference of the area has been found. That reference is
      off the stack already if others before the area were left over. */
  function StackInArea(s: seq<int>, addr: int): seq<int> {
    if Stale(s, addr) then DropLast(From(s, addr)) else s
  }

  /** The stack after the data at `x` has been printed. */
  function StackBehind(s: seq<int>, x: int): seq<int> {
    PopSame(DropLast(s), x)
  }

  /** From `x` on, with the stack `s`, the data at `r` is printed. */
  predicate PrintsFrom(s: seq<int>, x: int, endAddr: int, r: int) {
    x < endAddr && (r == x || (r in StackBehind(s, x) && r < endAddr))
  }

  /** The references that are left when the area has been printed from `x` on. */
  function LeftFrom(s: seq<int>, x: int, endAddr: int): seq<int> {
    if x < endAddr then From(StackBehind(s, x), endAddr) else s
  }

  /** The references that are left behind the area. */
  function LeftBehind(s: seq<int>, addr: int, endAddr: int): seq<int> {
    match LastOf(From(s, addr))
    case None => []
    case Some(x) => LeftFrom(StackInArea(s, addr), x, endAddr)
  }

  /** The data at `r` is printed in the area. */
  predicate Prints(s: seq<int>, addr: int, endAddr: int, r: int) {
    match LastOf(From(s, addr))
    case None => false
    case Some(x) => PrintsFrom(StackInArea(s, addr), x, endAddr, r)
  }

  /** The i-th lowest reference. */
  function Lowest(s: seq<int>, i: nat): Option<int> {
    if i < |s| then Some(s[|s| - 1 - i]) else None
  }

  /** The reference that is lost when an area is printed while references before it are
      left over: the second lowest one of the area, or the lowest one if it lies behind
      the area; unless it is there twice. */
  function Victim(s: seq<int>, addr: int, endAddr: int): Option<int> {
    var u := From(s, addr);
    if !Stale(s, addr) || u == [] then None
    else if u[|u| - 1] >= endAddr then
      if Lowest(u, 1) == Lowest(u, 0) then None else Lowest(u, 0)
    else
      if Lowest(u, 1) == Lowest(u, 0) || Lowest(u, 2) == Lowest(u, 1) then None else Lowest(u, 1)
  }

  lemma {:induction false} FromIs(s: seq<int>, addr: int)
    requires Descending(s)
    ensures Descending(From(s, addr))
    ensures forall r :: r in From(s, addr) <==> r in s && r >= addr
    ensures From(s, addr) <= s
  {
    if s != [] && s[|s| - 1] < addr {
      FromIs(DropLast(s), addr);
      assert s == DropLast(s) + [s[|s| - 1]];
    }
  }

  lemma {:induction false} PopSameIs(s: seq<int>, x: int)
    requires Descending(s) && NoneBelow(s, x)
    ensures Descending(PopSame(s, x))
    ensures forall r :: r in PopSame(s, x) <==> r in s && r != x
    ensures PopSame(s, x) <= s
  {
    if s != [] && s[|s| - 1] == x {
      PopSameIs(DropLast(s), x);
      assert s == DropLast(s) + [x];
    }
  }

  lemma {:induction false} FromBehindSame(s: seq<int>, x: int, addr: int)
    requires x < addr
    ensures From(PopSame(s, x), addr) == From(s, addr)
  {
    if s != [] && s[|s| - 1] == x {
      FromBehindSame(DropLast(s), x, addr);
    }
  }

  /** Printing the next reference leaves the same references as before, and prints the
      others. */
  lemma PrintsOn(s: seq<int>, x: int, endAddr: int)
    requires Descending(s) && NoneBelow(s, x) && x < endAddr
    ensures Descending(StackBehind(s, x))
    ensures LastOf(StackBehind(s, x)) == None ==>
              LeftFrom(s, x, endAddr) == [] && forall r :: PrintsFrom(s, x, endAddr, r) <==> r == x
    ensures LastOf(StackBehind(s, x)).Some? ==>
              var t, y := StackBehind(s, x), LastOf(StackBehind(s, x)).value;
              && LeftFrom(t, y, endAddr) == LeftFrom(s, x, endAddr)
              && y > x && NoneBelow(t, y)
              && forall r :: PrintsFrom(s, x, endAddr, r) <==> r == x || PrintsFrom(t, y, endAddr, r)
  {
    PopSameIs(DropLast(s), x);
    var t := StackBehind(s, x);
    if t != [] {
      var y := t[|t| - 1];
      assert y in t;
      assert StackBehind(t, y) == PopSame(t, y);
      PopSameIs(t, y);
      if y < endAddr {
        FromBehindSame(t, y, endAddr);
      }
    }
  }

  lemma PrintsFromIff(s: seq<int>, x: int, endAddr: int, r: int)
    requires Descending(s) && NoneBelow(s, x)
    ensures PrintsFrom(s, x, endAddr, r) <==> x < endAddr && (r == x || (r in DropLast(s) && r < endAddr))
    ensures r in LeftFrom(s, x, endAddr) <==> if x < endAddr then r in DropLast(s) && r >= endAddr else r in s
    ensures Descending(LeftFrom(s, x, endAddr))
  {
    PopSameIs(DropLast(s), x);
    FromIs(StackBehind(s, x), endAddr);
  }

  /** All references but the lowest one. */
  lemma DropLastIs(s: seq<int>, r: int)
    requires Descending(s)
    ensures Descending(DropLast(s))
    ensures r in DropLast(s) <==> r in s && (Lowest(s, 0) != Some(r) || Lowest(s, 1) == Some(r))
    ensures forall i: nat :: Lowest(DropLast(s), i) == Lowest(s, i + 1)
  {
    if s != [] {
      assert s == DropLast(s) + [s[|s| - 1]];
      if Lowest(s, 1) == Some(r) {
        assert DropLast(s)[|s| - 2] == r;
      }
    }
  }

  /** The references that are on the stack when the area is printed. */
  lemma StackInAreaIs(s: seq<int>, addr: int, r: int)
    requires Descending(s) && From(s, addr) != []
    ensures Descending(StackInArea(s, addr))
    ensures var t, x := StackInArea(s, addr), From(s, addr)[|From(s, addr)| - 1];
            && x >= addr && x in s && NoneBelow(t, x)
    ensures var u := From(s, addr);
            r in StackInArea(s, addr) <==>
            r in s && addr <= r && (Stale(s, addr) && Lowest(u, 0) == Some(r) ==> Lowest(u, 1) == Some(r))
    ensures forall i: nat ::
              Lowest(StackInArea(s, addr), i) == Lowest(From(s, addr), if Stale(s, addr) then i + 1 else i)
  {
    FromIs(s, addr);
    DropLastIs(From(s, addr), r);
    assert From(s, addr)[|From(s, addr)| - 1] in From(s, addr);
  }

  /** What is printed in an area and what is left behind it: the references that lie
      there, but for the one that is lost. */
  lemma PrintsIff(s: seq<int>, addr: int, endAddr: int, r: int)
    requires Descending(s)
    ensures Prints(s, addr, endAddr, r) <==>
            r in s && addr <= r < endAddr && Victim(s, addr, endAddr) != Some(r)
    ensures r in LeftBehind(s, addr, endAddr) <==>
            r in s && addr <= r && endAddr <= r && Victim(s, addr, endAddr) != Some(r)
    ensures Descending(LeftBehind(s, addr, endAddr))
  {
    hide From, PrintsFrom, LeftFrom, Descending, DropLast, StackInArea, Stale;
    FromIs(s, addr);
    if From(s, addr) != [] {
      var x, t := From(s, addr)[|From(s, addr)| - 1], StackInArea(s, addr);
      StackInAreaIs(s, addr, r);
      DropLastIs(t, r);
      PrintsFromIff(t, x, endAddr, r);
    }
  }

  lemma PrintsExactly(s: seq<int>, addr: int, endAddr: int)
    requires Descending(s)
    ensures forall r :: Prints(s, addr, endAddr, r) <==>
              r in s && addr <= r < endAddr && Victim(s, addr, endAddr) != Some(r)
    ensures forall r :: r in LeftBehind(s, addr, endAddr) <==>
              r in s && addr <= r && endAddr <= r && Victim(s, addr, endAddr) != Some(r)
    ensures Descending(LeftBehind(s, addr, endAddr))
  {
    hide *;
    forall r
      ensures Prints(s, addr, endAddr, r) <==> r in s && addr <= r < endAddr && Victim(s, addr, endAddr) != Some(r)
      ensures r in LeftBehind(s, addr, endAddr) <==>
              r in s && addr <= r && endAddr <= r && Victim(s, addr, endAddr) != Some(r)
    {
      PrintsIff(s, addr, endAddr, r);
    }
    PrintsIff(s, addr, endAddr, 0);
  }

  /** A reference of the area that does not get lost. */
  predicate IsLeft(references: seq<int>, addr: int, endAddr: int, r: int) {
    r in references && addr <= r < endAddr && Victim(references, addr, endAddr) != Some(r)
  }

  /** The byte at `b` is shown in the line of the reference `r`: it is one of at most eight
      bytes, before the next reference and before the end of the area, and none of the bytes up
      to it is shown by a source file. */
  ghost predicate InDataLine(hint: int -> RenderHint, references: seq<int>, addr: int, endAddr: int, r: int, b: int) {
    && IsLeft(references, addr, endAddr, r) && r <= b < r + 8 && b < endAddr
    && (forall y :: r < y <= b ==> !IsLeft(references, addr, endAddr, y))
    && forall c :: r <= c <= b ==> hint(c) != RENDER_NOTHING
  }

  /** A line shows exactly the bytes that belong to its reference. */
  ghost predicate IsDataLine(hint: int -> RenderHint, references: seq<int>, addr: int, endAddr: int, a: Association) {
    forall b :: a.addr <= b < a.addr + a.count <==> InDataLine(hint, references, addr, endAddr, a.addr, b)
  }

  ghost predicate DataLines(hint: int -> RenderHint, references: seq<int>, addr: int, endAddr: int,
                            log: seq<Association>, n: nat) {
    forall i {:trigger log[i]} :: n <= i < |log| ==> IsDataLine(hint, references, addr, endAddr, log[i])
  }

  /** What is printed from `x` on is what is left of the references. */
  ghost predicate Ahead(references: seq<int>, addr: int, endAddr: int, s: seq<int>, x: int) {
    forall r :: x <= r ==> (PrintsFrom(s, x, endAddr, r) <==> IsLeft(references, addr, endAddr, r))
  }

  /** The bytes that are shown at `x`, in front of the next reference. */
  ghost predicate InLineAt(hint: int -> RenderHint, x: int, next: Option<int>, endAddr: int, b: int) {
    && x <= b < x + 8 && b < endAddr && (next.Some? ==> b < next.value)
    && forall c :: x <= c <= b ==> hint(c) != RENDER_NOTHING
  }

  /** One line is added for the data at `x`, with all of these bytes; none if a source file
      shows the first one. */
  ghost predicate AddsLine(hint: int -> RenderHint, x: int, next: Option<int>, endAddr: int,
                           log: seq<Association>, more: seq<Association>) {
    if hint(x) == RENDER_NOTHING then more == log
    else
      && |more| == |log| + 1 && log <= more && more[|log|].addr == x && more[|log|].count > 0
      && forall b :: x <= b < x + more[|log|].count <==> InLineAt(hint, x, next, endAddr, b)
  }

  lemma NextIsLowest(s: seq<int>, x: int, endAddr: int, b: int)
    requires Descending(s) && NoneBelow(s, x) && x <= b < endAddr
    ensures (forall y :: x < y <= b ==> !PrintsFrom(s, x, endAddr, y)) <==>
            (match LastOf(StackBehind(s, x)) case None => true case Some(next) => b < next)
  {
    hide StackBehind;
    PrintsOn(s, x, endAddr);
    var t := StackBehind(s, x);
    if t != [] {
      var next := t[|t| - 1];
      assert next in t && (next < endAddr ==> PrintsFrom(s, x, endAddr, next));
      assert forall y :: y in t ==> y >= next;
    }
  }

  /** A line that ends in front of the next reference on the stack shows what belongs to it. */
  lemma LineIsData(hint: int -> RenderHint, references: seq<int>, addr: int, endAddr: int, s: seq<int>, x: int,
                   a: Association)
    requires Descending(s) && NoneBelow(s, x) && x < endAddr && Ahead(references, addr, endAddr, s, x) && a.addr == x
    requires forall b :: x <= b < x + a.count <==> InLineAt(hint, x, LastOf(StackBehind(s, x)), endAddr, b)
    ensures IsDataLine(hint, references, addr, endAddr, a)
  {
    hide StackBehind, IsLeft;
    forall b
      ensures InLineAt(hint, x, LastOf(StackBehind(s, x)), endAddr, b) <==>
              InDataLine(hint, references, addr, endAddr, x, b)
    {
      assert PrintsFrom(s, x, endAddr, x);
      if x <= b < endAddr {
        NextIsLowest(s, x, endAddr, b);
        assert forall y :: x < y <= b ==> (PrintsFrom(s, x, endAddr, y) <==> IsLeft(references, addr, endAddr, y));
      }
    }
  }

  lemma DataLinesMore(hint: int -> RenderHint, references: seq<int>, addr: int, endAddr: int, s: seq<int>, x: int,
                      log: seq<Association>, more: seq<Association>, n: nat)
    requires Descending(s) && NoneBelow(s, x) && x < endAddr && Ahead(references, addr, endAddr, s, x)
    requires DataLines(hint, references, addr, endAddr, log, n) && n <= |log|
    requires AddsLine(hint, x, LastOf(StackBehind(s, x)), endAddr, log, more)
    ensures DataLines(hint, references, addr, endAddr, more, n)
    ensures log <= more && forall r :: ShownSince(more, |log|, r) <==> r == x && hint(r) != RENDER_NOTHING
  {
    hide StackBehind, IsLeft, IsDataLine, Ahead, InLineAt, Descending, NoneBelow;
    if hint(x) != RENDER_NOTHING {
      LineIsData(hint, references, addr, endAddr, s, x, more[|log|]);
      assert forall i :: 0 <= i < |log| ==> more[i] == log[i];
      OneSince(log, more);
    }
  }

  /** What has been shown since the first `n` associations, together with what is printed
      from `x` on, is what `references` ask for in the area. */
  ghost predicate OnTheWay(hint: int -> RenderHint, references: seq<int>, addr: int, endAddr: int,
                           log: seq<Association>, n: nat, s: seq<int>, x: int) {
    && Descending(s) && NoneBelow(s, x)
    && LeftFrom(s, x, endAddr) == LeftBehind(references, addr, endAddr)
    && Ahead(references, addr, endAddr, s, x) && DataLines(hint, references, addr, endAddr, log, n)
    && forall r :: hint(r) != RENDER_NOTHING && Prints(references, addr, endAddr, r) <==>
         ShownSince(log, n, r) || (hint(r) != RENDER_NOTHING && PrintsFrom(s, x, endAddr, r))
  }

  lemma WayStarts(hint: int -> RenderHint, references: seq<int>, addr: int, endAddr: int, log: seq<Association>)
    requires Descending(references)
    ensures match LastOf(From(references, addr))
            case None => IsPrinted(hint, references, addr, endAddr, log, |log|, StackInArea(references, addr))
            case Some(x) =>
              x >= addr
              && OnTheWay(hint, references, addr, endAddr, log, |log|, StackInArea(references, addr), x)
  {
    hide Victim, StackInArea, PrintsFrom, LeftFrom, From, IsLeft, Ahead;
    FromIs(references, addr);
    if From(references, addr) != [] {
      StackInAreaIs(references, addr, 0);
      AheadAtStart(references, addr, endAddr);
    } else {
      NothingInArea(references, addr);
    }
  }

  lemma NothingInArea(s: seq<int>, addr: int)
    requires From(s, addr) == []
    ensures StackInArea(s, addr) == []
  {
  }

  lemma AheadAtStart(references: seq<int>, addr: int, endAddr: int)
    requires Descending(references) && LastOf(From(references, addr)).Some?
    ensures Ahead(references, addr, endAddr, StackInArea(references, addr), LastOf(From(references, addr)).value)
  {
    hide Victim, StackInArea, PrintsFrom, From, Descending;
    PrintsExactly(references, addr, endAddr);
  }

  /** Printing one reference leads on. */
  lemma WayGoesOn(hint: int -> RenderHint, references: seq<int>, addr: int, endAddr: int,
                  log: seq<Association>, more: seq<Association>, n: nat, s: seq<int>, x: int)
    requires OnTheWay(hint, references, addr, endAddr, log, n, s, x) && x < endAddr && n <= |log|
    requires AddsLine(hint, x, LastOf(StackBehind(s, x)), endAddr, log, more)
    ensures log <= more
    ensures match LastOf(StackBehind(s, x))
            case None => IsPrinted(hint, references, addr, endAddr, more, n, StackBehind(s, x))
            case Some(y) => y > x && OnTheWay(hint, references, addr, endAddr, more, n, StackBehind(s, x), y)
  {
    hide Descending, NoneBelow, LeftFrom, LeftBehind, Prints, PrintsFrom, StackBehind, ShownSince, IsLeft, DataLines,
         AddsLine;
    PrintsOn(s, x, endAddr);
    DataLinesMore(hint, references, addr, endAddr, s, x, log, more, n);
    forall r
      ensures ShownSince(more, n, r) <==> ShownSince(log, n, r) || ShownSince(more, |log|, r)
    {
      ShownBeforeOrSince(log, more, n, r);
    }
  }

  lemma ShownBeforeOrSince(log: seq<Association>, more: seq<Association>, n: nat, r: int)
    requires n <= |log| && log <= more
    ensures ShownSince(more, n, r) <==> ShownSince(log, n, r) || ShownSince(more, |log|, r)
  {
    if ShownSince(log, n, r) {
      var i :| n <= i < |log| && log[i].addr == r && log[i].count > 0;
      assert more[i] == log[i];
    }
    if ShownSince(more, n, r) && !ShownSince(more, |log|, r) {
      var i :| n <= i < |more| && more[i].addr == r && more[i].count > 0;
      assert more[i] == log[i];
    }
  }

  lemma WayIsOrdered(hint: int -> RenderHint, references: seq<int>, addr: int, endAddr: int,
                     log: seq<Association>, n: nat, s: seq<int>, x: int)
    requires OnTheWay(hint, references, addr, endAddr, log, n, s, x)
    ensures Descending(s) && NoneBelow(s, x)
  {
  }

  lemma WayEnds(hint: int -> RenderHint, references: seq<int>, addr: int, endAddr: int,
                log: seq<Association>, n: nat, s: seq<int>, x: int)
    requires OnTheWay(hint, references, addr, endAddr, log, n, s, x) && x >= endAddr
    ensures IsPrinted(hint, references, addr, endAddr, log, n, s)
  {
    hide Prints, LeftBehind, ShownSince, DataLines, Ahead;
  }

  /** What has been shown, and what is left on the stack, when an area has been printed. */
  ghost predicate IsPrinted(hint: int -> RenderHint, references: seq<int>, addr: int, endAddr: int,
                            log: seq<Association>, n: nat, s: seq<int>) {
    && (forall r :: ShownSince(log, n, r) <==> hint(r) != RENDER_NOTHING && Prints(references, addr, endAddr, r))
    && DataLines(hint, references, addr, endAddr, log, n)
    && s == LeftBehind(references, addr, endAddr)
  }

  /** References into code that is shown already are left over before the next area,
      and one of the area gets lost. */
  lemma ReferenceIsLost()
    ensures var s := [30, 20, 5]; !Prints(s, 10, 40, 30) && Prints(s, 10, 40, 20) && LeftBehind(s, 10, 40) == []
    ensures Victim([30, 20, 5], 10, 40) == Some(30)
  {
    var s := [30, 20, 5];
    assert DropLast(s) == [30, 20] && From([30, 20], 10) == [30, 20];
    PrintsIff(s, 10, 40, 30);
    PrintsIff(s, 10, 40, 20);
    forall r
      ensures r !in LeftBehind(s, 10, 40)
    {
      PrintsIff(s, 10, 40, r);
    }
  }

  /** `sort` with the highest one first. */
  function SortedDown(s: seq<int>): (r: seq<int>)
    ensures Descending(r) && forall x :: x in r <==> x in s
  {
    var up := Sorting.Sort(s);
    Sorting.SortKeepsElements(s);
    var r := seq(|up|, i requires 0 <= i < |up| => up[|up| - 1 - i]);
    assert forall i :: 0 <= i < |up| ==> up[i] == r[|up| - 1 - i];
    r
  }

  function AllReferences(nodes: seq<NodeText>): seq<int> {
    if nodes == [] then [] else AllReferences(nodes[..|nodes| - 1]) + nodes[|nodes| - 1].dataReferences
  }

  /** The references of all nodes, the highest one first. */
  function SortedReferences(nodes: seq<NodeText>): (r: seq<int>)
    ensures Descending(r) && forall x :: x in r <==> exists n <- nodes :: x in n.dataReferences
  {
    AllReferencesAre(nodes);
    SortedDown(AllReferences(nodes))
  }

  lemma {:induction false} AllReferencesAre(nodes: seq<NodeText>)
    ensures forall x :: x in AllReferences(nodes) <==> exists n <- nodes :: x in n.dataReferences
  {
    if nodes != [] {
      AllReferencesAre(nodes[..|nodes| - 1]);
      assert nodes == nodes[..|nodes| - 1] + [nodes[|nodes| - 1]];
    }
  }

  function Length(lengths: seq<nat>): nat {
    if lengths == [] then 0 else Length(lengths[..|lengths| - 1]) + lengths[|lengths| - 1]
  }

  /** Behind everything that is shown so far. */
  ghost predicate Behind(log: seq<Association>, addr: int) {
    forall i :: 0 <= i < |log| ==> log[i].addr + log[i].count <= addr
  }

  /** Everything is shown in lines that exist. */
  ghost predicate InLines(log: seq<Association>, n: nat) {
    forall i :: 0 <= i < |log| ==> log[i].line < n
  }

  /** Only addresses without a source file of their own are shown. */
  ghost predicate OnlyWanted(log: seq<Association>, hint: int -> RenderHint) {
    forall i :: 0 <= i < |log| ==> hint(log[i].addr) != RENDER_NOTHING
  }

  /** The ranges shown ascend, and end before an address. */
  ghost predicate OrderedUpTo(log: seq<Association>, addr: int) {
    RangesAscend(log) && Behind(log, addr) && addr >= 0
  }

  /** An instruction is shown. */
  ghost predicate Shown(log: seq<Association>, addr: int, len: nat) {
    exists i :: 0 <= i < |log| && log[i].addr == addr && log[i].count == len
  }

  /** A line that starts with the byte at `addr` is shown behind the first `n`
      associations. */
  ghost predicate ShownSince(log: seq<Association>, n: nat, addr: int) {
    exists i :: n <= i < |log| && log[i].addr == addr && log[i].count > 0
  }

  lemma StaysShown(log: seq<Association>, more: seq<Association>)
    requires log <= more
    ensures forall a, n :: Shown(log, a, n) ==> Shown(more, a, n)
  {
    forall a, n | Shown(log, a, n)
      ensures Shown(more, a, n)
    {
      var i :| 0 <= i < |log| && log[i].addr == a && log[i].count == n;
      assert more[i] == log[i];
    }
  }

  lemma OneMore(log: seq<Association>, a: Association, n: nat, hint: int -> RenderHint)
    requires LinesIncrease(log) && InLines(log, a.line) && a.line < n
    requires OnlyWanted(log, hint) && hint(a.addr) != RENDER_NOTHING
    ensures LinesIncrease(log + [a]) && InLines(log + [a], n) && OnlyWanted(log + [a], hint)
    ensures OrderedUpTo(log, a.addr) && a.addr <= 0xFFFF ==> OrderedUpTo(log + [a], a.addr + a.count)
  {
  }

  class RenderText {
    const defbMaxBytesPerLine: nat := 8
    /** What is already shown by a source file, and which labels there are. */
    const lineAddressAssociation: int -> RenderHint
    const hasLabel: int -> bool
    const hasOtherLabel: int -> bool
    /** How many comments there are in a range. */
    const comments: (int, nat) -> nat

    const lines: RenderedLines
    const index: LineIndex
    /** A stack of the addresses to which instructions refer. */
    var dataReferences: seq<int>

    constructor (lineAddressAssociation: int -> RenderHint, hasLabel: int -> bool, hasOtherLabel: int -> bool,
                 comments: (int, nat) -> nat, index: LineIndex)
      requires index.Valid() && index.log == []
      ensures Valid() && fresh(lines) && this.index == index && this.lineAddressAssociation == lineAddressAssociation
    {
      this.lineAddressAssociation, this.hasLabel, this.hasOtherLabel := lineAddressAssociation, hasLabel, hasOtherLabel;
      this.comments, this.index, dataReferences := comments, index, [];
      lines := new RenderedLines();
    }

    ghost predicate Valid()
      reads index, lines
    {
      && index.Valid() && LinesIncrease(index.log) && InLines(index.log, |lines.lines|)
      && OnlyWanted(index.log, lineAddressAssociation)
    }

    /** Adds a line that shows an address. */
    method AddAddressLine(addr64k: int, bytesCount: nat)
      requires Valid() && lineAddressAssociation(addr64k) != RENDER_NOTHING
      modifies lines, index
      ensures Valid() && |lines.lines| == old(|lines.lines|) + 1
      ensures index.log == old(index.log) + [Association(old(|lines.lines|), addr64k, bytesCount)]
      ensures OrderedUpTo(old(index.log), addr64k) && addr64k <= 0xFFFF ==> OrderedUpTo(index.log, addr64k + bytesCount)
    {
      lines.AddLine();
      OneMore(index.log, Association(|lines.lines| - 1, addr64k, bytesCount), |lines.lines|, lineAddressAssociation);
      index.Associate(|lines.lines| - 1, addr64k, bytesCount);
    }

    /** Adds a line that shows no address. */
    method AddTextLine()
      requires Valid()
      modifies lines
      ensures Valid() && |lines.lines| == old(|lines.lines|) + 1
    {
      lines.AddLine();
    }

    method AddNewline()
      requires Valid()
      modifies lines
      ensures Valid() && |lines.lines| >= old(|lines.lines|)
    {
      lines.AddNewline();
    }

    function Last(): Option<int>
      reads this
    {
      LastOf(dataReferences)
    }

    /** Does nothing if there is nothing to pop. */
    method Pop() returns (top: Option<int>)
      modifies this`dataReferences
      ensures top == old(Last()) && dataReferences == DropLast(old(dataReferences))
    {
      top := Last();
      if top.Some? {
        dataReferences := dataReferences[..|dataReferences| - 1];
      }
    }

    /** The first reference at or behind the area, if any. Note that the reference is
        taken off the stack if there were others before the area. */
    method FirstInArea(addr64k: int) returns (dataAddr: Option<int>)
      modifies this`dataReferences
      ensures dataAddr == LastOf(From(old(dataReferences), addr64k))
      ensures dataReferences == StackInArea(old(dataReferences), addr64k)
    {
      ghost var s := dataReferences;
      dataAddr := Last();
      ghost var popped := false;
      while dataAddr.Some? && dataAddr.value < addr64k
        invariant !popped ==> dataReferences == s && dataAddr == LastOf(s)
        invariant popped ==> Stale(s, addr64k) && if dataAddr.None? then dataReferences == [] && From(s, addr64k) == []
                             else From(dataReferences + [dataAddr.value], addr64k) == From(s, addr64k)
        decreases |dataReferences|, if dataAddr.Some? then 1 else 0
      {
        ghost var rest := dataReferences;
        dataAddr := Pop();
        popped := true;
        assert dataAddr.Some? ==> dataReferences + [dataAddr.value] == rest;
      }
    }

    /** Takes the lowest reference off the stack, and all that are the same as
        `dataAddr`. Returns the next one, which is left. */
    method SkipSame(dataAddr: int) returns (nextDataAddr: Option<int>)
      modifies this`dataReferences
      ensures dataReferences == StackBehind(old(dataReferences), dataAddr) && nextDataAddr == Last()
    {
      ghost var s := dataReferences;
      var _ := Pop();
      nextDataAddr := Last();
      while nextDataAddr == Some(dataAddr)
        invariant nextDataAddr == Last() && PopSame(dataReferences, dataAddr) == StackBehind(s, dataAddr)
        decreases |dataReferences|
      {
        var _ := Pop();
        nextDataAddr := Last();
      }
    }

    /** How many bytes to show in one line: as many as fit in the line, but only up to
        the next reference, to the end of the area, and to the first byte that is
        already shown by a source file. */
    method CountBytes(dataAddr: int, nextDataAddr: Option<int>, endAddr: int)
      returns (countBytes: nat, render: RenderHint)
      requires dataAddr < endAddr && (nextDataAddr.Some? ==> dataAddr < nextDataAddr.value)
      ensures countBytes <= defbMaxBytesPerLine && dataAddr + countBytes <= endAddr
      ensures nextDataAddr.Some? ==> dataAddr + countBytes <= nextDataAddr.value
      ensures forall b :: dataAddr <= b < dataAddr + countBytes ==> lineAddressAssociation(b) != RENDER_NOTHING
      ensures countBytes == defbMaxBytesPerLine || nextDataAddr == Some(dataAddr + countBytes)
              || dataAddr + countBytes == endAddr || lineAddressAssociation(dataAddr + countBytes) == RENDER_NOTHING
      ensures if countBytes > 0 then render == lineAddressAssociation(dataAddr)
              else lineAddressAssociation(dataAddr) == RENDER_NOTHING
    {
      countBytes := defbMaxBytesPerLine;
      if nextDataAddr.Some? && countBytes > nextDataAddr.value - dataAddr {
        countBytes := nextDataAddr.value - dataAddr;
      }
      if countBytes > endAddr - dataAddr {
        countBytes := endAddr - dataAddr;
      }
      // Check all bytes if a source file already shows them.
      render := RENDER_EVERYTHING;
      var i := 0;
      while i < countBytes
        invariant 0 <= i <= countBytes && 0 < countBytes <= defbMaxBytesPerLine && dataAddr + countBytes <= endAddr
        invariant nextDataAddr.Some? ==> dataAddr + countBytes <= nextDataAddr.value
        invariant countBytes == defbMaxBytesPerLine || nextDataAddr == Some(dataAddr + countBytes)
                  || dataAddr + countBytes == endAddr
        invariant forall b :: dataAddr <= b < dataAddr + i ==> lineAddressAssociation(b) != RENDER_NOTHING
        invariant i > 0 ==> render == lineAddressAssociation(dataAddr)
      {
        var tmpRender := lineAddressAssociation(dataAddr + i);
        if i == 0 {
          render := tmpRender;
        }
        if tmpRender == RENDER_NOTHING {
          // Show not all.
          countBytes := i;
          break;
        }
        i := i + 1;
      }
    }

    /** Whatever the number of bytes, within its limits and as large as possible, it comprises
        exactly these bytes. */
    lemma CountIsExact(dataAddr: int, nextDataAddr: Option<int>, endAddr: int, countBytes: nat)
      requires countBytes <= 8 && dataAddr + countBytes <= endAddr
      requires nextDataAddr.Some? ==> dataAddr + countBytes <= nextDataAddr.value
      requires forall b :: dataAddr <= b < dataAddr + countBytes ==> lineAddressAssociation(b) != RENDER_NOTHING
      requires countBytes == 8 || nextDataAddr == Some(dataAddr + countBytes)
               || dataAddr + countBytes == endAddr || lineAddressAssociation(dataAddr + countBytes) == RENDER_NOTHING
      ensures forall b :: dataAddr <= b < dataAddr + countBytes <==>
                InLineAt(lineAddressAssociation, dataAddr, nextDataAddr, endAddr, b)
    {
      forall b
        ensures dataAddr <= b < dataAddr + countBytes <==>
                InLineAt(lineAddressAssociation, dataAddr, nextDataAddr, endAddr, b)
      {
      }
    }

    /** Shows one line of data, possibly with a label. */
    method PrintDataLine(dataAddr: int, countBytes: nat, render: RenderHint)
      requires Valid() && countBytes > 0 && lineAddressAssociation(dataAddr) != RENDER_NOTHING
      ensures |lines.lines| == old(|lines.lines|) + 1 +
              if render == RENDER_EVERYTHING && (hasLabel(dataAddr) || hasOtherLabel(dataAddr)) then 1 else 0
      modifies lines, index
      ensures Valid() && |index.log| == |old(index.log)| + 1 && old(index.log) <= index.log
      ensures var last := index.log[|index.log| - 1]; last.addr == dataAddr && last.count == countBytes
      ensures OrderedUpTo(old(index.log), dataAddr) && dataAddr <= 0xFFFF ==>
                OrderedUpTo(index.log, dataAddr + countBytes)
    {
      if render == RENDER_EVERYTHING && (hasLabel(dataAddr) || hasOtherLabel(dataAddr)) {
        AddTextLine();
      }
      AddAddressLine(dataAddr, countBytes);
    }

    /** Shows the data from one reference on: nothing else, and only if a source file
        does not show it. */
    method PrintReference(dataAddr: int, endAddr: int) returns (nextDataAddr: Option<int>)
      requires Valid() && Descending(dataReferences) && NoneBelow(dataReferences, dataAddr)
               && dataAddr < endAddr <= MEM_SIZE
      modifies this`dataReferences, lines, index
      ensures Valid() && AddsLine(lineAddressAssociation, dataAddr, nextDataAddr, endAddr, old(index.log), index.log)
      ensures dataReferences == StackBehind(old(dataReferences), dataAddr) && nextDataAddr == Last()
      ensures OrderedUpTo(old(index.log), dataAddr) ==>
                OrderedUpTo(index.log, if nextDataAddr.Some? && nextDataAddr.value < endAddr then nextDataAddr.value
                                       else endAddr)
    {
      hide OrderedUpTo, Valid, InLineAt;
      PrintsOn(dataReferences, dataAddr, endAddr);
      nextDataAddr := SkipSame(dataAddr);
      var countBytes, render := CountBytes(dataAddr, nextDataAddr, endAddr);
      CountIsExact(dataAddr, nextDataAddr, endAddr, countBytes);
      if countBytes > 0 {
        PrintDataLine(dataAddr, countBytes, render);
      }
      OrderedLater(index.log, dataAddr + countBytes, endAddr);
      if nextDataAddr.Some? {
        OrderedLater(index.log, dataAddr + countBytes, nextDataAddr.value);
      }
    }

    /** Shows the data in an area to which there are references: exactly these, but for
        one that gets lost if references before the area are left over. */
    method PrintData(addr64k: int, dataLen: nat)
      requires Valid() && Descending(dataReferences)
      modifies this`dataReferences, lines, index
      ensures Valid() && old(index.log) <= index.log
      ensures OrderedUpTo(old(index.log), addr64k) ==> OrderedUpTo(index.log, addr64k + dataLen)
      ensures var end := AreaEnd(addr64k, dataLen);
              var victim := Victim(old(dataReferences), addr64k, end);
              && (forall r :: ShownSince(index.log, |old(index.log)|, r) <==>
                    r in old(dataReferences) && addr64k <= r < end && victim != Some(r)
                    && lineAddressAssociation(r) != RENDER_NOTHING)
              && (forall r :: r in dataReferences <==>
                    r in old(dataReferences) && addr64k <= r && end <= r && victim != Some(r))
              && Descending(dataReferences) && dataReferences == LeftBehind(old(dataReferences), addr64k, end)
      ensures DataLines(lineAddressAssociation, old(dataReferences), addr64k, AreaEnd(addr64k, dataLen),
                        index.log, |old(index.log)|)
    {
      hide OrderedUpTo, Valid, Victim, From, StackInArea, StackBehind, Prints, OnTheWay, LeftBehind, Descending,
           ShownSince, AddsLine, DataLines;
      ghost var references, hint, n := dataReferences, lineAddressAssociation, |index.log|;
      OrderedLater(index.log, addr64k, addr64k + dataLen);
      PrintsExactly(references, addr64k, AreaEnd(addr64k, dataLen));
      WayStarts(hint, references, addr64k, AreaEnd(addr64k, dataLen), index.log);
      var first := FirstInArea(addr64k);
      if first.None? {
        return;
      }
      var dataAddr := first.value;
      var endAddr := addr64k + dataLen;
      if endAddr > MEM_SIZE {
        endAddr := MEM_SIZE;
      }
      OrderedLater(index.log, addr64k, dataAddr);
      // Continue until the area is left.
      while dataAddr < endAddr
        invariant Valid() && old(index.log) <= index.log
        invariant OnTheWay(hint, references, addr64k, endAddr, index.log, n, dataReferences, dataAddr)
        invariant OrderedUpTo(old(index.log), addr64k) ==>
                    OrderedUpTo(index.log, dataAddr) && OrderedUpTo(index.log, addr64k + dataLen)
        decreases endAddr - dataAddr
      {
        ghost var before, s := index.log, dataReferences;
        WayIsOrdered(hint, references, addr64k, endAddr, index.log, n, s, dataAddr);
        var nextDataAddr := PrintReference(dataAddr, endAddr);
        WayGoesOn(hint, references, addr64k, endAddr, before, index.log, n, s, dataAddr);
        ghost var end := if nextDataAddr.Some? && nextDataAddr.value < endAddr then nextDataAddr.value else endAddr;
        OrderedLater(index.log, end, addr64k + dataLen);
        if nextDataAddr.None? {
          break;
        }
        OrderedLater(index.log, end, nextDataAddr.value);
        dataAddr := nextDataAddr.value;
      }
      if dataAddr >= endAddr {
        WayEnds(hint, references, addr64k, endAddr, index.log, n, dataReferences, dataAddr);
      }
      AddNewline();
    }

    /** Shows one instruction, with its comments and a label if there is one. */
    method RenderInstruction(addr64k: int, len: nat)
      requires Valid()
      modifies lines, index
      ensures Valid() && old(index.log) <= index.log
      ensures lineAddressAssociation(addr64k) != RENDER_NOTHING ==> Shown(index.log, addr64k, len)
      ensures forall r :: ShownSince(index.log, |old(index.log)|, r) ==> r == addr64k && len > 0
      ensures OrderedUpTo(old(index.log), addr64k) && addr64k <= 0xFFFF ==> OrderedUpTo(index.log, addr64k + len)
    {
      hide OrderedUpTo, Valid, ShownSince;
      NothingSince(index.log);
      var render := lineAddressAssociation(addr64k);
      // Only render if no source file exists with the same address.
      if render != RENDER_NOTHING {
        // First the comments.
        var n := comments(addr64k, len);
        if n > 0 {
          AddNewline();
          for i := 0 to n
            invariant Valid() && index.log == old(index.log)
          {
            AddTextLine();
          }
        }
        // Check if another label needs to be shown.
        if hasOtherLabel(addr64k) {
          AddTextLine();
        }
        AddAddressLine(addr64k, len);
        assert index.log[|index.log| - 1] == Association(index.log[|index.log| - 1].line, addr64k, len);
        OneSince(old(index.log), index.log);
      } else {
        OrderedLater(index.log, addr64k, addr64k + len);
      }
    }

    /** The label at an address has a line of its own, if a source file does not show it. */
    ghost predicate LabelIsRendered(log: seq<Association>, addr64k: int) {
      hasLabel(addr64k) && lineAddressAssociation(addr64k) == RENDER_EVERYTHING ==> Shown(log, addr64k, 0)
    }

    /** Shows the label of a node, if a source file does not. */
    method RenderLabel(addr64k: int)
      requires Valid()
      modifies lines, index
      ensures Valid() && old(index.log) <= index.log && forall r :: !ShownSince(index.log, |old(index.log)|, r)
      ensures OrderedUpTo(old(index.log), addr64k) && addr64k <= 0xFFFF ==> OrderedUpTo(index.log, addr64k)
      ensures LabelIsRendered(index.log, addr64k)
    {
      hide OrderedUpTo, Valid, ShownSince;
      NothingSince(index.log);
      if hasLabel(addr64k) && lineAddressAssociation(addr64k) == RENDER_EVERYTHING {
        AddAddressLine(addr64k, 0);
        OneSince(old(index.log), index.log);
        assert index.log[|index.log| - 1] == Association(index.log[|index.log| - 1].line, addr64k, 0);
      }
    }

    /** Shows the label and all instructions of a node, and nothing else. */
    method RenderNode(node: NodeText) returns (addr64k: int)
      requires Valid()
      modifies lines, index
      ensures Valid() && old(index.log) <= index.log && addr64k == EndOf(node)
      ensures LabelIsRendered(index.log, node.start)
      ensures forall k :: 0 <= k < |node.lengths| ==> IsRendered(index.log, node, k)
      ensures forall r :: ShownSince(index.log, |old(index.log)|, r) ==> node.start <= r < EndOf(node)
      ensures OrderedUpTo(old(index.log), node.start) && IsPlaced(node) ==> OrderedUpTo(index.log, addr64k)
    {
      hide OrderedUpTo, Valid, Shown, ShownSince;
      addr64k := node.start;
      RenderLabel(addr64k);
      for k := 0 to |node.lengths|
        invariant Valid() && old(index.log) <= index.log && addr64k == node.start + Length(node.lengths[..k])
        invariant LabelIsRendered(index.log, node.start)
        invariant forall j :: 0 <= j < k ==> IsRendered(index.log, node, j)
        invariant forall r :: ShownSince(index.log, |old(index.log)|, r) ==> node.start <= r < addr64k
        invariant OrderedUpTo(old(index.log), node.start) && IsPlaced(node) ==> OrderedUpTo(index.log, addr64k)
      {
        var len := node.lengths[k];
        ghost var before := index.log;
        PlacedAt(node, k);
        RenderInstruction(addr64k, len);
        StaysShown(before, index.log);
        assert IsRendered(index.log, node, k);
        forall j | 0 <= j < k
          ensures IsRendered(index.log, node, j)
        {
          assert IsRendered(before, node, j);
        }
        forall r
          ensures ShownSince(index.log, |old(index.log)|, r) <==>
                  ShownSince(before, |old(index.log)|, r) || ShownSince(index.log, |before|, r)
        {
          ShownBeforeOrSince(before, index.log, |old(index.log)|, r);
        }
        LengthMore(node.lengths, k);
        addr64k := addr64k + len;
      }
      assert node.lengths[..|node.lengths|] == node.lengths;
    }

    /** The references of all nodes, the highest one first. */
    method CollectReferences(nodes: seq<NodeText>)
      modifies this`dataReferences
      ensures dataReferences == SortedReferences(nodes)
    {
      var references := [];
      for i := 0 to |nodes|
        invariant references == AllReferences(nodes[..i])
      {
        references := references + nodes[i].dataReferences;
        assert nodes[..i + 1][..i] == nodes[..i];
      }
      assert nodes[..|nodes|] == nodes;
      dataReferences := SortedDown(references);
    }

    /** The label and all instructions of a node are shown. Nodes in other banks are not. */
    ghost predicate NodeIsRendered(log: seq<Association>, node: NodeText) {
      node.bankBorder ||
      (LabelIsRendered(log, node.start) && forall k :: 0 <= k < |node.lengths| ==> IsRendered(log, node, k))
    }

    lemma NodeStaysRendered(log: seq<Association>, more: seq<Association>, node: NodeText)
      requires log <= more && NodeIsRendered(log, node)
      ensures NodeIsRendered(more, node)
    {
      StaysShown(log, more);
      forall k | 0 <= k < |node.lengths| && !node.bankBorder
        ensures IsRendered(more, node, k)
      {
        assert IsRendered(log, node, k);
      }
    }

    /** Shows the data in front of a node, and the node. */
    method RenderNodeAndData(addr64k: int, node: NodeText) returns (end: int)
      requires Valid() && Descending(dataReferences) && !node.bankBorder
      modifies this`dataReferences, lines, index
      ensures Valid() && old(index.log) <= index.log
      ensures end == EndOf(node) && NodeIsRendered(index.log, node)
      ensures dataReferences == LeftInFront(old(dataReferences), addr64k, node.start) && Descending(dataReferences)
      ensures forall r :: ShownSince(index.log, |old(index.log)|, r) && !(node.start <= r < end) <==>
                lineAddressAssociation(r) != RENDER_NOTHING && ShownInFront(old(dataReferences), addr64k, node.start, r)
                && !(node.start <= r < end)
      ensures OrderedUpTo(old(index.log), addr64k) && addr64k <= node.start && IsPlaced(node) ==>
                OrderedUpTo(index.log, end)
      ensures LinesInFront(lineAddressAssociation, old(dataReferences), addr64k, node, old(index.log), index.log)
    {
      hide OrderedUpTo, Valid, IsRendered, IsPlaced, ShownSince, Victim, LeftBehind, DataLines, LinesInFront;
      ghost var n := |index.log|;
      NothingSince(index.log);
      // Show the data between the nodes.
      if node.start - addr64k > 0 {
        PrintData(addr64k, node.start - addr64k);
      }
      ghost var before := index.log;
      end := RenderNode(node);
      // Separate the nodes.
      AddNewline();
      forall r
        ensures ShownSince(index.log, n, r) <==> ShownSince(before, n, r) || ShownSince(index.log, |before|, r)
      {
        ShownBeforeOrSince(before, index.log, n, r);
      }
      FrontLines(lineAddressAssociation, old(dataReferences), addr64k, node, old(index.log), before, index.log);
    }

    /** Shows all nodes, which are sorted by their start addresses, and the data in
        between to which they refer: all of it that is not lost. */
    method RenderNodes(nodes: seq<NodeText>)
      requires Valid() && index.log == []
      modifies this`dataReferences, lines, index
      ensures Valid() && forall i :: 0 <= i < |nodes| ==> NodeIsRendered(index.log, nodes[i])
      ensures InOrder(nodes) ==> LinesIncrease(index.log) && RangesAscend(index.log)
      ensures InOrder(nodes) ==> forall r :: 0 <= r < MEM_SIZE && !InANode(nodes, r) ==>
                (ShownSince(index.log, 0, r) <==>
                 lineAddressAssociation(r) != RENDER_NOTHING && r in SortedReferences(nodes) && !IsLost(nodes, r))
      ensures InOrder(nodes) ==> LinesAreData(lineAddressAssociation, nodes, |nodes|, true, index.log)
    {
      hide OrderedUpTo, Valid, NodeIsRendered, InOrder, ShownSince, IsLost, LostInFront, LeftInFront, RunState,
           Victim, LeftBehind, DataLines, LinesAtEnd, LinesAreData, LinesInFront;
      // First get all data references.
      CollectReferences(nodes);
      var addr64k := 0;
      RunStarts(nodes);
      for i := 0 to |nodes|
        invariant Valid() && RunState(nodes, i, index.log, dataReferences, addr64k)
      {
        ghost var before, s, a := index.log, dataReferences, addr64k;
        RunIsDescending(nodes, i, before, s, a);
        if !nodes[i].bankBorder {
          addr64k := RenderNodeAndData(addr64k, nodes[i]);
          RunGoesOn(nodes, i, before, index.log, s, a);
        } else {
          RunSkips(nodes, i, before, s, a);
        }
      }
      ghost var before, s := index.log, dataReferences;
      RunIsDescending(nodes, |nodes|, before, s, addr64k);
      NothingSince(before);
      // Show the data behind the last node.
      if MEM_SIZE - addr64k > 0 {
        PrintData(addr64k, MEM_SIZE - addr64k);
      }
      EndLines(lineAddressAssociation, s, addr64k, before, index.log);
      RunEnds(nodes, before, index.log, s, addr64k);
      Increasing();
      IsAscending(index.log, addr64k);
      IsAscending(index.log, MEM_SIZE);
    }

    lemma Increasing()
      requires Valid()
      ensures LinesIncrease(index.log)
    {
    }

    /** How far the rendering has got behind the first `i` nodes. */
    ghost predicate RunState(nodes: seq<NodeText>, i: nat, log: seq<Association>, s: seq<int>, addr: int)
      requires i <= |nodes|
    {
      && Descending(s)
      && (forall j :: 0 <= j < i ==> NodeIsRendered(log, nodes[j]))
      && (InOrder(nodes) ==>
            OrderedUpTo(log, addr) && AllFrom(nodes, i, addr)
            && DataIsShown(lineAddressAssociation, nodes, i, log, s, addr)
            && LinesAreData(lineAddressAssociation, nodes, i, false, log))
    }

    lemma RunStarts(nodes: seq<NodeText>)
      ensures RunState(nodes, 0, [], SortedReferences(nodes), 0)
    {
    }

    lemma RunIsDescending(nodes: seq<NodeText>, i: nat, log: seq<Association>, s: seq<int>, addr: int)
      requires i <= |nodes| && RunState(nodes, i, log, s, addr)
      ensures Descending(s)
    {
    }

    lemma RunGoesOn(nodes: seq<NodeText>, i: nat, log: seq<Association>, more: seq<Association>, s: seq<int>, addr: int)
      requires i < |nodes| && !nodes[i].bankBorder && RunState(nodes, i, log, s, addr) && log <= more
      requires NodeIsRendered(more, nodes[i]) && Descending(LeftInFront(s, addr, nodes[i].start))
      requires var node := nodes[i];
               forall r :: ShownSince(more, |log|, r) && !(node.start <= r < EndOf(node)) <==>
                 lineAddressAssociation(r) != RENDER_NOTHING && ShownInFront(s, addr, node.start, r)
                 && !(node.start <= r < EndOf(node))
      requires LinesInFront(lineAddressAssociation, s, addr, nodes[i], log, more)
      requires OrderedUpTo(log, addr) && addr <= nodes[i].start && IsPlaced(nodes[i]) ==>
                 OrderedUpTo(more, EndOf(nodes[i]))
      ensures RunState(nodes, i + 1, more, LeftInFront(s, addr, nodes[i].start), EndOf(nodes[i]))
    {
      hide OrderedUpTo, NodeIsRendered, AllFrom, InOrder, DataIsShown, Descending, ShownSince, ShownInFront,
           LeftInFront, Length, LinesInFront, LinesAreData;
      OrderedNodes(nodes, i, addr);
      forall j | 0 <= j < i
        ensures NodeIsRendered(more, nodes[j])
      {
        NodeStaysRendered(log, more, nodes[j]);
      }
      if InOrder(nodes) {
        DataStaysShown(lineAddressAssociation, nodes, i, log, more, s, addr);
        LinesGoOn(lineAddressAssociation, nodes, i, log, more, s, addr);
      }
    }

    lemma RunSkips(nodes: seq<NodeText>, i: nat, log: seq<Association>, s: seq<int>, addr: int)
      requires i < |nodes| && nodes[i].bankBorder && RunState(nodes, i, log, s, addr)
      ensures RunState(nodes, i + 1, log, s, addr)
    {
      hide OrderedUpTo, NodeIsRendered, AllFrom, InOrder, Descending, ShownSince, LostAt, LeftAt;
      SkipBorder(nodes, i, addr);
      BorderIsRendered(log, nodes[i]);
      LeftAtNext(nodes, i, 0);
      forall r
        ensures LostAt(nodes, i + 1, r) == LostAt(nodes, i, r)
      {
        LeftAtNext(nodes, i, r);
      }
      if InOrder(nodes) {
        SameLines(lineAddressAssociation, nodes, i, log);
      }
    }

    lemma RunEnds(nodes: seq<NodeText>, log: seq<Association>, more: seq<Association>, s: seq<int>, addr: int)
      requires RunState(nodes, |nodes|, log, s, addr) && log <= more
      requires forall r :: ShownSince(more, |log|, r) <==>
                 lineAddressAssociation(r) != RENDER_NOTHING && ShownInFront(s, addr, MEM_SIZE, r)
      requires LinesAtEnd(lineAddressAssociation, s, addr, log, more)
      ensures InOrder(nodes) ==> LinesAreData(lineAddressAssociation, nodes, |nodes|, true, more)
      ensures forall i :: 0 <= i < |nodes| ==> NodeIsRendered(more, nodes[i])
      ensures InOrder(nodes) ==> forall r :: 0 <= r < MEM_SIZE && !InANode(nodes, r) ==>
                (ShownSince(more, 0, r) <==>
                 lineAddressAssociation(r) != RENDER_NOTHING && r in SortedReferences(nodes) && !IsLost(nodes, r))
      ensures InOrder(nodes) ==> OrderedUpTo(log, addr)
    {
      hide OrderedUpTo, NodeIsRendered, AllFrom, InOrder, DataIsShown, Descending, ShownSince, ShownInFront, InANode,
           IsLost, SortedReferences, LinesAtEnd, LinesAreData;
      forall i | 0 <= i < |nodes|
        ensures NodeIsRendered(more, nodes[i])
      {
        NodeStaysRendered(log, more, nodes[i]);
      }
      if InOrder(nodes) {
        forall r | 0 <= r < MEM_SIZE && !InANode(nodes, r)
          ensures ShownSince(more, 0, r) <==>
                  lineAddressAssociation(r) != RENDER_NOTHING && r in SortedReferences(nodes) && !IsLost(nodes, r)
        {
          AllDataIsShown(lineAddressAssociation, nodes, log, more, s, addr, r);
        }
        LinesEnd(lineAddressAssociation, nodes, log, more, s, addr);
      }
    }

    lemma BorderIsRendered(log: seq<Association>, node: NodeText)
      requires node.bankBorder
      ensures NodeIsRendered(log, node)
    {
    }

    /** Instruction `k` of the node is shown at its address and with its length, unless a
        source file shows it. */
    ghost predicate IsRendered(log: seq<Association>, node: NodeText, k: int)
      requires 0 <= k < |node.lengths|
    {
      var addr := node.start + Length(node.lengths[..k]);
      lineAddressAssociation(addr) == RENDER_NOTHING || Shown(log, addr, node.lengths[k])
    }
  }

  lemma IsAscending(log: seq<Association>, addr: int)
    ensures OrderedUpTo(log, addr) ==> RangesAscend(log)
  {
  }

  function EndOf(node: NodeText): int {
    node.start + Length(node.lengths)
  }

  /** The references that are left when the data in front of a node has been shown. */
  function LeftInFront(s: seq<int>, addr: int, start: int): seq<int> {
    if addr < start then LeftBehind(s, addr, AreaEnd(addr, start - addr)) else s
  }

  /** The data at `r` is shown in front of a node. */
  predicate ShownInFront(s: seq<int>, addr: int, start: int, r: int) {
    addr < start && r in s && addr <= r < AreaEnd(addr, start - addr)
    && Victim(s, addr, AreaEnd(addr, start - addr)) != Some(r)
  }

  /** The lines that have been added show data in front of the node, or start in the node. */
  ghost predicate LinesInFront(hint: int -> RenderHint, s: seq<int>, addr: int, node: NodeText,
                               log: seq<Association>, more: seq<Association>) {
    forall k :: |log| <= k < |more| && more[k].count > 0 && !(node.start <= more[k].addr < EndOf(node)) ==>
      addr < node.start && IsDataLine(hint, s, addr, AreaEnd(addr, node.start - addr), more[k])
  }

  ghost predicate LinesAtEnd(hint: int -> RenderHint, s: seq<int>, addr: int,
                             log: seq<Association>, more: seq<Association>) {
    forall k {:trigger more[k]} :: |log| <= k < |more| ==> IsDataLine(hint, s, addr, MEM_SIZE, more[k])
  }

  /** Whether the reference is lost in front of a node. */
  predicate LostInFront(s: seq<int>, addr: int, start: int, r: int) {
    addr < start && Victim(s, addr, AreaEnd(addr, start - addr)) == Some(r)
  }

  /** The reference is lost up to the first `i` nodes, or behind all of them. */
  predicate LostBy(nodes: seq<NodeText>, i: nat, atEnd: bool, r: int)
    requires i <= |nodes|
  {
    LostAt(nodes, i, r) || (atEnd && LostInFront(LeftAt(nodes, |nodes|).0, LeftAt(nodes, |nodes|).1, MEM_SIZE, r))
  }

  /** A reference that is not lost up to there. */
  predicate IsKept(nodes: seq<NodeText>, i: nat, atEnd: bool, r: int)
    requires i <= |nodes|
  {
    r in SortedReferences(nodes) && !LostBy(nodes, i, atEnd, r)
  }

  /** The byte at `b` is shown in the line of the reference `r`, which is not in a node: it is
      one of at most eight bytes, before the next reference and the next node, and no source file
      shows one of the bytes up to it. */
  ghost predicate InLineOf(hint: int -> RenderHint, nodes: seq<NodeText>, i: nat, atEnd: bool, r: int, b: int)
    requires i <= |nodes|
  {
    && IsKept(nodes, i, atEnd, r) && r <= b < r + 8 && b < MEM_SIZE
    && (forall y :: r < y <= b ==> !IsKept(nodes, i, atEnd, y))
    && (forall node <- nodes :: !node.bankBorder ==> !(r < node.start <= b))
    && forall c :: r <= c <= b ==> hint(c) != RENDER_NOTHING
  }

  /** The lines outside of the nodes show exactly the bytes that belong to their references. */
  ghost predicate LinesAreData(hint: int -> RenderHint, nodes: seq<NodeText>, i: nat, atEnd: bool,
                               log: seq<Association>)
    requires i <= |nodes|
  {
    forall a <- log :: a.count > 0 && !InANode(nodes, a.addr) ==>
      forall b :: a.addr <= b < a.addr + a.count <==> InLineOf(hint, nodes, i, atEnd, a.addr, b)
  }

  /** What is left on the stack behind the first `i` nodes, and where the rendering has
      got to. */
  function LeftAt(nodes: seq<NodeText>, i: nat): (seq<int>, int)
    requires i <= |nodes|
  {
    if i == 0 then (SortedReferences(nodes), 0)
    else
      var (s, addr) := LeftAt(nodes, i - 1);
      if nodes[i - 1].bankBorder then (s, addr) else (LeftInFront(s, addr, nodes[i - 1].start), EndOf(nodes[i - 1]))
  }

  /** Whether the reference is lost up to the first `i` nodes. */
  predicate LostAt(nodes: seq<NodeText>, i: nat, r: int)
    requires i <= |nodes|
  {
    i > 0
    && var (s, addr) := LeftAt(nodes, i - 1);
       (LostAt(nodes, i - 1, r) || (!nodes[i - 1].bankBorder && LostInFront(s, addr, nodes[i - 1].start, r)))
  }

  predicate IsLost(nodes: seq<NodeText>, r: int) {
    var (s, addr) := LeftAt(nodes, |nodes|);
    LostAt(nodes, |nodes|, r) || LostInFront(s, addr, MEM_SIZE, r)
  }

  /** The address belongs to a node that is shown. */
  ghost predicate InANode(nodes: seq<NodeText>, r: int) {
    exists node <- nodes :: !node.bankBorder && node.start <= r < EndOf(node)
  }

  /** Of the data to which there are references, exactly that in front of `addr` that is
      not lost is shown. The rest that is not lost is on the stack. */
  ghost predicate DataIsShown(hint: int -> RenderHint, nodes: seq<NodeText>, i: nat,
                              log: seq<Association>, s: seq<int>, addr: int)
    requires i <= |nodes|
  {
    && LeftAt(nodes, i) == (s, addr)
    && forall r :: 0 <= r && !InANode(nodes, r) ==>
         && (ShownSince(log, 0, r) <==>
             hint(r) != RENDER_NOTHING && r < addr && r in SortedReferences(nodes) && !LostAt(nodes, i, r))
         && (r >= addr ==> (r in s <==> r in SortedReferences(nodes) && !LostAt(nodes, i, r)))
  }

  lemma NothingSince(log: seq<Association>)
    ensures forall r :: !ShownSince(log, |log|, r)
  {
  }

  lemma OneSince(log: seq<Association>, more: seq<Association>)
    requires |more| == |log| + 1
    ensures var last := more[|log|]; forall r :: ShownSince(more, |log|, r) <==> r == last.addr && last.count > 0
  {
    if more[|log|].count > 0 {
      assert ShownSince(more, |log|, more[|log|].addr);
    }
  }

  lemma VictimIs(s: seq<int>, addr: int, endAddr: int)
    requires Descending(s)
    ensures match Victim(s, addr, endAddr) case None => true case Some(v) => v in s && v >= addr
  {
    hide Stale;
    FromIs(s, addr);
  }

  /** What is printed in front of a node. */
  lemma DataInFront(s: seq<int>, addr: int, start: int, r: int)
    requires Descending(s) && addr <= start <= MEM_SIZE
    ensures ShownInFront(s, addr, start, r) <==> r in s && addr <= r < start && !LostInFront(s, addr, start, r)
    ensures r >= start ==> (r in LeftInFront(s, addr, start) <==> r in s && !LostInFront(s, addr, start, r))
    ensures LostInFront(s, addr, start, r) ==> r in s && r >= addr
    ensures r in LeftInFront(s, addr, start) ==> r in s && (addr < start ==> r >= start)
    ensures Descending(LeftInFront(s, addr, start))
  {
    hide Victim, LeftBehind, Prints, Descending;
    if addr < start {
      PrintsIff(s, addr, start, r);
      VictimIs(s, addr, start);
    }
  }

  lemma LeftAtNext(nodes: seq<NodeText>, i: nat, r: int)
    requires i < |nodes|
    ensures var (s, addr) := LeftAt(nodes, i);
            && LeftAt(nodes, i + 1) ==
               (if nodes[i].bankBorder then (s, addr) else (LeftInFront(s, addr, nodes[i].start), EndOf(nodes[i])))
            && (LostAt(nodes, i + 1, r) <==>
                LostAt(nodes, i, r) || (!nodes[i].bankBorder && LostInFront(s, addr, nodes[i].start, r)))
  {
    hide LeftInFront, LostInFront;
  }

  /** Showing a node, and the data in front of it, keeps what is known of the data. */
  lemma DataStaysShown(hint: int -> RenderHint, nodes: seq<NodeText>, i: nat,
                       log: seq<Association>, more: seq<Association>, s: seq<int>, addr: int)
    requires i < |nodes| && !nodes[i].bankBorder && addr <= nodes[i].start <= MEM_SIZE
    requires DataIsShown(hint, nodes, i, log, s, addr) && Descending(s) && log <= more
    requires var node := nodes[i];
             forall r :: ShownSince(more, |log|, r) && !(node.start <= r < EndOf(node)) <==>
               hint(r) != RENDER_NOTHING && ShownInFront(s, addr, node.start, r) && !(node.start <= r < EndOf(node))
    ensures DataIsShown(hint, nodes, i + 1, more, LeftInFront(s, addr, nodes[i].start), EndOf(nodes[i]))
  {
    hide ShownSince, ShownInFront, LeftInFront, LostInFront, LostAt, LeftAt, SortedReferences, Descending, Length;
    var node := nodes[i];
    LeftAtNext(nodes, i, 0);
    forall r | 0 <= r && !InANode(nodes, r)
      ensures ShownSince(more, 0, r) <==>
              hint(r) != RENDER_NOTHING && r < EndOf(node) && r in SortedReferences(nodes) && !LostAt(nodes, i + 1, r)
      ensures r >= EndOf(node) ==>
                (r in LeftInFront(s, addr, node.start) <==> r in SortedReferences(nodes) && !LostAt(nodes, i + 1, r))
    {
      assert node in nodes && !(node.start <= r < EndOf(node));
      ShownBeforeOrSince(log, more, 0, r);
      DataInFront(s, addr, node.start, r);
      LeftAtNext(nodes, i, r);
    }
  }

  /** The nodes before the i-th one end where the rendering has got to: one of them exactly
      there, if any. */
  lemma {:induction false} NodesBefore(nodes: seq<NodeText>, i: nat)
    requires i <= |nodes| && InOrder(nodes)
    ensures var addr := LeftAt(nodes, i).1;
            && (forall j :: 0 <= j < i && !nodes[j].bankBorder ==> EndOf(nodes[j]) <= addr)
            && (addr == 0 || exists node :: node in nodes && !node.bankBorder && EndOf(node) == addr)
  {
    if i > 0 {
      NodesBefore(nodes, i - 1);
      LeftAtNext(nodes, i - 1, 0);
    }
  }

  /** Between the nodes, from `addr` up to `end`: which references are left there is what the
      stack says. */
  ghost predicate IsGap(nodes: seq<NodeText>, i: nat, j: nat, atEnd: bool, s: seq<int>, addr: int, end: int)
    requires i <= |nodes| && j <= |nodes|
  {
    && (forall y :: y < addr ==> (IsKept(nodes, j, atEnd, y) <==> IsKept(nodes, i, false, y)))
    && (forall y :: addr <= y < end ==> (IsKept(nodes, j, atEnd, y) <==> IsLeft(s, addr, end, y)))
    && (forall node <- nodes :: !node.bankBorder ==> node.start <= addr || end <= node.start)
    && (forall r :: 0 <= r < addr && !InANode(nodes, r) ==>
          exists node <- nodes :: !node.bankBorder && r < node.start <= addr)
    && (end == MEM_SIZE || exists node <- nodes :: !node.bankBorder && node.start == end)
  }

  lemma GapIsFree(nodes: seq<NodeText>, i: nat, addr: int, end: int)
    requires i <= |nodes| && InOrder(nodes) && LeftAt(nodes, i).1 == addr
    requires forall j :: i <= j < |nodes| && !nodes[j].bankBorder ==> end <= nodes[j].start
    ensures forall node <- nodes :: !node.bankBorder ==> EndOf(node) <= addr || end <= node.start
    ensures forall y :: addr <= y < end ==> !InANode(nodes, y)
    ensures forall r :: 0 <= r < addr && !InANode(nodes, r) ==>
              exists node <- nodes :: !node.bankBorder && r < node.start <= addr
  {
    hide LeftAt, IsPlaced;
    NodesBefore(nodes, i);
    forall node | node in nodes && !node.bankBorder
      ensures EndOf(node) <= addr || end <= node.start
    {
      var j :| 0 <= j < |nodes| && nodes[j] == node;
    }
  }

  lemma LinesGoOn(hint: int -> RenderHint, nodes: seq<NodeText>, i: nat, log: seq<Association>, more: seq<Association>,
                  s: seq<int>, addr: int)
    requires i < |nodes| && !nodes[i].bankBorder && InOrder(nodes) && AllFrom(nodes, i, addr) && OrderedUpTo(log, addr)
    requires DataIsShown(hint, nodes, i, log, s, addr) && LinesAreData(hint, nodes, i, false, log) && Descending(s)
    requires LinesInFront(hint, s, addr, nodes[i], log, more) && log <= more
    ensures LinesAreData(hint, nodes, i + 1, false, more)
  {
    hide DataIsShown, LinesAreData, Descending, IsDataLine, InANode, Length;
    var node := nodes[i];
    OrderedNodes(nodes, i, addr);
    NodeGap(hint, nodes, i, log, s, addr);
    forall k | |log| <= k < |more| && more[k].count > 0 && !InANode(nodes, more[k].addr)
      ensures IsDataLine(hint, s, addr, node.start, more[k])
    {
      OutsideOfNode(nodes, i, more[k].addr);
    }
    LinesStayData(hint, nodes, i, i + 1, false, s, addr, node.start, log, more);
  }

  lemma LinesEnd(hint: int -> RenderHint, nodes: seq<NodeText>, log: seq<Association>, more: seq<Association>,
                 s: seq<int>, addr: int)
    requires InOrder(nodes) && OrderedUpTo(log, addr) && log <= more
    requires DataIsShown(hint, nodes, |nodes|, log, s, addr) && LinesAreData(hint, nodes, |nodes|, false, log)
    requires LinesAtEnd(hint, s, addr, log, more) && Descending(s)
    ensures LinesAreData(hint, nodes, |nodes|, true, more)
  {
    hide DataIsShown, LinesAreData, Descending, IsDataLine, InANode, InOrder;
    EndGap(hint, nodes, log, s, addr);
    LinesStayData(hint, nodes, |nodes|, |nodes|, true, s, addr, MEM_SIZE, log, more);
  }

  /** Lines of data, and behind them lines that start in the node. */
  lemma FrontLines(hint: int -> RenderHint, s: seq<int>, addr: int, node: NodeText,
                   log: seq<Association>, mid: seq<Association>, more: seq<Association>)
    requires log <= mid <= more && (addr >= node.start ==> mid == log)
    requires addr < node.start ==> DataLines(hint, s, addr, AreaEnd(addr, node.start - addr), mid, |log|)
    requires forall r :: ShownSince(more, |mid|, r) ==> node.start <= r < EndOf(node)
    ensures LinesInFront(hint, s, addr, node, log, more)
  {
    hide IsDataLine;
    forall k | |log| <= k < |more| && more[k].count > 0 && !(node.start <= more[k].addr < EndOf(node))
      ensures addr < node.start && IsDataLine(hint, s, addr, AreaEnd(addr, node.start - addr), more[k])
    {
      assert k >= |mid| ==> ShownSince(more, |mid|, more[k].addr);
      assert mid[k] == more[k];
    }
  }

  lemma EndLines(hint: int -> RenderHint, s: seq<int>, addr: int, log: seq<Association>, more: seq<Association>)
    requires if addr < MEM_SIZE then DataLines(hint, s, addr, AreaEnd(addr, MEM_SIZE - addr), more, |log|)
             else more == log
    ensures LinesAtEnd(hint, s, addr, log, more)
  {
    hide IsDataLine;
  }

  lemma SameLine(hint: int -> RenderHint, nodes: seq<NodeText>, i: nat, r: int, b: int)
    requires i < |nodes| && forall y :: LostAt(nodes, i + 1, y) == LostAt(nodes, i, y)
    ensures InLineOf(hint, nodes, i + 1, false, r, b) <==> InLineOf(hint, nodes, i, false, r, b)
  {
    hide LostAt, SortedReferences, LeftAt;
    assert forall y {:trigger IsKept(nodes, i, false, y)} {:trigger IsKept(nodes, i + 1, false, y)} ::
        IsKept(nodes, i + 1, false, y) == IsKept(nodes, i, false, y);
  }

  lemma SameLines(hint: int -> RenderHint, nodes: seq<NodeText>, i: nat, log: seq<Association>)
    requires i < |nodes| && forall r :: LostAt(nodes, i + 1, r) == LostAt(nodes, i, r)
    requires LinesAreData(hint, nodes, i, false, log)
    ensures LinesAreData(hint, nodes, i + 1, false, log)
  {
    hide LostAt, InANode, InLineOf;
    var j := i + 1;
    forall a, b | a in log && a.count > 0 && !InANode(nodes, a.addr)
      ensures a.addr <= b < a.addr + a.count <==> InLineOf(hint, nodes, j, false, a.addr, b)
    {
      SameLine(hint, nodes, i, a.addr, b);
    }
  }

  lemma OutsideOfNode(nodes: seq<NodeText>, i: nat, r: int)
    requires i < |nodes| && !nodes[i].bankBorder && !InANode(nodes, r)
    ensures !(nodes[i].start <= r < EndOf(nodes[i]))
  {
    assert nodes[i] in nodes;
  }

  lemma NodeGap(hint: int -> RenderHint, nodes: seq<NodeText>, i: nat, log: seq<Association>, s: seq<int>, addr: int)
    requires i < |nodes| && !nodes[i].bankBorder && 0 <= addr <= nodes[i].start <= MEM_SIZE
    requires InOrder(nodes) && DataIsShown(hint, nodes, i, log, s, addr) && Descending(s)
    ensures IsGap(nodes, i, i + 1, false, s, addr, nodes[i].start)
  {
    hide ShownSince, ShownInFront, LostAt, LeftAt, SortedReferences, Descending, Length, Victim, InANode;
    var start := nodes[i].start;
    GapIsFree(nodes, i, addr, start);
    forall y
      ensures y < addr ==> (IsKept(nodes, i + 1, false, y) <==> IsKept(nodes, i, false, y))
      ensures addr <= y < start ==> (IsKept(nodes, i + 1, false, y) <==> IsLeft(s, addr, start, y))
    {
      LeftAtNext(nodes, i, y);
      DataInFront(s, addr, start, y);
    }
    assert nodes[i] in nodes;
  }

  lemma EndGap(hint: int -> RenderHint, nodes: seq<NodeText>, log: seq<Association>, s: seq<int>, addr: int)
    requires 0 <= addr && InOrder(nodes) && DataIsShown(hint, nodes, |nodes|, log, s, addr) && Descending(s)
    ensures IsGap(nodes, |nodes|, |nodes|, true, s, addr, MEM_SIZE)
  {
    hide ShownSince, ShownInFront, LostAt, LeftAt, SortedReferences, Descending, Length, Victim, InANode;
    GapIsFree(nodes, |nodes|, addr, MEM_SIZE);
    forall y
      ensures y < addr ==> (IsKept(nodes, |nodes|, true, y) <==> IsKept(nodes, |nodes|, false, y))
      ensures addr <= y < MEM_SIZE ==> (IsKept(nodes, |nodes|, true, y) <==> IsLeft(s, addr, MEM_SIZE, y))
    {
      if addr <= MEM_SIZE {
        DataInFront(s, addr, MEM_SIZE, y);
      } else {
        NothingInFront(s, addr, y);
      }
    }
  }

  /** A line in front of the gap still shows what belongs to its reference ... */
  lemma OldLineStays(hint: int -> RenderHint, nodes: seq<NodeText>, i: nat, j: nat, atEnd: bool, s: seq<int>,
                     addr: int, end: int, r: int, b: int)
    requires i <= |nodes| && j <= |nodes| && IsGap(nodes, i, j, atEnd, s, addr, end)
    requires 0 <= r < addr && !InANode(nodes, r)
    ensures InLineOf(hint, nodes, j, atEnd, r, b) <==> InLineOf(hint, nodes, i, false, r, b)
  {
    hide IsKept, IsLeft, InANode;
    var node :| node in nodes && !node.bankBorder && r < node.start <= addr;
    assert b >= addr ==> r < node.start <= b;
  }

  /** ... and so does one in the gap. */
  lemma NewLineIsData(hint: int -> RenderHint, nodes: seq<NodeText>, i: nat, j: nat, atEnd: bool, s: seq<int>,
                      addr: int, end: int, r: int, b: int)
    requires i <= |nodes| && j <= |nodes| && IsGap(nodes, i, j, atEnd, s, addr, end)
    requires addr <= r < end <= MEM_SIZE
    ensures InLineOf(hint, nodes, j, atEnd, r, b) <==> InDataLine(hint, s, addr, end, r, b)
  {
    hide IsKept, IsLeft, InANode;
    if b >= end && end < MEM_SIZE {
      var node :| node in nodes && !node.bankBorder && node.start == end;
    }
  }

  /** New lines in a gap. */
  lemma LinesStayData(hint: int -> RenderHint, nodes: seq<NodeText>, i: nat, j: nat, atEnd: bool, s: seq<int>,
                      addr: int, end: int, log: seq<Association>, more: seq<Association>)
    requires i <= |nodes| && j <= |nodes| && IsGap(nodes, i, j, atEnd, s, addr, end) && end <= MEM_SIZE
    requires LinesAreData(hint, nodes, i, false, log) && OrderedUpTo(log, addr) && log <= more
    requires forall k :: |log| <= k < |more| && more[k].count > 0 && !InANode(nodes, more[k].addr) ==>
               IsDataLine(hint, s, addr, end, more[k])
    ensures LinesAreData(hint, nodes, j, atEnd, more)
  {
    hide IsGap, InLineOf, InANode;
    forall a, b | a in more && a.count > 0 && !InANode(nodes, a.addr)
      ensures a.addr <= b < a.addr + a.count <==> InLineOf(hint, nodes, j, atEnd, a.addr, b)
    {
      var k :| 0 <= k < |more| && more[k] == a;
      if k < |log| {
        assert log[k] == a && a in log;
        OldLineStays(hint, nodes, i, j, atEnd, s, addr, end, a.addr, b);
      } else {
        assert InDataLine(hint, s, addr, end, a.addr, a.addr);
        NewLineIsData(hint, nodes, i, j, atEnd, s, addr, end, a.addr, b);
      }
    }
  }

  /** In the end, all data that is not lost is shown. */
  lemma AllDataIsShown(hint: int -> RenderHint, nodes: seq<NodeText>,
                       log: seq<Association>, more: seq<Association>, s: seq<int>, addr: int, r: int)
    requires DataIsShown(hint, nodes, |nodes|, log, s, addr) && Descending(s) && log <= more
    requires ShownSince(more, |log|, r) <==> hint(r) != RENDER_NOTHING && ShownInFront(s, addr, MEM_SIZE, r)
    requires 0 <= r < MEM_SIZE && !InANode(nodes, r)
    ensures ShownSince(more, 0, r) <==> hint(r) != RENDER_NOTHING && r in SortedReferences(nodes) && !IsLost(nodes, r)
  {
    hide ShownSince, ShownInFront, LostInFront, LostAt, LeftAt, SortedReferences, Descending;
    ShownBeforeOrSince(log, more, 0, r);
    if addr <= MEM_SIZE {
      DataInFront(s, addr, MEM_SIZE, r);
    } else {
      NothingInFront(s, addr, r);
    }
  }

  lemma NothingInFront(s: seq<int>, addr: int, r: int)
    requires addr > MEM_SIZE
    ensures !ShownInFront(s, addr, MEM_SIZE, r) && !LostInFront(s, addr, MEM_SIZE, r)
  {
  }

  lemma OrderedLater(log: seq<Association>, a: int, b: int)
    requires a <= b
    ensures OrderedUpTo(log, a) ==> OrderedUpTo(log, b)
  {
  }

  /** The node starts in the 64K, and so do all of its instructions. */
  ghost predicate IsPlaced(node: NodeText) {
    0 <= node.start <= 0xFFFF && forall k :: 0 <= k < |node.lengths| ==>
      node.start + Length(node.lengths[..k]) <= 0xFFFF
  }

  lemma PlacedAt(node: NodeText, k: nat)
    requires k < |node.lengths|
    ensures IsPlaced(node) ==> node.start + Length(node.lengths[..k]) <= 0xFFFF
  {
  }

  lemma LengthMore(lengths: seq<nat>, k: nat)
    requires k < |lengths|
    ensures Length(lengths[..k + 1]) == Length(lengths[..k]) + lengths[k]
  {
    assert lengths[..k + 1][..k] == lengths[..k];
  }

  /** The shown nodes are sorted and do not overlap. */
  ghost predicate InOrder(nodes: seq<NodeText>) {
    && (forall i :: 0 <= i < |nodes| && !nodes[i].bankBorder ==> IsPlaced(nodes[i]))
    && forall i, j :: 0 <= i < j < |nodes| && !nodes[i].bankBorder && !nodes[j].bankBorder ==>
         nodes[i].start + Length(nodes[i].lengths) <= nodes[j].start
  }

  /** The nodes from `i` on start at an address or behind it. */
  ghost predicate AllFrom(nodes: seq<NodeText>, i: nat, addr: int) {
    forall j :: i <= j < |nodes| && !nodes[j].bankBorder ==> addr <= nodes[j].start
  }

  lemma OrderedNodes(nodes: seq<NodeText>, i: nat, addr: int)
    requires i < |nodes| && !nodes[i].bankBorder
    ensures AllFrom(nodes, i, addr) ==> addr <= nodes[i].start
    ensures InOrder(nodes) ==> IsPlaced(nodes[i]) && AllFrom(nodes, i + 1, nodes[i].start + Length(nodes[i].lengths))
  {
  }

  lemma SkipBorder(nodes: seq<NodeText>, i: nat, addr: int)
    requires i < |nodes| && nodes[i].bankBorder
    ensures AllFrom(nodes, i, addr) ==> AllFrom(nodes, i + 1, addr)
  {
  }

  /** Which byte has a data line, when the nodes have been rendered: b lies in a line outside of
      the nodes if and only if it belongs to the line of a reference that is not lost. */
  lemma DataByteIff(hint: int -> RenderHint, nodes: seq<NodeText>, log: seq<Association>, b: int)
    requires LinesAreData(hint, nodes, |nodes|, true, log) && RangesAscend(log)
    requires forall r :: 0 <= r < MEM_SIZE && !InANode(nodes, r) ==>
               (ShownSince(log, 0, r) <==>
                hint(r) != RENDER_NOTHING && r in SortedReferences(nodes) && !IsLost(nodes, r))
    ensures (exists a <- log :: !InANode(nodes, a.addr) && a.addr <= b < a.addr + a.count) <==>
            exists r :: 0 <= r && !InANode(nodes, r) && InLineOf(hint, nodes, |nodes|, true, r, b)
  {
    hide InANode, LostAt, LostInFront, SortedReferences;
    if exists a <- log :: !InANode(nodes, a.addr) && a.addr <= b < a.addr + a.count {
      var a :| a in log && !InANode(nodes, a.addr) && a.addr <= b < a.addr + a.count;
      assert InLineOf(hint, nodes, |nodes|, true, a.addr, b);
    }
    if r :| 0 <= r && !InANode(nodes, r) && InLineOf(hint, nodes, |nodes|, true, r, b) {
      assert hint(r) != RENDER_NOTHING && ShownSince(log, 0, r);
      var i :| 0 <= i < |log| && log[i].addr == r && log[i].count > 0;
      assert log[i] in log;
    }
  }

  /** Such a byte is found in that line, which leads back to the reference. */
  lemma DataRoundTrip(index: LineIndex, hint: int -> RenderHint, nodes: seq<NodeText>, r: int, b: int)
    requires index.Valid() && KeepsAddress(index.createLongAddress)
    requires LinesIncrease(index.log) && RangesAscend(index.log)
    requires LinesAreData(hint, nodes, |nodes|, true, index.log) && ShownSince(index.log, 0, r)
    requires 0 <= r && !InANode(nodes, r) && InLineOf(hint, nodes, |nodes|, true, r, b)
    ensures var long := index.createLongAddress;
            && index.GetLineForAddress(long(b)).Some?
            && index.GetAddressForLine(index.GetLineForAddress(long(b)).value) == long(r)
  {
    hide InANode, IsKept;
    var i :| 0 <= i < |index.log| && index.log[i].addr == r && index.log[i].count > 0;
    assert index.log[i] in index.log;
    RoundTrip(index, i, b);
  }

  /** Nothing is lost as long as no reference leads into a node that is shown. */
  lemma NothingIsLost(nodes: seq<NodeText>, r: int)
    requires InOrder(nodes) && forall x :: x in SortedReferences(nodes) ==> x >= 0 && !InANode(nodes, x)
    ensures !IsLost(nodes, r)
  {
    hide InOrder, LostAt, InANode, LeftAt;
    NothingIsLostAt(nodes, |nodes|, r);
  }

  lemma {:induction false} NothingIsLostAt(nodes: seq<NodeText>, i: nat, r: int)
    requires i <= |nodes| && InOrder(nodes)
    requires forall x :: x in SortedReferences(nodes) ==> x >= 0 && !InANode(nodes, x)
    ensures !LostAt(nodes, i, r)
    ensures var (s, addr) := LeftAt(nodes, i);
            && Descending(s) && NoneBelow(s, addr) && AllFrom(nodes, i, addr)
            && forall x :: x in s ==> x in SortedReferences(nodes)
  {
    hide LostAt, LeftAt, InANode, InOrder, SortedReferences, AllFrom, Descending, LeftInFront, LostInFront, Length;
    if i == 0 {
      LeftAtStart(nodes, r);
    } else {
      NothingIsLostAt(nodes, i - 1, r);
      LeftAtNext(nodes, i - 1, r);
      var (s, addr) := LeftAt(nodes, i - 1);
      if nodes[i - 1].bankBorder {
        SkipBorder(nodes, i - 1, addr);
      } else {
        OrderedNodes(nodes, i - 1, addr);
        NothingIsLostInFront(nodes, i - 1, s, addr, r);
      }
    }
  }

  lemma LeftAtStart(nodes: seq<NodeText>, r: int)
    requires InOrder(nodes) && forall x :: x in SortedReferences(nodes) ==> x >= 0
    ensures !LostAt(nodes, 0, r) && LeftAt(nodes, 0) == (SortedReferences(nodes), 0)
    ensures NoneBelow(SortedReferences(nodes), 0) && AllFrom(nodes, 0, 0)
  {
    var s := SortedReferences(nodes);
    assert forall j :: 0 <= j < |s| ==> s[j] in s;
  }

  lemma NothingIsLostInFront(nodes: seq<NodeText>, i: nat, s: seq<int>, addr: int, r: int)
    requires i < |nodes| && !nodes[i].bankBorder && addr <= nodes[i].start && IsPlaced(nodes[i])
    requires Descending(s) && NoneBelow(s, addr)
    requires forall x :: x in s ==> x in SortedReferences(nodes) && !InANode(nodes, x)
    ensures var t := LeftInFront(s, addr, nodes[i].start);
            && !LostInFront(s, addr, nodes[i].start, r)
            && Descending(t) && NoneBelow(t, EndOf(nodes[i])) && forall x :: x in t ==> x in SortedReferences(nodes)
  {
    hide SortedReferences, LeftInFront, Length;
    var t := LeftInFront(s, addr, nodes[i].start);
    forall x | x in t
      ensures x in s && x >= EndOf(nodes[i])
    {
      DataInFront(s, addr, nodes[i].start, x);
      assert nodes[i] in nodes && x >= nodes[i].start;
    }
    assert forall j :: 0 <= j < |t| ==> t[j] in t;
    DataInFront(s, addr, nodes[i].start, r);
  }

  /** What a breakpoint needs: the line of a shown instruction, wherever one asks for it,
      leads back to its address, and all of its bytes lead to that line. */
  lemma ShownRoundTrip(index: LineIndex, addr: int, len: nat, b: int)
    requires index.Valid() && KeepsAddress(index.createLongAddress)
    requires LinesIncrease(index.log) && RangesAscend(index.log) && Shown(index.log, addr, len)
    requires addr <= b < addr + len && b <= 0xFFFF
    ensures var long := index.createLongAddress;
            && index.GetLineForAddress(long(addr)).Some?
            && index.GetLineForAddress(long(b)) == index.GetLineForAddress(long(addr))
            && index.GetAddressForLine(index.GetLineForAddress(long(addr)).value) == long(addr)
  {
    var i :| 0 <= i < |index.log| && index.log[i].addr == addr && index.log[i].count == len;
    RoundTrip(index, i, addr);
    RoundTrip(index, i, b);
  }
}
