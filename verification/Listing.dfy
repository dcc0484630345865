/** The text of a flow graph: its nodes are shown in order, and breakpoints work for all
    of their instructions. */
module Listings {
  import opened Z80Image
  import opened NodeLayout
  import opened AsmNodes
  import opened Sequences
  import opened LineIndexes
  import opened RenderTexts
  import opened SmartDisassembly

  function Lengths(codes: seq<Opcode>): seq<nat> {
    seq(|codes|, i requires 0 <= i < |codes| => codes[i].length)
  }

  function TextOf(n: AsmNode): NodeText
    reads n`instructions, n`dataReferences
  {
    NodeText(n.start, n.bankBorder, Lengths(n.instructions), n.dataReferences)
  }

  function Texts(shown: seq<AsmNode>): (r: seq<NodeText>)
    reads shown`instructions, shown`dataReferences
    ensures |r| == |shown| && forall i :: 0 <= i < |shown| ==> r[i] == TextOf(shown[i])
  {
    if shown == [] then [] else Texts(shown[..|shown| - 1]) + [TextOf(shown[|shown| - 1])]
  }

  lemma {:induction false} LengthJoins(s: seq<nat>, t: seq<nat>)
    ensures Length(s + t) == Length(s) + Length(t)
  {
    if t == [] {
      assert s + t == s;
    } else {
      LengthJoins(s, t[..|t| - 1]);
      assert (s + t)[..|s + t| - 1] == s + t[..|t| - 1];
    }
  }

  /** On a line, the lengths of the instructions add up to their addresses. */
  lemma {:induction false} LineLengths(l: Layout, t: seq<int>, k: nat)
    requires l.IsLine(t) && k < |t|
    ensures t[0] + Length(Lengths(l.Codes(t))[..k]) == t[k]
  {
    if k > 0 {
      LineLengths(l, t, k - 1);
      assert l.Follows(t, k);
      LengthMore(Lengths(l.Codes(t)), k - 1);
    }
  }

  /** The skipped bytes reach up to the address where the execution resumes. */
  lemma {:induction false} SkipLengths(l: Layout, a: int, k: nat)
    requires l.img.Valid() && k <= |l.SkipCodes(a)|
    ensures a + Length(Lengths(l.SkipCodes(a))[..k]) <= l.img.SkipOver(a)
    ensures k == |l.SkipCodes(a)| ==> a + Length(Lengths(l.SkipCodes(a))[..k]) == l.img.SkipOver(a)
    ensures k < |l.SkipCodes(a)| ==> l.img.SkipOver(a) < MEM_SIZE
    decreases k
  {
    if k > 0 {
      var next := a + l.img.skips[a];
      SkipLengths(l, next, k - 1);
      assert Lengths(l.SkipCodes(a))[..k] == [l.img.skips[a]] + Lengths(l.SkipCodes(next))[..k - 1];
      LengthJoins([l.img.skips[a]], Lengths(l.SkipCodes(next))[..k - 1]);
    }
  }

  lemma TrailInMemory(l: Layout, n: int, k: nat)
    requires 0 <= n < MEM_SIZE && k < |l.NodeTrail(n)|
    ensures 0 <= l.NodeTrail(n)[k] < MEM_SIZE
  {
    l.TrailIsLine(n, l.Slot(n));
    if k > 0 {
      l.LineAscends(l.NodeTrail(n), 0, k);
      l.TrailStep(n, l.Slot(n), k - 1);
      l.GoesOnInMemory(l.NodeTrail(n)[k - 1], l.Slot(n));
    }
  }

  /** The pseudo instructions behind the instructions of a trail. */
  function Skipped(l: Layout, t: seq<int>): seq<nat>
    requires l.img.Valid() && |t| > 0
  {
    var op := l.img.decode(t[|t| - 1]);
    if op.branchAddress && !op.stop then Lengths(l.SkipCodes(l.img.Next(t[|t| - 1]))) else []
  }

  lemma CodesSplit(l: Layout, t: seq<int>)
    requires l.img.Valid() && |t| > 0
    ensures Lengths(l.NodeCodes(t)) == Lengths(l.Codes(t)) + Skipped(l, t)
  {
  }

  lemma SkippedLengths(l: Layout, t: seq<int>, k: nat)
    requires l.img.Valid() && |t| > 0 && k <= |Skipped(l, t)|
    ensures var next := l.img.Next(t[|t| - 1]);
            && (k == |Skipped(l, t)| ==> next + Length(Skipped(l, t)[..k]) == l.img.EndOfLast(t[|t| - 1]))
            && (k < |Skipped(l, t)| ==> next + Length(Skipped(l, t)[..k]) < MEM_SIZE)
  {
    if Skipped(l, t) != [] {
      SkipLengths(l, l.img.Next(t[|t| - 1]), k);
    } else {
      var op := l.img.decode(t[|t| - 1]);
      assert op.branchAddress && !op.stop ==> |Lengths(l.SkipCodes(l.img.Next(t[|t| - 1])))| == 0;
    }
  }

  lemma WholeLength(l: Layout, n: int)
    requires l.img.Valid()
    ensures n + Length(Lengths(l.Codes(l.NodeTrail(n)))) == l.img.Next(l.Last(n))
  {
    hide Layout.Trail;
    var t := l.NodeTrail(n);
    l.TrailIsLine(n, l.Slot(n));
    LineLengths(l, t, |t| - 1);
    LengthMore(Lengths(l.Codes(t)), |t| - 1);
    assert Lengths(l.Codes(t))[..|t|] == Lengths(l.Codes(t));
  }

  /** The instructions of a node are at the addresses of its trail, and the pseudo
      instructions fill the rest of it. */
  lemma CodesOfNode(l: Layout, n: int, k: nat)
    requires l.img.Valid() && 0 <= n < MEM_SIZE && k < |l.NodeCodes(l.NodeTrail(n))|
    ensures var t, lengths := l.NodeTrail(n), Lengths(l.NodeCodes(l.NodeTrail(n)));
            && |t| <= |lengths| && n + Length(lengths[..k]) <= 0xFFFF && n + Length(lengths) == l.NodeEnd(n)
            && (k < |t| ==> n + Length(lengths[..k]) == t[k] && lengths[k] == l.img.decode(t[k]).length)
  {
    hide Layout.Trail, Skipped, Layout.NodeCodes, Image.Valid, Length;
    var t := l.NodeTrail(n);
    var codes, rest := Lengths(l.Codes(t)), Skipped(l, t);
    CodesSplit(l, t);
    WholeLength(l, n);
    SkippedLengths(l, t, |rest|);
    assert rest[..|rest|] == rest;
    LengthJoins(codes, rest);
    if k < |t| {
      assert (codes + rest)[..k] == codes[..k];
      l.TrailIsLine(n, l.Slot(n));
      LineLengths(l, t, k);
      TrailInMemory(l, n, k);
    } else {
      assert (codes + rest)[..k] == codes + rest[..k - |t|];
      LengthJoins(codes, rest[..k - |t|]);
      SkippedLengths(l, t, k - |t|);
    }
  }

  /** Some nodes of the graph, sorted, as they are collected for the text: those in the map,
      and those that stand for addresses in other banks. */
  ghost predicate Selects(d: SmartDisassembler, shown: seq<AsmNode>)
    reads d`nodes
  {
    && Distinct(shown)
    && (forall n :: n in shown ==> n.bankBorder || (n.start in d.nodes && d.nodes[n.start] == n))
    && forall i, j :: 0 <= i < j < |shown| ==> shown[i].start <= shown[j].start
  }

  /** The graph has been filled. */
  ghost predicate Complete(d: SmartDisassembler)
    reads d, d.nodes.Values
  {
    d.img.Valid() && d.NodeMap() && forall a :: a in d.nodes ==> d.Filled(d.nodes[a])
  }

  lemma TextOfNode(d: SmartDisassembler, n: int)
    requires Complete(d) && n in d.nodes
    ensures var l, text := d.CodeLayout(), TextOf(d.nodes[n]);
            && text.lengths == Lengths(l.NodeCodes(l.NodeTrail(n)))
            && text.start == n && !text.bankBorder && 0 <= n < MEM_SIZE
    ensures IsPlaced(TextOf(d.nodes[n])) && EndOf(TextOf(d.nodes[n])) == d.CodeLayout().NodeEnd(n)
    ensures n < d.CodeLayout().NodeEnd(n)
  {
    var l := d.CodeLayout();
    assert d.Filled(d.nodes[n]);
    var lengths := Lengths(l.NodeCodes(l.NodeTrail(n)));
    forall k | 0 <= k < |lengths|
      ensures n + Length(lengths[..k]) <= 0xFFFF
    {
      CodesOfNode(l, n, k);
    }
    CodesOfNode(l, n, 0);
    l.TrailBounds(n, n);
    l.LastEndsInside(n);
  }

  /** Whatever nodes of a graph are shown: as long as the byte ranges of its nodes are
      disjoint, the text is in order. */
  lemma ListingIsInOrder(d: SmartDisassembler, shown: seq<AsmNode>)
    requires Complete(d) && d.CodeLayout().NodesDisjoint() && Selects(d, shown)
    ensures InOrder(Texts(shown))
  {
    hide Complete, IsPlaced, Layout.NodeEnd, Layout.NodesDisjoint, Selects, Length;
    forall i | 0 <= i < |shown| && !shown[i].bankBorder
      ensures IsPlaced(Texts(shown)[i])
    {
      SelectedAt(d, shown, i);
      TextOfNode(d, shown[i].start);
    }
    forall i, j | 0 <= i < j < |shown| && !shown[i].bankBorder && !shown[j].bankBorder
      ensures EndOf(Texts(shown)[i]) <= Texts(shown)[j].start
    {
      SelectedAt(d, shown, i);
      SelectedAt(d, shown, j);
      SelectedInOrder(d, shown, i, j);
      TextOfNode(d, shown[i].start);
      TextOfNode(d, shown[j].start);
      CompleteImage(d);
      EndsBefore(d.CodeLayout(), shown[i].start, shown[j].start);
    }
  }

  lemma SelectedAt(d: SmartDisassembler, shown: seq<AsmNode>, i: nat)
    requires Selects(d, shown) && i < |shown| && !shown[i].bankBorder
    ensures shown[i].start in d.nodes && d.nodes[shown[i].start] == shown[i]
  {
    assert shown[i] in shown;
  }

  lemma SelectedInOrder(d: SmartDisassembler, shown: seq<AsmNode>, i: nat, j: nat)
    requires Selects(d, shown) && i < j < |shown| && !shown[i].bankBorder && !shown[j].bankBorder
    ensures shown[i].start < shown[j].start
  {
    SelectedAt(d, shown, i);
    SelectedAt(d, shown, j);
  }

  lemma EndsBefore(l: Layout, n: int, m: int)
    requires l.img.Valid() && l.NodesDisjoint() && n in l.nodes && m in l.nodes && n < m < l.NodeEnd(m)
    ensures l.NodeEnd(n) <= m
  {
    assert l.InNode(m, m) && (l.InNode(n, m) <==> m < l.NodeEnd(n));
  }

  /** One of the shown nodes contains the instruction at `a`. */
  ghost predicate IsListed(d: SmartDisassembler, shown: seq<AsmNode>, a: int)
    reads d`nodes, d`codeFirst
  {
    exists n :: n in shown && !n.bankBorder && d.CodeLayout().Owns(n.start, a)
  }

  /** When all nodes are shown, so are all CODE_FIRST instructions. */
  lemma CodeIsListed(d: SmartDisassembler, shown: seq<AsmNode>, a: int)
    requires d.NodeMap() && d.CodeLayout().Followed() && a in d.codeFirst
    requires forall n :: n in d.nodes ==> d.nodes[n] in shown
    ensures IsListed(d, shown, a)
  {
    assert d.CodeLayout().HasOwner(a);
    var n :| d.CodeLayout().Owns(n, a);
    assert d.nodes[n] in shown && d.nodes[n].start == n;
  }

  /** A node that has been rendered shows all of its instructions. */
  lemma InstructionIsShown(d: SmartDisassembler, r: RenderText, n: int, a: int)
    requires Complete(d) && n in d.nodes && a in d.CodeLayout().NodeTrail(n)
    requires r.NodeIsRendered(r.index.log, TextOf(d.nodes[n])) && r.lineAddressAssociation(a) != RENDER_NOTHING
    ensures Shown(r.index.log, a, d.img.decode(a).length) && 0 <= a < MEM_SIZE
  {
    hide Complete, Layout.Trail, Layout.NodeCodes, Shown, IsPlaced, Length;
    var l, text := d.CodeLayout(), TextOf(d.nodes[n]);
    TextOfNode(d, n);
    var k :| 0 <= k < |l.NodeTrail(n)| && l.NodeTrail(n)[k] == a;
    CompleteImage(d);
    CodesSplit(l, l.NodeTrail(n));
    CodesOfNode(l, n, k);
    TrailInMemory(l, n, k);
    assert r.IsRendered(r.index.log, text, k);
  }

  lemma CompleteImage(d: SmartDisassembler)
    requires Complete(d)
    ensures d.img.Valid()
  {
  }

  /** A breakpoint at the line of the instruction at `a` is one at `a`, and the byte at `b`
      is found in that line. */
  ghost predicate BreaksAt(index: LineIndex, a: int, b: int)
    reads index
  {
    var long := index.createLongAddress;
    && index.GetLineForAddress(long(b)).Some?
    && index.GetAddressForLine(index.GetLineForAddress(long(b)).value) == long(a)
  }

  /** Shows nodes of a graph. Breakpoints then work for all of their instructions, as far
      as no source file shows these. */
  method RenderListing(d: SmartDisassembler, shown: seq<AsmNode>, r: RenderText)
    requires Complete(d) && d.CodeLayout().NodesDisjoint() && Selects(d, shown)
    requires r.Valid() && r.index.log == [] && KeepsAddress(r.index.createLongAddress)
    modifies r`dataReferences, r.lines, r.index
    ensures r.Valid() && RangesAscend(r.index.log)
    ensures forall a, b ::
              IsListed(d, shown, a) && r.lineAddressAssociation(a) != RENDER_NOTHING && d.img.Covers(a, b)
              && b <= 0xFFFF
              ==> BreaksAt(r.index, a, b)
  {
    hide Complete, Layout.NodesDisjoint, Selects, InOrder, BreaksAt;
    ListingIsInOrder(d, shown);
    r.RenderNodes(Texts(shown));
    forall a, b |
      IsListed(d, shown, a) && r.lineAddressAssociation(a) != RENDER_NOTHING && d.img.Covers(a, b) && b <= 0xFFFF
      ensures BreaksAt(r.index, a, b)
    {
      ListedBreaks(d, shown, r, a, b);
    }
  }

  lemma ListedBreaks(d: SmartDisassembler, shown: seq<AsmNode>, r: RenderText, a: int, b: int)
    requires Complete(d) && Selects(d, shown) && IsListed(d, shown, a)
    requires forall i :: 0 <= i < |shown| ==> r.NodeIsRendered(r.index.log, Texts(shown)[i])
    requires r.Valid() && RangesAscend(r.index.log) && KeepsAddress(r.index.createLongAddress)
    requires r.lineAddressAssociation(a) != RENDER_NOTHING && d.img.Covers(a, b) && b <= 0xFFFF
    ensures BreaksAt(r.index, a, b)
  {
    hide Complete, RenderText.NodeIsRendered;
    var n :| n in shown && !n.bankBorder && d.CodeLayout().Owns(n.start, a);
    var i :| 0 <= i < |shown| && shown[i] == n;
    SelectedAt(d, shown, i);
    assert Texts(shown)[i] == TextOf(n);
    InstructionIsShown(d, r, n.start, a);
    ShownRoundTrip(r.index, a, d.img.decode(a).length, b);
  }
}
