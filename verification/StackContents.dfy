/** The words on the frames of the virtual call stack of reverse debugging, on values. */
module StackContents {
  import opened Options
  import opened Z80Stack
  import opened ReverseStack

  /** The words of one frame; unknown ones are None. */
  type Words = seq<Option<int>>

  function SizesOf(c: seq<Words>): (r: seq<nat>)
    ensures |r| == |c| && forall i :: 0 <= i < |r| ==> r[i] == |c[i]|
  {
    seq(|c|, i requires 0 <= i < |c| => |c[i]|)
  }

  function Unknown(n: nat): (r: Words)
    ensures |r| == n && forall i :: 0 <= i < n ==> r[i] == None
  {
    seq(n, i => None)
  }

  /** The words that are left when a frame shrinks or grows to `n` words: the last ones
      are taken off, unknown ones are added. */
  function FitTo(w: Words, n: nat): (r: Words)
    ensures |r| == n && (n <= |w| ==> r <= w) && (n >= |w| ==> w <= r)
    ensures forall i :: |w| <= i < n ==> r[i] == None
  {
    if n <= |w| then w[..n] else w + Unknown(n - |w|)
  }

  /** The frames that are left when their sizes become `sizes`. */
  function Fit(c: seq<Words>, sizes: seq<nat>): (r: seq<Words>)
    requires |sizes| <= |c|
    ensures |r| == |sizes| && forall i :: 0 <= i < |r| ==> r[i] == FitTo(c[i], sizes[i])
    ensures SizesOf(r) == sizes
  {
    seq(|sizes|, i requires 0 <= i < |sizes| => FitTo(c[i], sizes[i]))
  }

  function TopWords(c: seq<Words>): Words
    requires |c| > 0
  {
    c[|c| - 1]
  }

  function SetWords(c: seq<Words>, w: Words): (r: seq<Words>)
    requires |c| > 0
    ensures |r| == |c| && SizesOf(r) == SetTop(SizesOf(c), |w|)
  {
    c[..|c| - 1] + [w]
  }

  lemma {:induction false} RemoveShrinks(sizes: seq<nat>, n: nat, keepMain: bool)
    ensures |Remove(sizes, n, keepMain)| <= |sizes|
    decreases n
  {
    if n > 0 && sizes != [] {
      if Top(sizes) > 0 {
        RemoveShrinks(SetTop(sizes, Top(sizes) - 1), n - 1, keepMain);
      } else if !(keepMain && |sizes| == 1) {
        RemoveShrinks(sizes[..|sizes| - 1], n - 1, keepMain);
      }
    }
  }

  function AdjustWords(c: seq<Words>, count: int, keepMain: bool): (r: seq<Words>)
    requires |c| > 0
    ensures SizesOf(r) == Adjust(SizesOf(c), count, keepMain)
  {
    RemoveShrinks(SizesOf(c), Half(count), keepMain);
    Fit(c, Adjust(SizesOf(c), count, keepMain))
  }

  /** Frames and words have been taken off the end. */
  predicate Shrunk(c: seq<Words>, d: seq<Words>) {
    |d| <= |c| && forall i :: 0 <= i < |d| ==> d[i] <= c[i]
  }

  lemma ShrunkMore(c: seq<Words>, d: seq<Words>, e: seq<Words>)
    requires Shrunk(c, d) && Shrunk(d, e)
    ensures Shrunk(c, e)
  {
  }

  lemma ShrunkByWord(c: seq<Words>)
    requires |c| > 0
    ensures Shrunk(c, c)
    ensures TopWords(c) != [] ==> Shrunk(c, SetWords(c, TopWords(c)[..|TopWords(c)| - 1]))
  {
  }

  lemma ShrunkByFrame(c: seq<Words>)
    requires |c| > 0
    ensures Shrunk(c, DropFrame(c))
  {
  }

  /** What is left then fits the sizes. */
  lemma ShrunkIsFit(c: seq<Words>, d: seq<Words>)
    requires Shrunk(c, d)
    ensures |d| <= |c| && d == Fit(c, SizesOf(d))
  {
    var r := Fit(c, SizesOf(d));
    assert forall i :: 0 <= i < |d| ==> r[i] == d[i];
  }

  lemma UnknownMore(w: Words, n: nat)
    ensures w + Unknown(n) + [None] == w + Unknown(n + 1)
    ensures w + Unknown(0) == w
  {
  }

  lemma GrownIsFit(c: seq<Words>, n: nat)
    requires |c| > 0
    ensures SetWords(c, TopWords(c) + Unknown(n)) == Fit(c, SetTop(SizesOf(c), Top(SizesOf(c)) + n))
  {
    var r, d := Fit(c, SetTop(SizesOf(c), Top(SizesOf(c)) + n)), SetWords(c, TopWords(c) + Unknown(n));
    assert forall i :: 0 <= i < |c| ==> r[i] == d[i];
  }

  function AddFrame(c: seq<Words>): (r: seq<Words>)
    ensures |r| == |c| + 1 && SizesOf(r) == SizesOf(c) + [0]
  {
    c + [[]]
  }

  function DropFrame(c: seq<Words>): (r: seq<Words>)
    requires |c| > 0
    ensures |r| == |c| - 1 && SizesOf(r) == SizesOf(c)[..|c| - 1]
  {
    c[..|c| - 1]
  }

  /** There is always a main frame. */
  function AtLeastMain(c: seq<Words>): (r: seq<Words>)
    ensures |r| > 0 && SizesOf(r) == if SizesOf(c) == [] then [0] else SizesOf(c)
  {
    if c == [] then [[]] else c
  }

  function PushWord(c: seq<Words>, w: Option<int>): (r: seq<Words>)
    requires |c| > 0
    ensures |r| == |c| && SizesOf(r) == SetTop(SizesOf(c), Top(SizesOf(c)) + 1)
  {
    SetWords(c, TopWords(c) + [w])
  }

  /** `handleReverseDebugStackBack` */
  function BackWords(c: seq<Words>, cur: Line, prev: Line): (r: seq<Words>)
    ensures |r| > 0 && SizesOf(r) == Back(SizesOf(c), cur, prev)
  {
    hide IsRetAndExecuted, IsPop, BackCount, Remove, SizesOf;
    var s := AtLeastMain(c);
    if IsRetAndExecuted(cur) then
      AddFrame(if cur.sp + 2 != prev.sp then DropFrame(s) else s)
    else
      var t := AdjustWords(s, BackCount(cur, prev), true);
      if IsPop(cur) then PushWord(t, Some(cur.spContent)) else t
  }

  /** What `cur` puts on the stack itself. Note that the word of a PUSH comes in front of
      the other words of the frame. */
  function PushedWords(c: seq<Words>, cur: Line): (r: seq<Words>)
    requires |c| > 0
    ensures |r| > 0 && SizesOf(r) == Pushed(SizesOf(c), cur)
  {
    if IsCallAndExecuted(cur) || IsRstOpcode(cur.op0) then AddFrame(c)
    else if PushedValue(cur).Some? then SetWords(c, [Some(PushedValue(cur).value)] + TopWords(c))
    else c
  }

  /** `handleReverseDebugStackForward` */
  function ForwardWords(c: seq<Words>, cur: Line, next: Line): (r: seq<Words>)
    ensures |r| > 0 && SizesOf(r) == Forward(SizesOf(c), cur, next)
  {
    var t := AdjustWords(PushedWords(AtLeastMain(c), cur), ForwardCount(cur, next), false);
    if InterruptFound(cur, next) then AddFrame(t) else AtLeastMain(t)
  }

  lemma MainIsThere(c: seq<Words>)
    ensures |c| > 0 ==> AtLeastMain(c) == c
    ensures AtLeastMain(AtLeastMain(c)) == AtLeastMain(c)
  {
  }

  lemma ForwardFromMain(c: seq<Words>, cur: Line, next: Line)
    ensures ForwardWords(AtLeastMain(c), cur, next) == ForwardWords(c, cur, next)
  {
    hide AtLeastMain;
    MainIsThere(c);
  }

  /** How the parts of a step forward make up the whole. */
  lemma ForwardIs(c: seq<Words>, cur: Line, next: Line)
    ensures var t := AdjustWords(PushedWords(AtLeastMain(c), cur), ForwardCount(cur, next), false);
            ForwardWords(c, cur, next) == if InterruptFound(cur, next) then AddFrame(t) else AtLeastMain(t)
  {
  }

  // What a step forward over an instruction and back over it leaves.

  lemma AdjustNothing(c: seq<Words>, keepMain: bool)
    requires |c| > 0
    ensures AdjustWords(c, 0, keepMain) == c
  {
    assert SetTop(SizesOf(c), Top(SizesOf(c))) == SizesOf(c);
    FitNothing(c);
  }

  lemma FitNothing(c: seq<Words>)
    ensures Fit(c, SizesOf(c)) == c
  {
    var r := Fit(c, SizesOf(c));
    assert forall i :: 0 <= i < |c| ==> r[i] == c[i];
  }

  lemma FitShorter(c: seq<Words>)
    requires |c| > 0 && TopWords(c) != []
    ensures Fit(c, SetTop(SizesOf(c), Top(SizesOf(c)) - 1)) == SetWords(c, TopWords(c)[..|TopWords(c)| - 1])
  {
    var r, d := Fit(c, SetTop(SizesOf(c), Top(SizesOf(c)) - 1)), SetWords(c, TopWords(c)[..|TopWords(c)| - 1]);
    assert forall i :: 0 <= i < |c| ==> r[i] == d[i];
  }

  lemma FitFewer(c: seq<Words>)
    requires |c| > 0
    ensures Fit(c, SizesOf(c)[..|c| - 1]) == DropFrame(c)
  {
    var r, d := Fit(c, SizesOf(c)[..|c| - 1]), DropFrame(c);
    assert forall i :: 0 <= i < |c| - 1 ==> r[i] == d[i];
  }

  lemma AdjustOne(c: seq<Words>, keepMain: bool)
    requires |c| > 0
    ensures TopWords(c) != [] ==> AdjustWords(c, 2, keepMain) == SetWords(c, TopWords(c)[..|TopWords(c)| - 1])
    ensures TopWords(c) == [] && |c| > 1 ==> AdjustWords(c, 2, keepMain) == DropFrame(c)
  {
    var sizes := SizesOf(c);
    assert Half(2) == 1;
    if TopWords(c) != [] {
      RemoveWord(sizes, 1, keepMain);
      RemoveNothing(SetTop(sizes, Top(sizes) - 1), 0, keepMain);
      FitShorter(c);
    } else if |c| > 1 {
      RemoveFrame(sizes, 1, keepMain);
      RemoveNothing(sizes[..|sizes| - 1], 0, keepMain);
      FitFewer(c);
    }
  }

  lemma ShiftedIsSame(w: Words, v: Option<int>)
    ensures ([v] + w)[..|w|] == w <==> forall i :: 0 <= i < |w| ==> w[i] == v
  {
    if ([v] + w)[..|w|] == w {
      ShiftedAt(w, v);
    }
  }

  lemma {:induction false} ShiftedAt(w: Words, v: Option<int>)
    requires ([v] + w)[..|w|] == w
    ensures forall i :: 0 <= i < |w| ==> w[i] == v
  {
    var u := ([v] + w)[..|w|];
    for i := 0 to |w|
      invariant forall j :: 0 <= j < i ==> w[j] == v
    {
      assert u[i] == w[i];
      assert u[i] == if i == 0 then v else w[i - 1];
    }
  }

  lemma OverPush(c: seq<Words>, cur: Line, next: Line)
    requires |c| > 0 && PushedValue(cur).Some? && next.sp == cur.sp - 2
    ensures ForwardWords(c, cur, next) == SetWords(c, [Some(PushedValue(cur).value)] + TopWords(c))
    ensures TopWords(c) != [] ==> BackWords(c, cur, next) == SetWords(c, TopWords(c)[..|TopWords(c)| - 1])
  {
    hide IsCallAndExecuted, IsRetAndExecuted, IsRstOpcode, IsPop, PushedValue, StackOpOf, SizesOf, AdjustWords,
         CalcDirectSpChanges, SetWords;
    OpcodeTestsAreExact(cur);
    AdjustNothing(SetWords(c, [Some(PushedValue(cur).value)] + TopWords(c)), false);
    AdjustOne(c, true);
  }

  /** What a PUSH adds to the last frame, be it followed by an interrupt or not: the word of
      the register that the instruction set names. */
  lemma PushPutsWord(c: seq<Words>, cur: Line, next: Line)
    requires StackOpOf(cur).Push? && (next.sp == cur.sp - 2 || next.sp == cur.sp - 4)
    ensures var s := AtLeastMain(c);
            var t := SetWords(s, [Some(StackOpOf(cur).value)] + TopWords(s));
            ForwardWords(c, cur, next) == if next.sp == cur.sp - 2 then t else AddFrame(t)
  {
    hide IsCallAndExecuted, IsRetAndExecuted, IsRstOpcode, IsPop, PushedValue, StackOpOf, SizesOf, AdjustWords,
         CalcDirectSpChanges, SetWords;
    OpcodeTestsAreExact(cur);
    var s := AtLeastMain(c);
    AdjustNothing(SetWords(s, [Some(PushedValue(cur).value)] + TopWords(s)), false);
  }

  /** A history shows what the PUSH has left at the stack pointer; that is the word which
      the step forward puts on the frame. */
  lemma PushPutsContent(c: seq<Words>, cur: Line, next: Line)
    requires StackOpOf(cur).Push? && next.sp == cur.sp - 2 && next.spContent == StackOpOf(cur).value
    ensures var w, before := TopWords(ForwardWords(c, cur, next)), AtLeastMain(c);
            && |ForwardWords(c, cur, next)| == |before| && DropFrame(ForwardWords(c, cur, next)) == DropFrame(before)
            && w == [Some(next.spContent)] + TopWords(before)
  {
    hide StackOpOf, ForwardWords;
    PushPutsWord(c, cur, next);
  }

  /** Forward over a PUSH and back again: the words are as before exactly if those of the
      frame are all the same as the pushed one, so that it does not matter on which side
      it is put. */
  lemma PushUndoneIff(c: seq<Words>, cur: Line, next: Line)
    requires |c| > 0 && PushedValue(cur).Some? && next.sp == cur.sp - 2
    ensures BackWords(ForwardWords(c, cur, next), cur, next) == c <==>
            forall i :: 0 <= i < |TopWords(c)| ==> TopWords(c)[i] == Some(PushedValue(cur).value)
  {
    hide *;
    var v: Option<int>, w := Some(PushedValue(cur).value), TopWords(c);
    OverPush(c, cur, next);
    var d := SetWords(c, [v] + w);
    SetTwice(c, [v] + w, ([v] + w)[..|w|]);
    OverPush(d, cur, next);
    ShiftedIsSame(w, v);
  }

  lemma SetTwice(c: seq<Words>, v: Words, w: Words)
    requires |c| > 0
    ensures TopWords(SetWords(c, v)) == v && SetWords(SetWords(c, v), w) == SetWords(c, w)
    ensures SetWords(c, w) == c <==> TopWords(c) == w
  {
    assert c == c[..|c| - 1] + [TopWords(c)];
    if SetWords(c, w) == c {
      assert TopWords(SetWords(c, w)) == w;
    }
  }

  /** Forward over a CALL or RST and back again leaves the words as they were. */
  lemma CallUndone(c: seq<Words>, cur: Line, next: Line)
    requires |c| > 0 && (IsCallAndExecuted(cur) || IsRstOpcode(cur.op0)) && next.sp == cur.sp - 2
    ensures BackWords(ForwardWords(c, cur, next), cur, next) == c
  {
    hide IsCallAndExecuted, IsRetAndExecuted, IsRstOpcode, IsPop, PushedValue, StackOpOf, SizesOf, AdjustWords,
         CalcDirectSpChanges;
    OpcodeTestsAreExact(cur);
    AdjustNothing(AddFrame(c), false);
    AdjustOne(AddFrame(c), true);
  }

  lemma OverPop(c: seq<Words>, cur: Line, next: Line)
    requires |c| > 0 && IsPop(cur) && next.sp == cur.sp + 2
    ensures TopWords(c) != [] ==> ForwardWords(c, cur, next) == SetWords(c, TopWords(c)[..|TopWords(c)| - 1])
    ensures BackWords(c, cur, next) == SetWords(c, TopWords(c) + [Some(cur.spContent)])
  {
    hide IsCallAndExecuted, IsRetAndExecuted, IsRstOpcode, IsPop, PushedValue, StackOpOf, SizesOf, AdjustWords,
         CalcDirectSpChanges, SetWords;
    OpcodeTestsAreExact(cur);
    AdjustOne(c, false);
    AdjustNothing(c, true);
  }

  /** Forward over a POP and back again: the words are as before exactly if the popped one
      is what the history recorded. */
  lemma PopUndoneIff(c: seq<Words>, cur: Line, next: Line)
    requires |c| > 0 && TopWords(c) != [] && IsPop(cur) && next.sp == cur.sp + 2
    ensures BackWords(ForwardWords(c, cur, next), cur, next) == c <==>
            TopWords(c)[|TopWords(c)| - 1] == Some(cur.spContent)
  {
    hide *;
    var w := TopWords(c);
    var u: Words := w[..|w| - 1];
    OverPop(c, cur, next);
    OverPop(SetWords(c, u), cur, next);
    SetTwice(c, u, u + [Some(cur.spContent)]);
    assert w == u + [w[|w| - 1]];
    if u + [Some(cur.spContent)] == w {
      assert (u + [Some(cur.spContent)])[|u|] == w[|u|];
    }
  }
}
