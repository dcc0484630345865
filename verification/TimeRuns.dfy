/** Going back or forward through a history, entry by entry, until some condition stops
    it or the history ends. */
module TimeRuns {
  import opened Options
  import opened TimeTravel

  datatype Phase = UnderWay | Stopped | AtEnd

  /** Why stepping has stopped. */
  datatype BreakReason = NoReason | ReachedStart | ReachedEnd | BreakpointHit

  /** Entry `i` stops. */
  predicate At(stops: seq<bool>, i: int) {
    0 <= i < |stops| && stops[i]
  }

  /** Nothing stops at the entries from `lo` to below `hi`. */
  ghost predicate Passed(stops: seq<bool>, lo: int, hi: int) {
    forall i :: lo <= i < hi ==> !At(stops, i)
  }

  lemma PassedMore(stops: seq<bool>, lo: int, hi: int)
    requires Passed(stops, lo, hi)
    ensures !At(stops, hi) ==> Passed(stops, lo, hi + 1)
    ensures !At(stops, lo - 1) ==> Passed(stops, lo - 1, hi)
  {
  }

  /** Going back from `s` has led to `t`: `Stopped` at the first entry that stops, or
      `AtEnd` over the oldest entry; otherwise it is still under way. */
  ghost predicate WentBack(stops: seq<bool>, s: TimeState, t: TimeState, phase: Phase)
    requires Inv(s)
  {
    && s.index <= t.index < |t.history|
    && match phase
       case UnderWay => t == BackTimes(s, t.index - s.index) && Passed(stops, s.index + 1, t.index + 1)
       case Stopped =>
         s.index < t.index && t == BackTimes(s, t.index - s.index) && Passed(stops, s.index + 1, t.index)
         && At(stops, t.index)
       case AtEnd =>
         t.index == |t.history| - 1 && t == BackTimes(s, |t.history| - s.index)
         && Passed(stops, s.index + 1, |t.history|)
  }

  /** Going forward from `s` has led to `t`: `Stopped` at the first entry that stops, or
      `AtEnd` at the present. */
  ghost predicate WentForth(stops: seq<bool>, s: TimeState, t: TimeState, phase: Phase)
    requires Inv(s)
  {
    && t.index <= s.index && t.history == s.history && ForthTimes(s, s.index - t.index) == Some(t)
    && match phase
       case UnderWay => 0 <= t.index && Passed(stops, t.index, s.index)
       case Stopped => 0 <= t.index < s.index && Passed(stops, t.index + 1, s.index) && At(stops, t.index)
       case AtEnd => t.index == -1 < s.index && t.present == Some(t.registers) && Passed(stops, 0, s.index)
  }

  lemma StartBack(stops: seq<bool>, s: TimeState)
    requires Inv(s)
    ensures WentBack(stops, s, s, UnderWay)
  {
  }

  lemma StartForth(stops: seq<bool>, s: TimeState)
    requires Inv(s) && s.InStepBackMode()
    ensures WentForth(stops, s, s, UnderWay)
  {
  }

  function PhaseBack(stops: seq<bool>, t: TimeState): Phase {
    if Prev(t).1.None? then AtEnd else if At(stops, t.index + 1) then Stopped else UnderWay
  }

  function PhaseForth(stops: seq<bool>, t: TimeState): Phase
    requires Inv(t) && t.InStepBackMode()
  {
    if Next(t).1.None? then AtEnd else if At(stops, t.index - 1) then Stopped else UnderWay
  }

  lemma PhaseForthIs(stops: seq<bool>, t: TimeState)
    requires Inv(t) && t.InStepBackMode()
    ensures PhaseForth(stops, t) == if t.index == 0 then AtEnd else if At(stops, t.index - 1) then Stopped else UnderWay
  {
  }

  lemma PhaseBackIs(stops: seq<bool>, t: TimeState)
    requires Inv(t)
    ensures PhaseBack(stops, t) ==
            if t.index + 1 == |t.history| then AtEnd else if At(stops, t.index + 1) then Stopped else UnderWay
  {
  }

  /** One more step back. */
  lemma WentBackMore(stops: seq<bool>, s: TimeState, t: TimeState)
    requires Inv(s) && WentBack(stops, s, t, UnderWay)
    ensures WentBack(stops, s, Prev(t).0, PhaseBack(stops, t))
  {
    hide BackTimes, Inv, Passed, Prev;
    PresentRegisters(s, s.registers);
    PrevMoves(t);
    BackMore(s, t.index - s.index);
    PassedMore(stops, s.index + 1, t.index + 1);
  }

  /** One more step forward. */
  lemma WentForthMore(stops: seq<bool>, s: TimeState, t: TimeState)
    requires Inv(s) && Inv(t) && WentForth(stops, s, t, UnderWay)
    ensures WentForth(stops, s, Next(t).0, PhaseForth(stops, t))
  {
    hide ForthTimes, Passed, Inv, Next;
    NextMoves(t);
    PresentRegisters(t, t.registers);
    ForthMore(s, s.index - t.index, t);
    PassedMore(stops, t.index, s.index);
  }

  lemma ArrivedForth(stops: seq<bool>, s: TimeState, t: TimeState, phase: Phase)
    requires Inv(s) && Inv(t) && WentForth(stops, s, t, phase)
    ensures -1 <= t.index && (t.index == -1 <==> phase == AtEnd)
    ensures phase == AtEnd ==> t.present == Some(t.registers) && forall r :: Inv(t.(registers := r))
  {
    hide ForthTimes, Passed;
  }
}
