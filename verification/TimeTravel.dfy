/** Stepping through a recorded history on values: the history itself, the index of
    the current entry (-1 outside of step back mode), the register cache, the
    remembered present registers, and the addresses that are decorated. */
module TimeTravel {
  import opened Options
  import opened Z80Stack

  datatype TimeState = TimeState(
    history: seq<Line>,
    index: int,
    registers: Line,
    present: Option<Line>,
    trail: seq<int>)
  {
    predicate InStepBackMode() {
      index >= 0
    }
  }

  /** The long addresses of history entries. */
  function Addresses(lines: seq<Line>): (r: seq<int>)
    ensures |r| == |lines| && forall i {:trigger r[i]} :: 0 <= i < |r| ==> r[i] == lines[i].pcLong
  {
    seq(|lines|, i requires 0 <= i < |lines| => lines[i].pcLong)
  }

  /** What holds in every reachable state. */
  predicate Inv(s: TimeState) {
    && -1 <= s.index < |s.history|
    && s.trail == Addresses(s.history[..s.index + 1])
    && (s.InStepBackMode() ==> s.present.Some? && s.registers == s.history[s.index])
  }

  /** `revDbgPrev`: one entry back, if there is one. */
  function Prev(s: TimeState): (TimeState, Option<Line>) {
    var t := if s.InStepBackMode() then s else s.(present := Some(s.registers));
    if 0 <= s.index + 1 < |s.history| then
      var line := s.history[s.index + 1];
      (t.(index := s.index + 1, registers := line, trail := s.trail + [line.pcLong]), Some(line))
    else
      (t, None)
  }

  /** `revDbgNext`: one entry forward, at last to the present. */
  function Next(s: TimeState): (TimeState, Option<Line>)
    requires Inv(s) && s.InStepBackMode()
  {
    var line := if s.index > 0 then Some(s.history[s.index - 1]) else None;
    (s.(index := s.index - 1,
        registers := if line.Some? then line.value else s.present.value,
        trail := s.trail[..|s.trail| - 1]),
     line)
  }

  /** `pushHistoryInfo`: a new youngest entry; the oldest one is dropped when there
      are too many. */
  function Remember(s: TimeState, line: Line, maxSize: nat): TimeState {
    var history := [line] + s.history;
    s.(history := if |history| > maxSize then history[..|history| - 1] else history)
  }

  lemma PrevMoves(s: TimeState)
    requires -1 <= s.index < |s.history|
    ensures Prev(s).1.Some? <==> s.index + 1 < |s.history|
    ensures Prev(s).0.history == s.history && Prev(s).0.index == s.index + if Prev(s).1.Some? then 1 else 0
  {
  }

  lemma PrevKeepsInv(s: TimeState)
    requires Inv(s)
    ensures Inv(Prev(s).0)
  {
    if s.index + 1 < |s.history| {
      assert s.history[..s.index + 2] == s.history[..s.index + 1] + [s.history[s.index + 1]];
    }
  }

  lemma NextMoves(s: TimeState)
    requires Inv(s) && s.InStepBackMode()
    ensures Next(s).1.Some? <==> s.index > 0
    ensures Next(s).0.history == s.history && Next(s).0.index == s.index - 1
    ensures s.index == 0 ==> Next(s).0.present == Some(Next(s).0.registers)
  {
  }

  lemma NextKeepsInv(s: TimeState)
    requires Inv(s) && s.InStepBackMode()
    ensures Inv(Next(s).0)
  {
  }

  /** At the present the registers may be anything. */
  lemma PresentRegisters(s: TimeState, r: Line)
    requires Inv(s)
    ensures -1 <= s.index < |s.history|
    ensures !s.InStepBackMode() ==> Inv(s.(registers := r))
  {
  }

  // Any run of the history, starting empty.

  datatype Event = Record(line: Line, registers: Line) | Back | Forth

  /** New entries are only recorded outside of step back mode, after the emulator has
      really executed an instruction. */
  predicate Enabled(s: TimeState, e: Event) {
    match e
    case Record(_, _) => !s.InStepBackMode()
    case Back => true
    case Forth => s.InStepBackMode()
  }

  function Run(start: Line, events: seq<Event>, maxSize: nat): (s: TimeState)
    ensures Inv(s)
  {
    if events == [] then TimeState([], -1, start, None, []) else
      var s := Run(start, events[..|events| - 1], maxSize);
      var e := events[|events| - 1];
      if !Enabled(s, e) then s else
        match e
        case Record(line, registers) => Remember(s, line, maxSize).(registers := registers)
        case Back => PrevKeepsInv(s); Prev(s).0
        case Forth => NextKeepsInv(s); Next(s).0
  }

  /** In every reachable state the decorated addresses are those of the entries that
      have been stepped over, and the registers are those of the current entry. */
  lemma ReachableStatesAreConsistent(start: Line, events: seq<Event>, maxSize: nat)
    ensures var s := Run(start, events, maxSize);
            && |s.trail| == s.index + 1 <= |s.history|
            && (forall i :: 0 <= i <= s.index ==> s.trail[i] == s.history[i].pcLong)
            && (s.InStepBackMode() ==> s.registers == s.history[s.index])
  {
  }

  /** What has been recorded in a run, the oldest line first. */
  function Recorded(start: Line, events: seq<Event>, maxSize: nat): seq<Line> {
    if events == [] then [] else
      var before, e := events[..|events| - 1], events[|events| - 1];
      Recorded(start, before, maxSize)
      + if e.Record? && Enabled(Run(start, before, maxSize), e) then [e.line] else []
  }

  /** The last lines that have been recorded, the youngest one first, and all of them as long
      as there are not too many. */
  predicate AreRecent(history: seq<Line>, recorded: seq<Line>, maxSize: nat) {
    && |history| == (if |recorded| < maxSize then |recorded| else maxSize)
    && forall i :: 0 <= i < |history| ==> history[i] == recorded[|recorded| - 1 - i]
  }

  /** In every run the history consists of the last lines that have been recorded. */
  lemma {:induction false} HistoryIsRecent(start: Line, events: seq<Event>, maxSize: nat)
    ensures AreRecent(Run(start, events, maxSize).history, Recorded(start, events, maxSize), maxSize)
  {
    hide AreRecent;
    if events == [] {
      NothingIsRecent(maxSize);
    } else {
      var before, e := events[..|events| - 1], events[|events| - 1];
      var s, r := Run(start, before, maxSize), Recorded(start, before, maxSize);
      HistoryIsRecent(start, before, maxSize);
      assert r + [] == r;
      if e.Record? {
        RememberIsRecent(s, e.line, maxSize, r);
      }
      PrevMoves(s);
    }
  }

  lemma NothingIsRecent(maxSize: nat)
    ensures AreRecent([], [], maxSize)
  {
  }

  lemma RememberIsRecent(s: TimeState, line: Line, maxSize: nat, r: seq<Line>)
    requires AreRecent(s.history, r, maxSize)
    ensures AreRecent(Remember(s, line, maxSize).history, r + [line], maxSize)
  {
  }

  /** After any run, `k` steps back from the present show the k-th last line that has been
      recorded. */
  lemma StepsBackShow(start: Line, events: seq<Event>, maxSize: nat, k: nat)
    requires var s := Run(start, events, maxSize); s.index == -1 && 0 < k <= |s.history|
    ensures var r := Recorded(start, events, maxSize);
            k <= |r| && BackTimes(Run(start, events, maxSize), k).registers == r[|r| - k]
  {
    HistoryIsRecent(start, events, maxSize);
    BackTimesAt(Run(start, events, maxSize), k);
  }

  function BackTimes(s: TimeState, n: nat): (t: TimeState)
    requires Inv(s)
    ensures Inv(t)
  {
    if n == 0 then s else
      var r := BackTimes(s, n - 1);
      PrevKeepsInv(r);
      Prev(r).0
  }

  /** One more step back. */
  lemma BackMore(s: TimeState, k: nat)
    requires Inv(s)
    ensures BackTimes(s, k + 1) == Prev(BackTimes(s, k)).0
  {
    hide Inv, Prev;
  }

  /** Where `n` steps back from the present lead to. */
  lemma {:induction false} BackTimesAt(s: TimeState, n: nat)
    requires Inv(s) && s.index == -1 && n <= |s.history|
    ensures var t := BackTimes(s, n);
            && Inv(t) && t.history == s.history && t.index == n - 1
            && t.registers == (if n == 0 then s.registers else s.history[n - 1])
            && t.present == (if n == 0 then s.present else Some(s.registers))
  {
    if n > 0 {
      BackTimesAt(s, n - 1);
    }
  }

  /** `k` steps forward; none if the present is reached before. */
  function ForthTimes(s: TimeState, k: nat): (t: Option<TimeState>)
    requires Inv(s)
    ensures t.Some? ==> Inv(t.value)
  {
    if k == 0 then Some(s) else
      match ForthTimes(s, k - 1)
      case Some(r) => if r.InStepBackMode() then NextKeepsInv(r); Some(Next(r).0) else None
      case None => None
  }

  /** One more step forward. */
  lemma ForthMore(s: TimeState, k: nat, t: TimeState)
    requires Inv(s) && ForthTimes(s, k) == Some(t) && t.index >= 0
    ensures Inv(t) && ForthTimes(s, k + 1) == Some(Next(t).0)
  {
    hide Inv, Next;
  }

  /** The same place in time. */
  predicate SamePlace(s: TimeState, t: TimeState) {
    s.history == t.history && s.index == t.index && s.registers == t.registers && s.trail == t.trail
  }

  lemma NextUndoesPrev(s: TimeState, m: nat, r: TimeState)
    requires Inv(s) && s.index == -1 && 0 < m <= |s.history|
    requires Inv(r) && SamePlace(r, BackTimes(s, m)) && r.present == Some(s.registers)
    ensures r.InStepBackMode() && SamePlace(Next(r).0, BackTimes(s, m - 1)) && Next(r).0.present == r.present
  {
    hide BackTimes;
    hide Addresses;
    BackTimesAt(s, m);
    BackTimesAt(s, m - 1);
    NextKeepsInv(r);
  }

  /** Time travel undoes itself: after `n` steps back, `k` steps forward are possible
      and lead to the same place as only `n - k` steps back; so all `n` of them lead
      back to the present registers. */
  lemma {:induction false} ForthUndoesBack(s: TimeState, n: nat, k: nat)
    requires Inv(s) && s.index == -1 && k <= n <= |s.history|
    ensures var t := ForthTimes(BackTimes(s, n), k);
            && t.Some? && SamePlace(t.value, BackTimes(s, n - k))
            && (n > 0 ==> t.value.present == Some(s.registers))
            && (k == n ==> t.value.index == -1 && t.value.registers == s.registers)
  {
    hide Addresses, Next, Prev, Inv;
    if k == 0 {
      BackTimesAt(s, n);
    } else {
      ForthUndoesBack(s, n, k - 1);
      BackTimesAt(s, n - k);
      BackTimesAt(s, n - k + 1);
      NextUndoesPrev(s, n - k + 1, ForthTimes(BackTimes(s, n), k - 1).value);
    }
  }
}
