/** The asynchronous mutex as a step system. Promises and timers are numbers, given out
    in order; the event loop fires timers and runs immediates at any time. */
module Mutexes {
  import opened Options
  import opened Sequences

  /** `locks` and `timeoutHandle` are the mutex. The running timers, the immediates that
      are still to run, and the promises that have been settled are the event loop. */
  datatype World = World(
    locks: seq<nat>,
    timeoutHandle: Option<nat>,
    timers: set<nat>,
    immediates: seq<nat>,
    resolved: seq<nat>,
    rejected: seq<nat>,
    nextPromise: nat,
    nextTimer: nat)

  const START := World([], None, {}, [], [], [], 0, 0)

  function Shift(s: seq<nat>): seq<nat> {
    if s == [] then [] else s[1..]
  }

  /** Grants the lock: starts the timer, and resolves at the next possible time. */
  function Proceeded(w: World, promise: nat): World {
    w.(timeoutHandle := Some(w.nextTimer), timers := w.timers + {w.nextTimer}, nextTimer := w.nextTimer + 1,
       immediates := w.immediates + [promise])
  }

  function Locked(w: World): World {
    var v := w.(locks := w.locks + [w.nextPromise], nextPromise := w.nextPromise + 1);
    if |v.locks| == 1 then Proceeded(v, w.nextPromise) else v
  }

  /** Throws if there is no timer handle, and then does nothing. */
  function Unlocked(w: World): World {
    if w.timeoutHandle.None? then w else
      var v := w.(timers := w.timers - {w.timeoutHandle.value}, timeoutHandle := None, locks := Shift(w.locks));
      if v.locks == [] then v else Proceeded(v, v.locks[0])
  }

  /** The timer fires. Note that the handle stays. */
  function TimedOut(w: World, timer: nat): World {
    w.(timers := w.timers - {timer}, locks := [], rejected := w.rejected + Shift(w.locks))
  }

  function ImmediateRun(w: World): World
    requires w.immediates != []
  {
    w.(immediates := w.immediates[1..], resolved := w.resolved + [w.immediates[0]])
  }

  // The mutex itself.

  class EventLoop {
    var timers: set<nat>
    var immediates: seq<nat>
    var resolved: seq<nat>
    var rejected: seq<nat>
    var nextPromise: nat
    var nextTimer: nat

    constructor ()
      ensures timers == {} && immediates == [] && resolved == [] && rejected == [] && nextPromise == 0 && nextTimer == 0
    {
      timers, immediates, resolved, rejected, nextPromise, nextTimer := {}, [], [], [], 0, 0;
    }
  }

  class Mutex {
    var locks: seq<nat>
    var timeoutHandle: Option<nat>
    const eventLoop: EventLoop

    constructor (eventLoop: EventLoop)
      ensures this.eventLoop == eventLoop && locks == [] && timeoutHandle == None
    {
      this.eventLoop, locks, timeoutHandle := eventLoop, [], None;
    }

    ghost function TheWorld(): World
      reads this, eventLoop
    {
      World(locks, timeoutHandle, eventLoop.timers, eventLoop.immediates, eventLoop.resolved, eventLoop.rejected,
            eventLoop.nextPromise, eventLoop.nextTimer)
    }

    /** Returns the promise. */
    method Lock() returns (promise: nat)
      modifies this, eventLoop
      ensures TheWorld() == Locked(old(TheWorld())) && promise == old(eventLoop.nextPromise)
    {
      promise := eventLoop.nextPromise;
      eventLoop.nextPromise := promise + 1;
      locks := locks + [promise];
      // Check if we need to wait for others.
      if |locks| == 1 {
        Proceed(promise);
      }
    }

    method Unlock() returns (thrown: bool)
      modifies this, eventLoop
      ensures TheWorld() == Unlocked(old(TheWorld())) && thrown == old(timeoutHandle).None?
    {
      if timeoutHandle.None? {
        return true;
      }
      // Stop the timer.
      eventLoop.timers := eventLoop.timers - {timeoutHandle.value};
      timeoutHandle := None;
      if locks != [] {
        locks := locks[1..];
      }
      if locks != [] {
        // Process at the next possible time.
        Proceed(locks[0]);
      }
      thrown := false;
    }

    method Proceed(promise: nat)
      modifies this`timeoutHandle, eventLoop
      ensures TheWorld() == Proceeded(old(TheWorld()), promise)
    {
      timeoutHandle := Some(eventLoop.nextTimer);
      eventLoop.timers := eventLoop.timers + {eventLoop.nextTimer};
      eventLoop.nextTimer := eventLoop.nextTimer + 1;
      eventLoop.immediates := eventLoop.immediates + [promise];
    }

    /** The callback of a timer. It throws an error at the end. */
    method TimerCallback(timer: nat)
      modifies this`locks, eventLoop
      ensures TheWorld() == TimedOut(old(TheWorld()), timer)
    {
      eventLoop.timers := eventLoop.timers - {timer};
      if locks != [] {
        locks := locks[1..];
      }
      // Also reject all other locks.
      ghost var others := locks;
      for i := 0 to |locks|
        invariant locks == others
        invariant eventLoop.rejected == old(eventLoop.rejected) + locks[..i]
        invariant TheWorld() == old(TheWorld()).(
                    timers := old(eventLoop.timers) - {timer}, locks := Shift(old(locks)),
                    rejected := eventLoop.rejected)
      {
        eventLoop.rejected := eventLoop.rejected + [locks[i]];
      }
      assert locks[..|locks|] == locks;
      locks := [];
    }
  }

  // All runs: any interleaving of calls of `lock` and `unlock`, timeouts and immediates.

  datatype Event = Lock | Unlock | FireTimer(timer: nat) | RunImmediate

  predicate Enabled(w: World, e: Event) {
    match e
    case Lock => true
    case Unlock => true
    case FireTimer(timer) => timer in w.timers
    case RunImmediate => w.immediates != []
  }

  function Step(w: World, e: Event): World
    requires Enabled(w, e)
  {
    match e
    case Lock => Locked(w)
    case Unlock => Unlocked(w)
    case FireTimer(timer) => TimedOut(w, timer)
    case RunImmediate => ImmediateRun(w)
  }

  /** The events that cannot happen are left out. */
  function Run(events: seq<Event>): World {
    if events == [] then START else
      var w := Run(events[..|events| - 1]);
      var e := events[|events| - 1];
      if Enabled(w, e) then Step(w, e) else w
  }

  /** All promises that have been granted or wait to be, in the order of the grants. */
  function Line(w: World): seq<nat> {
    w.resolved + w.immediates + Shift(w.locks)
  }

  /** How often promise `p` is settled, is about to be resolved, or waits. */
  function Places(w: World, p: nat): nat {
    multiset(w.resolved)[p] + multiset(w.immediates)[p] + multiset(Shift(w.locks))[p] + multiset(w.rejected)[p]
  }

  /** A non-empty queue has one running timer, to which the handle belongs; an empty one
      has none. */
  predicate OneTimer(w: World) {
    if w.locks == [] then w.timers == {} else
      w.timeoutHandle.Some? && w.timeoutHandle.value < w.nextTimer && w.timers == {w.timeoutHandle.value}
  }

  /** The head of the queue is the last promise that has been granted. */
  predicate HeadIsGranted(w: World) {
    w.locks != [] ==>
      |w.resolved + w.immediates| > 0 && (w.resolved + w.immediates)[|w.resolved + w.immediates| - 1] == w.locks[0]
  }

  ghost predicate Inv(w: World) {
    && OneTimer(w) && HeadIsGranted(w) && Increasing(Line(w))
    && (forall i :: 0 <= i < |Line(w)| ==> Line(w)[i] < w.nextPromise)
    && (forall p: nat :: Places(w, p) == if p < w.nextPromise then 1 else 0)
  }

  lemma StartIsInv()
    ensures Inv(START)
  {
    assert Line(START) == [];
  }

  lemma LockMovesOne(w: World)
    ensures Line(Locked(w)) == Line(w) + [w.nextPromise]
    ensures forall p: nat :: Places(Locked(w), p) == Places(w, p) + if p == w.nextPromise then 1 else 0
  {
    var v := Locked(w);
    if w.locks == [] {
      assert Shift(v.locks) == [];
    } else {
      assert Shift(v.locks) == Shift(w.locks) + [w.nextPromise];
    }
  }

  lemma LockKeepsHead(w: World)
    requires OneTimer(w) && HeadIsGranted(w)
    ensures OneTimer(Locked(w)) && HeadIsGranted(Locked(w))
  {
    var v := Locked(w);
    assert w.locks != [] ==> v.resolved + v.immediates == w.resolved + w.immediates;
    assert w.locks == [] ==> v.resolved + v.immediates == w.resolved + w.immediates + [w.nextPromise];
  }

  lemma LockKeepsInv(w: World)
    requires Inv(w)
    ensures Inv(Locked(w)) && Line(Locked(w)) == Line(w) + [w.nextPromise]
  {
    hide OneTimer, HeadIsGranted, Line, Places;
    LockMovesOne(w);
    LockKeepsHead(w);
  }

  lemma UnlockKeepsInv(w: World)
    requires Inv(w)
    ensures Inv(Unlocked(w)) && Line(Unlocked(w)) == Line(w)
  {
    var v, rest := Unlocked(w), Shift(w.locks);
    assert rest == [] ==> forall p: nat :: Places(v, p) == Places(w, p);
    if w.timeoutHandle.Some? && rest != [] {
      assert rest == [rest[0]] + rest[1..];
      assert Line(v) == Line(w);
      assert multiset(rest) == multiset{rest[0]} + multiset(rest[1..]);
      assert forall p: nat :: Places(v, p) == Places(w, p);
    }
  }

  lemma TimeoutKeepsInv(w: World, timer: nat)
    requires Inv(w) && timer in w.timers
    ensures Inv(TimedOut(w, timer)) && Line(TimedOut(w, timer)) == w.resolved + w.immediates
  {
    var v := TimedOut(w, timer);
    assert Line(w) == Line(v) + Shift(w.locks);
    assert forall i :: 0 <= i < |Line(v)| ==> Line(v)[i] == Line(w)[i];
    assert forall p: nat :: Places(v, p) == Places(w, p);
  }

  lemma ImmediateKeepsInv(w: World)
    requires Inv(w) && w.immediates != []
    ensures Inv(ImmediateRun(w)) && Line(ImmediateRun(w)) == Line(w)
  {
    var v, first := ImmediateRun(w), w.immediates[0];
    assert w.immediates == [first] + w.immediates[1..];
    assert v.resolved + v.immediates == w.resolved + w.immediates;
    assert Line(v) == Line(w);
    assert multiset(w.immediates) == multiset{first} + multiset(w.immediates[1..]);
    assert forall p: nat :: Places(v, p) == Places(w, p);
  }

  lemma {:induction false} RunKeepsInv(events: seq<Event>)
    ensures Inv(Run(events))
  {
    hide Inv;
    if events == [] {
      StartIsInv();
    } else {
      RunKeepsInv(events[..|events| - 1]);
      var w := Run(events[..|events| - 1]);
      var e := events[|events| - 1];
      if Enabled(w, e) {
        match e
        case Lock => LockKeepsInv(w);
        case Unlock => UnlockKeepsInv(w);
        case FireTimer(timer) => TimeoutKeepsInv(w, timer);
        case RunImmediate => ImmediateKeepsInv(w);
      }
    }
  }

  /** The settlement law, in every run: each promise of `lock` is at exactly one place.
      It waits behind the head of the queue, is about to be resolved, or has been
      resolved or rejected, and that once. */
  lemma SettledOnce(events: seq<Event>, p: nat)
    ensures var w := Run(events);
            p < w.nextPromise ==>
              multiset(w.resolved)[p] + multiset(w.rejected)[p] + multiset(w.immediates)[p]
              + multiset(Shift(w.locks))[p] == 1
  {
    RunKeepsInv(events);
    assert Places(Run(events), p) == if p < Run(events).nextPromise then 1 else 0;
  }

  /** The promises that have been granted and the head of the queue. */
  lemma HeadAndRest(w: World)
    requires Inv(w)
    ensures Increasing(w.resolved + w.immediates)
    ensures w.locks != [] ==> w.locks[0] in w.resolved || w.locks[0] in w.immediates
    ensures forall p :: p in Shift(w.locks) ==> p !in w.resolved && p !in w.immediates
  {
    var granted, line := w.resolved + w.immediates, Line(w);
    assert forall i :: 0 <= i < |granted| ==> granted[i] == line[i];
    assert forall p :: p in granted <==> p in w.resolved || p in w.immediates;
    if w.locks != [] {
      assert granted[|granted| - 1] in granted;
    }
    forall p | p in Shift(w.locks)
      ensures p !in granted
    {
      var i :| 0 <= i < |Shift(w.locks)| && Shift(w.locks)[i] == p;
      assert line[|granted| + i] == p;
    }
  }

  /** In every run, locks are granted in the order in which they have been asked for,
      only the head of the queue has been granted, and one timer runs for it. */
  lemma GrantsAreOrdered(events: seq<Event>)
    ensures var w := Run(events);
            && Increasing(w.resolved + w.immediates)
            && (forall p :: p in Shift(w.locks) ==> p !in w.resolved && p !in w.immediates)
            && (w.locks != [] ==> w.locks[0] in w.resolved || w.locks[0] in w.immediates)
            && (w.locks != [] ==> |w.timers| == 1)
  {
    RunKeepsInv(events);
    HeadAndRest(Run(events));
  }

  // Runs in which every client unlocks at most once, after its promise has been resolved.
  // A client holds the lock from when its promise is resolved until it has unlocked.

  /** Something happens: an event, where `Unlock` is called by the head of the queue, or
      a client whose place at the head has been taken from it unlocks late. */
  datatype Act = Do(e: Event) | LateUnlock(p: nat)

  /** The clients that have unlocked, and those that were at the head of the queue and
      have been removed from there without having unlocked: by a timeout, or by a late
      `unlock` of somebody else. */
  datatype Play = Play(world: World, released: set<nat>, ousted: set<nat>)

  function Head(w: World): set<nat> {
    if w.locks == [] then {} else {w.locks[0]}
  }

  predicate Allowed(s: Play, act: Act) {
    match act
    case Do(e) => Enabled(s.world, e) && (e == Unlock ==> s.world.locks != [] && s.world.locks[0] in s.world.resolved)
    case LateUnlock(p) => p in s.ousted && p in s.world.resolved
  }

  function PlayOn(s: Play, act: Act): Play
    requires Allowed(s, act)
  {
    match act
    case Do(e) =>
      Play(Step(s.world, e),
           if e == Unlock then s.released + Head(s.world) else s.released,
           if e.FireTimer? then s.ousted + Head(s.world) else s.ousted)
    case LateUnlock(p) =>
      // It does not matter who calls: the head of the queue is removed.
      Play(Unlocked(s.world), s.released + {p},
           s.ousted - {p} + if s.world.timeoutHandle.Some? then Head(s.world) else {})
  }

  function FairPlay(acts: seq<Act>): Play {
    if acts == [] then Play(START, {}, {}) else
      var s := FairPlay(acts[..|acts| - 1]);
      var act := acts[|acts| - 1];
      if Allowed(s, act) then PlayOn(s, act) else s
  }

  predicate Holds(s: Play, p: nat) {
    p in s.world.resolved && p !in s.released
  }

  /** Everything that has been granted has been released, has been ousted, or is the
      head of the queue, and only one of these. */
  ghost predicate Accounted(s: Play) {
    && Inv(s.world)
    && (forall p :: p in s.world.resolved || p in s.world.immediates <==>
          p in s.released || p in s.ousted || IsHead(s.world, p))
    && (forall p :: p in s.released ==> p !in s.ousted && !IsHead(s.world, p))
    && (forall p :: p in s.ousted ==> !IsHead(s.world, p))
  }

  predicate IsHead(w: World, p: nat) {
    w.locks != [] && w.locks[0] == p
  }

  lemma LockAccounts(s: Play)
    requires Accounted(s)
    ensures Accounted(PlayOn(s, Do(Lock)))
  {
    hide Inv;
    HeadAndRest(s.world);
    LockKeepsInv(s.world);
    GrantedAreOld(s.world);
  }

  /** The next one is at the head of the queue, and has just been granted. */
  lemma UnlockMovesOn(w: World)
    requires Inv(w) && w.timeoutHandle.Some?
    ensures var v := Unlocked(w);
            && v.resolved == w.resolved
            && (forall p :: p in v.immediates <==> p in w.immediates || IsHead(v, p))
            && (forall p :: IsHead(v, p) ==> p in Shift(w.locks))
  {
  }

  lemma UnlockAccounts(s: Play)
    requires Accounted(s) && Allowed(s, Do(Unlock))
    ensures Accounted(PlayOn(s, Do(Unlock)))
  {
    hide Inv, Unlocked;
    HeadAndRest(s.world);
    HeadHasTimer(s.world);
    UnlockKeepsInv(s.world);
    UnlockMovesOn(s.world);
  }

  lemma HeadHasTimer(w: World)
    requires Inv(w) && w.locks != []
    ensures w.timeoutHandle.Some?
  {
  }

  lemma LateUnlockAccounts(s: Play, p: nat)
    requires Accounted(s) && Allowed(s, LateUnlock(p))
    ensures Accounted(PlayOn(s, LateUnlock(p)))
  {
    hide Inv, Unlocked;
    HeadAndRest(s.world);
    UnlockKeepsInv(s.world);
    if s.world.timeoutHandle.Some? {
      UnlockMovesOn(s.world);
    } else {
      UnlockThrows(s.world);
    }
  }

  lemma UnlockThrows(w: World)
    requires w.timeoutHandle.None?
    ensures Unlocked(w) == w
  {
  }

  lemma TimeoutAccounts(s: Play, timer: nat)
    requires Accounted(s) && Allowed(s, Do(FireTimer(timer)))
    ensures Accounted(PlayOn(s, Do(FireTimer(timer))))
  {
    hide Inv;
    HeadAndRest(s.world);
    TimeoutKeepsInv(s.world, timer);
  }

  lemma ImmediateAccounts(s: Play)
    requires Accounted(s) && s.world.immediates != []
    ensures Accounted(PlayOn(s, Do(RunImmediate)))
  {
    hide Inv;
    var w := s.world;
    ImmediateKeepsInv(w);
    assert forall p :: p in w.immediates <==> p == w.immediates[0] || p in w.immediates[1..];
  }

  lemma GrantedAreOld(w: World)
    requires Inv(w)
    ensures forall p :: p in w.resolved || p in w.immediates ==> p < w.nextPromise
  {
    forall p | p in w.resolved || p in w.immediates
      ensures p < w.nextPromise
    {
      assert p in w.resolved + w.immediates;
      var i :| 0 <= i < |w.resolved + w.immediates| && (w.resolved + w.immediates)[i] == p;
      assert Line(w)[i] == p;
    }
  }

  lemma StartAccounts()
    ensures Accounted(Play(START, {}, {}))
  {
    StartIsInv();
  }

  lemma {:induction false} FairPlayAccounts(acts: seq<Act>)
    ensures Accounted(FairPlay(acts))
  {
    hide Accounted;
    if acts == [] {
      StartAccounts();
    } else {
      FairPlayAccounts(acts[..|acts| - 1]);
      var s, act := FairPlay(acts[..|acts| - 1]), acts[|acts| - 1];
      if Allowed(s, act) {
        match act
        case Do(Lock) => LockAccounts(s);
        case Do(Unlock) => UnlockAccounts(s);
        case Do(FireTimer(timer)) => TimeoutAccounts(s, timer);
        case Do(RunImmediate) => ImmediateAccounts(s);
        case LateUnlock(p) => LateUnlockAccounts(s, p);
      }
    }
  }

  /** Who holds the lock, in every such run: the head of the queue, once its promise is
      resolved, and everybody who has been ousted before. */
  lemma HolderIsHeadOrOusted(acts: seq<Act>, p: nat)
    ensures var s := FairPlay(acts);
            Holds(s, p) <==> p in s.world.resolved && (IsHead(s.world, p) || p in s.ousted)
  {
    FairPlayAccounts(acts);
  }

  /** Two clients hold the lock at once exactly if one of them has been ousted and the
      other one is the head of the queue or has been ousted as well. */
  lemma TwoHoldIff(acts: seq<Act>, p: nat, q: nat)
    requires p != q
    ensures var s := FairPlay(acts);
            Holds(s, p) && Holds(s, q) <==>
            && p in s.world.resolved && q in s.world.resolved
            && ((p in s.ousted && (q in s.ousted || IsHead(s.world, q))) || (q in s.ousted && IsHead(s.world, p)))
  {
    FairPlayAccounts(acts);
  }

  predicate NoTimeouts(acts: seq<Act>) {
    forall act <- acts :: !(act.Do? && act.e.FireTimer?)
  }

  lemma {:induction false} NobodyIsOusted(acts: seq<Act>)
    requires NoTimeouts(acts)
    ensures FairPlay(acts).ousted == {} && FairPlay(acts).world.rejected == []
    ensures var w := FairPlay(acts).world; Line(w) == seq(w.nextPromise, i => i)
  {
    if acts != [] {
      NobodyIsOusted(acts[..|acts| - 1]);
      FairPlayAccounts(acts[..|acts| - 1]);
      var s, act := FairPlay(acts[..|acts| - 1]), acts[|acts| - 1];
      assert act in acts;
      if Allowed(s, act) {
        match act.e
        case Lock => LockKeepsInv(s.world);
        case Unlock => UnlockKeepsInv(s.world);
        case RunImmediate => ImmediateKeepsInv(s.world);
      }
    }
  }

  /** Without timeouts there is one holder at a time, `unlock` does not throw for it,
      nobody is rejected, and the locks are granted first in, first out: those resolved
      are the first promises of all, in their order. */
  lemma MutualExclusion(acts: seq<Act>, p: nat, q: nat)
    requires NoTimeouts(acts)
    ensures var s := FairPlay(acts);
            && (Holds(s, p) && Holds(s, q) ==> p == q)
            && (Holds(s, p) ==> s.world.timeoutHandle.Some?)
            && s.world.rejected == []
            && s.world.resolved == seq(|s.world.resolved|, i => i)
  {
    FairPlayAccounts(acts);
    NobodyIsOusted(acts);
    var w := FairPlay(acts).world;
    assert w.resolved == Line(w)[..|w.resolved|];
  }

  const TIMED_OUT: seq<Act> := [Do(Lock), Do(RunImmediate), Do(FireTimer(0)), Do(Lock), Do(RunImmediate)]

  /** With a timeout there can be two: after the time of the first one is out, the
      second one gets the lock without that the first one has released it. */
  lemma TwoHoldersAfterTimeout()
    ensures var s := FairPlay(TIMED_OUT); Holds(s, 0) && Holds(s, 1)
    ensures FairPlay(TIMED_OUT) == Play(World([1], Some(1), {1}, [], [0, 1], [], 2, 2), {}, {0})
  {
    var e1 := [Do(Lock)];
    var e2 := e1 + [Do(RunImmediate)];
    var e3 := e2 + [Do(FireTimer(0))];
    var e4 := e3 + [Do(Lock)];
    assert e4 + [Do(RunImmediate)] == TIMED_OUT;
    PlayStep([], Do(Lock));
    assert [] + [Do(Lock)] == e1;
    assert FairPlay(e1) == Play(World([0], Some(0), {0}, [0], [], [], 1, 1), {}, {});
    PlayStep(e1, Do(RunImmediate));
    assert FairPlay(e2) == Play(World([0], Some(0), {0}, [], [0], [], 1, 1), {}, {});
    PlayStep(e2, Do(FireTimer(0)));
    assert FairPlay(e3) == Play(World([], Some(0), {}, [], [0], [], 1, 1), {}, {0});
    PlayStep(e3, Do(Lock));
    assert FairPlay(e4) == Play(World([1], Some(1), {1}, [1], [0], [], 2, 2), {}, {0});
    PlayStep(e4, Do(RunImmediate));
  }

  /** ... and when the first one then unlocks after all, the second one, whose time is not
      out, has to share the lock with a third one. */
  lemma LateUnlockOusts()
    ensures var s := FairPlay(TIMED_OUT + [Do(Lock)] + [LateUnlock(0)] + [Do(RunImmediate)]);
            Holds(s, 1) && Holds(s, 2) && !Holds(s, 0) && s.world.rejected == []
  {
    var e1 := TIMED_OUT + [Do(Lock)];
    var e2 := e1 + [LateUnlock(0)];
    TwoHoldersAfterTimeout();
    PlayStep(TIMED_OUT, Do(Lock));
    assert FairPlay(e1) == Play(World([1, 2], Some(1), {1}, [], [0, 1], [], 3, 2), {}, {0});
    PlayStep(e1, LateUnlock(0));
    assert FairPlay(e2) == Play(World([2], Some(2), {2}, [2], [0, 1], [], 3, 3), {0}, {1});
    PlayStep(e2, Do(RunImmediate));
  }

  lemma PlayStep(acts: seq<Act>, act: Act)
    ensures var s := FairPlay(acts); FairPlay(acts + [act]) == if Allowed(s, act) then PlayOn(s, act) else s
  {
    assert (acts + [act])[..|acts|] == acts;
  }
}
