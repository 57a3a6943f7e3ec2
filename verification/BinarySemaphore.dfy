/**
 The binary semaphore of userland/bin_sem_bare.h, for any number of threads.

 Shared state is the integer `value`, initially 1 (userland/mutex.h:18-20), and a notification object that
 remembers one bit. A notification behaves as chapter 5 of the seL4 Reference Manual says: a signal wakes one
 blocked thread or else sets the bit; a wait consumes the bit or else blocks. Every load, compare-and-swap,
 wait, increment and signal is a step of its own; the weak compare-and-swap may fail without reason. Memory is
 sequentially consistent.
 */
module BinarySemaphore {
  import opened Prelude

  /** Where a thread is in sync_bin_sem_bare_wait or sync_bin_sem_bare_post. */
  datatype Pc =
    | Idle
    | Trying             // about to load *x
    | Loaded(v: int)     // about to compare-and-swap
    | AboutToWait        // decremented, oldval <= 0, about to call seL4_Wait
    | Blocked            // queued on the notification
    | Holding            // returned 0 from the wait
    | Intruding          // returned -1 from the wait; kmalloc ignores the result and goes on
    | Signalling         // incremented, val <= 0, about to call seL4_Signal

  datatype State = State(value: int, active: bool, pcs: seq<Pc>)

  datatype Event =
    | Start(t: nat)
    | Load(t: nat)
    | Swap(t: nat)
    | SwapFails(t: nat)
    | Wait(t: nat)
    | Post(t: nat)
    | Signal(t: nat, woken: nat)  // woken matters only when some thread is blocked

  function Init(threads: nat): State {
    State(1, false, seq(threads, _ => Idle))
  }

  ghost predicate SomeBlocked(s: State) {
    exists w :: 0 <= w < |s.pcs| && s.pcs[w].Blocked?
  }

  ghost predicate Enabled(s: State, e: Event) {
    && e.t < |s.pcs|
    && match e
       case Start(t) => s.pcs[t].Idle?
       case Load(t) => s.pcs[t].Trying?
       case Swap(t) => s.pcs[t].Loaded? && s.pcs[t].v == s.value
       case SwapFails(t) => s.pcs[t].Loaded?
       case Wait(t) => s.pcs[t].AboutToWait?
       case Post(t) => s.pcs[t].Holding? || s.pcs[t].Intruding?
       case Signal(t, w) => s.pcs[t].Signalling? && (SomeBlocked(s) ==> w < |s.pcs| && s.pcs[w].Blocked?)
  }

  /** The step of one event. */
  ghost function Step(s: State, e: Event): (s': State)
    requires Enabled(s, e)
    ensures |s'.pcs| == |s.pcs|
  {
    match e
    case Start(t) => s.(pcs := s.pcs[t := Trying])
    case Load(t) => s.(pcs := s.pcs[t := if s.value == INT_MIN then Intruding else Loaded(s.value)])
    case Swap(t) => s.(value := s.value - 1, pcs := s.pcs[t := if s.value <= 0 then AboutToWait else Holding])
    case SwapFails(t) => s.(pcs := s.pcs[t := Trying])
    case Wait(t) =>
      if s.active then s.(active := false, pcs := s.pcs[t := Holding]) else s.(pcs := s.pcs[t := Blocked])
    case Post(t) => s.(value := s.value + 1, pcs := s.pcs[t := if s.value + 1 <= 0 then Signalling else Idle])
    case Signal(t, w) =>
      if SomeBlocked(s) then s.(pcs := s.pcs[t := Idle][w := Holding]) else s.(active := true, pcs := s.pcs[t := Idle])
  }

  ghost predicate Legal(s: State, run: seq<Event>)
    decreases |run|, 0
  {
    run == [] ||
    var rest := run[..|run| - 1];
    Legal(s, rest) && Enabled(After(s, rest), run[|run| - 1])
  }

  ghost function After(s: State, run: seq<Event>): (s': State)
    requires Legal(s, run)
    ensures |s'.pcs| == |s.pcs|
    decreases |run|, 1
  {
    if run == [] then s
    else Step(After(s, run[..|run| - 1]), run[|run| - 1])
  }

  // ---------- counting threads ----------

  datatype Role = Bystander | Waiter | Holder | Intruder | Signaller

  function RoleOf(pc: Pc): Role {
    match pc
    case Idle | Trying | Loaded(_) => Bystander
    case AboutToWait | Blocked => Waiter
    case Holding => Holder
    case Intruding => Intruder
    case Signalling => Signaller
  }

  function Count(pcs: seq<Pc>, r: Role): nat {
    if pcs == [] then 0
    else Count(pcs[..|pcs| - 1], r) + if RoleOf(pcs[|pcs| - 1]) == r then 1 else 0
  }

  lemma {:induction false} CountAfterMove(pcs: seq<Pc>, t: nat, pc: Pc, r: Role)
    requires t < |pcs|
    ensures Count(pcs[t := pc], r) ==
            Count(pcs, r) - (if RoleOf(pcs[t]) == r then 1 else 0) + (if RoleOf(pc) == r then 1 else 0)
  {
    var last := |pcs| - 1;
    if t < last {
      CountAfterMove(pcs[..last], t, pc, r);
      assert pcs[t := pc][..last] == pcs[..last][t := pc];
    } else {
      assert pcs[t := pc][..last] == pcs[..last];
    }
  }

  lemma {:induction false} CountsAddUp(pcs: seq<Pc>)
    ensures Count(pcs, Bystander) + Count(pcs, Waiter) + Count(pcs, Holder) + Count(pcs, Intruder)
            + Count(pcs, Signaller)
            == |pcs|
  {
    if pcs != [] {
      CountsAddUp(pcs[..|pcs| - 1]);
    }
  }

  lemma {:induction false} CountSeesThread(pcs: seq<Pc>, t: nat)
    requires t < |pcs|
    ensures Count(pcs, RoleOf(pcs[t])) >= 1
  {
    if t < |pcs| - 1 {
      CountSeesThread(pcs[..|pcs| - 1], t);
    }
  }

  lemma {:induction false} ThreadInRole(pcs: seq<Pc>, r: Role) returns (t: nat)
    requires Count(pcs, r) >= 1
    ensures t < |pcs| && RoleOf(pcs[t]) == r
  {
    if RoleOf(pcs[|pcs| - 1]) == r {
      t := |pcs| - 1;
    } else {
      t := ThreadInRole(pcs[..|pcs| - 1], r);
    }
  }

  lemma {:induction false} TwoInRole(pcs: seq<Pc>, t: nat, u: nat)
    requires t < u < |pcs| && RoleOf(pcs[t]) == RoleOf(pcs[u])
    ensures Count(pcs, RoleOf(pcs[t])) >= 2
  {
    if u < |pcs| - 1 {
      TwoInRole(pcs[..|pcs| - 1], t, u);
    } else {
      CountSeesThread(pcs[..|pcs| - 1], t);
    }
  }

  lemma {:induction false} IdleCounts(n: nat, r: Role)
    ensures Count(Init(n).pcs, r) == if r == Bystander then n else 0
  {
    if n > 0 {
      IdleCounts(n - 1, r);
      assert Init(n).pcs[..n - 1] == Init(n - 1).pcs;
    }
  }

  // ---------- the invariant ----------

  function Tokens(s: State): nat {
    Count(s.pcs, Holder) + Count(s.pcs, Signaller) + if s.active then 1 else 0
  }

  /**
   `value` counts the threads that want or have the semaphore. While there are any, the right to enter is in
   exactly one place: with a holder, with a thread about to signal, or in the notification.
   */
  ghost predicate Inv(s: State) {
    && s.value == 1 - Count(s.pcs, Waiter) - Count(s.pcs, Holder)
    && Tokens(s) == (if Count(s.pcs, Waiter) + Count(s.pcs, Holder) > 0 then 1 else 0)
    && Count(s.pcs, Intruder) == 0
    && (s.active ==> !SomeBlocked(s))
  }

  /** The largest number of threads for which the decrement cannot fail. */
  const MAX_THREADS: nat := 0x8000_0001

  lemma StepKeepsInv(s: State, e: Event)
    requires Inv(s) && Enabled(s, e) && |s.pcs| <= MAX_THREADS
    ensures Inv(Step(s, e))
  {
    hide Count;
    MoveCounts(s, e);
    CountsAddUp(s.pcs);
    CountSeesThread(s.pcs, e.t);
  }

  /** By how much a step changes the number of threads in a role. */
  ghost function Moved(s: State, e: Event, r: Role): int
    requires Enabled(s, e)
  {
    (if RoleOf(Step(s, e).pcs[e.t]) == r then 1 else 0) - (if RoleOf(s.pcs[e.t]) == r then 1 else 0)
    + (if e.Signal? && SomeBlocked(s) then (if r == Holder then 1 else 0) - (if r == Waiter then 1 else 0) else 0)
  }

  lemma MoveCounts(s: State, e: Event)
    requires Enabled(s, e)
    ensures forall r :: Count(Step(s, e).pcs, r) == Count(s.pcs, r) + Moved(s, e, r)
  {
    forall r ensures Count(Step(s, e).pcs, r) == Count(s.pcs, r) + Moved(s, e, r)
    {
      CountAfterMove(s.pcs, e.t, Step(s, e).pcs[e.t], r);
      if e.Signal? && SomeBlocked(s) {
        CountAfterMove(s.pcs[e.t := Idle], e.woken, Holding, r);
      }
    }
  }

  lemma {:induction false} RunsKeepInv(threads: nat, run: seq<Event>)
    requires threads <= MAX_THREADS && Legal(Init(threads), run)
    ensures Inv(After(Init(threads), run))
    decreases |run|
  {
    if run == [] {
      forall r ensures Count(Init(threads).pcs, r) == if r == Bystander then threads else 0 {
        IdleCounts(threads, r);
      }
    } else {
      RunsKeepInv(threads, run[..|run| - 1]);
      StepKeepsInv(After(Init(threads), run[..|run| - 1]), run[|run| - 1]);
    }
  }

  // ---------- what the semaphore guarantees ----------

  /** Threads that came out of sync_mutex_lock and have not unlocked, rightly or not. */
  function Inside(s: State): nat {
    Count(s.pcs, Holder) + Count(s.pcs, Intruder)
  }

  /** Never two threads inside, in any interleaving: exactly when there are at most 2^31 + 1 threads. */
  lemma MutualExclusion(threads: nat)
    ensures (forall run :: Legal(Init(threads), run) ==> Inside(After(Init(threads), run)) <= 1)
            <==> threads <= MAX_THREADS
  {
    if threads <= MAX_THREADS {
      forall run | Legal(Init(threads), run) ensures Inside(After(Init(threads), run)) <= 1 {
        RunsKeepInv(threads, run);
      }
    } else {
      var run := OverflowRun(threads);
    }
  }

  /** Any two threads inside are the same one. */
  lemma NoTwoHolders(threads: nat, run: seq<Event>, t: nat, u: nat)
    requires threads <= MAX_THREADS && Legal(Init(threads), run) && t < threads && u < threads
    requires After(Init(threads), run).pcs[t].Holding? && After(Init(threads), run).pcs[u].Holding?
    ensures t == u
  {
    RunsKeepInv(threads, run);
    if t < u {
      TwoInRole(After(Init(threads), run).pcs, t, u);
    } else if u < t {
      TwoInRole(After(Init(threads), run).pcs, u, t);
    }
  }

  /** The notification remembers only one signal, and that is enough: a signal never finds the bit set. */
  lemma SignalsNeverCoalesce(threads: nat, run: seq<Event>, e: Event)
    requires threads <= MAX_THREADS && Legal(Init(threads), run)
    requires e.Signal? && Enabled(After(Init(threads), run), e)
    ensures !After(Init(threads), run).active
  {
    RunsKeepInv(threads, run);
    CountSeesThread(After(Init(threads), run).pcs, e.t);
  }

  /** A state with a waiting thread is at most two enabled steps away from one with a holder. */
  lemma NoLostWakeup(threads: nat, run: seq<Event>) returns (more: seq<Event>)
    requires threads <= MAX_THREADS && Legal(Init(threads), run)
    requires Count(After(Init(threads), run).pcs, Waiter) >= 1
    ensures |more| <= 2 && Legal(Init(threads), run + more)
    ensures Count(After(Init(threads), run + more).pcs, Holder) == 1
  {
    hide Count;
    var s := After(Init(threads), run);
    RunsKeepInv(threads, run);
    if Count(s.pcs, Holder) == 1 {
      more := [];
      assert run + more == run;
    } else if s.active {
      more := WaiterEnters(threads, run);
    } else {
      more := SignalArrives(threads, run);
      if Count(After(Init(threads), run + more).pcs, Holder) == 0 {
        var last := WaiterEnters(threads, run + more);
        assert run + more + last == run + (more + last);
        more := more + last;
      }
    }
  }

  /** The thread about to signal hands over to a blocked thread, or leaves the bit for one on its way. */
  lemma SignalArrives(threads: nat, run: seq<Event>) returns (more: seq<Event>)
    requires threads <= MAX_THREADS && Legal(Init(threads), run)
    requires Count(After(Init(threads), run).pcs, Signaller) >= 1
    ensures |more| == 1 && Legal(Init(threads), run + more)
    ensures var s := After(Init(threads), run + more);
      Count(s.pcs, Holder) == 1 || (Count(s.pcs, Holder) == 0 && s.active && Count(s.pcs, Waiter) >= 1)
  {
    hide Count;
    var s := After(Init(threads), run);
    RunsKeepInv(threads, run);
    var t := ThreadInRole(s.pcs, Signaller);
    var w: nat := if SomeBlocked(s) then var w :| 0 <= w < |s.pcs| && s.pcs[w].Blocked?; w else 0;
    var e := Signal(t, w);
    more := [e];
    Extend(Init(threads), run, e);
    StepKeepsInv(s, e);
    MoveCounts(s, e);
  }

  lemma WaiterEnters(threads: nat, run: seq<Event>) returns (more: seq<Event>)
    requires threads <= MAX_THREADS && Legal(Init(threads), run)
    requires After(Init(threads), run).active && Count(After(Init(threads), run).pcs, Waiter) >= 1
    ensures |more| == 1 && Legal(Init(threads), run + more)
    ensures Count(After(Init(threads), run + more).pcs, Holder) == 1
  {
    RunsKeepInv(threads, run);
    var t := ThreadInRole(After(Init(threads), run).pcs, Waiter);
    more := [Wait(t)];
    Extend(Init(threads), run, Wait(t));
    RunsKeepInv(threads, run + more);
    CountSeesThread(After(Init(threads), run + more).pcs, t);
  }

  // ---------- what every single thread can count on ----------

  /** A continuation in which only thread t moves. */
  predicate OwnSteps(more: seq<Event>, t: nat) {
    forall i :: 0 <= i < |more| ==> more[i].t == t
  }

  /** One event more of a run. */
  lemma Then(threads: nat, run: seq<Event>, e: Event) returns (longer: seq<Event>)
    requires threads <= MAX_THREADS && Legal(Init(threads), run) && Enabled(After(Init(threads), run), e)
    ensures longer == run + [e] && Legal(Init(threads), longer)
    ensures After(Init(threads), longer) == Step(After(Init(threads), run), e)
    ensures Inv(After(Init(threads), longer))
  {
    Extend(Init(threads), run, e);
    longer := run + [e];
    RunsKeepInv(threads, longer);
  }

  /** The value never gets down to the smallest int while one thread has not decremented. */
  lemma ValueIsNotSmallest(s: State, t: nat)
    requires Inv(s) && |s.pcs| <= MAX_THREADS && t < |s.pcs| && RoleOf(s.pcs[t]) == Bystander
    ensures s.value > INT_MIN
  {
    hide Count;
    CountsAddUp(s.pcs);
    CountSeesThread(s.pcs, t);
  }

  /**
   The decrement loop ends: whatever the thread has loaded and whatever happened meanwhile, at most three steps of its
   own (a failed exchange, a load, an exchange) take it out, as the holder if and only if the value was 1.
   */
  lemma LoopEnds(threads: nat, run: seq<Event>, t: nat) returns (more: seq<Event>)
    requires threads <= MAX_THREADS && Legal(Init(threads), run) && t < threads
    requires var pc := After(Init(threads), run).pcs[t]; pc.Trying? || pc.Loaded?
    ensures |more| <= 3 && OwnSteps(more, t) && Legal(Init(threads), run + more)
    ensures var s, s' := After(Init(threads), run), After(Init(threads), run + more);
      && s' == s.(value := s.value - 1, pcs := s.pcs[t := if s.value == 1 then Holding else AboutToWait])
  {
    hide Count, Legal, After;
    var s := After(Init(threads), run);
    RunsKeepInv(threads, run);
    ValueIsNotSmallest(s, t);
    assert s.value <= 1;
    hide Inv;
    var now := run;
    if s.pcs[t].Loaded? && s.pcs[t].v != s.value {
      now := Then(threads, now, SwapFails(t));
    }
    if After(Init(threads), now).pcs[t].Trying? {
      now := Then(threads, now, Load(t));
    }
    now := Then(threads, now, Swap(t));
    more := now[|run|..];
    assert run + more == now;
  }

  /** Like LoopEnds, when the lock is free: the thread is the holder after at most three steps, all its own. */
  lemma FreeLockIsTaken(threads: nat, run: seq<Event>, t: nat) returns (more: seq<Event>)
    requires threads <= MAX_THREADS && Legal(Init(threads), run) && t < threads
    requires var s := After(Init(threads), run); s.value == 1 && (s.pcs[t].Trying? || s.pcs[t].Loaded?)
    ensures |more| <= 3 && OwnSteps(more, t) && Legal(Init(threads), run + more)
    ensures After(Init(threads), run + more).pcs[t].Holding?
  {
    more := LoopEnds(threads, run, t);
  }

  /** A thread that has decremented can get in: the token comes to it, wherever it is, in at most three steps. */
  lemma DecrementedCanEnter(threads: nat, run: seq<Event>, t: nat) returns (more: seq<Event>)
    requires threads <= MAX_THREADS && Legal(Init(threads), run) && t < threads
    requires RoleOf(After(Init(threads), run).pcs[t]) == Waiter
    ensures |more| <= 3 && Legal(Init(threads), run + more) && After(Init(threads), run + more).pcs[t].Holding?
  {
    hide Count;
    var s := After(Init(threads), run);
    RunsKeepInv(threads, run);
    CountSeesThread(s.pcs, t);
    var now := run;
    if s.active {
      now := Then(threads, now, Wait(t));
    } else {
      if Count(s.pcs, Holder) == 1 {
        var u := ThreadInRole(s.pcs, Holder);
        now := Then(threads, now, Post(u));
        assert After(Init(threads), now).pcs[u].Signalling?;
        now := SignalTo(threads, now, t, u);
      } else {
        var u := ThreadInRole(s.pcs, Signaller);
        now := SignalTo(threads, now, t, u);
      }
    }
    more := now[|run|..];
    assert run + more == now;
  }

  /** A thread about to signal can wake any waiting thread, which goes to sleep first if need be. */
  lemma SignalTo(threads: nat, run: seq<Event>, t: nat, u: nat) returns (now: seq<Event>)
    requires threads <= MAX_THREADS && Legal(Init(threads), run) && t < threads && u < threads
    requires var s := After(Init(threads), run); RoleOf(s.pcs[t]) == Waiter && s.pcs[u].Signalling?
    ensures run <= now && |now| <= |run| + 2 && Legal(Init(threads), now) && After(Init(threads), now).pcs[t].Holding?
  {
    hide Count;
    var s := After(Init(threads), run);
    RunsKeepInv(threads, run);
    CountSeesThread(s.pcs, u);
    now := run;
    if s.pcs[t].AboutToWait? {
      now := Then(threads, now, Wait(t));
    }
    assert After(Init(threads), now).pcs[t].Blocked?;
    now := Then(threads, now, Signal(u, t));
  }

  lemma NotIntruding(s: State, t: nat)
    requires Inv(s) && t < |s.pcs|
    ensures !s.pcs[t].Intruding?
  {
    CountSeesThread(s.pcs, t);
  }

  /**
   Every thread that wants the lock can get it: in every reachable state at most seven enabled steps, from the call on,
   make it the holder.
   */
  lemma EveryThreadCanEnter(threads: nat, run: seq<Event>, t: nat) returns (more: seq<Event>)
    requires threads <= MAX_THREADS && Legal(Init(threads), run) && t < threads
    requires var pc := After(Init(threads), run).pcs[t]; !pc.Holding? && !pc.Signalling?
    ensures |more| <= 7 && Legal(Init(threads), run + more) && After(Init(threads), run + more).pcs[t].Holding?
  {
    hide Count, Legal, After, Inv;
    RunsKeepInv(threads, run);
    NotIntruding(After(Init(threads), run), t);
    var now := run;
    if After(Init(threads), now).pcs[t].Idle? {
      now := Then(threads, now, Start(t));
    }
    hide Step;
    if RoleOf(After(Init(threads), now).pcs[t]) == Bystander {
      var loop := LoopEnds(threads, now, t);
      now := now + loop;
    }
    if !After(Init(threads), now).pcs[t].Holding? {
      var last := DecrementedCanEnter(threads, now, t);
      now := now + last;
    }
    more := now[|run|..];
    assert run + more == now;
  }

  /** A holder can always leave: at most two steps, its own, take it out of sync_bin_sem_bare_post. */
  lemma HolderCanLeave(threads: nat, run: seq<Event>, t: nat) returns (more: seq<Event>)
    requires threads <= MAX_THREADS && Legal(Init(threads), run) && t < threads
    requires After(Init(threads), run).pcs[t].Holding?
    ensures |more| <= 2 && OwnSteps(more, t) && Legal(Init(threads), run + more)
    ensures After(Init(threads), run + more).pcs[t].Idle?
  {
    RunsKeepInv(threads, run);
    var now := Then(threads, run, Post(t));
    var s := After(Init(threads), now);
    if s.pcs[t].Signalling? {
      var w: nat := if SomeBlocked(s) then var w :| 0 <= w < |s.pcs| && s.pcs[w].Blocked?; w else 0;
      now := Then(threads, now, Signal(t, w));
    }
    more := now[|run|..];
    assert run + more == now;
  }

  lemma Extend(s: State, run: seq<Event>, e: Event)
    requires Legal(s, run) && Enabled(After(s, run), e)
    ensures Legal(s, run + [e]) && After(s, run + [e]) == Step(After(s, run), e)
  {
    assert (run + [e])[..|run|] == run;
  }

  // ---------- a holder that waits again ----------

  /** Nobody holds, nobody will signal, the notification is empty, and the value keeps everybody out. */
  ghost predicate Dead(s: State) {
    && s.value == 0 - Count(s.pcs, Waiter)
    && Tokens(s) == 0
    && Count(s.pcs, Intruder) == 0
  }

  lemma {:induction false} DeadStaysDead(s: State, run: seq<Event>)
    requires Dead(s) && |s.pcs| < MAX_THREADS && Legal(s, run)
    ensures Dead(After(s, run))
    decreases |run|
  {
    if run != [] {
      DeadStaysDead(s, run[..|run| - 1]);
      DeadStep(After(s, run[..|run| - 1]), run[|run| - 1]);
    }
  }

  lemma DeadStep(s: State, e: Event)
    requires Dead(s) && |s.pcs| < MAX_THREADS && Enabled(s, e)
    ensures Dead(Step(s, e))
  {
    hide Count;
    MoveCounts(s, e);
    CountsAddUp(s.pcs);
    CountSeesThread(s.pcs, e.t);
  }

  /** A holder calls sync_mutex_lock again, as krealloc does through kmalloc (userland/kmalloc.cpp:120, 135). */
  function Again(s: State, t: nat): State
    requires t < |s.pcs|
  {
    s.(pcs := s.pcs[t := Trying])
  }

  /** On the way through sync_bin_sem_bare_wait. */
  predicate InWait(pc: Pc) {
    pc.Trying? || pc.Loaded? || pc.AboutToWait? || pc.Blocked?
  }

  lemma {:induction false} StaysInWait(s: State, run: seq<Event>, t: nat)
    requires Dead(s) && |s.pcs| < MAX_THREADS && Legal(s, run) && t < |s.pcs| && InWait(s.pcs[t])
    ensures InWait(After(s, run).pcs[t])
    decreases |run|
  {
    if run != [] {
      var rest := run[..|run| - 1];
      StaysInWait(s, rest, t);
      DeadStaysDead(s, rest);
      DeadStaysDead(s, run);
      CountSeesThread(After(s, run).pcs, t);
    }
  }

  /** Whatever happens after a holder waits again, nobody gets the lock any more, and it stays in that wait for ever. */
  lemma WaitingTwiceBlocks(threads: nat, before: seq<Event>, t: nat, after: seq<Event>)
    requires threads < MAX_THREADS && Legal(Init(threads), before)
    requires t < threads && After(Init(threads), before).pcs[t].Holding?
    requires Legal(Again(After(Init(threads), before), t), after)
    ensures Inside(After(Again(After(Init(threads), before), t), after)) == 0
    ensures InWait(After(Again(After(Init(threads), before), t), after).pcs[t])
  {
    var s := After(Init(threads), before);
    RunsKeepInv(threads, before);
    CountSeesThread(s.pcs, t);
    forall r ensures Count(Again(s, t).pcs, r) ==
      Count(s.pcs, r) - (if r == Holder then 1 else 0) + (if r == Bystander then 1 else 0) {
      CountAfterMove(s.pcs, t, Trying, r);
    }
    DeadStaysDead(Again(s, t), after);
    StaysInWait(Again(s, t), after, t);
  }

  /**
   krealloc of a live pointer to a size that is not smaller takes the lock twice. In no continuation is anybody
   inside again: exactly when there are fewer than 2^31 + 1 threads, so that the decrement cannot fail either.
   */
  lemma WaitingTwiceBlocksForever(threads: nat)
    ensures (forall before, t: nat, after ::
              && Legal(Init(threads), before) && t < threads && After(Init(threads), before).pcs[t].Holding?
              && Legal(Again(After(Init(threads), before), t), after)
              ==> Inside(After(Again(After(Init(threads), before), t), after)) == 0)
            <==> threads < MAX_THREADS
  {
    if threads < MAX_THREADS {
      forall before, t: nat, after |
        && Legal(Init(threads), before) && t < threads && After(Init(threads), before).pcs[t].Holding?
        && Legal(Again(After(Init(threads), before), t), after)
        ensures Inside(After(Again(After(Init(threads), before), t), after)) == 0
      {
        WaitingTwiceBlocks(threads, before, t, after);
      }
    } else {
      var before := CrowdRun(threads, 1);
      var s := After(Init(threads), before);
      assert Again(s, 0).pcs == Queue(threads, 0).pcs;
      var after := QueueRun(threads, MAX_THREADS - 1);
      Intrude(Queue(threads, 0), after, MAX_THREADS - 1);
    }
  }

  /** After thread 0 was made to try again, threads 0..k have decremented, one after the other. */
  function Queue(threads: nat, k: nat): State {
    State(0 - k, false, seq(threads, i => if i < k then AboutToWait else if i == 0 then Trying else Idle))
  }

  lemma {:induction false} QueueRun(threads: nat, k: nat) returns (run: seq<Event>)
    requires k < threads && k < MAX_THREADS
    ensures Legal(Queue(threads, 0), run) && After(Queue(threads, 0), run) == Queue(threads, k)
  {
    if k == 0 {
      run := [];
    } else {
      var rest := QueueRun(threads, k - 1);
      run := NextInQueue(Queue(threads, 0), rest, threads, k - 1);
    }
  }

  lemma NextInQueue(i: State, rest: seq<Event>, threads: nat, k: nat) returns (run: seq<Event>)
    requires k < threads && k + 1 < MAX_THREADS && Legal(i, rest) && After(i, rest) == Queue(threads, k)
    ensures Legal(i, run) && After(i, run) == Queue(threads, k + 1)
  {
    hide Legal, After;
    var one := rest;
    if k > 0 {
      Extend(i, rest, Start(k));
      one := rest + [Start(k)];
    }
    Extend(i, one, Load(k));
    var two := one + [Load(k)];
    assert After(i, two).pcs[k] == Loaded(0 - k);
    Extend(i, two, Swap(k));
    run := two + [Swap(k)];
    assert After(i, run).pcs == Queue(threads, k + 1).pcs;
  }

  /** The thread that finds the smallest int comes in. */
  lemma Intrude(i: State, rest: seq<Event>, t: nat)
    requires Legal(i, rest) && t < |i.pcs| && After(i, rest).pcs[t].Idle? && After(i, rest).value == INT_MIN
    ensures Legal(i, rest + [Start(t)] + [Load(t)]) && Inside(After(i, rest + [Start(t)] + [Load(t)])) > 0
  {
    Extend(i, rest, Start(t));
    Extend(i, rest + [Start(t)], Load(t));
    CountSeesThread(After(i, rest + [Start(t)] + [Load(t)]).pcs, t);
  }

  // ---------- too many threads ----------

  /** Threads 0..k have decremented, one after the other: the first one holds, the rest are on their way to wait. */
  function Crowd(threads: nat, k: nat): State {
    State(1 - k, false, seq(threads, i => if i >= k then Idle else if i == 0 then Holding else AboutToWait))
  }

  lemma {:induction false} CrowdRun(threads: nat, k: nat) returns (run: seq<Event>)
    requires k <= threads && k <= MAX_THREADS
    ensures Legal(Init(threads), run) && After(Init(threads), run) == Crowd(threads, k)
  {
    if k == 0 {
      run := [];
      assert Init(threads).pcs == Crowd(threads, 0).pcs;
    } else {
      var rest := CrowdRun(threads, k - 1);
      run := OneMore(Init(threads), rest, threads, k - 1);
    }
  }

  /** The next thread of the crowd decrements. */
  lemma OneMore(i: State, rest: seq<Event>, threads: nat, k: nat) returns (run: seq<Event>)
    requires k < threads && k < MAX_THREADS && Legal(i, rest) && After(i, rest) == Crowd(threads, k)
    ensures Legal(i, run) && After(i, run) == Crowd(threads, k + 1)
  {
    hide Legal, After;
    var s := Crowd(threads, k);
    Extend(i, rest, Start(k));
    var one := rest + [Start(k)];
    Extend(i, one, Load(k));
    var two := one + [Load(k)];
    assert After(i, two).pcs[k] == Loaded(s.value);
    Extend(i, two, Swap(k));
    run := two + [Swap(k)];
    assert After(i, run).pcs == Crowd(threads, k + 1).pcs;
  }

  /** With one thread more than MAX_THREADS the decrement fails, and a second thread comes in. */
  lemma OverflowRun(threads: nat) returns (run: seq<Event>)
    requires threads > MAX_THREADS
    ensures Legal(Init(threads), run) && Inside(After(Init(threads), run)) >= 2
  {
    var t, i := MAX_THREADS, Init(threads);
    run := CrowdRun(threads, t);
    Extend(i, run, Start(t));
    Extend(i, run + [Start(t)], Load(t));
    run := run + [Start(t)] + [Load(t)];
    CountSeesThread(After(i, run).pcs, 0);
    CountSeesThread(After(i, run).pcs, t);
  }
}
