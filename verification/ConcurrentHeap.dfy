/**
 kmalloc and kfree as any number of threads call them (userland/kmalloc.cpp:147-176): lock, body, unlock.

 The body is not atomic. It reads the heap at some point after the lock was taken, leaves the shared memory in
 whatever intermediate states it likes, and puts down its result at some later point; the steps of the other
 threads fall anywhere in between. Only the lock keeps two bodies from destroying each other's work.
 */
module ConcurrentHeap {
  import opened Prelude
  import opened Ledger
  import Sem = BinarySemaphore

  /** What a thread is up to between its steps. */
  datatype Job =
    | Rest
    | Want(call: Call)              // called, heap not read yet
    | Body(call: Call, seen: Heap)  // heap read, result not put down yet
    | Done(answer: Option<nat>)     // result put down, still to unlock and to return it

  datatype System = System(
    sem: Sem.State,
    shared: Heap,                   // what is in memory
    jobs: seq<Job>,
    held: seq<set<nat>>,            // the blocks each thread has
    log: seq<Call>,                 // the calls in the order in which their threads got the lock
    callers: seq<nat>,              // the threads that made them
    answers: seq<Option<nat>>       // what the calls returned, in the order in which they put it down
  )

  datatype Action =
    | Enter(t: nat, call: Call)
    | Lock(e: Sem.Event)
    | Read(t: nat)
    | Scratch(t: nat, junk: Heap)
    | Commit(t: nat)
    | Unlock(t: nat, answer: Option<nat>)  // what kmalloc returns to its caller
    | Give(t: nat, to: nat, top: nat)  // a block changes hands; whoever has it may free it

  function Boot(threads: nat, n: nat): System {
    System(Sem.Init(threads), Heap(n, map[]), seq(threads, _ => Rest), seq(threads, _ => {}), [], [], [])
  }

  predicate InsidePc(pc: Sem.Pc) {
    pc.Holding? || pc.Intruding?
  }

  ghost predicate Consistent(s: System) {
    |s.sem.pcs| == |s.jobs| == |s.held|
  }

  /** Callers ask for sizes on which chunk_count terminates, and free only blocks they have. */
  ghost predicate Entitled(held: set<nat>, call: Call) {
    match call
    case Allocate(size) => size < WORD_MOD && !Diverges(size)
    case Release(top) => top in held
  }

  ghost predicate Enabled(s: System, a: Action) {
    && Consistent(s)
    && match a
       case Enter(t, call) => Sem.Enabled(s.sem, Sem.Start(t)) && s.jobs[t].Rest? && Entitled(s.held[t], call)
       case Lock(e) => !e.Start? && !e.Post? && Sem.Enabled(s.sem, e)
       case Read(t) => t < |s.jobs| && InsidePc(s.sem.pcs[t]) && s.jobs[t].Want?
       case Scratch(t, _) => t < |s.jobs| && InsidePc(s.sem.pcs[t]) && s.jobs[t].Body?
       case Commit(t) => t < |s.jobs| && InsidePc(s.sem.pcs[t]) && s.jobs[t].Body?
       case Unlock(t, answer) => Sem.Enabled(s.sem, Sem.Post(t)) && s.jobs[t] == Done(answer)
       case Give(t, to, top) => t < |s.jobs| && to < |s.jobs| && s.jobs[t].Rest? && top in s.held[t]
  }

  /** The thread that a step of the semaphore lets in, if there is one. */
  ghost function LetIn(s: Sem.State, e: Sem.Event): Option<nat>
    requires Sem.Enabled(s, e)
  {
    match e
    case Load(t) => if s.value == INT_MIN then Some(t) else None
    case Swap(t) => if s.value <= 0 then None else Some(t)
    case Wait(t) => if s.active then Some(t) else None
    case Signal(_, w) => if Sem.SomeBlocked(s) then Some(w) else None
    case _ => None
  }

  ghost function HeldAfter(held: set<nat>, call: Call, answer: Option<nat>): set<nat> {
    match call
    case Allocate(_) => if answer.Some? then held + {answer.value} else held
    case Release(top) => held - {top}
  }

  function HandedOver(held: seq<set<nat>>, t: nat, to: nat, top: nat): (held': seq<set<nat>>)
    requires t < |held| && to < |held|
    ensures |held'| == |held|
  {
    var without := held[t := held[t] - {top}];
    without[to := without[to] + {top}]
  }

  ghost function Step(s: System, a: Action): (s': System)
    requires Enabled(s, a)
    ensures Consistent(s') && |s'.jobs| == |s.jobs|
  {
    match a
    case Enter(t, call) => s.(sem := Sem.Step(s.sem, Sem.Start(t)), jobs := s.jobs[t := Want(call)])
    case Lock(e) =>
      var who := LetIn(s.sem, e);
      if who.Some? && s.jobs[who.value].Want? then
        s.(sem := Sem.Step(s.sem, e), log := s.log + [s.jobs[who.value].call], callers := s.callers + [who.value])
      else s.(sem := Sem.Step(s.sem, e))
    case Read(t) => s.(jobs := s.jobs[t := Body(s.jobs[t].call, s.shared)])
    case Scratch(t, junk) => s.(shared := junk)
    case Commit(t) =>
      var call, seen := s.jobs[t].call, s.jobs[t].seen;
      s.(shared := Apply(seen, call),
         jobs := s.jobs[t := Done(Answer(seen, call))],
         answers := s.answers + [Answer(seen, call)],
         held := s.held[t := HeldAfter(s.held[t], call, Answer(seen, call))])
    case Unlock(t, _) => s.(sem := Sem.Step(s.sem, Sem.Post(t)), jobs := s.jobs[t := Rest])
    case Give(t, to, top) => s.(held := HandedOver(s.held, t, to, top))
  }

  ghost predicate Legal(s: System, run: seq<Action>)
    decreases |run|, 0
  {
    run == [] ||
    var rest := run[..|run| - 1];
    Legal(s, rest) && Enabled(After(s, rest), run[|run| - 1])
  }

  ghost function After(s: System, run: seq<Action>): (s': System)
    requires Legal(s, run)
    decreases |run|, 1
  {
    if run == [] then s
    else Step(After(s, run[..|run| - 1]), run[|run| - 1])
  }

  // ---------- the invariant ----------

  /** The heap as the calls that have put down their result, run one at a time in lock order, leave it. */
  ghost function Truth(n: nat, s: System): Heap
    requires |s.answers| <= |s.log|
  {
    Sequential(Heap(n, map[]), s.log[..|s.answers|])
  }

  /** The semaphore's and the caller's idea of where a thread is agree. */
  predicate InStep(pc: Sem.Pc, job: Job) {
    match pc
    case Idle | Signalling => job.Rest?
    case Holding => !job.Rest?
    case Intruding => false
    case _ => job.Want?
  }

  /** A thread inside whose result is not put down yet. */
  predicate Pending(s: System, t: nat)
    requires t < |s.sem.pcs| == |s.jobs|
  {
    s.sem.pcs[t].Holding? && (s.jobs[t].Want? || s.jobs[t].Body?)
  }

  ghost predicate LockInv(s: System) {
    && Consistent(s)
    && Sem.Inv(s.sem)
    && forall t :: 0 <= t < |s.jobs| ==> InStep(s.sem.pcs[t], s.jobs[t])
  }

  ghost predicate LogInv(n: nat, s: System)
    requires Consistent(s)
  {
    && |s.answers| <= |s.log| <= |s.answers| + 1
    && (|s.log| > |s.answers| ==> exists t :: 0 <= t < |s.jobs| && Pending(s, t))
    && (forall t :: 0 <= t < |s.jobs| && Pending(s, t) ==>
          |s.log| > |s.answers| && s.jobs[t].call == s.log[|s.answers|])
    && (forall t :: 0 <= t < |s.jobs| && s.jobs[t].Body? ==> s.jobs[t].seen == Truth(n, s))
    && ((forall t :: 0 <= t < |s.jobs| ==> !s.jobs[t].Body?) ==> s.shared == Truth(n, s))
    && forall i :: 0 <= i < |s.answers| ==>
         s.answers[i] == Answer(Sequential(Heap(n, map[]), s.log[..i]), s.log[i])
  }

  /** Every live block has exactly one owner, and owners own nothing else. */
  ghost predicate Owned(h: Heap, held: seq<set<nat>>) {
    && (forall t :: 0 <= t < |held| ==> forall top :: top in held[t] ==> top in h.live)
    && (forall top :: top in h.live ==> exists t :: 0 <= t < |held| && top in held[t])
    && (forall t, u :: 0 <= t < u < |held| ==> held[t] !! held[u])
  }

  ghost predicate OwnerInv(n: nat, s: System)
    requires Consistent(s) && |s.answers| <= |s.log|
  {
    && WellFormed(Truth(n, s)) && Truth(n, s).n == n
    && AllProper(Heap(n, map[]), s.log[..|s.answers|])
    && Owned(Truth(n, s), s.held)
    && (forall t :: 0 <= t < |s.jobs| && (s.jobs[t].Want? || s.jobs[t].Body?) ==> Entitled(s.held[t], s.jobs[t].call))
  }

  ghost predicate Inv(n: nat, s: System) {
    LockInv(s) && LogInv(n, s) && OwnerInv(n, s)
  }

  // ---------- every step keeps it ----------

  lemma OneHolder(s: System, t: nat, u: nat)
    requires LockInv(s) && t < |s.jobs| && u < |s.jobs|
    requires s.sem.pcs[t].Holding? && s.sem.pcs[u].Holding?
    ensures t == u
  {
    if t < u {
      Sem.TwoInRole(s.sem.pcs, t, u);
    } else if u < t {
      Sem.TwoInRole(s.sem.pcs, u, t);
    }
  }

  /** A step of the semaphore lets a thread in only when nobody is inside, and then exactly that thread. */
  lemma LettingIn(s: Sem.State, e: Sem.Event)
    requires Sem.Inv(s) && |s.pcs| <= Sem.MAX_THREADS && Sem.Enabled(s, e) && !e.Start? && !e.Post?
    ensures LetIn(s, e).Some? ==> LetIn(s, e).value < |s.pcs| && !s.pcs[LetIn(s, e).value].Holding?
    ensures LetIn(s, e).Some? ==> forall t :: 0 <= t < |s.pcs| ==> !s.pcs[t].Holding?
    ensures forall t :: 0 <= t < |s.pcs| ==>
      (Sem.Step(s, e).pcs[t].Holding? <==> s.pcs[t].Holding? || LetIn(s, e) == Some(t))
  {
    Sem.CountSeesThread(s.pcs, e.t);
    Sem.CountsAddUp(s.pcs);
    forall t | 0 <= t < |s.pcs| && s.pcs[t].Holding? ensures LetIn(s, e).None? {
      Sem.CountSeesThread(s.pcs, t);
    }
  }

  lemma LockKeepsLockInv(s: System, e: Sem.Event)
    requires LockInv(s) && |s.jobs| <= Sem.MAX_THREADS && Enabled(s, Lock(e))
    ensures LockInv(Step(s, Lock(e)))
  {
    var s' := Step(s, Lock(e));
    Sem.StepKeepsInv(s.sem, e);
    Sem.CountSeesThread(s'.sem.pcs, e.t);
  }

  /** Letting a thread in makes its call the pending one; other steps of the semaphore change nothing here. */
  lemma LockKeepsLogInv(n: nat, s: System, e: Sem.Event)
    requires LockInv(s) && LogInv(n, s) && |s.jobs| <= Sem.MAX_THREADS && Enabled(s, Lock(e))
    ensures LogInv(n, Step(s, Lock(e)))
  {
    var s' := Step(s, Lock(e));
    LettingIn(s.sem, e);
    var who := LetIn(s.sem, e);
    if who.Some? {
      assert |s.log| == |s.answers|;
      assert s.jobs[who.value].Want?;
      assert Pending(s', who.value);
    } else {
      forall t | 0 <= t < |s.jobs| ensures Pending(s', t) <==> Pending(s, t) {}
    }
    assert s'.log[..|s.answers|] == s.log[..|s.answers|];
    forall i | 0 <= i < |s.answers| ensures s'.log[..i] == s.log[..i] && s'.log[i] == s.log[i] {}
  }

  lemma LockKeepsInv(n: nat, s: System, e: Sem.Event)
    requires Inv(n, s) && |s.jobs| <= Sem.MAX_THREADS && Enabled(s, Lock(e))
    ensures Inv(n, Step(s, Lock(e)))
  {
    LockKeepsLockInv(s, e);
    LockKeepsLogInv(n, s, e);
    assert Step(s, Lock(e)).log[..|s.answers|] == s.log[..|s.answers|];
  }

  lemma EnterKeepsInv(n: nat, s: System, t: nat, call: Call)
    requires Inv(n, s) && |s.jobs| <= Sem.MAX_THREADS && Enabled(s, Enter(t, call))
    ensures Inv(n, Step(s, Enter(t, call)))
  {
    hide Sequential, AllProper, WellFormed, Answer, Owned, Sem.Count;
    var s' := Step(s, Enter(t, call));
    Sem.StepKeepsInv(s.sem, Sem.Start(t));
    assert forall u :: 0 <= u < |s.jobs| ==> (Pending(s', u) <==> Pending(s, u));
    assert forall u :: 0 <= u < |s.jobs| ==> (s'.jobs[u].Body? <==> s.jobs[u].Body?);
  }

  lemma UnlockKeepsInv(n: nat, s: System, t: nat, answer: Option<nat>)
    requires Inv(n, s) && |s.jobs| <= Sem.MAX_THREADS && Enabled(s, Unlock(t, answer))
    ensures Inv(n, Step(s, Unlock(t, answer)))
  {
    hide Sequential, AllProper, WellFormed, Answer, Sem.Count;
    var s' := Step(s, Unlock(t, answer));
    Sem.StepKeepsInv(s.sem, Sem.Post(t));
    assert forall u :: 0 <= u < |s.jobs| ==> (Pending(s', u) <==> Pending(s, u));
    assert forall u :: 0 <= u < |s.jobs| ==> (s'.jobs[u].Body? <==> s.jobs[u].Body?);
  }

  /** The thread that reads the heap is the only one inside, so what it reads is settled. */
  lemma ReadKeepsInv(n: nat, s: System, t: nat)
    requires Inv(n, s) && Enabled(s, Read(t))
    ensures Inv(n, Step(s, Read(t)))
  {
    hide Sequential, AllProper, WellFormed, Answer, Sem.Inv;
    var s' := Step(s, Read(t));
    forall u | 0 <= u < |s.jobs| ensures !s.jobs[u].Body? {
      if s.jobs[u].Body? {
        OneHolder(s, t, u);
      }
    }
    assert s'.jobs[t].Body?;
    assert forall u :: 0 <= u < |s.jobs| ==> (Pending(s', u) <==> Pending(s, u));
  }

  lemma ScratchKeepsInv(n: nat, s: System, t: nat, junk: Heap)
    requires Inv(n, s) && Enabled(s, Scratch(t, junk))
    ensures Inv(n, Step(s, Scratch(t, junk)))
  {
    var s' := Step(s, Scratch(t, junk));
    assert s'.jobs[t].Body?;
    assert forall u :: 0 <= u < |s.jobs| ==> (Pending(s', u) <==> Pending(s, u));
  }

  /** The thread that puts down its result is the only one inside. */
  lemma CommitterIsAlone(s: System, t: nat)
    requires LockInv(s) && Enabled(s, Commit(t))
    ensures Pending(s, t)
    ensures LockInv(Step(s, Commit(t)))
    ensures forall u :: 0 <= u < |s.jobs| ==> !Pending(Step(s, Commit(t)), u) && !Step(s, Commit(t)).jobs[u].Body?
  {
    forall u | 0 <= u < |s.jobs| && u != t ensures !s.sem.pcs[u].Holding? {
      if s.sem.pcs[u].Holding? {
        OneHolder(s, t, u);
      }
    }
  }

  lemma CommitKeepsLog(n: nat, s: System, t: nat)
    requires LockInv(s) && LogInv(n, s) && Enabled(s, Commit(t))
    ensures LogInv(n, Step(s, Commit(t)))
    ensures Truth(n, Step(s, Commit(t))) == Apply(Truth(n, s), s.jobs[t].call)
  {
    hide Apply, Answer, HeldAfter, Sem.Inv;
    var s' := Step(s, Commit(t));
    CommitterIsAlone(s, t);
    assert |s'.answers| == |s.log|;
    assert s.log[..|s'.answers|] == s.log[..|s.answers|] + [s.jobs[t].call];
    assert s'.log[..|s'.answers|][..|s.answers|] == s.log[..|s.answers|];
  }

  /** How one call moves blocks between owners. */
  lemma CallMovesOwnership(h: Heap, held: seq<set<nat>>, t: nat, call: Call)
    requires WellFormed(h) && t < |held| && Entitled(held[t], call)
    requires Owned(h, held)
    ensures Proper(h, call)
    ensures Owned(Apply(h, call), held[t := HeldAfter(held[t], call, Answer(h, call))])
  {
    var h', held' := Apply(h, call), held[t := HeldAfter(held[t], call, Answer(h, call))];
    if call.Allocate? {
      MallocKeepsWellFormed(h, call.size);
    }
    forall top | top in h'.live ensures exists u :: 0 <= u < |held| && top in held'[u] {
      if top in h.live {
        var u :| 0 <= u < |held| && top in held[u];
        assert top in held'[u];
      } else {
        assert top in held'[t];
      }
    }
  }

  lemma ProperCallsExtend(h: Heap, calls: seq<Call>, call: Call)
    requires AllProper(h, calls) && Proper(Sequential(h, calls), call)
    ensures AllProper(h, calls + [call])
  {
    assert (calls + [call])[..|calls|] == calls;
  }

  lemma CommitKeepsOwners(n: nat, s: System, t: nat)
    requires LockInv(s) && LogInv(n, s) && OwnerInv(n, s) && Enabled(s, Commit(t))
    requires |Step(s, Commit(t)).answers| <= |s.log|
    requires Truth(n, Step(s, Commit(t))) == Apply(Truth(n, s), s.jobs[t].call)
    requires s.log[..|s.answers| + 1] == s.log[..|s.answers|] + [s.jobs[t].call]
    ensures OwnerInv(n, Step(s, Commit(t)))
  {
    hide Sequential, AllProper, WellFormed, Apply, Answer, HeldAfter, Owned;
    var s' := Step(s, Commit(t));
    var before, call := Truth(n, s), s.jobs[t].call;
    ApplyKeepsWellFormed(before, call);
    CallMovesOwnership(before, s.held, t, call);
    assert s'.log[..|s'.answers|] == s.log[..|s.answers|] + [call];
    ProperCallsExtend(Heap(n, map[]), s.log[..|s.answers|], call);
    forall u | 0 <= u < |s'.jobs| && (s'.jobs[u].Want? || s'.jobs[u].Body?)
      ensures Entitled(s'.held[u], s'.jobs[u].call)
    {
      assert u != t;
    }
  }

  lemma CommitKeepsInv(n: nat, s: System, t: nat)
    requires Inv(n, s) && Enabled(s, Commit(t))
    ensures Inv(n, Step(s, Commit(t)))
  {
    hide Apply, Answer, HeldAfter, Sem.Inv, WellFormed, AllProper;
    CommitterIsAlone(s, t);
    CommitKeepsLog(n, s, t);
    CommitKeepsOwners(n, s, t);
  }

  lemma HasAfterGift(h: Heap, held: seq<set<nat>>, t: nat, to: nat, top: nat, u: nat, x: nat)
    requires Owned(h, held) && t < |held| && to < |held| && top in held[t] && u < |held|
    ensures x in HandedOver(held, t, to, top)[u] <==> if x == top then u == to else x in held[u]
  {
    assert u < t ==> held[u] !! held[t];
    assert t < u ==> held[t] !! held[u];
  }

  /** A block that changes hands still has one owner. */
  lemma GiveKeepsOwned(h: Heap, held: seq<set<nat>>, t: nat, to: nat, top: nat)
    requires Owned(h, held) && t < |held| && to < |held| && top in held[t]
    ensures Owned(h, HandedOver(held, t, to, top))
  {
    hide HandedOver;
    var held' := HandedOver(held, t, to, top);
    forall u, x | 0 <= u < |held| && x in held'[u] ensures x in h.live {
      HasAfterGift(h, held, t, to, top, u, x);
    }
    forall x | x in h.live ensures exists u :: 0 <= u < |held'| && x in held'[u] {
      var u :| 0 <= u < |held| && x in held[u];
      HasAfterGift(h, held, t, to, top, u, x);
      HasAfterGift(h, held, t, to, top, to, x);
    }
    forall u, v | 0 <= u < v < |held| ensures held'[u] !! held'[v] {
      forall x | x in held'[u] ensures x !in held'[v] {
        HasAfterGift(h, held, t, to, top, u, x);
        HasAfterGift(h, held, t, to, top, v, x);
      }
    }
  }

  /** A thread that gives a block away is not about to free it, and those about to free one still have it. */
  lemma GiveKeepsInv(n: nat, s: System, t: nat, to: nat, top: nat)
    requires Inv(n, s) && Enabled(s, Give(t, to, top))
    ensures Inv(n, Step(s, Give(t, to, top)))
  {
    hide Sequential, AllProper, WellFormed, Answer, Owned, Sem.Inv;
    var s' := Step(s, Give(t, to, top));
    GiveKeepsOwned(Truth(n, s), s.held, t, to, top);
    assert forall u :: 0 <= u < |s.jobs| ==> (Pending(s', u) <==> Pending(s, u));
  }

  lemma StepKeepsInv(n: nat, s: System, a: Action)
    requires Inv(n, s) && |s.jobs| <= Sem.MAX_THREADS && Enabled(s, a)
    ensures Inv(n, Step(s, a))
  {
    match a
    case Enter(t, call) => EnterKeepsInv(n, s, t, call);
    case Lock(e) => LockKeepsInv(n, s, e);
    case Read(t) => ReadKeepsInv(n, s, t);
    case Scratch(t, junk) => ScratchKeepsInv(n, s, t, junk);
    case Commit(t) => CommitKeepsInv(n, s, t);
    case Unlock(t, answer) => UnlockKeepsInv(n, s, t, answer);
    case Give(t, to, top) => GiveKeepsInv(n, s, t, to, top);
  }

  lemma {:induction false} RunsKeepInv(threads: nat, n: nat, run: seq<Action>)
    requires threads <= Sem.MAX_THREADS && Legal(Boot(threads, n), run)
    ensures Inv(n, After(Boot(threads, n), run)) && |After(Boot(threads, n), run).jobs| == threads
    decreases |run|
  {
    if run == [] {
      Sem.RunsKeepInv(threads, []);
      assert Truth(n, Boot(threads, n)) == Heap(n, map[]);
    } else {
      RunsKeepInv(threads, n, run[..|run| - 1]);
      StepKeepsInv(n, After(Boot(threads, n), run[..|run| - 1]), run[|run| - 1]);
    }
  }

  // ---------- whose calls they are ----------

  /** The calls that thread t makes along a run. */
  function Made(run: seq<Action>, t: nat): seq<Call> {
    if run == [] then []
    else
      var a := run[|run| - 1];
      Made(run[..|run| - 1], t) + if a.Enter? && a.t == t then [a.call] else []
  }

  /** What they return to it. */
  function Received(run: seq<Action>, t: nat): seq<Option<nat>> {
    if run == [] then []
    else
      var a := run[|run| - 1];
      Received(run[..|run| - 1], t) + if a.Unlock? && a.t == t then [a.answer] else []
  }

  /** The calls of thread t in the log. */
  function CallsOf(log: seq<Call>, callers: seq<nat>, t: nat): seq<Call>
    requires |log| == |callers|
  {
    if log == [] then []
    else
      var last := |log| - 1;
      CallsOf(log[..last], callers[..last], t) + if callers[last] == t then [log[last]] else []
  }

  /** The answers to the calls of thread t. */
  function AnswersOf(answers: seq<Option<nat>>, callers: seq<nat>, t: nat): seq<Option<nat>>
    requires |answers| <= |callers|
  {
    if answers == [] then []
    else
      var last := |answers| - 1;
      AnswersOf(answers[..last], callers, t) + if callers[last] == t then [answers[last]] else []
  }

  /** The call that thread t still waits with for the lock. */
  function Waiting(s: System, t: nat): seq<Call>
    requires t < |s.jobs| == |s.sem.pcs|
  {
    if s.jobs[t].Want? && !s.sem.pcs[t].Holding? then [s.jobs[t].call] else []
  }

  /** The answer that thread t has and has not returned yet. */
  function Unreturned(s: System, t: nat): seq<Option<nat>>
    requires t < |s.jobs|
  {
    if s.jobs[t].Done? then [s.jobs[t].answer] else []
  }

  /** The thread inside is the caller of the first call without an answer. */
  ghost predicate CallersKnown(s: System) {
    && Consistent(s) && |s.callers| == |s.log| && |s.answers| <= |s.log|
    && forall t :: 0 <= t < |s.jobs| && Pending(s, t) ==> |s.log| > |s.answers| && s.callers[|s.answers|] == t
  }

  ghost predicate Recorded(s: System, t: nat, made: seq<Call>, received: seq<Option<nat>>)
    requires CallersKnown(s) && t < |s.jobs|
  {
    && made == CallsOf(s.log, s.callers, t) + Waiting(s, t)
    && received + Unreturned(s, t) == AnswersOf(s.answers, s.callers, t)
  }

  lemma OneCallLogged(log: seq<Call>, callers: seq<nat>, call: Call, u: nat, t: nat)
    requires |log| == |callers|
    ensures CallsOf(log + [call], callers + [u], t) == CallsOf(log, callers, t) + if u == t then [call] else []
  {
    assert (log + [call])[..|log|] == log && (callers + [u])[..|log|] == callers;
  }

  lemma {:induction false} AnswersStay(answers: seq<Option<nat>>, callers: seq<nat>, u: nat, t: nat)
    requires |answers| <= |callers|
    ensures AnswersOf(answers, callers + [u], t) == AnswersOf(answers, callers, t)
    decreases |answers|
  {
    if answers != [] {
      AnswersStay(answers[..|answers| - 1], callers, u, t);
    }
  }

  lemma OneAnswerMore(answers: seq<Option<nat>>, callers: seq<nat>, answer: Option<nat>, t: nat)
    requires |answers| < |callers|
    ensures AnswersOf(answers + [answer], callers, t) ==
            AnswersOf(answers, callers, t) + if callers[|answers|] == t then [answer] else []
  {
    assert (answers + [answer])[..|answers|] == answers;
  }

  /** What an action adds to the calls thread t made, and to what it received. */
  function MadeBy(a: Action, t: nat): seq<Call> {
    if a.Enter? && a.t == t then [a.call] else []
  }

  function ReceivedBy(a: Action, t: nat): seq<Option<nat>> {
    if a.Unlock? && a.t == t then [a.answer] else []
  }

  lemma LockKeepsRecord(n: nat, s: System, e: Sem.Event, t: nat, made: seq<Call>, received: seq<Option<nat>>)
    requires Inv(n, s) && |s.jobs| <= Sem.MAX_THREADS && Enabled(s, Lock(e)) && t < |s.jobs|
    requires CallersKnown(s) && Recorded(s, t, made, received)
    ensures CallersKnown(Step(s, Lock(e))) && Recorded(Step(s, Lock(e)), t, made, received)
  {
    hide Sequential, AllProper, WellFormed, Answer, Owned, Sem.Step, Sem.Enabled, CallsOf, AnswersOf;
    LettingIn(s.sem, e);
    LockKeepsInv(n, s, e);
    var who, s' := LetIn(s.sem, e), Step(s, Lock(e));
    assert forall v :: 0 <= v < |s.jobs| ==> (s'.sem.pcs[v].Holding? <==> s.sem.pcs[v].Holding? || who == Some(v));
    if who.Some? {
      var u := who.value;
      assert |s.log| == |s.answers| by {
        NobodyPending(n, s);
      }
      assert s.jobs[u].Want?;
      assert forall v :: 0 <= v < |s.jobs| && Pending(s', v) ==> v == u;
      OneCallLogged(s.log, s.callers, s.jobs[u].call, u, t);
      AnswersStay(s.answers, s.callers, u, t);
      assert made + [] == made;
    } else {
      assert forall v :: 0 <= v < |s.jobs| ==> (Pending(s', v) <==> Pending(s, v));
    }
  }

  lemma NobodyPending(n: nat, s: System)
    requires LockInv(s) && LogInv(n, s) && forall t :: 0 <= t < |s.jobs| ==> !s.sem.pcs[t].Holding?
    ensures |s.log| == |s.answers|
    ensures forall t :: 0 <= t < |s.jobs| ==> !Pending(s, t)
  {
  }

  lemma CommitKeepsRecord(n: nat, s: System, u: nat, t: nat, made: seq<Call>, received: seq<Option<nat>>)
    requires Inv(n, s) && Enabled(s, Commit(u)) && t < |s.jobs|
    requires CallersKnown(s) && Recorded(s, t, made, received)
    ensures CallersKnown(Step(s, Commit(u))) && Recorded(Step(s, Commit(u)), t, made, received)
  {
    hide Sequential, AllProper, WellFormed, Answer, Owned, Apply, HeldAfter, Sem.Inv, CallsOf, AnswersOf;
    CommitterIsAlone(s, u);
    OneAnswerMore(s.answers, s.callers, Answer(s.jobs[u].seen, s.jobs[u].call), t);
    assert received + [] == received;
  }

  /** The other actions leave log and answers alone. */
  lemma OthersKeepRecord(n: nat, s: System, a: Action, t: nat, made: seq<Call>, received: seq<Option<nat>>)
    requires Inv(n, s) && Enabled(s, a) && t < |s.jobs| && !a.Lock? && !a.Commit?
    requires CallersKnown(s) && Recorded(s, t, made, received)
    ensures CallersKnown(Step(s, a)) && Recorded(Step(s, a), t, made + MadeBy(a, t), received + ReceivedBy(a, t))
  {
    hide Sequential, AllProper, WellFormed, Answer, Owned, Apply, HeldAfter, Sem.Inv, CallsOf, AnswersOf, HandedOver;
    var s' := Step(s, a);
    assert forall u :: 0 <= u < |s.jobs| ==> (Pending(s', u) ==> Pending(s, u));
    assert made + [] == made && received + [] == received;
    assert CallsOf(s.log, s.callers, t) + [] == CallsOf(s.log, s.callers, t);
  }

  /** Log and answers record the calls a thread makes and what it gets for them, at every point of every run. */
  lemma {:induction false} RunsAreRecorded(threads: nat, n: nat, run: seq<Action>, t: nat)
    requires threads <= Sem.MAX_THREADS && Legal(Boot(threads, n), run) && t < threads
    ensures var s := After(Boot(threads, n), run);
      CallersKnown(s) && |s.jobs| == threads && Recorded(s, t, Made(run, t), Received(run, t))
    decreases |run|
  {
    RunsKeepInv(threads, n, run);
    if run != [] {
      var rest, a := run[..|run| - 1], run[|run| - 1];
      RunsKeepInv(threads, n, rest);
      RunsAreRecorded(threads, n, rest, t);
      RecordAfter(n, After(Boot(threads, n), rest), a, t, Made(rest, t), Received(rest, t));
      assert Made(run, t) == Made(rest, t) + MadeBy(a, t);
      assert Received(run, t) == Received(rest, t) + ReceivedBy(a, t);
    }
  }

  lemma RecordAfter(n: nat, s: System, a: Action, t: nat, made: seq<Call>, received: seq<Option<nat>>)
    requires Inv(n, s) && |s.jobs| <= Sem.MAX_THREADS && Enabled(s, a) && t < |s.jobs|
    requires CallersKnown(s) && Recorded(s, t, made, received)
    ensures CallersKnown(Step(s, a)) && Recorded(Step(s, a), t, made + MadeBy(a, t), received + ReceivedBy(a, t))
  {
    hide Inv, Recorded, CallersKnown, Step;
    if a.Lock? {
      LockKeepsRecord(n, s, a.e, t, made, received);
      assert made + [] == made && received + [] == received;
    } else if a.Commit? {
      CommitKeepsRecord(n, s, a.t, t, made, received);
      assert made + [] == made && received + [] == received;
    } else {
      OthersKeepRecord(n, s, a, t, made, received);
    }
  }

  /** Log and answers only grow: a call that has returned comes before every call that is made later. */
  lemma {:induction false} LogGrows(threads: nat, n: nat, run: seq<Action>, k: nat)
    requires Legal(Boot(threads, n), run) && k <= |run|
    ensures Legal(Boot(threads, n), run[..k])
    ensures var s, s' := After(Boot(threads, n), run[..k]), After(Boot(threads, n), run);
      s.log <= s'.log && s.callers <= s'.callers && s.answers <= s'.answers
    decreases |run|
  {
    hide Apply, Answer, HeldAfter, HandedOver, Sem.Step, Sem.Enabled, LetIn;
    if k == |run| {
      assert run[..k] == run;
    } else {
      assert run[..|run| - 1][..k] == run[..k];
      LogGrows(threads, n, run[..|run| - 1], k);
    }
  }

  // ---------- what callers see ----------

  /**
   Whenever nobody is inside, memory holds what the calls in the log made one at a time, in the order in which their
   threads got the lock, would have left; every answer is the one that sequential run gives; and every call in it was
   a proper one. At any point, the calls that a thread made are its calls in the log, in its order, and the one it
   still waits with; and what was returned to it, and what it is about to be returned, are the answers to them.
   */
  lemma CallsAreSequential(threads: nat, n: nat, run: seq<Action>)
    requires threads <= Sem.MAX_THREADS && Legal(Boot(threads, n), run)
    ensures var s := After(Boot(threads, n), run);
      |s.sem.pcs| == |s.jobs| == threads && |s.callers| == |s.log| >= |s.answers| &&
      ((forall t :: 0 <= t < threads ==> !InsidePc(s.sem.pcs[t])) ==>
        && |s.answers| == |s.log|
        && AllProper(Heap(n, map[]), s.log)
        && s.shared == Sequential(Heap(n, map[]), s.log)
        && forall i :: 0 <= i < |s.log| ==> s.answers[i] == Answer(Sequential(Heap(n, map[]), s.log[..i]), s.log[i]))
      && forall t :: 0 <= t < threads ==>
           && Made(run, t) == CallsOf(s.log, s.callers, t) + Waiting(s, t)
           && Received(run, t) + Unreturned(s, t) == AnswersOf(s.answers, s.callers, t)
  {
    hide Made, Received, CallsOf, AnswersOf, Waiting, Unreturned;
    RunsKeepInv(threads, n, run);
    var s := After(Boot(threads, n), run);
    assert |s.answers| == |s.log| ==> s.log[..|s.answers|] == s.log;
    assert |s.callers| == |s.log| by {
      CallersOfRun(threads, n, run);
    }
    forall t | 0 <= t < threads
      ensures Made(run, t) == CallsOf(s.log, s.callers, t) + Waiting(s, t)
      ensures Received(run, t) + Unreturned(s, t) == AnswersOf(s.answers, s.callers, t)
    {
      RunsAreRecorded(threads, n, run, t);
    }
  }

  lemma {:induction false} CallersOfRun(threads: nat, n: nat, run: seq<Action>)
    requires Legal(Boot(threads, n), run)
    ensures |After(Boot(threads, n), run).callers| == |After(Boot(threads, n), run).log|
    decreases |run|
  {
    if run != [] {
      CallersOfRun(threads, n, run[..|run| - 1]);
    }
  }

  lemma OwnedBlocksAreDisjoint(h: Heap, held: seq<set<nat>>, t: nat, u: nat, a: nat, b: nat, x: int)
    requires WellFormed(h) && Owned(h, held) && t < |held| && u < |held| && (t != u || a != b)
    requires a in held[t] && b in held[u]
    ensures !(InBlock(h, a, x) && InBlock(h, b, x))
  {
    assert t < u ==> held[t] !! held[u];
    assert u < t ==> held[u] !! held[t];
  }

  /** No chunk belongs to blocks of two threads, nor to two blocks of one, at any point of any run. */
  lemma HeldBlocksAreDisjoint(threads: nat, n: nat, run: seq<Action>, t: nat, u: nat, a: nat, b: nat, x: int)
    requires threads <= Sem.MAX_THREADS && Legal(Boot(threads, n), run)
    requires t < threads && u < threads && (t != u || a != b)
    requires var s := After(Boot(threads, n), run); |s.held| == threads && |s.answers| <= |s.log|
    requires var s := After(Boot(threads, n), run); a in s.held[t] && b in s.held[u]
    ensures var s := After(Boot(threads, n), run); !(InBlock(Truth(n, s), a, x) && InBlock(Truth(n, s), b, x))
  {
    RunsKeepInv(threads, n, run);
    var s := After(Boot(threads, n), run);
    OwnedBlocksAreDisjoint(Truth(n, s), s.held, t, u, a, b, x);
  }
}
