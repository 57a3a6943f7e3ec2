/** The threads of the table in userland/RootServer.hpp:12-25: what sets them apart, and looking them up. */
module Threads {
  import opened Prelude
  import opened AddressSpace

  datatype Thread = Thread(tcb: nat, badge: nat, stackAddr: nat, endpoint: nat)

  /**
   The capability slots of the threads were handed out, each for one purpose, and their three pages lie one thread
   after the other below the next address.
   */
  ghost predicate Apart(threads: seq<Thread>, handedOut: set<nat>, limit: nat) {
    && (forall i :: 0 <= i < |threads| ==>
          && threads[i].tcb in handedOut && threads[i].endpoint in handedOut && threads[i].tcb != threads[i].endpoint
          && threads[i].stackAddr + 3 * PAGE_SIZE <= limit)
    && (forall i, j :: 0 <= i < j < |threads| ==>
          && threads[i].tcb != threads[j].tcb && threads[i].tcb != threads[j].endpoint
          && threads[i].endpoint != threads[j].tcb && threads[i].endpoint != threads[j].endpoint
          && threads[i].stackAddr + 3 * PAGE_SIZE <= threads[j].stackAddr)
  }

  /** Badges in the order in which the threads were made, all below the next one. */
  ghost predicate BadgesInOrder(threads: seq<Thread>, next: nat) {
    && (forall i :: 0 <= i < |threads| ==> threads[i].badge < next)
    && (forall i, j :: 0 <= i < j < |threads| ==> threads[i].badge < threads[j].badge)
  }

  lemma OneThreadMore(threads: seq<Thread>, before: set<nat>, after: set<nat>, limit: nat, t: Thread)
    requires Apart(threads, before, limit) && before <= after
    requires t.tcb in after - before && t.endpoint in after - before && t.tcb != t.endpoint && t.stackAddr == limit
    ensures Apart(threads + [t], after, limit + 3 * PAGE_SIZE)
  {
  }

  lemma NoThreadMore(threads: seq<Thread>, before: set<nat>, after: set<nat>, limit: nat, limit': nat)
    requires Apart(threads, before, limit) && before <= after && limit <= limit'
    ensures Apart(threads, after, limit')
  {
  }

  /** The threads after a number of calls, of which the first had badge 1. */
  ghost predicate Numbered(threads: seq<Thread>, calls: nat, next: nat) {
    && next == calls + 1 && |threads| <= calls && BadgesInOrder(threads, next)
    && (|threads| == calls ==> forall i :: 0 <= i < calls ==> threads[i].badge == i + 1)
  }

  lemma NothingNumbered()
    ensures Numbered([], 0, 1)
  {
  }

  lemma OneMoreCall(threads: seq<Thread>, calls: nat, next: nat, after: seq<Thread>)
    requires Numbered(threads, calls, next)
    requires after == threads || exists t: Thread :: t.badge == next && after == threads + [t]
    ensures Numbered(after, calls + 1, next + 1)
  {
  }

  lemma NoThreads(handedOut: set<nat>, limit: nat)
    ensures Apart([], handedOut, limit)
  {
  }

  /** A badge belongs to one thread only. */
  lemma BadgeNamesOneThread(threads: seq<Thread>, next: nat, i: nat, j: nat)
    requires BadgesInOrder(threads, next) && i < |threads| && j < |threads| && threads[i].badge == threads[j].badge
    ensures i == j
  {
  }

  /** ThreadTable::get: the first thread with a badge. */
  method Lookup(threads: seq<Thread>, badge: nat) returns (t: Option<Thread>)
    ensures t.None? <==> forall i :: 0 <= i < |threads| ==> threads[i].badge != badge
    ensures t.Some? ==> t.value in threads && t.value.badge == badge
    ensures forall next: nat, i :: BadgesInOrder(threads, next) && 0 <= i < |threads| && threads[i].badge == badge ==>
      t == Some(threads[i])
  {
    for i := 0 to |threads|
      invariant forall j :: 0 <= j < i ==> threads[j].badge != badge
    {
      if threads[i].badge == badge {
        forall next: nat, j | BadgesInOrder(threads, next) && 0 <= j < |threads| && threads[j].badge == badge
          ensures threads[i] == threads[j]
        {
          BadgeNamesOneThread(threads, next, i, j);
        }
        return Some(threads[i]);
      }
    }
    return None;
  }
}
