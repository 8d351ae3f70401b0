/** Threads, context switches and the round-robin choice (linux_thread.hpp, linux_emulator.cpp). */
module Scheduler {
  import opened Machine
  import opened Ordered

  /** The registers a thread owns, FS and GS base included. */
  datatype Regs = Regs(
    rax: u64, rbx: u64, rcx: u64, rdx: u64, rsi: u64, rdi: u64, rbp: u64, rsp: u64,
    r8: u64, r9: u64, r10: u64, r11: u64, r12: u64, r13: u64, r14: u64, r15: u64,
    rip: u64, rflags: u64, fsBase: u64, gsBase: u64)

  datatype Wait = Running | FutexWait(address: u64) | Sleeping(deadline: u64)

  datatype Thread = Thread(terminated: bool, wait: Wait, saved: Regs)

  predicate Ready(t: Thread, now: u64) {
    !t.terminated && match t.wait
                     case Running => true
                     case Sleeping(deadline) => now >= deadline
                     case FutexWait(_) => false
  }

  /** Alive, and either running or a sleeper whose deadline has come; never a futex waiter. */
  ghost predicate MayRun(t: Thread, now: u64) {
    !t.terminated && (t.wait == Running || (t.wait.Sleeping? && t.wait.deadline <= now))
  }

  // ----- Cyclic order -----

  /** The tids in the order the scheduler visits them after `from`: larger ones ascending, then
      from the smallest up to `from` itself. `Before` is that order. */
  ghost predicate Before(from: nat, x: nat, y: nat) {
    if from < x then x < y || y <= from else x < y <= from
  }

  /** How many table entries are visited up to and including `tid`, starting after `from`. */
  ghost function Distance(tids: set<nat>, from: nat, tid: nat): nat {
    |Between(tids, from, tid)|
  }

  ghost function Between(tids: set<nat>, from: nat, tid: nat): set<nat> {
    set x | x in tids && (x == tid || Before(from, x, tid))
  }

  /** The first ready thread other than `from` in cyclic order. */
  ghost predicate Choice(threads: map<nat, Thread>, from: nat, now: u64, tid: nat) {
    && tid in threads && tid != from && Ready(threads[tid], now)
    && forall x :: x in threads && x != from && Ready(threads[x], now) ==> x == tid || Before(from, tid, x)
  }

  ghost predicate NoChoice(threads: map<nat, Thread>, from: nat, now: u64) {
    forall x :: x in threads && x != from ==> !Ready(threads[x], now)
  }

  // ----- The emulator -----

  class LinuxEmulator {
    var threads: map<nat, Thread>
    var active: Option<nat>
    var cpu: Regs

    ghost predicate Valid()
      reads this
    {
      active.Some? ==> active.value in threads
    }

    /** The registers a thread would run with: the CPU's if it is active, else its saved ones. */
    ghost function Effective(tid: nat): Regs
      reads this
      requires tid in threads
    {
      if active == Some(tid) then cpu else threads[tid].saved
    }

    method ActivateThread(tid: nat) returns (ok: bool)
      requires Valid()
      modifies this
      ensures Valid()
      ensures ok <==> tid in old(threads) && !old(threads)[tid].terminated
      ensures !ok ==> threads == old(threads) && active == old(active) && cpu == old(cpu)
      ensures ok ==> active == Some(tid)
      ensures threads.Keys == old(threads).Keys
      ensures forall x :: x in threads ==> threads[x].(saved := old(threads)[x].saved) == old(threads)[x]
      ensures forall x :: x in threads && !threads[x].terminated ==> Effective(x) == old(Effective(x))
    {
      if tid !in threads || threads[tid].terminated {
        return false;
      }
      if active.Some? && !threads[active.value].terminated {
        threads := threads[active.value := threads[active.value].(saved := cpu)];
      }
      active := Some(tid);
      cpu := threads[tid].saved;
      return true;
    }

    /** The key after `tid`, or the length of the list: `upper_bound`. */
    method UpperBound(keys: seq<nat>, tid: nat) returns (i: nat)
      requires Sorted(keys)
      ensures i <= |keys| && (forall k :: 0 <= k < i ==> keys[k] <= tid) && (forall k :: i <= k < |keys| ==> tid < keys[k])
    {
      i := 0;
      while i < |keys| && keys[i] <= tid
        invariant i <= |keys| && forall k :: 0 <= k < i ==> keys[k] <= tid
      {
        i := i + 1;
      }
    }

    method PerformThreadSwitch(now: u64) returns (ok: bool)
      requires Valid()
      modifies this
      ensures Valid()
      ensures var from := if old(active).Some? then old(active).value else 0;
              if ok then active.Some? && Choice(old(threads), from, now, active.value)
              else NoChoice(old(threads), from, now) && threads == old(threads) && active == old(active) && cpu == old(cpu)
      ensures ok ==> MayRun(old(threads)[active.value], now)
      ensures !ok ==> forall x :: x in threads && old(active) != Some(x) && (x != 0 || old(active).Some?) ==> !MayRun(threads[x], now)
      ensures threads.Keys == old(threads).Keys
      ensures forall x :: x in threads && !threads[x].terminated ==> Effective(x) == old(Effective(x))
    {
      if |threads| == 0 {
        return false;
      }
      var oldTid := if active.Some? then active.value else 0;
      var next := FindNext(oldTid, now);
      if next.None? {
        return false;
      }
      ok := ActivateThread(next.value);
    }

    /** The scan: start after the old thread, wrap once, stop at the first ready other thread. */
    method FindNext(oldTid: nat, now: u64) returns (next: Option<nat>)
      ensures if next.Some? then Choice(threads, oldTid, now, next.value) else NoChoice(threads, oldTid, now)
    {
      hide Ascending, Choice, NoChoice, Ready;
      var keys := Ascending(threads.Keys);
      assert forall k :: k in keys <==> k in Elements(keys);
      var first := UpperBound(keys, oldTid);
      var start := first;
      var checked := 0;
      while checked < |keys|
        invariant 0 <= checked <= |keys| && 0 <= start <= |keys|
        invariant start == if first + checked <= |keys| then first + checked else first + checked - |keys|
        invariant forall n :: 0 <= n < checked ==> Passed(threads, Visit(keys, first, n), oldTid, now)
      {
        if start == |keys| {
          start := 0;
        }
        var candidate := keys[start];
        start := start + 1;
        if candidate == oldTid || !Ready(threads[candidate], now) {
          checked := checked + 1;
          continue;
        }
        FirstReady(threads, keys, first, oldTid, now, checked);
        return Some(candidate);
      }
      NoneReady(threads, keys, first, oldTid, now);
      return None;
    }
  }

  // ----- The visiting order -----

  /** The n-th key visited when the scan starts at index `first`. */
  ghost function Visit(keys: seq<nat>, first: nat, n: nat): nat
    requires first <= |keys| && n < |keys|
  {
    if first + n < |keys| then keys[first + n] else keys[first + n - |keys|]
  }

  ghost predicate Passed(threads: map<nat, Thread>, tid: nat, from: nat, now: u64) {
    tid in threads && (tid == from || !Ready(threads[tid], now))
  }

  lemma VisitAll(keys: seq<nat>, first: nat)
    requires first <= |keys|
    ensures forall k :: k in keys ==> exists n :: 0 <= n < |keys| && Visit(keys, first, n) == k
  {
    forall k | k in keys
      ensures exists n :: 0 <= n < |keys| && Visit(keys, first, n) == k
    {
      var i :| 0 <= i < |keys| && keys[i] == k;
      var n := if first <= i then i - first else i + |keys| - first;
      assert Visit(keys, first, n) == k;
    }
  }

  /** Every key is an earlier visit, this one, or comes after it in cyclic order. */
  lemma VisitOrder(keys: seq<nat>, first: nat, from: nat, n: nat)
    requires Sorted(keys) && first <= |keys| && n < |keys|
    requires (forall k :: 0 <= k < first ==> keys[k] <= from) && (forall k :: first <= k < |keys| ==> from < keys[k])
    ensures forall k :: k in keys ==>
              || (exists i :: 0 <= i < n && Visit(keys, first, i) == k)
              || k == Visit(keys, first, n)
              || Before(from, Visit(keys, first, n), k)
  {
    forall k | k in keys
      ensures || (exists i :: 0 <= i < n && Visit(keys, first, i) == k)
              || k == Visit(keys, first, n)
              || Before(from, Visit(keys, first, n), k)
    {
      var j :| 0 <= j < |keys| && keys[j] == k;
      var i := if first <= j then j - first else j + |keys| - first;
      assert Visit(keys, first, i) == k;
    }
  }

  /** The first visit that is not passed over is the choice. */
  lemma FirstReady(threads: map<nat, Thread>, keys: seq<nat>, first: nat, from: nat, now: u64, n: nat)
    requires Sorted(keys) && first <= |keys| && n < |keys| && forall k :: k in keys <==> k in threads
    requires (forall k :: 0 <= k < first ==> keys[k] <= from) && (forall k :: first <= k < |keys| ==> from < keys[k])
    requires forall i :: 0 <= i < n ==> Passed(threads, Visit(keys, first, i), from, now)
    requires var x := Visit(keys, first, n); x in threads && !Passed(threads, x, from, now)
    ensures Choice(threads, from, now, Visit(keys, first, n))
  {
    hide Before;
    VisitOrder(keys, first, from, n);
  }

  lemma NoneReady(threads: map<nat, Thread>, keys: seq<nat>, first: nat, from: nat, now: u64)
    requires first <= |keys| && forall k :: k in keys <==> k in threads
    requires forall i :: 0 <= i < |keys| ==> Passed(threads, Visit(keys, first, i), from, now)
    ensures NoChoice(threads, from, now)
  {
    VisitAll(keys, first);
  }

  // ----- Fairness -----

  /** A switch that does not pick `tid`, though it is ready, picks a thread strictly nearer to it. */
  lemma ChoiceNearer(threads: map<nat, Thread>, from: nat, now: u64, next: nat, tid: nat)
    requires Choice(threads, from, now, next)
    requires tid in threads && tid != from && Ready(threads[tid], now) && next != tid
    ensures Distance(threads.Keys, next, tid) < Distance(threads.Keys, from, tid)
  {
    var near, far := Between(threads.Keys, next, tid), Between(threads.Keys, from, tid);
    assert Before(from, next, tid);
    assert next in far && next !in near;
    assert near <= far;
    SubsetSmaller(near, far, next);
  }

  lemma SubsetSmaller(a: set<nat>, b: set<nat>, x: nat)
    requires a <= b && x in b && x !in a
    ensures |a| < |b|
  {
    var rest := b - {x};
    assert a <= rest;
    SubsetSize(a, rest);
  }

  lemma {:induction false} SubsetSize(a: set<nat>, b: set<nat>)
    requires a <= b
    ensures |a| <= |b|
    decreases |a|
  {
    if a != {} {
      var y :| y in a;
      SubsetSize(a - {y}, b - {y});
    }
  }

  /** A history of switches over a fixed set of threads: `tables[i]` is the table at switch i,
      `chosen[i]` the active thread before it. */
  ghost predicate History(tables: seq<map<nat, Thread>>, times: seq<u64>, chosen: seq<nat>, tids: set<nat>) {
    && |times| == |tables| && |chosen| == |tables| + 1
    && forall i :: 0 <= i < |tables| ==>
         tables[i].Keys == tids && Choice(tables[i], chosen[i], times[i], chosen[i + 1])
  }

  /** A thread that stays ready is active after at most as many switches as its cyclic distance. */
  lemma {:induction false} WithinDistance(tables: seq<map<nat, Thread>>, times: seq<u64>, chosen: seq<nat>,
                                          tids: set<nat>, tid: nat)
    requires History(tables, times, chosen, tids) && tid in tids
    requires forall i :: 0 <= i < |tables| ==> Ready(tables[i][tid], times[i])
    requires chosen[0] != tid && Distance(tids, chosen[0], tid) <= |tables|
    ensures exists i :: 0 < i <= Distance(tids, chosen[0], tid) && chosen[i] == tid
  {
    var d := Distance(tids, chosen[0], tid);
    assert tid in Between(tids, chosen[0], tid);
    assert 0 < d <= |tables|;
    assert Choice(tables[0], chosen[0], times[0], chosen[0 + 1]);
    if chosen[1] != tid {
      ChoiceNearer(tables[0], chosen[0], times[0], chosen[1], tid);
      LaterHistory(tables, times, chosen, tids);
      WithinDistance(tables[1..], times[1..], chosen[1..], tids, tid);
      var i :| 0 < i <= Distance(tids, chosen[1], tid) && chosen[1..][i] == tid;
      assert chosen[i + 1] == tid;
    } else {
      assert 0 < 1 <= d && chosen[1] == tid;
    }
  }

  lemma LaterHistory(tables: seq<map<nat, Thread>>, times: seq<u64>, chosen: seq<nat>, tids: set<nat>)
    requires History(tables, times, chosen, tids) && 0 < |tables|
    ensures History(tables[1..], times[1..], chosen[1..], tids)
  {
    forall i | 0 <= i < |tables[1..]|
      ensures tables[1..][i].Keys == tids && Choice(tables[1..][i], chosen[1..][i], times[1..][i], chosen[1..][i + 1])
    {
      assert Choice(tables[i + 1], chosen[i + 1], times[i + 1], chosen[i + 1 + 1]);
    }
  }

  /** Round robin is fair: over a fixed set of n threads, a thread that stays ready becomes
      active within n switches. */
  lemma ReadyThreadRuns(tables: seq<map<nat, Thread>>, times: seq<u64>, chosen: seq<nat>, tids: set<nat>, tid: nat)
    requires History(tables, times, chosen, tids) && tid in tids
    requires forall i :: 0 <= i < |tables| ==> Ready(tables[i][tid], times[i])
    requires chosen[0] != tid && |tids| <= |tables|
    ensures exists i :: 0 < i <= |tids| && chosen[i] == tid
  {
    SubsetSize(Between(tids, chosen[0], tid), tids);
    WithinDistance(tables, times, chosen, tids, tid);
    var i :| 0 < i <= Distance(tids, chosen[0], tid) && chosen[i] == tid;
    assert i <= |tids|;
  }
}
