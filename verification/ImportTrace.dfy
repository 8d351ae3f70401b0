/** The instructions a capture saw, and which of them enter the middle of a repaired call site. */
module ImportTrace {
  /** Addresses count from the image base; `sequence` numbers all events of the capture. */
  datatype Instruction = Instruction(thread: nat, sequence: nat, address: int, size: nat)

  predicate Interior(i: Instruction, site: nat, length: nat) { 0 < i.address - site < length }

  /** `b` was executed straight after `a`, behind it, and `a` is not before the site. */
  predicate Follows(a: Instruction, b: Instruction, site: nat) {
    a.sequence + 1 == b.sequence && a.address + a.size == b.address && site <= a.address
  }

  /** The last instruction of the thread before the one at `e`. */
  ghost predicate Previous(trace: seq<Instruction>, p: nat, e: nat) {
    && p < e < |trace| && trace[p].thread == trace[e].thread
    && forall q :: p < q < e ==> trace[q].thread != trace[e].thread
  }

  /** The thread's previous instruction ran one event earlier, ends where this one begins, and does
      not lie before the site. */
  ghost predicate Straight(trace: seq<Instruction>, e: nat, site: nat)
    requires e < |trace|
  {
    exists p: nat ::
      && Previous(trace, p, e) && trace[p].sequence + 1 == trace[e].sequence
      && trace[p].address + trace[p].size == trace[e].address && site <= trace[p].address
  }

  /** Some execution path comes to the middle of the site from elsewhere. */
  ghost predicate Entered(trace: seq<Instruction>, site: nat, length: nat) {
    exists e: nat :: EntersAt(trace, e, site, length)
  }

  ghost predicate EntersAt(trace: seq<Instruction>, e: nat, site: nat, length: nat) {
    e < |trace| && site < trace[e].address < site + length && !Straight(trace, e, site)
  }

  /** The last instruction of every thread among the first `n`. */
  ghost predicate LastSeen(trace: seq<Instruction>, n: nat, last: map<nat, Instruction>) {
    && n <= |trace|
    && (forall q :: 0 <= q < n ==> trace[q].thread in last)
    && (forall t :: t in last ==> exists p: nat :: LastOf(trace, n, t, p) && last[t] == trace[p])
  }

  ghost predicate LastOf(trace: seq<Instruction>, n: nat, t: nat, p: nat) {
    p < n <= |trace| && trace[p].thread == t && forall q :: p < q < n ==> trace[q].thread != t
  }

  method FindEntry(trace: seq<Instruction>, site: nat, length: nat) returns (entered: bool)
    ensures entered <==> Entered(trace, site, length)
  {
    hide Follows, LastSeen;
    var last: map<nat, Instruction> := map[];
    NoneSeen(trace);
    for i := 0 to |trace|
      invariant LastSeen(trace, i, last)
      invariant forall e: nat :: e < i ==> !EntersAt(trace, e, site, length)
    {
      var event := trace[i];
      StraightLast(trace, i, last, site);
      if Interior(event, site, length) && !(event.thread in last && Follows(last[event.thread], event, site)) {
        assert EntersAt(trace, i, site, length);
        return true;
      }
      SeenNext(trace, i, last);
      last := last[event.thread := event];
    }
    return false;
  }

  lemma NoneSeen(trace: seq<Instruction>)
    ensures LastSeen(trace, 0, map[])
  {
  }

  lemma SeenNext(trace: seq<Instruction>, i: nat, last: map<nat, Instruction>)
    requires i < |trace| && LastSeen(trace, i, last)
    ensures LastSeen(trace, i + 1, last[trace[i].thread := trace[i]])
  {
    var more := last[trace[i].thread := trace[i]];
    forall t | t in more
      ensures exists p: nat :: LastOf(trace, i + 1, t, p) && more[t] == trace[p]
    {
      if t == trace[i].thread {
        assert LastOf(trace, i + 1, t, i);
      } else {
        var p: nat :| LastOf(trace, i, t, p) && last[t] == trace[p];
        assert LastOf(trace, i + 1, t, p);
      }
    }
  }

  /** The recorded instruction decides whether the next one was reached straight. */
  lemma StraightLast(trace: seq<Instruction>, i: nat, last: map<nat, Instruction>, site: nat)
    requires i < |trace| && LastSeen(trace, i, last)
    ensures Straight(trace, i, site) <==> trace[i].thread in last && Follows(last[trace[i].thread], trace[i], site)
  {
    var t := trace[i].thread;
    if t in last {
      var p: nat :| LastOf(trace, i, t, p) && last[t] == trace[p];
      assert Previous(trace, p, i);
      forall q: nat | Previous(trace, q, i)
        ensures q == p
      {
      }
    }
  }

  // ----- What an unentered site guarantees -----

  /** From `s` to `e` the thread ran the site from its first byte, each instruction straight after
      the one before, without leaving it. */
  ghost predicate RanThrough(trace: seq<Instruction>, s: nat, e: nat, site: nat, length: nat) {
    && s <= e < |trace| && trace[s].address == site && trace[s].thread == trace[e].thread
    && forall q: nat :: s < q <= e && trace[q].thread == trace[e].thread ==> Inner(trace, q, site, length)
  }

  ghost predicate Inner(trace: seq<Instruction>, q: nat, site: nat, length: nat) {
    q < |trace| && Interior(trace[q], site, length) && Straight(trace, q, site)
  }

  ghost predicate FromStart(trace: seq<Instruction>, e: nat, site: nat, length: nat) {
    exists s: nat :: s < e && RanThrough(trace, s, e, site, length)
  }

  lemma RanOn(trace: seq<Instruction>, s: nat, p: nat, e: nat, site: nat, length: nat)
    requires RanThrough(trace, s, p, site, length) && Previous(trace, p, e) && Inner(trace, e, site, length)
    ensures s < e && RanThrough(trace, s, e, site, length)
  {
    hide Inner;
    forall q: nat | s < q <= e && trace[q].thread == trace[e].thread
      ensures Inner(trace, q, site, length)
    {
      if p < q < e {
        assert false;
      }
    }
  }

  lemma {:induction false} ReachedFromStart(trace: seq<Instruction>, site: nat, length: nat, e: nat)
    requires !Entered(trace, site, length) && e < |trace| && Interior(trace[e], site, length)
    requires forall q :: 0 <= q < |trace| ==> 0 < trace[q].size
    ensures FromStart(trace, e, site, length)
    decreases e
  {
    hide RanThrough;
    assert !EntersAt(trace, e, site, length);
    var p: nat :| Previous(trace, p, e) && Follows(trace[p], trace[e], site);
    if trace[p].address == site {
      OnlyStart(trace, p, site, length);
      RanOn(trace, p, p, e, site, length);
    } else {
      ReachedFromStart(trace, site, length, p);
      var s: nat :| s < p && RanThrough(trace, s, p, site, length);
      RanOn(trace, s, p, e, site, length);
    }
  }

  lemma OnlyStart(trace: seq<Instruction>, p: nat, site: nat, length: nat)
    requires p < |trace| && trace[p].address == site
    ensures RanThrough(trace, p, p, site, length)
  {
  }

  /** No path enters the middle of a site exactly when every instruction seen there was reached from
      the site's first byte through the site alone: a call put in its place is run from its start. */
  lemma UnenteredIff(trace: seq<Instruction>, site: nat, length: nat)
    requires forall q :: 0 <= q < |trace| ==> 0 < trace[q].size
    ensures !Entered(trace, site, length)
            <==> forall e: nat :: e < |trace| && Interior(trace[e], site, length) ==> FromStart(trace, e, site, length)
  {
    hide Straight;
    if !Entered(trace, site, length) {
      forall e: nat | e < |trace| && Interior(trace[e], site, length)
        ensures FromStart(trace, e, site, length)
      {
        ReachedFromStart(trace, site, length, e);
      }
    }
    forall e: nat | e < |trace| && Interior(trace[e], site, length) && FromStart(trace, e, site, length)
      ensures !EntersAt(trace, e, site, length)
    {
      var s: nat :| s < e && RanThrough(trace, s, e, site, length);
      assert Inner(trace, e, site, length);
    }
  }
}
