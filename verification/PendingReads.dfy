/** The page's memory-read client (page/src/emulator.ts): per-address queues of outstanding
    reads, with a timed-out read left in its queue as a tombstone.

    A call is known by its number. Numbers never travel: a request carries address and size, a
    response carries address and data, and the client must work out whose response it is. */
module PendingReads {
  import opened Machine

  datatype Outcome = Outcome(call: nat, result: Option<seq<byte>>)

  /** The client's fields: what it believes is pending, which entries have settled, and every
      promise resolution so far, in order. */
  datatype Client = Client(
    paused: bool,
    pending: map<nat, seq<nat>>,
    settled: set<nat>,
    outcomes: seq<Outcome>,
    next: nat)

  function Queue(c: Client, address: nat): seq<nat> {
    if address in c.pending then c.pending[address] else []
  }

  /** The `finish` closure of one call: resolve once, then ignore. */
  function Finish(c: Client, call: nat, result: Option<seq<byte>>): Client {
    if call in c.settled then c
    else c.(settled := c.settled + {call}, outcomes := c.outcomes + [Outcome(call, result)])
  }

  predicate Sends(c: Client, size: int) { 0 < size && c.paused }

  function Read(c: Client, address: nat, size: int): Client {
    var call := c.next;
    if Sends(c, size) then c.(pending := c.pending[address := Queue(c, address) + [call]], next := call + 1)
    else Finish(c.(next := call + 1), call, None)
  }

  function Respond(c: Client, address: nat, data: seq<byte>): Client {
    var queue := Queue(c, address);
    if queue == [] then c
    else
      var rest := if |queue| == 1 then c.pending - {address} else c.pending[address := queue[1..]];
      Finish(c.(pending := rest), queue[0], if 0 < |data| then Some(data) else None)
  }

  /** Everything queued and unsettled resolves to null, each entry once, in some order. */
  ghost predicate Flushed(c: Client, d: Client) {
    && d.paused == c.paused && d.next == c.next && d.pending == map[]
    && c.outcomes <= d.outcomes
    && var more := d.outcomes[|c.outcomes|..];
       && (forall i :: 0 <= i < |more| ==> more[i].result == None)
       && Distinct(more)
       && (forall i :: 0 <= i < |more| ==> more[i].call !in c.settled && Queued(c, more[i].call))
       && (forall call :: Queued(c, call) ==> call in d.settled)
       && d.settled == c.settled + Calls(more)
  }

  ghost predicate Queued(c: Client, call: nat) {
    exists a :: a in c.pending && call in c.pending[a]
  }

  ghost predicate Distinct(outcomes: seq<Outcome>) {
    forall i, j :: 0 <= i < j < |outcomes| ==> outcomes[i].call != outcomes[j].call
  }

  function Calls(outcomes: seq<Outcome>): set<nat> {
    set i | 0 <= i < |outcomes| :: outcomes[i].call
  }

  // ----- The class -----

  datatype Request = Request(call: nat, address: nat, size: nat)

  /** The client as it is written: fields changed by calls, timers and messages. */
  class Emulator {
    var paused: bool
    var pendingMemoryReads: map<nat, seq<nat>>
    var settled: set<nat>
    var outcomes: seq<Outcome>
    var next: nat
    var posted: seq<Request>

    function Abs(): Client
      reads this
    {
      Client(paused, pendingMemoryReads, settled, outcomes, next)
    }

    constructor ()
      ensures Abs() == Client(false, map[], {}, [], 0) && posted == []
    {
      paused, pendingMemoryReads, settled, outcomes, next, posted := false, map[], {}, [], 0, [];
    }

    method Settle(call: nat, result: Option<seq<byte>>)
      modifies this`settled, this`outcomes
      ensures Abs() == Finish(old(Abs()), call, result)
      ensures settled == old(settled) + {call}
      ensures outcomes == old(outcomes) + if call in old(settled) then [] else [Outcome(call, result)]
    {
      if call in settled {
        return;
      }
      settled := settled + {call};
      outcomes := outcomes + [Outcome(call, result)];
    }

    method ReadMemory(address: nat, size: int) returns (call: nat)
      modifies this
      ensures call == old(next) && Abs() == Read(old(Abs()), address, size)
      ensures paused == old(paused) && next == call + 1
      ensures old(paused) && 0 < size ==>
                && posted == old(posted) + [Request(call, address, size)]
                && Queue(Abs(), address) == old(Queue(Abs(), address)) + [call]
                && (forall a :: a != address ==> Queue(Abs(), a) == old(Queue(Abs(), a)))
                && outcomes == old(outcomes) && settled == old(settled)
      ensures !(old(paused) && 0 < size) ==>
                && posted == old(posted) && pendingMemoryReads == old(pendingMemoryReads)
                && settled == old(settled) + {call}
                && (call !in old(settled) ==> outcomes == old(outcomes) + [Outcome(call, None)])
    {
      call := next;
      next := next + 1;
      if size <= 0 || !paused {
        Settle(call, None);
        return;
      }
      if address in pendingMemoryReads {
        pendingMemoryReads := pendingMemoryReads[address := pendingMemoryReads[address] + [call]];
      } else {
        assert [] + [call] == [call];
        pendingMemoryReads := pendingMemoryReads[address := [call]];
      }
      posted := posted + [Request(call, address, size)];
    }

    method HandleReadMemoryResponse(address: nat, data: seq<byte>)
      modifies this
      ensures Abs() == Respond(old(Abs()), address, data) && posted == old(posted)
      ensures paused == old(paused) && next == old(next)
      ensures forall a :: a != address ==> Queue(Abs(), a) == old(Queue(Abs(), a))
      ensures var queue := old(Queue(Abs(), address));
              if queue == [] then unchanged(this)
              else && Queue(Abs(), address) == queue[1..] && settled == old(settled) + {queue[0]}
                   && outcomes == old(outcomes)
                      + if queue[0] in old(settled) then [] else [Outcome(queue[0], if data == [] then None else Some(data))]
    {
      if address !in pendingMemoryReads || |pendingMemoryReads[address]| == 0 {
        return;
      }
      var queue := pendingMemoryReads[address];
      var call, rest := queue[0], queue[1..];
      if |rest| == 0 {
        pendingMemoryReads := pendingMemoryReads - {address};
      } else {
        pendingMemoryReads := pendingMemoryReads[address := rest];
      }
      if call in settled {
        return;
      }
      Settle(call, if |data| > 0 then Some(data) else None);
    }

    method FlushPendingMemoryRequests()
      modifies this
      ensures Flushed(old(Abs()), Abs()) && posted == old(posted)
    {
      var taken := pendingMemoryReads;
      pendingMemoryReads := map[];
      var keys := taken.Keys;
      ghost var before := old(Abs());
      while keys != {}
        invariant keys <= taken.Keys
        invariant Abs().(pending := before.pending) == before.(settled := settled, outcomes := outcomes)
        invariant pendingMemoryReads == map[] && posted == old(posted)
        invariant Flushing(before, settled, outcomes)
        invariant forall a, call :: a in taken && a !in keys && call in taken[a] ==> call in settled
        decreases |keys|
      {
        var a :| a in keys;
        keys := keys - {a};
        for i := 0 to |taken[a]|
          invariant Abs().(pending := before.pending) == before.(settled := settled, outcomes := outcomes)
          invariant pendingMemoryReads == map[] && posted == old(posted)
          invariant Flushing(before, settled, outcomes)
          invariant forall k, call :: k in taken && k !in keys && k != a && call in taken[k] ==> call in settled
          invariant forall j :: 0 <= j < i ==> taken[a][j] in settled
        {
          assert Queued(before, taken[a][i]);
          FlushOne(before, settled, outcomes, taken[a][i]);
          Settle(taken[a][i], None);
        }
      }
    }
  }

  /** Part-way through a flush that began in `c`. */
  ghost predicate Flushing(c: Client, settled: set<nat>, outcomes: seq<Outcome>) {
    && c.outcomes <= outcomes
    && var more := outcomes[|c.outcomes|..];
       && (forall i :: 0 <= i < |more| ==> more[i].result == None && more[i].call !in c.settled && Queued(c, more[i].call))
       && Distinct(more)
       && settled == c.settled + Calls(more)
  }

  lemma FlushOne(c: Client, settled: set<nat>, outcomes: seq<Outcome>, call: nat)
    requires Flushing(c, settled, outcomes) && Queued(c, call)
    ensures call !in settled ==> Flushing(c, settled + {call}, outcomes + [Outcome(call, None)])
  {
    var more := outcomes[|c.outcomes|..];
    assert (outcomes + [Outcome(call, None)])[|c.outcomes|..] == more + [Outcome(call, None)];
    CallsAppend(more, Outcome(call, None));
    forall i | 0 <= i < |more|
      ensures more[i].call in Calls(more)
    {
    }
  }

  lemma CallsAppend(outcomes: seq<Outcome>, o: Outcome)
    ensures Calls(outcomes + [o]) == Calls(outcomes) + {o.call}
  {
    var s := outcomes + [o];
    assert s[|outcomes|] == o;
    forall x | x in Calls(outcomes)
      ensures x in Calls(s)
    {
      var i :| 0 <= i < |outcomes| && outcomes[i].call == x;
      assert s[i].call == x;
    }
  }
}
