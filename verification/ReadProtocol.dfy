/** The read protocol as a whole: client, FIFO channel to the backend, backend, FIFO channel
    back, and timers. Calls, backend turns, deliveries, timeouts, state changes and the terminal
    flush interleave freely. */
module ReadProtocol {
  import opened Machine
  import opened PendingReads

  /** A response in flight. `call` says whose request it answers; the client does not see it. */
  datatype Response = Response(call: nat, address: nat, data: seq<byte>)

  /** `produced` records the bytes the backend read for each request it served. */
  datatype System = System(
    client: Client,
    out: seq<Request>,
    back: seq<Response>,
    produced: map<nat, seq<byte>>,
    closed: bool)

  ghost predicate Init(s: System) {
    s == System(Client(false, map[], {}, [], 0), [], [], map[], false)
  }

  ghost predicate CallStep(s: System, t: System, address: nat, size: int) {
    && t.client == Read(s.client, address, size)
    && t.out == s.out + (if Sends(s.client, size) then [Request(s.client.next, address, size)] else [])
    && t == s.(client := t.client, out := t.out)
  }

  /** The backend serves the oldest request: all the bytes asked for, or none if unreadable. */
  ghost predicate BackendStep(s: System, t: System, data: seq<byte>) {
    && !s.closed && s.out != []
    && var r := s.out[0];
       && (|data| == r.size || data == [])
       && t == s.(out := s.out[1..],
                  back := s.back + [Response(r.call, r.address, data)],
                  produced := s.produced[r.call := data])
  }

  ghost predicate DeliverStep(s: System, t: System) {
    && s.back != []
    && t == s.(back := s.back[1..], client := Respond(s.client, s.back[0].address, s.back[0].data))
  }

  ghost predicate TimeoutStep(s: System, t: System, call: nat) {
    call < s.client.next && t == s.(client := Finish(s.client, call, None))
  }

  ghost predicate StateStep(s: System, t: System, paused: bool) {
    t == s.(client := s.client.(paused := paused))
  }

  /** stop(), a worker error or the end message: the worker is gone and nothing more arrives. */
  ghost predicate FlushStep(s: System, t: System) {
    Flushed(s.client, t.client) && t == s.(client := t.client, out := [], back := [], closed := true)
  }

  ghost predicate Next(s: System, t: System) {
    || (exists address, size :: CallStep(s, t, address, size))
    || (exists data :: BackendStep(s, t, data))
    || DeliverStep(s, t)
    || (exists call :: TimeoutStep(s, t, call))
    || (exists paused :: StateStep(s, t, paused))
    || FlushStep(s, t)
  }

  ghost predicate Execution(trace: seq<System>) {
    && 0 < |trace| && Init(trace[0])
    && forall i :: 0 <= i < |trace| - 1 ==> Next(trace[i], trace[i + 1])
  }

  // ----- What is in flight -----

  /** The calls of the responses, then of the requests, that concern one address. */
  ghost function Returning(back: seq<Response>, address: nat): seq<nat> {
    if back == [] then []
    else (if back[0].address == address then [back[0].call] else []) + Returning(back[1..], address)
  }

  ghost function Outgoing(out: seq<Request>, address: nat): seq<nat> {
    if out == [] then []
    else (if out[0].address == address then [out[0].call] else []) + Outgoing(out[1..], address)
  }

  ghost function Flight(s: System, address: nat): seq<nat> {
    Returning(s.back, address) + Outgoing(s.out, address)
  }

  lemma {:induction false} ReturningAppend(a: seq<Response>, b: seq<Response>, address: nat)
    ensures Returning(a + b, address) == Returning(a, address) + Returning(b, address)
  {
    if a == [] {
      assert a + b == b;
    } else {
      assert (a + b)[0] == a[0] && (a + b)[1..] == a[1..] + b;
      ReturningAppend(a[1..], b, address);
      var first := if a[0].address == address then [a[0].call] else [];
      assert first + (Returning(a[1..], address) + Returning(b, address)) == (first + Returning(a[1..], address)) + Returning(b, address);
    }
  }

  lemma {:induction false} OutgoingAppend(a: seq<Request>, b: seq<Request>, address: nat)
    ensures Outgoing(a + b, address) == Outgoing(a, address) + Outgoing(b, address)
  {
    if a == [] {
      assert a + b == b;
    } else {
      assert (a + b)[0] == a[0] && (a + b)[1..] == a[1..] + b;
      OutgoingAppend(a[1..], b, address);
      var first := if a[0].address == address then [a[0].call] else [];
      assert first + (Outgoing(a[1..], address) + Outgoing(b, address)) == (first + Outgoing(a[1..], address)) + Outgoing(b, address);
    }
  }

  /** A response, or a request, for this address and call is on its way. */
  ghost predicate Responding(back: seq<Response>, address: nat, call: nat) {
    exists i :: 0 <= i < |back| && back[i].address == address && back[i].call == call
  }

  ghost predicate Requested(out: seq<Request>, address: nat, call: nat) {
    exists i :: 0 <= i < |out| && out[i].address == address && out[i].call == call
  }

  lemma {:induction false} ReturningIff(back: seq<Response>, address: nat, call: nat)
    ensures call in Returning(back, address) <==> Responding(back, address, call)
  {
    if back != [] {
      var rest := back[1..];
      ReturningIff(rest, address, call);
      if Responding(rest, address, call) {
        var i :| 0 <= i < |rest| && rest[i].address == address && rest[i].call == call;
        assert back[i + 1] == rest[i];
      }
      if i :| 0 < i < |back| && back[i].address == address && back[i].call == call {
        assert rest[i - 1] == back[i];
      }
    }
  }

  lemma {:induction false} OutgoingIff(out: seq<Request>, address: nat, call: nat)
    ensures call in Outgoing(out, address) <==> Requested(out, address, call)
  {
    if out != [] {
      var rest := out[1..];
      OutgoingIff(rest, address, call);
      if Requested(rest, address, call) {
        var i :| 0 <= i < |rest| && rest[i].address == address && rest[i].call == call;
        assert out[i + 1] == rest[i];
      }
      if i :| 0 < i < |out| && out[i].address == address && out[i].call == call {
        assert rest[i - 1] == out[i];
      }
    }
  }

  // ----- The invariant -----

  /** The client's queue for an address is exactly what is in flight for it, in order. */
  ghost predicate Aligned(s: System) {
    && (forall a :: a in s.client.pending ==> s.client.pending[a] != [])
    && forall a :: Queue(s.client, a) == Flight(s, a)
  }

  /** Each promise resolves at most once; with bytes, only those read for that very call. */
  ghost predicate OutcomesOk(s: System) {
    && Distinct(s.client.outcomes)
    && s.client.settled == Calls(s.client.outcomes)
    && (forall o :: o in s.client.outcomes && o.result.Some? ==>
          o.result.value != [] && o.call in s.produced && s.produced[o.call] == o.result.value)
  }

  /** A call that has not resolved is still queued; numbers in use are below `next`. */
  ghost predicate NothingLost(s: System) {
    && (forall call: nat :: call < s.client.next ==> call in s.client.settled || Queued(s.client, call))
    && (forall call :: call in s.client.settled || call in s.produced ==> call < s.client.next)
    && (forall i :: 0 <= i < |s.out| ==> s.out[i].call < s.client.next && s.out[i].call !in s.produced)
    && (forall i, j :: 0 <= i < j < |s.out| ==> s.out[i].call < s.out[j].call)
    && (forall i :: 0 <= i < |s.back| ==>
          s.back[i].call in s.produced && s.produced[s.back[i].call] == s.back[i].data)
  }

  ghost predicate Inv(s: System) {
    Aligned(s) && OutcomesOk(s) && NothingLost(s)
  }

  lemma FinishOutcomes(c: Client, call: nat, result: Option<seq<byte>>)
    requires Distinct(c.outcomes) && c.settled == Calls(c.outcomes)
    ensures var d := Finish(c, call, result);
            && Distinct(d.outcomes) && d.settled == Calls(d.outcomes)
            && (forall o :: o in d.outcomes ==> o in c.outcomes || (call !in c.settled && o == Outcome(call, result)))
            && call in d.settled && c.settled <= d.settled <= c.settled + {call}
  {
    if call !in c.settled {
      CallsAppend(c.outcomes, Outcome(call, result));
      forall i | 0 <= i < |c.outcomes|
        ensures c.outcomes[i].call in Calls(c.outcomes)
      {
      }
    }
  }

  lemma CallKeeps(s: System, t: System, address: nat, size: int)
    requires Inv(s) && CallStep(s, t, address, size)
    ensures Inv(t)
  {
    if Sends(s.client, size) {
      SendAligned(s, t, address, size);
      SendNothingLost(s, t, address, size);
    } else {
      FinishOutcomes(s.client.(next := s.client.next + 1), s.client.next, None);
      assert t.out == s.out;
      assert forall a :: Queue(t.client, a) == Queue(s.client, a) && Flight(t, a) == Flight(s, a);
      assert forall c :: Queued(s.client, c) ==> Queued(t.client, c);
    }
  }

  lemma OutgoingOne(r: Request, address: nat)
    ensures Outgoing([r], address) == if r.address == address then [r.call] else []
  {
    assert [r][1..] == [];
  }

  lemma SendAligned(s: System, t: System, address: nat, size: int)
    requires Aligned(s) && CallStep(s, t, address, size) && Sends(s.client, size)
    ensures Aligned(t)
  {
    hide Outgoing, Returning;
    var call := s.client.next;
    var r := Request(call, address, size);
    forall a
      ensures Queue(t.client, a) == Flight(t, a)
    {
      OutgoingAppend(s.out, [r], a);
      OutgoingOne(r, a);
      assert Queue(s.client, a) == Flight(s, a);
    }
  }

  lemma SendNothingLost(s: System, t: System, address: nat, size: int)
    requires NothingLost(s) && CallStep(s, t, address, size) && Sends(s.client, size)
    ensures NothingLost(t)
  {
    var call := s.client.next;
    assert call in t.client.pending[address];
    forall c: nat | c < t.client.next
      ensures c in t.client.settled || Queued(t.client, c)
    {
      if c < call && c !in s.client.settled {
        var a :| a in s.client.pending && c in s.client.pending[a];
        assert c in t.client.pending[a];
      }
    }
  }

  lemma BackendKeeps(s: System, t: System, data: seq<byte>)
    requires Inv(s) && BackendStep(s, t, data)
    ensures Inv(t)
  {
    var r := s.out[0];
    forall a
      ensures Queue(t.client, a) == Flight(t, a)
    {
      ReturningAppend(s.back, [Response(r.call, r.address, data)], a);
      assert Returning([Response(r.call, r.address, data)], a) == if r.address == a then [r.call] else [];
      assert Queue(s.client, a) == Flight(s, a);
    }
    assert r.call !in s.produced;
  }

  /** The heart of the protocol: the queue's head is the call whose response arrives. */
  lemma ResponseFindsItsCall(s: System)
    requires Aligned(s) && s.back != []
    ensures var q := Queue(s.client, s.back[0].address);
            q != [] && q[0] == s.back[0].call
  {
    assert Queue(s.client, s.back[0].address) == Flight(s, s.back[0].address);
  }

  lemma DeliverAligned(s: System, t: System)
    requires Aligned(s) && DeliverStep(s, t)
    ensures Aligned(t)
    ensures forall c :: Queued(s.client, c) && c != s.back[0].call ==> Queued(t.client, c)
  {
    var r := s.back[0];
    var q := Queue(s.client, r.address);
    ResponseFindsItsCall(s);
    forall a
      ensures Queue(t.client, a) == Flight(t, a)
    {
      assert Queue(s.client, a) == Flight(s, a);
      if a == r.address {
        assert Flight(s, a) == [r.call] + Flight(t, a);
        assert Queue(t.client, a) == q[1..];
      }
    }
    forall c | Queued(s.client, c) && c != r.call
      ensures Queued(t.client, c)
    {
      var a :| a in s.client.pending && c in s.client.pending[a];
      if a == r.address {
        assert q == [q[0]] + q[1..];
        assert c in q[1..];
      }
      assert a in t.client.pending && c in t.client.pending[a];
    }
  }

  lemma DeliverKeeps(s: System, t: System)
    requires Inv(s) && DeliverStep(s, t)
    ensures Inv(t)
  {
    var r := s.back[0];
    ResponseFindsItsCall(s);
    DeliverAligned(s, t);
    var rest := s.client.(pending := t.client.pending);
    FinishOutcomes(rest, r.call, if 0 < |r.data| then Some(r.data) else None);
  }

  lemma TimeoutKeeps(s: System, t: System, call: nat)
    requires Inv(s) && TimeoutStep(s, t, call)
    ensures Inv(t)
  {
    FinishOutcomes(s.client, call, None);
    assert forall a :: Queue(t.client, a) == Queue(s.client, a) && Flight(t, a) == Flight(s, a);
    assert forall c :: Queued(s.client, c) ==> Queued(t.client, c);
  }

  lemma StateKeeps(s: System, t: System, paused: bool)
    requires Inv(s) && StateStep(s, t, paused)
    ensures Inv(t)
  {
    assert forall a :: Queue(t.client, a) == Queue(s.client, a) && Flight(t, a) == Flight(s, a);
    assert forall c :: Queued(s.client, c) ==> Queued(t.client, c);
  }

  lemma QueuedIsIssued(s: System, call: nat)
    requires Inv(s) && Queued(s.client, call)
    ensures call < s.client.next
  {
    var a :| a in s.client.pending && call in s.client.pending[a];
    assert call in Flight(s, a);
    ReturningIff(s.back, a, call);
    OutgoingIff(s.out, a, call);
  }

  lemma FlushKeeps(s: System, t: System)
    requires Inv(s) && FlushStep(s, t)
    ensures Inv(t)
  {
    var c, d := s.client, t.client;
    var more := d.outcomes[|c.outcomes|..];
    assert d.outcomes == c.outcomes + more;
    assert forall a :: Queue(d, a) == [] && Flight(t, a) == [];
    CallsConcat(c.outcomes, more);
    forall i | 0 <= i < |c.outcomes|
      ensures c.outcomes[i].call in c.settled
    {
    }
    forall call | call in d.settled
      ensures call < d.next
    {
      if call !in c.settled {
        assert call in Calls(more);
        QueuedIsIssued(s, call);
      }
    }
    forall o | o in d.outcomes && o.result.Some?
      ensures o in c.outcomes
    {
    }
  }

  lemma CallsConcat(a: seq<Outcome>, b: seq<Outcome>)
    ensures Calls(a + b) == Calls(a) + Calls(b)
  {
    if b == [] {
      assert a + b == a;
    } else {
      var n := |b| - 1;
      CallsConcat(a, b[..n]);
      assert a + b == (a + b[..n]) + [b[n]];
      CallsAppend(a + b[..n], b[n]);
      assert b == b[..n] + [b[n]];
      CallsAppend(b[..n], b[n]);
    }
  }

  lemma StepKeeps(s: System, t: System)
    requires Inv(s) && Next(s, t)
    ensures Inv(t)
  {
    hide Inv, CallStep, BackendStep, DeliverStep, TimeoutStep, StateStep, FlushStep;
    if address, size :| CallStep(s, t, address, size) {
      CallKeeps(s, t, address, size);
    } else if data :| BackendStep(s, t, data) {
      BackendKeeps(s, t, data);
    } else if DeliverStep(s, t) {
      DeliverKeeps(s, t);
    } else if call :| TimeoutStep(s, t, call) {
      TimeoutKeeps(s, t, call);
    } else if paused :| StateStep(s, t, paused) {
      StateKeeps(s, t, paused);
    } else {
      FlushKeeps(s, t);
    }
  }

  lemma {:induction false} InvHolds(trace: seq<System>, i: nat)
    requires Execution(trace) && i < |trace|
    ensures Inv(trace[i])
  {
    if i != 0 {
      InvHolds(trace, i - 1);
      StepKeeps(trace[i - 1], trace[i - 1 + 1]);
    }
  }

  // ----- What callers get -----

  /** In every run: no promise resolves twice, and bytes are the bytes read for that call. */
  lemma SettlesOnceWithOwnBytes(trace: seq<System>, i: nat)
    requires Execution(trace) && i < |trace|
    ensures Distinct(trace[i].client.outcomes)
    ensures forall o :: o in trace[i].client.outcomes && o.result.Some? ==>
              o.call in trace[i].produced && trace[i].produced[o.call] == o.result.value
  {
    InvHolds(trace, i);
  }

  /** In every run, whatever has timed out: the queue of an address is what is in flight for it. */
  lemma QueueIsFlight(trace: seq<System>, i: nat, address: nat)
    requires Execution(trace) && i < |trace|
    ensures Queue(trace[i].client, address) == Flight(trace[i], address)
  {
    InvHolds(trace, i);
  }

  /** A response always settles its own call if that call is still waiting, and no other. */
  lemma ResponseSettlesItsCall(trace: seq<System>, i: nat)
    requires Execution(trace) && i + 1 < |trace| && DeliverStep(trace[i], trace[i + 1])
    ensures var s, t, r := trace[i].client, trace[i + 1].client, trace[i].back[0];
            && t.settled == s.settled + {r.call}
            && t.outcomes == s.outcomes + if r.call in s.settled then []
                                          else [Outcome(r.call, if r.data == [] then None else Some(r.data))]
  {
    InvHolds(trace, i);
    ResponseFindsItsCall(trace[i]);
  }

  /** No call is lost: unresolved means still queued. */
  lemma UnresolvedIsQueued(trace: seq<System>, i: nat, call: nat)
    requires Execution(trace) && i < |trace|
    ensures call < trace[i].client.next ==> call in trace[i].client.settled || Queued(trace[i].client, call)
  {
    InvHolds(trace, i);
  }

  /** A call is queued under an address exactly when a message for it is in flight: every message
      finds its entry, and no entry waits for a message that will not come. */
  lemma QueuedIffInFlight(trace: seq<System>, i: nat, address: nat, call: nat)
    requires Execution(trace) && i < |trace|
    ensures call in Queue(trace[i].client, address)
       <==> Responding(trace[i].back, address, call) || Requested(trace[i].out, address, call)
  {
    QueueIsFlight(trace, i, address);
    ReturningIff(trace[i].back, address, call);
    OutgoingIff(trace[i].out, address, call);
  }

  /** So a call that has not settled has its request or its response on the way. */
  lemma WaitingIsInFlight(trace: seq<System>, i: nat, call: nat)
    requires Execution(trace) && i < |trace|
    requires call < trace[i].client.next && call !in trace[i].client.settled
    ensures exists address :: Responding(trace[i].back, address, call) || Requested(trace[i].out, address, call)
  {
    UnresolvedIsQueued(trace, i, call);
    var a :| a in trace[i].client.pending && call in trace[i].client.pending[a];
    QueuedIffInFlight(trace, i, a, call);
  }

  /** A call on a paused emulator with a positive size puts exactly one request on the way and stays
      open; any other call is answered with null at once and sends nothing. */
  lemma CallSendsIff(trace: seq<System>, i: nat, address: nat, size: int)
    requires Execution(trace) && i + 1 < |trace| && CallStep(trace[i], trace[i + 1], address, size)
    ensures var s, t := trace[i], trace[i + 1];
            var call := s.client.next;
            && t.client.next == call + 1 && t.back == s.back
            && (s.client.paused && 0 < size ==>
                  && t.out == s.out + [Request(call, address, size)] && t.client.outcomes == s.client.outcomes
                  && call in Queue(t.client, address) && call !in t.client.settled)
            && (!(s.client.paused && 0 < size) ==>
                  t.out == s.out && t.client.outcomes == s.client.outcomes + [Outcome(call, None)])
  {
    InvHolds(trace, i);
  }
}
