/** The run/pause handshake between the debugger's main loop and the interrupt watcher.

    Two threads share three atomics. Every atomic read or write of async_handler.cpp is one
    step, and steps of the two threads interleave freely. The watcher's handler is the lambda
    of run_gdb_stub: it reads the client socket while `run_` holds and may clear `run_` itself
    when it sees an interrupt. The main loop reads the same socket in get_packet. */
module AsyncHandler {

  /** The worker's next action, in `work()` and in the handler it calls. */
  datatype Worker =
    | PollRun       // inner loop: read run_
    | PollStop      // inner loop, run_ was false: read stop_
    | ClearIdle     // inner loop body: is_running_ = false
    | CheckStop     // after the inner loop: read stop_
    | SetRunning    // is_running_ = true
    | HandlerTest   // handler: read can_run
    | HandlerRead   // handler body: receive from the socket
    | ClearRunning  // finally: is_running_ = false
    | Exited

  /** The controller's next action, in the packet loop, run(), pause() and the destructor. */
  datatype Controller =
    | Reading       // get_packet: receive from the socket
    | Acting        // handle a packet, report a stop
    | RunTest       // run(): read stop_
    | RunSet        // run(): run_ = true
    | RunPoll       // run(): read is_running_
    | RunPollStop   // run(), not running yet: read stop_
    | Emulating     // the guest runs
    | PauseClear    // pause(): run_ = false
    | PausePoll     // pause(): read is_running_
    | PausePollStop // pause(), still running: read stop_
    | StopSet       // destructor: stop_ = true
    | StopClear     // destructor: run_ = false
    | Joining
    | Joined

  datatype State = State(run: bool, stop: bool, isRunning: bool, worker: Worker, controller: Controller)

  ghost predicate Init(s: State) {
    s == State(false, false, false, PollRun, Acting)
  }

  ghost predicate WorkerStep(s: State, t: State) {
    match s.worker
    case PollRun => t == s.(worker := if s.run then CheckStop else PollStop)
    case PollStop => t == s.(worker := if s.stop then CheckStop else ClearIdle)
    case ClearIdle => t == s.(isRunning := false, worker := PollRun)
    case CheckStop => t == s.(worker := if s.stop then Exited else SetRunning)
    case SetRunning => t == s.(isRunning := true, worker := HandlerTest)
    case HandlerTest => t == s.(worker := if s.run then HandlerRead else ClearRunning)
    case HandlerRead => t == s.(worker := HandlerTest) || t == s.(worker := HandlerTest, run := false)
    case ClearRunning => t == s.(isRunning := false, worker := PollRun)
    case Exited => false
  }

  ghost predicate ControllerStep(s: State, t: State) {
    match s.controller
    case Reading => t == s || t == s.(controller := Acting)
    case Acting =>
      || t == s.(controller := Reading)
      || t == s.(controller := RunTest)
      || t == s.(controller := StopSet)
    case RunTest => t == s.(controller := if s.stop then Emulating else RunSet)
    case RunSet => t == s.(run := true, controller := RunPoll)
    case RunPoll => t == s.(controller := if s.isRunning then Emulating else RunPollStop)
    case RunPollStop => t == s.(controller := if s.stop then Emulating else RunPoll)
    case Emulating => t == s || t == s.(controller := PauseClear)
    case PauseClear => t == s.(run := false, controller := PausePoll)
    case PausePoll => t == s.(controller := if s.isRunning then PausePollStop else Acting)
    case PausePollStop => t == s.(controller := if s.stop then Acting else PausePoll)
    case StopSet => t == s.(stop := true, controller := StopClear)
    case StopClear => t == s.(run := false, controller := Joining)
    case Joining => s.worker == Exited && t == s.(controller := Joined)
    case Joined => false
  }

  ghost predicate Next(s: State, t: State) {
    WorkerStep(s, t) || ControllerStep(s, t)
  }

  ghost predicate Path(trace: seq<State>) {
    0 < |trace| && forall i :: 0 <= i < |trace| - 1 ==> Next(trace[i], trace[i + 1])
  }

  ghost predicate Execution(trace: seq<State>) {
    Path(trace) && Init(trace[0])
  }

  // ----- Safety -----

  predicate InHandler(w: Worker) {
    w.HandlerTest? || w.HandlerRead?
  }

  predicate Idle(w: Worker) {
    w.PollRun? || w.PollStop? || w.ClearIdle?
  }

  /** pause() has returned, or run() was never called, and no run() has started the worker since. */
  predicate Paused(c: Controller) {
    c.Reading? || c.Acting? || c.RunTest? || c.RunSet? || c.StopSet? || c.StopClear? || c.Joining? || c.Joined?
  }

  predicate RunWaits(c: Controller) { c.RunPoll? || c.RunPollStop? }

  predicate PauseWaits(c: Controller) { c.PausePoll? || c.PausePollStop? }

  /** The inductive invariant. Its core: is_running_ holds exactly between the worker's set and
      its clear, and a worker that has left the handler saw run_ false, which stays false until
      the next run(). */
  ghost predicate Inv(s: State) {
    && (s.isRunning <==> InHandler(s.worker) || s.worker.ClearRunning?)
    && (s.worker.ClearRunning? ==> !s.run)
    && (s.stop <==> s.controller.StopClear? || s.controller.Joining? || s.controller.Joined?)
    && (s.worker.Exited? ==> s.stop)
    && (s.controller.Joined? ==> s.worker.Exited?)
    && (Paused(s.controller) ==> !s.run && if s.stop then !InHandler(s.worker) && !s.worker.SetRunning? else Idle(s.worker))
    && (Paused(s.controller) ==> !s.worker.ClearRunning?)
    && (s.worker.CheckStop? || s.worker.SetRunning? ==> s.stop || (RunWaits(s.controller) && s.run))
    && (PauseWaits(s.controller) ==> !s.run)
    && (s.controller.Emulating? || s.controller.PauseClear? ==> s.isRunning || !s.run)
  }

  lemma InvStep(s: State, t: State)
    requires Inv(s) && Next(s, t)
    ensures Inv(t)
  {
  }

  lemma {:induction false} InvHolds(trace: seq<State>, i: nat)
    requires Execution(trace) && i < |trace|
    ensures Inv(trace[i])
  {
    if i != 0 {
      InvHolds(trace, i - 1);
      InvStep(trace[i - 1], trace[i - 1 + 1]);
    }
  }

  /** In every interleaving, from the moment pause() returns until the next run() sets run_, the
      worker is outside the handler. */
  lemma PausedMeansOutside(trace: seq<State>, i: nat)
    requires Execution(trace) && i < |trace| && Paused(trace[i].controller)
    ensures !InHandler(trace[i].worker) && !trace[i].isRunning
  {
    InvHolds(trace, i);
  }

  /** The main loop and the interrupt watcher never read the client socket at the same time. */
  lemma OneReader(trace: seq<State>, i: nat)
    requires Execution(trace) && i < |trace|
    ensures !(trace[i].controller.Reading? && trace[i].worker.HandlerRead?)
  {
    InvHolds(trace, i);
  }

  /** is_running_ tells the truth in every reachable state. */
  lemma FlagMeansRunning(trace: seq<State>, i: nat)
    requires Execution(trace) && i < |trace|
    ensures trace[i].isRunning <==> InHandler(trace[i].worker) || trace[i].worker.ClearRunning?
  {
    InvHolds(trace, i);
  }

  /** The destructor returns only after the worker has left its loop for good. */
  lemma JoinedMeansExited(trace: seq<State>, i: nat)
    requires Execution(trace) && i < |trace| && trace[i].controller.Joined?
    ensures trace[i].worker.Exited? && forall t :: !Next(trace[i], t)
  {
    InvHolds(trace, i);
  }

  // ----- pause() returns -----

  /** How many worker steps until is_running_ is clear, once run_ is. */
  function Remaining(w: Worker): nat {
    match w
    case HandlerRead => 3
    case HandlerTest => 2
    case ClearRunning => 1
    case _ => 0
  }

  /** The number of worker steps among the steps of a path. */
  ghost function WorkerSteps(trace: seq<State>): nat {
    if |trace| < 2 then 0
    else
      var n := |trace| - 1;
      WorkerSteps(trace[..n]) + if trace[n].controller == trace[n - 1].controller && trace[n] != trace[n - 1] then 1 else 0
  }

  /** While pause() waits, three steps of the worker are enough to clear is_running_, after which
      the next poll lets pause() return. */
  lemma {:induction false} PauseDrains(trace: seq<State>)
    requires Path(trace) && Inv(trace[0]) && forall i :: 0 <= i < |trace| ==> PauseWaits(trace[i].controller)
    ensures var last := trace[|trace| - 1];
            && Inv(last)
            && (Remaining(last.worker) + WorkerSteps(trace) <= 3 || !last.isRunning)
    ensures 3 <= WorkerSteps(trace) ==> !trace[|trace| - 1].isRunning
  {
    hide Next, Inv;
    if |trace| > 1 {
      var n := |trace| - 1;
      PauseDrains(trace[..n]);
      assert Next(trace[n - 1], trace[n - 1 + 1]);
      InvStep(trace[n - 1], trace[n]);
      DrainStep(trace[n - 1], trace[n]);
    }
  }

  lemma DrainStep(s: State, t: State)
    requires Inv(s) && Next(s, t) && PauseWaits(s.controller) && PauseWaits(t.controller)
    ensures !s.isRunning ==> !t.isRunning
    ensures t.isRunning ==> Remaining(t.worker) + (if t.controller == s.controller && t != s then 1 else 0) <= Remaining(s.worker)
    ensures t.isRunning ==> 0 < Remaining(t.worker)
  {
  }

  // ----- A whole session -----

  lemma JoinPaths(a: seq<State>, b: seq<State>)
    requires Path(a) && Path(b) && Next(a[|a| - 1], b[0])
    ensures Path(a + b) && (a + b)[0] == a[0] && (a + b)[|a + b| - 1] == b[|b| - 1]
  {
    hide Next;
    var c := a + b;
    forall i | 0 <= i < |c| - 1
      ensures Next(c[i], c[i + 1])
    {
      assert i < |a| - 1 ==> Next(a[i], a[i + 1]);
      assert |a| <= i ==> Next(b[i - |a|], b[i - |a| + 1]);
    }
  }

  /** From rest: run() sets the flag, polls until the worker has entered the handler, and returns. */
  lemma RunCycle() returns (trace: seq<State>)
    ensures Execution(trace) && trace[|trace| - 1] == State(true, false, true, HandlerTest, Emulating)
  {
    hide Path;
    var asked := RunAsked();
    var entered := RunEntered();
    JoinPaths(asked, entered);
    trace := asked + entered;
  }

  lemma RunAsked() returns (trace: seq<State>)
    ensures Path(trace) && trace[0] == State(false, false, false, PollRun, Acting)
    ensures trace[|trace| - 1] == State(true, false, false, PollRun, RunPoll)
  {
    trace := [
      State(false, false, false, PollRun, Acting), State(false, false, false, PollRun, Reading),
      State(false, false, false, PollRun, Acting), State(false, false, false, PollRun, RunTest),
      State(false, false, false, PollRun, RunSet), State(true, false, false, PollRun, RunPoll)];
  }

  lemma RunEntered() returns (trace: seq<State>)
    ensures Path(trace) && trace[0] == State(true, false, false, PollRun, RunPollStop)
    ensures trace[|trace| - 1] == State(true, false, true, HandlerTest, Emulating)
  {
    trace := [
      State(true, false, false, PollRun, RunPollStop), State(true, false, false, PollRun, RunPoll),
      State(true, false, false, CheckStop, RunPoll), State(true, false, false, SetRunning, RunPoll),
      State(true, false, true, HandlerTest, RunPoll), State(true, false, true, HandlerTest, Emulating)];
  }

  /** While the guest runs the handler reads the socket; pause() clears the flag, polls until the
      worker has left the handler, and returns. */
  lemma PauseCycle() returns (trace: seq<State>)
    ensures Path(trace) && trace[0] == State(true, false, true, HandlerTest, Emulating)
    ensures trace[|trace| - 1] == State(false, false, false, PollRun, Acting)
  {
    hide Path;
    var asked := PauseAsked();
    var left := PauseLeft();
    JoinPaths(asked, left);
    trace := asked + left;
  }

  lemma PauseAsked() returns (trace: seq<State>)
    ensures Path(trace) && trace[0] == State(true, false, true, HandlerTest, Emulating)
    ensures trace[|trace| - 1] == State(false, false, true, HandlerTest, PausePoll)
  {
    trace := [
      State(true, false, true, HandlerTest, Emulating), State(true, false, true, HandlerRead, Emulating),
      State(true, false, true, HandlerTest, Emulating), State(true, false, true, HandlerTest, PauseClear),
      State(false, false, true, HandlerTest, PausePoll)];
  }

  lemma PauseLeft() returns (trace: seq<State>)
    ensures Path(trace) && trace[0] == State(false, false, true, HandlerTest, PausePollStop)
    ensures trace[|trace| - 1] == State(false, false, false, PollRun, Acting)
  {
    trace := [
      State(false, false, true, HandlerTest, PausePollStop), State(false, false, true, HandlerTest, PausePoll),
      State(false, false, true, ClearRunning, PausePoll), State(false, false, false, PollRun, PausePoll),
      State(false, false, false, PollRun, Acting)];
  }

  /** The destructor stops an idle worker and returns when it has exited. */
  lemma StopCycle() returns (trace: seq<State>)
    ensures Path(trace) && trace[0] == State(false, false, false, PollRun, Acting)
    ensures trace[|trace| - 1] == State(false, true, false, Exited, Joined)
  {
    hide Path;
    var asked := StopAsked();
    var joined := StopJoined();
    JoinPaths(asked, joined);
    trace := asked + joined;
  }

  lemma StopAsked() returns (trace: seq<State>)
    ensures Path(trace) && trace[0] == State(false, false, false, PollRun, Acting)
    ensures trace[|trace| - 1] == State(false, true, false, PollRun, StopClear)
  {
    trace := [
      State(false, false, false, PollRun, Acting), State(false, false, false, PollStop, Acting),
      State(false, false, false, ClearIdle, Acting), State(false, false, false, PollRun, Acting),
      State(false, false, false, PollRun, StopSet), State(false, true, false, PollRun, StopClear)];
  }

  lemma StopJoined() returns (trace: seq<State>)
    ensures Path(trace) && trace[0] == State(false, true, false, PollRun, Joining)
    ensures trace[|trace| - 1] == State(false, true, false, Exited, Joined)
  {
    trace := [
      State(false, true, false, PollRun, Joining), State(false, true, false, PollStop, Joining),
      State(false, true, false, CheckStop, Joining), State(false, true, false, Exited, Joining),
      State(false, true, false, Exited, Joined)];
  }

  // ----- run() may not return -----

  /** run() is polling, but the handler has already come and gone: it cleared run_ itself. */
  ghost predicate Missed(s: State) {
    RunWaits(s.controller) && !s.run && !s.isRunning && !s.stop && Idle(s.worker)
  }

  lemma MissedStays(s: State, t: State)
    requires Missed(s) && Next(s, t)
    ensures Missed(t)
  {
  }

  lemma {:induction false} MissedForever(trace: seq<State>, i: nat)
    requires Path(trace) && Missed(trace[0]) && i < |trace|
    ensures Missed(trace[i])
  {
    if i != 0 {
      MissedForever(trace, i - 1);
      MissedStays(trace[i - 1], trace[i - 1 + 1]);
    }
  }

  ghost predicate CanReturn(s: State) {
    exists trace: seq<State> :: Path(trace) && trace[0] == s && trace[|trace| - 1].controller.Emulating?
  }

  lemma Prepend(s: State, t: State)
    requires Next(s, t) && CanReturn(t)
    ensures CanReturn(s)
  {
    var trace: seq<State> :| Path(trace) && trace[0] == t && trace[|trace| - 1].controller.Emulating?;
    var longer := [s] + trace;
    forall i | 0 <= i < |longer| - 1
      ensures Next(longer[i], longer[i + 1])
    {
      if i > 0 {
        assert Next(trace[i - 1], trace[i - 1 + 1]);
      }
    }
    assert Path(longer);
  }

  /** How far the worker is from setting is_running_ when run_ holds. */
  function ToRunning(w: Worker): nat {
    match w
    case PollStop => 5
    case ClearIdle => 4
    case PollRun => 3
    case CheckStop => 2
    case SetRunning => 1
    case _ => 0
  }

  lemma {:induction false} NotMissedCanReturn(s: State)
    requires Inv(s) && RunWaits(s.controller) && !Missed(s)
    ensures CanReturn(s)
    decreases ToRunning(s.worker), if s.controller.RunPollStop? then 1 else 0
  {
    if s.isRunning {
      if s.controller.RunPoll? {
        var t := s.(controller := Emulating);
        assert Path([s, t]);
      } else {
        var t := s.(controller := RunPoll);
        InvStep(s, t);
        NotMissedCanReturn(t);
        Prepend(s, t);
      }
    } else {
      var t := match s.worker
        case PollRun => s.(worker := CheckStop)
        case PollStop => s.(worker := ClearIdle)
        case ClearIdle => s.(isRunning := false, worker := PollRun)
        case CheckStop => s.(worker := SetRunning)
        case _ => s.(isRunning := true, worker := HandlerTest);
      assert WorkerStep(s, t);
      InvStep(s, t);
      NotMissedCanReturn(t);
      Prepend(s, t);
    }
  }

  /** A waiting run() can still return, on some schedule, exactly when the handler has not been missed. */
  lemma RunReturnsIff(s: State)
    requires Inv(s) && RunWaits(s.controller)
    ensures CanReturn(s) <==> !Missed(s)
  {
    if Missed(s) {
      forall trace: seq<State> | Path(trace) && trace[0] == s
        ensures !trace[|trace| - 1].controller.Emulating?
      {
        MissedForever(trace, |trace| - 1);
      }
    } else {
      NotMissedCanReturn(s);
    }
  }

  /** The missed handler is reachable: an interrupt that arrives before run() polls. */
  lemma MissedReachable() returns (trace: seq<State>)
    ensures Execution(trace) && Missed(trace[|trace| - 1])
  {
    trace := [
      State(false, false, false, PollRun, Acting),
      State(false, false, false, PollRun, RunTest),
      State(false, false, false, PollRun, RunSet),
      State(true, false, false, PollRun, RunPoll),
      State(true, false, false, CheckStop, RunPoll),
      State(true, false, false, SetRunning, RunPoll),
      State(true, false, true, HandlerTest, RunPoll),
      State(true, false, true, HandlerRead, RunPoll),
      State(false, false, true, HandlerTest, RunPoll),
      State(false, false, true, ClearRunning, RunPoll),
      State(false, false, false, PollRun, RunPoll)
    ];
  }
}
