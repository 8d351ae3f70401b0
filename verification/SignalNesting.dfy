/** Signal handlers at any nesting depth.

    A run interleaves deliveries, guest code and sigreturns. Guest code may do anything to the
    registers and the mask, but while a handler is active it writes memory only below the stack
    pointer that handler was entered with, and leaves its stack pointer no higher than its
    return address. A sigreturn happens with the stack pointer just above the return address. */
module SignalNesting {
  import opened Machine
  import opened GuestMemory
  import opened SignalFrames

  /** What a delivery interrupted, and where its frame went. */
  datatype Saved = Saved(regs: Regs, mask: Option<Mask>, at: u64)

  datatype State = State(guest: Guest, live: seq<Saved>)

  function Top(s: State): Saved
    requires s.live != []
  {
    s.live[|s.live| - 1]
  }

  ghost predicate Delivers(s: State, t: State, signum: int, fault: u64, code: int) {
    && |s.guest.actions| == 64 && 576 <= s.guest.regs.rsp && 1 <= signum < 64
    && Dispose(s.guest, signum).Entered?
    && t.guest == Enter(s.guest, signum, fault, code)
    && t.live == s.live + [Saved(s.guest.regs, s.guest.mask, FrameAddress(s.guest.regs.rsp))]
  }

  ghost predicate DeliverStep(s: State, t: State) {
    exists signum: int, fault: u64, code: int :: Delivers(s, t, signum, fault, code)
  }

  ghost predicate GuestStep(s: State, t: State) {
    && t.live == s.live
    && t.guest.mask.Some? == s.guest.mask.Some?
    && (s.live != [] ==>
          && t.guest.regs.rsp <= Top(s).at + 8
          && forall x :: Top(s).at <= x ==> t.guest.mem(x) == s.guest.mem(x))
  }

  ghost predicate ReturnStep(s: State, t: State) {
    && s.live != [] && s.guest.regs.rsp == Top(s).at + 8
    && t.guest == Return(s.guest)
    && t.live == s.live[..|s.live| - 1]
  }

  ghost predicate Next(s: State, t: State) {
    DeliverStep(s, t) || GuestStep(s, t) || ReturnStep(s, t)
  }

  ghost predicate Execution(trace: seq<State>) {
    && 0 < |trace| && trace[0].live == []
    && forall i :: 0 <= i < |trace| - 1 ==> Next(trace[i], trace[i + 1])
  }

  // ----- The invariant -----

  /** Memory still holds this frame's saved registers and mask. */
  ghost predicate Holds(mem: Memory, f: Saved) {
    && (forall i :: 0 <= i < 18 ==> Word(mem, f.at + 8 * (REGS_WORD + i)) == RegWords(f.regs)[i])
    && Word(mem, f.at + 8 * MASK_WORD) == MaskWord(f.mask)
  }

  /** A frame sits strictly below the stack pointer it interrupted, aligned for a handler entry. */
  ghost predicate Placed(f: Saved) {
    f.at % 16 == 8 && f.at + FRAME_SIZE < f.regs.rsp
  }

  /** Frames are stacked downwards without overlap, each resumed context fits above the next. */
  ghost predicate Stacked(live: seq<Saved>) {
    forall i :: 0 < i < |live| ==>
      live[i].at + FRAME_SIZE <= live[i - 1].at && live[i].regs.rsp <= live[i - 1].at + 8
  }

  ghost predicate Inv(s: State) {
    && (forall i :: 0 <= i < |s.live| ==>
          Holds(s.guest.mem, s.live[i]) && Placed(s.live[i]) && (s.live[i].mask.Some? == s.guest.mask.Some?))
    && Stacked(s.live)
    && (s.live != [] ==> s.guest.regs.rsp <= Top(s).at + 8)
  }

  /** Frames deeper in the stack lie higher in memory. */
  lemma {:induction false} StackedBelow(live: seq<Saved>, i: nat, j: nat)
    requires Stacked(live) && i < j < |live|
    ensures live[j].at + FRAME_SIZE <= live[i].at
  {
    if i < j - 1 {
      StackedBelow(live, i, j - 1);
    }
  }

  lemma HoldsAgree(m: Memory, n: Memory, f: Saved)
    requires Holds(m, f) && forall x :: f.at <= x < f.at + FRAME_SIZE ==> m(x) == n(x)
    ensures Holds(n, f)
  {
    forall i | 0 <= i < 18
      ensures Word(n, f.at + 8 * (REGS_WORD + i)) == RegWords(f.regs)[i]
    {
      WordAgree(m, n, f.at + 8 * (REGS_WORD + i));
    }
    WordAgree(m, n, f.at + 8 * MASK_WORD);
  }

  /** The frame just written holds the interrupted context. */
  lemma EnterHolds(m: Guest, signum: int, fault: u64, code: int)
    requires 1 <= signum < 64 && |m.actions| == 64 && 576 <= m.regs.rsp
    ensures Holds(Enter(m, signum, fault, code).mem, Saved(m.regs, m.mask, FrameAddress(m.regs.rsp)))
  {
    hide Word, Words, Write, FrameWords, RegWords, MaskWord, FrameAddress;
    var at := FrameAddress(m.regs.rsp);
    var ws := FrameWords(m, m.actions[signum], signum, fault, code);
    forall i | 0 <= i < 18
      ensures Word(Write(m.mem, at, Words(ws)), at + 8 * (REGS_WORD + i)) == RegWords(m.regs)[i]
    {
      WordWritten(m.mem, at, ws, REGS_WORD + i);
      assert ws[REGS_WORD..REGS_WORD + 18][i] == ws[REGS_WORD + i];
    }
    WordWritten(m.mem, at, ws, MASK_WORD);
  }

  lemma DeliverKeeps(s: State, t: State)
    requires Inv(s) && DeliverStep(s, t)
    ensures Inv(t)
  {
    hide Enter, Holds, Dispose, FrameAddress;
    var signum: int, fault: u64, code: int :| Delivers(s, t, signum, fault, code);
    var at := FrameAddress(s.guest.regs.rsp);
    FrameBelow(s.guest.regs.rsp);
    EnterHolds(s.guest, signum, fault, code);
    EnterShape(s.guest, signum, fault, code);
    forall i | 0 <= i < |s.live|
      ensures Holds(t.guest.mem, s.live[i])
    {
      if i < |s.live| - 1 {
        StackedBelow(s.live, i, |s.live| - 1);
      }
      assert at + FRAME_SIZE <= Top(s).at <= s.live[i].at;
      HoldsAgree(s.guest.mem, t.guest.mem, s.live[i]);
    }
  }

  lemma EnterShape(m: Guest, signum: int, fault: u64, code: int)
    requires 1 <= signum < 64 && |m.actions| == 64 && 576 <= m.regs.rsp
    ensures var t, at := Enter(m, signum, fault, code), FrameAddress(m.regs.rsp);
            && t.regs.rsp == at
            && t.mask.Some? == m.mask.Some?
            && forall x :: !(at <= x < at + FRAME_SIZE) ==> t.mem(x) == m.mem(x)
  {
    hide FrameWords, Words;
  }

  lemma GuestKeeps(s: State, t: State)
    requires Inv(s) && GuestStep(s, t)
    ensures Inv(t)
  {
    hide Holds;
    forall i | 0 <= i < |s.live|
      ensures Holds(t.guest.mem, s.live[i])
    {
      if i < |s.live| - 1 {
        StackedBelow(s.live, i, |s.live| - 1);
      }
      HoldsAgree(s.guest.mem, t.guest.mem, s.live[i]);
    }
  }

  /** A sigreturn restores all eighteen registers and the mask of the matching delivery. */
  lemma ReturnRestores(s: State, t: State)
    requires Inv(s) && ReturnStep(s, t)
    ensures t.guest.regs == Top(s).regs && t.guest.mask == Top(s).mask && t.guest.mem == s.guest.mem
  {
    hide Word, RegWords, MaskWord, ReadWords, Resume;
    var f := Top(s);
    var ws := ReadWords(s.guest.mem, f.at, FRAME_WORDS);
    assert Holds(s.guest.mem, f);
    forall i | 0 <= i < 18
      ensures ws[REGS_WORD..REGS_WORD + 18][i] == RegWords(f.regs)[i]
    {
      assert ws[REGS_WORD + i] == Word(s.guest.mem, f.at + 8 * (REGS_WORD + i));
    }
    assert ws[REGS_WORD..REGS_WORD + 18] == RegWords(f.regs);
    ResumeRestores(s.guest, f.regs, f.mask, ws);
  }

  lemma ReturnKeeps(s: State, t: State)
    requires Inv(s) && ReturnStep(s, t)
    ensures Inv(t)
  {
    hide Holds, Return;
    ReturnRestores(s, t);
  }

  lemma StepKeeps(s: State, t: State)
    requires Inv(s) && Next(s, t)
    ensures Inv(t)
  {
    hide Inv, DeliverStep, GuestStep, ReturnStep;
    if DeliverStep(s, t) {
      DeliverKeeps(s, t);
    } else if GuestStep(s, t) {
      GuestKeeps(s, t);
    } else {
      ReturnKeeps(s, t);
    }
  }

  lemma {:induction false} InvHolds(trace: seq<State>, i: nat)
    requires Execution(trace) && i < |trace|
    ensures Inv(trace[i])
  {
    if i != 0 {
      InvHolds(trace, i - 1);
      StepKeeps(trace[i - 1], trace[i - 1 + 1]);
    }
  }

  /** In every run all live frames are disjoint, each strictly below the stack pointer it
      interrupted, with handler-entry alignment. */
  lemma FramesDisjoint(trace: seq<State>, k: nat, i: nat, j: nat)
    requires Execution(trace) && k < |trace| && i < j < |trace[k].live|
    ensures var a, b := trace[k].live[i], trace[k].live[j];
            && b.at + FRAME_SIZE <= a.at
            && a.at + FRAME_SIZE < a.regs.rsp && b.at + FRAME_SIZE < b.regs.rsp
            && a.at % 16 == 8 && b.at % 16 == 8
  {
    InvHolds(trace, k);
    StackedBelow(trace[k].live, i, j);
  }

  // ----- Matching deliveries and returns -----

  /** Until the stack is back at the depth of state i, the frame pushed after i stays in place. */
  lemma {:induction false} StaysPushed(trace: seq<State>, i: nat, k: nat)
    requires Execution(trace) && i + 1 <= k < |trace|
    requires DeliverStep(trace[i], trace[i + 1])
    requires forall n :: i < n <= k ==> |trace[i].live| < |trace[n].live|
    ensures trace[k].live[..|trace[i].live| + 1] == trace[i + 1].live
  {
    hide Enter, Return;
    var d := |trace[i].live| + 1;
    if k == i + 1 {
      assert trace[k].live[..d] == trace[k].live;
    } else {
      StaysPushed(trace, i, k - 1);
      assert Next(trace[k - 1], trace[k - 1 + 1]);
      var before, after := trace[k - 1].live, trace[k].live;
      if ReturnStep(trace[k - 1], trace[k]) {
        assert after[..d] == before[..d];
      } else if DeliverStep(trace[k - 1], trace[k]) {
        assert after[..d] == before[..d];
      }
    }
  }

  /** Whatever happens in between, at any depth: when the handler entered after state i has
      returned, in state j, the registers and the mask are exactly those of state i. */
  lemma DeliveryThenReturnIsTransparent(trace: seq<State>, i: nat, j: nat)
    requires Execution(trace) && i + 1 < j < |trace|
    requires DeliverStep(trace[i], trace[i + 1])
    requires forall n :: i < n < j ==> |trace[i].live| < |trace[n].live|
    requires |trace[j].live| == |trace[i].live|
    ensures trace[j].guest.regs == trace[i].guest.regs
    ensures trace[j].guest.mask == trace[i].guest.mask
    ensures trace[j].live == trace[i].live
  {
    hide Enter, Return, Inv;
    var d := |trace[i].live|;
    StaysPushed(trace, i, j - 1);
    var s, t := trace[j - 1], trace[j];
    assert Next(s, trace[j - 1 + 1]);
    assert !DeliverStep(s, t);
    assert !GuestStep(s, t);
    assert s.live[..d + 1] == s.live;
    InvHolds(trace, j - 1);
    ReturnRestores(s, t);
  }
}
