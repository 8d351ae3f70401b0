/** Signal delivery and rt_sigreturn (signal_dispatch.cpp).

    The CPU is a register record, guest memory a byte for every address. The frame written on
    delivery is 70 consecutive 64-bit words, laid out as linux_rt_sigframe. */
module SignalFrames {
  import opened Machine
  import opened GuestMemory

  datatype Regs = Regs(
    r8: u64, r9: u64, r10: u64, r11: u64, r12: u64, r13: u64, r14: u64, r15: u64,
    rdi: u64, rsi: u64, rbp: u64, rbx: u64, rdx: u64, rax: u64, rcx: u64, rsp: u64, rip: u64, rflags: u64)

  /** A 64-bit signal mask, bit by bit; bit n - 1 stands for signal n. */
  type Mask = m: seq<bool> | |m| == 64 witness seq(64, i => false)

  /** linux_kernel_sigaction. */
  datatype Action = Action(handler: u64, flags: u64, restorer: u64, mask: Mask)

  const SA_SIGINFO: u64 := 0x4
  const SA_RESTORER: u64 := 0x0400_0000
  const SA_NODEFER: u64 := 0x4000_0000
  const SA_RESETHAND: u64 := 0x8000_0000
  const SIG_DFL: u64 := 0
  const SIG_IGN: u64 := 1
  const SIGSEGV: int := 11
  const SIGCHLD: int := 17
  const SIGCONT: int := 18

  const FRAME_WORDS: nat := 70
  const FRAME_SIZE: nat := 560
  const INFO_OFFSET: nat := 8
  const CONTEXT_OFFSET: nat := 136
  const REGS_WORD: nat := 22
  const MASK_WORD: nat := 54

  /** The machine seen by the dispatcher; `mask` is the active thread's, when there is one. */
  datatype Guest = Guest(regs: Regs, mem: Memory, mask: Option<Mask>, actions: seq<Action>, trampoline: u64)

  datatype Outcome = Refused | Ignored | Terminates(status: int) | Entered

  predicate Has(flags: u64, flag: u64)
    requires 0 < flag
  {
    flags / flag % 2 == 1
  }

  // ----- The frame -----

  /** The saved registers in sigcontext order. */
  function RegWords(r: Regs): (ws: seq<u64>)
    ensures |ws| == 18
  {
    [r.r8, r.r9, r.r10, r.r11, r.r12, r.r13, r.r14, r.r15,
     r.rdi, r.rsi, r.rbp, r.rbx, r.rdx, r.rax, r.rcx, r.rsp, r.rip, r.rflags]
  }

  function MaskWord(mask: Option<Mask>): u64 {
    if mask.Some? then
      ToBitsFromBits(mask.value);
      Pow2Pow256(8);
      Pow256Word();
      FromBits(mask.value)
    else 0
  }

  function Zeros(n: nat): (ws: seq<u64>)
    ensures |ws| == n
  {
    seq(n, i => 0)
  }

  function FrameWords(m: Guest, action: Action, signum: int, fault: u64, code: int): (ws: seq<u64>)
    requires 1 <= signum < 64
    ensures |ws| == FRAME_WORDS
    ensures ws[REGS_WORD..REGS_WORD + 18] == RegWords(m.regs) && ws[MASK_WORD] == MaskWord(m.mask)
  {
    var pretcode := if Has(action.flags, SA_RESTORER) && action.restorer != 0 then action.restorer else m.trampoline;
    var info := [signum, code % U32, fault] + Zeros(13);
    var head := [0, 0] + Zeros(3);
    var trap := if signum == SIGSEGV then 14 else 0;
    var tail := [0x33 + 0x2B * 0x1_0000_0000_0000, 0, trap, MaskWord(m.mask), fault, 0] + Zeros(8);
    [pretcode] + info + head + RegWords(m.regs) + tail + [MaskWord(m.mask)] + Zeros(15)
  }

  /** Where the frame goes: below the interrupted stack pointer, 8 modulo 16. */
  function FrameAddress(rsp: u64): u64
    requires 576 <= rsp
  {
    AlignDown(rsp - FRAME_SIZE, 16) - 8
  }

  /** Strictly below the interrupted stack pointer, at most 23 bytes of slack, and aligned as a
      function entry must be. */
  lemma FrameBelow(rsp: u64)
    requires 576 <= rsp
    ensures FrameAddress(rsp) % 16 == 8
    ensures rsp - 23 <= FrameAddress(rsp) + FRAME_SIZE <= rsp - 8
  {
    MultipleOf(rsp - FRAME_SIZE, 16);
  }

  /** Every frame overwrites part of the 128-byte red zone below the interrupted stack pointer
      (section 3.2.2 of the System V AMD64 psABI). */
  lemma FrameHitsRedZone(rsp: u64)
    requires 576 <= rsp
    ensures rsp - 128 < FrameAddress(rsp) + FRAME_SIZE - 1 < rsp
  {
    FrameBelow(rsp);
  }

  // ----- Delivery and return -----

  function Block(mask: Option<Mask>, action: Action, signum: int): Option<Mask>
    requires 1 <= signum < 64
  {
    if mask.None? then None
    else
      Some(seq(64, i requires 0 <= i < 64 =>
        mask.value[i] || action.mask[i] || (i == signum - 1 && !Has(action.flags, SA_NODEFER))))
  }

  function Enter(m: Guest, signum: int, fault: u64, code: int): Guest
    requires 1 <= signum < 64 && |m.actions| == 64 && 576 <= m.regs.rsp
  {
    var action := m.actions[signum];
    var at := FrameAddress(m.regs.rsp);
    var info := Has(action.flags, SA_SIGINFO);
    FrameBelow(m.regs.rsp);
    Guest(
      m.regs.(rdi := signum,
              rsi := if info then at + INFO_OFFSET else 0,
              rdx := if info then at + CONTEXT_OFFSET else 0,
              rsp := at,
              rip := action.handler),
      Write(m.mem, at, Words(FrameWords(m, action, signum, fault, code))),
      Block(m.mask, action, signum),
      if Has(action.flags, SA_RESETHAND) then m.actions[signum := action.(handler := SIG_DFL)] else m.actions,
      m.trampoline)
  }

  // ----- What a delivery looks like to the guest -----

  /** The 70 words at the new stack pointer, by their byte offsets: return address, siginfo (8),
      ucontext (136) with the interrupted registers (176) and the old mask (432). */
  ghost predicate FrameAt(mem: Memory, at: int, m: Guest, action: Action, signum: int, fault: u64, code: int) {
    var r := m.regs;
    && Word(mem, at) == (if action.flags / 0x0400_0000 % 2 == 1 && action.restorer != 0 then action.restorer else m.trampoline)
    && Word(mem, at + 8) == signum && Word(mem, at + 16) == code % 0x1_0000_0000 && Word(mem, at + 24) == fault
    && ZeroWords(mem, at, 4, 22)
    && Word(mem, at + 176) == r.r8 && Word(mem, at + 184) == r.r9 && Word(mem, at + 192) == r.r10 && Word(mem, at + 200) == r.r11
    && Word(mem, at + 208) == r.r12 && Word(mem, at + 216) == r.r13 && Word(mem, at + 224) == r.r14 && Word(mem, at + 232) == r.r15
    && Word(mem, at + 240) == r.rdi && Word(mem, at + 248) == r.rsi && Word(mem, at + 256) == r.rbp && Word(mem, at + 264) == r.rbx
    && Word(mem, at + 272) == r.rdx && Word(mem, at + 280) == r.rax && Word(mem, at + 288) == r.rcx && Word(mem, at + 296) == r.rsp
    && Word(mem, at + 304) == r.rip && Word(mem, at + 312) == r.rflags
    && Word(mem, at + 320) == 0x002B_0000_0000_0033 && Word(mem, at + 328) == 0
    && Word(mem, at + 336) == (if signum == 11 then 14 else 0) && IsMask(Word(mem, at + 344), m.mask)
    && Word(mem, at + 352) == fault && ZeroWords(mem, at, 45, 54)
    && IsMask(Word(mem, at + 432), m.mask) && ZeroWords(mem, at, 55, 70)
  }

  ghost predicate ZeroWords(mem: Memory, at: int, from: nat, to: nat) {
    forall i :: from <= i < to ==> WordIs(mem, at, i, 0)
  }

  ghost predicate WordIs(mem: Memory, at: int, i: int, v: nat) { Word(mem, at + 8 * i) == v }

  /** Bit n - 1 of the word says whether signal n is blocked. */
  ghost predicate IsMask(word: nat, mask: Option<Mask>) {
    if mask.None? then word == 0 else forall i: nat :: i < 64 ==> (word / Pow2(i) % 2 == 1 <==> mask.value[i])
  }

  ghost predicate Delivered(m: Guest, n: Guest, signum: int, fault: u64, code: int)
    requires 1 <= signum < 64 && |m.actions| == 64
  {
    var action, sp := m.actions[signum], n.regs.rsp;
    var info := action.flags / 4 % 2 == 1;
    && sp % 16 == 8 && m.regs.rsp - 23 <= sp + 560 <= m.regs.rsp - 8
    && n.regs == m.regs.(rip := action.handler, rsp := sp, rdi := signum,
                         rsi := if info then sp + 8 else 0, rdx := if info then sp + 136 else 0)
    && FrameAt(n.mem, sp, m, action, signum, fault, code)
    && (forall x :: !(sp <= x < sp + 560) ==> n.mem(x) == m.mem(x))
    && n.mask.Some? == m.mask.Some?
    && (m.mask.Some? ==> forall i :: 0 <= i < 64 ==>
          (n.mask.value[i] <==>
             m.mask.value[i] || action.mask[i] || (i == signum - 1 && action.flags / 0x4000_0000 % 2 == 0)))
    && n.actions == (if action.flags / 0x8000_0000 % 2 == 1 then m.actions[signum := action.(handler := 0)] else m.actions)
    && n.trampoline == m.trampoline
  }

  lemma MaskWordIs(mask: Option<Mask>)
    ensures IsMask(MaskWord(mask), mask)
  {
    if mask.Some? {
      forall i: nat | i < 64
        ensures MaskWord(mask) / Pow2(i) % 2 == 1 <==> mask.value[i]
      {
        FromBitsDigit(mask.value, i);
      }
    }
  }

  lemma FrameLayout(m: Guest, action: Action, signum: int, fault: u64, code: int, mem: Memory, at: int)
    requires 1 <= signum < 64
    requires var ws := FrameWords(m, action, signum, fault, code);
             forall i :: 0 <= i < 70 ==> WordIs(mem, at, i, ws[i])
    ensures FrameAt(mem, at, m, action, signum, fault, code)
  {
    hide Word, MaskWord, IsMask;
    MaskWordIs(m.mask);
    var ws := FrameWords(m, action, signum, fault, code);
    forall i | 4 <= i < 22 || 45 <= i < 54 || 55 <= i < 70
      ensures WordIs(mem, at, i, 0)
    {
      assert ws[i] == 0;
    }
    assert WordIs(mem, at, 0, ws[0]) && WordIs(mem, at, 1, ws[1]) && WordIs(mem, at, 2, ws[2]) && WordIs(mem, at, 3, ws[3]);
    assert forall k :: 0 <= k < 18 ==> ws[22 + k] == RegWords(m.regs)[k];
    forall k | 0 <= k < 18
      ensures Word(mem, at + 176 + 8 * k) == RegWords(m.regs)[k]
    {
      assert WordIs(mem, at, 22 + k, ws[22 + k]);
    }
    RegisterWords(m.regs, mem, at);
    assert WordIs(mem, at, 40, ws[40]) && WordIs(mem, at, 41, ws[41]) && WordIs(mem, at, 42, ws[42]);
    assert WordIs(mem, at, 43, ws[43]) && WordIs(mem, at, 44, ws[44]) && WordIs(mem, at, 54, ws[54]);
  }

  lemma RegisterWords(r: Regs, mem: Memory, at: int)
    requires forall k :: 0 <= k < 18 ==> Word(mem, at + 176 + 8 * k) == RegWords(r)[k]
    ensures Word(mem, at + 176) == r.r8 && Word(mem, at + 184) == r.r9 && Word(mem, at + 192) == r.r10 && Word(mem, at + 200) == r.r11
    ensures Word(mem, at + 208) == r.r12 && Word(mem, at + 216) == r.r13 && Word(mem, at + 224) == r.r14 && Word(mem, at + 232) == r.r15
    ensures Word(mem, at + 240) == r.rdi && Word(mem, at + 248) == r.rsi && Word(mem, at + 256) == r.rbp && Word(mem, at + 264) == r.rbx
    ensures Word(mem, at + 272) == r.rdx && Word(mem, at + 280) == r.rax && Word(mem, at + 288) == r.rcx && Word(mem, at + 296) == r.rsp
    ensures Word(mem, at + 304) == r.rip && Word(mem, at + 312) == r.rflags
  {
    hide Word;
    var w := RegWords(r);
    assert w[0] == r.r8 && w[1] == r.r9 && w[2] == r.r10 && w[3] == r.r11 && w[4] == r.r12 && w[5] == r.r13;
    assert w[6] == r.r14 && w[7] == r.r15 && w[8] == r.rdi && w[9] == r.rsi && w[10] == r.rbp && w[11] == r.rbx;
    assert w[12] == r.rdx && w[13] == r.rax && w[14] == r.rcx && w[15] == r.rsp && w[16] == r.rip && w[17] == r.rflags;
  }

  /** The handler runs with its arguments, its return address and the whole interrupted context in
      place, signals blocked as the action says, and nothing else changed. */
  lemma EnterDelivers(m: Guest, signum: int, fault: u64, code: int)
    requires 1 <= signum < 64 && |m.actions| == 64 && 576 <= m.regs.rsp
    ensures Delivered(m, Enter(m, signum, fault, code), signum, fault, code)
  {
    hide FrameWords, FrameAddress, Words, Word, FrameAt;
    FrameBelow(m.regs.rsp);
    var n, at, action := Enter(m, signum, fault, code), FrameAddress(m.regs.rsp), m.actions[signum];
    var ws := FrameWords(m, action, signum, fault, code);
    forall i | 0 <= i < 70
      ensures WordIs(n.mem, at, i, ws[i])
    {
      WordWritten(m.mem, at, ws, i);
    }
    FrameLayout(m, action, signum, fault, code, n.mem, at);
  }

  function Dispose(m: Guest, signum: int): Outcome
    requires |m.actions| == 64
  {
    if signum < 1 || signum >= 64 then Refused
    else if m.actions[signum].handler == SIG_IGN then Ignored
    else if m.actions[signum].handler == SIG_DFL then
      if signum == SIGCHLD || signum == SIGCONT then Ignored else Terminates(128 + signum)
    else Entered
  }

  /** What sigreturn makes of the 70 words it reads. */
  function Resume(m: Guest, ws: seq<nat>): Guest
    requires |ws| == FRAME_WORDS && forall i :: 0 <= i < |ws| ==> ws[i] < U64
  {
    var w := ws[REGS_WORD..REGS_WORD + 18];
    m.(regs := Regs(w[0], w[1], w[2], w[3], w[4], w[5], w[6], w[7], w[8], w[9], w[10], w[11], w[12], w[13], w[14],
                    w[15], w[16], w[17]),
       mask := if m.mask.Some? then Some(ToBits(ws[MASK_WORD], 64)) else None)
  }

  lemma ResumeKeeps(m: Guest, ws: seq<nat>)
    requires |ws| == FRAME_WORDS && forall i :: 0 <= i < |ws| ==> ws[i] < U64
    ensures var r := Resume(m, ws);
            r == m.(regs := r.regs, mask := r.mask) && (m.mask.None? ==> r.mask.None?)
  {
  }

  function ReadWords(mem: Memory, a: int, n: nat): (ws: seq<nat>)
    ensures |ws| == n && forall i :: 0 <= i < n ==> ws[i] == Word(mem, a + 8 * i) && ws[i] < U64
  {
    if n == 0 then []
    else
      WordBound(mem, a + 8 * (n - 1));
      ReadWords(mem, a, n - 1) + [Word(mem, a + 8 * (n - 1))]
  }

  function Return(m: Guest): Guest
  {
    Resume(m, ReadWords(m.mem, m.regs.rsp - 8, FRAME_WORDS))
  }

  lemma ResumeRestores(m: Guest, regs: Regs, mask: Option<Mask>, ws: seq<nat>)
    requires |ws| == FRAME_WORDS && forall i :: 0 <= i < |ws| ==> ws[i] < U64
    requires ws[REGS_WORD..REGS_WORD + 18] == RegWords(regs) && ws[MASK_WORD] == MaskWord(mask)
    requires mask.Some? == m.mask.Some?
    ensures Resume(m, ws).regs == regs && Resume(m, ws).mask == mask && Resume(m, ws).mem == m.mem
  {
    var w := ws[REGS_WORD..REGS_WORD + 18];
    assert w == RegWords(regs);
    if mask.Some? {
      ToBitsFromBits(mask.value);
    }
  }

  /** The dispatcher's two entry points on a live machine. */
  class Dispatcher {
    var regs: Regs
    var mem: Memory
    var mask: Option<Mask>
    var actions: seq<Action>
    const trampoline: u64

    function Abs(): Guest
      reads this
    {
      Guest(regs, mem, mask, actions, trampoline)
    }

    constructor (m: Guest)
      ensures Abs() == m
    {
      regs, mem, mask, actions, trampoline := m.regs, m.mem, m.mask, m.actions, m.trampoline;
    }

    method DeliverSignal(signum: int, fault: u64, code: int) returns (handled: bool, ghost outcome: Outcome)
      requires |actions| == 64 && (Dispose(Abs(), signum).Entered? ==> 576 <= regs.rsp)
      modifies this
      ensures outcome == Dispose(old(Abs()), signum)
      ensures handled <==> outcome.Ignored? || outcome.Entered?
      ensures Abs() == if outcome.Entered? then Enter(old(Abs()), signum, fault, code) else old(Abs())
      ensures !(1 <= signum < 64) ==> outcome.Refused? && !handled
      ensures 1 <= signum < 64 ==>
                var handler := old(actions)[signum].handler;
                && (outcome.Entered? <==> 1 < handler)
                && (outcome.Ignored? <==> handler == 1 || (handler == 0 && (signum == 17 || signum == 18)))
                && (outcome.Terminates? <==> handler == 0 && signum != 17 && signum != 18)
      ensures outcome.Terminates? ==> outcome.status == 128 + signum
      ensures 1 <= signum < 64 && 1 < old(actions)[signum].handler ==> Delivered(old(Abs()), Abs(), signum, fault, code)
    {
      hide Enter, Delivered;
      outcome := Dispose(Abs(), signum);
      if signum < 1 || signum >= 64 {
        return false, outcome;
      }
      var action := actions[signum];
      if action.handler == SIG_IGN {
        return true, outcome;
      }
      if action.handler == SIG_DFL {
        return signum == SIGCHLD || signum == SIGCONT, outcome;
      }
      PushFrame(action, signum, fault, code);
      return true, outcome;
    }

    /** Build the frame, redirect execution, block signals. */
    method PushFrame(action: Action, signum: int, fault: u64, code: int)
      requires |actions| == 64 && 576 <= regs.rsp && 1 <= signum < 64 && action == actions[signum]
      modifies this
      ensures Abs() == Enter(old(Abs()), signum, fault, code)
      ensures Delivered(old(Abs()), Abs(), signum, fault, code)
    {
      hide Delivered, FrameWords, Words, Write, FrameAddress, Has;
      FrameBelow(regs.rsp);
      var at := FrameAddress(regs.rsp);
      mem := Write(mem, at, Words(FrameWords(Abs(), action, signum, fault, code)));
      regs := regs.(rdi := signum);
      if Has(action.flags, SA_SIGINFO) {
        regs := regs.(rsi := at + INFO_OFFSET, rdx := at + CONTEXT_OFFSET);
      } else {
        regs := regs.(rsi := 0, rdx := 0);
      }
      regs := regs.(rsp := at);
      regs := regs.(rip := action.handler);
      if mask.Some? {
        var blocked := mask.value;
        if !Has(action.flags, SA_NODEFER) {
          blocked := blocked[signum - 1 := true];
        }
        blocked := seq(64, i requires 0 <= i < 64 => blocked[i] || action.mask[i]);
        assert blocked == Block(mask, action, signum).value;
        mask := Some(blocked);
      }
      if Has(action.flags, SA_RESETHAND) {
        actions := actions[signum := action.(handler := SIG_DFL)];
      }
      EnterDelivers(old(Abs()), signum, fault, code);
    }

    method Sigreturn()
      modifies this
      ensures Abs() == Return(old(Abs()))
    {
      hide ReadWords, Resume;
      var words := ReadWords(mem, regs.rsp - 8, FRAME_WORDS);
      ResumeKeeps(Abs(), words);
      var resumed := Resume(Abs(), words);
      regs := resumed.regs;
      if mask.Some? {
        mask := resumed.mask;
      }
    }
  }
}
