/** The stack a new process starts with (the setup call of linux_process_context.cpp), and its
    reading as section 3.4.1 of the System V AMD64 psABI prescribes it. */
module InitialStack {
  import opened Machine
  import opened GuestMemory

  const STACK_SIZE: nat := 0x80_0000
  const STACK_TOP: nat := 0x7fff_fffd_e000
  const STACK_BASE: nat := STACK_TOP - STACK_SIZE
  const STRINGS: nat := STACK_TOP - 256

  const AT_NULL: u64 := 0
  const AT_PHDR: u64 := 3
  const AT_PHENT: u64 := 4
  const AT_PHNUM: u64 := 5
  const AT_PAGESZ: u64 := 6
  const AT_BASE: u64 := 7
  const AT_ENTRY: u64 := 9
  const AT_UID: u64 := 11
  const AT_EUID: u64 := 12
  const AT_GID: u64 := 13
  const AT_EGID: u64 := 14
  const AT_PLATFORM: u64 := 15
  const AT_CLKTCK: u64 := 17
  const AT_SECURE: u64 := 23
  const AT_RANDOM: u64 := 25
  const AT_SYSINFO_EHDR: u64 := 33

  type Str = seq<byte>

  /** "x86_64" */
  const PLATFORM: Str := [0x78, 0x38, 0x36, 0x5f, 0x36, 0x34]

  datatype Aux = Aux(kind: u64, value: u64)

  /** What the auxiliary vector says about the executable and the process. */
  datatype Facts = Facts(
    phdr: u64, phent: u64, phnum: u64, entry: u64, interpreter: u64, vdso: u64,
    uid: u64, euid: u64, gid: u64, egid: u64)

  // ----- What the psABI says a program finds at RSP -----

  datatype Start = Start(argc: nat, argv: seq<Str>, argvEnd: nat, envp: seq<Str>, auxv: seq<Aux>)

  function CString(mem: Memory, a: nat, limit: nat): Str
    decreases limit - a
  {
    if limit <= a || mem(a) == 0 then [] else [mem(a)] + CString(mem, a + 1, limit)
  }

  function CStrings(mem: Memory, ptrs: seq<nat>): (r: seq<Str>)
    ensures |r| == |ptrs| && forall i :: 0 <= i < |r| ==> r[i] == CString(mem, ptrs[i], STACK_TOP)
  {
    seq(|ptrs|, i requires 0 <= i < |ptrs| => CString(mem, ptrs[i], STACK_TOP))
  }

  function Pointers(mem: Memory, a: nat, n: nat): (r: seq<nat>)
    ensures |r| == n && forall i :: 0 <= i < n ==> r[i] == Word(mem, a + 8 * i)
  {
    seq(n, i requires 0 <= i < n => Word(mem, a + 8 * i))
  }

  /** Pointers up to the null that ends them. */
  function PointersToNull(mem: Memory, a: nat, limit: nat): seq<nat>
    decreases limit - a
  {
    if limit <= a || Word(mem, a) == 0 then [] else [Word(mem, a)] + PointersToNull(mem, a + 8, limit)
  }

  function ReadAux(mem: Memory, a: nat): Aux {
    WordBound(mem, a);
    WordBound(mem, a + 8);
    Aux(Word(mem, a), Word(mem, a + 8))
  }

  /** Auxiliary entries up to and including AT_NULL. */
  function AuxToNull(mem: Memory, a: nat, limit: nat): seq<Aux>
    decreases limit - a
  {
    if limit <= a || ReadAux(mem, a).kind == AT_NULL then [ReadAux(mem, a)]
    else [ReadAux(mem, a)] + AuxToNull(mem, a + 16, limit)
  }

  function Decode(mem: Memory, rsp: nat): Start {
    var argc := Word(mem, rsp);
    var argv := Pointers(mem, rsp + 8, argc);
    var envpAt := rsp + 16 + 8 * argc;
    var envp := PointersToNull(mem, envpAt, STACK_TOP);
    Start(argc, CStrings(mem, argv), Word(mem, rsp + 8 + 8 * argc), CStrings(mem, envp),
          AuxToNull(mem, envpAt + 8 * |envp| + 8, STACK_TOP))
  }

  // ----- What is laid out -----

  function Terminated(strs: seq<Str>): Str {
    if strs == [] then [] else Terminated(strs[..|strs| - 1]) + strs[|strs| - 1] + [0]
  }

  lemma {:induction false} TerminatedMonotone(strs: seq<Str>, i: nat)
    requires i <= |strs|
    ensures |Terminated(strs[..i])| + (|strs| - i) <= |Terminated(strs)|
    ensures Terminated(strs)[..|Terminated(strs[..i])|] == Terminated(strs[..i])
  {
    if i == |strs| {
      assert strs[..i] == strs;
    } else {
      var n := |strs| - 1;
      TerminatedMonotone(strs[..n], i);
      assert strs[..n][..i] == strs[..i];
    }
  }

  /** The i-th string and its terminator stand at their place. */
  lemma TerminatedAt(strs: seq<Str>, i: nat)
    requires i < |strs|
    ensures var t, at, n := Terminated(strs), |Terminated(strs[..i])|, |strs[i]|;
            at + n + 1 <= |t| && t[at..at + n] == strs[i] && t[at + n] == 0
  {
    TerminatedMonotone(strs, i + 1);
    var s := strs[..i + 1];
    assert s[..|s| - 1] == strs[..i];
    var t, u, at, n := Terminated(strs), Terminated(s), |Terminated(strs[..i])|, |strs[i]|;
    assert t[..|u|] == u;
    assert t[at..at + n] == u[at..at + n];
    assert t[at + n] == u[at + n];
  }

  function AddressOf(strs: seq<Str>, i: nat): nat
    requires i <= |strs|
  {
    STRINGS + |Terminated(strs[..i])|
  }

  function AllStrings(argv: seq<Str>, envp: seq<Str>): seq<Str> { [PLATFORM] + argv + envp }

  function RandomBytes(): (r: Str)
    ensures |r| == 16
  {
    seq(16, i requires 0 <= i => (i * 73 + 0xAB) % 256)
  }

  function StringArea(argv: seq<Str>, envp: seq<Str>): Str { Terminated(AllStrings(argv, envp)) + RandomBytes() }

  function Flatten(auxv: seq<Aux>): (r: seq<u64>)
    ensures |r| == 2 * |auxv|
  {
    if auxv == [] then []
    else Flatten(auxv[..|auxv| - 1]) + [auxv[|auxv| - 1].kind] + [auxv[|auxv| - 1].value]
  }

  function Frame(argv: seq<u64>, envp: seq<u64>, auxv: seq<Aux>): seq<u64>
    requires |argv| < U64
  {
    [|argv|] + argv + [0] + envp + [0] + Flatten(auxv)
  }

  function AuxFor(f: Facts, random: u64, platform: u64): seq<Aux> {
    [Aux(AT_PHDR, f.phdr), Aux(AT_PHENT, f.phent), Aux(AT_PHNUM, f.phnum), Aux(AT_PAGESZ, 4096),
     Aux(AT_BASE, f.interpreter), Aux(AT_ENTRY, f.entry), Aux(AT_UID, f.uid), Aux(AT_EUID, f.euid),
     Aux(AT_GID, f.gid), Aux(AT_EGID, f.egid), Aux(AT_SECURE, 0), Aux(AT_RANDOM, random),
     Aux(AT_PLATFORM, platform), Aux(AT_CLKTCK, 100)]
    + (if f.vdso != 0 then [Aux(AT_SYSINFO_EHDR, f.vdso)] else []) + [Aux(AT_NULL, 0)]
  }

  // ----- Decoding what was laid out -----

  /** `mem` is `before` with `data` written at `a`. */
  ghost predicate Written(before: Memory, mem: Memory, a: int, data: seq<byte>) {
    forall x: int :: mem(x) == if a <= x < a + |data| then data[x - a] else before(x)
  }

  lemma WrittenAppend(before: Memory, mem: Memory, a: int, data: seq<byte>, more: seq<byte>)
    requires Written(before, mem, a, data)
    ensures Written(before, Write(mem, a + |data|, more), a, data + more)
  {
  }

  lemma WrittenAgrees(before: Memory, mem: Memory, a: int, data: seq<byte>, lo: int, hi: int)
    requires Written(before, mem, a, data)
    ensures Agree(mem, Write(before, a, data), lo, hi)
  {
  }

  lemma FrameWord(before: Memory, mem: Memory, a: int, ws: seq<u64>, i: nat)
    requires Written(before, mem, a, Words(ws)) && i < |ws|
    ensures Word(mem, a + 8 * i) == ws[i]
  {
    hide Words, Word, Written, Agree, Write;
    WrittenAgrees(before, mem, a, Words(ws), a + 8 * i, a + 8 * i + 8);
    WordAgree(mem, Write(before, a, Words(ws)), a + 8 * i);
    WordWritten(before, a, ws, i);
  }

  /** What a C program sees of a string: everything before its first NUL. */
  function TillNul(s: Str): Str {
    if s == [] || s[0] == 0 then [] else [s[0]] + TillNul(s[1..])
  }

  lemma {:induction false} TillNulIff(s: Str)
    ensures TillNul(s) == s <==> 0 !in s
  {
    if s != [] && s[0] != 0 {
      TillNulIff(s[1..]);
      assert s == [s[0]] + s[1..];
      assert (TillNul(s))[1..] == TillNul(s[1..]);
    }
  }

  lemma {:induction false} CStringReads(mem: Memory, a: nat, s: Str, limit: nat)
    requires a + |s| < limit && mem(a + |s|) == 0
    requires forall j :: 0 <= j < |s| ==> mem(a + j) == s[j]
    ensures CString(mem, a, limit) == TillNul(s)
    decreases |s|
  {
    if s != [] {
      assert mem(a + 0) == s[0];
      if s[0] != 0 {
        forall j | 0 <= j < |s[1..]|
          ensures mem(a + 1 + j) == s[1..][j]
        {
          assert mem(a + (1 + j)) == s[1 + j];
        }
        CStringReads(mem, a + 1, s[1..], limit);
      }
    }
  }

  lemma {:induction false} PointersRead(mem: Memory, a: nat, ptrs: seq<nat>, limit: nat)
    requires a + 8 * |ptrs| < limit && Word(mem, a + 8 * |ptrs|) == 0
    requires forall i :: 0 <= i < |ptrs| ==> Word(mem, a + 8 * i) == ptrs[i] != 0
    ensures PointersToNull(mem, a, limit) == ptrs
    decreases |ptrs|
  {
    hide Word;
    if ptrs != [] {
      assert Word(mem, a + 8 * 0) == ptrs[0];
      forall i | 0 <= i < |ptrs[1..]|
        ensures Word(mem, a + 8 + 8 * i) == ptrs[1..][i] != 0
      {
        assert Word(mem, a + 8 * (1 + i)) == ptrs[1 + i];
      }
      PointersRead(mem, a + 8, ptrs[1..], limit);
      assert ptrs == [ptrs[0]] + ptrs[1..];
    }
  }

  ghost predicate EndsAtNull(auxv: seq<Aux>) {
    auxv != [] && forall i :: 0 <= i < |auxv| ==> (auxv[i].kind == AT_NULL <==> i == |auxv| - 1)
  }

  lemma {:induction false} AuxRead(mem: Memory, a: nat, auxv: seq<Aux>, limit: nat)
    requires EndsAtNull(auxv) && a + 16 * |auxv| <= limit
    requires forall i :: 0 <= i < |auxv| ==> ReadAux(mem, a + 16 * i) == auxv[i]
    ensures AuxToNull(mem, a, limit) == auxv
    decreases |auxv|
  {
    hide ReadAux;
    assert ReadAux(mem, a + 16 * 0) == auxv[0];
    if |auxv| == 1 {
      assert auxv == [auxv[0]];
    } else {
      var rest := auxv[1..];
      assert EndsAtNull(rest);
      forall i | 0 <= i < |rest|
        ensures ReadAux(mem, a + 16 + 16 * i) == rest[i]
      {
        assert ReadAux(mem, a + 16 * (1 + i)) == auxv[1 + i];
      }
      AuxRead(mem, a + 16, rest, limit);
      assert auxv == [auxv[0]] + rest;
    }
  }

  lemma {:induction false} FlattenAt(auxv: seq<Aux>, i: nat)
    requires i < |auxv|
    ensures Flatten(auxv)[2 * i] == auxv[i].kind && Flatten(auxv)[2 * i + 1] == auxv[i].value
  {
    if i < |auxv| - 1 {
      FlattenAt(auxv[..|auxv| - 1], i);
    }
  }

  /** The pointers to `n` strings from the i-th on. */
  function Addresses(strs: seq<Str>, i: nat, n: nat): (r: seq<u64>)
    requires i + n <= |strs| && |Terminated(strs)| <= 256
    ensures |r| == n && forall k :: 0 <= k < n ==> r[k] == AddressOf(strs, i + k)
    decreases n
  {
    if n == 0 then [] else [Address(strs, i)] + Addresses(strs, i + 1, n - 1)
  }

  function Address(strs: seq<Str>, i: nat): (r: u64)
    requires i <= |strs| && |Terminated(strs)| <= 256
    ensures r == AddressOf(strs, i) && STRINGS <= r <= STACK_TOP
  {
    TerminatedMonotone(strs, i);
    AddressOf(strs, i)
  }

  function Seen(strs: seq<Str>): (r: seq<Str>)
    ensures |r| == |strs| && forall i :: 0 <= i < |r| ==> r[i] == TillNul(strs[i])
  {
    seq(|strs|, i requires 0 <= i < |strs| => TillNul(strs[i]))
  }

  ghost predicate Fits(argv: seq<Str>, envp: seq<Str>) {
    |StringArea(argv, envp)| <= 256
  }

  function FrameFor(argv: seq<Str>, envp: seq<Str>, auxv: seq<Aux>): seq<u64>
    requires Fits(argv, envp)
  {
    var all := AllStrings(argv, envp);
    TerminatedMonotone(all, 0);
    Frame(Addresses(all, 1, |argv|), Addresses(all, 1 + |argv|, |envp|), auxv)
  }

  /** Memory with the strings in place and the frame written below them. */
  ghost predicate LaidOut(before: Memory, mid: Memory, mem: Memory, sp: nat, argv: seq<Str>, envp: seq<Str>, auxv: seq<Aux>)
  {
    && Fits(argv, envp)
    && Written(before, mid, STRINGS, StringArea(argv, envp))
    && Written(mid, mem, sp, Words(FrameFor(argv, envp, auxv)))
    && sp + 8 * |FrameFor(argv, envp, auxv)| <= STRINGS
  }

  /** A string read through its pointer. */
  lemma StringSeen(before: Memory, mid: Memory, mem: Memory, sp: nat, argv: seq<Str>, envp: seq<Str>, auxv: seq<Aux>, i: nat)
    requires LaidOut(before, mid, mem, sp, argv, envp, auxv) && i < |AllStrings(argv, envp)|
    ensures CString(mem, AddressOf(AllStrings(argv, envp), i), STACK_TOP) == TillNul(AllStrings(argv, envp)[i])
  {
    hide Terminated, FrameFor, Words, RandomBytes, CString, TillNul, AllStrings;
    var all := AllStrings(argv, envp);
    var t, a, s := Terminated(all), AddressOf(all, i), all[i];
    TerminatedAt(all, i);
    var at := |Terminated(all[..i])|;
    forall p | at <= p <= at + |s|
      ensures mem(STRINGS + p) == t[p]
    {
      assert StringArea(argv, envp)[p] == t[p];
      assert mem(STRINGS + p) == mid(STRINGS + p);
    }
    forall j | 0 <= j < |s|
      ensures mem(a + j) == s[j]
    {
      assert t[at..at + |s|][j] == t[at + j];
      assert mem(STRINGS + (at + j)) == t[at + j];
    }
    assert mem(STRINGS + (at + |s|)) == 0;
    CStringReads(mem, a, s, STACK_TOP);
  }

  lemma FrameParts(a: seq<u64>, e: seq<u64>, auxv: seq<Aux>, i: nat)
    requires |a| < U64
    ensures var f := Frame(a, e, auxv);
            && |f| == 3 + |a| + |e| + 2 * |auxv|
            && f[0] == |a| && f[1 + |a|] == 0 && f[2 + |a| + |e|] == 0
            && (i < |a| ==> f[1 + i] == a[i])
            && (i < |e| ==> f[2 + |a| + i] == e[i])
            && (i < |auxv| ==> f[3 + |a| + |e| + 2 * i] == auxv[i].kind && f[4 + |a| + |e| + 2 * i] == auxv[i].value)
  {
    if i < |auxv| {
      FlattenAt(auxv, i);
    }
  }

  lemma DecodePointers(mid: Memory, mem: Memory, sp: nat, a: seq<u64>, e: seq<u64>, auxv: seq<Aux>)
    requires |a| < U64 && Written(mid, mem, sp, Words(Frame(a, e, auxv))) && sp + 8 * |Frame(a, e, auxv)| <= STRINGS
    requires forall i :: 0 <= i < |e| ==> e[i] != 0
    ensures Word(mem, sp) == |a| && Pointers(mem, sp + 8, |a|) == a && Word(mem, sp + 8 + 8 * |a|) == 0
    ensures PointersToNull(mem, sp + 16 + 8 * |a|, STACK_TOP) == e
  {
    hide Frame, Word, Words, Written;
    var f := Frame(a, e, auxv);
    FrameParts(a, e, auxv, 0);
    FrameWord(mid, mem, sp, f, 0);
    FrameWord(mid, mem, sp, f, 1 + |a|);
    FrameWord(mid, mem, sp, f, 2 + |a| + |e|);
    forall i | 0 <= i < |a|
      ensures Word(mem, sp + 8 + 8 * i) == a[i]
    {
      FrameParts(a, e, auxv, i);
      FrameWord(mid, mem, sp, f, 1 + i);
    }
    forall i | 0 <= i < |e|
      ensures Word(mem, sp + 16 + 8 * |a| + 8 * i) == e[i]
    {
      FrameParts(a, e, auxv, i);
      FrameWord(mid, mem, sp, f, 2 + |a| + i);
    }
    PointersRead(mem, sp + 16 + 8 * |a|, e, STACK_TOP);
  }

  lemma DecodeAux(mid: Memory, mem: Memory, sp: nat, a: seq<u64>, e: seq<u64>, auxv: seq<Aux>)
    requires |a| < U64 && Written(mid, mem, sp, Words(Frame(a, e, auxv))) && sp + 8 * |Frame(a, e, auxv)| <= STRINGS
    requires EndsAtNull(auxv)
    ensures AuxToNull(mem, sp + 24 + 8 * |a| + 8 * |e|, STACK_TOP) == auxv
  {
    hide Frame, Word, Words, Written, EndsAtNull;
    var f := Frame(a, e, auxv);
    var at := sp + 24 + 8 * |a| + 8 * |e|;
    FrameParts(a, e, auxv, 0);
    forall i | 0 <= i < |auxv|
      ensures ReadAux(mem, at + 16 * i) == auxv[i]
    {
      FrameParts(a, e, auxv, i);
      FrameWord(mid, mem, sp, f, 3 + |a| + |e| + 2 * i);
      FrameWord(mid, mem, sp, f, 4 + |a| + |e| + 2 * i);
    }
    AuxRead(mem, at, auxv, STACK_TOP);
  }

  /** Read from RSP as the psABI says, the stack gives argc, every argument and environment string
      up to its first NUL, and the auxiliary vector. */
  lemma DecodeLaidOut(before: Memory, mid: Memory, mem: Memory, sp: nat, argv: seq<Str>, envp: seq<Str>, auxv: seq<Aux>)
    requires LaidOut(before, mid, mem, sp, argv, envp, auxv) && EndsAtNull(auxv)
    ensures Decode(mem, sp) == Start(|argv|, Seen(argv), 0, Seen(envp), auxv)
  {
    hide Frame, Words, Written, EndsAtNull, Word, CString, TillNul, AuxToNull, PointersToNull, Terminated;
    var all := AllStrings(argv, envp);
    TerminatedMonotone(all, 0);
    var a, e := Addresses(all, 1, |argv|), Addresses(all, 1 + |argv|, |envp|);
    DecodePointers(mid, mem, sp, a, e, auxv);
    DecodeAux(mid, mem, sp, a, e, auxv);
    forall i | 0 <= i < |argv|
      ensures CString(mem, a[i], STACK_TOP) == TillNul(argv[i])
    {
      StringSeen(before, mid, mem, sp, argv, envp, auxv, 1 + i);
      assert all[1 + i] == argv[i];
    }
    forall i | 0 <= i < |envp|
      ensures CString(mem, e[i], STACK_TOP) == TillNul(envp[i])
    {
      StringSeen(before, mid, mem, sp, argv, envp, auxv, 1 + |argv| + i);
      assert all[1 + |argv| + i] == envp[i];
    }
    assert CStrings(mem, a) == Seen(argv);
    assert CStrings(mem, e) == Seen(envp);
  }

  // ----- Building it -----

  ghost predicate InStack(a: nat, n: nat) {
    n == 0 || (STACK_BASE <= a && a + n <= STACK_TOP)
  }

  lemma {:induction false} WordsAppend(ws: seq<u64>, w: u64)
    ensures Words(ws + [w]) == Words(ws) + Le(w, 8)
  {
    assert (ws + [w])[..|ws|] == ws;
  }

  lemma TerminatedAppend(strs: seq<Str>, s: Str)
    ensures Terminated(strs + [s]) == Terminated(strs) + (s + [0])
  {
    assert (strs + [s])[..|strs|] == strs;
  }

  /** The strings still to come cannot fit once the area is full. */
  lemma OverflowStays(strs: seq<Str>, i: nat)
    requires i <= |strs| && |Terminated(strs[..i])| > 256
    ensures |Terminated(strs)| > 256
  {
    TerminatedMonotone(strs, i);
  }

  class LinuxProcessContext {
    var mem: Memory
    var auxv: seq<Aux>
    var rsp: u64

    /** write_memory: only the freshly allocated stack is writable here. */
    method WriteMemory(a: nat, data: seq<byte>) returns (ok: bool)
      modifies this`mem
      ensures ok <==> InStack(a, |data|)
      ensures mem == if ok then Write(old(mem), a, data) else old(mem)
    {
      if data != [] && (a < STACK_BASE || STACK_TOP < a + |data|) {
        return false;
      }
      mem := Write(mem, a, data);
      return true;
    }

    /** Write strings one after the other; `done` are those already written. */
    method WriteStrings(ghost before: Memory, ghost done: seq<Str>, cursor: nat, strs: seq<Str>)
      returns (ok: bool, next: nat, addrs: seq<u64>)
      requires Written(before, mem, STRINGS, Terminated(done)) && cursor == STRINGS + |Terminated(done)| <= STACK_TOP
      modifies this`mem
      ensures ok <==> |Terminated(done + strs)| <= 256
      ensures ok ==> Written(before, mem, STRINGS, Terminated(done + strs)) && next == STRINGS + |Terminated(done + strs)|
      ensures ok ==> addrs == Addresses(done + strs, |done|, |strs|)
    {
      hide Terminated, Written, Write, Addresses;
      next, addrs := cursor, [];
      ghost var all := done + strs;
      assert all[..|done|] == done;
      for i := 0 to |strs|
        invariant |addrs| == i && forall k :: 0 <= k < i ==> addrs[k] == AddressOf(all, |done| + k)
        invariant Written(before, mem, STRINGS, Terminated(all[..|done| + i]))
        invariant next == STRINGS + |Terminated(all[..|done| + i])| <= STACK_TOP
      {
        addrs := addrs + [next];
        var wrote := WriteString(before, all[..|done| + i], next, strs[i]);
        assert all[..|done| + i] + [strs[i]] == all[..|done| + (i + 1)];
        if !wrote {
          OverflowStays(all, |done| + (i + 1));
          return false, next, addrs;
        }
        next := next + |strs[i]| + 1;
      }
      assert all[..|done| + |strs|] == all;
      ok := true;
      assert addrs == Addresses(all, |done|, |strs|);
    }

    /** write_string_to_memory: the characters, then the terminator. */
    method WriteString(ghost before: Memory, ghost done: seq<Str>, cursor: nat, s: Str) returns (ok: bool)
      requires Written(before, mem, STRINGS, Terminated(done)) && cursor == STRINGS + |Terminated(done)| <= STACK_TOP
      modifies this`mem
      ensures |Terminated(done + [s])| == |Terminated(done)| + |s| + 1
      ensures ok <==> |Terminated(done + [s])| <= 256
      ensures ok ==> Written(before, mem, STRINGS, Terminated(done + [s]))
    {
      hide Terminated, Written, Write;
      TerminatedAppend(done, s);
      ghost var t := Terminated(done);
      ghost var m := mem;
      var wrote := WriteMemory(cursor, s);
      if !wrote {
        return false;
      }
      WrittenAppend(before, m, STRINGS, t, s);
      ghost var n := mem;
      ok := WriteMemory(cursor + |s|, [0]);
      WrittenAppend(before, n, STRINGS, t + s, [0]);
      assert t + s + [0] == t + (s + [0]);
    }

    /** Write words one after the other; `done` are those already written. */
    method WriteWords(ghost before: Memory, ghost done: seq<u64>, ghost sp: nat, cursor: nat, ws: seq<u64>) returns (ok: bool, next: nat)
      requires Written(before, mem, sp, Words(done)) && cursor == sp + 8 * |done|
      requires STACK_BASE <= sp && sp + 8 * |done + ws| <= STACK_TOP
      modifies this`mem
      ensures ok && Written(before, mem, sp, Words(done + ws)) && next == sp + 8 * |done + ws|
    {
      hide Words, Le, Written, Write;
      next := cursor;
      ghost var all := done + ws;
      assert all[..|done|] == done;
      for i := 0 to |ws|
        invariant Written(before, mem, sp, Words(all[..|done| + i])) && next == sp + 8 * (|done| + i)
      {
        ghost var m, soFar := mem, all[..|done| + i];
        var wrote := WriteMemory(next, Le(ws[i], 8));
        assert wrote;
        WordsAppend(soFar, ws[i]);
        WrittenAppend(before, m, sp, Words(soFar), Le(ws[i], 8));
        assert soFar + [ws[i]] == all[..|done| + (i + 1)];
        next := next + 8;
      }
      assert all[..|done| + |ws|] == all;
      ok := true;
    }

    /** Platform string, argument strings, environment strings and random bytes. */
    method WriteArea(argv: seq<Str>, envp: seq<Str>)
      returns (ok: bool, argvAt: seq<u64>, envpAt: seq<u64>, platform: u64, random: u64)
      modifies this`mem
      ensures ok <==> Fits(argv, envp)
      ensures ok ==> Written(old(mem), mem, STRINGS, StringArea(argv, envp))
      ensures ok ==> argvAt == Addresses(AllStrings(argv, envp), 1, |argv|)
      ensures ok ==> envpAt == Addresses(AllStrings(argv, envp), 1 + |argv|, |envp|)
      ensures ok ==> platform == STRINGS && random == STRINGS + |Terminated(AllStrings(argv, envp))|
    {
      hide Written, Terminated, Addresses;
      ghost var before := mem;
      var cursor := STRINGS;
      argvAt, envpAt, platform, random := [], [], cursor, 0;
      NothingWritten(before);
      var addrs: seq<u64>;
      ok, cursor, addrs := WriteStrings(before, [], cursor, [PLATFORM]);
      assert [] + [PLATFORM] == [PLATFORM];
      PlatformFits();
      ghost var done := [PLATFORM];
      ok, cursor, argvAt := WriteStrings(before, done, cursor, argv);
      ghost var all := AllStrings(argv, envp);
      assert all == done + argv + envp;
      if !ok {
        assert all[..1 + |argv|] == done + argv;
        OverflowStays(all, 1 + |argv|);
        return;
      }
      ok, cursor, envpAt := WriteStrings(before, done + argv, cursor, envp);
      if !ok {
        return;
      }
      AddressesExtend(done + argv, envp, 1, |argv|);
      random := cursor;
      ghost var m := mem;
      ok := WriteMemory(cursor, RandomBytes());
      WrittenAppend(before, m, STRINGS, Terminated(all), RandomBytes());
    }

    /** The part of process setup that builds the stack. It succeeds exactly when the platform
        string, arguments, environment and random bytes fit the 256 bytes at the top. */
    method Setup(argv: seq<Str>, envp: seq<Str>, facts: Facts) returns (ok: bool)
      modifies this
      ensures ok <==> Fits(argv, envp)
      ensures ok ==> Decode(mem, rsp) == Start(|argv|, Seen(argv), 0, Seen(envp), auxv)
      ensures ok ==> rsp % 16 == 0 && STACK_BASE <= rsp && rsp + 8 * |FrameFor(argv, envp, auxv)| <= STRINGS
      ensures ok ==> exists random, platform :: auxv == AuxFor(facts, random, platform) && AuxPoints(mem, random, platform)
      ensures ok ==> forall a: int :: mem(a) != old(mem)(a) ==> rsp <= a < STACK_TOP
      ensures ok <==> 23 + Room(argv) + Room(envp) <= 256
      ensures ok ==> exists random, platform :: AuxSays(auxv, facts, random, platform) && PointsRight(mem, random, platform)
      ensures ok ==> var words := 3 + |argv| + |envp| + 2 * |auxv|;
                     rsp % 16 == 0 && 0x7fff_fffd_d000 - 16 < rsp + 8 * words <= 0x7fff_fffd_d000
    {
      hide Written, Terminated, Addresses, Words, Decode, AuxFor, Frame, Flatten, StringArea, AllStrings, AuxPoints, Room, AuxSays, PointsRight;
      AreaRoom(argv, envp);
      ghost var before := mem;
      var argvAt, envpAt, platform, random;
      ok, argvAt, envpAt, platform, random := WriteArea(argv, envp);
      if !ok {
        return;
      }
      ghost var mid := mem;
      auxv := AuxFor(facts, random, platform);
      AuxForShape(facts, random, platform);
      AuxForSays(facts, random, platform);
      FewStrings(argv, envp);
      var argc := |argv|;
      var total := 1 + argc + 1 + |envp| + 1 + |auxv| * 2;
      var sp: u64 := AlignDown(STACK_TOP - 0x1000, 16);
      SpFits(total);
      sp := AlignDown(sp - 8 * total, 16);
      WriteFrame(sp, argvAt, envpAt, auxv);
      rsp := sp;
      ghost var f := FrameFor(argv, envp, auxv);
      assert f == Frame(argvAt, envpAt, auxv);
      FrameParts(argvAt, envpAt, auxv, 0);
      DecodeLaidOut(before, mid, mem, sp, argv, envp, auxv);
      AuxPointsThere(before, mid, mem, sp, argv, envp, auxv);
      PointsAre(mem, random, platform);
      OnlyStack(before, mid, mem, sp, argv, envp, auxv);
    }

    method WriteFrame(sp: u64, argvAt: seq<u64>, envpAt: seq<u64>, entries: seq<Aux>)
      requires STACK_BASE <= sp && |argvAt| < U64 && sp + 8 * (3 + |argvAt| + |envpAt| + 2 * |entries|) <= STACK_TOP
      modifies this`mem
      ensures Written(old(mem), mem, sp, Words(Frame(argvAt, envpAt, entries)))
    {
      hide Words, Written;
      ghost var before := mem;
      NoWords(before, sp);
      var ok, at := WriteWords(before, [], sp, sp, [|argvAt|]);
      ghost var done := [|argvAt|];
      assert [] + done == done;
      ok, at := WriteWords(before, done, sp, at, argvAt);
      done := done + argvAt;
      ok, at := WriteWords(before, done, sp, at, [0]);
      done := done + [0];
      ok, at := WriteWords(before, done, sp, at, envpAt);
      done := done + envpAt;
      ok, at := WriteWords(before, done, sp, at, [0]);
      done := done + [0];
      WriteAux(before, done, sp, at, entries);
    }

    method WriteAux(ghost before: Memory, ghost done: seq<u64>, ghost sp: nat, cursor: nat, entries: seq<Aux>)
      requires Written(before, mem, sp, Words(done)) && cursor == sp + 8 * |done|
      requires STACK_BASE <= sp && sp + 8 * (|done| + 2 * |entries|) <= STACK_TOP
      modifies this`mem
      ensures Written(before, mem, sp, Words(done + Flatten(entries)))
    {
      hide Words, Written;
      var at := cursor;
      assert entries[..0] == [] && done + [] == done;
      for i := 0 to |entries|
        invariant at == sp + 8 * (|done| + 2 * i)
        invariant Written(before, mem, sp, Words(done + Flatten(entries[..i])))
      {
        ghost var soFar := done + Flatten(entries[..i]);
        var ok;
        ok, at := WriteWords(before, soFar, sp, at, [entries[i].kind]);
        ok, at := WriteWords(before, soFar + [entries[i].kind], sp, at, [entries[i].value]);
        assert entries[..i + 1][..i] == entries[..i];
        assert soFar + [entries[i].kind] + [entries[i].value] == done + Flatten(entries[..i + 1]);
      }
      assert entries[..|entries|] == entries;
    }
  }

  lemma NothingWritten(mem: Memory)
    ensures Terminated([]) == [] && Written(mem, mem, STRINGS, [])
  {
  }

  lemma NoWords(mem: Memory, sp: int)
    ensures Written(mem, mem, sp, Words([]))
  {
  }

  lemma PlatformFits()
    ensures |Terminated([PLATFORM])| == 7
  {
    TerminatedAppend([], PLATFORM);
    assert [] + [PLATFORM] == [PLATFORM];
  }

  /** More strings after them do not move the strings already placed. */
  lemma AddressesExtend(strs: seq<Str>, more: seq<Str>, i: nat, n: nat)
    requires i + n <= |strs| && |Terminated(strs)| <= 256 && |Terminated(strs + more)| <= 256
    ensures Addresses(strs, i, n) == Addresses(strs + more, i, n)
  {
    var a, b := Addresses(strs, i, n), Addresses(strs + more, i, n);
    forall k | 0 <= k < n
      ensures a[k] == b[k]
    {
      assert (strs + more)[..i + k] == strs[..i + k];
    }
  }

  lemma AuxForShape(f: Facts, random: u64, platform: u64)
    ensures EndsAtNull(AuxFor(f, random, platform)) && |AuxFor(f, random, platform)| <= 16
  {
  }

  /** What the strings take with their terminators. */
  function Room(strs: seq<Str>): nat {
    if strs == [] then 0 else |strs[0]| + 1 + Room(strs[1..])
  }

  lemma {:induction false} TerminatedRoom(strs: seq<Str>)
    ensures |Terminated(strs)| == Room(strs)
  {
    if strs != [] {
      var n := |strs| - 1;
      TerminatedRoom(strs[..n]);
      RoomLast(strs);
    }
  }

  lemma {:induction false} RoomLast(strs: seq<Str>)
    requires strs != []
    ensures Room(strs) == Room(strs[..|strs| - 1]) + |strs[|strs| - 1]| + 1
  {
    var n := |strs| - 1;
    if n > 0 {
      RoomLast(strs[1..]);
      assert strs[1..][..n - 1] == strs[..n][1..];
    }
  }

  lemma {:induction false} RoomConcat(a: seq<Str>, b: seq<Str>)
    ensures Room(a + b) == Room(a) + Room(b)
  {
    if a == [] {
      assert a + b == b;
    } else {
      RoomConcat(a[1..], b);
      assert (a + b)[0] == a[0] && (a + b)[1..] == a[1..] + b;
    }
  }

  /** Seven bytes for the platform string, sixteen random ones, and the strings. */
  lemma AreaRoom(argv: seq<Str>, envp: seq<Str>)
    ensures Fits(argv, envp) <==> 23 + Room(argv) + Room(envp) <= 256
  {
    hide Terminated, Room;
    TerminatedRoom(AllStrings(argv, envp));
    RoomConcat([PLATFORM] + argv, envp);
    RoomConcat([PLATFORM], argv);
    TerminatedRoom([PLATFORM]);
    PlatformFits();
  }

  /** The entries a program can look up, by their numbers in the psABI and in Linux. */
  ghost predicate AuxSays(auxv: seq<Aux>, f: Facts, random: u64, platform: u64) {
    && |auxv| == (if f.vdso == 0 then 15 else 16) && auxv[|auxv| - 1] == Aux(0, 0)
    && (forall i, j :: 0 <= i < j < |auxv| ==> auxv[i].kind != auxv[j].kind)
    && Aux(3, f.phdr) in auxv && Aux(4, f.phent) in auxv && Aux(5, f.phnum) in auxv && Aux(6, 4096) in auxv
    && Aux(7, f.interpreter) in auxv && Aux(9, f.entry) in auxv
    && Aux(11, f.uid) in auxv && Aux(12, f.euid) in auxv && Aux(13, f.gid) in auxv && Aux(14, f.egid) in auxv
    && Aux(23, 0) in auxv && Aux(25, random) in auxv && Aux(15, platform) in auxv && Aux(17, 100) in auxv
    && (f.vdso != 0 ==> Aux(33, f.vdso) in auxv)
  }

  lemma AuxForSays(f: Facts, random: u64, platform: u64)
    ensures AuxSays(AuxFor(f, random, platform), f, random, platform)
  {
    var a := AuxFor(f, random, platform);
    assert a[0] == Aux(3, f.phdr) && a[1] == Aux(4, f.phent) && a[2] == Aux(5, f.phnum) && a[3] == Aux(6, 4096);
    assert a[4] == Aux(7, f.interpreter) && a[5] == Aux(9, f.entry) && a[6] == Aux(11, f.uid) && a[7] == Aux(12, f.euid);
    assert a[8] == Aux(13, f.gid) && a[9] == Aux(14, f.egid) && a[10] == Aux(23, 0) && a[11] == Aux(25, random);
    assert a[12] == Aux(15, platform) && a[13] == Aux(17, 100);
    assert f.vdso != 0 ==> a[14] == Aux(33, f.vdso);
  }

  /** The sixteen bytes and the string "x86_64" themselves. */
  ghost predicate PointsRight(mem: Memory, random: u64, platform: u64) {
    && (forall i :: 0 <= i < 16 ==> mem(random + i) == (73 * i + 171) % 256)
    && CString(mem, platform, 0x7fff_fffd_e000) == [0x78, 0x38, 0x36, 0x5f, 0x36, 0x34]
  }

  lemma PointsAre(mem: Memory, random: u64, platform: u64)
    requires AuxPoints(mem, random, platform)
    ensures PointsRight(mem, random, platform)
  {
    hide CString;
    forall i | 0 <= i < 16
      ensures mem(random + i) == (73 * i + 171) % 256
    {
      assert Read(mem, random, 16)[i] == RandomBytes()[i];
    }
  }

  /** Every string takes at least its terminator, so there are fewer than 256. */
  lemma FewStrings(argv: seq<Str>, envp: seq<Str>)
    requires Fits(argv, envp)
    ensures |argv| + |envp| < 256
  {
    TerminatedMonotone(AllStrings(argv, envp), 0);
  }

  lemma SpFits(total: nat)
    requires total <= 300
    ensures var top := AlignDown(STACK_TOP - 0x1000, 16);
            && 0 <= top - 8 * total
            && var sp := AlignDown(top - 8 * total, 16);
               && sp % 16 == 0 && STACK_BASE <= sp && sp + 8 * total <= STRINGS
               && 0x7fff_fffd_d000 - 16 < sp + 8 * total <= 0x7fff_fffd_d000
  {
  }

  /** AT_RANDOM points to the sixteen random bytes, AT_PLATFORM to the platform string. */
  ghost predicate AuxPoints(mem: Memory, random: u64, platform: u64) {
    Read(mem, random, 16) == RandomBytes() && CString(mem, platform, STACK_TOP) == PLATFORM
  }

  lemma AuxPointsThere(before: Memory, mid: Memory, mem: Memory, sp: nat, argv: seq<Str>, envp: seq<Str>, auxv: seq<Aux>)
    requires LaidOut(before, mid, mem, sp, argv, envp, auxv)
    ensures AuxPoints(mem, STRINGS + |Terminated(AllStrings(argv, envp))|, STRINGS)
  {
    hide Terminated, FrameFor, Words, RandomBytes, CString, TillNul;
    var all := AllStrings(argv, envp);
    StringSeen(before, mid, mem, sp, argv, envp, auxv, 0);
    assert all[..0] == [] && all[0] == PLATFORM;
    TillNulIff(PLATFORM);
    NothingWritten(before);
    var at := |Terminated(all)|;
    forall i | 0 <= i < 16
      ensures mem(STRINGS + at + i) == RandomBytes()[i]
    {
      assert StringArea(argv, envp)[at + i] == RandomBytes()[i];
      assert mem(STRINGS + (at + i)) == mid(STRINGS + (at + i));
    }
  }

  lemma OnlyStack(before: Memory, mid: Memory, mem: Memory, sp: nat, argv: seq<Str>, envp: seq<Str>, auxv: seq<Aux>)
    requires LaidOut(before, mid, mem, sp, argv, envp, auxv)
    ensures forall a: int :: mem(a) != before(a) ==> sp <= a < STACK_TOP
  {
  }
}
