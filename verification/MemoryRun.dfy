/** Whole runs of the memory manager against a flat machine.

    The machine's state is the view alone: which bytes are mapped, with which permissions, in
    which region. `Execute` shows that any sequence of calls gives the machine's answers and
    leaves the machine's view, with table and backend consistent after every call. */
module MemoryRun {
  import opened Machine
  import opened MemoryView
  import opened MemoryTable
  import opened MemorySearch
  import opened MemoryRelease
  import opened MemoryManager

  datatype Op =
    | Allocate(address: u64, size: u64, perm: Perm)
    | AllocateAnywhere(size: u64, perm: Perm, start: u64)
    | ProtectPages(address: u64, size: u64, perm: Perm)
    | Release(address: u64, size: u64)

  datatype Answer = Done(ok: bool) | At(base: nat)

  ghost predicate ViewCandidate(v: View, lo: nat, a: nat, n: nat) {
    lo <= a && a % PAGE == 0 && a + n <= MAX_MMAP_END && Range(a, n) !! v.Keys
  }

  ghost predicate ViewFirstFit(v: View, lo: nat, n: nat, r: nat) {
    if r == 0 then !HasViewCandidate(v, lo, n)
    else ViewCandidate(v, lo, r, n) && forall a :: ViewCandidate(v, lo, a, n) ==> r <= a
  }

  ghost predicate HasViewCandidate(v: View, lo: nat, n: nat) {
    exists a :: ViewCandidate(v, lo, a, n)
  }

  /** The search wraps at its start, or behind a region that reaches nearly to 2^64. */
  ghost predicate ViewLost(v: View, c: nat, n: nat) {
    || (&& U64 <= c + n <= U64 + MAX_MMAP_END
        && (c in v && v[c].base < c + n - U64 ==>
              forall a :: a in v && v[a].base == v[c].base ==> a + 1 + n <= U64 + MAX_MMAP_END))
    || (&& c + n <= MAX_MMAP_END && !HasViewCandidate(v, c, n)
        && exists a :: ViewTop(v, a, n))
  }

  ghost predicate ViewTop(v: View, a: nat, n: nat) {
    && a in v && U64 <= a + 1 + n
    && forall x :: x in v && v[x].base < v[a].base ==> x + 1 + n <= MAX_MMAP_END
  }

  /** What the backend can carry out: proper regions, no base whose range wraps, no negative length. */
  ghost predicate Defined(v: View, mmapBase: u64, op: Op) {
    match op
    case Allocate(address, size, perm) => RegionOk(address, Region(size, perm))
    case AllocateAnywhere(size, perm, start) =>
      && 0 < size && size % PAGE == 0
      && !ViewLost(v, AlignUp(SearchFrom(mmapBase, start), PAGE), size)
    case ProtectPages(_, _, _) => true
    case Release(address, size) =>
      var s, e := First(address), Limit(address, size);
      0 < size && e < s ==> forall a :: a in v && s <= a ==> e <= v[a].base
  }

  /** A search from the aligned start `c`; at address 0 a fit and a failure give the same answer. */
  ghost predicate ViewOutcome(v: View, c: nat, n: nat, r: nat) {
    if c == 0 && ViewCandidate(v, 0, 0, n) then r == 0 else ViewFirstFit(v, c, n, r)
  }

  /** One step of the flat machine. */
  ghost predicate Step(v: View, mmapBase: u64, op: Op, w: View, answer: Answer) {
    match op
    case Allocate(address, size, perm) =>
      var free := Range(address, size) !! v.Keys;
      answer == Done(free) && w == if free then ViewAllocate(v, address, size, perm) else v
    case AllocateAnywhere(size, perm, start) =>
      && answer.At?
      && ViewOutcome(v, AlignUp(SearchFrom(mmapBase, start), PAGE), size, answer.base)
      && w == if answer.base == 0 then v else ViewAllocate(v, answer.base, size, perm)
    case ProtectPages(address, size, perm) =>
      var accepts := ProtectAccepts(v, address, size);
      && answer == Done(accepts)
      && w == if accepts then ViewEdit(v, First(address), Limit(address, size), Protect(perm)) else v
    case Release(address, size) =>
      if size == 0 then
        answer == Done(address in v && v[address].base == address) && w == ViewDrop(v, address)
      else
        answer == Done(true) && w == ViewRelease(v, address, size)
  }

  // ----- What a step does, byte by byte -----

  /** The first byte of the touched pages, and the first byte past them. */
  function PagesFrom(address: nat): nat { address / 4096 * 4096 }

  function PagesTo(address: nat, size: nat): nat
    requires 0 < size
  {
    (address + size - 1) / 4096 * 4096 + 4096
  }

  /** An allocation adds exactly its bytes, all in one region, and only to free addresses. */
  lemma AllocateBytes(v: View, mmapBase: u64, op: Op, w: View, answer: Answer, x: nat)
    requires op.Allocate? && Step(v, mmapBase, op, w, answer)
    ensures answer.Done? && (answer.ok <==> forall y: nat :: op.address <= y < op.address + op.size ==> y !in v)
    ensures if answer.ok && op.address <= x < op.address + op.size then x in w && w[x] == Tag(op.address, op.perm)
            else (x in w <==> x in v) && (x in v ==> w[x] == v[x])
  {
    forall y: nat
      ensures op.address <= y < op.address + op.size <==> y in Range(op.address, op.size)
    {
    }
  }

  lemma AllocateAnywhereBytes(v: View, mmapBase: u64, op: Op, w: View, answer: Answer, x: nat)
    requires op.AllocateAnywhere? && Step(v, mmapBase, op, w, answer)
    ensures answer.At?
    ensures if answer.base != 0 && answer.base <= x < answer.base + op.size then x !in v && x in w && w[x] == Tag(answer.base, op.perm)
            else (x in w <==> x in v) && (x in v ==> w[x] == v[x])
  {
    forall y: nat
      ensures answer.base <= y < answer.base + op.size <==> y in Range(answer.base, op.size)
    {
    }
  }

  /** mprotect succeeds exactly on non-empty, non-wrapping requests whose pages are all mapped. It
      changes the permissions of exactly those pages and cuts regions only at their ends. */
  lemma ProtectBytes(v: View, mmapBase: u64, op: Op, w: View, answer: Answer, x: nat)
    requires op.ProtectPages? && Step(v, mmapBase, op, w, answer)
    ensures answer.Done?
    ensures answer.ok <==> 0 < op.size && op.address + op.size <= U64 - 4096
                           && forall y: nat :: OnPages(y, op.address, op.size) ==> y in v
    ensures x in w <==> x in v
    ensures x in v && !answer.ok ==> w[x] == v[x]
    ensures x in v && answer.ok ==>
              var from, to := PagesFrom(op.address), PagesTo(op.address, op.size);
              if OnPages(x, op.address, op.size) then w[x] == Tag(Max(v[x].base, from), op.perm)
              else w[x] == Tag(if to <= x then Max(v[x].base, to) else v[x].base, v[x].perm)
  {
    hide First, Limit, OnPages, PagesFrom, PagesTo;
    AcceptedPages(v, op.address, op.size);
    if answer.ok {
      RangeIsPages(op.address, op.size, x);
      PageEndsAre(op.address, op.size);
    }
  }

  lemma PageEndsAre(address: u64, size: u64)
    requires 0 < size && NoWrap(address, size)
    ensures First(address) == PagesFrom(address) && Limit(address, size) == PagesTo(address, size)
  {
    hide AlignUp, AlignDown;
    Add64Exact(address, size);
    AlignUpLeast(address + size, PAGE);
    AlignedMultiple(address, PAGE);
    DownIs(address);
  }

  /** munmap of size 0 drops the region that starts at the address. Otherwise, short of a wrap, it
      always succeeds, removes exactly the touched pages and cuts regions only at their ends. */
  lemma ReleaseBytes(v: View, mmapBase: u64, op: Op, w: View, answer: Answer, x: nat)
    requires op.Release? && Step(v, mmapBase, op, w, answer) && op.address + op.size <= U64 - 4096
    ensures answer.Done?
    ensures op.size == 0 ==> (answer.ok <==> op.address in v && v[op.address].base == op.address)
    ensures op.size == 0 ==> (x in w <==> x in v && v[x].base != op.address) && (x in w ==> w[x] == v[x])
    ensures 0 < op.size ==> answer.ok && (x in w <==> x in v && !OnPages(x, op.address, op.size))
    ensures 0 < op.size && x in w ==>
              var to := PagesTo(op.address, op.size);
              w[x] == Tag(if to <= x then Max(v[x].base, to) else v[x].base, v[x].perm)
  {
    hide First, Limit, OnPages, PagesFrom, PagesTo;
    if 0 < op.size {
      RangeIsPages(op.address, op.size, x);
      PageEndsAre(op.address, op.size);
      RangeEnds(op.address, op.size);
    }
  }

  /** The hint counts: short of the last page, the answer is the first fit at or above it; a hint
      below 64 KiB counts as 64 KiB, and no hint as the manager's base. */
  lemma SearchHint(v: View, mmapBase: u64, op: Op, w: View, answer: Answer)
    requires op.AllocateAnywhere? && Step(v, mmapBase, op, w, answer)
    ensures answer.At?
    ensures 0x1_0000 <= op.start <= U64 - 4096 ==> ViewFirstFit(v, op.start, op.size, answer.base)
    ensures 0 < op.start < 0x1_0000 ==> ViewFirstFit(v, 0x1_0000, op.size, answer.base)
    ensures op.start == 0 && mmapBase <= U64 - 4096 ==> ViewFirstFit(v, Max(0x1_0000, mmapBase), op.size, answer.base)
  {
    hide AlignUp, ViewFirstFit;
    var lo := SearchFrom(mmapBase, op.start);
    if lo <= U64 - PAGE {
      AlignUpLeast(lo, PAGE);
      HintRounds(v, lo, AlignUp(lo, PAGE), op.size, answer.base);
    }
  }

  lemma HintRounds(v: View, lo: nat, c: nat, n: nat, r: nat)
    requires lo <= c && forall a: int :: lo <= a && a % PAGE == 0 ==> c <= a
    ensures ViewFirstFit(v, lo, n, r) <==> ViewFirstFit(v, c, n, r)
  {
    assert forall a :: ViewCandidate(v, lo, a, n) <==> ViewCandidate(v, c, a, n);
  }

  /** With nothing mapped the search stays below 2^48: it takes the aligned hint if the request ends
      at or before that, and fails otherwise. */
  lemma EmptySearch(lo: nat, n: nat, r: nat)
    requires 0 < lo && lo % 4096 == 0 && ViewFirstFit(map[], lo, n, r)
    ensures r == if lo + n <= 0x1_0000_0000_0000 then lo else 0
  {
    assert lo + n <= 0x1_0000_0000_0000 ==> ViewCandidate(map[], lo, lo, n);
    assert ViewCandidate(map[], lo, lo, n) ==> HasViewCandidate(map[], lo, n);
  }

  ghost predicate LegalRun(v: View, mmapBase: u64, ops: seq<Op>)
    decreases |ops|
  {
    ops == [] ||
    (&& Defined(v, mmapBase, ops[0])
     && forall w, answer :: Step(v, mmapBase, ops[0], w, answer) ==> LegalRun(w, mmapBase, ops[1..]))
  }

  /** `trace` is the machine's run on `ops`, with these answers. */
  ghost predicate Run(trace: seq<View>, mmapBase: u64, ops: seq<Op>, answers: seq<Answer>) {
    && |trace| == |ops| + 1 && |answers| == |ops|
    && forall i :: 0 <= i < |ops| ==> Step(trace[i], mmapBase, ops[i], trace[i + 1], answers[i])
  }

  /** The flat machine is deterministic, so its answers are the only right ones. */
  lemma StepDeterministic(v: View, mmapBase: u64, op: Op, w: View, x: Answer, w': View, x': Answer)
    requires Step(v, mmapBase, op, w, x) && Step(v, mmapBase, op, w', x')
    ensures w == w' && x == x'
  {
    if op.AllocateAnywhere? {
      hide AlignUp;
      var c := AlignUp(SearchFrom(mmapBase, op.start), PAGE);
      assert x.base != 0 ==> ViewCandidate(v, c, x.base, op.size) && HasViewCandidate(v, c, op.size);
      assert x'.base != 0 ==> ViewCandidate(v, c, x'.base, op.size) && HasViewCandidate(v, c, op.size);
    }
  }

  lemma {:induction false} RunDeterministic(trace: seq<View>, trace': seq<View>, mmapBase: u64, ops: seq<Op>,
                                            answers: seq<Answer>, answers': seq<Answer>)
    requires Run(trace, mmapBase, ops, answers) && Run(trace', mmapBase, ops, answers') && trace[0] == trace'[0]
    ensures trace == trace' && answers == answers'
  {
    if ops != [] {
      StepDeterministic(trace[0], mmapBase, ops[0], trace[1], answers[0], trace'[1], answers'[0]);
      RunDeterministic(trace[1..], trace'[1..], mmapBase, ops[1..], answers[1..], answers'[1..]);
      assert trace == [trace[0]] + trace[1..] && trace' == [trace'[0]] + trace'[1..];
      assert answers == [answers[0]] + answers[1..] && answers' == [answers'[0]] + answers'[1..];
    }
  }

  lemma CandidateViews(m: Regions, lo: nat, n: u64)
    requires WellFormed(m) && 0 < n
    ensures forall a :: Candidate(m, lo, a, n) <==> ViewCandidate(ViewOf(m), lo, a, n)
  {
    forall a: nat
      ensures Candidate(m, lo, a, n) <==> ViewCandidate(ViewOf(m), lo, a, n)
    {
      if a + n <= MAX_MMAP_END {
        IntersectsBytes(m, a, n);
      }
    }
  }

  lemma OutcomeViews(m: Regions, c: nat, n: u64, r: nat)
    requires WellFormed(m) && 0 < n && !Lost(m, c, n) && Outcome(m, c, n, r)
    ensures ViewOutcome(ViewOf(m), c, n, r)
  {
    hide Candidate, ViewCandidate, Lost, WellFormed, ViewOf;
    CandidateViews(m, c, n);
    CandidateViews(m, 0, n);
  }

  /** Table and view agree on when the search is lost. */
  lemma LostViews(m: Regions, c: nat, n: u64)
    requires WellFormed(m) && 0 < n
    ensures Lost(m, c, n) <==> ViewLost(ViewOf(m), c, n)
  {
    hide Candidate, ViewCandidate, ViewOf, WellFormed, StartWraps, TopRegion, ViewTop;
    CandidateViews(m, c, n);
    assert HasCandidate(m, c, n) <==> HasViewCandidate(ViewOf(m), c, n);
    if U64 <= c + n <= U64 + MAX_MMAP_END {
      StartViews(m, c, n);
    } else {
      StartNeedsWrap(m, c, n);
    }
    TopViews(m, n);
  }

  lemma StartNeedsWrap(m: Regions, c: nat, n: nat)
    requires !(U64 <= c + n <= U64 + MAX_MMAP_END)
    ensures !StartWraps(m, c, n)
  {
  }

  lemma StartViews(m: Regions, c: nat, n: u64)
    requires WellFormed(m) && U64 <= c + n <= U64 + MAX_MMAP_END
    ensures StartWraps(m, c, n) <==> (var v := ViewOf(m);
              c in v && v[c].base < c + n - U64 ==>
                forall a :: a in v && v[a].base == v[c].base ==> a + 1 + n <= U64 + MAX_MMAP_END)
  {
    hide ViewOf;
    var v, w := ViewOf(m), c + n - U64;
    forall b | b in m
      ensures Straddles(m, b, c, w) <==> c in v && v[c].base == b && b < w
      ensures End(m, b) + n <= U64 + MAX_MMAP_END
         <==> forall a :: a in v && v[a].base == b ==> a + 1 + n <= U64 + MAX_MMAP_END
    {
      assert RegionOk(b, m[b]);
      OwnedTag(m, v, b);
      assert End(m, b) - 1 in v;
    }
    assert c in v ==> Owns(m, v[c].base, c);
  }

  lemma TopViews(m: Regions, n: nat)
    requires WellFormed(m)
    ensures (exists b :: TopRegion(m, b, n)) <==> (exists a :: ViewTop(ViewOf(m), a, n))
  {
    hide ViewOf;
    var v := ViewOf(m);
    if b :| TopRegion(m, b, n) {
      assert RegionOk(b, m[b]);
      OwnedTag(m, v, b);
      TopLast(m, v, b, n);
      assert ViewTop(v, End(m, b) - 1, n);
    }
    if a :| ViewTop(v, a, n) {
      assert Owns(m, v[a].base, a);
      TopBase(m, v, a, n);
    }
  }

  lemma TopLast(m: Regions, v: View, b: nat, n: nat)
    requires WellFormed(m) && Represents(m, v) && TopRegion(m, b, n)
    ensures forall x :: x in v && v[x].base < b ==> x + 1 + n <= MAX_MMAP_END
  {
    forall x | x in v && v[x].base < b
      ensures x + 1 + n <= MAX_MMAP_END
    {
      assert Owns(m, v[x].base, x);
    }
  }

  lemma TopBase(m: Regions, v: View, a: nat, n: nat)
    requires WellFormed(m) && Represents(m, v) && ViewTop(v, a, n)
    ensures TopRegion(m, v[a].base, n)
  {
    assert Owns(m, v[a].base, a);
    forall k | k in m && k < v[a].base
      ensures End(m, k) + n <= MAX_MMAP_END
    {
      assert RegionOk(k, m[k]);
      OwnedTag(m, v, k);
      assert End(m, k) - 1 in v;
    }
  }

  lemma DefinedMeans(m: Regions, mmapBase: u64, op: Op)
    requires WellFormed(m) && Defined(ViewOf(m), mmapBase, op)
    ensures op.AllocateAnywhere? ==> !Lost(m, AlignUp(SearchFrom(mmapBase, op.start), PAGE), op.size)
    ensures op.Release? ==> ReleaseDefined(m, op.address, op.size)
  {
    hide AlignUp, ViewLost, Lost, ViewOf, First, Limit;
    if op.AllocateAnywhere? {
      LostViews(m, AlignUp(SearchFrom(mmapBase, op.start), PAGE), op.size);
    }
    if op.Release? {
      var v, s, e := ViewOf(m), First(op.address), Limit(op.address, op.size);
      forall b | b in m
        ensures e < s && Across(m, b, s, e) ==> s in v && v[s].base == b
      {
        OwnedTag(m, v, b);
      }
    }
  }

  lemma StartsRegion(m: Regions, a: nat)
    requires WellFormed(m)
    ensures a in m <==> a in ViewOf(m) && ViewOf(m)[a].base == a
  {
    assert a in m ==> RegionOk(a, m[a]) && Owns(m, a, a);
    assert a in ViewOf(m) ==> Owns(m, ViewOf(m)[a].base, a);
  }

  /** One call on the manager is one step of the machine. */
  method Apply(mm: LinuxMemoryManager, op: Op) returns (answer: Answer)
    requires mm.Valid() && Defined(mm.Contents(), mm.mmapBase, op)
    modifies mm
    ensures mm.Valid() && mm.mmapBase == old(mm.mmapBase)
    ensures Step(old(mm.Contents()), mm.mmapBase, op, mm.Contents(), answer)
  {
    hide Represents, ViewAllocate, ViewEdit, ViewDrop, ViewRelease, Mirrors, ViewOutcome, Outcome, Lost, ViewLost, AlignUp;
    DefinedMeans(mm.regions, mm.mmapBase, op);
    match op
    case Allocate(address, size, perm) =>
      var ok := mm.AllocateMemory(address, size, perm);
      answer := Done(ok);
    case AllocateAnywhere(size, perm, start) =>
      ghost var m := mm.regions;
      var base := mm.AllocateAnywhere(size, perm, start);
      OutcomeViews(m, AlignUp(SearchFrom(mm.mmapBase, start), PAGE), size, base);
      answer := At(base);
    case ProtectPages(address, size, perm) =>
      var ok := mm.ProtectMemory(address, size, perm);
      answer := Done(ok);
    case Release(address, size) =>
      StartsRegion(mm.regions, address);
      var ok := mm.ReleaseMemory(address, size);
      answer := Done(ok);
  }

  /** Every legal run of calls is the machine's run. */
  method Execute(mm: LinuxMemoryManager, ops: seq<Op>) returns (answers: seq<Answer>, ghost trace: seq<View>)
    requires mm.Valid() && LegalRun(mm.Contents(), mm.mmapBase, ops)
    modifies mm
    ensures mm.Valid() && mm.mmapBase == old(mm.mmapBase)
    ensures Run(trace, mm.mmapBase, ops, answers)
    ensures trace[0] == old(mm.Contents()) && trace[|ops|] == mm.Contents()
  {
    hide Step, Defined;
    answers := [];
    trace := [mm.Contents()];
    for i := 0 to |ops|
      invariant mm.Valid() && mm.mmapBase == old(mm.mmapBase)
      invariant LegalRun(mm.Contents(), mm.mmapBase, ops[i..])
      invariant Run(trace, mm.mmapBase, ops[..i], answers)
      invariant trace[0] == old(mm.Contents()) && trace[i] == mm.Contents()
    {
      assert ops[i..][0] == ops[i] && ops[i..][1..] == ops[i + 1..];
      var answer := Apply(mm, ops[i]);
      answers := answers + [answer];
      trace := trace + [mm.Contents()];
    }
    assert ops[..|ops|] == ops;
  }
}
