/** Where find_free_allocation_base may land: first fit, and the ways 64-bit wrap-around leads
    the search astray. */
module MemorySearch {
  import opened Machine
  import opened MemoryView

  const MIN_MMAP_ADDRESS: u64 := 0x1_0000
  const MAX_MMAP_END: u64 := 0x1_0000_0000_0000
  const DEFAULT_MMAP_BASE: u64 := 0x7f00_0000_0000

  /** No region of the table meets [a, a + n). */
  ghost predicate Free(m: Regions, a: nat, n: nat) {
    Clear(m, a, a + n)
  }

  /** A place find_free_allocation_base may return. */
  ghost predicate Candidate(m: Regions, lo: nat, a: nat, n: nat) {
    && lo <= a
    && a % PAGE == 0
    && a + n <= MAX_MMAP_END
    && Free(m, a, n)
  }

  ghost predicate HasCandidate(m: Regions, lo: nat, n: nat) {
    exists a :: Candidate(m, lo, a, n)
  }

  /** First fit: the least candidate, or 0 when there is none. */
  ghost predicate FirstFit(m: Regions, lo: nat, n: nat, r: nat) {
    if r == 0 then !HasCandidate(m, lo, n)
    else Candidate(m, lo, r, n) && forall a :: Candidate(m, lo, a, n) ==> r <= a
  }

  /** Where the search starts, before alignment. */
  function SearchFrom(mmapBase: u64, start: u64): u64 {
    Max(MIN_MMAP_ADDRESS, if start != 0 then start else mmapBase)
  }

  // ----- When the search goes wrong -----

  /** A region on both sides of a range that wraps to [start, 2^64) and [0, end). */
  ghost predicate Straddles(m: Regions, b: nat, start: nat, end: nat) {
    b in m && b < end && start < End(m, b)
  }

  /** The very first end the search computes wraps round to an address it takes for a fit, and so
      does the end after the one region it may still skip. */
  ghost predicate StartWraps(m: Regions, c: nat, n: nat) {
    && U64 <= c + n <= U64 + MAX_MMAP_END
    && forall b :: Straddles(m, b, c, c + n - U64) ==> End(m, b) + n <= U64 + MAX_MMAP_END
  }

  /** Nothing fits, and the search skips a region so near the top that the end computed behind it
      wraps; no region before it stops the search. */
  ghost predicate SkipWraps(m: Regions, c: nat, n: nat) {
    && c + n <= MAX_MMAP_END
    && !HasCandidate(m, c, n)
    && exists b :: TopRegion(m, b, n)
  }

  ghost predicate TopRegion(m: Regions, b: nat, n: nat) {
    b in m && U64 <= End(m, b) + n && forall k :: k in m && k < b ==> End(m, k) + n <= MAX_MMAP_END
  }

  /** The search from `c` reports a base whose range wraps. */
  ghost predicate Lost(m: Regions, c: nat, n: nat) {
    StartWraps(m, c, n) || SkipWraps(m, c, n)
  }

  /** What a search from the aligned address `c` returns. */
  ghost predicate Outcome(m: Regions, c: nat, n: nat, r: nat) {
    if Lost(m, c, n) then r != 0 && U64 <= r + n
    else if c == 0 && Candidate(m, 0, 0, n) then r == 0
    else FirstFit(m, c, n, r)
  }

  /** A start in the last page is rounded up to 0, and the search takes any hole above. */
  ghost predicate Restarts(m: Regions, lo: nat, n: nat) {
    U64 < lo + PAGE && !Free(m, 0, n) && HasCandidate(m, 0, n)
  }

  ghost predicate SearchFails(m: Regions, lo: u64, n: nat) {
    Lost(m, AlignUp(lo, PAGE), n) || Restarts(m, lo, n)
  }

  /** Mapping the base a lost search reports would break the table. */
  lemma LostBreaksTable(m: Regions, c: nat, n: nat, r: nat, p: Perm)
    requires Lost(m, c, n) && Outcome(m, c, n, r)
    ensures !WellFormed(m[r := Region(n, p)])
  {
    var t := m[r := Region(n, p)];
    assert r in t && !RegionOk(r, t[r]);
  }

  lemma LastPage(lo: u64)
    requires U64 < lo + PAGE
    ensures AlignUp(lo, PAGE) == 0
  {
  }

  /** The outcome is first fit from the requested start exactly when the search does not fail. */
  lemma OutcomeIff(m: Regions, lo: u64, n: nat, r: nat)
    requires 0 < lo && Outcome(m, AlignUp(lo, PAGE), n, r)
    ensures FirstFit(m, lo, n, r) <==> !SearchFails(m, lo, n)
  {
    hide AlignUp, Lost, Free;
    var c := AlignUp(lo, PAGE);
    if U64 < lo + PAGE {
      LastPage(lo);
      assert !HasCandidate(m, lo, n);
      assert Candidate(m, 0, r, n) ==> HasCandidate(m, 0, n);
      assert Free(m, 0, n) && n <= MAX_MMAP_END ==> Candidate(m, 0, 0, n);
    } else {
      AlignUpLeast(lo, PAGE);
      SameCandidates(m, lo, c, n);
    }
  }

  lemma SameCandidates(m: Regions, lo: nat, c: nat, n: nat)
    requires lo <= c && forall a: int :: lo <= a && a % PAGE == 0 ==> c <= a
    ensures forall a :: Candidate(m, lo, a, n) <==> Candidate(m, c, a, n)
    ensures HasCandidate(m, lo, n) <==> HasCandidate(m, c, n)
  {
    assert forall a :: Candidate(m, lo, a, n) <==> Candidate(m, c, a, n);
  }

  // ----- The search loop -----

  ghost predicate Clear(m: Regions, cur: nat, end: nat) {
    forall b :: b in m ==> !Overlaps(b, m[b], cur, end)
  }

  /** Before any wrap: no candidate has been passed, and `cur` is the start or the end of a region
      before which every end was small enough to go on. */
  ghost predicate Reached(m: Regions, c: nat, n: nat, cur: nat) {
    && c <= cur < U64
    && cur % PAGE == 0
    && (forall a :: Candidate(m, c, a, n) ==> cur <= a)
    && (cur == c || (c + n <= MAX_MMAP_END && exists k :: Skipped(m, n, k, cur)))
  }

  ghost predicate Skipped(m: Regions, n: nat, k: nat, cur: nat) {
    && k in m && End(m, k) == cur && k < MAX_MMAP_END
    && forall j :: j in m && j < k ==> End(m, j) + n <= MAX_MMAP_END
  }

  /** The first conflict in key order. */
  ghost predicate FirstHit(m: Regions, cur: nat, end: nat, b: nat) {
    && b in m && Overlaps(b, m[b], cur, end)
    && forall k :: k in m && k < b ==> End(m, k) <= cur
  }

  /** Moving past a conflicting region loses no candidate. */
  lemma SearchSkip(m: Regions, c: nat, n: nat, cur: nat, b: nat)
    requires WellFormed(m) && Reached(m, c, n, cur) && cur + n <= MAX_MMAP_END && FirstHit(m, cur, cur + n, b)
    ensures cur < End(m, b) < U64 && Reached(m, c, n, End(m, b))
  {
    hide Candidate, WellFormed, Skipped;
    RegionEnd(m, b);
    HitSkipped(m, n, cur, b);
    forall a: nat | Candidate(m, c, a, n)
      ensures End(m, b) <= a
    {
      CandidateBehind(m, c, n, cur, b, a);
    }
  }

  lemma RegionEnd(m: Regions, b: nat)
    requires WellFormed(m) && b in m
    ensures b < End(m, b) < U64 && End(m, b) % PAGE == 0
  {
    assert RegionOk(b, m[b]);
  }

  lemma HitSkipped(m: Regions, n: nat, cur: nat, b: nat)
    requires cur + n <= MAX_MMAP_END && FirstHit(m, cur, cur + n, b)
    ensures Skipped(m, n, b, End(m, b))
  {
  }

  lemma CandidateBehind(m: Regions, c: nat, n: nat, cur: nat, b: nat, a: nat)
    requires Candidate(m, c, a, n) && cur <= a && b in m && b < cur + n
    ensures End(m, b) <= a
  {
    assert !Overlaps(b, m[b], a, a + n);
  }

  /** An end below 2^64 decides rightly. */
  lemma SearchEnds(m: Regions, c: nat, n: nat, cur: nat)
    requires WellFormed(m) && Reached(m, c, n, cur) && cur + n < U64
    ensures cur + n <= MAX_MMAP_END && Clear(m, cur, cur + n) ==> Outcome(m, c, n, cur)
    ensures cur + n > MAX_MMAP_END ==> Outcome(m, c, n, 0)
  {
    if cur + n <= MAX_MMAP_END && Clear(m, cur, cur + n) {
      assert Candidate(m, c, cur, n);
    }
    if cur + n > MAX_MMAP_END {
      NoneLeft(m, c, n, cur);
      if c + n <= MAX_MMAP_END {
        var k :| Skipped(m, n, k, cur);
        assert RegionOk(k, m[k]);
        forall b | b in m
          ensures !TopRegion(m, b, n)
        {
          assert RegionOk(b, m[b]);
        }
      }
    }
  }

  lemma NoneLeft(m: Regions, c: nat, n: nat, cur: nat)
    requires Reached(m, c, n, cur) && cur + n > MAX_MMAP_END
    ensures !HasCandidate(m, c, n)
  {
  }

  /** An end that wraps behind a skipped region: nothing is left to conflict, and the base behind
      the region is reported. */
  lemma SkipLost(m: Regions, c: nat, n: u64, cur: u64)
    requires WellFormed(m) && Reached(m, c, n, cur) && cur != c && U64 <= cur + n
    ensures cur + n - U64 <= MAX_MMAP_END && Lost(m, c, n) && Outcome(m, c, n, cur)
    ensures Clear(m, cur, cur + n - U64)
  {
    NoneLeft(m, c, n, cur);
    var k :| Skipped(m, n, k, cur);
    assert TopRegion(m, k, n);
    forall b | b in m
      ensures !Overlaps(b, m[b], cur, cur + n - U64)
    {
      assert RegionOk(b, m[b]);
    }
  }

  /** An end that wraps at the very start. */
  lemma StartLost(m: Regions, c: u64, n: u64)
    requires WellFormed(m) && U64 <= c + n
    ensures var w := c + n - U64;
            && w < c && !HasCandidate(m, c, n) && !SkipWraps(m, c, n)
            && (w > MAX_MMAP_END ==> Outcome(m, c, n, 0))
            && (w <= MAX_MMAP_END && Clear(m, c, w) ==> Outcome(m, c, n, c))
  {
    assert forall a :: !Candidate(m, c, a, n);
  }

  /** One region may still be skipped; behind it nothing conflicts any more. */
  lemma StartSkips(m: Regions, c: u64, n: u64, b: nat)
    requires WellFormed(m) && U64 <= c + n && b in m && Overlaps(b, m[b], c, c + n - U64)
    ensures var t := End(m, b);
            && c < t < U64 && c + n <= t + n
            && (t + n - U64 > MAX_MMAP_END ==> Outcome(m, c, n, 0))
            && (t + n - U64 <= MAX_MMAP_END ==> Outcome(m, c, n, t))
            && Clear(m, t, t + n - U64)
  {
    StartLost(m, c, n);
    assert RegionOk(b, m[b]);
    var w := c + n - U64;
    assert Straddles(m, b, c, w);
    forall k | Straddles(m, k, c, w)
      ensures k == b
    {
      assert RegionOk(k, m[k]);
    }
    forall k | k in m
      ensures !Overlaps(k, m[k], End(m, b), End(m, b) + n - U64)
    {
      assert RegionOk(k, m[k]);
    }
  }

  /** After a wrapped start the search has skipped the one region it can. */
  ghost predicate Behind(m: Regions, c: nat, n: nat, cur: nat)
    requires U64 <= c + n
  {
    exists b :: Straddles(m, b, c, c + n - U64) && End(m, b) == cur
  }

  lemma SumOrWrap(cur: u64, n: u64)
    ensures Add64(cur, n) == if cur + n < U64 then cur + n else cur + n - U64
  {
  }

  ghost predicate InLoop(m: Regions, c: nat, n: nat, cur: nat) {
    && c <= cur < U64 && cur % PAGE == 0
    && (c + n < U64 ==> Reached(m, c, n, cur))
    && (U64 <= c + n && cur != c ==> Behind(m, c, n, cur))
  }

  lemma SearchBegins(m: Regions, c: u64, n: u64)
    requires c % PAGE == 0
    ensures InLoop(m, c, n, c)
  {
  }

  /** No conflict ends the search. */
  lemma SearchFound(m: Regions, c: u64, n: u64, cur: u64)
    requires WellFormed(m) && InLoop(m, c, n, cur) && Add64(cur, n) <= MAX_MMAP_END && Clear(m, cur, Add64(cur, n))
    ensures Outcome(m, c, n, cur)
  {
    hide Outcome, WellFormed, Reached, Add64;
    SumOrWrap(cur, n);
    if c + n < U64 {
      if cur + n < U64 {
        SearchEnds(m, c, n, cur);
      } else {
        SkipLost(m, c, n, cur);
      }
    } else if cur == c {
      StartLost(m, c, n);
    } else {
      var b :| Straddles(m, b, c, c + n - U64) && End(m, b) == cur;
      StartSkips(m, c, n, b);
    }
  }

  /** A conflict moves it on. */
  lemma SearchMoves(m: Regions, c: u64, n: u64, cur: u64, b: nat)
    requires WellFormed(m) && InLoop(m, c, n, cur) && Add64(cur, n) <= MAX_MMAP_END && FirstHit(m, cur, Add64(cur, n), b)
    ensures cur < End(m, b) < U64 && AlignUp(End(m, b), PAGE) == End(m, b)
    ensures InLoop(m, c, n, End(m, b))
  {
    hide Reached, Add64, AlignUp;
    SumOrWrap(cur, n);
    assert RegionOk(b, m[b]);
    AlignedStays(End(m, b));
    if c + n < U64 {
      if cur + n < U64 {
        SearchSkip(m, c, n, cur, b);
      } else {
        SkipLost(m, c, n, cur);
      }
    } else {
      if cur != c {
        var k :| Straddles(m, k, c, c + n - U64) && End(m, k) == cur;
        StartSkips(m, c, n, k);
      } else {
        StartSkips(m, c, n, b);
        assert Straddles(m, b, c, c + n - U64);
      }
    }
  }

  /** So does an end past the limit. */
  lemma SearchStops(m: Regions, c: u64, n: u64, cur: u64)
    requires WellFormed(m) && InLoop(m, c, n, cur) && Add64(cur, n) > MAX_MMAP_END
    ensures Outcome(m, c, n, 0)
  {
    hide Outcome, WellFormed, Reached, Add64;
    SumOrWrap(cur, n);
    if c + n < U64 {
      if cur + n < U64 {
        SearchEnds(m, c, n, cur);
      } else {
        SkipLost(m, c, n, cur);
      }
    } else if cur == c {
      StartLost(m, c, n);
    } else {
      var b :| Straddles(m, b, c, c + n - U64) && End(m, b) == cur;
      StartSkips(m, c, n, b);
    }
  }

  // ----- Inputs that go wrong -----

  /** A process with only its 8 MB stack asks for all the rest of the address space and a page:
      the default base is reported, though nothing that large fits. */
  lemma HugeRequest()
    ensures var m: Regions := map[0x7fff_ff7d_e000 := Region(0x80_0000, 3)];
            var n := U64 - DEFAULT_MMAP_BASE + PAGE;
            WellFormed(m) && SearchFails(m, SearchFrom(DEFAULT_MMAP_BASE, 0), n) && Lost(m, DEFAULT_MMAP_BASE, n)
  {
    var m: Regions := map[0x7fff_ff7d_e000 := Region(0x80_0000, 3)];
    var n := U64 - DEFAULT_MMAP_BASE + PAGE;
    assert AlignUp(DEFAULT_MMAP_BASE, PAGE) == DEFAULT_MMAP_BASE;
    assert StartWraps(m, DEFAULT_MMAP_BASE, n);
  }

  /** A hint in the last page is answered with a hole near address 0. */
  lemma LastPageHint()
    ensures var m: Regions := map[0x40_0000 := Region(PAGE, 5)];
            WellFormed(m) && SearchFails(m, U64 - 1, 0x50_0000) && !Lost(m, 0, 0x50_0000)
  {
    var m: Regions := map[0x40_0000 := Region(PAGE, 5)];
    assert Overlaps(0x40_0000, m[0x40_0000], 0, 0x50_0000);
    assert Candidate(m, 0, 0x40_1000, 0x50_0000);
    LastPage(U64 - 1);
  }

  /** One region from the first page up to the last: the search for a page lands behind it. */
  lemma TopSkip()
    ensures var m: Regions := map[MIN_MMAP_ADDRESS := Region(U64 - MIN_MMAP_ADDRESS - PAGE, 3)];
            WellFormed(m) && SkipWraps(m, MIN_MMAP_ADDRESS, PAGE) && SearchFails(m, SearchFrom(MIN_MMAP_ADDRESS, 0), PAGE)
  {
    var b: nat := MIN_MMAP_ADDRESS;
    var m: Regions := map[b := Region(U64 - MIN_MMAP_ADDRESS - PAGE, 3)];
    assert AlignUp(MIN_MMAP_ADDRESS, PAGE) == MIN_MMAP_ADDRESS;
    assert TopRegion(m, b, PAGE);
    forall a: nat
      ensures !Candidate(m, b, a, PAGE)
    {
      assert a + PAGE <= MAX_MMAP_END && b <= a ==> Overlaps(b, m[b], a, a + PAGE);
    }
  }
}
