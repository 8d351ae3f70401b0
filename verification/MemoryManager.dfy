/** linux_memory_manager: the region table, the backend it drives, and the calls on them. */
module MemoryManager {
  import opened Machine
  import opened Ordered
  import opened MemoryView
  import opened MemoryTable
  import opened MemoryEdits
  import opened MemorySearch
  import opened MemoryRelease

  datatype Stats = Stats(regionCount: nat, mappedBytes: nat, executableBytes: nat)

  datatype RegionInfo = RegionInfo(start: nat, length: nat, perm: Perm)

  /** The page range a call on [address, address + size) works on. */
  function First(address: u64): u64 { AlignDown(address, PAGE) }

  function Limit(address: u64, size: u64): u64 { AlignUp(Add64(address, size), PAGE) }

  /** The request neither ends above the last page nor wraps. */
  predicate NoWrap(address: u64, size: u64) { address + size <= U64 - PAGE }

  lemma PageRange(address: u64, size: u64)
    requires 0 < size && NoWrap(address, size)
    ensures Aligned(First(address), Limit(address, size))
    ensures First(address) <= address && address + size <= Limit(address, size) < U64
  {
    hide AlignUp, AlignDown;
    Add64Exact(address, size);
    AlignUpLeast(address + size, PAGE);
    AlignedMultiple(address, PAGE);
    FirstBelow(address);
  }

  /** `x` lies on a 4 KiB page that the request touches. */
  predicate OnPages(x: nat, address: nat, size: nat) {
    address / 4096 <= x / 4096 <= (address + size - 1) / 4096
  }

  /** The page range is exactly the touched pages. */
  lemma RangeIsPages(address: u64, size: u64, x: nat)
    requires 0 < size && NoWrap(address, size)
    ensures First(address) <= x < Limit(address, size) <==> OnPages(x, address, size)
  {
    hide AlignUp, AlignDown, OnPages;
    Add64Exact(address, size);
    AlignUpLeast(address + size, PAGE);
    AlignedMultiple(address, PAGE);
    DownIs(address);
    var s, e := First(address), Limit(address, size);
    PagesBetween(s, e, address, size, x);
  }

  lemma DownIs(address: u64)
    ensures First(address) <= address < First(address) + PAGE
  {
  }

  lemma PagesBetween(s: nat, e: nat, address: nat, size: nat, x: nat)
    requires s % PAGE == 0 && e % PAGE == 0 && 0 < size
    requires s <= address < s + PAGE && address + size <= e < address + size + PAGE
    ensures s <= x < e <==> OnPages(x, address, size)
  {
  }

  /** Exactly the bytes of the request are new, zeroed and with the given permissions. */
  ghost predicate MapsOnly(before: Cells, after: Cells, address: nat, size: nat, perm: Perm) {
    forall x: nat ::
      if address <= x < address + size then x !in before && x in after && after[x] == Cell(perm, 0)
      else (x in after <==> x in before) && (x in before ==> after[x] == before[x])
  }

  /** Exactly the touched pages have the new permissions; nothing else changes. */
  ghost predicate ProtectsOnly(before: Cells, after: Cells, address: nat, size: nat, perm: Perm) {
    forall x: nat ::
      && (x in after <==> x in before)
      && (x in before ==> after[x] == if OnPages(x, address, size) then Cell(perm, before[x].value) else before[x])
  }

  /** Exactly the touched pages are gone; nothing else changes. */
  ghost predicate UnmapsOnly(before: Cells, after: Cells, address: nat, size: nat) {
    forall x: nat ::
      && (x in after <==> x in before && !OnPages(x, address, size))
      && (x in after ==> after[x] == before[x])
  }

  /** Exactly the bytes from `address` on, `size` of them, are gone. */
  ghost predicate DropsOnly(before: Cells, after: Cells, address: nat, size: nat) {
    forall x: nat ::
      && (x in after <==> x in before && !(address <= x < address + size))
      && (x in after ==> after[x] == before[x])
  }

  lemma DroppedCells(c: Cells, a: nat, n: nat)
    requires Range(a, n) <= c.Keys
    ensures DropsOnly(c, UnmapCells(c, a, n), a, n)
  {
    forall x: nat
      ensures a <= x < a + n <==> x in Range(a, n)
    {
    }
  }

  lemma MappedCells(c: Cells, a: nat, n: nat, p: Perm)
    requires Range(a, n) !! c.Keys
    ensures MapsOnly(c, MapCells(c, a, n, p), a, n, p)
  {
    forall x: nat
      ensures a <= x < a + n <==> x in Range(a, n)
    {
    }
  }

  lemma ProtectedCells(v: View, c: Cells, d: Cells, address: u64, size: u64, perm: Perm)
    requires 0 < size && NoWrap(address, size) && Mirrors(c, v) && SameBytes(d, c)
    requires Mirrors(d, ViewEdit(v, First(address), Limit(address, size), Protect(perm)))
    ensures ProtectsOnly(c, d, address, size, perm)
  {
    hide First, Limit, NoWrap, OnPages;
    forall x: nat
      ensures x in d <==> x in c
      ensures x in c ==> d[x] == if OnPages(x, address, size) then Cell(perm, c[x].value) else c[x]
    {
      RangeIsPages(address, size, x);
    }
  }

  lemma UnmappedCells(v: View, c: Cells, d: Cells, address: u64, size: u64)
    requires 0 < size && NoWrap(address, size) && Mirrors(c, v) && SameBytes(d, c)
    requires Mirrors(d, ViewEdit(v, First(address), Limit(address, size), Unmap))
    ensures UnmapsOnly(c, d, address, size)
  {
    hide First, Limit, NoWrap, OnPages;
    forall x: nat
      ensures x in d <==> x in c && !OnPages(x, address, size)
      ensures x in d ==> d[x] == c[x]
    {
      RangeIsPages(address, size, x);
    }
  }

  lemma AcceptedPages(v: View, address: u64, size: u64)
    ensures ProtectAccepts(v, address, size)
       <==> 0 < size && address + size <= U64 - 4096 && forall x: nat :: OnPages(x, address, size) ==> x in v
  {
    hide First, Limit, OnPages;
    if 0 < size && NoWrap(address, size) {
      forall x: nat
        ensures First(address) <= x < Limit(address, size) <==> OnPages(x, address, size)
      {
        RangeIsPages(address, size, x);
      }
    }
  }

  lemma FirstBelow(address: u64)
    ensures First(address) <= address
  {
  }

  ghost predicate AllMapped(v: View, s: nat, e: nat) {
    forall a :: s <= a < e ==> a in v
  }

  /** When protect_memory accepts: a non-empty request that does not wrap, on mapped pages only. */
  ghost predicate ProtectAccepts(v: View, address: u64, size: u64) {
    && 0 < size
    && NoWrap(address, size)
    && AllMapped(v, First(address), Limit(address, size))
  }

  // ----- Allocation -----

  lemma AllocateMirrors(c: Cells, v: View, a: nat, n: nat, p: Perm)
    requires Mirrors(c, v) && Range(a, n) !! v.Keys
    ensures Mirrors(MapCells(c, a, n, p), ViewAllocate(v, a, n, p))
  {
  }

  /** The table's overlap test and the search's are the same test when nothing wraps. */
  lemma IntersectsIsOverlaps(m: Regions, a: u64, n: u64)
    requires WellFormed(m) && a + n < U64
    ensures forall b :: b in m ==> (Intersects(a, n, b, m[b].length) <==> Overlaps(b, m[b], a, a + n))
  {
    assert forall b :: b in m ==> RegionOk(b, m[b]);
  }

  lemma HoldsTo(m: Regions, b: nat, a: nat)
    requires WellFormed(m) && Owns(m, b, a)
    ensures AllMapped(ViewOf(m), a, End(m, b))
  {
    forall x: nat | a <= x < End(m, b)
      ensures x in ViewOf(m)
    {
      assert Owns(m, b, x);
    }
  }

  // ----- munmap and wrapping requests -----

  /** What release_memory does to the view for a non-zero size; its range may have wrapped. */
  ghost function ViewRelease(v: View, address: u64, size: u64): View {
    var s, e := First(address), Limit(address, size);
    if s <= e then ViewEdit(v, s, e, Unmap) else v
  }

  /** No region lies across a range whose end has wrapped below its start: there the length handed
      to the backend would be negative and the table would lose its order. */
  ghost predicate ReleaseDefined(m: Regions, address: u64, size: u64) {
    var s, e := First(address), Limit(address, size);
    0 < size && e < s ==> forall b :: !Across(m, b, s, e)
  }

  /** The first page boundary at or above the end of the request, computed without wrapping. */
  function TrueEnd(address: u64, size: u64): nat {
    var t := address + size + PAGE - 1;
    t - t % PAGE
  }

  /** munmap leaves a table in order with all pages of the request freed exactly when the end does
      not wrap, or when nothing is mapped past the part that the wrapped range still reaches. */
  lemma ReleaseFreesRequestIff(m: Regions, address: u64, size: u64)
    requires WellFormed(m) && 0 < size
    ensures var t := ReleasedTable(m, First(address), Limit(address, size));
            (WellFormed(t) && ViewOf(t) == ViewEdit(ViewOf(m), First(address), TrueEnd(address, size), Unmap))
            <==> (NoWrap(address, size) || forall a :: a in ViewOf(m) ==> a < Max(First(address), Limit(address, size)))
  {
    hide ReleasedTable, First, Limit, TrueEnd, ViewOf, ViewEdit, NoWrap;
    var v := ViewOf(m);
    var s, e, t := First(address), Limit(address, size), TrueEnd(address, size);
    RangeEnds(address, size);
    ViewBelow(m);
    if s < e {
      ReleaseProper(m, s, e);
    } else if b :| Across(m, b, s, e) {
      OwnedTag(m, v, b);
      assert s in v;
      CutKeepsStart(m, s, e, t, b);
    } else {
      ReleaseNothing(m, s, e);
    }
    if !NoWrap(address, size) {
      WrappedRelease(v, s, e, t);
    }
  }

  lemma ViewBelow(m: Regions)
    requires WellFormed(m)
    ensures forall a :: a in ViewOf(m) ==> a < U64
  {
    var v := ViewOf(m);
    assert forall a :: a in v ==> Owns(m, v[a].base, a) && RegionOk(v[a].base, m[v[a].base]);
  }

  lemma CutKeepsStart(m: Regions, s: nat, e: nat, t: nat, b: nat)
    requires WellFormed(m) && e <= s < t && s % PAGE == 0 && Across(m, b, s, e)
    ensures var r := ReleasedTable(m, s, e);
            !(WellFormed(r) && ViewOf(r) == ViewEdit(ViewOf(m), s, t, Unmap))
  {
    hide ReleasedTable, ViewOf;
    OwnedTag(m, ViewOf(m), b);
    if e < s {
      ReleaseOverlaps(m, s, e, b);
    } else {
      ReleaseCut(m, s, b);
      assert s in ViewEdit(ViewOf(m), s, s, Unmap) && s !in ViewEdit(ViewOf(m), s, t, Unmap);
    }
  }

  /** A munmap from 0x5000 up to and past the top: the region at 0x8000 is asked for and stays. */
  lemma LeftMapped()
    ensures var m: Regions := map[0x8000 := Region(PAGE, 3)];
            var t := ReleasedTable(m, First(0x5000), Limit(0x5000, U64 - 0x4000));
            WellFormed(m) && 0x8000 < TrueEnd(0x5000, U64 - 0x4000) && t == m
  {
    hide ReleasedTable, ViewOf, ViewEdit, First, Limit, TrueEnd;
    var m: Regions := map[0x8000 := Region(PAGE, 3)];
    LeftRange();
    ReleaseNothing(m, 0x5000, 0x1000);
  }

  lemma LeftRange()
    ensures First(0x5000) == 0x5000 && Limit(0x5000, U64 - 0x4000) == 0x1000 && 0x8000 < TrueEnd(0x5000, U64 - 0x4000)
  {
    hide TrueEnd, AlignUp;
    assert Add64(0x5000, U64 - 0x4000) == 0x1000;
    AlignedStays(0x1000);
    RangeEnds(0x5000, U64 - 0x4000);
  }

  /** A munmap of all but two pages of the address space, from inside one region: the parts kept
      before the start and after the wrapped end overlap. */
  lemma WrappedMunmap()
    ensures var m: Regions := map[0x1000 := Region(0x8000, 3)];
            var t := ReleasedTable(m, First(0x5000), Limit(0x5000, U64 - 0x2000));
            WellFormed(m) && First(0x5000) == 0x5000 && Limit(0x5000, U64 - 0x2000) == 0x3000 && !WellFormed(t)
  {
    hide ReleasedTable;
    var m: Regions := map[0x1000 := Region(0x8000, 3)];
    assert Add64(0x5000, U64 - 0x2000) == 0x3000;
    AlignedStays(0x3000);
    assert Across(m, 0x1000, 0x5000, 0x3000);
    ReleaseKeepsWellFormedIff(m, 0x5000, 0x3000);
  }

  lemma RangeEnds(address: u64, size: u64)
    requires 0 < size
    ensures First(address) % PAGE == 0 && Limit(address, size) % PAGE == 0 && First(address) < TrueEnd(address, size)
    ensures NoWrap(address, size) ==> First(address) < Limit(address, size)
    ensures NoWrap(address, size) ==> TrueEnd(address, size) == Limit(address, size)
    ensures !NoWrap(address, size) ==> U64 <= TrueEnd(address, size)
  {
    hide Add64;
    AlignedMultiple(address, PAGE);
    AlignedMultiple(Add64(address, size), PAGE);
    if NoWrap(address, size) {
      Add64Exact(address, size);
      Add64Exact(address + size, PAGE - 1);
    } else {
      TopPage(address + size + PAGE - 1);
    }
  }

  lemma TopPage(t: nat)
    requires U64 <= t
    ensures U64 <= t - t % PAGE
  {
    var k := U64 / PAGE;
    assert U64 == k * PAGE;
    var q := t / PAGE;
    assert t == q * PAGE + t % PAGE;
    assert k <= q;
  }

  lemma WrappedRelease(v: View, s: nat, e: nat, t: nat)
    requires e < U64 <= t && s < U64 && forall a :: a in v ==> a < U64
    ensures (if s < e then ViewEdit(v, s, e, Unmap) else v) == ViewEdit(v, s, t, Unmap)
            <==> forall a :: a in v ==> a < Max(s, e)
  {
    var all, got := ViewEdit(v, s, t, Unmap), if s < e then ViewEdit(v, s, e, Unmap) else v;
    assert forall a :: a in all <==> a in v && a < s;
    if a :| a in v && a >= Max(s, e) {
      assert a in got && a !in all;
    } else {
      assert all == got;
    }
  }

  lemma NoneAcross(m: Regions, s: nat, e: nat)
    ensures (forall b :: !Across(m, b, s, e)) ==> forall k :: k in m ==> !Overlaps(k, m[k], s, e)
  {
    assert forall k :: k in m && Overlaps(k, m[k], s, e) ==> Across(m, k, s, e);
  }

  lemma UnmapPieces(b: nat, r: Region, s: nat, e: nat)
    requires s < e && Overlaps(b, r, s, e)
    ensures Pieces(b, r, s, e, Unmap) == Before(b, r, s) + After(b, r, e)
  {
  }

  /** The parts of a region before the start and after the end of a range. */
  method KeepEnds(b: nat, r: Region, s: nat, e: nat) returns (pieces: seq<(nat, Region)>)
    ensures Insert(map[], pieces) == Before(b, r, s) + After(b, r, e)
  {
    hide Insert;
    pieces := [];
    InsertNone();
    if b < s {
      InsertOne(pieces, b, Region(s - b, r.perm));
      pieces := pieces + [(b, Region(s - b, r.perm))];
    }
    if b + r.length > e {
      InsertOne(pieces, e, Region(b + r.length - e, r.perm));
      pieces := pieces + [(e, Region(b + r.length - e, r.perm))];
    }
  }

  lemma QueuedEnd(m: Regions, s: nat, e: nat, removes: seq<nat>, adds: seq<(nat, Region)>, c: Cells)
    requires WellFormed(m) && e <= s && s % PAGE == 0 && Mirrors(c, ViewOf(m))
    requires (e < s ==> forall b :: !Across(m, b, s, e)) && Queued(m, Keys(m), |Keys(m)|, s, e, removes, adds)
    ensures var t := Settle(m, removes, adds);
            && t == ReleasedTable(m, s, e) && WellFormed(t) && Mirrors(c, ViewOf(t))
            && ViewOf(t) == if s <= e then ViewEdit(ViewOf(m), s, e, Unmap) else ViewOf(m)
  {
    hide Keys, ViewOf, WellFormed;
    assert Keys(m)[..|Keys(m)|] == Keys(m);
    if b :| Across(m, b, s, e) {
      ReleaseCut(m, s, b);
      CutMirrors(c, ViewOf(m), s);
    } else {
      ReleaseNothing(m, s, e);
    }
  }

  lemma CutMirrors(c: Cells, v: View, s: nat)
    requires Mirrors(c, v)
    ensures Mirrors(c, ViewEdit(v, s, s, Unmap))
  {
  }

  lemma DropMirrors(m: Regions, b: nat, c: Cells)
    requires WellFormed(m) && Mirrors(c, ViewOf(m)) && b in m
    ensures Range(b, m[b].length) <= c.Keys
    ensures Mirrors(UnmapCells(c, b, m[b].length), ViewDrop(ViewOf(m), b))
  {
    OwnedTag(m, ViewOf(m), b);
  }

  /** The accumulation loop of compute_memory_stats. */
  method SumLengths(m: Regions, keys: seq<nat>) returns (bytes: nat, execBytes: nat)
    requires forall k :: k in keys ==> k in m
    ensures bytes == Total(m, keys, false) && execBytes == Total(m, keys, true)
  {
    hide Total, Executable;
    bytes, execBytes := 0, 0;
    TotalNone(m);
    for i := 0 to |keys|
      invariant bytes == Total(m, keys[..i], false) && execBytes == Total(m, keys[..i], true)
    {
      TotalNext(m, keys, i, false);
      TotalNext(m, keys, i, true);
      bytes := bytes + m[keys[i]].length;
      if Executable(m[keys[i]].perm) {
        execBytes := execBytes + m[keys[i]].length;
      }
    }
    assert keys[..|keys|] == keys;
  }

  class LinuxMemoryManager {
    var regions: Regions
    var mmapBase: u64
    var cells: Cells

    /** The table is in order and the backend agrees with it byte for byte. */
    ghost predicate Valid()
      reads this
    {
      WellFormed(regions) && Mirrors(cells, ViewOf(regions))
    }

    ghost function Contents(): View
      reads this
      requires Valid()
    {
      ViewOf(regions)
    }

    constructor ()
      ensures Valid() && Contents() == map[] && cells == map[] && mmapBase == DEFAULT_MMAP_BASE
    {
      regions := map[];
      cells := map[];
      mmapBase := DEFAULT_MMAP_BASE;
      assert Represents(map[], map[]);
      ViewUnique(map[], map[]);
    }

    method OverlapsMappedRegion(address: u64, size: u64) returns (hit: bool)
      requires Valid()
      ensures hit <==> exists b :: b in regions && Intersects(address, size, b, regions[b].length)
      ensures 0 < size && address + size < U64 ==> (hit <==> !(Range(address, size) !! Contents().Keys))
    {
      var keys := Keys(regions);
      hit := false;
      for i := 0 to |keys|
        invariant forall k :: 0 <= k < i ==> !Intersects(address, size, keys[k], regions[keys[k]].length)
      {
        var b := keys[i];
        if Intersects(address, size, b, regions[b].length) {
          hit := true;
          break;
        }
      }
      if 0 < size && address + size < U64 {
        IntersectsBytes(regions, address, size);
        IntersectsIsOverlaps(regions, address, size);
      }
    }

    method AllocateMemory(address: u64, size: u64, perm: Perm) returns (ok: bool)
      requires Valid()
      requires RegionOk(address, Region(size, perm))
      modifies this
      ensures Valid() && mmapBase == old(mmapBase)
      ensures ok <==> Range(address, size) !! old(Contents().Keys)
      ensures ok ==> Contents() == ViewAllocate(old(Contents()), address, size, perm)
      ensures ok ==> cells == MapCells(old(cells), address, size, perm)
      ensures ok ==> MapsOnly(old(cells), cells, address, size, perm)
      ensures !ok ==> regions == old(regions) && cells == old(cells)
    {
      var hit := OverlapsMappedRegion(address, size);
      if hit {
        return false;
      }
      AllocateRefines(regions, address, size, perm);
      AllocateMirrors(cells, ViewOf(regions), address, size, perm);
      MappedCells(cells, address, size, perm);
      cells := MapCells(cells, address, size, perm);
      regions := regions[address := Region(size, perm)];
      return true;
    }

    /** The inner scan of the search: the first region in key order that meets the request.
        The break at the first region starting past the end is sound because keys ascend. */
    method FirstConflict(cur: u64, size: u64) returns (hit: Option<nat>)
      requires Valid()
      ensures hit.None? <==> Clear(regions, cur, Add64(cur, size))
      ensures hit.Some? ==> FirstHit(regions, cur, Add64(cur, size), hit.value)
    {
      hide Add64, Keys, WellFormed, Mirrors, ViewOf;
      var keys := Keys(regions);
      var i := 0;
      while i < |keys|
        invariant 0 <= i <= |keys|
        invariant forall k :: 0 <= k < i ==> End(regions, keys[k]) <= cur
      {
        var b := keys[i];
        if b + regions[b].length <= cur {
          i := i + 1;
          continue;
        }
        if b >= Add64(cur, size) {
          assert forall k :: i <= k < |keys| ==> b <= keys[k];
          break;
        }
        return Some(b);
      }
      assert forall k :: 0 <= k < |keys| ==> !Overlaps(keys[k], regions[keys[k]], cur, Add64(cur, size));
      return None;
    }

    /** First fit for every table, size and start, except for the wraps spelled out in SearchFails. */
    method FindFreeAllocationBase(size: u64, start: u64) returns (base: u64)
      requires Valid()
      ensures Outcome(regions, AlignUp(SearchFrom(mmapBase, start), PAGE), size, base)
      ensures 0x1_0000 <= start ==> (FirstFit(regions, start, size, base) <==> !SearchFails(regions, start, size))
      ensures 0 < start < 0x1_0000 ==> (FirstFit(regions, 0x1_0000, size, base) <==> !SearchFails(regions, 0x1_0000, size))
      ensures start == 0 ==> (FirstFit(regions, Max(0x1_0000, mmapBase), size, base)
                              <==> !SearchFails(regions, Max(0x1_0000, mmapBase), size))
    {
      hide Outcome, FirstFit, SearchFails, Lost, WellFormed, Mirrors, ViewOf, AlignUp;
      var lo := SearchFrom(mmapBase, start);
      AlignedMultiple(lo, PAGE);
      base := Search(AlignUp(lo, PAGE), size);
      OutcomeIff(regions, lo, size, base);
    }

    /** The loop, from an aligned start. */
    method Search(c: u64, size: u64) returns (base: u64)
      requires Valid() && c % PAGE == 0
      ensures Outcome(regions, c, size, base)
    {
      hide Outcome, WellFormed, ViewOf, Mirrors, InLoop, Add64, AlignUp;
      var cur := c;
      SearchBegins(regions, c, size);
      while Add64(cur, size) <= MAX_MMAP_END
        invariant InLoop(regions, c, size, cur)
        decreases U64 - cur
      {
        var conflict := FirstConflict(cur, size);
        if conflict.None? {
          SearchFound(regions, c, size, cur);
          return cur;
        }
        var b := conflict.value;
        SearchMoves(regions, c, size, cur, b);
        cur := AlignUp(b + regions[b].length, PAGE);
      }
      SearchStops(regions, c, size, cur);
      return 0;
    }

    method AllocateAnywhere(size: u64, perm: Perm, start: u64) returns (base: u64)
      requires Valid()
      requires 0 < size && size % PAGE == 0
      requires !Lost(regions, AlignUp(SearchFrom(mmapBase, start), PAGE), size)
      modifies this
      ensures Valid() && mmapBase == old(mmapBase)
      ensures Outcome(old(regions), AlignUp(SearchFrom(mmapBase, start), PAGE), size, base)
      ensures base != 0 ==> Contents() == ViewAllocate(old(Contents()), base, size, perm)
      ensures base != 0 ==> Range(base, size) !! old(cells.Keys)
                            && cells == MapCells(old(cells), base, size, perm)
      ensures base != 0 ==> MapsOnly(old(cells), cells, base, size, perm)
      ensures base == 0 ==> regions == old(regions) && cells == old(cells)
    {
      base := FindFreeAllocationBase(size, start);
      if base == 0 {
        return 0;
      }
      IntersectsBytes(regions, base, size);
      var ok := AllocateMemory(base, size, perm);
      assert ok; // the allocation that follows a successful search is never refused
    }

    /** The coverage walk: hop from region end to region end. */
    method Covered(s: u64, e: u64) returns (ok: bool)
      requires Valid() && s <= e
      ensures ok <==> AllMapped(Contents(), s, e)
    {
      hide WellFormed, Mirrors, ViewOf, Floor;
      var coveredUntil := s;
      while coveredUntil < e
        invariant s <= coveredUntil <= e
        invariant AllMapped(Contents(), s, coveredUntil)
      {
        FloorOwns(regions, coveredUntil);
        var it := Floor(regions, coveredUntil);
        if it.None? || it.value + regions[it.value].length <= coveredUntil {
          return false;
        }
        HoldsTo(regions, it.value, coveredUntil);
        coveredUntil := Min(it.value + regions[it.value].length, e);
      }
      return true;
    }

    method ProtectMemory(address: u64, size: u64, perm: Perm) returns (ok: bool)
      requires Valid()
      modifies this
      ensures Valid() && mmapBase == old(mmapBase)
      ensures ok <==> ProtectAccepts(old(Contents()), address, size)
      ensures ok ==> Contents() == ViewEdit(old(Contents()), First(address), Limit(address, size), Protect(perm))
      ensures ok ==> cells.Keys == old(cells.Keys) && SameBytes(cells, old(cells))
      ensures ok <==> 0 < size && address + size <= U64 - 4096 && forall x: nat :: OnPages(x, address, size) ==> x in old(cells)
      ensures ok ==> ProtectsOnly(old(cells), cells, address, size, perm)
      ensures !ok ==> regions == old(regions) && cells == old(cells)
    {
      hide OnPages, ProtectsOnly;
      AcceptedPages(Contents(), address, size);
      if size == 0 || address > U64 - 1 - size {
        return false;
      }
      if address + size > U64 - 1 - 0xFFF {
        return false;
      }
      PageRange(address, size);
      var s, e := First(address), Limit(address, size);
      ok := Covered(s, e);
      if ok {
        ProtectRegions(s, e, perm);
        ProtectedCells(old(Contents()), old(cells), cells, address, size, perm);
      }
    }

    /** Change the regions inside the range, queue the split ones, then erase and insert. */
    method ProtectRegions(s: u64, e: u64, perm: Perm)
      requires Valid() && Aligned(s, e)
      modifies this
      ensures Valid() && mmapBase == old(mmapBase)
      ensures Contents() == ViewEdit(old(Contents()), s, e, Protect(perm))
      ensures cells.Keys == old(cells.Keys) && SameBytes(cells, old(cells))
    {
      hide Progress, ViewEdit, WellFormed, Mirrors, ViewOf, Keys, SameBytes, Aligned;
      ghost var m := regions;
      var keys := Keys(regions);
      var toAdd: seq<(nat, Region)>, toRemove: seq<nat> := [], [];
      ProgressStart(m, keys, s, e, Protect(perm), cells);
      for i := 0 to |keys|
        invariant mmapBase == old(mmapBase)
        invariant Progress(m, keys, i, s, e, Protect(perm), regions, toRemove, toAdd, cells, old(cells))
      {
        toRemove, toAdd := ProtectRegion(keys, i, s, e, perm, toRemove, toAdd, m, old(cells));
      }
      ProgressEnd(m, keys, s, e, Protect(perm), regions, toRemove, toAdd, cells, old(cells));
      EraseAll(toRemove);
      InsertAll(toAdd);
    }

    /** One turn of the loop. */
    method ProtectRegion(keys: seq<nat>, i: nat, s: u64, e: u64, perm: Perm, removes: seq<nat>,
                         adds: seq<(nat, Region)>, ghost m: Regions, ghost c0: Cells)
      returns (toRemove: seq<nat>, toAdd: seq<(nat, Region)>)
      requires i < |keys| && Progress(m, keys, i, s, e, Protect(perm), regions, removes, adds, cells, c0)
      modifies this`regions, this`cells
      ensures Progress(m, keys, i + 1, s, e, Protect(perm), regions, toRemove, toAdd, cells, c0)
    {
      hide Progress;
      var b := keys[i];
      toRemove, toAdd := removes, adds;
      ProgressNext(m, keys, i, s, e, Protect(perm), regions, toRemove, toAdd, cells, c0);
      var region := regions[b];
      var regionEnd := b + region.length;
      if b >= e || regionEnd <= s {
        return;
      }
      if b >= s && regionEnd <= e {
        ProgressUpdate(m, keys, i, s, e, Protect(perm), regions, toRemove, toAdd, cells, c0);
        cells := ProtectCells(cells, b, region.length, perm);
        regions := regions[b := Region(region.length, perm)];
        return;
      }
      var overlapStart, overlapEnd := Max(b, s), Min(regionEnd, e);
      var pieces := Split(b, region, s, e, Protect(perm));
      ProgressSplit(m, keys, i, s, e, Protect(perm), regions, toRemove, toAdd, cells, c0, pieces);
      cells := ProtectCells(cells, overlapStart, overlapEnd - overlapStart, perm);
      toRemove := toRemove + [b];
      toAdd := toAdd + pieces;
    }

    method ReleaseMemory(address: u64, size: u64) returns (ok: bool)
      requires Valid()
      requires ReleaseDefined(regions, address, size)
      modifies this
      ensures Valid() && mmapBase == old(mmapBase)
      ensures cells.Keys <= old(cells.Keys) && SameBytes(cells, old(cells))
      ensures size == 0 ==> (ok <==> address in old(regions)) && Contents() == ViewDrop(old(Contents()), address)
      ensures size == 0 && ok ==> DropsOnly(old(cells), cells, address, old(regions)[address].length)
      ensures 0 < size ==> ok && Contents() == ViewRelease(old(Contents()), address, size)
      ensures 0 < size ==> regions == ReleasedTable(old(regions), First(address), Limit(address, size))
      ensures 0 < size && address + size <= U64 - 4096 ==> UnmapsOnly(old(cells), cells, address, size)
      ensures !ok ==> regions == old(regions) && cells == old(cells)
    {
      if size == 0 {
        ok := ReleaseWhole(address);
        return;
      }
      RangeEnds(address, size);
      ReleaseRegions(First(address), Limit(address, size));
      if NoWrap(address, size) {
        UnmappedCells(old(Contents()), old(cells), cells, address, size);
      }
      return true;
    }

    /** Release the region that starts at `address`. */
    method ReleaseWhole(address: u64) returns (ok: bool)
      requires Valid()
      modifies this
      ensures Valid() && mmapBase == old(mmapBase)
      ensures cells.Keys <= old(cells.Keys) && SameBytes(cells, old(cells))
      ensures (ok <==> address in old(regions)) && Contents() == ViewDrop(old(Contents()), address)
      ensures ok ==> DropsOnly(old(cells), cells, address, old(regions)[address].length)
      ensures !ok ==> regions == old(regions) && cells == old(cells)
    {
      DropRefines(regions, address);
      if address !in regions {
        assert regions - {address} == regions;
        return false;
      }
      DropMirrors(regions, address, cells);
      DroppedCells(cells, address, regions[address].length);
      cells := UnmapCells(cells, address, regions[address].length);
      regions := regions - {address};
      return true;
    }

    /** Queue every overlapped region for removal and what survives of it for insertion. */
    method ReleaseRegions(s: u64, e: u64)
      requires Valid() && s % PAGE == 0 && e % PAGE == 0
      requires e < s ==> forall b :: !Across(regions, b, s, e)
      modifies this
      ensures Valid() && mmapBase == old(mmapBase)
      ensures cells.Keys <= old(cells.Keys) && SameBytes(cells, old(cells))
      ensures regions == ReleasedTable(old(regions), s, e)
      ensures Contents() == if s <= e then ViewEdit(old(Contents()), s, e, Unmap) else old(Contents())
    {
      hide Progress, ViewEdit, Queued, WellFormed, Mirrors, ViewOf, Keys, Across, Released;
      ghost var m := regions;
      var keys := Keys(regions);
      var toAdd: seq<(nat, Region)>, toRemove: seq<nat> := [], [];
      if s < e {
        ProgressStart(m, keys, s, e, Unmap, cells);
      }
      QueuedStart(m, keys, s, e);
      NoneAcross(m, s, e);
      for i := 0 to |keys|
        invariant mmapBase == old(mmapBase) && regions == m
        invariant s < e ==> Progress(m, keys, i, s, e, Unmap, regions, toRemove, toAdd, cells, old(cells))
        invariant s >= e ==> cells == old(cells) && Queued(m, keys, i, s, e, toRemove, toAdd)
      {
        toRemove, toAdd := ReleaseRegion(keys, i, s, e, toRemove, toAdd, m, old(cells));
      }
      if s < e {
        ProgressEnd(m, keys, s, e, Unmap, regions, toRemove, toAdd, cells, old(cells));
        ReleasedIsEdit(m, keys, s, e);
      } else {
        QueuedEnd(m, s, e, toRemove, toAdd, cells);
      }
      EraseAll(toRemove);
      InsertAll(toAdd);
    }

    /** One turn of the loop. */
    method ReleaseRegion(keys: seq<nat>, i: nat, s: u64, e: u64, removes: seq<nat>, adds: seq<(nat, Region)>,
                         ghost m: Regions, ghost c0: Cells)
      returns (toRemove: seq<nat>, toAdd: seq<(nat, Region)>)
      requires i < |keys| && regions == m && WellFormed(m) && Sorted(keys) && forall k :: k in keys ==> k in m
      requires s < e ==> Progress(m, keys, i, s, e, Unmap, regions, removes, adds, cells, c0)
      requires s >= e ==> cells == c0 && Queued(m, keys, i, s, e, removes, adds)
      requires e < s ==> forall k :: k in m ==> !Overlaps(k, m[k], s, e)
      modifies this`cells
      ensures s < e ==> Progress(m, keys, i + 1, s, e, Unmap, regions, toRemove, toAdd, cells, c0)
      ensures s >= e ==> cells == c0 && Queued(m, keys, i + 1, s, e, toRemove, toAdd)
    {
      hide Progress, Queued, WellFormed, UnmapCells;
      var b := keys[i];
      toRemove, toAdd := removes, adds;
      var region := regions[b];
      var regionEnd := b + region.length;
      var pieces := KeepEnds(b, region, s, e);
      if s < e {
        ProgressNext(m, keys, i, s, e, Unmap, regions, toRemove, toAdd, cells, c0);
      } else {
        QueuedNext(m, keys, i, s, e, toRemove, toAdd, pieces);
      }
      if b >= e || regionEnd <= s {
        return;
      }
      if s < e {
        UnmapPieces(b, region, s, e);
        ProgressSplit(m, keys, i, s, e, Unmap, regions, toRemove, toAdd, cells, c0, pieces);
      } else {
        UnmapNone(cells, s);
      }
      toRemove := toRemove + [b];
      toAdd := toAdd + pieces;
      var unmapStart, unmapEnd := Max(b, s), Min(regionEnd, e);
      cells := UnmapCells(cells, unmapStart, unmapEnd - unmapStart);
    }

    method ComputeMemoryStats() returns (stats: Stats)
      requires Valid()
      ensures stats.regionCount == |regions|
      ensures stats.mappedBytes == |Contents()|
      ensures stats.executableBytes == |ExecutableBytes(Contents())|
      ensures stats.mappedBytes == |cells| && stats.executableBytes == |set x | x in cells && cells[x].perm / 4 % 2 == 1|
    {
      assert (set x | x in cells && cells[x].perm / 4 % 2 == 1) == ExecutableBytes(Contents());
      assert |cells.Keys| == |cells| && |Contents().Keys| == |Contents()|;
      var keys := Keys(regions);
      TotalIsMapped(regions, keys);
      var bytes, execBytes := SumLengths(regions, keys);
      stats := Stats(|regions|, bytes, execBytes);
    }

    method GetRegionInfo(address: u64) returns (info: Option<RegionInfo>)
      requires Valid()
      ensures info.Some? <==> address in Contents()
      ensures info.Some? ==>
                var RegionInfo(start, length, perm) := info.value;
                && (forall a :: start <= a < start + length <==> a in Contents() && Contents()[a].base == start)
                && Contents()[address] == Tag(start, perm)
    {
      FloorOwns(regions, address);
      var it := Floor(regions, address);
      if it.None? || address >= it.value + regions[it.value].length {
        return None;
      }
      OwnedTag(regions, ViewOf(regions), it.value);
      return Some(RegionInfo(it.value, regions[it.value].length, regions[it.value].perm));
    }

    method EraseAll(toRemove: seq<nat>)
      modifies this`regions
      ensures regions == old(regions) - Elements(toRemove)
    {
      for i := 0 to |toRemove|
        invariant regions == old(regions) - Elements(toRemove[..i])
      {
        assert toRemove[..i + 1] == toRemove[..i] + [toRemove[i]];
        ElementsAppend(toRemove[..i], [toRemove[i]]);
        assert Elements([toRemove[i]]) == {toRemove[i]};
        regions := regions - {toRemove[i]};
      }
      assert toRemove[..|toRemove|] == toRemove;
    }

    method InsertAll(toAdd: seq<(nat, Region)>)
      modifies this`regions
      ensures regions == Insert(old(regions), toAdd)
    {
      for i := 0 to |toAdd|
        invariant regions == Insert(old(regions), toAdd[..i])
      {
        assert toAdd[..i + 1][..i] == toAdd[..i];
        regions := regions[toAdd[i].0 := toAdd[i].1];
      }
      assert toAdd[..|toAdd|] == toAdd;
    }
  }
}
