/** The table release_memory leaves, for every page range, including one whose end has wrapped to
    or below its start. */
module MemoryRelease {
  import opened Machine
  import opened Ordered
  import opened MemoryView
  import opened MemoryTable

  /** A region that meets the range is replaced by its part before the start and its part after
      the end, whichever of the two comes first. */
  ghost function ReleaseOne(cur: Regions, b: nat, r: Region, s: nat, e: nat): Regions {
    if Overlaps(b, r, s, e) then Replace(cur, b, Before(b, r, s) + After(b, r, e)) else cur
  }

  ghost function Released(m: Regions, keys: seq<nat>, s: nat, e: nat): Regions
    requires forall k :: k in keys ==> k in m
  {
    if keys == [] then m
    else
      var b := keys[|keys| - 1];
      ReleaseOne(Released(m, keys[..|keys| - 1], s, e), b, m[b], s, e)
  }

  ghost function ReleasedTable(m: Regions, s: nat, e: nat): Regions {
    Released(m, Keys(m), s, e)
  }

  /** One region lies across both ends of a range that has wrapped. */
  ghost predicate Across(m: Regions, b: nat, s: nat, e: nat) {
    b in m && b < e && s < End(m, b)
  }

  // ----- A proper range -----

  lemma {:induction false} ReleasedIsEdit(m: Regions, keys: seq<nat>, s: nat, e: nat)
    requires s < e && forall k :: k in keys ==> k in m
    ensures Released(m, keys, s, e) == EditAll(m, keys, s, e, Unmap)
    decreases |keys|
  {
    if keys != [] {
      var n := |keys| - 1;
      ReleasedIsEdit(m, keys[..n], s, e);
      var b := keys[n];
      if Overlaps(b, m[b], s, e) {
        assert Pieces(b, m[b], s, e, Unmap) == Before(b, m[b], s) + After(b, m[b], e);
      }
    }
  }

  lemma ReleaseProper(m: Regions, s: nat, e: nat)
    requires WellFormed(m) && Aligned(s, e)
    ensures WellFormed(ReleasedTable(m, s, e)) && ViewOf(ReleasedTable(m, s, e)) == ViewEdit(ViewOf(m), s, e, Unmap)
  {
    hide WellFormed, ViewOf, ViewEdit, Keys;
    ReleasedIsEdit(m, Keys(m), s, e);
    EditRefines(m, Keys(m), s, e, Unmap);
  }

  // ----- A range that ends at or before its start -----

  /** At most one region lies across, and it alone is replaced. */
  lemma {:induction false} ReleasedAcross(m: Regions, keys: seq<nat>, s: nat, e: nat, b: nat)
    requires WellFormed(m) && e <= s && Across(m, b, s, e) && Sorted(keys) && forall k :: k in keys ==> k in m
    ensures b in m && Released(m, keys, s, e) == if b in keys then ReleaseOne(m, b, m[b], s, e) else m
    decreases |keys|
  {
    hide Before, After, Replace, WellFormed, Overlaps, Across;
    AcrossIn(m, b, s, e);
    if keys != [] {
      var n := |keys| - 1;
      var k := keys[n];
      assert k !in keys[..n];
      ReleasedAcross(m, keys[..n], s, e, b);
      assert keys == keys[..n] + [k];
      AcrossUnique(m, b, k, s, e);
    }
  }

  lemma AcrossIn(m: Regions, b: nat, s: nat, e: nat)
    requires Across(m, b, s, e)
    ensures b in m
  {
  }

  lemma AcrossUnique(m: Regions, b: nat, k: nat, s: nat, e: nat)
    requires WellFormed(m) && e <= s && Across(m, b, s, e) && k in m
    ensures b in m && (Overlaps(k, m[k], s, e) <==> k == b)
  {
    assert RegionOk(b, m[b]) && RegionOk(k, m[k]);
  }

  lemma {:induction false} ReleasedNone(m: Regions, keys: seq<nat>, s: nat, e: nat)
    requires (forall k :: k in keys ==> k in m) && forall k :: k in m ==> !Overlaps(k, m[k], s, e)
    ensures Released(m, keys, s, e) == m
    decreases |keys|
  {
    if keys != [] {
      ReleasedNone(m, keys[..|keys| - 1], s, e);
    }
  }

  /** An end that has wrapped to exactly the start cuts the region there and frees nothing. */
  lemma ReleaseCut(m: Regions, s: nat, b: nat)
    requires WellFormed(m) && s % PAGE == 0 && Across(m, b, s, s)
    ensures WellFormed(ReleasedTable(m, s, s)) && ViewOf(ReleasedTable(m, s, s)) == ViewEdit(ViewOf(m), s, s, Unmap)
  {
    hide Keys;
    var v, r := ViewOf(m), m[b];
    var w := ViewEdit(v, s, s, Unmap);
    var pieces := Before(b, r, s) + After(b, r, s);
    ReleasedAcross(m, Keys(m), s, s, b);
    assert RegionOk(b, r);
    CutInside(b, r, s);
    OwnedTag(m, v, b);
    CutRepresents(b, r, s, w);
    CutOutside(m, v, b, s);
    ReplaceRepresents(m, v, b, pieces, w);
    RepresentsDisjoint(Replace(m, b, pieces), w);
  }

  lemma CutInside(b: nat, r: Region, s: nat)
    requires RegionOk(b, r) && s % PAGE == 0 && b < s < b + r.length
    ensures Inside(Before(b, r, s) + After(b, r, s), b, b + r.length)
  {
  }

  lemma CutRepresents(b: nat, r: Region, s: nat, w: View)
    requires b < s < b + r.length
    requires forall a :: b <= a < b + r.length ==> a in w && w[a] == EditTag(Tag(b, r.perm), a, s, s, Unmap)
    ensures Represents(Before(b, r, s) + After(b, r, s), Window(w, b, b + r.length))
  {
    var pieces, win := Before(b, r, s) + After(b, r, s), Window(w, b, b + r.length);
    forall a | a in win
      ensures Owns(pieces, win[a].base, a) && pieces[win[a].base].perm == win[a].perm
    {
    }
    forall k: nat, a: nat | Owns(pieces, k, a)
      ensures a in win && win[a].base == k
    {
      assert b <= a < b + r.length;
    }
  }

  lemma CutOutside(m: Regions, v: View, b: nat, s: nat)
    requires WellFormed(m) && Represents(m, v) && Across(m, b, s, s)
    ensures SameOutside(v, ViewEdit(v, s, s, Unmap), b, End(m, b))
  {
    forall a | a in v && !(b <= a < End(m, b))
      ensures EditTag(v[a], a, s, s, Unmap) == v[a]
    {
      assert Owns(m, v[a].base, a);
      AcrossUnique(m, b, v[a].base, s, s);
    }
  }

  /** With nothing across it, a range that ends at or before its start changes nothing. */
  lemma ReleaseNothing(m: Regions, s: nat, e: nat)
    requires WellFormed(m) && e <= s && forall b :: !Across(m, b, s, e)
    ensures ReleasedTable(m, s, e) == m && (s == e ==> ViewEdit(ViewOf(m), s, e, Unmap) == ViewOf(m))
  {
    hide Keys;
    var v := ViewOf(m);
    assert forall k :: k in m && Overlaps(k, m[k], s, e) ==> Across(m, k, s, e);
    ReleasedNone(m, Keys(m), s, e);
    forall a | a in v
      ensures s == e ==> EditTag(v[a], a, s, e, Unmap) == v[a]
    {
      assert Owns(m, v[a].base, a);
      assert !Across(m, v[a].base, s, e);
    }
  }

  // ----- The exact condition -----

  /** An end that has wrapped below the start, with a region across: the two parts kept overlap. */
  lemma ReleaseOverlaps(m: Regions, s: nat, e: nat, b: nat)
    requires WellFormed(m) && e < s && Across(m, b, s, e)
    ensures !Disjoint(ReleasedTable(m, s, e))
  {
    hide Keys;
    ReleasedAcross(m, Keys(m), s, e, b);
    var t := ReleasedTable(m, s, e);
    assert b in t && e in t && t[b] == Region(s - b, m[b].perm);
    assert End(t, b) == s;
  }

  /** release_memory does not guard its end: the table it settles on is well formed if and only if
      the end has not wrapped below the start inside one region. */
  lemma ReleaseKeepsWellFormedIff(m: Regions, s: nat, e: nat)
    requires WellFormed(m) && s % PAGE == 0 && e % PAGE == 0
    ensures WellFormed(ReleasedTable(m, s, e)) <==> !(e < s && exists b :: Across(m, b, s, e))
  {
    hide ReleasedTable, ViewOf, ViewEdit;
    if s < e {
      ReleaseProper(m, s, e);
    } else if b :| Across(m, b, s, e) {
      if e < s {
        ReleaseOverlaps(m, s, e, b);
      } else {
        ReleaseCut(m, s, b);
      }
    } else {
      ReleaseNothing(m, s, e);
    }
  }

  // ----- The loop on such a range -----

  /** What is queued after `i` regions; only a region across the range is ever queued. */
  ghost predicate Queued(m: Regions, keys: seq<nat>, i: nat, s: nat, e: nat, removes: seq<nat>, adds: seq<(nat, Region)>)
    requires i <= |keys| && forall k :: k in keys ==> k in m
  {
    && Settle(m, removes, adds) == Released(m, keys[..i], s, e)
    && ((forall j :: 0 <= j < i ==> !Overlaps(keys[j], m[keys[j]], s, e)) ==> removes == [] && adds == [])
  }

  lemma QueuedStart(m: Regions, keys: seq<nat>, s: nat, e: nat)
    requires forall k :: k in keys ==> k in m
    ensures Queued(m, keys, 0, s, e, [], [])
  {
    assert Elements([]) == {} && m - {} == m;
  }

  lemma QueuedNext(m: Regions, keys: seq<nat>, i: nat, s: nat, e: nat, removes: seq<nat>, adds: seq<(nat, Region)>,
      pieces: seq<(nat, Region)>)
    requires WellFormed(m) && e <= s && Sorted(keys) && i < |keys| && forall k :: k in keys ==> k in m
    requires Queued(m, keys, i, s, e, removes, adds)
    requires Insert(map[], pieces) == Before(keys[i], m[keys[i]], s) + After(keys[i], m[keys[i]], e)
    ensures if Overlaps(keys[i], m[keys[i]], s, e) then Queued(m, keys, i + 1, s, e, removes + [keys[i]], adds + pieces)
            else Queued(m, keys, i + 1, s, e, removes, adds)
  {
    hide Settle, Insert, Before, After;
    var b := keys[i];
    assert keys[..i + 1][..i] == keys[..i] && keys[..i + 1][i] == b;
    if Overlaps(b, m[b], s, e) {
      forall j | 0 <= j < i
        ensures !Overlaps(keys[j], m[keys[j]], s, e)
      {
        AcrossUnique(m, b, keys[j], s, e);
      }
      SettleSplit(m, removes, adds, b, pieces);
      InsertOverlay(Settle(m, removes, adds) - {b}, pieces);
      assert adds + pieces == pieces;
    }
  }

  lemma UnmapNone(c: Cells, a: nat)
    ensures UnmapCells(c, a, 0) == c
  {
  }
}
