/** The ordered map behind the region table: its iteration order, `upper_bound`, and the two
    passes (erase, then insert) that finish protect_memory and release_memory. Beside it, the
    backend: one cell per mapped byte, and the three calls the manager makes on it, each with
    the precondition that makes the call legal. */
module MemoryTable {
  import opened Machine
  import opened Ordered
  import opened MemoryView

  // ----- Ordered iteration -----

  /** The keys in the order a range-for over the map visits them. */
  function Keys(m: Regions): (keys: seq<nat>)
    ensures Sorted(keys) && Elements(keys) == m.Keys
    ensures forall k :: k in keys <==> k in m
  {
    var keys := Ascending(m.Keys);
    ElementsAre(keys, m);
    keys
  }

  lemma SortedNext(m: Regions, keys: seq<nat>, i: nat)
    requires WellFormed(m) && Sorted(keys) && i < |keys| && forall k :: k in keys ==> k in m
    ensures keys[i] !in keys[..i]
    ensures 0 < i ==> End(m, keys[i - 1]) <= keys[i]
    ensures Elements(keys[..i + 1]) == Elements(keys[..i]) + {keys[i]}
    ensures keys[..i + 1][..i] == keys[..i]
  {
    assert keys[..i + 1] == keys[..i] + [keys[i]];
    ElementsAppend(keys[..i], [keys[i]]);
    assert Elements([keys[i]]) == {keys[i]};
    if 0 < i {
      assert keys[i - 1] in keys && keys[i] in keys;
    }
  }

  /** `std::prev(upper_bound(a))`: the greatest key at or below `a`, if there is one. */
  function Floor(m: Regions, a: nat): (r: Option<nat>)
    ensures r.None? <==> forall k :: k in m ==> a < k
    ensures r.Some? ==> r.value in m && r.value <= a && forall k :: k in m && k <= a ==> k <= r.value
  {
    FloorIn(Keys(m), a)
  }

  function FloorIn(keys: seq<nat>, a: nat): (r: Option<nat>)
    requires Sorted(keys)
    ensures r.None? <==> forall k :: k in keys ==> a < k
    ensures r.Some? ==> r.value in keys && r.value <= a && forall k :: k in keys && k <= a ==> k <= r.value
  {
    if keys == [] then None
    else
      var n := |keys| - 1;
      assert forall k :: k in keys <==> k in keys[..n] || k == keys[n];
      if keys[n] <= a then assert keys[n] in keys; Some(keys[n]) else FloorIn(keys[..n], a)
  }

  /** A byte is mapped exactly when the region found by `Floor` reaches it; that region owns it. */
  lemma FloorOwns(m: Regions, a: nat)
    requires WellFormed(m)
    ensures var f := Floor(m, a);
            a in ViewOf(m) <==> f.Some? && a < End(m, f.value)
    ensures a in ViewOf(m) ==> Floor(m, a) == Some(ViewOf(m)[a].base)
  {
    var v, f := ViewOf(m), Floor(m, a);
    if a in v {
      assert Owns(m, v[a].base, a);
    }
    if f.Some? && a < End(m, f.value) {
      assert Owns(m, f.value, a);
    }
  }

  // ----- Erase, then insert -----

  function Insert(m: Regions, adds: seq<(nat, Region)>): Regions {
    if adds == [] then m
    else Insert(m, adds[..|adds| - 1])[adds[|adds| - 1].0 := adds[|adds| - 1].1]
  }

  ghost function Settle(m: Regions, removes: seq<nat>, adds: seq<(nat, Region)>): Regions {
    Insert(m - Elements(removes), adds)
  }

  lemma InsertAppend(m: Regions, adds: seq<(nat, Region)>, more: seq<(nat, Region)>)
    ensures Insert(m, adds + more) == Insert(Insert(m, adds), more)
  {
    if more == [] {
      assert adds + more == adds;
    } else {
      var n := |more| - 1;
      InsertAppend(m, adds, more[..n]);
      assert (adds + more)[..|adds + more| - 1] == adds + more[..n];
    }
  }

  lemma InsertOverlay(m: Regions, adds: seq<(nat, Region)>)
    ensures Insert(m, adds) == m + Insert(map[], adds)
  {
    if adds == [] {
      assert m + map[] == m;
    } else {
      InsertOverlay(m, adds[..|adds| - 1]);
    }
  }

  lemma InsertKeys(m: Regions, adds: seq<(nat, Region)>)
    ensures forall j :: 0 <= j < |adds| ==> adds[j].0 in Insert(m, adds)
  {
    if adds != [] {
      var n := |adds| - 1;
      InsertKeys(m, adds[..n]);
      forall j | 0 <= j < |adds|
        ensures adds[j].0 in Insert(m, adds)
      {
        if j < n {
          assert adds[..n][j] == adds[j];
        }
      }
    }
  }

  ghost predicate Avoids(adds: seq<(nat, Region)>, b: nat) {
    forall i :: 0 <= i < |adds| ==> adds[i].0 != b
  }

  lemma InsertErase(m: Regions, adds: seq<(nat, Region)>, b: nat)
    requires Avoids(adds, b)
    ensures Insert(m - {b}, adds) == Insert(m, adds) - {b}
  {
    if adds != [] {
      InsertErase(m, adds[..|adds| - 1], b);
    }
  }

  lemma InsertUpdate(m: Regions, adds: seq<(nat, Region)>, b: nat, r: Region)
    requires Avoids(adds, b)
    ensures Insert(m[b := r], adds) == Insert(m, adds)[b := r]
  {
    if adds != [] {
      InsertUpdate(m, adds[..|adds| - 1], b, r);
    }
  }

  /** Queueing region `b` for removal and its pieces for insertion replaces `b` by the pieces. */
  lemma SettleSplit(m: Regions, removes: seq<nat>, adds: seq<(nat, Region)>, b: nat, more: seq<(nat, Region)>)
    requires Avoids(adds, b)
    ensures Settle(m, removes + [b], adds + more) == Insert(Settle(m, removes, adds) - {b}, more)
  {
    ElementsAppend(removes, [b]);
    assert m - Elements(removes + [b]) == (m - Elements(removes)) - {b};
    InsertAppend(m - Elements(removes + [b]), adds, more);
    InsertErase(m - Elements(removes), adds, b);
  }

  lemma SettleUpdate(m: Regions, removes: seq<nat>, adds: seq<(nat, Region)>, b: nat, r: Region)
    requires Avoids(adds, b) && b !in removes && b in m
    ensures Settle(m[b := r], removes, adds) == Settle(m, removes, adds)[b := r]
  {
    assert b !in Elements(removes);
    assert m[b := r] - Elements(removes) == (m - Elements(removes))[b := r];
    InsertUpdate(m - Elements(removes), adds, b, r);
  }

  // ----- The backend -----

  datatype Cell = Cell(perm: Perm, value: byte)

  type Cells = map<nat, Cell>

  /** map_memory: fresh, zeroed bytes; nothing there may be mapped yet. */
  function MapCells(c: Cells, a: nat, n: nat, p: Perm): (r: Cells)
    requires Range(a, n) !! c.Keys
    ensures r.Keys == c.Keys + Range(a, n)
  {
    c + map x | x in Range(a, n) :: Cell(p, 0)
  }

  /** unmap_memory: the whole range must be mapped. */
  function UnmapCells(c: Cells, a: nat, n: nat): (r: Cells)
    requires Range(a, n) <= c.Keys
    ensures r.Keys == c.Keys - Range(a, n)
  {
    map x | x in c && x !in Range(a, n) :: c[x]
  }

  /** apply_memory_protection: the whole range must be mapped; contents stay. */
  function ProtectCells(c: Cells, a: nat, n: nat, p: Perm): (r: Cells)
    requires Range(a, n) <= c.Keys
    ensures r.Keys == c.Keys
  {
    map x | x in c :: if x in Range(a, n) then Cell(p, c[x].value) else c[x]
  }

  function EditCells(c: Cells, a: nat, n: nat, ed: Edit): Cells
    requires Range(a, n) <= c.Keys
  {
    if ed.Protect? then ProtectCells(c, a, n, ed.perm) else UnmapCells(c, a, n)
  }

  /** The backend maps exactly the bytes of the view, with the view's permissions. */
  ghost predicate Mirrors(c: Cells, v: View) {
    c.Keys == v.Keys && forall a :: a in c ==> c[a].perm == v[a].perm
  }

  /** Bytes mapped on both sides hold the same value. */
  ghost predicate SameBytes(c: Cells, d: Cells) {
    forall a :: a in c && a in d ==> c[a].value == d[a].value
  }

  /** One backend call per overlapped region keeps the mirror. */
  lemma MirrorStep(m: Regions, v: View, done: set<nat>, b: nat, s: nat, e: nat, ed: Edit, c: Cells)
    requires Represents(m, v) && s < e && b in m && RegionOk(b, m[b]) && b !in done && Overlaps(b, m[b], s, e)
    requires Mirrors(c, EditDone(v, done, s, e, ed))
    ensures var lo, hi := Max(b, s), Min(End(m, b), e);
            && lo < hi
            && Range(lo, hi - lo) <= c.Keys
            && Mirrors(EditCells(c, lo, hi - lo, ed), EditDone(v, done + {b}, s, e, ed))
            && SameBytes(EditCells(c, lo, hi - lo, ed), c)
            && EditCells(c, lo, hi - lo, ed).Keys <= c.Keys
  {
    OwnedTag(m, v, b);
    EditDoneMore(v, done, b, s, e, ed);
    var lo, hi := Max(b, s), Min(End(m, b), e);
    var w := EditDone(v, done + {b}, s, e, ed);
    var d := EditCells(c, lo, hi - lo, ed);
    forall a: nat
      ensures a in d <==> a in w
      ensures a in d ==> d[a].perm == w[a].perm
    {
      assert a in Range(lo, hi - lo) <==> a in v && v[a].base == b && s <= a < e;
    }
    assert Range(lo, hi - lo) <= c.Keys;
  }
}
