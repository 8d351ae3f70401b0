/** The splitting loops of protect_memory and release_memory: while they iterate they may not
    change the keys of the table, so they queue removals and insertions. These lemmas say what
    the queues amount to after each region. */
module MemoryEdits {
  import opened Machine
  import opened Ordered
  import opened MemoryView
  import opened MemoryTable

  /** After `i` regions, carrying out what is queued would give the table with those regions
      edited; regions not reached yet are as they were. */
  ghost predicate Pending(m: Regions, keys: seq<nat>, i: nat, s: nat, e: nat, ed: Edit,
                          cur: Regions, removes: seq<nat>, adds: seq<(nat, Region)>)
    requires s < e && i <= |keys| && forall k :: k in keys ==> k in m
  {
    && Settle(cur, removes, adds) == EditAll(m, keys[..i], s, e, ed)
    && cur.Keys == m.Keys
    && (forall k :: k in keys[i..] ==> cur[k] == m[k])
    && (forall k :: k in removes ==> k in keys[..i])
    && (forall j :: 0 <= j < |adds| ==> 0 < i && adds[j].0 < End(m, keys[i - 1]))
  }

  lemma EditNothing(m: Regions, v: View, s: nat, e: nat, ed: Edit)
    requires s < e
    ensures EditAll(m, [], s, e, ed) == m && Settle(m, [], []) == m
    ensures EditDone(v, Elements([]), s, e, ed) == v
  {
    assert Elements([]) == {};
    assert m - {} == m;
  }

  /** The next region is untouched and no queued edit concerns it. */
  lemma PendingNext(m: Regions, keys: seq<nat>, i: nat, s: nat, e: nat, ed: Edit,
                    cur: Regions, removes: seq<nat>, adds: seq<(nat, Region)>)
    requires WellFormed(m) && s < e && i < |keys| && Sorted(keys) && forall k :: k in keys ==> k in m
    requires Pending(m, keys, i, s, e, ed, cur, removes, adds)
    ensures var b := keys[i];
            && b in m && b in cur && cur[b] == m[b] && RegionOk(b, m[b])
            && b !in Elements(keys[..i]) && b !in removes && Avoids(adds, b)
    ensures Elements(keys[..i + 1]) == Elements(keys[..i]) + {keys[i]}
    ensures forall j :: 0 <= j < |adds| ==> adds[j].0 < End(m, keys[i])
    ensures forall k :: k in keys[i + 1..] ==> k in keys[i..] && k != keys[i]
    ensures EditAll(m, keys[..i + 1], s, e, ed)
            == EditOne(EditAll(m, keys[..i], s, e, ed), keys[i], m[keys[i]], s, e, ed)
  {
    SortedNext(m, keys, i);
    assert keys[i] in keys && keys[i] in keys[i..];
  }

  lemma PendingSkip(m: Regions, v: View, keys: seq<nat>, i: nat, s: nat, e: nat, ed: Edit,
                    cur: Regions, removes: seq<nat>, adds: seq<(nat, Region)>)
    requires WellFormed(m) && Represents(m, v) && s < e && i < |keys| && Sorted(keys) && forall k :: k in keys ==> k in m
    requires Pending(m, keys, i, s, e, ed, cur, removes, adds) && !Overlaps(keys[i], m[keys[i]], s, e)
    ensures Pending(m, keys, i + 1, s, e, ed, cur, removes, adds)
    ensures EditDone(v, Elements(keys[..i + 1]), s, e, ed) == EditDone(v, Elements(keys[..i]), s, e, ed)
  {
    PendingNext(m, keys, i, s, e, ed, cur, removes, adds);
    EditStepViews(m, v, Elements(keys[..i]), keys[i], s, e, ed);
    assert keys[..i + 1] == keys[..i] + [keys[i]];
  }

  lemma WholePiece(b: nat, r: Region, s: nat, e: nat, ed: Edit)
    requires s < e && s <= b && b + r.length <= e && ed.Protect? && Overlaps(b, r, s, e)
    ensures Pieces(b, r, s, e, ed) == map[b := Region(r.length, ed.perm)]
  {
    PiecesShape(b, r, s, e, ed);
  }

  lemma ReplaceWhole(t: Regions, b: nat, r: Region)
    ensures Replace(t, b, map[b := r]) == t[b := r]
  {
  }

  /** A region wholly inside the range is changed in place. */
  lemma PendingUpdate(m: Regions, keys: seq<nat>, i: nat, s: nat, e: nat, ed: Edit,
                      cur: Regions, removes: seq<nat>, adds: seq<(nat, Region)>)
    requires WellFormed(m) && s < e && i < |keys| && Sorted(keys) && forall k :: k in keys ==> k in m
    requires Pending(m, keys, i, s, e, ed, cur, removes, adds)
    requires ed.Protect? && s <= keys[i] && End(m, keys[i]) <= e
    ensures keys[i] in cur
    ensures Pending(m, keys, i + 1, s, e, ed, cur[keys[i] := Region(cur[keys[i]].length, ed.perm)], removes, adds)
  {
    PendingNext(m, keys, i, s, e, ed, cur, removes, adds);
    var b := keys[i];
    var r := Region(m[b].length, ed.perm);
    SettleUpdate(cur, removes, adds, b, r);
    WholePiece(b, m[b], s, e, ed);
    ReplaceWhole(Settle(cur, removes, adds), b, r);
    assert keys[..i + 1] == keys[..i] + [keys[i]];
  }

  /** A region that crosses an end of the range is queued for removal, its pieces for insertion. */
  lemma PendingSplit(m: Regions, keys: seq<nat>, i: nat, s: nat, e: nat, ed: Edit,
                     cur: Regions, removes: seq<nat>, adds: seq<(nat, Region)>, pieces: seq<(nat, Region)>)
    requires WellFormed(m) && s < e && i < |keys| && Sorted(keys) && forall k :: k in keys ==> k in m
    requires Pending(m, keys, i, s, e, ed, cur, removes, adds) && Overlaps(keys[i], m[keys[i]], s, e)
    requires Insert(map[], pieces) == Pieces(keys[i], m[keys[i]], s, e, ed)
    ensures Pending(m, keys, i + 1, s, e, ed, cur, removes + [keys[i]], adds + pieces)
  {
    hide Pieces, Settle, Insert, EditAll;
    PendingNext(m, keys, i, s, e, ed, cur, removes, adds);
    SplitTable(m, keys, i, s, e, ed, cur, removes, adds, pieces);
    SplitKeys(keys[i], m[keys[i]], s, e, ed, pieces);
    assert keys[..i + 1] == keys[..i] + [keys[i]];
  }

  lemma SplitTable(m: Regions, keys: seq<nat>, i: nat, s: nat, e: nat, ed: Edit,
                   cur: Regions, removes: seq<nat>, adds: seq<(nat, Region)>, pieces: seq<(nat, Region)>)
    requires s < e && i < |keys| && forall k :: k in keys ==> k in m
    requires Settle(cur, removes, adds) == EditAll(m, keys[..i], s, e, ed) && Avoids(adds, keys[i])
    requires Overlaps(keys[i], m[keys[i]], s, e)
    requires Insert(map[], pieces) == Pieces(keys[i], m[keys[i]], s, e, ed)
    ensures Settle(cur, removes + [keys[i]], adds + pieces) == EditAll(m, keys[..i + 1], s, e, ed)
  {
    hide Pieces, Settle, Insert;
    var b := keys[i];
    SettleSplit(cur, removes, adds, b, pieces);
    InsertOverlay(Settle(cur, removes, adds) - {b}, pieces);
    assert keys[..i + 1][..i] == keys[..i];
  }

  lemma SplitKeys(b: nat, r: Region, s: nat, e: nat, ed: Edit, pieces: seq<(nat, Region)>)
    requires s < e && 0 < r.length && Overlaps(b, r, s, e)
    requires Insert(map[], pieces) == Pieces(b, r, s, e, ed)
    ensures forall j :: 0 <= j < |pieces| ==> pieces[j].0 < b + r.length
  {
    PiecesShape(b, r, s, e, ed);
    InsertKeys(map[], pieces);
  }

  // ----- The whole loop state -----

  /** Table, queues and backend after `i` regions of the edit; `c0` is the backend at the start. */
  ghost predicate Progress(m: Regions, keys: seq<nat>, i: nat, s: nat, e: nat, ed: Edit,
                           cur: Regions, removes: seq<nat>, adds: seq<(nat, Region)>, c: Cells, c0: Cells)
  {
    && WellFormed(m) && Aligned(s, e) && i <= |keys|
    && Sorted(keys) && Elements(keys) == m.Keys && (forall k :: k in keys ==> k in m)
    && Pending(m, keys, i, s, e, ed, cur, removes, adds)
    && Mirrors(c0, ViewOf(m))
    && Mirrors(c, EditDone(ViewOf(m), Elements(keys[..i]), s, e, ed))
    && c.Keys <= c0.Keys && SameBytes(c, c0)
  }

  lemma ProgressStart(m: Regions, keys: seq<nat>, s: nat, e: nat, ed: Edit, c: Cells)
    requires WellFormed(m) && Aligned(s, e) && Mirrors(c, ViewOf(m))
    requires Sorted(keys) && Elements(keys) == m.Keys
    ensures Progress(m, keys, 0, s, e, ed, m, [], [], c, c)
  {
    ElementsAre(keys, m);
    EditNothing(m, ViewOf(m), s, e, ed);
    assert keys[..0] == [];
  }

  lemma ProgressNext(m: Regions, keys: seq<nat>, i: nat, s: nat, e: nat, ed: Edit,
                     cur: Regions, removes: seq<nat>, adds: seq<(nat, Region)>, c: Cells, c0: Cells)
    requires i < |keys| && Progress(m, keys, i, s, e, ed, cur, removes, adds, c, c0)
    ensures keys[i] in m && keys[i] in cur && cur[keys[i]] == m[keys[i]] && RegionOk(keys[i], m[keys[i]])
    ensures !Overlaps(keys[i], m[keys[i]], s, e) ==> Progress(m, keys, i + 1, s, e, ed, cur, removes, adds, c, c0)
    ensures Overlaps(keys[i], m[keys[i]], s, e) ==>
              var lo, hi := Max(keys[i], s), Min(End(m, keys[i]), e);
              lo < hi && Range(lo, hi - lo) <= c.Keys
  {
    PendingNext(m, keys, i, s, e, ed, cur, removes, adds);
    if Overlaps(keys[i], m[keys[i]], s, e) {
      MirrorStep(m, ViewOf(m), Elements(keys[..i]), keys[i], s, e, ed, c);
    } else {
      PendingSkip(m, ViewOf(m), keys, i, s, e, ed, cur, removes, adds);
    }
  }

  lemma ProgressUpdate(m: Regions, keys: seq<nat>, i: nat, s: nat, e: nat, ed: Edit,
                       cur: Regions, removes: seq<nat>, adds: seq<(nat, Region)>, c: Cells, c0: Cells)
    requires i < |keys| && Progress(m, keys, i, s, e, ed, cur, removes, adds, c, c0)
    requires ed.Protect? && s <= keys[i] && End(m, keys[i]) <= e
    ensures keys[i] in cur && Range(keys[i], cur[keys[i]].length) <= c.Keys
    ensures Progress(m, keys, i + 1, s, e, ed, cur[keys[i] := Region(cur[keys[i]].length, ed.perm)], removes, adds,
                     ProtectCells(c, keys[i], cur[keys[i]].length, ed.perm), c0)
  {
    PendingNext(m, keys, i, s, e, ed, cur, removes, adds);
    assert RegionOk(keys[i], m[keys[i]]);
    MirrorStep(m, ViewOf(m), Elements(keys[..i]), keys[i], s, e, ed, c);
    PendingUpdate(m, keys, i, s, e, ed, cur, removes, adds);
  }

  lemma ProgressSplit(m: Regions, keys: seq<nat>, i: nat, s: nat, e: nat, ed: Edit, cur: Regions, removes: seq<nat>,
                      adds: seq<(nat, Region)>, c: Cells, c0: Cells, pieces: seq<(nat, Region)>)
    requires i < |keys| && Progress(m, keys, i, s, e, ed, cur, removes, adds, c, c0)
    requires Overlaps(keys[i], m[keys[i]], s, e)
    requires Insert(map[], pieces) == Pieces(keys[i], m[keys[i]], s, e, ed)
    ensures var lo, hi := Max(keys[i], s), Min(End(m, keys[i]), e);
            && lo < hi && Range(lo, hi - lo) <= c.Keys
            && Progress(m, keys, i + 1, s, e, ed, cur, removes + [keys[i]], adds + pieces,
                        EditCells(c, lo, hi - lo, ed), c0)
  {
    PendingNext(m, keys, i, s, e, ed, cur, removes, adds);
    MirrorStep(m, ViewOf(m), Elements(keys[..i]), keys[i], s, e, ed, c);
    PendingSplit(m, keys, i, s, e, ed, cur, removes, adds, pieces);
  }

  /** Once every region has been visited, erasing and inserting what is queued finishes the edit. */
  lemma ProgressEnd(m: Regions, keys: seq<nat>, s: nat, e: nat, ed: Edit,
                    cur: Regions, removes: seq<nat>, adds: seq<(nat, Region)>, c: Cells, c0: Cells)
    requires Progress(m, keys, |keys|, s, e, ed, cur, removes, adds, c, c0)
    ensures var t := Settle(cur, removes, adds);
            WellFormed(t) && ViewOf(t) == ViewEdit(ViewOf(m), s, e, ed) && Mirrors(c, ViewOf(t))
    ensures (forall k :: k in keys ==> k in m) && s < e && Settle(cur, removes, adds) == EditAll(m, keys, s, e, ed)
    ensures ed.Protect? ==> c.Keys == c0.Keys
    ensures c.Keys <= c0.Keys && SameBytes(c, c0)
  {
    assert keys[..|keys|] == keys;
    EditRefines(m, keys, s, e, ed);
    EditDoneAll(m, ViewOf(m), keys, s, e, ed);
  }

  lemma InsertNone()
    ensures Insert(map[], []) == map[]
  {
  }

  lemma InsertOne(adds: seq<(nat, Region)>, b: nat, r: Region)
    ensures Insert(map[], adds + [(b, r)]) == Insert(map[], adds)[b := r]
  {
    assert (adds + [(b, r)])[..|adds|] == adds;
  }

  /** The pieces pushed onto the insert queue for one region that is split. */
  method Split(b: nat, r: Region, s: nat, e: nat, ed: Edit) returns (pieces: seq<(nat, Region)>)
    requires s < e && 0 < r.length && Overlaps(b, r, s, e)
    ensures Insert(map[], pieces) == Pieces(b, r, s, e, ed)
  {
    hide Insert;
    var t := b + r.length;
    pieces := [];
    InsertNone();
    if b < s {
      InsertOne(pieces, b, Region(s - b, r.perm));
      pieces := pieces + [(b, Region(s - b, r.perm))];
    }
    assert Insert(map[], pieces) == Before(b, r, s);
    if ed.Protect? {
      var lo, hi := Max(b, s), Min(t, e);
      InsertOne(pieces, lo, Region(hi - lo, ed.perm));
      pieces := pieces + [(lo, Region(hi - lo, ed.perm))];
    }
    assert Insert(map[], pieces) == Before(b, r, s) + Middle(b, r, s, e, ed);
    if t > e {
      InsertOne(pieces, e, Region(t - e, r.perm));
      pieces := pieces + [(e, Region(t - e, r.perm))];
    }
  }
}
