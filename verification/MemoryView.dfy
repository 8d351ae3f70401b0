/** The region table of the Linux memory manager and what it stands for.

    The table maps a base address to a length and permissions. Its meaning is a `View`: for
    every mapped byte, the base of the region that holds it and its permissions. The view
    forgets nothing: two well-formed tables with the same view are equal (`ViewDeterminesTable`). */
module MemoryView {
  import opened Machine
  import opened Ordered

  type Perm = byte

  datatype Region = Region(length: nat, perm: Perm)

  type Regions = map<nat, Region>

  datatype Tag = Tag(base: nat, perm: Perm)

  type View = map<nat, Tag>

  function End(m: Regions, b: nat): nat
    requires b in m
  {
    b + m[b].length
  }

  ghost predicate RegionOk(b: nat, r: Region) {
    && 0 < r.length
    && b % PAGE == 0
    && r.length % PAGE == 0
    && b + r.length < U64
  }

  ghost predicate AllOk(m: Regions) {
    forall b :: b in m ==> RegionOk(b, m[b])
  }

  ghost predicate Disjoint(m: Regions) {
    forall x, y :: x in m && y in m && x < y ==> End(m, x) <= y
  }

  ghost predicate WellFormed(m: Regions) {
    AllOk(m) && Disjoint(m)
  }

  ghost predicate Owns(m: Regions, b: nat, a: nat) {
    b in m && b <= a < End(m, b)
  }

  /** `v` is what the table `m` says about each byte; in particular no byte has two owners. */
  ghost predicate Represents(m: Regions, v: View) {
    && (forall a :: a in v ==> Owns(m, v[a].base, a) && m[v[a].base].perm == v[a].perm)
    && (forall b, a :: Owns(m, b, a) ==> a in v && v[a].base == b)
  }

  ghost predicate Mapped(m: Regions, a: nat) {
    exists b :: Owns(m, b, a)
  }

  ghost function Bytes(m: Regions): set<nat> {
    set a | 0 <= a < U64 && Mapped(m, a)
  }

  ghost function OwnerOf(m: Regions, a: nat): nat
    requires Mapped(m, a)
  {
    var b :| Owns(m, b, a);
    b
  }

  ghost function ViewOf(m: Regions): (v: View)
    requires WellFormed(m)
    ensures Represents(m, v)
  {
    var v := map a | a in Bytes(m) :: Tag(OwnerOf(m, a), m[OwnerOf(m, a)].perm);
    assert forall b, a :: Owns(m, b, a) ==> RegionOk(b, m[b]) && Mapped(m, a);
    v
  }

  lemma ViewUnique(m: Regions, v: View)
    requires WellFormed(m) && Represents(m, v)
    ensures v == ViewOf(m)
  {
    var w := ViewOf(m);
    forall a | a in v
      ensures a in w && w[a] == v[a]
    {
      assert Owns(m, v[a].base, a);
    }
    forall a | a in w
      ensures a in v
    {
      assert Owns(m, w[a].base, a);
    }
  }

  /** A table that represents some view and whose regions are all in order is well formed. */
  lemma RepresentsDisjoint(m: Regions, v: View)
    requires AllOk(m) && Represents(m, v)
    ensures WellFormed(m) && v == ViewOf(m)
  {
    forall x, y | x in m && y in m && x < y
      ensures End(m, x) <= y
    {
      if y < End(m, x) {
        assert Owns(m, x, y);
        assert Owns(m, y, y);
        assert false;
      }
    }
    ViewUnique(m, v);
  }

  lemma ViewDeterminesTable(m: Regions, n: Regions)
    requires WellFormed(m) && WellFormed(n) && ViewOf(m) == ViewOf(n)
    ensures m == n
  {
    forall b | b in m
      ensures b in n && n[b] == m[b]
    {
      SameRegion(m, n, b);
    }
    forall b | b in n
      ensures b in m
    {
      SameRegion(n, m, b);
    }
  }

  lemma SameRegion(m: Regions, n: Regions, b: nat)
    requires WellFormed(m) && WellFormed(n) && ViewOf(m) == ViewOf(n) && b in m
    ensures b in n && n[b] == m[b]
  {
    var v := ViewOf(m);
    assert Owns(m, b, b);
    assert v[b].base == b && Owns(n, b, b);
    if n[b].length < m[b].length {
      NoLonger(m, n, b);
    } else if m[b].length < n[b].length {
      NoLonger(n, m, b);
    }
  }

  lemma NoLonger(m: Regions, n: Regions, b: nat)
    requires WellFormed(m) && WellFormed(n) && ViewOf(m) == ViewOf(n) && b in m && b in n
    ensures m[b].length <= n[b].length
  {
    var a := End(n, b);
    assert Owns(m, b, a) ==> ViewOf(m)[a].base == b && Owns(n, b, a);
  }

  // ----- Replacing one region by pieces of it -----

  /** Region `b` of `cur` gives way to the regions of `pieces`, all inside it. */
  ghost function Replace(cur: Regions, b: nat, pieces: Regions): Regions {
    (cur - {b}) + pieces
  }

  ghost predicate Inside(pieces: Regions, lo: nat, hi: nat) {
    forall k :: k in pieces ==> lo <= k && End(pieces, k) <= hi && RegionOk(k, pieces[k])
  }

  /** The part of a view inside [lo, hi). */
  ghost function Window(v: View, lo: nat, hi: nat): View {
    map a | a in v && lo <= a < hi :: v[a]
  }

  ghost predicate SameOutside(v: View, w: View, lo: nat, hi: nat) {
    forall a :: !(lo <= a < hi) ==> (a in v <==> a in w) && (a in v ==> v[a] == w[a])
  }

  lemma ReplaceRepresents(cur: Regions, v: View, b: nat, pieces: Regions, w: View)
    requires AllOk(cur) && Represents(cur, v) && b in cur
    requires Inside(pieces, b, End(cur, b))
    requires Represents(pieces, Window(w, b, End(cur, b)))
    requires SameOutside(v, w, b, End(cur, b))
    ensures AllOk(Replace(cur, b, pieces)) && Represents(Replace(cur, b, pieces), w)
    ensures forall k :: k in cur && k != b ==> k in Replace(cur, b, pieces) && Replace(cur, b, pieces)[k] == cur[k]
  {
    var e := End(cur, b);
    var r := Replace(cur, b, pieces);
    var win := Window(w, b, e);
    forall k | k in cur && k != b
      ensures k !in pieces && r[k] == cur[k]
    {
      if k in pieces {
        assert Owns(pieces, k, k);
        assert Owns(cur, b, k) && Owns(cur, k, k);
        assert false;
      }
    }
    forall a | a in w
      ensures Owns(r, w[a].base, a) && r[w[a].base].perm == w[a].perm
    {
      if b <= a < e {
        assert a in win && Owns(pieces, win[a].base, a);
      } else {
        assert a in v && Owns(cur, v[a].base, a);
      }
    }
    forall k, a | Owns(r, k, a)
      ensures a in w && w[a].base == k
    {
      if k in pieces {
        assert Owns(pieces, k, a);
        assert a in win;
      } else {
        assert Owns(cur, k, a);
        if b <= a < e {
          assert Owns(cur, b, a);
          assert false;
        }
      }
    }
  }

  // ----- mprotect and munmap, on tables and on views -----

  /** What happens to the bytes of a range: new permissions, or they go. */
  datatype Edit = Protect(perm: Perm) | Unmap

  ghost predicate Aligned(s: nat, e: nat) {
    s % PAGE == 0 && e % PAGE == 0 && s < e
  }

  predicate Overlaps(b: nat, r: Region, s: nat, e: nat) {
    b < e && s < b + r.length
  }

  /** The part of an overlapped region before the range. */
  ghost function Before(b: nat, r: Region, s: nat): Regions {
    if b < s then map[b := Region(s - b, r.perm)] else map[]
  }

  /** The overlapped part, if the edit keeps it. */
  ghost function Middle(b: nat, r: Region, s: nat, e: nat, ed: Edit): Regions
    requires Overlaps(b, r, s, e) && s < e
  {
    if ed.Protect? then map[Max(b, s) := Region(Min(b + r.length, e) - Max(b, s), ed.perm)] else map[]
  }

  /** The part of an overlapped region after the range. */
  ghost function After(b: nat, r: Region, e: nat): Regions {
    if b + r.length > e then map[e := Region(b + r.length - e, r.perm)] else map[]
  }

  ghost function Pieces(b: nat, r: Region, s: nat, e: nat, ed: Edit): Regions
    requires Overlaps(b, r, s, e) && s < e
  {
    Before(b, r, s) + Middle(b, r, s, e, ed) + After(b, r, e)
  }

  ghost function EditOne(cur: Regions, b: nat, r: Region, s: nat, e: nat, ed: Edit): Regions
    requires s < e
  {
    if Overlaps(b, r, s, e) then Replace(cur, b, Pieces(b, r, s, e, ed)) else cur
  }

  /** The table after the regions listed in `keys` have been edited. */
  ghost function EditAll(m: Regions, keys: seq<nat>, s: nat, e: nat, ed: Edit): Regions
    requires s < e && forall k :: k in keys ==> k in m
  {
    if keys == [] then m
    else
      var b := keys[|keys| - 1];
      EditOne(EditAll(m, keys[..|keys| - 1], s, e, ed), b, m[b], s, e, ed)
  }

  /** What editing [s, e) does to one byte that stays mapped: inside, a region that starts no
      earlier than s; past it, a region cut at e. */
  ghost function EditTag(t: Tag, a: nat, s: nat, e: nat, ed: Edit): Tag {
    if s <= a < e then Tag(Max(t.base, s), if ed.Protect? then ed.perm else t.perm)
    else if e <= a && t.base < e then Tag(e, t.perm)
    else t
  }

  ghost predicate Goes(a: nat, s: nat, e: nat, ed: Edit) {
    ed.Unmap? && s <= a < e
  }

  ghost function EditDone(v: View, done: set<nat>, s: nat, e: nat, ed: Edit): View {
    map a | a in v && !(v[a].base in done && Goes(a, s, e, ed)) ::
      if v[a].base in done then EditTag(v[a], a, s, e, ed) else v[a]
  }

  ghost function ViewEdit(v: View, s: nat, e: nat, ed: Edit): View {
    map a | a in v && !Goes(a, s, e, ed) :: EditTag(v[a], a, s, e, ed)
  }

  lemma PiecesShape(b: nat, r: Region, s: nat, e: nat, ed: Edit)
    requires Overlaps(b, r, s, e) && s < e
    ensures var pieces, t, mid := Pieces(b, r, s, e, ed), b + r.length, Max(b, s);
            && (forall k :: k in pieces <==> (b < s && k == b) || (ed.Protect? && k == mid) || (t > e && k == e))
            && (b < s ==> pieces[b] == Region(s - b, r.perm))
            && (ed.Protect? ==> pieces[mid] == Region(Min(t, e) - mid, ed.perm))
            && (t > e ==> pieces[e] == Region(t - e, r.perm))
  {
  }

  lemma PiecesInside(b: nat, r: Region, s: nat, e: nat, ed: Edit)
    requires RegionOk(b, r) && Aligned(s, e) && Overlaps(b, r, s, e)
    ensures Inside(Pieces(b, r, s, e, ed), b, b + r.length)
  {
    var pieces, t, mid := Pieces(b, r, s, e, ed), b + r.length, Max(b, s);
    PiecesShape(b, r, s, e, ed);
    PageEnds(b, r, s, e);
    forall k | k in pieces
      ensures b <= k && End(pieces, k) <= t && RegionOk(k, pieces[k])
    {
      assert k == b || k == mid || k == e;
    }
  }

  lemma PageEnds(b: nat, r: Region, s: nat, e: nat)
    requires RegionOk(b, r) && Aligned(s, e)
    ensures (s - b) % PAGE == 0 && (b + r.length - e) % PAGE == 0
    ensures (Min(b + r.length, e) - Max(b, s)) % PAGE == 0
  {
  }

  lemma PiecesRepresent(b: nat, r: Region, s: nat, e: nat, ed: Edit, w: View)
    requires s < e && Overlaps(b, r, s, e)
    requires forall a :: b <= a < b + r.length ==> (a in w <==> !Goes(a, s, e, ed))
    requires forall a :: b <= a < b + r.length && a in w ==> w[a] == EditTag(Tag(b, r.perm), a, s, e, ed)
    ensures Represents(Pieces(b, r, s, e, ed), Window(w, b, b + r.length))
  {
    hide Pieces;
    var t := b + r.length;
    var pieces, win := Pieces(b, r, s, e, ed), Window(w, b, t);
    PiecesShape(b, r, s, e, ed);
    forall a | a in win
      ensures Owns(pieces, win[a].base, a) && pieces[win[a].base].perm == win[a].perm
    {
      assert win[a] == EditTag(Tag(b, r.perm), a, s, e, ed);
    }
    forall k: nat, a: nat | Owns(pieces, k, a)
      ensures a in win && win[a].base == k
    {
      assert b <= a < t;
      assert win[a] == EditTag(Tag(b, r.perm), a, s, e, ed);
    }
  }

  lemma EditStep(m: Regions, v: View, cur: Regions, done: set<nat>, b: nat, s: nat, e: nat, ed: Edit)
    requires WellFormed(m) && Represents(m, v) && Aligned(s, e)
    requires AllOk(cur) && Represents(cur, EditDone(v, done, s, e, ed))
    requires b in m && b !in done && b in cur && cur[b] == m[b]
    ensures var next := EditOne(cur, b, m[b], s, e, ed);
            && AllOk(next)
            && Represents(next, EditDone(v, done + {b}, s, e, ed))
            && forall k :: k in cur && k != b ==> k in next && next[k] == cur[k]
  {
    var before := EditDone(v, done, s, e, ed);
    var after := EditDone(v, done + {b}, s, e, ed);
    EditStepViews(m, v, done, b, s, e, ed);
    if Overlaps(b, m[b], s, e) {
      PiecesInside(b, m[b], s, e, ed);
      PiecesRepresent(b, m[b], s, e, ed, after);
      ReplaceRepresents(cur, before, b, Pieces(b, m[b], s, e, ed), after);
    }
  }

  lemma OwnedTag(m: Regions, v: View, b: nat)
    requires Represents(m, v) && b in m
    ensures forall a :: b <= a < End(m, b) <==> a in v && v[a].base == b
    ensures forall a :: b <= a < End(m, b) ==> v[a] == Tag(b, m[b].perm)
  {
    forall a: nat | b <= a < End(m, b)
      ensures a in v && v[a] == Tag(b, m[b].perm)
    {
      assert Owns(m, b, a);
    }
    assert forall a :: a in v && v[a].base == b ==> Owns(m, b, a);
  }

  lemma EditStepViews(m: Regions, v: View, done: set<nat>, b: nat, s: nat, e: nat, ed: Edit)
    requires Represents(m, v) && s < e && b in m && b !in done
    ensures SameOutside(EditDone(v, done, s, e, ed), EditDone(v, done + {b}, s, e, ed), b, End(m, b))
    ensures var after := EditDone(v, done + {b}, s, e, ed);
            && (forall a :: b <= a < End(m, b) ==> (a in after <==> !Goes(a, s, e, ed)))
            && (forall a :: b <= a < End(m, b) && a in after ==> after[a] == EditTag(Tag(b, m[b].perm), a, s, e, ed))
    ensures !Overlaps(b, m[b], s, e) ==> EditDone(v, done, s, e, ed) == EditDone(v, done + {b}, s, e, ed)
  {
    OwnedTag(m, v, b);
    EditDoneMore(v, done, b, s, e, ed);
    if !Overlaps(b, m[b], s, e) {
      assert forall a :: a in v && v[a].base == b ==> !Goes(a, s, e, ed) && EditTag(v[a], a, s, e, ed) == v[a];
    }
  }

  lemma EditDoneMore(v: View, done: set<nat>, b: nat, s: nat, e: nat, ed: Edit)
    requires b !in done
    ensures var before, after := EditDone(v, done, s, e, ed), EditDone(v, done + {b}, s, e, ed);
            forall a :: a in v ==>
              if v[a].base == b then
                && a in before && before[a] == v[a]
                && (a in after <==> !Goes(a, s, e, ed))
                && (a in after ==> after[a] == EditTag(v[a], a, s, e, ed))
              else
                && (a in before <==> a in after)
                && (a in before ==> before[a] == after[a])
    ensures forall a :: a !in v ==> a !in EditDone(v, done, s, e, ed) && a !in EditDone(v, done + {b}, s, e, ed)
  {
  }

  lemma {:induction false} EditAllRepresents(m: Regions, v: View, keys: seq<nat>, s: nat, e: nat, ed: Edit)
    requires WellFormed(m) && Represents(m, v) && Aligned(s, e)
    requires Sorted(keys) && forall k :: k in keys ==> k in m
    ensures var cur := EditAll(m, keys, s, e, ed);
            && AllOk(cur)
            && Represents(cur, EditDone(v, Elements(keys), s, e, ed))
            && forall k :: k in m && k !in keys ==> k in cur && cur[k] == m[k]
  {
    if keys == [] {
      assert EditDone(v, Elements(keys), s, e, ed) == v;
    } else {
      var n := |keys| - 1;
      var front := keys[..n];
      EditAllRepresents(m, v, front, s, e, ed);
      assert Elements(keys) == Elements(front) + {keys[n]};
      EditStep(m, v, EditAll(m, front, s, e, ed), Elements(front), keys[n], s, e, ed);
    }
  }

  /** Splitting every overlapped region of the table edits exactly the bytes of the range and
      cuts regions at its two ends; nothing else in the view moves. */
  lemma EditRefines(m: Regions, keys: seq<nat>, s: nat, e: nat, ed: Edit)
    requires WellFormed(m) && Aligned(s, e)
    requires Sorted(keys) && Elements(keys) == m.Keys
    ensures forall k :: k in keys ==> k in m
    ensures var cur := EditAll(m, keys, s, e, ed);
            WellFormed(cur) && ViewOf(cur) == ViewEdit(ViewOf(m), s, e, ed)
  {
    var v := ViewOf(m);
    ElementsAre(keys, m);
    EditAllRepresents(m, v, keys, s, e, ed);
    EditDoneAll(m, v, keys, s, e, ed);
    RepresentsDisjoint(EditAll(m, keys, s, e, ed), ViewEdit(v, s, e, ed));
  }

  lemma EditDoneAll(m: Regions, v: View, keys: seq<nat>, s: nat, e: nat, ed: Edit)
    requires Represents(m, v) && Elements(keys) == m.Keys
    ensures EditDone(v, Elements(keys), s, e, ed) == ViewEdit(v, s, e, ed)
  {
    assert forall a :: a in v ==> Owns(m, v[a].base, a);
  }

  lemma ElementsAre(keys: seq<nat>, m: Regions)
    requires Elements(keys) == m.Keys
    ensures forall k :: k in keys <==> k in m
  {
    assert forall k :: k in keys <==> k in Elements(keys);
  }

  // ----- Adding and removing whole regions -----

  predicate Within(x: nat, a: nat, n: nat) {
    a <= x < a + n
  }

  function Range(a: nat, n: nat): set<nat> {
    set x | 0 <= x < a + n && Within(x, a, n)
  }

  ghost function ViewAllocate(v: View, a: nat, n: nat, p: Perm): View {
    v + map x | x in Range(a, n) :: Tag(a, p)
  }

  /** allocate_memory's own overlap test, with both ends wrapping as in the source. */
  predicate Intersects(a: u64, n: u64, b: nat, l: nat) {
    a < (b + l) % U64 && b < (a + n) % U64
  }

  lemma IntersectsBytes(m: Regions, a: u64, n: u64)
    requires WellFormed(m) && 0 < n && a + n < U64
    ensures (exists b :: b in m && Overlaps(b, m[b], a, a + n)) <==> !(Range(a, n) !! ViewOf(m).Keys)
  {
    var v := ViewOf(m);
    if b :| b in m && Overlaps(b, m[b], a, a + n) {
      assert Owns(m, b, Max(a, b));
      assert Max(a, b) in Range(a, n) && Max(a, b) in v.Keys;
    }
    if x :| x in Range(a, n) && x in v.Keys {
      assert Owns(m, v[x].base, x);
    }
  }

  lemma AllocateRefines(m: Regions, a: nat, n: nat, p: Perm)
    requires WellFormed(m) && RegionOk(a, Region(n, p))
    requires Range(a, n) !! ViewOf(m).Keys
    ensures WellFormed(m[a := Region(n, p)])
    ensures ViewOf(m[a := Region(n, p)]) == ViewAllocate(ViewOf(m), a, n, p)
  {
    var v, r := ViewOf(m), m[a := Region(n, p)];
    var w := ViewAllocate(v, a, n, p);
    assert a in Range(a, n);
    assert a in m ==> Owns(m, a, a);
    forall x | x in w
      ensures Owns(r, w[x].base, x) && r[w[x].base].perm == w[x].perm
    {
      if !(a <= x < a + n) {
        assert Owns(m, v[x].base, x);
      }
    }
    forall b: nat, x: nat | Owns(r, b, x)
      ensures x in w && w[x].base == b
    {
      if b != a {
        assert Owns(m, b, x);
        assert x !in Range(a, n);
      }
    }
    RepresentsDisjoint(r, w);
  }

  /** allocate_memory does not check its arguments beyond the overlap test: the table it leaves
      is well formed exactly when the new region is non-empty, page-aligned and ends below 2^64. */
  lemma AllocateKeepsWellFormedIff(m: Regions, a: u64, n: u64, p: Perm)
    requires WellFormed(m)
    requires forall b :: b in m ==> !Intersects(a, n, b, m[b].length)
    ensures WellFormed(m[a := Region(n, p)]) <==> RegionOk(a, Region(n, p))
  {
    var r := m[a := Region(n, p)];
    if RegionOk(a, Region(n, p)) {
      forall x, y | x in r && y in r && x < y
        ensures End(r, x) <= y
      {
        assert x != a ==> RegionOk(x, m[x]);
        assert y != a ==> RegionOk(y, m[y]);
      }
    } else {
      assert a in r;
    }
  }

  /** An empty, an unaligned and a wrapping request that the overlap test lets through. The last
      even covers a region that is already there. */
  lemma BadRequestsPass(p: Perm)
    ensures var m: Regions := map[0x1000 := Region(PAGE, p)];
            && WellFormed(m) && BreaksTable(m, 0x5000, 0, p) && BreaksTable(m, 0x5001, PAGE, p)
            && BreaksTable(m, U64 - PAGE, 0x3000, p)
  {
    var m: Regions := map[0x1000 := Region(PAGE, p)];
    AllocateKeepsWellFormedIff(m, 0x5000, 0, p);
    AllocateKeepsWellFormedIff(m, 0x5001, PAGE, p);
    AllocateKeepsWellFormedIff(m, U64 - PAGE, 0x3000, p);
  }

  /** allocate_memory accepts the request and leaves a table that is not well formed. */
  ghost predicate BreaksTable(m: Regions, a: u64, n: u64, p: Perm) {
    && (forall b :: b in m ==> !Intersects(a, n, b, m[b].length))
    && !WellFormed(m[a := Region(n, p)])
  }

  ghost function ViewDrop(v: View, b: nat): View {
    map a | a in v && v[a].base != b :: v[a]
  }

  lemma DropRefines(m: Regions, b: nat)
    requires WellFormed(m)
    ensures WellFormed(m - {b}) && ViewOf(m - {b}) == ViewDrop(ViewOf(m), b)
  {
    var v, r := ViewOf(m), m - {b};
    var w := ViewDrop(v, b);
    forall x | x in w
      ensures Owns(r, w[x].base, x) && r[w[x].base].perm == w[x].perm
    {
      assert Owns(m, v[x].base, x);
    }
    assert forall k: nat, x: nat :: Owns(r, k, x) ==> Owns(m, k, x);
    RepresentsDisjoint(r, w);
  }

  // ----- Sizes -----

  predicate Executable(p: Perm) { p / 4 % 2 == 1 }

  /** Does a region or byte with permissions `p` count, when only executable ones may do so? */
  predicate Counts(p: Perm, execOnly: bool) { execOnly ==> Executable(p) }

  /** The bytes the listed regions add up to. */
  ghost function Total(m: Regions, keys: seq<nat>, execOnly: bool): nat
    requires forall k :: k in keys ==> k in m
  {
    if keys == [] then 0
    else
      var r := m[keys[|keys| - 1]];
      Total(m, keys[..|keys| - 1], execOnly) + if Counts(r.perm, execOnly) then r.length else 0
  }

  lemma TotalNone(m: Regions)
    ensures Total(m, [], false) == Total(m, [], true) == 0
  {
  }

  lemma TotalNext(m: Regions, keys: seq<nat>, i: nat, execOnly: bool)
    requires i < |keys| && forall k :: k in keys ==> k in m
    ensures Total(m, keys[..i + 1], execOnly)
            == Total(m, keys[..i], execOnly) + if Counts(m[keys[i]].perm, execOnly) then m[keys[i]].length else 0
  {
    assert keys[..i + 1][..i] == keys[..i];
  }

  lemma RangeSize(a: nat, n: nat)
    ensures |Range(a, n)| == n
  {
    if n == 0 {
      assert Range(a, n) == {};
    } else {
      RangeSize(a, n - 1);
      assert Range(a, n) == Range(a, n - 1) + {a + n - 1};
    }
  }

  /** The counted bytes that regions with these bases hold. */
  ghost function HeldBy(v: View, bases: set<nat>, execOnly: bool): set<nat> {
    set a | a in v && v[a].base in bases && Counts(v[a].perm, execOnly)
  }

  ghost function ExecutableBytes(v: View): set<nat> {
    set a | a in v && Executable(v[a].perm)
  }

  /** The lengths in the table add up to the number of bytes held. */
  lemma {:induction false} TotalIsSize(m: Regions, v: View, keys: seq<nat>, execOnly: bool)
    requires Represents(m, v)
    requires Sorted(keys) && forall k :: k in keys ==> k in m
    ensures Total(m, keys, execOnly) == |HeldBy(v, Elements(keys), execOnly)|
  {
    if keys == [] {
      assert HeldBy(v, Elements(keys), execOnly) == {};
    } else {
      var n := |keys| - 1;
      var b, front := keys[n], keys[..n];
      TotalIsSize(m, v, front, execOnly);
      RangeSize(b, m[b].length);
      assert Elements(keys) == Elements(front) + {b};
      assert b !in Elements(front);
      OneMoreRegion(m, v, Elements(front), b, execOnly);
    }
  }

  lemma OneMoreRegion(m: Regions, v: View, bases: set<nat>, b: nat, execOnly: bool)
    requires Represents(m, v) && b in m && b !in bases
    ensures Counts(m[b].perm, execOnly) ==>
              HeldBy(v, bases + {b}, execOnly) == HeldBy(v, bases, execOnly) + Range(b, m[b].length)
    ensures !Counts(m[b].perm, execOnly) ==> HeldBy(v, bases + {b}, execOnly) == HeldBy(v, bases, execOnly)
    ensures HeldBy(v, bases, execOnly) !! Range(b, m[b].length)
  {
    OwnedTag(m, v, b);
  }

  /** Every mapped byte is held by some region, so the grand total is the size of the view. */
  lemma TotalIsMapped(m: Regions, keys: seq<nat>)
    requires WellFormed(m) && Sorted(keys) && Elements(keys) == m.Keys
    ensures forall k :: k in keys ==> k in m
    ensures Total(m, keys, false) == |ViewOf(m)|
    ensures Total(m, keys, true) == |ExecutableBytes(ViewOf(m))|
  {
    var v := ViewOf(m);
    ElementsAre(keys, m);
    TotalIsSize(m, v, keys, false);
    TotalIsSize(m, v, keys, true);
    AllHeld(m, v);
  }

  lemma AllHeld(m: Regions, v: View)
    requires Represents(m, v)
    ensures HeldBy(v, m.Keys, false) == v.Keys
    ensures HeldBy(v, m.Keys, true) == ExecutableBytes(v)
  {
    assert forall a :: a in v ==> Owns(m, v[a].base, a);
  }

  /** protect_memory changes no byte's being mapped, so it conserves the mapped size. */
  lemma ProtectConserves(v: View, s: nat, e: nat, p: Perm)
    ensures ViewEdit(v, s, e, Protect(p)).Keys == v.Keys
    ensures |ViewEdit(v, s, e, Protect(p))| == |v|
  {
    var w := ViewEdit(v, s, e, Protect(p));
    assert w.Keys == v.Keys;
    assert |w| == |w.Keys| && |v| == |v.Keys|;
  }
}
