/** Call-site repairs of recover_imports.py: which observations are accepted, and the machine code
    that replaces each accepted site. */
module ImportPatches {
  import opened Machine
  import opened GuestMemory
  import Ordered
  import T = ImportTrace
  import W = Writes
  import opened SectionPayload

  type Str = seq<byte>

  datatype Repair = Repair(site: nat, length: nat, dll: Str, name: Str, target: nat, original: seq<byte>) {
    function End(): nat { site + length }
  }

  // ----- Accepting observations -----

  /** What the trace analysis puts into every repair. */
  ghost predicate Observed(image: seq<byte>, r: Repair) {
    (r.length == 5 || r.length == 6) && r.End() <= |image| && r.original == image[r.site..r.End()]
  }

  predicate Same(a: Repair, b: Repair) {
    a.length == b.length && a.dll == b.dll && a.name == b.name && a.original == b.original
  }

  /** No site was seen calling two things. */
  ghost predicate Consistent(seen: seq<Repair>) {
    forall i, j :: 0 <= i < j < |seen| && seen[i].site == seen[j].site ==> Same(seen[i], seen[j])
  }

  ghost predicate NoOverlap(seen: seq<Repair>) {
    forall i, j :: 0 <= i < |seen| && 0 <= j < |seen| && seen[i].site < seen[j].site ==> seen[i].End() <= seen[j].site
  }

  ghost predicate NeighboursClear(rs: seq<Repair>) {
    forall i :: 0 <= i < |rs| - 1 ==> rs[i].End() <= rs[i + 1].site
  }

  ghost predicate AllClear(rs: seq<Repair>) {
    forall i, j :: 0 <= i < j < |rs| ==> rs[i].End() <= rs[j].site
  }

  /** A report as rebuild receives it. */
  ghost predicate ReportOk(image: seq<byte>, rs: seq<Repair>) {
    && (forall i :: 0 <= i < |rs| ==> Observed(image, rs[i]))
    && AllClear(rs)
  }

  /** No later observation is of the same site. */
  ghost predicate IsLast(seen: seq<Repair>, r: Repair) {
    exists i: nat :: LastAt(seen, i, r)
  }

  ghost predicate LastAt(seen: seq<Repair>, i: nat, r: Repair) {
    i < |seen| && seen[i] == r && forall j :: i < j < |seen| ==> seen[j].site != r.site
  }

  /** The last observation of every site. */
  ghost predicate Latest(seen: seq<Repair>, m: map<nat, Repair>) {
    && (forall k :: k in m ==> IsLast(seen, m[k]) && m[k].site == k)
    && (forall i :: 0 <= i < |seen| ==> seen[i].site in m && Same(seen[i], m[seen[i].site]))
  }

  /** No unresolved transition may come from an accepted site. */
  ghost predicate Resolved(seen: seq<Repair>, unresolved: seq<set<nat>>) {
    forall i, k :: 0 <= i < |seen| && 0 <= k < |unresolved| ==> seen[i].site !in unresolved[k]
  }

  /** No execution path enters the middle of a site. */
  ghost predicate Unentered(seen: seq<Repair>, trace: seq<T.Instruction>) {
    forall i :: 0 <= i < |seen| ==> !T.Entered(trace, seen[i].site, seen[i].length)
  }

  /** Keep one repair per site, sort by site; refuse a site that also has an unresolved observation,
      one whose middle is entered, and neighbours that overlap. */
  method Accept(image: seq<byte>, seen: seq<Repair>, unresolved: seq<set<nat>>, trace: seq<T.Instruction>)
    returns (r: Option<seq<Repair>>)
    requires forall i :: 0 <= i < |seen| ==> Observed(image, seen[i])
    ensures r.Some? <==> seen != [] && Consistent(seen) && NoOverlap(seen) && Resolved(seen, unresolved) && Unentered(seen, trace)
    ensures r.Some? ==> forall i, j :: 0 <= i < |seen| && 0 <= j < |seen| && seen[i].site == seen[j].site ==>
                          && seen[i].length == seen[j].length && seen[i].dll == seen[j].dll
                          && seen[i].name == seen[j].name && seen[i].original == seen[j].original
    ensures r.None? ==> seen == [] || !NoOverlap(seen) || !Resolved(seen, unresolved) || !Unentered(seen, trace)
                        || exists i, j :: 0 <= i < |seen| && 0 <= j < |seen| && seen[i].site == seen[j].site
                             && (seen[i].length != seen[j].length || seen[i].dll != seen[j].dll
                                 || seen[i].name != seen[j].name || seen[i].original != seen[j].original)
    ensures r.Some? ==> ReportOk(image, r.value)
    ensures r.Some? ==> AllListed(r.value, seen) && forall k :: 0 <= k < |r.value| ==> IsLast(seen, r.value[k])
  {
    hide IsLast, Observed, Consistent, NoOverlap, NeighboursClear, AllClear, Same, Latest, AllListed, Ordered.Ascending, Unentered, Resolved;
    ConsistentMeans(seen);
    var repairs := Gather(seen);
    if repairs.None? {
      return None;
    }
    var m := repairs.value;
    var keys := Ordered.Ascending(m.Keys);
    KeysIn(m, keys);
    var ordered := Collect(m, keys);
    SortedSites(seen, m, keys, ordered);
    var resolved := CheckResolved(seen, m, unresolved);
    if !resolved {
      return None;
    }
    var unentered := CheckUnentered(ordered, trace);
    UnenteredSame(seen, ordered, trace);
    if !unentered {
      return None;
    }
    var fine := CheckNeighbours(ordered);
    if !fine || ordered == [] {
      return None;
    }
    return Some(ordered);
  }

  method CheckResolved(ghost seen: seq<Repair>, m: map<nat, Repair>, unresolved: seq<set<nat>>) returns (resolved: bool)
    requires Latest(seen, m)
    ensures resolved <==> Resolved(seen, unresolved)
  {
    hide Same;
    for k := 0 to |unresolved|
      invariant forall l :: 0 <= l < k ==> unresolved[l] * m.Keys == {}
    {
      if unresolved[k] * m.Keys != {} {
        ghost var site :| site in unresolved[k] * m.Keys;
        ghost var i: nat :| LastAt(seen, i, m[site]);
        return false;
      }
    }
    forall i, k | 0 <= i < |seen| && 0 <= k < |unresolved|
      ensures seen[i].site !in unresolved[k]
    {
      assert seen[i].site in m.Keys && seen[i].site !in unresolved[k] * m.Keys;
    }
    return true;
  }

  method CheckUnentered(rs: seq<Repair>, trace: seq<T.Instruction>) returns (fine: bool)
    ensures fine <==> Unentered(rs, trace)
  {
    hide T.Entered;
    for i := 0 to |rs|
      invariant forall k :: 0 <= k < i ==> !T.Entered(trace, rs[k].site, rs[k].length)
    {
      var entered := T.FindEntry(trace, rs[i].site, rs[i].length);
      if entered {
        return false;
      }
    }
    return true;
  }

  /** Whether a site is entered depends on its place alone, so one repair per site decides. */
  lemma UnenteredSame(seen: seq<Repair>, rs: seq<Repair>, trace: seq<T.Instruction>)
    requires AllListed(rs, seen) && forall i :: 0 <= i < |rs| ==> rs[i] in seen
    ensures Unentered(rs, trace) <==> Unentered(seen, trace)
  {
    hide T.Entered;
    if Unentered(rs, trace) {
      forall i | 0 <= i < |seen|
        ensures !T.Entered(trace, seen[i].site, seen[i].length)
      {
        assert IsListed(rs, seen[i]);
        var k: nat :| Listed(rs, k, seen[i]);
      }
    }
    if Unentered(seen, trace) {
      forall i | 0 <= i < |rs|
        ensures !T.Entered(trace, rs[i].site, rs[i].length)
      {
        var k :| 0 <= k < |seen| && seen[k] == rs[i];
      }
    }
  }

  /** Every two observations of a site agree in length, module, name and bytes. */
  lemma ConsistentMeans(seen: seq<Repair>)
    ensures Consistent(seen)
       <==> forall i, j :: 0 <= i < |seen| && 0 <= j < |seen| && seen[i].site == seen[j].site ==>
              && seen[i].length == seen[j].length && seen[i].dll == seen[j].dll
              && seen[i].name == seen[j].name && seen[i].original == seen[j].original
  {
    if Consistent(seen) {
      forall i, j | 0 <= i < |seen| && 0 <= j < |seen| && seen[i].site == seen[j].site
        ensures Same(seen[i], seen[j])
      {
        assert i < j ==> Same(seen[i], seen[j]);
        assert j < i ==> Same(seen[j], seen[i]);
      }
    }
  }

  lemma KeysIn(m: map<nat, Repair>, keys: seq<nat>)
    requires Ordered.Elements(keys) == m.Keys
    ensures forall k :: k in keys ==> k in m
    ensures forall i :: 0 <= i < |keys| ==> keys[i] in m
  {
    forall k | k in keys
      ensures k in m
    {
      assert k in Ordered.Elements(keys);
    }
  }

  /** One repair per site; a site seen with two different callees ends the run. */
  method Gather(seen: seq<Repair>) returns (r: Option<map<nat, Repair>>)
    ensures r.Some? <==> Consistent(seen)
    ensures r.Some? ==> Latest(seen, r.value)
  {
    hide Same;
    var repairs: map<nat, Repair> := map[];
    for i := 0 to |seen|
      invariant Consistent(seen[..i]) && Latest(seen[..i], repairs)
    {
      assert seen[..i + 1] == seen[..i] + [seen[i]];
      var accepted := seen[i];
      var key := accepted.site;
      if key in repairs && !Same(repairs[key], accepted) {
        Conflict(seen, i, repairs[key]);
        return None;
      }
      LatestNext(seen, i, repairs);
      repairs := repairs[key := accepted];
    }
    assert seen[..|seen|] == seen;
    return Some(repairs);
  }

  ghost predicate Listed(rs: seq<Repair>, k: nat, r: Repair) {
    k < |rs| && rs[k].site == r.site && Same(r, rs[k])
  }

  ghost predicate AllListed(rs: seq<Repair>, seen: seq<Repair>) {
    forall i :: 0 <= i < |seen| ==> IsListed(rs, seen[i])
  }

  ghost predicate IsListed(rs: seq<Repair>, r: Repair) {
    exists k: nat :: Listed(rs, k, r)
  }

  lemma Conflict(seen: seq<Repair>, i: nat, r: Repair)
    requires i < |seen| && r in seen[..i] && r.site == seen[i].site && !Same(r, seen[i])
    ensures !Consistent(seen)
  {
    var k :| 0 <= k < i && seen[k] == r;
  }

  lemma LatestNext(seen: seq<Repair>, i: nat, m: map<nat, Repair>)
    requires i < |seen| && Consistent(seen[..i]) && Latest(seen[..i], m)
    requires seen[i].site in m ==> Same(m[seen[i].site], seen[i])
    ensures Consistent(seen[..i + 1]) && Latest(seen[..i + 1], m[seen[i].site := seen[i]])
  {
    var t, a := seen[..i + 1], seen[i];
    var n := m[a.site := a];
    assert t == seen[..i] + [a];
    forall k | k in n
      ensures IsLast(t, n[k]) && n[k].site == k
    {
      if k == a.site {
        assert LastAt(t, i, a);
      } else {
        var j: nat :| LastAt(seen[..i], j, m[k]);
        assert LastAt(t, j, m[k]);
      }
    }
    forall k | 0 <= k < |t|
      ensures t[k].site in n && Same(t[k], n[t[k].site])
    {
      if k < i {
        assert t[k] == seen[..i][k];
      }
    }
    forall p, q | 0 <= p < q < |t| && t[p].site == t[q].site
      ensures Same(t[p], t[q])
    {
      if q < i {
        assert t[p] == seen[..i][p] && t[q] == seen[..i][q];
      } else {
        assert t[p] == seen[..i][p];
      }
    }
  }

  method Collect(m: map<nat, Repair>, keys: seq<nat>) returns (ordered: seq<Repair>)
    requires forall k :: k in keys ==> k in m
    ensures |ordered| == |keys| && forall i :: 0 <= i < |keys| ==> ordered[i] == m[keys[i]]
  {
    ordered := [];
    for i := 0 to |keys|
      invariant |ordered| == i && forall k :: 0 <= k < i ==> ordered[k] == m[keys[k]]
    {
      ordered := ordered + [m[keys[i]]];
    }
  }

  /** Each repair against the next. */
  method CheckNeighbours(ordered: seq<Repair>) returns (fine: bool)
    ensures fine <==> NeighboursClear(ordered)
  {
    fine := true;
    var i := 0;
    while i + 1 < |ordered|
      invariant 0 <= i && (i < |ordered| || (ordered == [] && i == 0))
      invariant forall k :: 0 <= k < i ==> ordered[k].End() <= ordered[k + 1].site
    {
      if ordered[i].End() > ordered[i + 1].site {
        return false;
      }
      i := i + 1;
    }
  }

  /** For sites in ascending order the check on neighbours decides pairwise overlap. */
  lemma {:induction false} NeighboursSuffice(rs: seq<Repair>, i: nat, j: nat)
    requires i < j < |rs| && NeighboursClear(rs)
    ensures rs[i].End() <= rs[j].site
    decreases j
  {
    if i < j - 1 {
      NeighboursSuffice(rs, i, j - 1);
      assert rs[j - 1].End() <= rs[j - 1 + 1].site;
    }
  }

  lemma SortedSites(seen: seq<Repair>, m: map<nat, Repair>, keys: seq<nat>, rs: seq<Repair>)
    requires Latest(seen, m) && Ordered.Sorted(keys) && Ordered.Elements(keys) == m.Keys
    requires |rs| == |keys| && forall i :: 0 <= i < |keys| ==> keys[i] in m && rs[i] == m[keys[i]]
    ensures forall i :: 0 <= i < |rs| ==> rs[i] in seen && IsLast(seen, rs[i])
    ensures AllListed(rs, seen)
    ensures rs == [] <==> seen == []
    ensures NeighboursClear(rs) <==> NoOverlap(seen)
    ensures NeighboursClear(rs) ==> AllClear(rs)
  {
    hide Same;
    EveryOneListed(seen, m, keys, rs);
    assert rs != [] ==> rs[0] in seen;
    assert seen != [] ==> IsListed(rs, seen[0]);
    if NeighboursClear(rs) {
      NeighboursEnough(rs);
      ListedApart(seen, rs);
    }
    if NoOverlap(seen) {
      forall i | 0 <= i < |rs| - 1
        ensures rs[i].End() <= rs[i + 1].site
      {
        assert keys[i] < keys[i + 1] && rs[i] in seen && rs[i + 1] in seen;
      }
    }
  }

  lemma NeighboursEnough(rs: seq<Repair>)
    requires NeighboursClear(rs)
    ensures AllClear(rs)
  {
    forall i, j | 0 <= i < j < |rs|
      ensures rs[i].End() <= rs[j].site
    {
      NeighboursSuffice(rs, i, j);
    }
  }

  lemma EveryOneListed(seen: seq<Repair>, m: map<nat, Repair>, keys: seq<nat>, rs: seq<Repair>)
    requires Latest(seen, m) && Ordered.Elements(keys) == m.Keys
    requires |rs| == |keys| && forall i :: 0 <= i < |keys| ==> keys[i] in m && rs[i] == m[keys[i]]
    ensures AllListed(rs, seen)
  {
    forall i | 0 <= i < |seen|
      ensures IsListed(rs, seen[i])
    {
      var s := seen[i].site;
      assert s in m.Keys && s in Ordered.Elements(keys);
      var k :| 0 <= k < |keys| && keys[k] == s;
      assert Listed(rs, k, seen[i]);
    }
  }

  lemma ListedApart(seen: seq<Repair>, rs: seq<Repair>)
    requires AllListed(rs, seen)
    requires AllClear(rs)
    ensures NoOverlap(seen)
  {
    forall i, j | 0 <= i < |seen| && 0 <= j < |seen| && seen[i].site < seen[j].site
      ensures seen[i].End() <= seen[j].site
    {
      assert IsListed(rs, seen[i]) && IsListed(rs, seen[j]);
      var k: nat :| Listed(rs, k, seen[i]);
      var l: nat :| Listed(rs, l, seen[j]);
    }
  }

  // ----- Machine code -----

  const I32: int := 0x8000_0000

  predicate Near(d: int) { -I32 <= d < I32 }

  /** A signed 32-bit displacement. */
  function Disp(d: int): (r: seq<byte>)
    requires Near(d)
    ensures |r| == 4
  {
    Le(d % U32, 4)
  }

  function Signed(b: seq<byte>): int {
    var v := FromLe(b);
    if v < I32 then v else v - U32
  }

  lemma SignedDisp(d: int)
    requires Near(d)
    ensures Signed(Disp(d)) == d
  {
    Pow256Word();
    FromLeLe(d % U32, 4);
  }

  /** call qword ptr [rip + d] */
  function CallThrough(at: nat, slot: int): (r: seq<byte>)
    requires Near(slot - (at + 6))
    ensures |r| == 6
  {
    [0xff, 0x15] + Disp(slot - (at + 6))
  }

  /** call rel32 */
  function CallDirect(at: nat, target: int): (r: seq<byte>)
    requires Near(target - (at + 5))
    ensures |r| == 5
  {
    [0xe8] + Disp(target - (at + 5))
  }

  /** jmp qword ptr [rip + d] */
  function JumpThrough(at: nat, slot: int): (r: seq<byte>)
    requires Near(slot - (at + 6))
    ensures |r| == 6
  {
    [0xff, 0x25] + Disp(slot - (at + 6))
  }

  /** The mapped program: the image, and the new section at its address. */
  datatype Program = Program(image: seq<byte>, rva: nat, section: seq<byte>) {
    function Fetch(a: int, n: nat): seq<byte> {
      if 0 <= a && a + n <= |image| then image[a..a + n]
      else if rva <= a && a + n <= rva + |section| then section[a - rva..a - rva + n]
      else []
    }
  }

  /** The slot whose pointer control ends up at when the call at `a` runs, following one jump. */
  function CalledSlot(p: Program, a: int): Option<int> {
    var near := p.Fetch(a, 5);
    if |near| == 5 && near[0] == 0xe8 then
      var t := a + 5 + Signed(near[1..]);
      var thunk := p.Fetch(t, 6);
      if |thunk| == 6 && thunk[..2] == [0xff, 0x25] then Some(t + 6 + Signed(thunk[2..])) else None
    else
      var far := p.Fetch(a, 6);
      if |far| == 6 && far[..2] == [0xff, 0x15] then Some(a + 6 + Signed(far[2..])) else None
  }

  /** How one site was rewritten: through the slot, or by way of a thunk in the section. */
  ghost predicate Rewritten(r: Repair, slot: nat, data: seq<byte>, section: seq<byte>, rva: nat) {
    if r.length == 6 then Near(slot - (r.site + 6)) && data == CallThrough(r.site, slot)
    else exists t: nat :: ViaThunk(r, slot, data, section, rva, t)
  }

  ghost predicate ViaThunk(r: Repair, slot: nat, data: seq<byte>, section: seq<byte>, rva: nat, t: nat) {
    && Near(slot - (rva + t + 6)) && Near(rva + t - (r.site + 5))
    && At(section, t, JumpThrough(rva + t, slot)) && data == CallDirect(r.site, rva + t)
  }

  lemma RewrittenGrows(r: Repair, slot: nat, data: seq<byte>, s: seq<byte>, t: seq<byte>, rva: nat)
    requires Rewritten(r, slot, data, s, rva) && s <= t
    ensures Rewritten(r, slot, data, t, rva)
  {
    hide JumpThrough, CallDirect, CallThrough, At;
    if r.length != 6 {
      var k: nat :| ViaThunk(r, slot, data, s, rva, k);
      AtGrows(s, t, k, JumpThrough(rva + k, slot));
      assert ViaThunk(r, slot, data, t, rva, k);
    }
  }

  /** A rewritten site calls the slot it was rewritten for. */
  lemma RewrittenCalls(p: Program, r: Repair, slot: nat, data: seq<byte>)
    requires r.length == 5 || r.length == 6
    requires Rewritten(r, slot, data, p.section, p.rva) && At(p.image, r.site, data) && |p.image| <= p.rva
    ensures CalledSlot(p, r.site) == Some(slot)
  {
    if r.length == 6 {
      assert p.Fetch(r.site, 6) == data && data[2..] == Disp(slot - (r.site + 6)) && data[..2] == [0xff, 0x15];
      assert p.Fetch(r.site, 5)[0] == data[0];
      SignedDisp(slot - (r.site + 6));
    } else {
      var t: nat :| ViaThunk(r, slot, data, p.section, p.rva, t);
      ThunkCalls(p, r, slot, data, t);
    }
  }

  lemma ThunkCalls(p: Program, r: Repair, slot: nat, data: seq<byte>, t: nat)
    requires ViaThunk(r, slot, data, p.section, p.rva, t) && At(p.image, r.site, data) && |p.image| <= p.rva
    ensures CalledSlot(p, r.site) == Some(slot)
  {
    hide Disp, Signed, JumpThrough, CallDirect;
    assert p.Fetch(r.site, |data|) == data;
    assert p.Fetch(p.rva + t, 6) == JumpThrough(p.rva + t, slot);
    JumpCalls(p, r.site, p.rva + t, slot);
  }

  lemma JumpCalls(p: Program, site: nat, thunk: nat, slot: nat)
    requires Near(slot - (thunk + 6)) && Near(thunk - (site + 5))
    requires p.Fetch(site, 5) == CallDirect(site, thunk) && p.Fetch(thunk, 6) == JumpThrough(thunk, slot)
    ensures CalledSlot(p, site) == Some(slot)
  {
    hide Disp, Signed;
    var call, jump := CallDirect(site, thunk), JumpThrough(thunk, slot);
    assert call[1..] == Disp(thunk - (site + 5));
    SignedDisp(thunk - (site + 5));
    assert jump[2..] == Disp(slot - (thunk + 6)) && jump[..2] == [0xff, 0x25];
    SignedDisp(slot - (thunk + 6));
  }

  lemma AtWithin(v: seq<byte>, off: nat, part: seq<byte>, t: nat, data: seq<byte>)
    requires At(v, off, part) && At(part, t, data)
    ensures At(v, off + t, data)
  {
    forall i | 0 <= i < |data|
      ensures v[off + t + i] == data[i]
    {
      assert part[t + i] == data[i] && v[off..off + |part|][t + i] == v[off + t + i];
    }
    assert v[off + t..off + t + |data|] == data;
  }

  /** A mapped file that holds the rewritten site and the section calls the slot as well. */
  lemma MappedCalls(v: seq<byte>, r: Repair, slot: nat, data: seq<byte>, section: seq<byte>, rva: nat)
    requires r.length == 5 || r.length == 6
    requires Rewritten(r, slot, data, section, rva) && At(v, r.site, data) && At(v, rva, section)
    ensures CalledSlot(Program(v, |v|, []), r.site) == Some(slot)
  {
    hide CalledSlot, JumpThrough, CallDirect;
    var p := Program(v, |v|, []);
    if r.length == 6 {
      RewrittenCalls(p, r, slot, data);
    } else {
      var t: nat :| ViaThunk(r, slot, data, section, rva, t);
      var jump := JumpThrough(rva + t, slot);
      AtWithin(v, rva, section, t, jump);
      JumpCalls(p, r.site, rva + t, slot);
    }
  }

  // ----- Patching -----

  type Slots = map<(Str, Str), nat>

  ghost predicate AllSlotted(rs: seq<Repair>, slots: Slots) {
    forall i :: 0 <= i < |rs| ==> (rs[i].dll, rs[i].name) in slots
  }

  function SlotOf(r: Repair, slots: Slots): nat
    requires (r.dll, r.name) in slots
  {
    slots[(r.dll, r.name)]
  }

  /** One write per repair, exactly over its site. */
  ghost predicate Patches(rs: seq<Repair>, slots: Slots, ws: seq<W.Write>, section: seq<byte>, rva: nat)
    requires AllSlotted(rs, slots)
  {
    && |ws| <= |rs|
    && forall i :: 0 <= i < |ws| ==> PatchFor(rs[i], SlotOf(rs[i], slots), ws[i], section, rva)
  }

  ghost predicate PatchFor(r: Repair, slot: nat, w: W.Write, section: seq<byte>, rva: nat) {
    w.at == r.site && |w.data| == r.length && Rewritten(r, slot, w.data, section, rva)
  }

  lemma PatchesApart(image: seq<byte>, rs: seq<Repair>, slots: Slots, ws: seq<W.Write>, section: seq<byte>, rva: nat)
    requires ReportOk(image, rs) && AllSlotted(rs, slots) && Patches(rs, slots, ws, section, rva)
    ensures W.Inside(ws, |image|) && W.AllApart(ws)
  {
    hide Rewritten;
    forall i | 0 <= i < |ws|
      ensures ws[i].End() <= |image|
    {
      assert PatchFor(rs[i], SlotOf(rs[i], slots), ws[i], section, rva) && Observed(image, rs[i]);
    }
    forall i, j | 0 <= i < j < |ws|
      ensures W.Apart(ws[i], ws[j])
    {
      assert PatchFor(rs[i], SlotOf(rs[i], slots), ws[i], section, rva);
      assert PatchFor(rs[j], SlotOf(rs[j], slots), ws[j], section, rva);
    }
  }

  /** Before its turn a site still holds its original bytes. */
  lemma OriginalStays(image: seq<byte>, rs: seq<Repair>, slots: Slots, ws: seq<W.Write>, section: seq<byte>, rva: nat)
    requires ReportOk(image, rs) && AllSlotted(rs, slots) && Patches(rs, slots, ws, section, rva) && |ws| < |rs|
    ensures W.Inside(ws, |image|) && rs[|ws|].End() <= |image|
    ensures W.Apply(image, ws)[rs[|ws|].site..rs[|ws|].End()] == rs[|ws|].original
  {
    hide Rewritten;
    PatchesApart(image, rs, slots, ws, section, rva);
    var r := rs[|ws|];
    assert Observed(image, r);
    forall i | 0 <= i < |ws|
      ensures ws[i].End() <= r.site
    {
      assert PatchFor(rs[i], SlotOf(rs[i], slots), ws[i], section, rva);
    }
    W.ApplyKeeps(image, ws, r.site, r.End());
  }

  /** Everything is close enough for 32-bit displacements. */
  ghost predicate Compact(rva: nat, used: nat, rs: seq<Repair>, slots: Slots)
    requires AllSlotted(rs, slots)
  {
    rva + used + 8 * |rs| + 8 < I32 && forall i :: 0 <= i < |rs| ==> SlotOf(rs[i], slots) < I32
  }

  /** The replacement for one site; a 5-byte site gets a thunk in the section. None is the error
      for a displacement that does not fit. */
  method Replace(r: Repair, slot: nat, section: Payload) returns (data: Option<seq<byte>>)
    requires r.length == 5 || r.length == 6
    modifies section
    ensures old(section.bytes) <= section.bytes && |section.bytes| <= |old(section.bytes)| + 8
    ensures data.Some? ==> |data.value| == r.length && Rewritten(r, slot, data.value, section.bytes, section.rva)
    ensures section.rva + |old(section.bytes)| + 8 < I32 && slot < I32 && r.End() <= section.rva ==> data.Some?
  {
    hide Disp, At;
    if r.length == 6 {
      if !Near(slot - (r.site + 6)) {
        return None;
      }
      return Some(CallThrough(r.site, slot));
    }
    var thunk := AlignTo(|section.bytes|, 2) + section.rva;
    if !Near(slot - (thunk + 6)) {
      return None;
    }
    var at := section.Append(JumpThrough(thunk, slot), 2);
    if !Near(thunk - (r.site + 5)) {
      return None;
    }
    assert ViaThunk(r, slot, CallDirect(r.site, thunk), section.bytes, section.rva, thunk - section.rva);
    return Some(CallDirect(r.site, thunk));
  }

  /** Every site ends up calling its own slot and no other byte of the image changes. The guard
      on the original bytes is never hit, so only a displacement can be refused. */
  method PatchImage(image: seq<byte>, rs: seq<Repair>, slots: Slots, section: Payload)
    returns (patched: Option<seq<byte>>, ghost ws: seq<W.Write>)
    requires ReportOk(image, rs) && AllSlotted(rs, slots) && |image| <= section.rva
    modifies section
    ensures old(section.bytes) <= section.bytes
    ensures Compact(section.rva, |old(section.bytes)|, rs, slots) ==> patched.Some?
    ensures patched.Some? ==> |patched.value| == |image| && |ws| == |rs| && W.Inside(ws, |image|)
    ensures patched.Some? ==> Patches(rs, slots, ws, section.bytes, section.rva) && patched.value == W.Apply(image, ws)
    ensures patched.Some? ==> EachCallsItsSlot(Program(patched.value, section.rva, section.bytes), rs, slots)
    ensures patched.Some? ==> SitesRewritten(patched.value, rs, slots, section.bytes, section.rva)
    ensures |section.bytes| <= |old(section.bytes)| + 8 * |rs|
    ensures patched.Some? ==> forall x :: 0 <= x < |image| && !InSite(rs, x) ==> patched.value[x] == image[x]
  {
    hide Observed, Rewritten, W.Apply, W.Inside, CalledSlot;
    ws := [];
    var out := image;
    NoPatches(image, rs, slots, section.bytes, section.rva);
    for i := 0 to |rs|
      invariant |ws| == i && old(section.bytes) <= section.bytes && |section.bytes| <= |old(section.bytes)| + 8 * i
      invariant Patches(rs, slots, ws, section.bytes, section.rva)
      invariant W.Inside(ws, |image|) && out == W.Apply(image, ws)
    {
      var r := rs[i];
      var slot := SlotOf(r, slots);
      OriginalStays(image, rs, slots, ws, section.bytes, section.rva);
      assert out[r.site..r.site + r.length] == r.original;
      SiteShape(image, r);
      ghost var before := section.bytes;
      var data := Replace(r, slot, section);
      if data.None? {
        return None, ws;
      }
      PatchesNext(image, rs, slots, ws, data.value, before, section.bytes, section.rva);
      out := W.Put(out, r.site, data.value);
      ws := ws + [W.Write(r.site, data.value)];
    }
    patched := Some(out);
    PatchedCalls(image, rs, slots, ws, section.bytes, section.rva);
    forall x | 0 <= x < |image| && !InSite(rs, x)
      ensures out[x] == image[x]
    {
      OutsideKeeps(image, rs, slots, ws, section.bytes, section.rva, x);
    }
  }

  ghost predicate InSite(rs: seq<Repair>, x: int) {
    exists i :: 0 <= i < |rs| && rs[i].site <= x < rs[i].End()
  }

  /** The bytes of every site are the rewritten call. */
  ghost predicate SitesRewritten(patched: seq<byte>, rs: seq<Repair>, slots: Slots, section: seq<byte>, rva: nat)
    requires AllSlotted(rs, slots)
  {
    forall i :: 0 <= i < |rs| ==> SiteRewritten(patched, rs[i], SlotOf(rs[i], slots), section, rva)
  }

  ghost predicate SiteRewritten(patched: seq<byte>, r: Repair, slot: nat, section: seq<byte>, rva: nat) {
    && (r.length == 5 || r.length == 6) && r.End() <= |patched|
    && Rewritten(r, slot, patched[r.site..r.End()], section, rva)
  }

  ghost predicate EachCallsItsSlot(p: Program, rs: seq<Repair>, slots: Slots)
    requires AllSlotted(rs, slots)
  {
    forall i :: 0 <= i < |rs| ==> CalledSlot(p, rs[i].site) == Some(SlotOf(rs[i], slots))
  }

  lemma SiteShape(image: seq<byte>, r: Repair)
    requires Observed(image, r)
    ensures (r.length == 5 || r.length == 6) && r.End() <= |image|
  {
  }

  lemma NoPatches(image: seq<byte>, rs: seq<Repair>, slots: Slots, section: seq<byte>, rva: nat)
    requires AllSlotted(rs, slots)
    ensures Patches(rs, slots, [], section, rva) && W.Inside([], |image|) && W.Apply(image, []) == image
  {
  }

  lemma PatchesNext(image: seq<byte>, rs: seq<Repair>, slots: Slots, ws: seq<W.Write>, data: seq<byte>,
      before: seq<byte>, after: seq<byte>, rva: nat)
    requires ReportOk(image, rs) && AllSlotted(rs, slots) && Patches(rs, slots, ws, before, rva) && |ws| < |rs|
    requires before <= after && |data| == rs[|ws|].length
    requires Rewritten(rs[|ws|], SlotOf(rs[|ws|], slots), data, after, rva)
    ensures var w := ws + [W.Write(rs[|ws|].site, data)];
            && Patches(rs, slots, w, after, rva) && W.Inside(ws, |image|) && W.Inside(w, |image|)
            && rs[|ws|].End() <= |image|
            && W.Apply(image, w) == W.Put(W.Apply(image, ws), rs[|ws|].site, data)
  {
    hide Rewritten, W.Apply, W.Inside, Observed, AllClear, W.Put;
    var n := |ws|;
    PatchesGrow(rs, slots, ws, before, after, rva);
    var last := W.Write(rs[n].site, data);
    var w := ws + [last];
    forall i | 0 <= i < |w|
      ensures PatchFor(rs[i], SlotOf(rs[i], slots), w[i], after, rva)
    {
      if i < n {
        assert w[i] == ws[i];
      }
    }
    SiteShape(image, rs[n]);
    PatchesApart(image, rs, slots, ws, before, rva);
    W.ApplyNext(image, ws, last);
  }

  lemma PatchesGrow(rs: seq<Repair>, slots: Slots, ws: seq<W.Write>, before: seq<byte>, after: seq<byte>, rva: nat)
    requires AllSlotted(rs, slots) && Patches(rs, slots, ws, before, rva) && before <= after
    ensures Patches(rs, slots, ws, after, rva)
  {
    hide Rewritten;
    forall i | 0 <= i < |ws|
      ensures PatchFor(rs[i], SlotOf(rs[i], slots), ws[i], after, rva)
    {
      assert PatchFor(rs[i], SlotOf(rs[i], slots), ws[i], before, rva);
      RewrittenGrows(rs[i], SlotOf(rs[i], slots), ws[i].data, before, after, rva);
    }
  }

  lemma PatchedCalls(image: seq<byte>, rs: seq<Repair>, slots: Slots, ws: seq<W.Write>, section: seq<byte>, rva: nat)
    requires ReportOk(image, rs) && AllSlotted(rs, slots) && |image| <= rva
    requires Patches(rs, slots, ws, section, rva) && |ws| == |rs| && W.Inside(ws, |image|)
    ensures EachCallsItsSlot(Program(W.Apply(image, ws), rva, section), rs, slots)
    ensures SitesRewritten(W.Apply(image, ws), rs, slots, section, rva)
  {
    hide Rewritten, CalledSlot, W.Apply;
    PatchesApart(image, rs, slots, ws, section, rva);
    var p := Program(W.Apply(image, ws), rva, section);
    forall i | 0 <= i < |rs|
      ensures CalledSlot(p, rs[i].site) == Some(SlotOf(rs[i], slots))
      ensures SiteRewritten(p.image, rs[i], SlotOf(rs[i], slots), section, rva)
    {
      assert PatchFor(rs[i], SlotOf(rs[i], slots), ws[i], section, rva);
      SiteShape(image, rs[i]);
      W.ApplyRead(image, ws, i);
      RewrittenCalls(p, rs[i], SlotOf(rs[i], slots), ws[i].data);
    }
  }

  lemma OutsideKeeps(image: seq<byte>, rs: seq<Repair>, slots: Slots, ws: seq<W.Write>, section: seq<byte>, rva: nat, x: nat)
    requires AllSlotted(rs, slots) && Patches(rs, slots, ws, section, rva) && W.Inside(ws, |image|)
    requires x < |image| && !InSite(rs, x)
    ensures W.Apply(image, ws)[x] == image[x]
  {
    hide Rewritten;
    forall i | 0 <= i < |ws|
      ensures !W.Covers(ws[i], x)
    {
      assert PatchFor(rs[i], SlotOf(rs[i], slots), ws[i], section, rva);
    }
    W.ApplyElsewhere(image, ws, x);
  }

  /** Applied in any other order, the same patches give the same image. */
  lemma PatchOrderIrrelevant(image: seq<byte>, rs: seq<Repair>, slots: Slots, ws: seq<W.Write>, section: seq<byte>, rva: nat,
      vs: seq<W.Write>)
    requires ReportOk(image, rs) && AllSlotted(rs, slots) && Patches(rs, slots, ws, section, rva)
    requires W.Inside(ws, |image|) && |vs| == |ws| && multiset(vs) == multiset(ws)
    ensures W.Inside(vs, |image|) && W.Apply(image, vs) == W.Apply(image, ws)
  {
    hide Rewritten, W.Apply;
    PatchesApart(image, rs, slots, ws, section, rva);
    forall i | 0 <= i < |ws|
      ensures ws[i].data != []
    {
      assert PatchFor(rs[i], SlotOf(rs[i], slots), ws[i], section, rva);
      SiteShape(image, rs[i]);
    }
    W.PermutedApart(ws, vs);
    forall w
      ensures w in ws <==> w in vs
    {
      assert w in ws <==> w in multiset(ws);
      assert w in vs <==> w in multiset(vs);
    }
    forall i | 0 <= i < |vs|
      ensures vs[i].End() <= |image|
    {
      assert vs[i] in ws;
    }
    W.OrderIrrelevant(image, ws, vs);
  }
}
