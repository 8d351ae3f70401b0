/** Which symbols to import: one group per module, sorted by name, and the room they take. */
module ImportGroups {
  import opened PeImports
  import opened ImportLayout
  import P = ImportPatches

  // ----- Groups -----

  ghost predicate DistinctDlls(groups: seq<Group>) {
    forall i, j :: 0 <= i < j < |groups| ==> groups[i].dll != groups[j].dll
  }

  ghost predicate Needs(groups: seq<Group>, dll: Str, s: Symbol) {
    exists i :: 0 <= i < |groups| && groups[i].dll == dll && s in groups[i].symbols
  }

  function SymbolOf(r: P.Repair): Symbol { Symbol(r.name, r.target) }

  ghost predicate NoRepeats(symbols: seq<Symbol>) {
    forall a, b :: 0 <= a < b < |symbols| ==> symbols[a] != symbols[b]
  }

  /** The groups hold exactly the symbols of the repairs, each once. */
  ghost predicate GroupsFor(rs: seq<P.Repair>, groups: seq<Group>) {
    && DistinctDlls(groups)
    && (forall i :: 0 <= i < |groups| ==> groups[i].symbols != [] && NoRepeats(groups[i].symbols))
    && (forall i :: 0 <= i < |rs| ==> Needs(groups, rs[i].dll, SymbolOf(rs[i])))
    && (forall i, k :: 0 <= i < |groups| && 0 <= k < |groups[i].symbols| ==> Wanted(rs, groups[i].dll, groups[i].symbols[k]))
  }

  ghost predicate Wanted(rs: seq<P.Repair>, dll: Str, s: Symbol) {
    exists i :: 0 <= i < |rs| && rs[i].dll == dll && SymbolOf(rs[i]) == s
  }

  // ----- Names that can be written -----

  predicate AsciiNames(symbols: seq<Symbol>) {
    forall k :: 0 <= k < |symbols| ==> Ascii(symbols[k].name)
  }

  predicate AsciiGroup(g: Group) { Ascii(g.dll) && AsciiNames(g.symbols) }

  ghost predicate AsciiGroups(groups: seq<Group>) {
    forall i :: 0 <= i < |groups| ==> AsciiGroup(groups[i])
  }

  ghost predicate AsciiRepairs(rs: seq<P.Repair>) {
    forall i :: 0 <= i < |rs| ==> Ascii(rs[i].dll) && Ascii(rs[i].name)
  }

  /** The groups can be written exactly when the repairs' modules and names can. */
  lemma AsciiIff(rs: seq<P.Repair>, groups: seq<Group>)
    requires GroupsFor(rs, groups)
    ensures AsciiGroups(groups) <==> AsciiRepairs(rs)
  {
    hide Ascii;
    if AsciiGroups(groups) {
      forall i | 0 <= i < |rs|
        ensures Ascii(rs[i].dll) && Ascii(rs[i].name)
      {
        assert Needs(groups, rs[i].dll, SymbolOf(rs[i]));
        var j :| 0 <= j < |groups| && groups[j].dll == rs[i].dll && SymbolOf(rs[i]) in groups[j].symbols;
        assert AsciiGroup(groups[j]);
      }
    }
    if AsciiRepairs(rs) {
      forall i | 0 <= i < |groups|
        ensures AsciiGroup(groups[i])
      {
        forall k | 0 <= k < |groups[i].symbols|
          ensures Ascii(groups[i].dll) && Ascii(groups[i].symbols[k].name)
        {
          assert Wanted(rs, groups[i].dll, groups[i].symbols[k]);
        }
        assert Ascii(groups[i].symbols[0].name);
      }
    }
  }

  // ----- Order of appearance -----

  /** `s` was asked for before `t`. */
  ghost predicate Earlier(rs: seq<P.Repair>, dll: Str, s: Symbol, t: Symbol) {
    exists i: nat :: i <= |rs| && Wanted(rs[..i], dll, s) && !Wanted(rs[..i], dll, t)
  }

  /** The symbols of every group stand in the order in which the repairs first ask for them. */
  ghost predicate InOrder(rs: seq<P.Repair>, groups: seq<Group>) {
    forall g, a, b :: 0 <= g < |groups| && 0 <= a < b < |groups[g].symbols| ==>
      Earlier(rs, groups[g].dll, groups[g].symbols[a], groups[g].symbols[b])
  }

  lemma OrderKept(rs: seq<P.Repair>, groups: seq<Group>, r: P.Repair)
    requires InOrder(rs, groups)
    ensures InOrder(rs + [r], groups)
  {
    hide Wanted;
    forall g, a, b | 0 <= g < |groups| && 0 <= a < b < |groups[g].symbols|
      ensures Earlier(rs + [r], groups[g].dll, groups[g].symbols[a], groups[g].symbols[b])
    {
      var i: nat :| i <= |rs| && Wanted(rs[..i], groups[g].dll, groups[g].symbols[a])
                    && !Wanted(rs[..i], groups[g].dll, groups[g].symbols[b]);
      assert (rs + [r])[..i] == rs[..i];
    }
  }

  lemma OrderNew(rs: seq<P.Repair>, groups: seq<Group>, g: Group)
    requires InOrder(rs, groups) && |g.symbols| == 1
    ensures InOrder(rs, groups + [g])
  {
    hide Earlier;
  }

  lemma OrderAppend(done: seq<P.Repair>, groups: seq<Group>, r: P.Repair, i: nat)
    requires GroupsFor(done, groups) && InOrder(done + [r], groups)
    requires i < |groups| && groups[i].dll == r.dll && SymbolOf(r) !in groups[i].symbols
    ensures InOrder(done + [r], groups[i := Group(r.dll, groups[i].symbols + [SymbolOf(r)])])
  {
    var s := SymbolOf(r);
    var out := groups[i := Group(r.dll, groups[i].symbols + [s])];
    assert !Wanted(done, r.dll, s) by { Unwanted(done, groups, r.dll, s, i); }
    forall g, a, b | 0 <= g < |out| && 0 <= a < b < |out[g].symbols|
      ensures Earlier(done + [r], out[g].dll, out[g].symbols[a], out[g].symbols[b])
    {
      if g == i && b == |groups[i].symbols| {
        assert Wanted(done, r.dll, groups[i].symbols[a]);
        assert (done + [r])[..|done|] == done;
      }
    }
  }

  lemma Unwanted(rs: seq<P.Repair>, groups: seq<Group>, dll: Str, s: Symbol, i: nat)
    requires GroupsFor(rs, groups) && i < |groups| && groups[i].dll == dll && s !in groups[i].symbols
    ensures !Wanted(rs, dll, s)
  {
    assert !Needs(groups, dll, s);
  }

  /** Sorting the groups leaves each group as it is. */
  lemma OrderSorted(rs: seq<P.Repair>, groups: seq<Group>, out: seq<Group>)
    requires InOrder(rs, groups) && SameGroups(out, groups)
    ensures InOrder(rs, out)
  {
    hide Earlier;
    forall g | 0 <= g < |out|
      ensures exists h :: 0 <= h < |groups| && groups[h] == out[g]
    {
      assert out[g] in groups;
    }
  }

  // ----- Room -----

  /** At most the bytes the hints and names of the symbols take, padding included. */
  function NamesSize(symbols: seq<Symbol>): nat {
    if symbols == [] then 0 else NamesSize(symbols[..|symbols| - 1]) + |symbols[|symbols| - 1].name| + 4
  }

  function TableRoom(g: Group): nat { 7 + 8 * (|g.symbols| + 1) }

  function GroupRoom(g: Group): nat { |g.dll| + 1 + NamesSize(g.symbols) + TableRoom(g) }

  function TablesSize(groups: seq<Group>): nat {
    if groups == [] then 0 else TablesSize(groups[..|groups| - 1]) + GroupRoom(groups[|groups| - 1])
  }

  function IatsSize(groups: seq<Group>): nat {
    if groups == [] then 0 else IatsSize(groups[..|groups| - 1]) + TableRoom(groups[|groups| - 1])
  }

  /** A bound on the section before any thunk. */
  function SectionSize(retained: nat, groups: seq<Group>): nat {
    20 * (retained + |groups| + 1) + TablesSize(groups) + IatsSize(groups)
  }

  lemma {:induction false} NamesMonotone(symbols: seq<Symbol>, i: nat)
    requires i <= |symbols|
    ensures NamesSize(symbols[..i]) <= NamesSize(symbols)
    decreases |symbols|
  {
    if i == |symbols| {
      assert symbols[..i] == symbols;
    } else {
      NamesMonotone(symbols[..|symbols| - 1], i);
      assert symbols[..|symbols| - 1][..i] == symbols[..i];
    }
  }

  lemma {:induction false} SizesMonotone(groups: seq<Group>, i: nat)
    requires i <= |groups|
    ensures TablesSize(groups[..i]) <= TablesSize(groups) && IatsSize(groups[..i]) <= IatsSize(groups)
    decreases |groups|
  {
    hide GroupRoom, TableRoom;
    if i == |groups| {
      assert groups[..i] == groups;
    } else {
      SizesMonotone(groups[..|groups| - 1], i);
      assert groups[..|groups| - 1][..i] == groups[..i];
    }
  }

  // ----- Room for the repairs -----

  function GroupSize(g: Group): nat { 20 + GroupRoom(g) + TableRoom(g) }

  function Room(groups: seq<Group>): nat {
    if groups == [] then 0 else Room(groups[..|groups| - 1]) + GroupSize(groups[|groups| - 1])
  }

  function RepairRoom(r: P.Repair): nat { |r.dll| + |r.name| + 71 }

  function RepairsRoom(rs: seq<P.Repair>): nat {
    if rs == [] then 0 else RepairsRoom(rs[..|rs| - 1]) + RepairRoom(rs[|rs| - 1])
  }

  lemma {:induction false} RoomIs(groups: seq<Group>)
    ensures Room(groups) == 20 * |groups| + TablesSize(groups) + IatsSize(groups)
  {
    if groups != [] {
      RoomIs(groups[..|groups| - 1]);
    }
  }

  lemma {:induction false} RoomSplit(a: seq<Group>, b: seq<Group>)
    ensures Room(a + b) == Room(a) + Room(b)
    decreases |b|
  {
    hide GroupSize;
    if b == [] {
      assert a + b == a;
    } else {
      var n := |b| - 1;
      RoomSplit(a, b[..n]);
      assert (a + b)[..|a| + n] == a + b[..n];
    }
  }

  lemma RoomOne(r: P.Repair)
    ensures Room([Group(r.dll, [SymbolOf(r)])]) == RepairRoom(r)
  {
    var s, g := SymbolOf(r), Group(r.dll, [SymbolOf(r)]);
    assert [s][..0] == [] && [g][..0] == [];
    assert NamesSize([s]) == |r.name| + 4;
  }

  lemma RoomSymbol(groups: seq<Group>, i: nat, r: P.Repair)
    requires i < |groups| && groups[i].dll == r.dll
    ensures Room(groups[i := Group(r.dll, groups[i].symbols + [SymbolOf(r)])]) <= Room(groups) + RepairRoom(r)
  {
    hide Room;
    var g, h := groups[i], Group(r.dll, groups[i].symbols + [SymbolOf(r)]);
    assert h.symbols[..|g.symbols|] == g.symbols;
    RoomUpdate(groups, i, h);
  }

  lemma RoomUpdate(groups: seq<Group>, i: nat, h: Group)
    requires i < |groups|
    ensures Room(groups[i := h]) + GroupSize(groups[i]) == Room(groups) + GroupSize(h)
  {
    hide GroupSize;
    var a, b, g := groups[..i], groups[i + 1..], groups[i];
    assert groups == (a + [g]) + b && groups[i := h] == (a + [h]) + b;
    assert (a + [g])[..i] == a && (a + [h])[..i] == a;
    RoomSplit(a + [g], b);
    RoomSplit(a + [h], b);
  }

  // ----- Sorting by module name -----

  /** Byte-wise lexicographic order. */
  predicate Below(a: Str, b: Str) {
    b != [] && (a == [] || a[0] < b[0] || (a[0] == b[0] && Below(a[1..], b[1..])))
  }

  ghost predicate SortedDlls(groups: seq<Group>) {
    forall i, j :: 0 <= i < j < |groups| ==> Below(groups[i].dll, groups[j].dll)
  }

  lemma {:induction false} BelowTotal(a: Str, b: Str)
    ensures (if a == b then 1 else 0) + (if Below(a, b) then 1 else 0) + (if Below(b, a) then 1 else 0) == 1
  {
    if a != [] && b != [] && a[0] == b[0] {
      BelowTotal(a[1..], b[1..]);
      assert a == [a[0]] + a[1..] && b == [b[0]] + b[1..];
    }
  }

  lemma {:induction false} BelowTransitive(a: Str, b: Str, c: Str)
    requires Below(a, b) && Below(b, c)
    ensures Below(a, c)
  {
    if a != [] && a[0] == b[0] && b[0] == c[0] {
      BelowTransitive(a[1..], b[1..], c[1..]);
    }
  }

  ghost predicate SameGroups(a: seq<Group>, b: seq<Group>) {
    (forall i :: 0 <= i < |a| ==> a[i] in b) && (forall i :: 0 <= i < |b| ==> b[i] in a)
  }

  method SortGroups(ghost rs: seq<P.Repair>, groups: seq<Group>) returns (out: seq<Group>)
    requires GroupsFor(rs, groups) && InOrder(rs, groups)
    ensures GroupsFor(rs, out) && SortedDlls(out) && InOrder(rs, out) && Room(out) == Room(groups)
  {
    hide GroupSize, Below, SortedDlls, GroupsFor, InOrder;
    out := [];
    Distinct(rs, groups);
    SortedNone();
    for i := 0 to |groups|
      invariant SortedDlls(out) && SameGroups(out, groups[..i]) && Room(out) == Room(groups[..i])
    {
      assert groups[..i + 1] == groups[..i] + [groups[i]] && groups[..i + 1][..i] == groups[..i];
      out := InsertGroup(out, groups[i], groups[..i]);
    }
    assert groups[..|groups|] == groups;
    Reordered(rs, groups, out);
    OrderSorted(rs, groups, out);
  }

  lemma SortedNone()
    ensures SortedDlls([])
  {
  }

  lemma Distinct(rs: seq<P.Repair>, groups: seq<Group>)
    requires GroupsFor(rs, groups)
    ensures DistinctDlls(groups)
  {
  }

  method InsertGroup(out: seq<Group>, g: Group, ghost done: seq<Group>) returns (r: seq<Group>)
    requires SortedDlls(out) && SameGroups(out, done) && forall i :: 0 <= i < |done| ==> done[i].dll != g.dll
    ensures SortedDlls(r) && SameGroups(r, done + [g]) && Room(r) == Room(out) + GroupSize(g)
  {
    hide Below, GroupSize, Room;
    var at := 0;
    while at < |out| && Below(out[at].dll, g.dll)
      invariant at <= |out| && forall k :: 0 <= k < at ==> Below(out[k].dll, g.dll)
    {
      at := at + 1;
    }
    assert forall k :: 0 <= k < |out| ==> out[k] in done && out[k].dll != g.dll;
    r := out[..at] + [g] + out[at..];
    InsertedSorted(out, at, g);
    InsertedSame(out, at, g, done);
    InsertedRoom(out, at, g);
  }

  lemma InsertedRoom(out: seq<Group>, at: nat, g: Group)
    requires at <= |out|
    ensures Room(out[..at] + [g] + out[at..]) == Room(out) + GroupSize(g)
  {
    hide GroupSize;
    assert out == out[..at] + out[at..] && (out[..at] + [g])[..at] == out[..at];
    RoomSplit(out[..at] + [g], out[at..]);
    RoomSplit(out[..at], out[at..]);
  }

  lemma InsertedSame(out: seq<Group>, at: nat, g: Group, done: seq<Group>)
    requires at <= |out| && SameGroups(out, done)
    ensures SameGroups(out[..at] + [g] + out[at..], done + [g])
  {
    var r := out[..at] + [g] + out[at..];
    assert r[at] == g;
    assert forall k :: 0 <= k < |out| ==> out[k] == r[if k < at then k else k + 1];
    assert forall k :: 0 <= k < |done| ==> done[k] in out;
  }

  lemma InsertedSorted(out: seq<Group>, at: nat, g: Group)
    requires SortedDlls(out) && at <= |out| && forall k :: 0 <= k < |out| ==> out[k].dll != g.dll
    requires (forall k :: 0 <= k < at ==> Below(out[k].dll, g.dll)) && (at < |out| ==> !Below(out[at].dll, g.dll))
    ensures SortedDlls(out[..at] + [g] + out[at..])
  {
    hide Below;
    forall k | at <= k < |out|
      ensures Below(g.dll, out[k].dll)
    {
      BelowTotal(g.dll, out[at].dll);
      if at < k {
        BelowTransitive(g.dll, out[at].dll, out[k].dll);
      }
    }
    var r := out[..at] + [g] + out[at..];
    forall i, j | 0 <= i < j < |r|
      ensures Below(r[i].dll, r[j].dll)
    {
      assert i != at ==> r[i] == out[if i < at then i else i - 1];
      assert j != at ==> r[j] == out[if j < at then j else j - 1];
    }
  }

  /** What the groups are for does not depend on their order. */
  lemma Reordered(rs: seq<P.Repair>, groups: seq<Group>, out: seq<Group>)
    requires GroupsFor(rs, groups) && SameGroups(out, groups) && SortedDlls(out)
    ensures GroupsFor(rs, out)
  {
    hide Below, Wanted, NoRepeats;
    forall i, j | 0 <= i < j < |out|
      ensures out[i].dll != out[j].dll
    {
      BelowTotal(out[i].dll, out[j].dll);
    }
    forall i | 0 <= i < |rs|
      ensures Needs(out, rs[i].dll, SymbolOf(rs[i]))
    {
      assert Needs(groups, rs[i].dll, SymbolOf(rs[i]));
      var k :| 0 <= k < |groups| && groups[k].dll == rs[i].dll && SymbolOf(rs[i]) in groups[k].symbols;
      assert groups[k] in out;
    }
    forall i | 0 <= i < |out|
      ensures out[i].symbols != [] && NoRepeats(out[i].symbols)
      ensures forall k :: 0 <= k < |out[i].symbols| ==> Wanted(rs, out[i].dll, out[i].symbols[k])
    {
      assert out[i] in groups;
      var j :| 0 <= j < |groups| && groups[j] == out[i];
    }
  }

  // ----- Collecting -----

  /** One group per module in order of appearance, then sorted by module name. */
  method BuildGroups(rs: seq<P.Repair>) returns (groups: seq<Group>)
    ensures GroupsFor(rs, groups) && SortedDlls(groups) && InOrder(rs, groups) && Room(groups) <= RepairsRoom(rs)
  {
    hide GroupsFor, SortedDlls, GroupSize, InOrder;
    groups := [];
    NoGroups();
    assert rs[..0] == [];
    for i := 0 to |rs|
      invariant GroupsFor(rs[..i], groups) && InOrder(rs[..i], groups) && Room(groups) <= RepairsRoom(rs[..i])
    {
      assert rs[..i + 1] == rs[..i] + [rs[i]];
      groups := AddSymbol(rs[..i], groups, rs[i]);
    }
    assert rs[..|rs|] == rs;
    groups := SortGroups(rs, groups);
  }

  lemma NoGroups()
    ensures GroupsFor([], []) && InOrder([], [])
  {
  }

  method AddSymbol(ghost done: seq<P.Repair>, groups: seq<Group>, r: P.Repair) returns (out: seq<Group>)
    requires GroupsFor(done, groups) && InOrder(done, groups)
    ensures GroupsFor(done + [r], out) && InOrder(done + [r], out) && Room(out) <= Room(groups) + RepairRoom(r)
  {
    hide GroupsFor, Room, GroupSize, InOrder;
    OrderKept(done, groups, r);
    var i := FindGroup(groups, r.dll);
    var s := SymbolOf(r);
    if i == |groups| {
      NewGroup(done, groups, r);
      OrderNew(done + [r], groups, Group(r.dll, [s]));
      RoomSplit(groups, [Group(r.dll, [s])]);
      RoomOne(r);
      return groups + [Group(r.dll, [s])];
    }
    if s in groups[i].symbols {
      KnownSymbol(done, groups, r, i);
      return groups;
    }
    NewSymbol(done, groups, r, i);
    OrderAppend(done, groups, r, i);
    RoomSymbol(groups, i, r);
    return groups[i := Group(r.dll, groups[i].symbols + [s])];
  }

  method FindGroup(groups: seq<Group>, dll: Str) returns (i: nat)
    ensures i <= |groups| && (i < |groups| ==> groups[i].dll == dll)
    ensures i == |groups| ==> forall k :: 0 <= k < |groups| ==> groups[k].dll != dll
  {
    i := 0;
    while i < |groups|
      invariant i <= |groups| && forall k :: 0 <= k < i ==> groups[k].dll != dll
    {
      if groups[i].dll == dll {
        return;
      }
      i := i + 1;
    }
  }

  lemma WantedMore(done: seq<P.Repair>, r: P.Repair, dll: Str, s: Symbol)
    ensures Wanted(done, dll, s) ==> Wanted(done + [r], dll, s)
    ensures Wanted(done + [r], r.dll, SymbolOf(r))
  {
    var more := done + [r];
    assert more[|done|] == r;
    if Wanted(done, dll, s) {
      var i :| 0 <= i < |done| && done[i].dll == dll && SymbolOf(done[i]) == s;
      assert more[i] == done[i];
    }
  }

  lemma NewGroup(done: seq<P.Repair>, groups: seq<Group>, r: P.Repair)
    requires GroupsFor(done, groups) && forall k :: 0 <= k < |groups| ==> groups[k].dll != r.dll
    ensures GroupsFor(done + [r], groups + [Group(r.dll, [SymbolOf(r)])])
  {
    hide Wanted;
    var out := groups + [Group(r.dll, [SymbolOf(r)])];
    var more := done + [r];
    forall i | 0 <= i < |more|
      ensures Needs(out, more[i].dll, SymbolOf(more[i]))
    {
      if i < |done| {
        assert Needs(groups, done[i].dll, SymbolOf(done[i]));
        var k :| 0 <= k < |groups| && groups[k].dll == done[i].dll && SymbolOf(done[i]) in groups[k].symbols;
        assert out[k] == groups[k];
      } else {
        assert out[|groups|].dll == r.dll;
      }
    }
    forall i, k | 0 <= i < |out| && 0 <= k < |out[i].symbols|
      ensures Wanted(more, out[i].dll, out[i].symbols[k])
    {
      WantedMore(done, r, out[i].dll, out[i].symbols[k]);
    }
  }

  lemma KnownSymbol(done: seq<P.Repair>, groups: seq<Group>, r: P.Repair, i: nat)
    requires GroupsFor(done, groups) && i < |groups| && groups[i].dll == r.dll && SymbolOf(r) in groups[i].symbols
    ensures GroupsFor(done + [r], groups)
  {
    hide Wanted;
    forall i, k | 0 <= i < |groups| && 0 <= k < |groups[i].symbols|
      ensures Wanted(done + [r], groups[i].dll, groups[i].symbols[k])
    {
      WantedMore(done, r, groups[i].dll, groups[i].symbols[k]);
    }
  }

  lemma NewSymbol(done: seq<P.Repair>, groups: seq<Group>, r: P.Repair, i: nat)
    requires GroupsFor(done, groups) && i < |groups| && groups[i].dll == r.dll && SymbolOf(r) !in groups[i].symbols
    ensures GroupsFor(done + [r], groups[i := Group(r.dll, groups[i].symbols + [SymbolOf(r)])])
  {
    hide Wanted;
    var s := SymbolOf(r);
    var out := groups[i := Group(r.dll, groups[i].symbols + [s])];
    var more := done + [r];
    forall j | 0 <= j < |more|
      ensures Needs(out, more[j].dll, SymbolOf(more[j]))
    {
      if j < |done| {
        assert Needs(groups, done[j].dll, SymbolOf(done[j]));
        var k :| 0 <= k < |groups| && groups[k].dll == done[j].dll && SymbolOf(done[j]) in groups[k].symbols;
        assert out[k].dll == done[j].dll && SymbolOf(done[j]) in out[k].symbols;
      } else {
        assert out[i].symbols[|groups[i].symbols|] == s;
      }
    }
    forall j, k | 0 <= j < |out| && 0 <= k < |out[j].symbols|
      ensures Wanted(more, out[j].dll, out[j].symbols[k])
    {
      WantedMore(done, r, out[j].dll, out[j].symbols[k]);
    }
  }
}
