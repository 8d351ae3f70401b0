/** What the report of rebuild lists, and an image on which it leaves out an import. */
module ImportRecord {
  import opened Machine
  import opened GuestMemory
  import opened PeImports
  import opened SectionPayload
  import opened PeFile
  import opened PeReading
  import opened PeWrite
  import opened ImportRebuild
  import L = ImportLayout
  import B = ImportBuild
  import G = ImportGroups
  import P = ImportPatches

  // ----- One target per name -----

  /** No two repairs name one export of a module at two addresses. */
  ghost predicate OneTarget(rs: seq<P.Repair>) {
    forall i, j :: 0 <= i < |rs| && 0 <= j < |rs| && rs[i].dll == rs[j].dll && rs[i].name == rs[j].name ==>
      rs[i].target == rs[j].target
  }

  /** Every slot of the new section is in the report. */
  ghost predicate EverySlotListed(r: Rebuilt)
    requires |r.placed| == |r.groups|
  {
    forall i, k :: 0 <= i < |r.groups| && 0 <= k < |r.groups[i].symbols| ==> InReport(r, i, k)
  }

  ghost predicate InReport(r: Rebuilt, i: nat, k: nat) {
    i < |r.placed| && r.placed[i].iat + k * 8 in r.slots.Values
  }

  lemma TwoTargets(rs: seq<P.Repair>, groups: seq<L.Group>, i: nat, j: nat)
    requires G.GroupsFor(rs, groups) && i < |rs| && j < |rs|
    requires rs[i].dll == rs[j].dll && rs[i].name == rs[j].name && rs[i].target != rs[j].target
    ensures exists g :: 0 <= g < |groups| && !B.NamesDistinct(groups[g])
  {
    hide G.Wanted, G.NoRepeats;
    var a, b := G.SymbolOf(rs[i]), G.SymbolOf(rs[j]);
    assert G.Needs(groups, rs[i].dll, a) && G.Needs(groups, rs[j].dll, b);
    var g :| 0 <= g < |groups| && groups[g].dll == rs[i].dll && a in groups[g].symbols;
    var h :| 0 <= h < |groups| && groups[h].dll == rs[j].dll && b in groups[h].symbols;
    assert g == h;
    var k :| 0 <= k < |groups[g].symbols| && groups[g].symbols[k] == a;
    var l :| 0 <= l < |groups[g].symbols| && groups[g].symbols[l] == b;
    assert groups[g].symbols[k].name == groups[g].symbols[l].name;
  }

  lemma SameNames(rs: seq<P.Repair>, groups: seq<L.Group>, g: nat, k: nat, l: nat)
    requires G.GroupsFor(rs, groups) && g < |groups| && k < l < |groups[g].symbols|
    requires groups[g].symbols[k].name == groups[g].symbols[l].name
    ensures !OneTarget(rs)
  {
    hide G.Needs;
    var dll, a, b := groups[g].dll, groups[g].symbols[k], groups[g].symbols[l];
    assert G.Wanted(rs, dll, a) && G.Wanted(rs, dll, b) && a != b;
    var i :| 0 <= i < |rs| && rs[i].dll == dll && G.SymbolOf(rs[i]) == a;
    var j :| 0 <= j < |rs| && rs[j].dll == dll && G.SymbolOf(rs[j]) == b;
    assert rs[i].target != rs[j].target;
  }

  lemma NamesIff(rs: seq<P.Repair>, groups: seq<L.Group>)
    requires G.GroupsFor(rs, groups)
    ensures OneTarget(rs) <==> forall g :: 0 <= g < |groups| ==> B.NamesDistinct(groups[g])
  {
    hide G.GroupsFor;
    if OneTarget(rs) {
      forall g, k, l | 0 <= g < |groups| && 0 <= k < l < |groups[g].symbols|
        ensures groups[g].symbols[k].name != groups[g].symbols[l].name
      {
        if groups[g].symbols[k].name == groups[g].symbols[l].name {
          SameNames(rs, groups, g, k, l);
        }
      }
    } else {
      var i, j :| 0 <= i < |rs| && 0 <= j < |rs| && rs[i].dll == rs[j].dll && rs[i].name == rs[j].name
                  && rs[i].target != rs[j].target;
      TwoTargets(rs, groups, i, j);
    }
  }

  lemma OneSlot(groups: seq<L.Group>, placed: seq<L.Placed>, i: nat, k: nat, j: nat, l: nat)
    requires TablesApart(groups, placed)
    requires i < |groups| && k < |groups[i].symbols| && j < |groups| && l < |groups[j].symbols|
    requires placed[i].iat + k * 8 == placed[j].iat + l * 8
    ensures i == j && k == l
  {
    var endI, endJ := L.IatEnd(placed[i]), L.IatEnd(placed[j]);
  }

  /** A slot appears in the report only under its own module and name. */
  lemma SlotListed(rs: seq<P.Repair>, r: Rebuilt, i: nat, k: nat)
    requires Consistent(rs, r) && i < |r.groups| && k < |r.groups[i].symbols|
    ensures var key := (r.groups[i].dll, r.groups[i].symbols[k].name);
            key in r.slots && (InReport(r, i, k) <==> r.slots[key] == r.placed[i].iat + k * 8)
  {
    hide G.GroupsFor, TablesApart, G.InOrder, G.SortedDlls, P.AllSlotted;
    var key, slot := (r.groups[i].dll, r.groups[i].symbols[k].name), r.placed[i].iat + k * 8;
    if slot in r.slots.Values {
      var other :| other in r.slots && r.slots[other] == slot;
      assert B.SlotTrue(other, slot, r.groups, r.placed, |r.groups|);
      var j, l :| 0 <= j < |r.groups| && 0 <= l < |r.groups[j].symbols| && B.SlotAt(other, slot, r.groups[j], r.placed[j].iat, l);
      OneSlot(r.groups, r.placed, i, k, j, l);
    }
  }

  /** The report lists every slot of the new section exactly when no two repairs name one export
      of a module at two addresses. */
  lemma ReportListsIff(rs: seq<P.Repair>, r: Rebuilt)
    requires Consistent(rs, r)
    ensures EverySlotListed(r) <==> OneTarget(rs)
    ensures B.AllRecorded(r.slots, r.groups, r.placed) <==> OneTarget(rs)
  {
    hide OneTarget, B.NamesDistinct, B.SlotsTrue, TablesApart, P.AllSlotted, InReport;
    NamesIff(rs, r.groups);
    B.RecordedIff(r.slots, r.groups, r.placed);
    forall i, k | 0 <= i < |r.groups| && 0 <= k < |r.groups[i].symbols|
      ensures var key := (r.groups[i].dll, r.groups[i].symbols[k].name);
              key in r.slots && (InReport(r, i, k) <==> r.slots[key] == r.placed[i].iat + k * 8)
    {
      SlotListed(rs, r, i, k);
    }
  }

  // ----- Two exports of one name -----

  const DLL: Str := [0x61]
  const NAME: Str := [0x66]

  /** Two calls in the code section, to two exports of one name. */
  const TWICE: seq<P.Repair> := [
    P.Repair(0x1000, 6, DLL, NAME, 0x7000, Zeros(6)), P.Repair(0x1006, 6, DLL, NAME, 0x8000, Zeros(6))]

  /** Headers with one section at 0x1000; everything else is zero. */
  function SampleByte(i: nat): byte {
    if i == 0 then 0x4D else if i == 1 then 0x5A
    else if i == 0x3C then 0x40
    else if i == 0x40 then 0x50 else if i == 0x41 then 0x45
    else if i == 0x44 then 0x64 else if i == 0x45 then 0x86
    else if i == 0x46 then 1
    else if i == 0x54 then 240
    else if i == 0x58 then 0x0B else if i == 0x59 then 0x02
    else if i == 0x79 then 0x10
    else if i == 0x7D then 0x02
    else if i == 0x91 then 0x20
    else if i == 0x151 then 0x10
    else if i == 0x155 then 0x10
    else 0
  }

  function Sample(): (r: seq<byte>)
    ensures |r| == 0x2000 && forall i :: 0 <= i < 0x2000 ==> r[i] == SampleByte(i)
  {
    seq(0x2000, i requires 0 <= i => SampleByte(i))
  }

  lemma SampleHeader()
    ensures HeaderOk(Sample())
    ensures var h := HeaderOf(Sample());
            && h.pe == 0x40 && h.table == 0x148 && h.imageSize == 0x2000
            && h.sectionAlignment == 0x1000 && h.fileAlignment == 0x200
            && h.sections == [Section(0x1000, 0x1000, 0, 0, 0x148)]
            && forall i :: 0 <= i < 16 ==> h.directories[i] == Directory(0, 0)
  {
    hide Num, SampleByte;
    var d := Sample();
    SampleFields(d);
    assert d[..2] == [0x4D, 0x5A];
    assert d[0x40..0x44] == [0x50, 0x45, 0, 0];
    var h := HeaderOf(d);
    forall i | 0 <= i < 16
      ensures h.directories[i] == Directory(0, 0)
    {
      SampleDirectory(d, 0xC8 + 8 * i);
    }
    assert h.sections == [SectionAt(d, 0x148)];
  }

  lemma SampleDirectory(d: seq<byte>, off: nat)
    requires d == Sample() && 0xC8 <= off && off + 8 <= 0x148
    ensures DirectoryAt(d, off) == Directory(0, 0)
  {
    hide Num;
    Num4(d, off);
    Num4(d, off + 4);
  }

  lemma SampleFields(d: seq<byte>)
    requires d == Sample()
    ensures d[0] == 0x4D && d[1] == 0x5A && d[0x40] == 0x50 && d[0x41] == 0x45 && d[0x42] == 0 && d[0x43] == 0
    ensures Num(d, 0x3C, 4) == 0x40 && Num(d, 0x44, 2) == 0x8664 && Num(d, 0x46, 2) == 1 && Num(d, 0x54, 2) == 240
    ensures Num(d, 0x58, 2) == 0x20B && Num(d, 0x78, 4) == 0x1000 && Num(d, 0x7C, 4) == 0x200 && Num(d, 0x90, 4) == 0x2000
    ensures Num(d, 0x150, 4) == 0x1000 && Num(d, 0x154, 4) == 0x1000 && Num(d, 0x158, 4) == 0 && Num(d, 0x15C, 4) == 0
  {
    hide Num;
    Num4(d, 0x3C);
    Num2(d, 0x44);
    Num2(d, 0x46);
    Num2(d, 0x54);
    Num2(d, 0x58);
    Num4(d, 0x78);
    Num4(d, 0x7C);
    Num4(d, 0x90);
    Num4(d, 0x150);
    Num4(d, 0x154);
    Num4(d, 0x158);
    Num4(d, 0x15C);
  }

  lemma Powers()
    ensures IsPowerOfTwo(0x200) && IsPowerOfTwo(0x1000)
  {
    assert IsPowerOfTwo(4);
    assert IsPowerOfTwo(16);
    assert IsPowerOfTwo(64);
    assert IsPowerOfTwo(256);
    assert IsPowerOfTwo(1024);
  }

  /** The two repairs fit every image that holds their bytes behind the headers. */
  lemma TwiceReport(image: seq<byte>)
    requires 0x100C <= |image| && forall x :: 0x1000 <= x < 0x100C ==> image[x] == 0
    ensures P.ReportOk(image, TWICE)
  {
    assert image[0x1000..0x1006] == Zeros(6) && image[0x1006..0x100C] == Zeros(6);
  }

  lemma TwiceRoom()
    ensures SectionRoom(0, TWICE) == 202
  {
    hide G.RepairRoom;
    assert TWICE[..1] == [TWICE[0]] && TWICE[..1][..0] == [];
    assert G.RepairsRoom(TWICE[..1]) == G.RepairRoom(TWICE[0]);
    RepairRoomIs(TWICE[0]);
    RepairRoomIs(TWICE[1]);
  }

  lemma RepairRoomIs(r: P.Repair)
    ensures G.RepairRoom(r) == |r.dll| + |r.name| + 71
  {
  }

  lemma AlignToIs(value: nat, a: nat, c: nat)
    requires 0 < a && c % a == 0 && value <= c < value + a
    ensures AlignTo(value, a) == c
  {
    hide AlignTo;
    AlignToMultiple(value, a);
    AlignToLeast(value, a, c);
    if AlignTo(value, a) < c {
      MultiplesApart(AlignTo(value, a), c, a);
    }
  }

  /** The sample image with these repairs meets everything rebuild asks for. */
  lemma TwiceAccepted(digest: Digest)
    ensures var image := Sample();
            && P.ReportOk(image, TWICE) && HeadersApart(image, TWICE) && B.RepairsOk(TWICE)
            && Acceptable(image, digest, digest(image)) && Fitting(image, TWICE, 0x1000, 0x1_4000_0000)
            && Ordinary(HeaderOf(image))
  {
    hide HeaderOk, HeaderOf, IsPowerOfTwo, AlignTo, P.ReportOk, G.RepairsRoom;
    var image := Sample();
    SampleHeader();
    TwiceReport(image);
    Powers();
    TwiceRoom();
    SixteenDirectories(image);
    var h := HeaderOf(image);
    AlignToIs(0x198, 0x200, 0x200);
    AlignToIs(0x1000, 0x200, 0x1000);
    AlignToIs(0x2000, 0x1000, 0x2000);
    AlignToIs(202, 0x200, 0x200);
    AlignToIs(0x2000 + 202, 0x1000, 0x3000);
    assert HeadersSize(h) == 0x200 && BodySize(h, 1) == 0x1000;
    assert SectionPlaceable(image, h, h.sections[0]);
  }

  /** Every rebuild of them has a slot that the report leaves out. */
  lemma UnrecordedSlot(r: Rebuilt)
    requires Consistent(TWICE, r)
    ensures !EverySlotListed(r) && !B.AllRecorded(r.slots, r.groups, r.placed)
  {
    assert TWICE[0].target != TWICE[1].target;
    ReportListsIff(TWICE, r);
  }

  method RebuildTwice(digest: Digest) returns (r: Rebuilt)
    ensures Consistent(TWICE, r) && !EverySlotListed(r)
  {
    hide Acceptable, Fitting, P.ReportOk, EverySlotListed, Consistent, IatCovers, Written, Rereadable, Mappable, OutputCalls;
    hide B.RepairsOk, HeadersApart, Ordinary, HeaderOf, HeaderOk, Imports, ImportsFromFile, P.EachCallsItsSlot, Confined;
    TwiceAccepted(digest);
    var rebuilt := Rebuild(Sample(), TWICE, digest, digest(Sample()), 0x1000, 0x1_4000_0000);
    r := rebuilt.value;
    UnrecordedSlot(r);
  }
}
