/** rebuild: the patched, extended file, and what reading it back finds. */
module ImportRebuild {
  import opened Machine
  import opened PeImports
  import opened SectionPayload
  import opened PeFile
  import opened PeWrite
  import L = ImportLayout
  import B = ImportBuild
  import G = ImportGroups
  import P = ImportPatches
  import W = Writes

  /** The file and the report that goes with it. */
  datatype Rebuilt = Rebuilt(
    output: seq<byte>, patched: seq<byte>, plan: Plan, descriptors: seq<Descriptor>, retained: seq<seq<Import>>,
    groups: seq<L.Group>, placed: seq<L.Placed>, slots: P.Slots)

  // ----- When reading back works -----

  function HeadersSize(h: Header): nat
    requires 0 < h.fileAlignment
  {
    AlignTo(h.table + (|h.sections| + 1) * 40, h.fileAlignment)
  }

  /** NT headers behind the DOS header, and no repair inside the headers. */
  ghost predicate HeadersApart(image: seq<byte>, rs: seq<P.Repair>) {
    HeaderOk(image) ==>
      var h := HeaderOf(image);
      && 0x40 <= h.pe
      && forall i :: 0 <= i < |rs| ==> h.table + 40 * |h.sections| <= rs[i].site
  }

  /** Sections ascending, at multiples of the section alignment, itself a multiple of the file's. */
  ghost predicate Ordinary(h: Header) {
    && 0 < h.fileAlignment && 0 < h.sectionAlignment && h.sectionAlignment % h.fileAlignment == 0
    && (forall i :: 0 <= i < |h.sections| ==> h.sections[i].rva % h.sectionAlignment == 0)
    && (forall i, j :: 0 <= i < j < |h.sections| ==> h.sections[i].rva + h.sections[i].Size() <= h.sections[j].rva)
  }

  ghost predicate InSection(h: Header, x: int) {
    exists i :: 0 <= i < |h.sections| && h.sections[i].rva <= x < h.sections[i].rva + h.sections[i].Size()
  }

  /** The bytes of the image that are in a section and in no repair. */
  ghost function Kept(image: seq<byte>, h: Header, rs: seq<P.Repair>): set<nat> {
    set x: nat | x < |image| && InSection(h, x) && !P.InSite(rs, x)
  }

  ghost predicate TablesKept(image: seq<byte>, h: Header, rs: seq<P.Repair>, ds: seq<Descriptor>) {
    forall i :: 0 <= i < |ds| ==> DllKept(image, Kept(image, h, rs), ds[i])
  }

  /** Header bytes before the first repair are those of the image. */
  lemma HeaderUnpatched(image: seq<byte>, rs: seq<P.Repair>, patched: seq<byte>)
    requires HeaderOk(image) && HeadersApart(image, rs) && Confined(image, rs, patched)
    ensures HeaderOk(patched) && HeaderOf(patched) == HeaderOf(image)
  {
    hide HeaderOk, HeaderOf;
    var h := HeaderOf(image);
    var n := HeaderEnd(image);
    forall x | 0 <= x < n
      ensures patched[x] == image[x]
    {
      assert !P.InSite(rs, x);
    }
    assert patched[..n] == image[..n];
    HeaderLocal(image, patched, n);
  }

  lemma HeaderEnd(image: seq<byte>) returns (n: nat)
    requires HeaderOk(image) && 0x40 <= HeaderOf(image).pe
    ensures n <= |image| && n <= HeaderOf(image).table + 40 * |HeaderOf(image).sections| && HeaderWithin(image, n)
  {
    var h := HeaderOf(image);
    n := if h.sections == [] then h.pe + 264 else h.table + 40 * |h.sections|;
  }

  lemma SpacedPlan(p: Plan, patched: seq<byte>)
    requires Ordinary(p.h) && Writable(p, patched) && p.rva % p.h.sectionAlignment == 0 && |patched| <= p.rva
    ensures Spaced(p)
  {
    hide AlignTo;
    forall i | 0 <= i < |p.h.sections|
      ensures p.h.sections[i].rva + p.h.sections[i].Size() <= p.rva
    {
      SectionsWritable(p, patched, i);
    }
  }

  /** The mapped file still has the kept bytes. */
  lemma MappedKeeps(p: Plan, image: seq<byte>, rs: seq<P.Repair>, patched: seq<byte>)
    requires Writable(p, patched) && HeaderFits(p, patched) && Spaced(p) && p.headersSize <= NewImageSize(p)
    requires W.Inside(Copies(p, patched), NewImageSize(p)) && |patched| == |image| <= NewImageSize(p)
    requires forall x :: 0 <= x < |image| && !P.InSite(rs, x) ==> patched[x] == image[x]
    ensures Keeps(image, W.Apply(Blank(p, patched), Copies(p, patched)), Kept(image, p.h, rs))
  {
    hide Writable, HeaderFits, Spaced, NewImageSize, W.Inside, W.Apply, Blank, Copies;
    var v := W.Apply(Blank(p, patched), Copies(p, patched));
    forall x | x in Kept(image, p.h, rs) && x < |image|
      ensures v[x] == image[x]
    {
      var i :| 0 <= i < |p.h.sections| && p.h.sections[i].rva <= x < p.h.sections[i].rva + p.h.sections[i].Size();
      MappedSection(p, patched, i, x);
    }
  }

  lemma {:induction false} ConcatAppend(a: seq<seq<Import>>, b: seq<seq<Import>>)
    ensures Concat(a + b) == Concat(a) + Concat(b)
    decreases |a|
  {
    if a == [] {
      assert a + b == b;
    } else {
      ConcatAppend(a[1..], b);
      assert (a + b)[1..] == a[1..] + b;
    }
  }

  /** Reading the rebuilt file finds the retained imports in their old slots, then the rebuilt ones. */
  lemma RebuiltReads(image: seq<byte>, rs: seq<P.Repair>, p: Plan, patched: seq<byte>, ds: seq<Descriptor>,
      parts: seq<seq<Import>>, groups: seq<L.Group>, placed: seq<L.Placed>)
    requires Writable(p, patched) && HeaderFits(p, patched) && PlanFits(p, patched)
    requires Ordinary(p.h) && p.rva % p.h.sectionAlignment == 0 && |patched| == |image| <= p.rva && 0 < p.rva
    requires forall x :: 0 <= x < |image| && !P.InSite(rs, x) ==> patched[x] == image[x]
    requires NewImageSize(p) <= MAX_IMAGE
    requires L.Laid(p.payload, p.rva, ds, groups, placed) && p.directorySize == B.HeadSize(ds, groups)
    requires B.FromDirectory(image, ds, parts) && TablesKept(image, p.h, rs, ds)
    requires B.RepairsOk(rs) && G.GroupsFor(rs, groups)
    ensures ImportsFromFile(Output(p, patched)) == Some(Concat(parts) + Concat(L.RebuiltParts(groups, placed)))
  {
    hide Writable, HeaderFits, PlanFits, Ordinary, Spaced, L.GroupOk, G.GroupsFor, B.RepairsOk, W.Inside, W.Apply, Blank;
    hide Copies, Imports, Output, HeaderOf, HeaderOk, MapFile, DllKept, OneDll, NewImageSize, L.RebuiltParts, Kept;
    SpacedPlan(p, patched);
    OutputMaps(p, patched);
    NewImageLarge(p, image, patched);
    MappedPayload(p, patched);
    MappedKeeps(p, image, rs, patched);
    B.GroupsStorable(rs, groups);
    var v := W.Apply(Blank(p, patched), Copies(p, patched));
    var kept := Kept(image, p.h, rs);
    assert L.Retains(image, kept, ds, parts);
    L.SectionReads(v, image, kept, p.rva, p.payload, ds, parts, groups, placed);
    ConcatAppend(parts, L.RebuiltParts(groups, placed));
    OutputHeader(p, patched);
  }

  lemma NewImageLarge(p: Plan, image: seq<byte>, patched: seq<byte>)
    requires Writable(p, patched) && |image| <= p.rva
    ensures |image| <= NewImageSize(p)
  {
  }

  /** A site of a section has the patched bytes in the mapped file. */
  lemma MappedSite(p: Plan, patched: seq<byte>, r: P.Repair)
    requires Writable(p, patched) && HeaderFits(p, patched) && Spaced(p) && p.headersSize <= NewImageSize(p)
    requires W.Inside(Copies(p, patched), NewImageSize(p)) && SiteInSection(p.h, r) && 0 < r.length && r.End() <= |patched|
    ensures At(W.Apply(Blank(p, patched), Copies(p, patched)), r.site, patched[r.site..r.End()])
  {
    hide Writable, HeaderFits, Spaced, W.Inside, W.Apply, Blank, Copies, NewImageSize, At;
    var v := W.Apply(Blank(p, patched), Copies(p, patched));
    var k :| 0 <= k < |p.h.sections| && SiteInside(p.h.sections[k], r);
    MappedSection(p, patched, k, r.End() - 1);
    forall x | r.site <= x < r.End()
      ensures v[x] == patched[x]
    {
      MappedSection(p, patched, k, x);
    }
    SameBytes(v, patched, r.site, r.End());
  }

  lemma SameBytes(v: seq<byte>, w: seq<byte>, lo: nat, hi: nat)
    requires lo < hi <= |w| && hi <= |v| && forall x :: lo <= x < hi ==> v[x] == w[x]
    ensures At(v, lo, w[lo..hi])
  {
    assert v[lo..hi] == w[lo..hi];
  }

  /** The rewritten call is in the section's bytes, the thunk in the new section's. */
  lemma SectionCalls(p: Plan, patched: seq<byte>, r: P.Repair, slot: nat)
    requires Writable(p, patched) && HeaderFits(p, patched) && PlanFits(p, patched) && Spaced(p) && NewImageSize(p) <= MAX_IMAGE
    requires P.SiteRewritten(patched, r, slot, p.payload, p.rva) && SiteInSection(p.h, r)
    ensures MapFile(Output(p, patched)).Some?
    ensures var v := MapFile(Output(p, patched)).value; P.CalledSlot(P.Program(v, |v|, []), r.site) == Some(slot)
  {
    hide Writable, HeaderFits, PlanFits, Spaced, W.Inside, W.Apply, Blank, Copies, Output, MapFile, NewImageSize, P.Rewritten, P.CalledSlot;
    hide At, SiteInSection;
    OutputMaps(p, patched);
    MappedPayload(p, patched);
    MappedSite(p, patched, r);
    var v := W.Apply(Blank(p, patched), Copies(p, patched));
    P.MappedCalls(v, r, slot, patched[r.site..r.End()], p.payload, p.rva);
  }

  lemma CallsInFile(image: seq<byte>, rs: seq<P.Repair>, r: Rebuilt)
    requires Mappable(r) && P.AllSlotted(rs, r.slots)
    requires Writable(r.plan, r.patched) && HeaderFits(r.plan, r.patched) && PlanFits(r.plan, r.patched)
    requires r.plan.rva == AlignTo(|image|, r.plan.h.sectionAlignment) && |r.patched| == |image|
    requires P.SitesRewritten(r.patched, rs, r.slots, r.plan.payload, r.plan.rva) && r.output == Output(r.plan, r.patched)
    ensures OutputCalls(r, rs)
  {
    hide Writable, HeaderFits, PlanFits, Spaced, Output, MapFile, NewImageSize, P.Rewritten, P.CalledSlot, Ordinary, AlignTo;
    hide P.SiteRewritten, SiteInSection;
    AlignToMultiple(|image|, r.plan.h.sectionAlignment);
    SpacedPlan(r.plan, r.patched);
    OutputMaps(r.plan, r.patched);
    var v := MapFile(r.output).value;
    forall i | 0 <= i < |rs| && SiteInSection(r.plan.h, rs[i])
      ensures P.CalledSlot(P.Program(v, |v|, []), rs[i].site) == Some(P.SlotOf(rs[i], r.slots))
    {
      SectionCalls(r.plan, r.patched, rs[i], P.SlotOf(rs[i], r.slots));
    }
  }

  // ----- When there is room -----

  /** The SHA-256 of an image; only its comparison with the report's matters. */
  type Digest = seq<byte> -> seq<byte>

  /** The image is the one of the report and one a plain dump can restore: no TLS, delay-import or CLR directory, and
      power-of-two alignments. */
  ghost predicate ImageOk(image: seq<byte>, digest: Digest, recorded: seq<byte>) {
    && HeaderOk(image) && digest(image) == recorded
    && var h := HeaderOf(image);
    && |image| == h.imageSize && |h.directories| == 16
    && h.directories[9] == h.directories[13] == h.directories[14] == Directory(0, 0)
    && IsPowerOfTwo(h.sectionAlignment) && IsPowerOfTwo(h.fileAlignment)
  }

  /** There is at least one section, a free section header, and every section lies in the image
      behind the grown headers. */
  ghost predicate Placeable(image: seq<byte>, h: Header) {
    && 0 < h.fileAlignment && h.sections != [] && |h.sections| < 96
    && forall i :: 0 <= i < |h.sections| ==> SectionPlaceable(image, h, h.sections[i])
  }

  ghost predicate SectionPlaceable(image: seq<byte>, h: Header, s: Section)
    requires 0 < h.fileAlignment
  {
    HeadersSize(h) <= s.rva && s.rva + s.Size() <= |image|
  }

  /** What rebuild refuses whatever the repairs are. */
  ghost predicate Acceptable(image: seq<byte>, digest: Digest, recorded: seq<byte>) {
    && ImageOk(image, digest, recorded)
    && var h := HeaderOf(image);
    && Placeable(image, h) && B.DirectoryOk(image, h.directories[1].rva, h.directories[1].rva + h.directories[1].size)
  }

  /** At most this many bytes go into the new section for a directory of `size` bytes. */
  function SectionRoom(size: nat, rs: seq<P.Repair>): nat { size + 40 + G.RepairsRoom(rs) + 8 * |rs| }

  /** Everything stays within 32-bit displacements and header fields. */
  ghost predicate Roomy(image: seq<byte>, h: Header, size: nat, rs: seq<P.Repair>, entry: nat, imageBase: nat) {
    && 0 < h.fileAlignment && 0 < h.sectionAlignment
    && var rva, n := AlignTo(|image|, h.sectionAlignment), SectionRoom(size, rs);
    && rva + n + 8 < P.I32 && AlignTo(n, h.fileAlignment) < U32 && AlignTo(rva + n, h.sectionAlignment) < U32
    && HeadersSize(h) + BodySize(h, |h.sections|) < U32 && entry < U32 && imageBase < U64
  }

  /** There is something to repair, it can be written, and it fits. */
  ghost predicate Fitting(image: seq<byte>, rs: seq<P.Repair>, entry: nat, imageBase: nat)
    requires HeaderOk(image) && |HeaderOf(image).directories| == 16
  {
    rs != [] && G.AsciiRepairs(rs) && Roomy(image, HeaderOf(image), HeaderOf(image).directories[1].size, rs, entry, imageBase)
  }

  lemma GroupsFit(size: nat, rs: seq<P.Repair>, retained: nat, groups: seq<L.Group>)
    requires 20 * retained <= size + 20 && G.Room(groups) <= G.RepairsRoom(rs)
    ensures G.SectionSize(retained, groups) + 8 * |rs| <= SectionRoom(size, rs)
  {
    hide G.Room, G.RepairsRoom;
    G.RoomIs(groups);
  }

  /** With a repair there is a group, so the address tables are not empty. */
  lemma TablesNotEmpty(rs: seq<P.Repair>, groups: seq<L.Group>, placed: seq<L.Placed>, lo: nat, hi: nat)
    requires rs != [] && G.GroupsFor(rs, groups) && |placed| == |groups| && B.IatsWithin(placed, |groups|, lo, hi)
    ensures lo <= hi
  {
    assert G.Needs(groups, rs[0].dll, G.SymbolOf(rs[0]));
    assert lo <= placed[0].iat && L.IatEnd(placed[0]) <= hi;
  }

  lemma SlotsBelow(bytes: seq<byte>, rva: nat, ds: seq<Descriptor>, groups: seq<L.Group>, placed: seq<L.Placed>, slots: P.Slots,
      lo: nat, hi: nat, rs: seq<P.Repair>)
    requires L.Laid(bytes, rva, ds, groups, placed) && |placed| == |groups| && B.SlotsTrue(slots, groups, placed, |groups|)
    requires B.IatsWithin(placed, |groups|, lo, hi) && P.AllSlotted(rs, slots)
    ensures forall i :: 0 <= i < |rs| ==> P.SlotOf(rs[i], slots) < hi
  {
    hide L.HeadLaid, L.IatsLaid, L.NameLaid, At;
    forall i | 0 <= i < |rs|
      ensures P.SlotOf(rs[i], slots) < hi
    {
      var key := (rs[i].dll, rs[i].name);
      assert B.SlotTrue(key, slots[key], groups, placed, |groups|);
      var j, k :| 0 <= j < |groups| && 0 <= k < |groups[j].symbols| && B.SlotAt(key, slots[key], groups[j], placed[j].iat, k);
      assert L.GroupLaid(bytes, rva, 20 * (|ds| + |groups| + 1), groups[j], placed[j]);
    }
  }

  lemma FileFits(image: seq<byte>, rs: seq<P.Repair>, size: nat, p: Plan, patched: seq<byte>)
    requires Spacious(image, rs, p, size) && |patched| == |image|
    requires p.headersSize == HeadersSize(p.h) && p.rva == AlignTo(|image|, p.h.sectionAlignment)
    requires p.directorySize <= |p.payload|
    requires p.iatBegin + p.iatSize <= p.rva + |p.payload|
    ensures Writable(p, patched) && PlanFits(p, patched)
  {
    hide AlignTo, SectionRoom;
    assert forall i :: 0 <= i < |p.h.sections| ==> SectionPlaceable(image, p.h, p.h.sections[i]);
    assert SectionPlaceable(image, p.h, p.h.sections[0]);
    assert Writable(p, patched);
    B.AlignToMonotone(|p.payload|, SectionRoom(size, rs), p.h.fileAlignment);
    B.AlignToMonotone(p.rva + |p.payload|, p.rva + SectionRoom(size, rs), p.h.sectionAlignment);
    BodySized(p, patched, |p.h.sections|);
  }

  lemma WritablePlaceable(image: seq<byte>, p: Plan, patched: seq<byte>)
    requires Writable(p, patched) && |patched| == |image| && p.headersSize == HeadersSize(p.h)
    ensures Placeable(image, p.h)
  {
    hide AlignTo;
    assert forall i :: 0 <= i < |p.h.sections| ==> SectionWritable(p, patched, p.h.sections[i]);
  }

  // ----- The call -----

  ghost predicate IsSlot(retained: seq<seq<Import>>, slot: nat) {
    exists i, k :: 0 <= i < |retained| && 0 <= k < |retained[i]| && retained[i][k].slot == slot
  }

  /** The least slot of the retained imports, or `start` if that is smaller. */
  method LowestSlot(retained: seq<seq<Import>>, start: nat) returns (lowest: nat)
    ensures lowest <= start && forall i, k :: 0 <= i < |retained| && 0 <= k < |retained[i]| ==> lowest <= retained[i][k].slot
    ensures lowest == start || IsSlot(retained, lowest)
  {
    lowest := start;
    for i := 0 to |retained|
      invariant lowest == start || IsSlot(retained, lowest)
      invariant lowest <= start && forall j, k :: 0 <= j < i && 0 <= k < |retained[j]| ==> lowest <= retained[j][k].slot
    {
      for k := 0 to |retained[i]|
        invariant lowest <= start && (lowest == start || IsSlot(retained, lowest))
        invariant forall j, l :: 0 <= j < i && 0 <= l < |retained[j]| ==> lowest <= retained[j][l].slot
        invariant forall l :: 0 <= l < k ==> lowest <= retained[i][l].slot
      {
        assert IsSlot(retained, retained[i][k].slot);
        lowest := Min(lowest, retained[i][k].slot);
      }
    }
  }

  /** The output is the file that was planned. */
  ghost predicate Written(r: Rebuilt) {
    Writable(r.plan, r.patched) && Shaped(r.plan.h) && r.output == Output(r.plan, r.patched)
  }

  /** What a reader of the output finds in its headers, by their offsets: the report's entry point
      and image base, no checksum, the new import and address directories, no certificate, debug
      or bound-import directory, and one more section, named ".sogen". */
  ghost predicate HeadersSet(image: seq<byte>, r: Rebuilt, entry: nat, imageBase: nat)
    requires HeaderOk(image) && 0 < HeaderOf(image).sectionAlignment && 0 < HeaderOf(image).fileAlignment
  {
    var h, out := HeaderOf(image), r.output;
    var o, at := h.optional, h.table + 40 * |h.sections|;
    && o + 240 <= |out| && SectionNamed(out, at)
    && Num(out, h.pe + 6, 2) == |h.sections| + 1
    && Num(out, o + 16, 4) == entry && Num(out, o + 24, 8) == imageBase && Num(out, o + 64, 4) == 0
    && Num(out, o + 56, 4) == AlignTo(AlignTo(|image|, h.sectionAlignment) + |r.plan.payload|, h.sectionAlignment)
    && Num(out, o + 60, 4) == AlignTo(h.table + 40 * (|h.sections| + 1), h.fileAlignment)
    && DirectoryAt(out, o + 112 + 8 * 1)
       == Directory(AlignTo(|image|, h.sectionAlignment), 20 * (|r.descriptors| + |r.groups| + 1))
    && DirectoryAt(out, o + 112 + 8 * 4) == Directory(0, 0)
    && DirectoryAt(out, o + 112 + 8 * 6) == Directory(0, 0)
    && DirectoryAt(out, o + 112 + 8 * 11) == Directory(0, 0)
    && DirectoryAt(out, o + 112 + 8 * 12) == Directory(r.plan.iatBegin, r.plan.iatSize)
  }

  /** Read by the tool's own header reader, the output differs from the image in these fields only. */
  ghost predicate HeadersReadBack(image: seq<byte>, r: Rebuilt, entry: nat, imageBase: nat)
    requires HeaderOk(image)
  {
    && HeaderOk(r.output)
    && var h, g := HeaderOf(image), HeaderOf(r.output);
    && g.entry == entry && g.imageBase == imageBase && g.pe == h.pe && g.table == h.table
    && g.sectionAlignment == h.sectionAlignment && g.fileAlignment == h.fileAlignment
    && |g.sections| == |h.sections| + 1 && |g.directories| == |h.directories| == 16
    && forall i :: 0 <= i < 16 && i !in {1, 4, 6, 11, 12} ==> g.directories[i] == h.directories[i]
  }

  /** The file's sections are laid out as the format wants them and the image stays in bounds. */
  ghost predicate Mappable(r: Rebuilt) {
    Ordinary(r.plan.h) && NewImageSize(r.plan) <= MAX_IMAGE
  }

  /** Everything reading back relies on that a caller can see from the image and the repairs. */
  ghost predicate Rereadable(image: seq<byte>, rs: seq<P.Repair>, r: Rebuilt) {
    Mappable(r) && B.RepairsOk(rs) && TablesKept(image, r.plan.h, rs, r.descriptors)
  }

  ghost predicate SiteInSection(h: Header, r: P.Repair) {
    exists k :: 0 <= k < |h.sections| && SiteInside(h.sections[k], r)
  }

  predicate SiteInside(s: Section, r: P.Repair) { s.rva <= r.site && r.End() <= s.rva + s.Size() }

  /** In the mapped file every repaired site of a section calls its own slot. */
  ghost predicate FileCalls(v: seq<byte>, h: Header, rs: seq<P.Repair>, slots: P.Slots)
    requires P.AllSlotted(rs, slots)
  {
    forall i :: 0 <= i < |rs| && SiteInSection(h, rs[i]) ==>
      P.CalledSlot(P.Program(v, |v|, []), rs[i].site) == Some(P.SlotOf(rs[i], slots))
  }

  ghost predicate OutputCalls(r: Rebuilt, rs: seq<P.Repair>)
    requires P.AllSlotted(rs, r.slots)
  {
    MapFile(r.output).Some? && FileCalls(MapFile(r.output).value, r.plan.h, rs, r.slots)
  }

  /** The tables of the report fit together. */
  ghost predicate Consistent(rs: seq<P.Repair>, r: Rebuilt) {
    && |r.placed| == |r.groups| && G.GroupsFor(rs, r.groups) && B.SlotsTrue(r.slots, r.groups, r.placed, |r.groups|)
    && P.AllSlotted(rs, r.slots) && TablesApart(r.groups, r.placed)
    && G.SortedDlls(r.groups) && G.InOrder(rs, r.groups)
  }

  /** Every symbol has a slot of its own. */
  ghost predicate TablesApart(groups: seq<L.Group>, placed: seq<L.Placed>) {
    && |placed| == |groups|
    && (forall i :: 0 <= i < |groups| ==> |placed[i].names| == |groups[i].symbols|)
    && (forall i, j :: 0 <= i < j < |groups| ==> L.IatEnd(placed[i]) <= placed[j].iat)
  }

  lemma LaidApart(bytes: seq<byte>, rva: nat, ds: seq<Descriptor>, groups: seq<L.Group>, placed: seq<L.Placed>)
    requires L.Laid(bytes, rva, ds, groups, placed)
    ensures TablesApart(groups, placed)
  {
    hide L.HeadLaid, L.NameLaid, L.IatLaid, At;
    assert forall i :: 0 <= i < |groups| ==> L.GroupLaid(bytes, rva, 20 * (|ds| + |groups| + 1), groups[i], placed[i]);
  }

  /** Every import slot, retained or new, lies in the import address directory, which begins at a
      slot and ends with the last new table. */
  ghost predicate IatCovers(r: Rebuilt) {
    var lo, hi := r.plan.iatBegin, r.plan.iatBegin + r.plan.iatSize;
    && (r.groups != [] && |r.placed| == |r.groups| ==>
          (lo == r.placed[0].iat || IsSlot(r.retained, lo)) && L.IatEnd(r.placed[|r.placed| - 1]) == hi)
    && (forall i, k :: 0 <= i < |r.retained| && 0 <= k < |r.retained[i]| ==> lo <= r.retained[i][k].slot && r.retained[i][k].slot + 8 <= hi)
    && B.IatsWithin(r.placed, |r.placed|, lo, hi)
  }

  /** Succeeds on every acceptable image with room, and only on acceptable ones. */
  method Rebuild(image: seq<byte>, rs: seq<P.Repair>, digest: Digest, recorded: seq<byte>, entry: nat, imageBase: nat)
    returns (r: Option<Rebuilt>)
    requires P.ReportOk(image, rs)
    ensures r.Some? ==> Acceptable(image, digest, recorded) && G.AsciiRepairs(rs) && entry < U32 && imageBase < U64
    ensures Acceptable(image, digest, recorded) && Fitting(image, rs, entry, imageBase) ==> r.Some?
    ensures r.Some? ==> Consistent(rs, r.value) && IatCovers(r.value)
    ensures r.Some? ==> var d := HeaderOf(image).directories[1];
                        Imports(image, d.rva, d.rva + d.size) == Some(Concat(r.value.retained))
    ensures r.Some? ==> P.EachCallsItsSlot(P.Program(r.value.patched, r.value.plan.rva, r.value.plan.payload), rs, r.value.slots)
    ensures r.Some? ==> Confined(image, rs, r.value.patched) && r.value.plan.h == HeaderOf(image) && Written(r.value)
    ensures r.Some? ==> HeadersSet(image, r.value, entry, imageBase)
    ensures r.Some? && HeadersApart(image, rs) ==> HeadersReadBack(image, r.value, entry, imageBase)
    ensures r.Some? && HeadersApart(image, rs) && Mappable(r.value) ==> OutputCalls(r.value, rs)
    ensures r.Some? && HeadersApart(image, rs) && Rereadable(image, rs, r.value) ==>
              ImportsFromFile(r.value.output)
              == Some(Concat(r.value.retained) + Concat(L.RebuiltParts(r.value.groups, r.value.placed)))
  {
    hide HeaderOk, HeaderOf, P.ReportOk, P.EachCallsItsSlot, Imports, ImportsFromFile, Rereadable, IatCovers, IsPowerOfTwo;
    hide P.InSite, L.RebuiltParts, B.FromDirectory, HeadersApart, Placeable, Written, Roomy, B.DirectoryOk, OutputCalls, Mappable;
    hide G.AsciiRepairs, HeadersSet, HeadersReadBack;
    var ok := CheckImage(image, digest, recorded);
    if !ok {
      return None;
    }
    var d := HeaderOf(image).directories[1];
    var directory := B.CollectRetained(image, d.rva, d.size);
    if directory.None? {
      return None;
    }
    r := Assemble(image, rs, entry, imageBase, directory.value.0, directory.value.1, d.size);
  }

  /** The image is the one the report was made for and has nothing a plain dump cannot restore. */
  method CheckImage(image: seq<byte>, digest: Digest, recorded: seq<byte>) returns (ok: bool)
    ensures ok <==> ImageOk(image, digest, recorded)
    ensures ok ==> 0 < HeaderOf(image).sectionAlignment && 0 < HeaderOf(image).fileAlignment
  {
    hide HeaderOk, HeaderOf, IsPowerOfTwo;
    if !HeaderOk(image) {
      return false;
    }
    var h := HeaderOf(image);
    SixteenDirectories(image);
    if |image| != h.imageSize || digest(image) != recorded {
      return false;
    }
    if Used(h.directories[9]) || Used(h.directories[13]) || Used(h.directories[14]) {
      return false;
    }
    if !IsPowerOfTwo(h.sectionAlignment) || !IsPowerOfTwo(h.fileAlignment) {
      return false;
    }
    PowerPositive(h.sectionAlignment);
    PowerPositive(h.fileAlignment);
    return true;
  }

  /** From the retained directory to the finished file. */
  method Assemble(image: seq<byte>, rs: seq<P.Repair>, entry: nat, imageBase: nat, descriptors: seq<Descriptor>,
      retained: seq<seq<Import>>, ghost size: nat) returns (r: Option<Rebuilt>)
    requires P.ReportOk(image, rs) && HeaderOk(image)
    requires 0 < HeaderOf(image).sectionAlignment && 0 < HeaderOf(image).fileAlignment
    requires B.FromDirectory(image, descriptors, retained) && 20 * |descriptors| <= size + 20
    requires forall i :: 0 <= i < |descriptors| ==> descriptors[i].iat + (|retained[i]| + 1) * 8 <= |image|
    ensures r.Some? ==> Placeable(image, HeaderOf(image)) && G.AsciiRepairs(rs) && entry < U32 && imageBase < U64
    ensures Placeable(image, HeaderOf(image)) && Roomy(image, HeaderOf(image), size, rs, entry, imageBase) ==>
              rs != [] && G.AsciiRepairs(rs) ==> r.Some?
    ensures r.Some? ==> r.value.retained == retained && Consistent(rs, r.value) && IatCovers(r.value)
    ensures r.Some? ==> P.EachCallsItsSlot(P.Program(r.value.patched, r.value.plan.rva, r.value.plan.payload), rs, r.value.slots)
    ensures r.Some? ==> Confined(image, rs, r.value.patched) && r.value.plan.h == HeaderOf(image) && Written(r.value)
    ensures r.Some? ==> HeadersSet(image, r.value, entry, imageBase)
    ensures r.Some? && HeadersApart(image, rs) ==> HeadersReadBack(image, r.value, entry, imageBase)
    ensures r.Some? && HeadersApart(image, rs) && Mappable(r.value) ==> OutputCalls(r.value, rs)
    ensures r.Some? && HeadersApart(image, rs) && Rereadable(image, rs, r.value) ==>
              ImportsFromFile(r.value.output)
              == Some(Concat(r.value.retained) + Concat(L.RebuiltParts(r.value.groups, r.value.placed)))
  {
    hide HeaderOk, HeaderOf, P.ReportOk, P.EachCallsItsSlot, L.Laid, Output, ImportsFromFile, AlignTo, G.GroupsFor, L.Small;
    hide P.Patches, W.Inside, W.Apply, B.SlotsTrue, P.InSite, PlanFits, Writable, Rereadable, B.FromDirectory;
    hide Placeable, OutputCalls, Mappable, HeadersApart, Written, P.SitesRewritten, G.Room, G.RepairsRoom, G.SectionSize, BodySize, G.SortedDlls, G.InOrder;
    hide G.AsciiRepairs, G.AsciiGroups, HeadersSet, HeadersReadBack;
    var h := HeaderOf(image);
    var rva := AlignTo(|image|, h.sectionAlignment);
    var groups := G.BuildGroups(rs);
    RetainedSmall(image, descriptors, retained);
    GroupsFit(size, rs, |descriptors|, groups);
    G.AsciiIff(rs, groups);
    var section, placed, slots, begin := B.BuildSection(rva, descriptors, groups);
    if placed.None? {
      return None;
    }
    var iatBegin := LowestSlot(retained, begin);
    var iatSize := rva + |section.bytes| - iatBegin;
    if rs != [] {
      TablesNotEmpty(rs, groups, placed.value, begin, rva + |section.bytes|);
    }
    if iatSize < 0 {
      return None;
    }
    B.EveryRepairSlotted(rs, slots, groups, placed.value);
    LaidApart(section.bytes, rva, descriptors, groups, placed.value);
    SlotsBelow(section.bytes, rva, descriptors, groups, placed.value, slots, begin, rva + |section.bytes|, rs);
    ghost var before := section.bytes;
    var patched, ws := P.PatchImage(image, rs, slots, section);
    if patched.None? {
      return None;
    }
    L.LaidGrows(before, section.bytes, rva, descriptors, groups, placed.value);
    var plan := Plan(h, HeadersSize(h), rva, section.bytes, entry, imageBase, 20 * (|descriptors| + |groups| + 1), iatBegin, iatSize);
    r := Finish(image, rs, plan, patched.value, descriptors, retained, groups, placed.value, slots, begin, before, size);
  }

  ghost predicate Spacious(image: seq<byte>, rs: seq<P.Repair>, p: Plan, size: nat) {
    Placeable(image, p.h) && Roomy(image, p.h, size, rs, p.entry, p.imageBase) && |p.payload| <= SectionRoom(size, rs)
  }

  /** Write the file and hand it over with its report. */
  method Finish(image: seq<byte>, rs: seq<P.Repair>, plan: Plan, patched: seq<byte>, descriptors: seq<Descriptor>,
      retained: seq<seq<Import>>, groups: seq<L.Group>, placed: seq<L.Placed>, slots: P.Slots, ghost begin: nat,
      ghost before: seq<byte>, ghost size: nat) returns (r: Option<Rebuilt>)
    requires HeaderOk(image) && plan.h == HeaderOf(image) && Confined(image, rs, patched)
    requires 0 < plan.h.sectionAlignment && 0 < plan.h.fileAlignment
    requires B.FromDirectory(image, descriptors, retained)
    requires forall i :: 0 <= i < |descriptors| ==> descriptors[i].iat + (|retained[i]| + 1) * 8 <= |image|
    requires plan.rva == AlignTo(|image|, plan.h.sectionAlignment) && plan.headersSize == HeadersSize(plan.h)
    requires |placed| == |groups| && L.Laid(plan.payload, plan.rva, descriptors, groups, placed)
    requires G.GroupsFor(rs, groups) && B.SlotsTrue(slots, groups, placed, |groups|) && P.AllSlotted(rs, slots)
    requires plan.directorySize == B.HeadSize(descriptors, groups) <= |before| && before <= plan.payload
    requires plan.iatBegin <= begin && plan.iatBegin + plan.iatSize == plan.rva + |before|
    requires forall i, k :: 0 <= i < |retained| && 0 <= k < |retained[i]| ==> plan.iatBegin <= retained[i][k].slot
    requires B.IatsWithin(placed, |groups|, begin, plan.rva + |before|)
    requires B.IatsFill(placed, |groups|, begin, plan.rva + |before|) && (plan.iatBegin == begin || IsSlot(retained, plan.iatBegin))
    requires P.SitesRewritten(patched, rs, slots, plan.payload, plan.rva)
    ensures Spacious(image, rs, plan, size) ==> r.Some?
    ensures r.Some? ==> Placeable(image, plan.h) && plan.entry < U32 && plan.imageBase < U64
    ensures r.Some? ==> r.value == Rebuilt(r.value.output, patched, plan, descriptors, retained, groups, placed, slots)
    ensures r.Some? ==> IatCovers(r.value) && Written(r.value)
    ensures r.Some? ==> HeadersSet(image, r.value, plan.entry, plan.imageBase)
    ensures r.Some? && HeadersApart(image, rs) ==> HeadersReadBack(image, r.value, plan.entry, plan.imageBase)
    ensures r.Some? && HeadersApart(image, rs) && Mappable(r.value) ==> OutputCalls(r.value, rs)
    ensures r.Some? && HeadersApart(image, rs) && Rereadable(image, rs, r.value) ==>
              ImportsFromFile(r.value.output) == Some(Concat(retained) + Concat(L.RebuiltParts(groups, placed)))
  {
    hide HeaderOk, HeaderOf, L.Laid, Output, ImportsFromFile, AlignTo, G.GroupsFor, Confined, HeadersApart, Shaped, HeadersSet, HeadersReadBack;
    hide FieldsRead, SectionNamed, B.SlotsTrue, Writable, B.FromDirectory, IatCovers, SectionRoom, HeadersSize;
    hide Placeable, OutputCalls, Roomy, Ordinary, NewImageSize, TablesKept, B.RepairsOk, P.SitesRewritten, L.RebuiltParts;
    HeaderShaped(image);
    if Spacious(image, rs, plan, size) {
      SameLength(image, rs, patched);
      FileFits(image, rs, size, plan, patched);
    }
    HeadersSizeIs(plan);
    var output := WriteFile(plan, patched);
    if output.None? {
      return None;
    }
    var result := Rebuilt(output.value, patched, plan, descriptors, retained, groups, placed, slots);
    r := Some(result);
    SameLength(image, rs, patched);
    WritablePlaceable(image, plan, patched);
    RetainedCovered(image, result, begin, before);
    HeadersSizeIs(plan);
    FieldsAreSet(image, result);
    if HeadersApart(image, rs) {
      PlanHeader(image, rs, patched, plan);
      HeadersRead(image, result);
      if Mappable(result) {
        CallsInFile(image, rs, result);
      }
      if Rereadable(image, rs, result) {
        HeaderBounds(image);
        ReadsBack(image, rs, result);
      }
    }
  }

  lemma FieldsAreSet(image: seq<byte>, r: Rebuilt)
    requires HeaderOk(image) && r.plan.h == HeaderOf(image) && Shaped(r.plan.h)
    requires 0 < r.plan.h.sectionAlignment && 0 < r.plan.h.fileAlignment
    requires r.plan.headersSize == AlignTo(r.plan.h.table + (|r.plan.h.sections| + 1) * 40, r.plan.h.fileAlignment)
    requires FieldsRead(r.output, r.plan) && SectionNamed(r.output, r.plan.h.table + 40 * |r.plan.h.sections|)
    requires r.plan.rva == AlignTo(|image|, r.plan.h.sectionAlignment)
    requires r.plan.directorySize == B.HeadSize(r.descriptors, r.groups)
    ensures HeadersSet(image, r, r.plan.entry, r.plan.imageBase)
  {
    hide HeaderOk, HeaderOf, Num, SectionNamed, AlignTo;
  }

  lemma HeadersRead(image: seq<byte>, r: Rebuilt)
    requires HeaderOk(image) && r.plan.h == HeaderOf(image)
    requires Writable(r.plan, r.patched) && HeaderFits(r.plan, r.patched) && PlanFits(r.plan, r.patched)
    requires r.output == Output(r.plan, r.patched)
    ensures HeadersReadBack(image, r, r.plan.entry, r.plan.imageBase)
  {
    hide HeaderOk, HeaderOf, HeaderFits, PlanFits, Writable, Output;
    OutputHeader(r.plan, r.patched);
    OutputRest(r.plan, r.patched);
  }

  lemma SameLength(image: seq<byte>, rs: seq<P.Repair>, patched: seq<byte>)
    requires Confined(image, rs, patched)
    ensures |patched| == |image|
  {
  }

  lemma HeadersSizeIs(p: Plan)
    requires 0 < p.h.fileAlignment && p.headersSize == HeadersSize(p.h)
    ensures p.headersSize == AlignTo(p.h.table + (|p.h.sections| + 1) * 40, p.h.fileAlignment)
  {
  }

  /** Only bytes of repaired sites differ. */
  ghost predicate Confined(image: seq<byte>, rs: seq<P.Repair>, patched: seq<byte>) {
    |patched| == |image| && forall x :: 0 <= x < |image| && !P.InSite(rs, x) ==> patched[x] == image[x]
  }

  lemma PlanHeader(image: seq<byte>, rs: seq<P.Repair>, patched: seq<byte>, p: Plan)
    requires HeaderOk(image) && HeadersApart(image, rs) && Confined(image, rs, patched) && p.h == HeaderOf(image)
    ensures HeaderFits(p, patched)
  {
    hide HeaderOk, HeaderOf;
    HeaderUnpatched(image, rs, patched);
  }

  lemma RetainedCovered(image: seq<byte>, r: Rebuilt, begin: nat, before: seq<byte>)
    requires B.FromDirectory(image, r.descriptors, r.retained)
    requires forall i :: 0 <= i < |r.descriptors| ==> r.descriptors[i].iat + (|r.retained[i]| + 1) * 8 <= |image|
    requires |image| <= r.plan.rva && r.plan.iatBegin <= begin && r.plan.iatBegin + r.plan.iatSize == r.plan.rva + |before|
    requires forall i, k :: 0 <= i < |r.retained| && 0 <= k < |r.retained[i]| ==> r.plan.iatBegin <= r.retained[i][k].slot
    requires B.IatsWithin(r.placed, |r.placed|, begin, r.plan.rva + |before|) && |r.placed| == |r.groups|
    requires B.IatsFill(r.placed, |r.placed|, begin, r.plan.rva + |before|)
    requires r.plan.iatBegin == begin || IsSlot(r.retained, r.plan.iatBegin)
    ensures IatCovers(r)
  {
    hide B.FromDirectory;
    RetainedBelow(image, r.descriptors, r.retained);
  }

  lemma ReadsBack(image: seq<byte>, rs: seq<P.Repair>, r: Rebuilt)
    requires Rereadable(image, rs, r) && G.GroupsFor(rs, r.groups) && |r.placed| == |r.groups|
    requires Writable(r.plan, r.patched) && HeaderFits(r.plan, r.patched) && PlanFits(r.plan, r.patched)
    requires r.plan.rva == AlignTo(|image|, r.plan.h.sectionAlignment) && 0 < |image| && Confined(image, rs, r.patched)
    requires L.Laid(r.plan.payload, r.plan.rva, r.descriptors, r.groups, r.placed)
    requires r.plan.directorySize == B.HeadSize(r.descriptors, r.groups)
    requires B.FromDirectory(image, r.descriptors, r.retained)
    requires r.output == Output(r.plan, r.patched)
    ensures ImportsFromFile(r.output) == Some(Concat(r.retained) + Concat(L.RebuiltParts(r.groups, r.placed)))
  {
    hide AlignTo, Writable, HeaderFits, PlanFits, P.InSite, L.Laid, G.GroupsFor, Output, ImportsFromFile, Ordinary, B.FromDirectory;
    hide TablesKept, NewImageSize, L.RebuiltParts, B.RepairsOk;
    AlignToMultiple(|image|, r.plan.h.sectionAlignment);
    RebuiltReads(image, rs, r.plan, r.patched, r.descriptors, r.retained, r.groups, r.placed);
  }

  predicate Used(d: Directory) { d.rva != 0 || d.size != 0 }

  lemma PowerPositive(a: nat)
    requires IsPowerOfTwo(a)
    ensures 0 < a
  {
  }

  lemma RetainedBelow(image: seq<byte>, ds: seq<Descriptor>, parts: seq<seq<Import>>)
    requires B.FromDirectory(image, ds, parts)
    requires forall i :: 0 <= i < |ds| ==> ds[i].iat + (|parts[i]| + 1) * 8 <= |image|
    ensures forall i, k :: 0 <= i < |parts| && 0 <= k < |parts[i]| ==> parts[i][k].slot + 8 <= |image|
  {
    hide OneDll;
    forall i, k | 0 <= i < |parts| && 0 <= k < |parts[i]|
      ensures parts[i][k].slot + 8 <= |image|
    {
      DllSlots(image, ds[i], parts[i]);
    }
  }

  lemma RetainedSmall(image: seq<byte>, ds: seq<Descriptor>, parts: seq<seq<Import>>)
    requires B.FromDirectory(image, ds, parts)
    ensures forall i :: 0 <= i < |ds| ==> L.Small(ds[i])
  {
  }

  lemma {:induction false} ConcatHas(parts: seq<seq<Import>>, i: nat, k: nat)
    requires i < |parts| && k < |parts[i]|
    ensures parts[i][k] in Concat(parts)
    decreases |parts|
  {
    if i > 0 {
      ConcatHas(parts[1..], i - 1, k);
    }
  }

  /** The slot a repaired site calls is one that reading the file back names as the site's own
      DLL and symbol. */
  lemma CalledSlotIsNamed(rs: seq<P.Repair>, r: Rebuilt, i: nat)
    requires Consistent(rs, r) && i < |rs|
    ensures Import(rs[i].dll, rs[i].name, P.SlotOf(rs[i], r.slots)) in Concat(L.RebuiltParts(r.groups, r.placed))
  {
    hide G.GroupsFor, Concat, L.Entries, L.RebuiltParts;
    var key := (rs[i].dll, rs[i].name);
    var slot := r.slots[key];
    assert B.SlotTrue(key, slot, r.groups, r.placed, |r.groups|);
    var j, k :| 0 <= j < |r.groups| && 0 <= k < |r.groups[j].symbols| && B.SlotAt(key, slot, r.groups[j], r.placed[j].iat, k);
    var parts := L.RebuiltParts(r.groups, r.placed);
    assert parts[j] == L.Entries(r.groups[j], r.placed[j].iat, 0);
    assert parts[j][k] == Import(rs[i].dll, rs[i].name, slot);
    ConcatHas(parts, j, k);
  }
}
