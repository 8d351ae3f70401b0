/** The file rebuild writes: patched headers, every section at its own file offset, the new section. */
module PeWrite {
  import opened Machine
  import opened GuestMemory
  import opened SectionPayload
  import opened PeFile
  import W = Writes

  /** What the header fields are set from. */
  datatype Plan = Plan(
    h: Header, headersSize: nat, rva: nat, payload: seq<byte>, entry: nat, imageBase: nat,
    directorySize: nat, iatBegin: nat, iatSize: nat)

  function FileSize(p: Plan, s: Section): nat
    requires 0 < p.h.fileAlignment
  {
    AlignTo(s.Size(), p.h.fileAlignment)
  }

  function NewFileSize(p: Plan): nat
    requires 0 < p.h.fileAlignment
  {
    AlignTo(|p.payload|, p.h.fileAlignment)
  }

  function NewImageSize(p: Plan): nat
    requires 0 < p.h.sectionAlignment
  {
    AlignTo(p.rva + |p.payload|, p.h.sectionAlignment)
  }

  /** What the code checks or assumes before it writes the file. */
  ghost predicate Writable(p: Plan, patched: seq<byte>) {
    && 0 < p.h.fileAlignment && 0 < p.h.sectionAlignment
    && p.h.sections != [] && |p.h.sections| < 96
    && p.headersSize == AlignTo(p.h.table + (|p.h.sections| + 1) * 40, p.h.fileAlignment)
    && p.headersSize <= |patched|
    && (forall i :: 0 <= i < |p.h.sections| ==> SectionWritable(p, patched, p.h.sections[i]))
  }

  ghost predicate SectionWritable(p: Plan, patched: seq<byte>, s: Section) {
    p.headersSize <= s.rva && s.rva + s.Size() <= |patched|
  }

  /** A section's bytes in the file. */
  function Content(p: Plan, patched: seq<byte>, s: Section): (r: seq<byte>)
    requires 0 < p.h.fileAlignment && s.rva + s.Size() <= |patched|
    ensures |r| == FileSize(p, s)
  {
    patched[s.rva..s.rva + s.Size()] + Zeros(FileSize(p, s) - s.Size())
  }

  function Body(p: Plan, patched: seq<byte>, n: nat): seq<byte>
    requires Writable(p, patched) && n <= |p.h.sections|
  {
    if n == 0 then [] else Body(p, patched, n - 1) + Content(p, patched, p.h.sections[n - 1])
  }

  /** How long the sections of the file are together. */
  function BodySize(h: Header, n: nat): nat
    requires 0 < h.fileAlignment && n <= |h.sections|
  {
    if n == 0 then 0 else BodySize(h, n - 1) + AlignTo(h.sections[n - 1].Size(), h.fileAlignment)
  }

  lemma {:induction false} BodySized(p: Plan, patched: seq<byte>, n: nat)
    requires Writable(p, patched) && n <= |p.h.sections|
    ensures |Body(p, patched, n)| == BodySize(p.h, n)
  {
    hide AlignTo, Content;
    if n > 0 {
      BodySized(p, patched, n - 1);
      assert SectionWritable(p, patched, p.h.sections[n - 1]);
    }
  }

  // ----- Header fields -----

  function SectionFixup(p: Plan, patched: seq<byte>, i: nat): (w: W.Write)
    requires Writable(p, patched) && i < |p.h.sections|
    ensures |w.data| == 8
  {
    W.Write(p.h.sections[i].header + 16,
            Le(FileSize(p, p.h.sections[i]), 4) + Le(p.headersSize + |Body(p, patched, i)|, 4))
  }

  function SectionFixups(p: Plan, patched: seq<byte>, n: nat): (r: seq<W.Write>)
    requires Writable(p, patched) && n <= |p.h.sections|
    ensures |r| == n && forall i :: 0 <= i < n ==> r[i] == SectionFixup(p, patched, i)
  {
    if n == 0 then [] else SectionFixups(p, patched, n - 1) + [SectionFixup(p, patched, n - 1)]
  }

  /** ".sogen", sizes and places, no relocations, read-write-execute. */
  function NewSectionHeader(p: Plan, raw: nat): (r: seq<byte>)
    requires 0 < p.h.fileAlignment
    ensures |r| == 40
  {
    [0x2E, 0x73, 0x6F, 0x67, 0x65, 0x6E, 0, 0] + Le(|p.payload|, 4) + Le(p.rva, 4) + Le(NewFileSize(p), 4) + Le(raw, 4)
    + Le(0, 4) + Le(0, 4) + Le(0, 2) + Le(0, 2) + Le(0xE000_0060, 4)
  }

  function NewSectionFixup(p: Plan, patched: seq<byte>): W.Write
    requires Writable(p, patched)
  {
    var n := |p.h.sections|;
    W.Write(p.h.table + n * 40, NewSectionHeader(p, p.headersSize + |Body(p, patched, n)|))
  }

  /** The fixed fields, in the order they are written. */
  function FieldFixups(p: Plan): (r: seq<W.Write>)
    requires 0 < p.h.sectionAlignment
    ensures |r| == 11
  {
    var o := p.h.optional;
    [W.Write(p.h.pe + 6, Le(|p.h.sections| + 1, 2)),
     W.Write(o + 16, Le(p.entry, 4)),
     W.Write(o + 24, Le(p.imageBase, 8)),
     W.Write(o + 56, Le(NewImageSize(p), 4)),
     W.Write(o + 60, Le(p.headersSize, 4)),
     W.Write(o + 64, Le(0, 4)),
     W.Write(o + 144, Le(0, 4) + Le(0, 4)),
     W.Write(o + 160, Le(0, 4) + Le(0, 4)),
     W.Write(o + 200, Le(0, 4) + Le(0, 4)),
     W.Write(o + 120, Le(p.rva, 4) + Le(p.directorySize, 4)),
     W.Write(o + 208, Le(p.iatBegin, 4) + Le(p.iatSize, 4))]
  }

  function Fixups(p: Plan, patched: seq<byte>): seq<W.Write>
    requires Writable(p, patched)
  {
    SectionFixups(p, patched, |p.h.sections|) + [NewSectionFixup(p, patched)] + FieldFixups(p)
  }

  /** Optional header, directories and section headers follow one another. */
  ghost predicate Shaped(h: Header) {
    && h.optional == h.pe + 24 && h.pe + 264 <= h.table
    && forall i :: 0 <= i < |h.sections| ==> h.sections[i].header == h.table + 40 * i
  }

  lemma HeaderShaped(data: seq<byte>)
    requires HeaderOk(data)
    ensures Shaped(HeaderOf(data))
  {
  }

  /** The header belongs to these bytes and leaves the DOS header alone. */
  ghost predicate HeaderFits(p: Plan, patched: seq<byte>): (r: bool)
    ensures r ==> Shaped(p.h)
  {
    HeaderOk(patched) && HeaderOf(patched) == p.h && 0x40 <= p.h.pe
  }

  // ----- The fields do not overlap -----

  lemma FieldsApart(p: Plan)
    requires 0 < p.h.sectionAlignment && p.h.optional == p.h.pe + 24
    ensures W.AllApart(FieldFixups(p))
    ensures forall i :: 0 <= i < 11 ==> FieldPlace(p, FieldFixups(p)[i])
  {
    hide Le, NewImageSize;
    var ws := FieldFixups(p);
    var low, mid := ws[..6], ws[6..9];
    assert W.Ascending(low);
    W.AscendingApart(low);
    assert W.Ascending(mid);
    W.AscendingApart(mid);
    forall i, j | 0 <= i < j < 11
      ensures W.Apart(ws[i], ws[j])
    {
      if j < 6 {
        assert low[i] == ws[i] && low[j] == ws[j];
      } else if 6 <= i && j < 9 {
        assert mid[i - 6] == ws[i] && mid[j - 6] == ws[j];
      }
    }
  }

  ghost predicate FieldPlace(p: Plan, w: W.Write) {
    (w.at == p.h.pe + 6 && w.End() == p.h.pe + 8) || (p.h.pe + 40 <= w.at && w.End() <= p.h.pe + 240)
  }

  /** Section headers follow one another behind the optional header. */
  lemma HeaderPlaces(p: Plan, patched: seq<byte>)
    requires Writable(p, patched) && Shaped(p.h)
    ensures p.h.optional == p.h.pe + 24 && p.h.pe + 264 <= p.h.table && p.h.table + 40 * |p.h.sections| + 40 <= p.headersSize
    ensures forall i :: 0 <= i < |p.h.sections| ==> p.h.sections[i].header == p.h.table + 40 * i
  {
  }

  /** Where the i-th fixup lies. */
  ghost predicate Place(p: Plan, i: nat, w: W.Write) {
    var n := |p.h.sections|;
    if i < n then w.at == p.h.table + 40 * i + 16 && w.End() == p.h.table + 40 * i + 24
    else if i == n then w.at == p.h.table + 40 * n && w.End() == p.h.table + 40 * n + 40
    else FieldPlace(p, w)
  }

  lemma FixupPlace(p: Plan, patched: seq<byte>, i: nat)
    requires Writable(p, patched) && Shaped(p.h) && i < |Fixups(p, patched)|
    ensures |Fixups(p, patched)| == |p.h.sections| + 12 && Place(p, i, Fixups(p, patched)[i])
  {
    hide Shaped, FieldFixups, NewSectionHeader, SectionFixup, FieldPlace;
    HeaderPlaces(p, patched);
    FieldsApart(p);
    var n := |p.h.sections|;
    if i < n {
      SectionFixupPlace(p, patched, i);
    }
  }

  lemma SectionFixupPlace(p: Plan, patched: seq<byte>, i: nat)
    requires Writable(p, patched) && i < |p.h.sections|
    ensures SectionFixup(p, patched, i).at == p.h.sections[i].header + 16
  {
  }

  lemma FixupsApart(p: Plan, patched: seq<byte>)
    requires Writable(p, patched) && Shaped(p.h)
    ensures W.AllApart(Fixups(p, patched)) && W.Inside(Fixups(p, patched), p.headersSize)
  {
    hide Shaped, Writable;
    var ws, n := Fixups(p, patched), |p.h.sections|;
    PlacesApart(p, patched);
    HeaderPlaces(p, patched);
    forall i | 0 <= i < |ws|
      ensures ws[i].End() <= p.headersSize
    {
      FixupPlace(p, patched, i);
    }
  }

  lemma PlacesApart(p: Plan, patched: seq<byte>)
    requires Writable(p, patched) && Shaped(p.h)
    ensures W.AllApart(Fixups(p, patched))
  {
    hide Shaped, FieldFixups, SectionFixups, NewSectionFixup;
    var ws, n := Fixups(p, patched), |p.h.sections|;
    HeaderPlaces(p, patched);
    FieldsApart(p);
    forall i, j | 0 <= i < j < |ws|
      ensures W.Apart(ws[i], ws[j])
    {
      FixupPlace(p, patched, i);
      FixupPlace(p, patched, j);
      if n < i {
        assert ws[i] == FieldFixups(p)[i - n - 1] && ws[j] == FieldFixups(p)[j - n - 1];
      }
    }
  }

  // ----- The file -----

  ghost function NewHead(p: Plan, patched: seq<byte>): (r: seq<byte>)
    requires Writable(p, patched) && Shaped(p.h)
    ensures |r| == p.headersSize
  {
    FixupsApart(p, patched);
    W.Apply(patched[..p.headersSize], Fixups(p, patched))
  }

  ghost function Output(p: Plan, patched: seq<byte>): seq<byte>
    requires Writable(p, patched) && Shaped(p.h)
  {
    NewHead(p, patched) + (Body(p, patched, |p.h.sections|) + (p.payload + Zeros(NewFileSize(p) - |p.payload|)))
  }

  /** Every header field the code sets is found in the file. */
  lemma FixupHolds(p: Plan, patched: seq<byte>, i: nat)
    requires Writable(p, patched) && Shaped(p.h) && i < |Fixups(p, patched)|
    ensures var w := Fixups(p, patched)[i];
            At(Output(p, patched), w.at, w.data)
  {
    hide Fixups, Shaped, Body, W.Apply, W.AllApart;
    FixupsApart(p, patched);
    W.ApplyRead(patched[..p.headersSize], Fixups(p, patched), i);
    var w, out, head := Fixups(p, patched)[i], Output(p, patched), NewHead(p, patched);
    assert w.End() <= |head|;
    assert out[w.at..w.End()] == head[w.at..w.End()];
  }

  lemma HeadKept(p: Plan, patched: seq<byte>, lo: nat, hi: nat)
    requires Writable(p, patched) && Shaped(p.h) && lo <= hi <= p.headersSize
    requires forall i :: 0 <= i < |Fixups(p, patched)| ==> Fixups(p, patched)[i].End() <= lo || hi <= Fixups(p, patched)[i].at
    ensures hi <= |Output(p, patched)| && Output(p, patched)[lo..hi] == patched[lo..hi]
  {
    hide Fixups, Shaped, Body, W.Apply, W.AllApart;
    FixupsApart(p, patched);
    var old_ := patched[..p.headersSize];
    W.ApplyKeeps(old_, Fixups(p, patched), lo, hi);
    var out, head := Output(p, patched), NewHead(p, patched);
    assert out[lo..hi] == head[lo..hi] && old_[lo..hi] == patched[lo..hi];
  }

  /** Header bytes before the section count, and between it and the first optional field. */
  lemma FrontKept(p: Plan, patched: seq<byte>, lo: nat, hi: nat)
    requires Writable(p, patched) && Shaped(p.h) && lo <= hi
    requires hi <= p.h.pe + 6 || (p.h.pe + 8 <= lo && hi <= p.h.pe + 40)
    ensures hi <= |Output(p, patched)| && hi <= |patched| && Output(p, patched)[lo..hi] == patched[lo..hi]
  {
    hide Fixups, Shaped;
    HeaderPlaces(p, patched);
    forall i | 0 <= i < |Fixups(p, patched)|
      ensures Fixups(p, patched)[i].End() <= lo || hi <= Fixups(p, patched)[i].at
    {
      FixupPlace(p, patched, i);
    }
    HeadKept(p, patched, lo, hi);
  }

  /** Virtual size and address of an existing section. */
  lemma SectionKept(p: Plan, patched: seq<byte>, k: nat)
    requires Writable(p, patched) && Shaped(p.h) && k < |p.h.sections|
    ensures var at := p.h.table + 40 * k;
            at + 16 <= |Output(p, patched)| && at + 16 <= |patched| && Output(p, patched)[at + 8..at + 16] == patched[at + 8..at + 16]
  {
    hide Fixups, Shaped;
    HeaderPlaces(p, patched);
    var lo, hi := p.h.table + 40 * k + 8, p.h.table + 40 * k + 16;
    forall i | 0 <= i < |Fixups(p, patched)|
      ensures Fixups(p, patched)[i].End() <= lo || hi <= Fixups(p, patched)[i].at
    {
      FixupPlace(p, patched, i);
    }
    HeadKept(p, patched, lo, hi);
  }

  // ----- Reading the file back -----

  lemma NumSame(a: seq<byte>, b: seq<byte>, lo: nat, hi: nat, off: nat, n: nat)
    requires lo <= hi <= |a| && hi <= |b| && a[lo..hi] == b[lo..hi] && lo <= off && off + n <= hi
    ensures Num(a, off, n) == Num(b, off, n)
  {
    SliceOfSlice(a, lo, hi, off - lo, off - lo + n);
    SliceOfSlice(b, lo, hi, off - lo, off - lo + n);
  }

  lemma NumAt(a: seq<byte>, off: nat, v: nat, n: nat)
    requires At(a, off, Le(v, n)) && v < Pow256(n)
    ensures Num(a, off, n) == v
  {
    FromLeLe(v, n);
  }

  /** What goes into the fixed header fields and the new section header fits. */
  predicate FieldsFit(p: Plan)
    requires 0 < p.h.fileAlignment && 0 < p.h.sectionAlignment
  {
    && p.rva < U32 && |p.payload| < U32 && p.directorySize < U32 && p.entry < U32 && p.imageBase < U64
    && p.iatBegin < U32 && p.iatSize < U32 && NewFileSize(p) < U32 && NewImageSize(p) < U32
  }

  /** So do the places of the sections in the file. */
  ghost predicate PlanFits(p: Plan, patched: seq<byte>)
    requires Writable(p, patched)
  {
    FieldsFit(p) && p.headersSize + |Body(p, patched, |p.h.sections|)| < U32
  }

  /** The signature checks still pass. */
  lemma OutputSignature(p: Plan, patched: seq<byte>)
    requires Writable(p, patched) && HeaderFits(p, patched)
    ensures var out, pe := Output(p, patched), p.h.pe;
            && pe + 264 <= |out| && out[..2] == [0x4D, 0x5A] && PeOffset(out) == pe
            && out[pe..pe + 4] == [0x50, 0x45, 0, 0] && Num(out, pe + 4, 2) == 0x8664
            && Num(out, pe + 20, 2) == p.h.table - pe - 24 && Num(out, pe + 24, 2) == 0x20B
  {
    hide Output, Writable;
    HeaderPlaces(p, patched);
    var out, pe := Output(p, patched), p.h.pe;
    FrontKept(p, patched, 0, 2);
    assert out[0..2] == out[..2] && patched[0..2] == patched[..2];
    FrontKept(p, patched, 0x3C, 0x40);
    FrontKept(p, patched, pe, pe + 4);
    FrontKept(p, patched, pe + 4, pe + 6);
    FrontKept(p, patched, pe + 20, pe + 22);
    FrontKept(p, patched, pe + 24, pe + 26);
    OutputLong(p, patched);
  }

  lemma OutputLong(p: Plan, patched: seq<byte>)
    requires Writable(p, patched) && Shaped(p.h)
    ensures p.headersSize <= |Output(p, patched)|
  {
  }

  /** The fixed fields as a reader of the file finds them, by their offsets in the PE32+ headers. */
  ghost predicate FieldsRead(out: seq<byte>, p: Plan)
    requires 0 < p.h.sectionAlignment
  {
    var o := p.h.pe + 24;
    && o + 240 <= |out|
    && Num(out, p.h.pe + 6, 2) == |p.h.sections| + 1
    && Num(out, o + 16, 4) == p.entry && Num(out, o + 24, 8) == p.imageBase
    && Num(out, o + 56, 4) == AlignTo(p.rva + |p.payload|, p.h.sectionAlignment)
    && Num(out, o + 60, 4) == p.headersSize && Num(out, o + 64, 4) == 0
    && DirectoryAt(out, o + 112 + 8 * 1) == Directory(p.rva, p.directorySize)
    && DirectoryAt(out, o + 112 + 8 * 4) == Directory(0, 0)
    && DirectoryAt(out, o + 112 + 8 * 6) == Directory(0, 0)
    && DirectoryAt(out, o + 112 + 8 * 11) == Directory(0, 0)
    && DirectoryAt(out, o + 112 + 8 * 12) == Directory(p.iatBegin, p.iatSize)
  }

  lemma OutputFields(p: Plan, patched: seq<byte>)
    requires Writable(p, patched) && Shaped(p.h) && PlanFits(p, patched) && p.headersSize < U32
    ensures FieldsRead(Output(p, patched), p)
  {
    hide Output, Shaped, Body, At, Num, Le, AlignTo;
    HeaderPlaces(p, patched);
    OutputLong(p, patched);
    Pow256Word();
    var out, pe, o, n := Output(p, patched), p.h.pe, p.h.pe + 24, |p.h.sections|;
    FieldIsFixup(p, patched, 0);
    NumAt(out, pe + 6, n + 1, 2);
    FieldIsFixup(p, patched, 1);
    NumAt(out, o + 16, p.entry, 4);
    FieldIsFixup(p, patched, 2);
    NumAt(out, o + 24, p.imageBase, 8);
    FieldIsFixup(p, patched, 3);
    NumAt(out, o + 56, NewImageSize(p), 4);
    FieldIsFixup(p, patched, 4);
    NumAt(out, o + 60, p.headersSize, 4);
    FieldIsFixup(p, patched, 5);
    NumAt(out, o + 64, 0, 4);
    FieldIsFixup(p, patched, 6);
    DirectoryIs(out, o + 144, 0, 0);
    FieldIsFixup(p, patched, 7);
    DirectoryIs(out, o + 160, 0, 0);
    FieldIsFixup(p, patched, 8);
    DirectoryIs(out, o + 200, 0, 0);
    FieldIsFixup(p, patched, 9);
    DirectoryIs(out, o + 120, p.rva, p.directorySize);
    FieldIsFixup(p, patched, 10);
    DirectoryIs(out, o + 208, p.iatBegin, p.iatSize);
  }

  lemma DirectoryIs(out: seq<byte>, at: nat, rva: nat, size: nat)
    requires At(out, at, Le(rva, 4) + Le(size, 4)) && rva < U32 && size < U32
    ensures at + 8 <= |out| && DirectoryAt(out, at) == Directory(rva, size)
  {
    hide Num, Le, At;
    Pow256Word();
    AtSplit(out, at, Le(rva, 4), Le(size, 4));
    AtFits(out, at, Le(rva, 4) + Le(size, 4));
    NumAt(out, at, rva, 4);
    NumAt(out, at + 4, size, 4);
  }

  lemma AtFits(buf: seq<byte>, at: nat, data: seq<byte>)
    requires At(buf, at, data)
    ensures at + |data| <= |buf|
  {
  }

  lemma FieldIsFixup(p: Plan, patched: seq<byte>, k: nat)
    requires Writable(p, patched) && Shaped(p.h) && k < 11
    ensures var w := FieldFixups(p)[k];
            At(Output(p, patched), w.at, w.data)
  {
    hide Output, Shaped, FieldFixups, SectionFixups, NewSectionFixup, At;
    FixupPlace(p, patched, 0);
    FixupHolds(p, patched, |p.h.sections| + 1 + k);
  }

  /** An existing section: same address, new place in the file. */
  lemma OutputSection(p: Plan, patched: seq<byte>, i: nat)
    requires Writable(p, patched) && HeaderFits(p, patched) && PlanFits(p, patched) && i < |p.h.sections|
    ensures var out, at, s := Output(p, patched), p.h.table + 40 * i, p.h.sections[i];
            && at + 40 <= |out|
            && SectionAt(out, at) == Section(s.virtualSize, s.rva, FileSize(p, s), p.headersSize + |Body(p, patched, i)|, at)
  {
    hide Output, At, Le, Num, HeaderFits, Body, FileSize;
    HeaderPlaces(p, patched);
    OutputLong(p, patched);
    Pow256Word();
    BodyGrows(p, patched, i);
    var out, at, s := Output(p, patched), p.h.table + 40 * i, p.h.sections[i];
    SectionIs(p, patched, i);
    SectionKept(p, patched, i);
    NumSame(out, patched, at + 8, at + 16, at + 8, 4);
    NumSame(out, patched, at + 8, at + 16, at + 12, 4);
    SectionHolds(p, patched, i);
    AtSplit(out, at + 16, Le(FileSize(p, s), 4), Le(p.headersSize + |Body(p, patched, i)|, 4));
    NumAt(out, at + 16, FileSize(p, s), 4);
    NumAt(out, at + 20, p.headersSize + |Body(p, patched, i)|, 4);
  }

  lemma SectionIs(p: Plan, patched: seq<byte>, i: nat)
    requires HeaderFits(p, patched) && i < |p.h.sections|
    ensures p.h.table + 40 * i + 40 <= |patched| && p.h.sections[i] == SectionAt(patched, p.h.table + 40 * i)
  {
  }

  lemma SectionHolds(p: Plan, patched: seq<byte>, i: nat)
    requires Writable(p, patched) && Shaped(p.h) && i < |p.h.sections|
    ensures var at, s := p.h.table + 40 * i, p.h.sections[i];
            At(Output(p, patched), at + 16, Le(FileSize(p, s), 4) + Le(p.headersSize + |Body(p, patched, i)|, 4))
  {
    hide Output, Shaped, FieldFixups, NewSectionFixup, At, Le, Body;
    HeaderPlaces(p, patched);
    FixupHolds(p, patched, i);
    assert Fixups(p, patched)[i] == SectionFixup(p, patched, i);
  }

  lemma {:induction false} BodyGrows(p: Plan, patched: seq<byte>, i: nat)
    requires Writable(p, patched) && i < |p.h.sections|
    ensures |Body(p, patched, i)| + FileSize(p, p.h.sections[i]) == |Body(p, patched, i + 1)| <= |Body(p, patched, |p.h.sections|)|
    decreases |p.h.sections| - i
  {
    hide Content;
    assert SectionWritable(p, patched, p.h.sections[i]);
    if i + 1 < |p.h.sections| {
      BodyGrows(p, patched, i + 1);
    }
  }

  /** The new section header. */
  lemma OutputNewSection(p: Plan, patched: seq<byte>)
    requires Writable(p, patched) && Shaped(p.h) && PlanFits(p, patched)
    ensures var n := |p.h.sections|;
            var out, at := Output(p, patched), p.h.table + 40 * n;
            && at + 40 <= |out|
            && SectionAt(out, at) == Section(|p.payload|, p.rva, NewFileSize(p), p.headersSize + |Body(p, patched, n)|, at)
            && SectionNamed(out, at)
  {
    hide Output, At, Le, Num, Shaped, Body, NewFileSize;
    HeaderPlaces(p, patched);
    OutputLong(p, patched);
    Pow256Word();
    var n := |p.h.sections|;
    var out, at := Output(p, patched), p.h.table + 40 * n;
    var raw := p.headersSize + |Body(p, patched, n)|;
    NewSectionHolds(p, patched);
    NewSectionParts(p, raw, out, at);
    NumAt(out, at + 8, |p.payload|, 4);
    NumAt(out, at + 12, p.rva, 4);
    NumAt(out, at + 16, NewFileSize(p), 4);
    NumAt(out, at + 20, raw, 4);
    NumAt(out, at + 36, 0xE000_0060, 4);
  }

  /** Called ".sogen", without relocations or line numbers, read-write-execute code and data. */
  ghost predicate SectionNamed(out: seq<byte>, at: nat) {
    && at + 40 <= |out| && out[at..at + 8] == [0x2E, 0x73, 0x6F, 0x67, 0x65, 0x6E, 0, 0]
    && out[at + 24..at + 36] == Zeros(12) && Num(out, at + 36, 4) == 0xE000_0060
  }

  lemma NewSectionHolds(p: Plan, patched: seq<byte>)
    requires Writable(p, patched) && Shaped(p.h)
    ensures var n := |p.h.sections|;
            At(Output(p, patched), p.h.table + 40 * n, NewSectionHeader(p, p.headersSize + |Body(p, patched, n)|))
  {
    hide Output, Shaped, FieldFixups, SectionFixups, At, NewSectionHeader, Body;
    FixupPlace(p, patched, 0);
    FixupHolds(p, patched, |p.h.sections|);
  }

  lemma NewSectionParts(p: Plan, raw: nat, out: seq<byte>, at: nat)
    requires 0 < p.h.fileAlignment && At(out, at, NewSectionHeader(p, raw))
    ensures at + 40 <= |out| && out[at..at + 8] == [0x2E, 0x73, 0x6F, 0x67, 0x65, 0x6E, 0, 0]
    ensures At(out, at + 8, Le(|p.payload|, 4)) && At(out, at + 12, Le(p.rva, 4))
    ensures At(out, at + 16, Le(NewFileSize(p), 4)) && At(out, at + 20, Le(raw, 4))
    ensures out[at + 24..at + 36] == Zeros(12) && At(out, at + 36, Le(0xE000_0060, 4))
  {
    hide At, Le, NewFileSize;
    var name: seq<byte> := [0x2E, 0x73, 0x6F, 0x67, 0x65, 0x6E, 0, 0];
    var a, b, c, d := Le(|p.payload|, 4), Le(p.rva, 4), Le(NewFileSize(p), 4), Le(raw, 4);
    var gap := Le(0, 4) + Le(0, 4) + Le(0, 2) + Le(0, 2);
    var rest := gap + Le(0xE000_0060, 4);
    assert NewSectionHeader(p, raw) == name + (a + (b + (c + (d + rest))));
    AtSplit(out, at, name, a + (b + (c + (d + rest))));
    AtSplit(out, at + 8, a, b + (c + (d + rest)));
    AtSplit(out, at + 12, b, c + (d + rest));
    AtSplit(out, at + 16, c, d + rest);
    AtSplit(out, at + 20, d, rest);
    AtSplit(out, at + 24, gap, Le(0xE000_0060, 4));
    ZeroGap();
    AtIs(out, at, name);
    AtIs(out, at + 24, gap);
    AtFits(out, at, NewSectionHeader(p, raw));
  }

  lemma AtIs(buf: seq<byte>, at: nat, data: seq<byte>)
    requires At(buf, at, data)
    ensures at + |data| <= |buf| && buf[at..at + |data|] == data
  {
  }

  lemma ZeroGap()
    ensures Le(0, 4) + Le(0, 4) + Le(0, 2) + Le(0, 2) == Zeros(12)
  {
    LeZero(4);
    LeZero(2);
  }

  lemma {:induction false} LeZero(n: nat)
    ensures Le(0, n) == Zeros(n)
  {
    if n > 0 {
      LeZero(n - 1);
    }
  }

  /** The whole header, read back from the file. What is not set here is as it was in the image. */
  lemma OutputHeader(p: Plan, patched: seq<byte>)
    requires Writable(p, patched) && HeaderFits(p, patched) && PlanFits(p, patched)
    ensures var out, n := Output(p, patched), |p.h.sections|;
            && HeaderOk(out)
            && var h := HeaderOf(out);
            && |h.sections| == n + 1
            && h.imageSize == NewImageSize(p) && h.headersSize == p.headersSize
            && h.entry == p.entry && h.imageBase == p.imageBase
            && h.directories[1] == Directory(p.rva, p.directorySize) && h.directories[12] == Directory(p.iatBegin, p.iatSize)
            && h.directories[4] == h.directories[6] == h.directories[11] == Directory(0, 0)
            && (forall i :: 0 <= i <= n ==> h.sections[i] == SectionAt(out, p.h.table + 40 * i))
  {
    hide Output, HeaderFits, Body, Num, AlignTo;
    OutputLong(p, patched);
    HeaderPlaces(p, patched);
    OutputSignature(p, patched);
    OutputFields(p, patched);
  }

  /** The fields between the ones that are set: alignments, and the directories left alone. */
  lemma OutputRest(p: Plan, patched: seq<byte>)
    requires Writable(p, patched) && HeaderFits(p, patched) && PlanFits(p, patched)
    ensures HeaderOk(Output(p, patched))
    ensures var h := HeaderOf(Output(p, patched));
            && h.pe == p.h.pe && h.optional == p.h.optional && h.table == p.h.table
            && h.sectionAlignment == p.h.sectionAlignment && h.fileAlignment == p.h.fileAlignment
            && |h.directories| == |p.h.directories| == 16
            && forall i :: 0 <= i < 16 && i !in {1, 4, 6, 11, 12} ==> h.directories[i] == p.h.directories[i]
  {
    hide Output, Body, NewImageSize, AlignTo, PlanFits, Num, Writable;
    OutputHeader(p, patched);
    OutputSignature(p, patched);
    var out, o := Output(p, patched), p.h.pe + 24;
    OptionalKept(p, patched, o + 32, o + 40);
    NumSame(out, patched, o + 32, o + 40, o + 32, 4);
    NumSame(out, patched, o + 32, o + 40, o + 36, 4);
    forall i | 0 <= i < 16 && i !in {1, 4, 6, 11, 12}
      ensures HeaderOf(out).directories[i] == p.h.directories[i]
    {
      var at := o + 112 + 8 * i;
      OptionalKept(p, patched, at, at + 8);
      NumSame(out, patched, at, at + 8, at, 4);
      NumSame(out, patched, at, at + 8, at + 4, 4);
    }
  }

  /** A stretch of the optional header that no field touches. */
  lemma OptionalKept(p: Plan, patched: seq<byte>, lo: nat, hi: nat)
    requires Writable(p, patched) && Shaped(p.h) && p.h.pe + 24 <= lo <= hi <= p.h.pe + 264
    requires forall k :: 0 <= k < 11 ==> FieldFixups(p)[k].End() <= lo || hi <= FieldFixups(p)[k].at
    ensures hi <= |Output(p, patched)| && hi <= |patched| && Output(p, patched)[lo..hi] == patched[lo..hi]
  {
    hide Shaped, FieldFixups, NewSectionHeader, Output, Le;
    HeaderPlaces(p, patched);
    var n := |p.h.sections|;
    forall i | 0 <= i < |Fixups(p, patched)|
      ensures Fixups(p, patched)[i].End() <= lo || hi <= Fixups(p, patched)[i].at
    {
      FixupPlace(p, patched, i);
      if n < i {
        assert Fixups(p, patched)[i] == FieldFixups(p)[i - n - 1];
      }
    }
    HeadKept(p, patched, lo, hi);
  }

  // ----- The mapped file -----

  /** Sections as the format wants them: ascending, at multiples of the section alignment, which
      is a multiple of the file alignment; the new one behind them. */
  ghost predicate Spaced(p: Plan) {
    && 0 < p.h.fileAlignment && 0 < p.h.sectionAlignment && p.h.sectionAlignment % p.h.fileAlignment == 0
    && (forall i :: 0 <= i < |p.h.sections| ==> p.h.sections[i].rva % p.h.sectionAlignment == 0)
    && (forall i, j :: 0 <= i < j < |p.h.sections| ==> p.h.sections[i].rva + p.h.sections[i].Size() <= p.h.sections[j].rva)
    && p.rva % p.h.sectionAlignment == 0
    && (forall i :: 0 <= i < |p.h.sections| ==> p.h.sections[i].rva + p.h.sections[i].Size() <= p.rva)
  }

  lemma ModThrough(a: nat, b: nat, c: nat)
    requires 0 < b && 0 < c && a % b == 0 && b % c == 0
    ensures a % c == 0
  {
    var q, r := a / b, b / c;
    assert a == b * q && b == c * r;
    assert a == (r * q) * c by {
      assert (c * r) * q == c * (r * q);
    }
    MulMod(r * q, c);
  }

  lemma ModDifference(a: nat, b: nat, c: nat)
    requires 0 < c && a <= b && a % c == 0 && b % c == 0
    ensures (b - a) % c == 0
  {
    var x, y := a / c, b / c;
    assert a == c * x && b == c * y;
    ProductDifference(c, x, y);
    MulMod(y - x, c);
  }

  lemma ProductDifference(c: nat, x: nat, y: nat)
    ensures c * y - c * x == (y - x) * c
  {
  }

  /** Room for a size between two aligned addresses is room for the padded size. */
  lemma PaddedFits(lo: nat, hi: nat, size: nat, p: Plan)
    requires 0 < p.h.fileAlignment && 0 < p.h.sectionAlignment && p.h.sectionAlignment % p.h.fileAlignment == 0
    requires lo % p.h.sectionAlignment == 0 && hi % p.h.sectionAlignment == 0 && lo + size <= hi
    ensures lo + AlignTo(size, p.h.fileAlignment) <= hi
  {
    hide AlignTo;
    ModThrough(lo, p.h.sectionAlignment, p.h.fileAlignment);
    ModThrough(hi, p.h.sectionAlignment, p.h.fileAlignment);
    ModDifference(lo, hi, p.h.fileAlignment);
    AlignToLeast(size, p.h.fileAlignment, hi - lo);
  }

  /** What each section of the file puts where. */
  ghost function Copies(p: Plan, patched: seq<byte>): (r: seq<W.Write>)
    requires Writable(p, patched)
    ensures |r| == |p.h.sections| + 1
    ensures forall i :: 0 <= i < |p.h.sections| ==>
              SectionWritable(p, patched, p.h.sections[i]) && r[i] == W.Write(p.h.sections[i].rva, Content(p, patched, p.h.sections[i]))
    ensures r[|p.h.sections|] == W.Write(p.rva, p.payload + Zeros(NewFileSize(p) - |p.payload|))
  {
    CopiesOf(p, patched, |p.h.sections|) + [W.Write(p.rva, p.payload + Zeros(NewFileSize(p) - |p.payload|))]
  }

  ghost function CopiesOf(p: Plan, patched: seq<byte>, n: nat): (r: seq<W.Write>)
    requires Writable(p, patched) && n <= |p.h.sections|
    ensures |r| == n
    ensures forall i :: 0 <= i < n ==>
              SectionWritable(p, patched, p.h.sections[i]) && r[i] == W.Write(p.h.sections[i].rva, Content(p, patched, p.h.sections[i]))
  {
    if n == 0 then []
    else
      assert SectionWritable(p, patched, p.h.sections[n - 1]);
      CopiesOf(p, patched, n - 1) + [W.Write(p.h.sections[n - 1].rva, Content(p, patched, p.h.sections[n - 1]))]
  }

  lemma CopiesApart(p: Plan, patched: seq<byte>)
    requires Writable(p, patched) && Spaced(p)
    ensures W.AllApart(Copies(p, patched)) && W.Inside(Copies(p, patched), NewImageSize(p))
    ensures p.headersSize <= NewImageSize(p)
  {
    hide Writable, AlignTo, Content, Copies;
    var ws, n := Copies(p, patched), |p.h.sections|;
    NewImageAligned(p);
    forall i | 0 <= i < n
      ensures ws[i].End() <= p.rva && ws[i].at == p.h.sections[i].rva
    {
      PaddedFits(p.h.sections[i].rva, p.rva, p.h.sections[i].Size(), p);
    }
    forall i, j | 0 <= i < j < n
      ensures ws[i].End() <= ws[j].at
    {
      PaddedFits(p.h.sections[i].rva, p.h.sections[j].rva, p.h.sections[i].Size(), p);
    }
    PaddedFits(p.rva, NewImageSize(p), |p.payload|, p);
    FirstSection(p, patched);
  }

  lemma NewImageAligned(p: Plan)
    requires 0 < p.h.sectionAlignment
    ensures NewImageSize(p) % p.h.sectionAlignment == 0 && p.rva + |p.payload| <= NewImageSize(p)
  {
    AlignToMultiple(p.rva + |p.payload|, p.h.sectionAlignment);
  }

  lemma FirstSection(p: Plan, patched: seq<byte>)
    requires Writable(p, patched) && Spaced(p)
    ensures p.headersSize <= p.rva
  {
    assert SectionWritable(p, patched, p.h.sections[0]);
  }

  lemma {:induction false} BodyAt(p: Plan, patched: seq<byte>, i: nat, n: nat)
    requires Writable(p, patched) && i < n <= |p.h.sections|
    ensures SectionWritable(p, patched, p.h.sections[i])
    ensures At(Body(p, patched, n), |Body(p, patched, i)|, Content(p, patched, p.h.sections[i]))
    decreases n
  {
    hide Content;
    SectionsWritable(p, patched, i);
    SectionsWritable(p, patched, n - 1);
    var c := Content(p, patched, p.h.sections[n - 1]);
    var b, whole := Body(p, patched, n - 1), Body(p, patched, n);
    if i < n - 1 {
      BodyAt(p, patched, i, n - 1);
      AtGrows(b, whole, |Body(p, patched, i)|, Content(p, patched, p.h.sections[i]));
    } else {
      assert whole[|b|..|b| + |c|] == c;
    }
  }

  lemma SectionsWritable(p: Plan, patched: seq<byte>, i: nat)
    requires Writable(p, patched) && i < |p.h.sections|
    ensures SectionWritable(p, patched, p.h.sections[i])
  {
  }

  /** Each section of the file holds what it is to be mapped as. */
  lemma OutputCopies(p: Plan, patched: seq<byte>, i: nat)
    requires Writable(p, patched) && HeaderFits(p, patched) && PlanFits(p, patched) && Spaced(p) && i <= |p.h.sections|
    ensures var out := Output(p, patched);
            && p.h.table + 40 * i + 40 <= |out|
            && var s := SectionAt(out, p.h.table + 40 * i);
            && SectionFits(out, s, NewImageSize(p)) && CopyOf(out, s) == Copies(p, patched)[i]
  {
    hide HeaderFits, Output, Content, PlanFits, W.AllApart, SectionAt, Body;
    var out, n := Output(p, patched), |p.h.sections|;
    CopiesApart(p, patched);
    var w := Copies(p, patched)[i];
    assert w.End() <= NewImageSize(p);
    if i < n {
      OutputSection(p, patched, i);
      SectionsWritable(p, patched, i);
    } else {
      OutputNewSection(p, patched);
    }
    CopyStands(p, patched, i);
    var s := SectionAt(out, p.h.table + 40 * i);
    assert s.rawSize == |w.data| && out[s.raw..s.raw + s.rawSize] == w.data;
  }

  lemma CopyStands(p: Plan, patched: seq<byte>, i: nat)
    requires Writable(p, patched) && Shaped(p.h) && i <= |p.h.sections|
    ensures At(Output(p, patched), p.headersSize + |Body(p, patched, i)|, Copies(p, patched)[i].data)
  {
    hide Shaped, Content, Body, NewFileSize, NewHead, Copies, Writable, At;
    var head, n := NewHead(p, patched), |p.h.sections|;
    var body, last, data := Body(p, patched, n), Copies(p, patched)[n].data, Copies(p, patched)[i].data;
    if i < n {
      BodyAt(p, patched, i, n);
      AtGrows(body, body + last, |Body(p, patched, i)|, data);
    } else {
      AtEnd(body, last);
    }
    AfterHead(head, body + last, |Body(p, patched, i)|, data);
  }

  lemma AtEnd(s: seq<byte>, data: seq<byte>)
    ensures At(s + data, |s|, data)
  {
    assert (s + data)[|s|..|s| + |data|] == data;
  }

  lemma AfterHead(head: seq<byte>, tail: seq<byte>, off: nat, data: seq<byte>)
    requires At(tail, off, data)
    ensures At(head + tail, |head| + off, data)
  {
    assert (head + tail)[|head| + off..|head| + off + |data|] == tail[off..off + |data|];
  }

  ghost function Blank(p: Plan, patched: seq<byte>): (r: seq<byte>)
    requires Writable(p, patched) && Shaped(p.h) && p.headersSize <= NewImageSize(p)
    ensures |r| == NewImageSize(p)
  {
    OutputLong(p, patched);
    Output(p, patched)[..p.headersSize] + Zeros(NewImageSize(p) - p.headersSize)
  }

  /** Mapping the file gives the patched sections and the new section at their addresses. */
  lemma OutputMaps(p: Plan, patched: seq<byte>)
    requires Writable(p, patched) && HeaderFits(p, patched) && PlanFits(p, patched) && Spaced(p)
    requires NewImageSize(p) <= MAX_IMAGE
    ensures p.headersSize <= NewImageSize(p) && W.Inside(Copies(p, patched), NewImageSize(p))
    ensures MapFile(Output(p, patched)) == Some(W.Apply(Blank(p, patched), Copies(p, patched)))
  {
    hide HeaderFits, Output, PlanFits, W.AllApart, SectionAt, Body, HeaderOk, HeaderOf, Copies, W.Apply, NewImageSize, CopySections;
    var out, n, ws := Output(p, patched), |p.h.sections|, Copies(p, patched);
    CopiesApart(p, patched);
    OutputHeader(p, patched);
    OutputLong(p, patched);
    var h := HeaderOf(out);
    forall i | 0 <= i < |ws|
      ensures SectionFits(out, h.sections[i], NewImageSize(p)) && ws[i] == CopyOf(out, h.sections[i])
    {
      OutputCopies(p, patched, i);
    }
    CopiesApply(out, Blank(p, patched), h.sections, ws);
  }

  lemma MappedSection(p: Plan, patched: seq<byte>, i: nat, x: nat)
    requires Writable(p, patched) && Shaped(p.h) && Spaced(p) && p.headersSize <= NewImageSize(p)
    requires W.Inside(Copies(p, patched), NewImageSize(p))
    requires i < |p.h.sections| && p.h.sections[i].rva <= x < p.h.sections[i].rva + p.h.sections[i].Size()
    ensures x < |patched| && x < NewImageSize(p) && W.Apply(Blank(p, patched), Copies(p, patched))[x] == patched[x]
  {
    hide Shaped, Output, Blank, Body, W.AllApart, W.Apply, Copies, NewImageSize;
    SectionsWritable(p, patched, i);
    CopiesApart(p, patched);
    W.ApplyCovered(Blank(p, patched), Copies(p, patched), i, x);
  }

  lemma MappedPayload(p: Plan, patched: seq<byte>)
    requires Writable(p, patched) && Shaped(p.h) && Spaced(p) && p.headersSize <= NewImageSize(p)
    requires W.Inside(Copies(p, patched), NewImageSize(p))
    ensures At(W.Apply(Blank(p, patched), Copies(p, patched)), p.rva, p.payload)
  {
    hide Shaped, Output, Blank, Body, W.AllApart, W.Apply, Copies, NewImageSize, Writable;
    var n := |p.h.sections|;
    CopiesApart(p, patched);
    var data := p.payload + Zeros(NewFileSize(p) - |p.payload|);
    var v := W.Apply(Blank(p, patched), Copies(p, patched));
    W.ApplyRead(Blank(p, patched), Copies(p, patched), n);
    assert At(v, p.rva, data);
    AtSplit(v, p.rva, p.payload, Zeros(NewFileSize(p) - |p.payload|));
  }

  // ----- Writing it -----

  lemma PutInHead(head: seq<byte>, tail: seq<byte>, at: nat, data: seq<byte>)
    requires at + |data| <= |head|
    ensures W.Put(head + tail, at, data) == W.Put(head, at, data) + tail
  {
  }

  /** The fixups before the i-th applied to the old header. */
  ghost function HeadAfter(p: Plan, patched: seq<byte>, i: nat): (r: seq<byte>)
    requires Writable(p, patched) && Shaped(p.h) && i <= |p.h.sections| + 12
    ensures |r| == p.headersSize
  {
    FixupCount(p, patched);
    FixupsApart(p, patched);
    W.Apply(patched[..p.headersSize], Fixups(p, patched)[..i])
  }

  lemma FixupCount(p: Plan, patched: seq<byte>)
    requires Writable(p, patched)
    ensures |Fixups(p, patched)| == |p.h.sections| + 12
  {
  }

  lemma HeadAfterNext(p: Plan, patched: seq<byte>, i: nat)
    requires Writable(p, patched) && Shaped(p.h) && i < |p.h.sections| + 12
    ensures |Fixups(p, patched)| == |p.h.sections| + 12 && Fixups(p, patched)[i].End() <= p.headersSize
    ensures HeadAfter(p, patched, i + 1) == W.Put(HeadAfter(p, patched, i), Fixups(p, patched)[i].at, Fixups(p, patched)[i].data)
  {
    hide Fixups, Shaped, W.AllApart;
    FixupCount(p, patched);
    FixupsApart(p, patched);
    var ws := Fixups(p, patched);
    assert ws[..i + 1] == ws[..i] + [ws[i]];
    W.ApplyNext(patched[..p.headersSize], ws[..i], ws[i]);
  }

  lemma HeadAfterEnds(p: Plan, patched: seq<byte>)
    requires Writable(p, patched) && Shaped(p.h)
    ensures HeadAfter(p, patched, 0) == patched[..p.headersSize]
    ensures HeadAfter(p, patched, |p.h.sections| + 12) == NewHead(p, patched)
  {
    hide Fixups, Shaped;
    FixupCount(p, patched);
    var ws := Fixups(p, patched);
    assert ws[..|ws|] == ws;
  }

  /** Headers with their fields set, sections, new section; None when a check or a field width fails. */
  method WriteFile(p: Plan, patched: seq<byte>) returns (r: Option<seq<byte>>)
    requires Shaped(p.h) && 0 < p.h.fileAlignment && 0 < p.h.sectionAlignment
    requires p.headersSize == AlignTo(p.h.table + (|p.h.sections| + 1) * 40, p.h.fileAlignment)
    ensures r.Some? ==> Writable(p, patched) && PlanFits(p, patched) && r.value == Output(p, patched)
    ensures Writable(p, patched) && PlanFits(p, patched) ==> r.Some?
    ensures r.Some? ==> FieldsRead(r.value, p) && SectionNamed(r.value, p.h.table + 40 * |p.h.sections|)
  {
    hide Shaped, W.Put, HeadAfter, AlignTo, Fixups, FieldFixups, NewSectionHeader;
    var n := |p.h.sections|;
    var writable := CheckSections(p, patched);
    if !writable {
      return None;
    }
    HeadAfterEnds(p, patched);
    var output := patched[..p.headersSize];
    var sections := WriteSections(p, patched, output);
    if sections.None? {
      return None;
    }
    output := sections.value;
    ghost var body := Body(p, patched, n);
    var raw := |output|;
    if raw >= U32 || !FieldsFit(p) {
      return None;
    }
    NewSectionStep(p, patched);
    PutInHead(HeadAfter(p, patched, n), body, p.h.table + n * 40, NewSectionHeader(p, raw));
    output := W.Put(output, p.h.table + n * 40, NewSectionHeader(p, raw));
    var tail := p.payload + Zeros(NewFileSize(p) - |p.payload|);
    output := output + tail;
    assert output == HeadAfter(p, patched, n + 1) + (body + tail);
    output := WriteFields(p, patched, output, body + tail);
    r := Some(output);
    FileReads(p, patched);
  }

  lemma FileReads(p: Plan, patched: seq<byte>)
    requires Writable(p, patched) && Shaped(p.h) && PlanFits(p, patched)
    ensures FieldsRead(Output(p, patched), p) && SectionNamed(Output(p, patched), p.h.table + 40 * |p.h.sections|)
  {
    hide Output, Shaped, Num, Body, FieldsRead, SectionNamed;
    OutputFields(p, patched);
    OutputNewSection(p, patched);
  }

  lemma NewSectionStep(p: Plan, patched: seq<byte>)
    requires Writable(p, patched) && Shaped(p.h)
    ensures var n := |p.h.sections|;
            var w := W.Write(p.h.table + n * 40, NewSectionHeader(p, p.headersSize + |Body(p, patched, n)|));
            w.End() <= p.headersSize && HeadAfter(p, patched, n + 1) == W.Put(HeadAfter(p, patched, n), w.at, w.data)
  {
    hide Shaped, HeadAfter, FieldFixups, SectionFixups, NewSectionHeader, Body, W.Put;
    HeadAfterNext(p, patched, |p.h.sections|);
  }

  method CheckSections(p: Plan, patched: seq<byte>) returns (ok: bool)
    requires 0 < p.h.fileAlignment && 0 < p.h.sectionAlignment
    requires p.headersSize == AlignTo(p.h.table + (|p.h.sections| + 1) * 40, p.h.fileAlignment)
    ensures ok <==> Writable(p, patched)
  {
    hide AlignTo;
    var n := |p.h.sections|;
    if n == 0 || n >= 96 {
      return false;
    }
    for i := 0 to n
      invariant forall k :: 0 <= k < i ==> SectionWritable(p, patched, p.h.sections[k])
    {
      var s := p.h.sections[i];
      if p.headersSize > s.rva || s.rva + s.Size() > |patched| {
        return false;
      }
    }
    assert SectionWritable(p, patched, p.h.sections[0]);
    return true;
  }

  /** Append every section and record its place in its header. */
  method WriteSections(p: Plan, patched: seq<byte>, start: seq<byte>) returns (r: Option<seq<byte>>)
    requires Writable(p, patched) && Shaped(p.h) && start == HeadAfter(p, patched, 0)
    ensures r.Some? ==> r.value == HeadAfter(p, patched, |p.h.sections|) + Body(p, patched, |p.h.sections|)
    ensures p.headersSize + |Body(p, patched, |p.h.sections|)| < U32 ==> r.Some?
  {
    hide Shaped, W.Put, HeadAfter, AlignTo, Content, Le;
    var output := start;
    assert start + [] == start;
    for i := 0 to |p.h.sections|
      invariant output == HeadAfter(p, patched, i) + Body(p, patched, i)
    {
      var s := p.h.sections[i];
      SectionsWritable(p, patched, i);
      BodyGrows(p, patched, i);
      var rawSize, raw := FileSize(p, s), |output|;
      var content := Content(p, patched, s);
      output := output + content;
      if rawSize >= U32 || raw >= U32 {
        return None;
      }
      SectionStep(p, patched, i);
      assert output == HeadAfter(p, patched, i) + Body(p, patched, i + 1);
      PutInHead(HeadAfter(p, patched, i), Body(p, patched, i + 1), s.header + 16, Le(rawSize, 4) + Le(raw, 4));
      output := W.Put(output, s.header + 16, Le(rawSize, 4) + Le(raw, 4));
    }
    r := Some(output);
  }

  lemma SectionStep(p: Plan, patched: seq<byte>, i: nat)
    requires Writable(p, patched) && Shaped(p.h) && i < |p.h.sections|
    ensures var s := p.h.sections[i];
            var w := W.Write(s.header + 16, Le(FileSize(p, s), 4) + Le(p.headersSize + |Body(p, patched, i)|, 4));
            w.End() <= p.headersSize && HeadAfter(p, patched, i + 1) == W.Put(HeadAfter(p, patched, i), w.at, w.data)
  {
    hide Shaped, HeadAfter, FieldFixups, NewSectionFixup, Body, W.Put;
    HeadAfterNext(p, patched, i);
    assert Fixups(p, patched)[i] == SectionFixup(p, patched, i);
  }

  /** The fixed fields, one after the other. */
  method WriteFields(p: Plan, patched: seq<byte>, start: seq<byte>, ghost tail: seq<byte>) returns (output: seq<byte>)
    requires Writable(p, patched) && Shaped(p.h)
    requires start == HeadAfter(p, patched, |p.h.sections| + 1) + tail
    ensures output == NewHead(p, patched) + tail
  {
    hide Shaped, HeadAfter, FieldFixups, SectionFixups, NewSectionFixup, W.Put;
    HeadAfterEnds(p, patched);
    var fields := FieldFixups(p);
    var first := |p.h.sections| + 1;
    output := start;
    for k := 0 to 11
      invariant output == HeadAfter(p, patched, first + k) + tail
    {
      var w := fields[k];
      HeadAfterNext(p, patched, first + k);
      assert Fixups(p, patched)[first + k] == w;
      PutInHead(HeadAfter(p, patched, first + k), tail, w.at, w.data);
      output := W.Put(output, w.at, w.data);
    }
  }

  // ----- Headers of equal beginnings -----

  /** Where the last byte pe_headers reads lies. */
  ghost predicate HeaderWithin(data: seq<byte>, n: nat)
    requires HeaderOk(data)
  {
    var h := HeaderOf(data);
    0x40 <= n && h.pe + 264 <= n && (h.sections == [] || h.table + 40 * |h.sections| <= n)
  }

  lemma NumLocal(a: seq<byte>, b: seq<byte>, n: nat, off: nat, k: nat)
    requires n <= |a| && n <= |b| && a[..n] == b[..n] && off + k <= n
    ensures Num(a, off, k) == Num(b, off, k) && a[off..off + k] == b[off..off + k]
  {
    assert a[..n] == a[0..n] && b[..n] == b[0..n];
    SliceOfSlice(a, 0, n, off, off + k);
    SliceOfSlice(b, 0, n, off, off + k);
  }

  lemma SectionLocal(a: seq<byte>, b: seq<byte>, n: nat, off: nat)
    requires n <= |a| && n <= |b| && a[..n] == b[..n] && off + 40 <= n
    ensures SectionAt(a, off) == SectionAt(b, off)
  {
    hide Num;
    NumLocal(a, b, n, off + 8, 4);
    NumLocal(a, b, n, off + 12, 4);
    NumLocal(a, b, n, off + 16, 4);
    NumLocal(a, b, n, off + 20, 4);
  }

  lemma DirectoryLocal(a: seq<byte>, b: seq<byte>, n: nat, off: nat)
    requires n <= |a| && n <= |b| && a[..n] == b[..n] && off + 8 <= n
    ensures DirectoryAt(a, off) == DirectoryAt(b, off)
  {
    hide Num;
    NumLocal(a, b, n, off, 4);
    NumLocal(a, b, n, off + 4, 4);
  }

  lemma HeaderOkLocal(a: seq<byte>, b: seq<byte>, n: nat)
    requires n <= |a| && n <= |b| && a[..n] == b[..n] && HeaderOk(a) && HeaderWithin(a, n)
    ensures HeaderOk(b) && PeOffset(b) == PeOffset(a)
    ensures var pe := PeOffset(a);
            Num(b, pe + 6, 2) == Num(a, pe + 6, 2) && Num(b, pe + 20, 2) == Num(a, pe + 20, 2)
  {
    hide Num;
    NumLocal(a, b, n, 0x3C, 4);
    var pe := PeOffset(a);
    NumLocal(a, b, n, 0, 2);
    assert a[..2] == a[0..2] && b[..2] == b[0..2];
    NumLocal(a, b, n, pe, 4);
    NumLocal(a, b, n, pe + 4, 2);
    NumLocal(a, b, n, pe + 6, 2);
    NumLocal(a, b, n, pe + 20, 2);
    NumLocal(a, b, n, pe + 24, 2);
  }

  lemma HeaderLocal(a: seq<byte>, b: seq<byte>, n: nat)
    requires n <= |a| && n <= |b| && a[..n] == b[..n] && HeaderOk(a) && HeaderWithin(a, n)
    ensures HeaderOk(b) && HeaderOf(b) == HeaderOf(a)
  {
    hide Num, HeaderOk, SectionAt, DirectoryAt;
    HeaderOkLocal(a, b, n);
    var h, g, o := HeaderOf(a), HeaderOf(b), HeaderOf(a).optional;
    HeaderBounds(b);
    HeaderBounds(a);
    forall i | 0 <= i < |h.sections|
      ensures h.sections[i] == g.sections[i]
    {
      SectionLocal(a, b, n, h.table + 40 * i);
    }
    forall i | 0 <= i < 16
      ensures h.directories[i] == g.directories[i]
    {
      DirectoryLocal(a, b, n, o + 112 + 8 * i);
    }
    NumLocal(a, b, n, o + 24, 8);
    NumLocal(a, b, n, o + 56, 4);
    NumLocal(a, b, n, o + 16, 4);
    NumLocal(a, b, n, o + 32, 4);
    NumLocal(a, b, n, o + 36, 4);
    NumLocal(a, b, n, o + 60, 4);
    assert g.sections == h.sections && g.directories == h.directories;
  }

  lemma HeaderBounds(a: seq<byte>)
    requires HeaderOk(a)
    ensures 0x40 <= |a| && PeOffset(a) + 264 <= |a|
    ensures TableFits(a, PeOffset(a) + 24 + Num(a, PeOffset(a) + 20, 2), Num(a, PeOffset(a) + 6, 2))
  {
  }
}
