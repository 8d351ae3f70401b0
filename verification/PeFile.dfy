/** PE32+ headers, the file-to-image mapping of imports_from_file, and the file rebuild writes. */
module PeFile {
  import opened Machine
  import opened GuestMemory
  import opened PeImports
  import opened SectionPayload
  import W = Writes

  const MAX_IMAGE: nat := 512 * 1024 * 1024

  datatype Section = Section(virtualSize: nat, rva: nat, rawSize: nat, raw: nat, header: nat) {
    /** Bytes of the image that belong to the section. */
    function Size(): nat { Max(virtualSize, rawSize) }
  }

  datatype Directory = Directory(rva: nat, size: nat)

  datatype Header = Header(
    pe: nat, optional: nat, table: nat, sections: seq<Section>, directories: seq<Directory>,
    imageBase: nat, imageSize: nat, entry: nat, sectionAlignment: nat, fileAlignment: nat, headersSize: nat)

  // ----- Reading headers -----

  function Num(data: seq<byte>, off: nat, n: nat): nat
    requires off + n <= |data|
  {
    FromLe(data[off..off + n])
  }

  function PeOffset(data: seq<byte>): nat
    requires 0x40 <= |data|
  {
    Num(data, 0x3C, 4)
  }

  /** Without sections the table is never read, wherever it lies. */
  predicate TableFits(data: seq<byte>, table: nat, count: nat) { count == 0 || table + 40 * count <= |data| }

  /** The image passes every check of pe_headers and nothing it reads is cut off. */
  predicate HeaderOk(data: seq<byte>) {
    && 0x40 <= |data|
    && data[..2] == [0x4D, 0x5A]
    && var pe := PeOffset(data);
    && pe + 26 <= |data|
    && data[pe..pe + 4] == [0x50, 0x45, 0, 0]
    && Num(data, pe + 4, 2) == 0x8664
    && 240 <= Num(data, pe + 20, 2)
    && Num(data, pe + 24, 2) == 0x20B
    && pe + 24 + 240 <= |data|
    && TableFits(data, pe + 24 + Num(data, pe + 20, 2), Num(data, pe + 6, 2))
  }

  function SectionAt(data: seq<byte>, off: nat): Section
    requires off + 40 <= |data|
  {
    Section(Num(data, off + 8, 4), Num(data, off + 12, 4), Num(data, off + 16, 4), Num(data, off + 20, 4), off)
  }

  function SectionsFrom(data: seq<byte>, table: nat, count: nat): (r: seq<Section>)
    requires TableFits(data, table, count)
    ensures |r| == count && forall i :: 0 <= i < count ==> r[i] == SectionAt(data, table + 40 * i)
  {
    seq(count, i requires 0 <= i < count => SectionAt(data, table + 40 * i))
  }

  function DirectoryAt(data: seq<byte>, off: nat): Directory
    requires off + 8 <= |data|
  {
    Directory(Num(data, off, 4), Num(data, off + 4, 4))
  }

  function DirectoriesFrom(data: seq<byte>, optional: nat): (r: seq<Directory>)
    requires optional + 240 <= |data|
    ensures |r| == 16 && forall i :: 0 <= i < 16 ==> r[i] == DirectoryAt(data, optional + 112 + 8 * i)
  {
    seq(16, i requires 0 <= i < 16 => DirectoryAt(data, optional + 112 + 8 * i))
  }

  function HeaderOf(data: seq<byte>): Header
    requires HeaderOk(data)
  {
    var pe := PeOffset(data);
    var o := pe + 24;
    var table := o + Num(data, pe + 20, 2);
    Header(pe, o, table, SectionsFrom(data, table, Num(data, pe + 6, 2)), DirectoriesFrom(data, o),
           Num(data, o + 24, 8), Num(data, o + 56, 4), Num(data, o + 16, 4), Num(data, o + 32, 4),
           Num(data, o + 36, 4), Num(data, o + 60, 4))
  }

  // ----- Mapping a file -----

  /** The bytes a section of the file puts into the image. */
  function CopyOf(raw: seq<byte>, s: Section): W.Write
    requires s.raw + s.rawSize <= |raw|
  {
    W.Write(s.rva, raw[s.raw..s.raw + s.rawSize])
  }

  predicate SectionFits(raw: seq<byte>, s: Section, size: nat) {
    s.rva + s.rawSize <= size && s.raw + s.rawSize <= |raw|
  }

  function CopySections(raw: seq<byte>, img: seq<byte>, sections: seq<Section>): (r: Option<seq<byte>>)
    ensures r.Some? ==> |r.value| == |img|
    decreases |sections|
  {
    if sections == [] then Some(img)
    else
      var n := |sections| - 1;
      match CopySections(raw, img, sections[..n])
      case None => None
      case Some(p) =>
        if SectionFits(raw, sections[n], |p|) then
          Some(W.Put(p, sections[n].rva, CopyOf(raw, sections[n]).data))
        else None
  }

  function MapFile(raw: seq<byte>): Option<seq<byte>> {
    if !HeaderOk(raw) then None
    else
      var h := HeaderOf(raw);
      if h.imageSize > MAX_IMAGE || h.headersSize > |raw| || h.headersSize > h.imageSize then None
      else CopySections(raw, raw[..h.headersSize] + Zeros(h.imageSize - h.headersSize), h.sections)
  }

  function ImportsFromFile(raw: seq<byte>): Option<seq<Import>> {
    match MapFile(raw)
    case None => None
    case Some(img) =>
      var d := HeaderOf(raw).directories[1];
      Imports(img, d.rva, d.rva + d.size)
  }

  method ReadImportsFromFile(raw: seq<byte>) returns (r: Option<seq<Import>>)
    ensures r == ImportsFromFile(raw)
  {
    hide HeaderOk, HeaderOf, Imports, W.Put;
    if !HeaderOk(raw) {
      return None;
    }
    var h := HeaderOf(raw);
    if h.imageSize > MAX_IMAGE || h.headersSize > |raw| || h.headersSize > h.imageSize {
      return None;
    }
    var blank := raw[..h.headersSize] + Zeros(h.imageSize - h.headersSize);
    var image := CopyAll(raw, blank, h.sections);
    if image.None? {
      return None;
    }
    SixteenDirectories(raw);
    var d := h.directories[1];
    r := ReadImports(image.value, d.rva, d.size);
  }

  lemma SixteenDirectories(raw: seq<byte>)
    requires HeaderOk(raw)
    ensures |HeaderOf(raw).directories| == 16
  {
  }

  method CopyAll(raw: seq<byte>, blank: seq<byte>, sections: seq<Section>) returns (r: Option<seq<byte>>)
    ensures r == CopySections(raw, blank, sections)
  {
    hide W.Put, SectionFits;
    var image := blank;
    for i := 0 to |sections|
      invariant CopySections(raw, blank, sections[..i]) == Some(image)
    {
      assert sections[..i + 1][..i] == sections[..i];
      var s := sections[i];
      if !SectionFits(raw, s, |image|) {
        CopyFails(raw, blank, sections, i + 1);
        return None;
      }
      CopyFits(raw, s, |image|);
      image := W.Put(image, s.rva, CopyOf(raw, s).data);
    }
    assert sections[..|sections|] == sections;
    return Some(image);
  }

  lemma CopyFits(raw: seq<byte>, s: Section, size: nat)
    requires SectionFits(raw, s, size)
    ensures s.raw + s.rawSize <= |raw| && s.rva + |CopyOf(raw, s).data| <= size
  {
  }

  lemma {:induction false} CopyFails(raw: seq<byte>, img: seq<byte>, sections: seq<Section>, i: nat)
    requires i <= |sections| && CopySections(raw, img, sections[..i]).None?
    ensures CopySections(raw, img, sections).None?
    decreases |sections|
  {
    hide W.Put, SectionFits;
    if i == |sections| {
      assert sections[..i] == sections;
    } else {
      var n := |sections| - 1;
      assert sections[..n][..i] == sections[..i];
      CopyFails(raw, img, sections[..n], i);
    }
  }

  /** Sections that all fit are a list of writes into the blank image. */
  lemma {:induction false} CopiesApply(raw: seq<byte>, img: seq<byte>, sections: seq<Section>, ws: seq<W.Write>)
    requires |ws| == |sections|
    requires forall i :: 0 <= i < |ws| ==> SectionFits(raw, sections[i], |img|) && ws[i] == CopyOf(raw, sections[i])
    ensures W.Inside(ws, |img|) && CopySections(raw, img, sections) == Some(W.Apply(img, ws))
    decreases |ws|
  {
    if ws != [] {
      var n := |ws| - 1;
      CopiesApply(raw, img, sections[..n], ws[..n]);
      assert SectionFits(raw, sections[n], |img|);
    }
  }
}
