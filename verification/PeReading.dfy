/** What an import list is, said without reference to how it is walked: strings, lookup tables and
    descriptors by their places in the image. */
module PeReading {
  import opened Machine
  import opened GuestMemory
  import opened PeImports
  import opened SectionPayload
  import opened PeFile
  import W = Writes

  /** A NUL-terminated ASCII string of fewer than 4096 bytes stands at `at`. */
  ghost predicate StringAt(img: seq<byte>, at: nat, s: Str) {
    && |s| < 4096 && at + |s| < |img| && img[at + |s|] == 0
    && forall i :: 0 <= i < |s| ==> img[at + i] == s[i] && 0 < s[i] < 128
  }

  /** `s` with its capital letters made small. */
  ghost predicate IsLower(s: Str, t: Str) {
    |s| == |t| && forall i :: 0 <= i < |s| ==> t[i] == if 65 <= s[i] <= 90 then s[i] + 32 else s[i]
  }

  /** The number the decimal digits spell. */
  function Spelled(s: Str): int {
    if s == [] then 0 else 10 * Spelled(s[..|s| - 1]) + (s[|s| - 1] as int - 48)
  }

  /** The decimal spelling of `n`, without leading zeros. */
  ghost predicate IsDecimal(n: nat, s: Str) {
    && s != [] && (forall i :: 0 <= i < |s| ==> 48 <= s[i] <= 57) && (1 < |s| ==> s[0] != 48)
    && Spelled(s) == n
  }

  /** Entry `value` of a lookup table names this symbol: by ordinal, "#" and the low 16 bits, or by
      the string two bytes behind the address. */
  ghost predicate Names(img: seq<byte>, value: nat, name: Str) {
    if value < 0x8000_0000_0000_0000 then StringAt(img, value + 2, name)
    else |name| > 0 && name[0] == 35 && IsDecimal(value % 0x1_0000, name[1..])
  }

  /** `part` lists the table of one descriptor: the lookup table, or the address table when there is
      none, up to its zero entry; the slots are those of the address table. */
  ghost predicate DllLists(img: seq<byte>, d: Descriptor, part: seq<Import>) {
    exists s, dll :: StringAt(img, d.name, s) && IsLower(s, dll) && TableLists(img, if d.ilt == 0 then d.iat else d.ilt, d.iat, dll, part)
  }

  ghost predicate TableLists(img: seq<byte>, table: nat, iat: nat, dll: Str, part: seq<Import>) {
    && table + 8 * (|part| + 1) <= |img| && Num(img, table + 8 * |part|, 8) == 0
    && forall k :: 0 <= k < |part| ==> EntryLists(img, table, iat, dll, k, part[k])
  }

  ghost predicate EntryLists(img: seq<byte>, table: nat, iat: nat, dll: Str, k: nat, e: Import)
    requires table + 8 * k + 8 <= |img|
  {
    Num(img, table + 8 * k, 8) != 0 && e.dll == dll && e.slot == iat + 8 * k && Names(img, Num(img, table + 8 * k, 8), e.name)
  }

  ghost predicate DescriptorIs(img: seq<byte>, at: nat, d: Descriptor) {
    at + 20 <= |img| && d == Descriptor(Num(img, at, 4), Num(img, at + 12, 4), Num(img, at + 16, 4))
  }

  /** Descriptors from `off` on, up to the end of the directory or a null one. */
  ghost predicate Lists(img: seq<byte>, off: nat, end: nat, parts: seq<seq<Import>>)
    decreases |parts|
  {
    if parts == [] then off >= end || DescriptorIs(img, off, Descriptor(0, 0, 0))
    else
      && off < end
      && (exists d :: DescriptorIs(img, off, d) && d != Descriptor(0, 0, 0) && DllLists(img, d, parts[0]))
      && Lists(img, off + 20, end, parts[1..])
  }

  ghost predicate ListsImports(img: seq<byte>, off: nat, end: nat, list: seq<Import>) {
    exists parts :: Lists(img, off, end, parts) && Flat(parts) == list
  }

  function Flat(parts: seq<seq<Import>>): seq<Import> {
    if parts == [] then [] else parts[0] + Flat(parts[1..])
  }

  // ----- The pieces -----

  lemma CStringIff(img: seq<byte>, at: nat, s: Str)
    ensures CString(img, at) == Some(s) <==> StringAt(img, at, s)
  {
    if StringAt(img, at, s) {
      assert img[at..at + |s| + 1] == s + [0];
      CStringAt(img, at, s);
    }
    if CString(img, at) == Some(s) {
      var end := StringEnd(img, at);
      assert s == img[at..end];
      forall i | 0 <= i < |s|
        ensures img[at + i] == s[i] && 0 < s[i] < 128
      {
      }
    }
  }

  lemma {:induction false} LowerIs(s: Str)
    ensures IsLower(s, Lower(s))
  {
    if s != [] {
      LowerIs(s[1..]);
      forall i | 0 <= i < |s|
        ensures Lower(s)[i] == if 65 <= s[i] <= 90 then s[i] + 32 else s[i]
      {
        if i > 0 {
          assert Lower(s)[i] == Lower(s[1..])[i - 1] && s[1..][i - 1] == s[i];
        }
      }
    }
  }

  lemma LowerUnique(s: Str, t: Str)
    requires IsLower(s, t)
    ensures t == Lower(s)
  {
    LowerIs(s);
  }

  lemma {:induction false} DigitsSpell(n: nat)
    ensures IsDecimal(n, Digits(n)) && (0 < n ==> Digits(n)[0] != 48)
  {
    var s := Digits(n);
    if n < 10 {
      assert s[..0] == [];
    } else {
      DigitsSpell(n / 10);
      assert s[..|s| - 1] == Digits(n / 10);
    }
  }

  lemma {:induction false} SpellingUnique(n: nat, s: Str)
    requires IsDecimal(n, s)
    ensures s == Digits(n)
    decreases |s|
  {
    var k := |s| - 1;
    var front, d := s[..k], s[k] as int - 48;
    assert s == front + [s[k]];
    if k == 0 {
      assert front == [];
    } else {
      SpelledPositive(front);
      assert n / 10 == Spelled(front) && n % 10 == d;
      SpellingUnique(n / 10, front);
    }
  }

  lemma {:induction false} SpelledPositive(s: Str)
    requires s != [] && s[0] != 48 && forall i :: 0 <= i < |s| ==> 48 <= s[i] <= 57
    ensures 0 < Spelled(s)
    decreases |s|
  {
    if |s| > 1 {
      SpelledPositive(s[..|s| - 1]);
    } else {
      assert s[..0] == [];
    }
  }

  lemma SymbolIff(img: seq<byte>, value: u64, name: Str)
    ensures SymbolName(img, value) == Some(name) <==> Names(img, value, name)
  {
    if value < 0x8000_0000_0000_0000 {
      CStringIff(img, value + 2, name);
    } else {
      var n := value % 0x1_0000;
      DigitsSpell(n);
      if Names(img, value, name) {
        SpellingUnique(n, name[1..]);
        assert name == [35] + name[1..];
      }
    }
  }

  lemma FieldNum(img: seq<byte>, at: nat)
    ensures Field(img, at, 8) == if at + 8 <= |img| then Some(Num(img, at, 8)) else None
    ensures at + 8 <= |img| ==> Num(img, at, 8) < U64
  {
    if at + 8 <= |img| {
      LeFromLe(img[at..at + 8]);
      Pow256Word();
    }
  }

  // ----- Tables -----

  /** `part` lists the table from `index` on. */
  ghost predicate TailLists(img: seq<byte>, table: nat, iat: nat, dll: Str, index: nat, part: seq<Import>) {
    TableLists(img, table + 8 * index, iat + 8 * index, dll, part)
  }

  lemma {:induction false} ThunksIff(img: seq<byte>, table: nat, iat: nat, dll: Str, index: nat, part: seq<Import>)
    ensures Thunks(img, table, iat, dll, index) == Some(part) <==> TailLists(img, table, iat, dll, index, part)
    decreases |img| - 8 * index
  {
    hide Num, Field, SymbolName, Names;
    FieldNum(img, table + index * 8);
    if table + index * 8 + 8 <= |img| {
      var value := Num(img, table + index * 8, 8);
      if part == [] {
        ThunksEmpty(img, table, iat, dll, index);
      } else {
        var e, rest := part[0], part[1..];
        SymbolIff(img, value, e.name);
        ThunksIff(img, table, iat, dll, index + 1, rest);
        TailSplits(img, table, iat, dll, index, part);
        assert part == [e] + rest;
        ThunksFirst(img, table, iat, dll, index, part);
      }
    }
  }

  lemma ThunksEmpty(img: seq<byte>, table: nat, iat: nat, dll: Str, index: nat)
    requires table + index * 8 + 8 <= |img|
    ensures Thunks(img, table, iat, dll, index) == Some([]) <==> Num(img, table + index * 8, 8) == 0
  {
    hide Num, Field, SymbolName;
    FieldNum(img, table + index * 8);
  }

  lemma ThunksFirst(img: seq<byte>, table: nat, iat: nat, dll: Str, index: nat, part: seq<Import>)
    requires table + index * 8 + 8 <= |img| && part != []
    ensures Thunks(img, table, iat, dll, index) == Some(part)
       <==> var value := Num(img, table + index * 8, 8);
            && value != 0 && SymbolName(img, value) == Some(part[0].name) && part[0].dll == dll && part[0].slot == iat + index * 8
            && Thunks(img, table, iat, dll, index + 1) == Some(part[1..])
  {
    hide Num, Field, SymbolName;
    FieldNum(img, table + index * 8);
    assert part == [part[0]] + part[1..];
    var t := Thunks(img, table, iat, dll, index);
    if t == Some(part) {
      var rest := Thunks(img, table, iat, dll, index + 1).value;
      assert part[1..] == rest;
    }
  }

  lemma TailSplits(img: seq<byte>, table: nat, iat: nat, dll: Str, index: nat, part: seq<Import>)
    requires part != [] && table + 8 * index + 8 <= |img|
    ensures TailLists(img, table, iat, dll, index, part)
       <==> EntryLists(img, table + 8 * index, iat + 8 * index, dll, 0, part[0]) && TailLists(img, table, iat, dll, index + 1, part[1..])
  {
    hide Num, Names;
    var at, rest := table + 8 * index, part[1..];
    assert at + 8 * (|part| + 1) == at + 8 + 8 * (|rest| + 1) && at + 8 * |part| == at + 8 + 8 * |rest|;
    if TailLists(img, table, iat, dll, index, part) {
      forall k | 0 <= k < |rest|
        ensures EntryLists(img, at + 8, iat + 8 * index + 8, dll, k, rest[k])
      {
        assert EntryLists(img, at, iat + 8 * index, dll, k + 1, part[k + 1]);
      }
      assert EntryLists(img, at, iat + 8 * index, dll, 0, part[0]);
    }
    if EntryLists(img, at, iat + 8 * index, dll, 0, part[0]) && TailLists(img, table, iat, dll, index + 1, rest) {
      forall k | 0 <= k < |part|
        ensures EntryLists(img, at, iat + 8 * index, dll, k, part[k])
      {
        if k > 0 {
          assert EntryLists(img, at + 8, iat + 8 * index + 8, dll, k - 1, rest[k - 1]);
        }
      }
    }
  }

  lemma DllIff(img: seq<byte>, d: Descriptor, part: seq<Import>)
    ensures OneDll(img, d) == Some(part) <==> DllLists(img, d, part)
  {
    hide CString, Thunks, TableLists, Lower, StringAt, IsLower;
    var table := if d.ilt == 0 then d.iat else d.ilt;
    if OneDll(img, d) == Some(part) {
      var s := CString(img, d.name).value;
      CStringIff(img, d.name, s);
      LowerIs(s);
      ThunksIff(img, table, d.iat, Lower(s), 0, part);
    }
    if DllLists(img, d, part) {
      var s, dll :| StringAt(img, d.name, s) && IsLower(s, dll) && TableLists(img, table, d.iat, dll, part);
      CStringIff(img, d.name, s);
      LowerUnique(s, dll);
      ThunksIff(img, table, d.iat, dll, 0, part);
    }
  }

  // ----- Directories -----

  lemma DescriptorIff(img: seq<byte>, at: nat, d: Descriptor)
    ensures DescriptorAt(img, at) == Some(d) <==> DescriptorIs(img, at, d)
  {
  }

  lemma {:induction false} ListsGive(img: seq<byte>, off: nat, end: nat, parts: seq<seq<Import>>)
    requires Lists(img, off, end, parts)
    ensures Imports(img, off, end) == Some(Flat(parts))
    decreases |parts|
  {
    hide OneDll, DescriptorAt, DescriptorIs, DllLists;
    if parts == [] {
      if off < end {
        DescriptorIff(img, off, Descriptor(0, 0, 0));
      }
    } else {
      var d :| DescriptorIs(img, off, d) && d != Descriptor(0, 0, 0) && DllLists(img, d, parts[0]);
      DescriptorIff(img, off, d);
      DllIff(img, d, parts[0]);
      ListsGive(img, off + 20, end, parts[1..]);
    }
  }

  lemma {:induction false} GivenLists(img: seq<byte>, off: nat, end: nat) returns (parts: seq<seq<Import>>)
    requires Imports(img, off, end).Some?
    ensures Lists(img, off, end, parts) && Flat(parts) == Imports(img, off, end).value
    decreases end - off
  {
    hide OneDll, DescriptorAt, DescriptorIs, DllLists;
    if off >= end {
      parts := [];
    } else {
      var d := DescriptorAt(img, off).value;
      DescriptorIff(img, off, d);
      if d == NULL {
        parts := [];
      } else {
        var first := OneDll(img, d).value;
        DllIff(img, d, first);
        var rest := GivenLists(img, off + 20, end);
        parts := [first] + rest;
        assert parts[1..] == rest;
      }
    }
  }

  /** The walk finds a list exactly when the image holds one, and then that one; otherwise the
      image is refused. */
  lemma ImportsIff(img: seq<byte>, off: nat, end: nat, list: seq<Import>)
    ensures Imports(img, off, end) == Some(list) <==> ListsImports(img, off, end, list)
  {
    hide Lists, Imports;
    if ListsImports(img, off, end, list) {
      var parts :| Lists(img, off, end, parts) && Flat(parts) == list;
      ListsGive(img, off, end, parts);
    }
    if Imports(img, off, end) == Some(list) {
      var parts := GivenLists(img, off, end);
    }
  }

  // ----- Headers and mapping -----

  lemma Num2(data: seq<byte>, off: nat)
    requires off + 2 <= |data|
    ensures Num(data, off, 2) == data[off] as int + 256 * data[off + 1] as int
  {
    var s := data[off..off + 2];
    assert s[1..][1..] == [];
    assert FromLe(s[1..]) == s[1..][0] + 256 * FromLe([]);
  }

  lemma Num4(data: seq<byte>, off: nat)
    requires off + 4 <= |data|
    ensures Num(data, off, 4)
         == data[off] as int + 256 * data[off + 1] as int + 0x1_0000 * data[off + 2] as int + 0x100_0000 * data[off + 3] as int
  {
    var s := data[off..off + 4];
    Num2(data, off + 2);
    assert s[1..][1..] == data[off + 2..off + 4];
    assert FromLe(s[1..]) == s[1..][0] + 256 * FromLe(s[1..][1..]);
  }

  /** The checks of the header reader, on the bytes themselves. */
  ghost predicate HeaderBytes(data: seq<byte>) {
    && 0x40 <= |data| && data[0] == 0x4D && data[1] == 0x5A
    && var pe := data[0x3C] as int + 0x100 * data[0x3D] as int + 0x1_0000 * data[0x3E] as int + 0x100_0000 * data[0x3F] as int;
    && pe + 264 <= |data|
    && data[pe] == 0x50 && data[pe + 1] == 0x45 && data[pe + 2] == 0 && data[pe + 3] == 0
    && data[pe + 4] == 0x64 && data[pe + 5] == 0x86 && data[pe + 24] == 0x0B && data[pe + 25] == 0x02
    && var size, count := data[pe + 20] as int + 256 * data[pe + 21] as int, data[pe + 6] as int + 256 * data[pe + 7] as int;
       240 <= size && (count == 0 || pe + 24 + size + 40 * count <= |data|)
  }

  lemma HeaderIff(data: seq<byte>)
    ensures HeaderOk(data) <==> HeaderBytes(data)
  {
    hide Num;
    if 0x40 <= |data| {
      Num4(data, 0x3C);
      var pe := PeOffset(data);
      if pe + 26 <= |data| {
        Num2(data, pe + 4);
        Num2(data, pe + 6);
        Num2(data, pe + 20);
        Num2(data, pe + 24);
        assert data[pe..pe + 4] == [data[pe], data[pe + 1], data[pe + 2], data[pe + 3]];
      }
      assert data[..2] == [data[0], data[1]];
    }
  }

  predicate Covers(s: Section, x: int) { s.rva <= x < s.rva + s.rawSize }

  /** Byte `x` of the image is the byte of the last section that covers it, or the blank image's. */
  ghost predicate ByteMapped(raw: seq<byte>, blank: seq<byte>, sections: seq<Section>, img: seq<byte>, x: nat)
    requires x < |img| == |blank| && forall i :: 0 <= i < |sections| ==> sections[i].raw + sections[i].rawSize <= |raw|
  {
    && ((forall i :: 0 <= i < |sections| ==> !Covers(sections[i], x)) ==> img[x] == blank[x])
    && forall i :: 0 <= i < |sections| && Covers(sections[i], x) && (forall j :: i < j < |sections| ==> !Covers(sections[j], x)) ==>
         img[x] == raw[sections[i].raw + (x - sections[i].rva)]
  }

  ghost predicate AllFit(raw: seq<byte>, sections: seq<Section>, size: nat) {
    forall i :: 0 <= i < |sections| ==> sections[i].rva + sections[i].rawSize <= size && sections[i].raw + sections[i].rawSize <= |raw|
  }

  lemma {:induction false} CopyIff(raw: seq<byte>, blank: seq<byte>, sections: seq<Section>, img: seq<byte>)
    ensures CopySections(raw, blank, sections).Some? <==> AllFit(raw, sections, |blank|)
    ensures CopySections(raw, blank, sections) == Some(img) ==>
              |img| == |blank| && forall x: nat :: x < |img| ==> ByteMapped(raw, blank, sections, img, x)
    decreases |sections|
  {
    if sections != [] {
      var n := |sections| - 1;
      var front, s := sections[..n], sections[n];
      var p := CopySections(raw, blank, front);
      CopyIff(raw, blank, front, if p.Some? then p.value else []);
      assert AllFit(raw, sections, |blank|) <==> AllFit(raw, front, |blank|) && SectionFits(raw, s, |blank|) by {
        assert forall i :: 0 <= i < n ==> front[i] == sections[i];
      }
      if CopySections(raw, blank, sections) == Some(img) {
        forall x: nat | x < |img|
          ensures ByteMapped(raw, blank, sections, img, x)
        {
          CopiedByte(raw, s, p.value, x);
          LastSection(raw, blank, sections, p.value, img, x);
        }
      }
    }
  }

  lemma CopiedByte(raw: seq<byte>, s: Section, p: seq<byte>, x: nat)
    requires s.raw + s.rawSize <= |raw| && s.rva + s.rawSize <= |p| && x < |p|
    ensures W.Put(p, s.rva, CopyOf(raw, s).data)[x] == if Covers(s, x) then raw[s.raw + (x - s.rva)] else p[x]
  {
  }

  lemma LastSection(raw: seq<byte>, blank: seq<byte>, sections: seq<Section>, p: seq<byte>, img: seq<byte>, x: nat)
    requires sections != [] && AllFit(raw, sections, |blank|) && |p| == |blank| == |img| && x < |img|
    requires var s := sections[|sections| - 1]; img[x] == if Covers(s, x) then raw[s.raw + (x - s.rva)] else p[x]
    requires ByteMapped(raw, blank, sections[..|sections| - 1], p, x)
    ensures ByteMapped(raw, blank, sections, img, x)
  {
    var front := sections[..|sections| - 1];
    assert forall i :: 0 <= i < |front| ==> front[i] == sections[i];
  }

  /** The mapped image, byte by byte: headers, then sections over them, zero elsewhere. A file is
      refused exactly when its headers are bad, too large or do not fit, or a section does not. */
  lemma MapIff(raw: seq<byte>)
    ensures MapFile(raw).Some? <==> HeaderBytes(raw) && FileFits(raw)
    ensures MapFile(raw).Some? ==>
              var h, img := HeaderOf(raw), MapFile(raw).value;
              var blank := raw[..h.headersSize] + seq(h.imageSize - h.headersSize, i => 0);
              |img| == h.imageSize && forall x: nat :: x < |img| ==> ByteMapped(raw, blank, h.sections, img, x)
  {
    hide HeaderOf, HeaderBytes;
    HeaderIff(raw);
    if HeaderOk(raw) {
      var h := HeaderOf(raw);
      if h.headersSize <= |raw| && h.headersSize <= h.imageSize {
        var blank := raw[..h.headersSize] + Zeros(h.imageSize - h.headersSize);
        assert blank == raw[..h.headersSize] + seq(h.imageSize - h.headersSize, i => 0);
        var r := CopySections(raw, blank, h.sections);
        CopyIff(raw, blank, h.sections, if r.Some? then r.value else []);
      }
    }
  }

  ghost predicate FileFits(raw: seq<byte>) {
    && HeaderOk(raw)
    && var h := HeaderOf(raw);
       h.imageSize <= 0x2000_0000 && h.headersSize <= |raw| && h.headersSize <= h.imageSize && AllFit(raw, h.sections, h.imageSize)
  }
}
