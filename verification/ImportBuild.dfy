/** The loops of rebuild that read the old directory and lay out the new section. */
module ImportBuild {
  import opened Machine
  import opened GuestMemory
  import opened PeImports
  import opened SectionPayload
  import opened ImportLayout
  import opened ImportGroups
  import P = ImportPatches
  import W = Writes

  // ----- Retained descriptors -----

  ghost predicate FromDirectory(image: seq<byte>, ds: seq<Descriptor>, parts: seq<seq<Import>>) {
    && |parts| == |ds|
    && forall i :: 0 <= i < |ds| ==>
         Small(ds[i]) && ds[i].ilt != 0 && ds[i].iat != 0 && ds[i].name != 0 && OneDll(image, ds[i]) == Some(parts[i])
  }

  /** Every descriptor up to the null one has its own lookup table, is readable, and its address
      table lies in the image. */
  predicate DirectoryOk(image: seq<byte>, off: nat, end: nat)
    decreases end - off
  {
    off >= end ||
    match DescriptorAt(image, off)
    case None => false
    case Some(d) => d == NULL || (DescriptorOk(image, d) && DirectoryOk(image, off + 20, end))
  }

  predicate DescriptorOk(image: seq<byte>, d: Descriptor) {
    && d.ilt != 0 && d.iat != 0 && d.name != 0
    && OneDll(image, d).Some? && d.iat + (|OneDll(image, d).value| + 1) * 8 <= |image|
  }

  /** The existing directory; a descriptor without its own lookup table is refused, and so is an
      address table that reaches past the image. */
  method CollectRetained(image: seq<byte>, directory: nat, size: nat) returns (r: Option<(seq<Descriptor>, seq<seq<Import>>)>)
    ensures r.Some? <==> DirectoryOk(image, directory, directory + size)
    ensures r.Some? ==> 20 * |r.value.0| <= size + 20
    ensures r.Some? ==> FromDirectory(image, r.value.0, r.value.1)
    ensures r.Some? ==> Imports(image, directory, directory + size) == Some(Concat(r.value.1))
    ensures r.Some? ==> forall i :: 0 <= i < |r.value.0| ==> r.value.0[i].iat + (|r.value.1[i]| + 1) * 8 <= |image|
  {
    hide OneDll, DescriptorAt, Imports, Small;
    var retained: seq<Descriptor>, parts: seq<seq<Import>> := [], [];
    var offset, end := directory, directory + size;
    ImportsFromStart(image, directory, end);
    while offset < end
      invariant FromDirectory(image, retained, parts)
      invariant forall i :: 0 <= i < |retained| ==> retained[i].iat + (|parts[i]| + 1) * 8 <= |image|
      invariant ImportsFrom(image, offset, end, Concat(parts)) == Imports(image, directory, end)
      invariant DirectoryOk(image, offset, end) <==> DirectoryOk(image, directory, end)
      invariant offset == directory + 20 * |retained| && offset <= end + 20
    {
      var d := DescriptorAt(image, offset);
      if d.None? {
        return None;
      }
      if d.value == NULL {
        break;
      }
      if d.value.ilt == 0 || d.value.iat == 0 || d.value.name == 0 {
        return None;
      }
      var part := ReadOneDll(image, d.value);
      if part.None? || d.value.iat + (|part.value| + 1) * 8 > |image| {
        return None;
      }
      DescriptorSmall(image, offset);
      ImportsFromNext(image, offset, end, Concat(parts), part.value);
      ConcatNext(parts, part.value);
      retained, parts := retained + [d.value], parts + [part.value];
      offset := offset + 20;
    }
    DirectoryEnds(image, offset, end, Concat(parts));
    return Some((retained, parts));
  }

  lemma DirectoryEnds(image: seq<byte>, off: nat, end: nat, done: seq<Import>)
    requires off >= end || DescriptorAt(image, off) == Some(NULL)
    ensures ImportsFrom(image, off, end, done) == Some(done) && DirectoryOk(image, off, end)
  {
    assert done + [] == done;
  }

  lemma DescriptorSmall(image: seq<byte>, off: nat)
    ensures DescriptorAt(image, off).Some? ==> Small(DescriptorAt(image, off).value)
  {
    if off + 20 <= |image| {
      LeFromLe(image[off..off + 4]);
      LeFromLe(image[off + 12..off + 16]);
      LeFromLe(image[off + 16..off + 20]);
      Pow256Word();
    }
  }

  lemma {:induction false} ConcatNext(parts: seq<seq<Import>>, part: seq<Import>)
    ensures Concat(parts + [part]) == Concat(parts) + part
    decreases |parts|
  {
    if parts == [] {
      assert [part][1..] == [] && [] + [part] == [part];
      assert part + [] == part && [] + part == part;
    } else {
      ConcatNext(parts[1..], part);
      assert (parts + [part])[1..] == parts[1..] + [part];
      assert parts[0] + (Concat(parts[1..]) + part) == parts[0] + Concat(parts[1..]) + part;
    }
  }

  // ----- Laying out -----

  /** Hint and name of every symbol of a group. None is an address that no longer fits its field. */
  method LayNames(symbols: seq<Symbol>, section: Payload, ghost head: nat) returns (names: Option<seq<u64>>)
    requires head <= |section.bytes|
    modifies section
    ensures old(section.bytes) <= section.bytes && |section.bytes| <= |old(section.bytes)| + NamesSize(symbols)
    ensures AsciiNames(symbols) && section.rva + |old(section.bytes)| + NamesSize(symbols) <= U32 ==> names.Some?
    ensures names.Some? ==> AsciiNames(symbols)
    ensures names.Some? ==> |names.value| == |symbols|
    ensures names.Some? ==> forall k :: 0 <= k < |symbols| ==> NameLaid(section.bytes, section.rva, head, symbols[k], names.value[k])
  {
    hide NameLaid, Ascii, NamesSize, AlignTo;
    NoNames(symbols);
    var out: seq<u64> := [];
    for i := 0 to |symbols|
      invariant forall k :: 0 <= k < i ==> Ascii(symbols[k].name)
      invariant |out| == i && old(section.bytes) <= section.bytes
      invariant |section.bytes| <= |old(section.bytes)| + NamesSize(symbols[..i])
      invariant forall k :: 0 <= k < i ==> NameLaid(section.bytes, section.rva, head, symbols[k], out[k])
    {
      NamesNext(symbols, i);
      if !Ascii(symbols[i].name) {
        return None;
      }
      ghost var before := section.bytes;
      var at := section.Append(HintName(symbols[i].name), 2);
      if at >= U32 {
        return None;
      }
      NamePlaced(section.bytes, section.rva, head, symbols[i], at);
      PrefixIsBeyond(before, section.bytes, head);
      forall k | 0 <= k < i
        ensures NameLaid(section.bytes, section.rva, head, symbols[k], out[k])
      {
        NameStays(before, section.bytes, section.rva, head, symbols[k], out[k]);
      }
      out := out + [at];
    }
    assert symbols[..|symbols|] == symbols;
    return Some(out);
  }

  lemma NoNames(symbols: seq<Symbol>)
    ensures NamesSize(symbols[..0]) == 0
  {
  }

  lemma NamesNext(symbols: seq<Symbol>, i: nat)
    requires i < |symbols|
    ensures NamesSize(symbols[..i + 1]) == NamesSize(symbols[..i]) + |symbols[i].name| + 4 <= NamesSize(symbols)
  {
    assert symbols[..i + 1][..i] == symbols[..i];
    NamesMonotone(symbols, i + 1);
  }

  lemma NamePlaced(bytes: seq<byte>, rva: nat, head: nat, s: Symbol, at: nat)
    requires rva + head <= at < U32 && At(bytes, at - rva, HintName(s.name))
    ensures NameLaid(bytes, rva, head, s, at)
  {
  }

  /** DLL name, symbol names and lookup table of one group. */
  method LayGroup(g: Group, section: Payload, ghost head: nat) returns (r: Option<Placed>)
    requires head <= |section.bytes|
    modifies section
    ensures old(section.bytes) <= section.bytes && |section.bytes| <= |old(section.bytes)| + GroupRoom(g)
    ensures AsciiGroup(g) && section.rva + |old(section.bytes)| + GroupRoom(g) <= U32 ==> r.Some?
    ensures r.Some? ==> AsciiGroup(g)
    ensures r.Some? ==> GroupLaid(section.bytes, section.rva, head, g, r.value)
  {
    hide NameLaid, GroupLaid, Table, NamesSize, AlignTo, Ascii, AsciiNames;
    if !Ascii(g.dll) {
      return None;
    }
    AlignToOne(|section.bytes|);
    var dll := section.Append(g.dll + [0], 1);
    ghost var first := section.bytes;
    var names := LayNames(g.symbols, section, head);
    if names.None? {
      return None;
    }
    ghost var before := section.bytes;
    TableLength(names.value);
    var ilt := section.Append(Table(names.value), 8);
    if ilt >= U32 {
      return None;
    }
    GroupPlaced(first, before, section.bytes, section.rva, head, g, Placed(dll, names.value, ilt, 0));
    return Some(Placed(dll, names.value, ilt, 0));
  }

  /** The pieces of a group stay in place while the ones behind them are appended. */
  lemma GroupPlaced(first: seq<byte>, before: seq<byte>, bytes: seq<byte>, rva: nat, head: nat, g: Group, p: Placed)
    requires first <= before <= bytes && head <= |first| && |p.names| == |g.symbols|
    requires rva + head <= p.dll < p.ilt < U32 && At(first, p.dll - rva, g.dll + [0]) && At(bytes, p.ilt - rva, Table(p.names))
    requires forall k :: 0 <= k < |g.symbols| ==> NameLaid(before, rva, head, g.symbols[k], p.names[k])
    ensures GroupLaid(bytes, rva, head, g, p)
  {
    hide NameLaid, Table, SameBeyond, At;
    PrefixIsBeyond(first, bytes, head);
    AtBeyond(first, bytes, head, p.dll - rva, g.dll + [0]);
    PrefixIsBeyond(before, bytes, head);
    forall k | 0 <= k < |g.symbols|
      ensures NameLaid(bytes, rva, head, g.symbols[k], p.names[k])
    {
      NameStays(before, bytes, rva, head, g.symbols[k], p.names[k]);
    }
  }

  lemma AlignToOne(n: nat)
    ensures AlignTo(n, 1) == n
  {
  }

  lemma TableLength(names: seq<u64>)
    ensures |Table(names)| == 8 * (|names| + 1)
  {
  }

  method LayTables(groups: seq<Group>, section: Payload, ghost head: nat) returns (r: Option<seq<Placed>>)
    requires head <= |section.bytes|
    modifies section
    ensures old(section.bytes) <= section.bytes && |section.bytes| <= |old(section.bytes)| + TablesSize(groups)
    ensures AsciiGroups(groups) && section.rva + |old(section.bytes)| + TablesSize(groups) <= U32 ==> r.Some?
    ensures r.Some? ==> AsciiGroups(groups)
    ensures r.Some? ==> |r.value| == |groups| && TablesLaid(section.bytes, section.rva, head, groups, r.value)
  {
    hide GroupLaid, GroupRoom, AsciiGroup;
    var placed: seq<Placed> := [];
    for i := 0 to |groups|
      invariant forall k :: 0 <= k < i ==> AsciiGroup(groups[k])
      invariant |placed| == i && old(section.bytes) <= section.bytes
      invariant |section.bytes| <= |old(section.bytes)| + TablesSize(groups[..i])
      invariant TablesLaid(section.bytes, section.rva, head, groups, placed)
    {
      ghost var before := section.bytes;
      assert groups[..i + 1][..i] == groups[..i];
      SizesMonotone(groups, i + 1);
      var p := LayGroup(groups[i], section, head);
      if p.None? {
        return None;
      }
      PrefixIsBeyond(before, section.bytes, head);
      TablesStay(before, section.bytes, section.rva, head, groups, placed);
      placed := placed + [p.value];
    }
    assert groups[..|groups|] == groups;
    return Some(placed);
  }

  /** A slot recorded for (DLL, name) is the slot of such a symbol in its group's address table. */
  ghost predicate SlotsTrue(slots: P.Slots, groups: seq<Group>, placed: seq<Placed>, n: nat) {
    && n <= |groups| && n <= |placed|
    && (forall i, k :: 0 <= i < n && 0 <= k < |groups[i].symbols| ==> (groups[i].dll, groups[i].symbols[k].name) in slots)
    && (forall key :: key in slots ==> SlotTrue(key, slots[key], groups, placed, n))
  }

  ghost predicate SlotTrue(key: (Str, Str), slot: nat, groups: seq<Group>, placed: seq<Placed>, n: nat)
    requires n <= |groups| && n <= |placed|
  {
    exists i, k :: 0 <= i < n && 0 <= k < |groups[i].symbols| && SlotAt(key, slot, groups[i], placed[i].iat, k)
  }

  ghost predicate SlotAt(key: (Str, Str), slot: nat, g: Group, iat: nat, k: nat) {
    k < |g.symbols| && key == (g.dll, g.symbols[k].name) && slot == iat + k * 8
  }

  ghost predicate Mine(key: (Str, Str), slot: nat, g: Group, iat: nat, n: nat) {
    exists k :: 0 <= k < n && SlotAt(key, slot, g, iat, k)
  }

  method AddSlots(g: Group, iat: nat, slots: P.Slots) returns (out: P.Slots)
    ensures forall key :: key in slots ==> key in out
    ensures forall k :: 0 <= k < |g.symbols| ==> (g.dll, g.symbols[k].name) in out
    ensures forall key :: key in out ==> (key in slots && out[key] == slots[key]) || Mine(key, out[key], g, iat, |g.symbols|)
  {
    out := slots;
    for i := 0 to |g.symbols|
      invariant forall key :: key in slots ==> key in out
      invariant forall k :: 0 <= k < i ==> (g.dll, g.symbols[k].name) in out
      invariant forall key :: key in out ==> (key in slots && out[key] == slots[key]) || Mine(key, out[key], g, iat, i)
    {
      var key := (g.dll, g.symbols[i].name);
      assert SlotAt(key, iat + i * 8, g, iat, i);
      out := out[key := iat + i * 8];
    }
  }

  ghost function HeadSize(retained: seq<Descriptor>, groups: seq<Group>): nat { 20 * (|retained| + |groups| + 1) }

  /** Address tables and descriptors are done for the first `i` groups. */
  ghost predicate IatState(bytes: seq<byte>, rva: nat, retained: seq<Descriptor>, groups: seq<Group>, placed: seq<Placed>, i: nat) {
    var head := HeadSize(retained, groups);
    && |placed| == |groups| && i <= |groups|
    && TablesLaid(bytes, rva, head, groups, placed)
    && IatsLaid(bytes, rva, head, placed, i)
    && HeadLaid(bytes, retained + DescriptorsOf(placed[..i]), head)
    && forall j :: 0 <= j < i ==> IatEnd(placed[j]) <= rva + |bytes|
  }

  lemma TablesIgnoreIat(bytes: seq<byte>, rva: nat, head: nat, groups: seq<Group>, placed: seq<Placed>, i: nat, iat: nat)
    requires TablesLaid(bytes, rva, head, groups, placed) && i < |placed|
    ensures TablesLaid(bytes, rva, head, groups, placed[i := placed[i].(iat := iat)])
  {
    hide NameLaid, At, Table;
    assert GroupLaid(bytes, rva, head, groups[i], placed[i]);
  }

  lemma IatsNext(t: seq<byte>, rva: nat, head: nat, placed: seq<Placed>, i: nat, iat: nat)
    requires IatsLaid(t, rva, head, placed, i) && i < |placed| && rva + head <= iat < U32
    requires At(t, iat - rva, Table(placed[i].names)) && forall j :: 0 <= j < i ==> IatEnd(placed[j]) <= iat
    ensures IatsLaid(t, rva, head, placed[i := placed[i].(iat := iat)], i + 1)
  {
    hide At, Table;
  }

  lemma IatStep(s: seq<byte>, t: seq<byte>, rva: nat, retained: seq<Descriptor>, groups: seq<Group>, placed: seq<Placed>,
      i: nat, iat: nat)
    requires IatState(s, rva, retained, groups, placed, i) && i < |groups| && s <= t
    requires rva + |s| <= iat < U32 && At(t, iat - rva, Table(placed[i].names))
    ensures 20 * (i + |retained|) + 20 <= |t|
    ensures var next := placed[i].(iat := iat);
            IatState(W.Put(t, 20 * (i + |retained|), DescriptorBytes(DescriptorOf(next))), rva, retained, groups, placed[i := next], i + 1)
  {
    hide TablesLaid, IatsLaid, HeadLaid, At, Table, DescriptorBytes, SameBeyond, DescriptorsOf;
    var head := HeadSize(retained, groups);
    var next := placed[i].(iat := iat);
    var out := placed[i := next];
    var ds := retained + DescriptorsOf(placed[..i]);
    HeadFits(s, ds, head);
    TableFits(t, iat, rva, placed[i]);
    PrefixIsBeyond(s, t, head);
    TablesStay(s, t, rva, head, groups, placed);
    IatsStay(s, t, rva, head, placed, i);
    HeadGrows(s, t, ds, head);
    HeadNext(t, ds, head, DescriptorOf(next));
    var u := W.Put(t, 20 * |ds|, DescriptorBytes(DescriptorOf(next)));
    TablesIgnoreIat(t, rva, head, groups, placed, i, iat);
    IatsNext(t, rva, head, placed, i, iat);
    TablesStay(t, u, rva, head, groups, out);
    IatsStay(t, u, rva, head, out, i + 1);
    DescriptorsNext(retained, placed, i, next);
  }

  lemma HeadFits(s: seq<byte>, ds: seq<Descriptor>, head: nat)
    requires HeadLaid(s, ds, head)
    ensures head <= |s|
  {
  }

  lemma TableFits(t: seq<byte>, iat: nat, rva: nat, p: Placed)
    requires rva <= iat && At(t, iat - rva, Table(p.names))
    ensures IatEnd(p.(iat := iat)) <= rva + |t|
  {
  }

  lemma DescriptorsNext(retained: seq<Descriptor>, placed: seq<Placed>, i: nat, next: Placed)
    requires i < |placed|
    ensures retained + DescriptorsOf(placed[i := next][..i + 1]) == retained + DescriptorsOf(placed[..i]) + [DescriptorOf(next)]
  {
    var out := placed[i := next];
    assert out[..i + 1] == placed[..i] + [next];
    assert DescriptorsOf(placed[..i] + [next]) == DescriptorsOf(placed[..i]) + [DescriptorOf(next)];
  }

  /** Address tables, their descriptors, and the slot of every (DLL, name). */
  method LayIats(groups: seq<Group>, tables: seq<Placed>, retained: seq<Descriptor>, section: Payload)
    returns (r: Option<seq<Placed>>, slots: P.Slots)
    requires IatState(section.bytes, section.rva, retained, groups, tables, 0)
    modifies section
    ensures |old(section.bytes)| <= |section.bytes| <= |old(section.bytes)| + IatsSize(groups)
    ensures section.rva + |old(section.bytes)| + IatsSize(groups) <= U32 ==> r.Some?
    ensures r.Some? ==> |r.value| == |groups| && Laid(section.bytes, section.rva, retained, groups, r.value)
    ensures r.Some? ==> SlotsTrue(slots, groups, r.value, |groups|)
    ensures r.Some? ==> IatsWithin(r.value, |groups|, section.rva + AlignTo(|old(section.bytes)|, 8), section.rva + |section.bytes|)
    ensures r.Some? ==> IatsFill(r.value, |groups|, section.rva + AlignTo(|old(section.bytes)|, 8), section.rva + |section.bytes|)
  {
    hide IatState, Table, DescriptorBytes, At, AlignTo, SlotsTrue, IatsSize, IatsWithin, Laid;
    NoSlots(groups, tables);
    NoIats(groups, tables, section.rva + AlignTo(|section.bytes|, 8), section.rva + |section.bytes|);
    var placed := tables;
    slots := map[];
    IatStateShape(section.bytes, section.rva, retained, groups, placed, 0);
    for i := 0 to |groups|
      invariant |placed| == |groups| && |old(section.bytes)| <= |section.bytes| <= |old(section.bytes)| + IatsSize(groups[..i])
      invariant IatState(section.bytes, section.rva, retained, groups, placed, i)
      invariant SlotsTrue(slots, groups, placed, i)
      invariant IatsWithin(placed, i, section.rva + AlignTo(|old(section.bytes)|, 8), section.rva + |section.bytes|)
      invariant IatsFill(placed, i, section.rva + AlignTo(|old(section.bytes)|, 8), section.rva + |section.bytes|)
      invariant i == 0 ==> section.bytes == old(section.bytes)
    {
      ghost var before := section.bytes;
      AlignToMonotone(|old(section.bytes)|, |before|, 8);
      IatsSizeNext(groups, i);
      TableLength(placed[i].names);
      NamesCount(section.bytes, section.rva, retained, groups, placed, i);
      var iat := section.Append(Table(placed[i].names), 8);
      if iat >= U32 {
        return None, slots;
      }
      IatStep(before, section.bytes, section.rva, retained, groups, placed, i, iat);
      TableFits(section.bytes, iat, section.rva, placed[i]);
      WithinNext(placed, i, iat, section.rva + AlignTo(|old(section.bytes)|, 8), section.rva + |before|, section.rva + |section.bytes|);
      var next := placed[i].(iat := iat);
      section.PackInto(20 * (i + |retained|), DescriptorBytes(DescriptorOf(next)));
      var more := AddSlots(groups[i], iat, slots);
      SlotsNext(slots, more, groups, placed, i, iat);
      slots := more;
      placed := placed[i := next];
    }
    assert groups[..|groups|] == groups;
    IatsDone(section.bytes, section.rva, retained, groups, placed);
    r := Some(placed);
  }

  /** The address tables of the first `n` groups lie in [lo, hi). */
  ghost predicate IatsWithin(placed: seq<Placed>, n: nat, lo: nat, hi: nat) {
    n <= |placed| && forall i :: 0 <= i < n ==> lo <= placed[i].iat && IatEnd(placed[i]) <= hi
  }

  /** The first table begins at `lo` and the last one ends at `hi`. */
  ghost predicate IatsFill(placed: seq<Placed>, n: nat, lo: nat, hi: nat) {
    n <= |placed| && (0 < n ==> placed[0].iat == lo && IatEnd(placed[n - 1]) == hi)
  }

  lemma NoIats(groups: seq<Group>, placed: seq<Placed>, lo: nat, hi: nat)
    ensures IatsWithin(placed, 0, lo, hi) && IatsSize(groups[..0]) == 0
  {
  }

  lemma IatsSizeNext(groups: seq<Group>, i: nat)
    requires i < |groups|
    ensures IatsSize(groups[..i + 1]) == IatsSize(groups[..i]) + TableRoom(groups[i]) <= IatsSize(groups)
  {
    assert groups[..i + 1][..i] == groups[..i];
    SizesMonotone(groups, i + 1);
  }

  lemma WithinNext(placed: seq<Placed>, i: nat, iat: nat, lo: nat, hi: nat, more: nat)
    requires IatsWithin(placed, i, lo, hi) && hi <= more && i < |placed|
    requires lo <= iat && IatEnd(placed[i].(iat := iat)) <= more
    ensures IatsWithin(placed[i := placed[i].(iat := iat)], i + 1, lo, more)
  {
  }

  lemma NoSlots(groups: seq<Group>, placed: seq<Placed>)
    ensures SlotsTrue(map[], groups, placed, 0)
  {
  }

  lemma AlignToMonotone(a: nat, b: nat, k: nat)
    requires 0 < k && a <= b
    ensures AlignTo(a, k) <= AlignTo(b, k)
  {
    AlignToMultiple(b, k);
    AlignToLeast(a, k, AlignTo(b, k));
  }

  lemma NamesCount(bytes: seq<byte>, rva: nat, retained: seq<Descriptor>, groups: seq<Group>, placed: seq<Placed>, i: nat)
    requires IatState(bytes, rva, retained, groups, placed, i) && i < |groups|
    ensures |placed| == |groups| && |placed[i].names| == |groups[i].symbols|
  {
    hide NameLaid, At, Table;
    assert GroupLaid(bytes, rva, HeadSize(retained, groups), groups[i], placed[i]);
  }

  lemma IatStateShape(bytes: seq<byte>, rva: nat, retained: seq<Descriptor>, groups: seq<Group>, placed: seq<Placed>, i: nat)
    requires IatState(bytes, rva, retained, groups, placed, i)
    ensures |placed| == |groups|
  {
  }

  lemma IatsDone(bytes: seq<byte>, rva: nat, retained: seq<Descriptor>, groups: seq<Group>, placed: seq<Placed>)
    requires IatState(bytes, rva, retained, groups, placed, |groups|)
    ensures |placed| == |groups| && Laid(bytes, rva, retained, groups, placed)
  {
    hide TablesLaid, IatsLaid, HeadLaid;
    assert placed[..|groups|] == placed;
  }

  lemma SlotsNext(slots: P.Slots, more: P.Slots, groups: seq<Group>, placed: seq<Placed>, i: nat, iat: nat)
    requires i < |groups| && i < |placed| && SlotsTrue(slots, groups, placed, i)
    requires forall key :: key in slots ==> key in more
    requires forall k :: 0 <= k < |groups[i].symbols| ==> (groups[i].dll, groups[i].symbols[k].name) in more
    requires forall key :: key in more ==>
               (key in slots && more[key] == slots[key]) || Mine(key, more[key], groups[i], iat, |groups[i].symbols|)
    ensures SlotsTrue(more, groups, placed[i := placed[i].(iat := iat)], i + 1)
  {
    var out := placed[i := placed[i].(iat := iat)];
    forall key | key in more
      ensures SlotTrue(key, more[key], groups, out, i + 1)
    {
      if key in slots && more[key] == slots[key] {
        assert SlotTrue(key, slots[key], groups, placed, i);
        var j, k :| 0 <= j < i && 0 <= k < |groups[j].symbols| && SlotAt(key, slots[key], groups[j], placed[j].iat, k);
        assert SlotAt(key, more[key], groups[j], out[j].iat, k);
      } else {
        var k :| 0 <= k < |groups[i].symbols| && SlotAt(key, more[key], groups[i], iat, k);
        assert SlotAt(key, more[key], groups[i], out[i].iat, k);
      }
    }
  }

  /** The section before thunks: descriptor area, strings, lookup tables, address tables. */
  method BuildSection(rva: nat, retained: seq<Descriptor>, groups: seq<Group>)
    returns (section: Payload, r: Option<seq<Placed>>, slots: P.Slots, iatBegin: nat)
    requires forall i :: 0 <= i < |retained| ==> Small(retained[i])
    ensures fresh(section) && section.rva == rva
    ensures HeadSize(retained, groups) <= |section.bytes| <= SectionSize(|retained|, groups)
    ensures AsciiGroups(groups) && rva + SectionSize(|retained|, groups) <= U32 ==> r.Some?
    ensures r.Some? ==> AsciiGroups(groups)
    ensures r.Some? ==> |r.value| == |groups| && Laid(section.bytes, rva, retained, groups, r.value)
    ensures r.Some? ==> SlotsTrue(slots, groups, r.value, |groups|)
    ensures r.Some? ==> IatsWithin(r.value, |groups|, iatBegin, rva + |section.bytes|)
    ensures r.Some? ==> IatsFill(r.value, |groups|, iatBegin, rva + |section.bytes|)
  {
    hide TablesLaid, HeadLaid, Laid, SlotsTrue, DescriptorBytes, AlignTo, TablesSize, IatsSize, AsciiGroups;
    var count := |retained| + |groups| + 1;
    section := new Payload(rva, count * 20);
    slots := map[];
    ghost var head := HeadSize(retained, groups);
    PackRetained(retained, section, head);
    ghost var before := section.bytes;
    var tables := LayTables(groups, section, head);
    iatBegin := AlignTo(|section.bytes|, 8) + rva;
    if tables.None? {
      return section, None, slots, iatBegin;
    }
    HeadGrows(before, section.bytes, retained, head);
    IatsStart(section.bytes, rva, retained, groups, tables.value);
    r, slots := LayIats(groups, tables.value, retained, section);
  }

  lemma IatsStart(bytes: seq<byte>, rva: nat, retained: seq<Descriptor>, groups: seq<Group>, placed: seq<Placed>)
    requires |placed| == |groups| && TablesLaid(bytes, rva, HeadSize(retained, groups), groups, placed)
    requires HeadLaid(bytes, retained, HeadSize(retained, groups))
    ensures IatState(bytes, rva, retained, groups, placed, 0)
  {
    hide TablesLaid, HeadLaid;
    assert retained + DescriptorsOf(placed[..0]) == retained;
  }

  method PackRetained(retained: seq<Descriptor>, section: Payload, ghost head: nat)
    requires 20 * |retained| + 20 <= head && section.bytes == Zeros(head)
    modifies section
    ensures HeadLaid(section.bytes, retained, head) && |section.bytes| == head
  {
    hide DescriptorBytes;
    for i := 0 to |retained|
      invariant |section.bytes| == head && HeadLaid(section.bytes, retained[..i], head)
    {
      HeadNext(section.bytes, retained[..i], head, retained[i]);
      section.PackInto(i * 20, DescriptorBytes(retained[i]));
      assert retained[..i] + [retained[i]] == retained[..i + 1];
    }
    assert retained[..|retained|] == retained;
  }

  // ----- What the slots mean -----

  ghost predicate NamesDistinct(g: Group) {
    forall a, b :: 0 <= a < b < |g.symbols| ==> g.symbols[a].name != g.symbols[b].name
  }

  ghost predicate AllRecorded(slots: P.Slots, groups: seq<Group>, placed: seq<Placed>)
    requires |placed| == |groups| && SlotsTrue(slots, groups, placed, |groups|)
  {
    forall i, k :: 0 <= i < |groups| && 0 <= k < |groups[i].symbols| ==>
      slots[(groups[i].dll, groups[i].symbols[k].name)] == placed[i].iat + k * 8
  }

  /** The recorded slots are all the slots of the section exactly when no DLL exports one name at
      two addresses: otherwise the section has a slot the record does not mention. */
  lemma RecordedIff(slots: P.Slots, groups: seq<Group>, placed: seq<Placed>)
    requires |placed| == |groups| && DistinctDlls(groups) && SlotsTrue(slots, groups, placed, |groups|)
    ensures AllRecorded(slots, groups, placed) <==> forall i :: 0 <= i < |groups| ==> NamesDistinct(groups[i])
  {
    if forall i :: 0 <= i < |groups| ==> NamesDistinct(groups[i]) {
      forall i, k | 0 <= i < |groups| && 0 <= k < |groups[i].symbols|
        ensures slots[(groups[i].dll, groups[i].symbols[k].name)] == placed[i].iat + k * 8
      {
        var key := (groups[i].dll, groups[i].symbols[k].name);
        assert SlotTrue(key, slots[key], groups, placed, |groups|);
        var j, l :| 0 <= j < |groups| && 0 <= l < |groups[j].symbols| && SlotAt(key, slots[key], groups[j], placed[j].iat, l);
        assert i == j && NamesDistinct(groups[i]);
      }
    }
    if AllRecorded(slots, groups, placed) {
      forall i | 0 <= i < |groups|
        ensures NamesDistinct(groups[i])
      {
        forall a, b | 0 <= a < b < |groups[i].symbols|
          ensures groups[i].symbols[a].name != groups[i].symbols[b].name
        {
          assert slots[(groups[i].dll, groups[i].symbols[a].name)] == placed[i].iat + a * 8;
          assert slots[(groups[i].dll, groups[i].symbols[b].name)] == placed[i].iat + b * 8;
        }
      }
    }
  }

  lemma EveryRepairSlotted(rs: seq<P.Repair>, slots: P.Slots, groups: seq<Group>, placed: seq<Placed>)
    requires GroupsFor(rs, groups) && |placed| == |groups| && SlotsTrue(slots, groups, placed, |groups|)
    ensures P.AllSlotted(rs, slots)
  {
    forall i | 0 <= i < |rs|
      ensures (rs[i].dll, rs[i].name) in slots
    {
      assert Needs(groups, rs[i].dll, SymbolOf(rs[i]));
      var j :| 0 <= j < |groups| && groups[j].dll == rs[i].dll && SymbolOf(rs[i]) in groups[j].symbols;
      var k :| 0 <= k < |groups[j].symbols| && groups[j].symbols[k] == SymbolOf(rs[i]);
      assert (groups[j].dll, groups[j].symbols[k].name) in slots;
    }
  }

  ghost predicate RepairsOk(rs: seq<P.Repair>) {
    forall i :: 0 <= i < |rs| ==> Storable(rs[i].dll) && Lower(rs[i].dll) == rs[i].dll && Storable(rs[i].name)
  }

  lemma GroupsStorable(rs: seq<P.Repair>, groups: seq<Group>)
    requires RepairsOk(rs) && GroupsFor(rs, groups)
    ensures forall i :: 0 <= i < |groups| ==> GroupOk(groups[i])
  {
    hide Storable, Lower;
    forall i | 0 <= i < |groups|
      ensures GroupOk(groups[i])
    {
      var g := groups[i];
      forall k | 0 <= k < |g.symbols|
        ensures Storable(g.symbols[k].name) && Storable(g.dll) && Lower(g.dll) == g.dll
      {
        assert Wanted(rs, g.dll, g.symbols[k]);
        var j :| 0 <= j < |rs| && rs[j].dll == g.dll && SymbolOf(rs[j]) == g.symbols[k];
      }
      assert g.symbols[0] == g.symbols[0];
    }
  }
}
