/** serialize_memory_state and deserialize_memory_state: the mmap base, the region table and the
    bytes of every region, parsed completely before anything is changed. */
module Snapshot {
  import opened Machine
  import opened Ordered
  import opened MemoryView
  import opened MemoryTable
  import opened MemoryManager
  import opened SerializerBuffers
  import S = Serializer
  import G = GuestMemory

  const REGION: S.Schema := S.Pair(S.Raw(8), S.Raw(1))
  const TABLE: S.Schema := S.Table(S.Raw(8), REGION)

  // ----- Format -----

  function RegionEntry(b: nat, r: Region): S.Entry
    requires b < U64 && r.length < U64
  {
    S.Entry(S.Number(b), S.Both(S.Number(r.length), S.Bytes([r.perm])))
  }

  ghost predicate Listed(m: Regions, keys: seq<nat>) {
    forall i :: 0 <= i < |keys| ==> keys[i] in m && RegionOk(keys[i], m[keys[i]])
  }

  function EntriesOf(m: Regions, keys: seq<nat>): (r: seq<S.Entry>)
    requires Listed(m, keys)
    ensures |r| == |keys| && forall i :: 0 <= i < |r| ==> r[i] == RegionEntry(keys[i], m[keys[i]])
  {
    seq(|keys|, i requires 0 <= i < |keys| => RegionEntry(keys[i], m[keys[i]]))
  }

  ghost predicate Backed(m: Regions, keys: seq<nat>, c: Cells) {
    Listed(m, keys) && forall i :: 0 <= i < |keys| ==> Range(keys[i], m[keys[i]].length) <= c.Keys
  }

  /** read_memory on mapped bytes. */
  function Values(c: Cells, a: nat, n: nat): (r: seq<byte>)
    requires Range(a, n) <= c.Keys
    ensures |r| == n && forall i :: 0 <= i < n ==> a + i in c && r[i] == c[a + i].value
  {
    seq<byte>(n, i requires 0 <= i < n => assert Within(a + i, a, n); c[a + i].value)
  }

  function DataBytes(m: Regions, keys: seq<nat>, c: Cells): seq<byte>
    requires Backed(m, keys, c)
  {
    if keys == [] then []
    else S.WriteRaw(Values(c, keys[0], m[keys[0]].length)) + DataBytes(m, keys[1..], c)
  }

  /** The format itself does not ask for regions in order. */
  function Encoded(mmapBase: u64, m: Regions, c: Cells): seq<byte>
    requires Backed(m, Keys(m), c)
  {
    var keys := Keys(m);
    S.Write(S.Number(mmapBase)) + (S.Write(S.Entries(EntriesOf(m, keys))) + DataBytes(m, keys, c))
  }

  function SnapshotBytes(mmapBase: u64, m: Regions, c: Cells): seq<byte>
    requires WellFormed(m) && Mirrors(c, ViewOf(m))
  {
    KeysBacked(m, c);
    Encoded(mmapBase, m, c)
  }

  lemma KeysBacked(m: Regions, c: Cells)
    requires WellFormed(m) && Mirrors(c, ViewOf(m))
    ensures Backed(m, Keys(m), c)
  {
    var keys := Keys(m);
    forall i | 0 <= i < |keys|
      ensures keys[i] in m && RegionOk(keys[i], m[keys[i]])
      ensures Range(keys[i], m[keys[i]].length) <= c.Keys
    {
      assert keys[i] in keys;
      OwnedTag(m, ViewOf(m), keys[i]);
    }
  }

  // ----- The format, byte by byte -----

  /** A region's entry: base and length as blocks of eight bytes, permissions as a block of one. */
  lemma EntryForm(b: nat, r: Region)
    requires b < U64 && r.length < U64
    ensures S.WriteEntry(RegionEntry(b, r)) == S.Write(S.Number(b)) + S.Write(S.Number(r.length)) + [1, r.perm]
    ensures |S.WriteEntry(RegionEntry(b, r))| == 20
  {
    hide G.Le;
    assert S.Write(S.Bytes([r.perm])) == [1, r.perm];
  }

  lemma {:induction false} EntriesAt(es: seq<S.Entry>, i: nat)
    requires i < |es| && forall e :: e in es ==> |S.WriteEntry(e)| == 20
    ensures |S.WriteEntries(es)| == 20 * |es| && S.WriteEntries(es)[20 * i..20 * i + 20] == S.WriteEntry(es[i])
    decreases |es|
  {
    hide S.WriteEntry;
    var w := S.WriteEntries(es);
    var first, rest := S.WriteEntry(es[0]), S.WriteEntries(es[1..]);
    assert w == first + rest;
    if |es| > 1 {
      var k := if i == 0 then 0 else i - 1;
      EntriesAt(es[1..], k);
      assert i > 0 ==> w[20 * i..20 * i + 20] == rest[20 * k..20 * k + 20];
    } else {
      assert rest == [];
    }
    assert w[..20] == first;
  }

  /** Where the bytes of the i-th region begin, behind the table. */
  function DataStart(m: Regions, keys: seq<nat>, i: nat): nat
    requires i <= |keys| && Listed(m, keys)
  {
    if i == 0 then 0 else DataStart(m, keys, i - 1) + 1 + m[keys[i - 1]].length
  }

  lemma {:induction false} DataStartRest(m: Regions, keys: seq<nat>, i: nat)
    requires 0 < i <= |keys| && Listed(m, keys)
    ensures DataStart(m, keys, i) == 1 + m[keys[0]].length + DataStart(m, keys[1..], i - 1)
  {
    if i > 1 {
      DataStartRest(m, keys, i - 1);
    }
  }

  ghost predicate BlockAt(w: seq<byte>, o: nat, data: seq<byte>) {
    o + 1 + |data| <= |w| && w[o] == |data| % 256 && w[o + 1..o + 1 + |data|] == data
  }

  /** Region by region, the low byte of the length and then the bytes in memory. */
  lemma {:induction false} DataAt(m: Regions, keys: seq<nat>, c: Cells, i: nat)
    requires Backed(m, keys, c) && i < |keys|
    ensures |DataBytes(m, keys, c)| == DataStart(m, keys, |keys|)
    ensures BlockAt(DataBytes(m, keys, c), DataStart(m, keys, i), Values(c, keys[i], m[keys[i]].length))
    decreases |keys|
  {
    hide Values, Range, BlockAt, RegionOk;
    var n, rest := m[keys[0]].length, DataBytes(m, keys[1..], c);
    var data := Values(c, keys[0], n);
    BlockFirst(data, rest);
    DataStartRest(m, keys, |keys|);
    if |keys| > 1 {
      var k := if i == 0 then 0 else i - 1;
      DataAt(m, keys[1..], c, k);
      if i > 0 {
        DataStartRest(m, keys, i);
        BlockLater(data, rest, DataStart(m, keys[1..], k), Values(c, keys[i], m[keys[i]].length));
      }
    }
  }

  lemma BlockFirst(data: seq<byte>, rest: seq<byte>)
    ensures BlockAt(S.WriteRaw(data) + rest, 0, data) && |S.WriteRaw(data)| == 1 + |data|
  {
    assert (S.WriteRaw(data) + rest)[1..1 + |data|] == data;
  }

  lemma BlockLater(first: seq<byte>, rest: seq<byte>, o: nat, data: seq<byte>)
    requires BlockAt(rest, o, data)
    ensures BlockAt(S.WriteRaw(first) + rest, 1 + |first| + o, data)
  {
    var w, a := S.WriteRaw(first) + rest, 1 + |first| + o;
    assert w[a] == rest[o] && w[a + 1..a + 1 + |data|] == rest[o + 1..o + 1 + |data|];
  }

  /** The mmap base, the number of regions, twenty bytes for each in ascending order, then the bytes of
      each in the same order. */
  lemma SnapshotLayout(mmapBase: u64, m: Regions, c: Cells, i: nat)
    requires Backed(m, Keys(m), c) && i < |Keys(m)| < U64
    ensures var w, n, b := Encoded(mmapBase, m, c), |Keys(m)|, Keys(m)[i];
            var l := m[b].length;
            && |w| == 18 + 20 * n + DataStart(m, Keys(m), n)
            && w[..9] == S.Write(S.Number(mmapBase)) && w[9..18] == S.Write(S.Number(n))
            && w[18 + 20 * i..38 + 20 * i] == S.Write(S.Number(b)) + S.Write(S.Number(l)) + [1, m[b].perm]
            && BlockAt(w, 18 + 20 * n + DataStart(m, Keys(m), i), Values(c, b, l))
  {
    hide S.Write, S.WriteEntry, S.WriteEntries, RegionEntry, DataBytes, DataStart, Values, Range, BlockAt;
    var keys := Keys(m);
    var es := EntriesOf(m, keys);
    forall e | e in es
      ensures |S.WriteEntry(e)| == 20
    {
      var k :| 0 <= k < |es| && es[k] == e;
      EntryForm(keys[k], m[keys[k]]);
    }
    EntriesAt(es, i);
    EntryForm(keys[i], m[keys[i]]);
    DataAt(m, keys, c, i);
    TableForm(es);
    S.RawBytes(G.Le(mmapBase, 8));
    Pieces(S.Write(S.Number(mmapBase)), S.Write(S.Number(|es|)), S.WriteEntries(es), DataBytes(m, keys, c), i,
      DataStart(m, keys, i), Values(c, keys[i], m[keys[i]].length));
  }

  lemma TableForm(es: seq<S.Entry>)
    requires |es| < U64
    ensures S.Write(S.Entries(es)) == S.Write(S.Number(|es|)) + S.WriteEntries(es) && |S.Write(S.Number(|es|))| == 9
  {
    hide S.WriteEntries, G.Le;
    S.SmallModulus(|es|);
  }

  lemma Pieces(a: seq<byte>, b: seq<byte>, t: seq<byte>, d: seq<byte>, i: nat, o: nat, data: seq<byte>)
    requires |a| == 9 && |b| == 9 && 20 * i + 20 <= |t| && BlockAt(d, o, data)
    ensures var w := a + ((b + t) + d);
            && |w| == 18 + |t| + |d| && w[..9] == a && w[9..18] == b
            && w[18 + 20 * i..38 + 20 * i] == t[20 * i..20 * i + 20] && BlockAt(w, 18 + |t| + o, data)
  {
    var w, x := a + ((b + t) + d), 18 + |t| + o;
    assert w[x] == d[o] && w[x + 1..x + 1 + |data|] == d[o + 1..o + 1 + |data|];
  }

  // ----- Parsing -----

  datatype Parsed = Parsed(mmapBase: u64, regions: Regions, data: seq<seq<byte>>, next: nat)

  function NumberOf(v: S.Value): u64 {
    if v.Bytes? && |v.data| == 8 then
      G.LeFromLe(v.data);
      G.Pow256Word();
      G.FromLe(v.data)
    else 0
  }

  function RegionOf(v: S.Value): Region {
    if v.Both? && v.second.Bytes? && |v.second.data| == 1 then Region(NumberOf(v.first), v.second.data[0])
    else Region(0, 0)
  }

  /** The region map built from the entries that were read. */
  function TableOf(entries: seq<S.Entry>): Regions {
    if entries == [] then map[]
    else
      var n := |entries| - 1;
      TableOf(entries[..n])[NumberOf(entries[n].key) := RegionOf(entries[n].value)]
  }

  /** The bytes of the regions from the i-th key on. */
  function ReadData(m: Regions, keys: seq<nat>, i: nat, buf: seq<byte>, off: nat, acc: seq<seq<byte>>)
    : Option<(seq<seq<byte>>, nat)>
    requires i <= |keys| && forall k :: k in keys ==> k in m
    decreases |keys| - i
  {
    if i == |keys| then Some((acc, off))
    else
      assert keys[i] in keys;
      match S.ReadRaw(m[keys[i]].length, buf, off)
      case Fail => None
      case Ok(v, next) => ReadData(m, keys, i + 1, buf, next, acc + [v.data])
  }

  function Parse(buf: seq<byte>, off: nat): Option<Parsed> {
    match S.ReadNumber(buf, off)
    case None => None
    case Some(n) =>
      match S.Read(TABLE, buf, n.1)
      case Fail => None
      case Ok(t, next) =>
        var m := TableOf(t.entries);
        match ReadData(m, Keys(m), 0, buf, next, [])
        case None => None
        case Some(d) => Some(Parsed(n.0, m, d.0, d.1))
  }

  // ----- Parsing what was written -----

  lemma {:induction false} SortedGrows(keys: seq<nat>, i: nat)
    requires Sorted(keys) && i < |keys|
    ensures i <= keys[i]
  {
    if i > 0 {
      SortedGrows(keys, i - 1);
      assert keys[i - 1] < keys[i];
    }
  }

  lemma FewRegions(m: Regions)
    requires Listed(m, Keys(m))
    ensures |Keys(m)| < U64
  {
    var keys := Keys(m);
    if keys != [] {
      SortedGrows(keys, |keys| - 1);
      assert RegionOk(keys[|keys| - 1], m[keys[|keys| - 1]]);
    }
  }

  lemma EntryDecodes(b: nat, r: Region)
    requires b < U64 && r.length < U64
    ensures NumberOf(RegionEntry(b, r).key) == b && RegionOf(RegionEntry(b, r).value) == r
    ensures S.EntryHasType(RegionEntry(b, r), S.Raw(8), REGION)
  {
    G.LeWord(b);
    G.LeWord(r.length);
  }

  lemma EntriesTyped(m: Regions)
    requires Listed(m, Keys(m))
    ensures S.HasType(S.Entries(EntriesOf(m, Keys(m))), TABLE)
  {
    hide S.EntryHasType, RegionEntry;
    var keys := Keys(m);
    var es := EntriesOf(m, keys);
    FewRegions(m);
    forall i | 0 <= i < |es|
      ensures S.EntryHasType(es[i], S.Raw(8), REGION)
    {
      EntryDecodes(keys[i], m[keys[i]]);
    }
    forall i, j | 0 <= i < j < |es|
      ensures es[i].key != es[j].key
    {
      EntryDecodes(keys[i], m[keys[i]]);
      EntryDecodes(keys[j], m[keys[j]]);
    }
  }

  /** The regions with the first `n` keys. */
  ghost function Front(m: Regions, keys: seq<nat>, n: nat): Regions
    requires n <= |keys|
  {
    map k | k in m && k in keys[..n] :: m[k]
  }

  lemma FrontNext(m: Regions, keys: seq<nat>, n: nat)
    requires n < |keys| && keys[n] in m
    ensures Front(m, keys, n + 1) == Front(m, keys, n)[keys[n] := m[keys[n]]]
  {
    assert keys[..n + 1] == keys[..n] + [keys[n]];
  }

  lemma FrontAll(m: Regions)
    ensures Front(m, Keys(m), |Keys(m)|) == m
  {
    assert Keys(m)[..|Keys(m)|] == Keys(m);
  }

  lemma {:induction false} TableDecodes(m: Regions, keys: seq<nat>)
    requires Listed(m, keys)
    ensures TableOf(EntriesOf(m, keys)) == Front(m, keys, |keys|)
    decreases |keys|
  {
    hide RegionEntry, NumberOf, RegionOf, Front;
    if keys == [] {
      FrontNone(m);
    } else {
      var n := |keys| - 1;
      TableDecodes(m, keys[..n]);
      assert EntriesOf(m, keys)[..n] == EntriesOf(m, keys[..n]);
      EntryDecodes(keys[n], m[keys[n]]);
      FrontNext(m, keys, n);
      FrontPrefix(m, keys, n);
    }
  }

  lemma FrontNone(m: Regions)
    ensures Front(m, [], 0) == map[]
  {
  }

  lemma FrontPrefix(m: Regions, keys: seq<nat>, n: nat)
    requires n <= |keys|
    ensures Front(m, keys[..n], n) == Front(m, keys, n)
  {
    assert keys[..n][..n] == keys[..n];
  }

  function DataOf(m: Regions, keys: seq<nat>, c: Cells): (r: seq<seq<byte>>)
    requires Backed(m, keys, c)
    ensures |r| == |keys|
    ensures forall i :: 0 <= i < |r| ==> r[i] == Values(c, keys[i], m[keys[i]].length)
  {
    seq(|keys|, i requires 0 <= i < |keys| => Values(c, keys[i], m[keys[i]].length))
  }

  lemma {:induction false} DataDecodes(m: Regions, keys: seq<nat>, i: nat, c: Cells, buf: seq<byte>, off: nat)
    requires Backed(m, keys, c) && i <= |keys| && (forall k :: k in keys ==> k in m)
    requires At(buf, off, DataBytes(m, keys[i..], c))
    ensures ReadData(m, keys, i, buf, off, DataOf(m, keys, c)[..i])
         == Some((DataOf(m, keys, c), off + |DataBytes(m, keys[i..], c)|))
    decreases |keys| - i
  {
    hide At, S.WriteRaw, S.ReadRaw, Values;
    var all := DataOf(m, keys, c);
    if i == |keys| {
      assert all[..i] == all;
    } else {
      assert keys[i..][1..] == keys[i + 1..];
      assert Backed(m, keys[i..], c) && Backed(m, keys[i + 1..], c);
      var head := S.WriteRaw(all[i]);
      AtSplit(buf, off, head, DataBytes(m, keys[i + 1..], c));
      S.RawRoundTrip(all[i], buf, off);
      assert all[..i] + [all[i]] == all[..i + 1];
      DataDecodes(m, keys, i + 1, c, buf, off + |head|);
    }
  }

  /** Parsing an encoding, wherever it stands in a buffer, gives back what was encoded. */
  lemma ParseEncoded(mmapBase: u64, m: Regions, c: Cells, buf: seq<byte>, off: nat)
    requires Backed(m, Keys(m), c) && At(buf, off, Encoded(mmapBase, m, c))
    ensures Parse(buf, off) == Some(Parsed(mmapBase, m, DataOf(m, Keys(m), c), off + |Encoded(mmapBase, m, c)|))
  {
    hide At, S.Read, S.ReadNumber, S.WriteNumber, S.HasType, TableOf, EntriesOf, DataOf, DataBytes, ReadData, S.Write;
    hide Keys, Range, Front, RegionOk;
    var keys := Keys(m);
    var table := S.Entries(EntriesOf(m, keys));
    var tail := DataBytes(m, keys, c);
    var w := S.Write(S.Number(mmapBase));
    assert w == S.WriteNumber(mmapBase) by { NumberBytes(mmapBase); }
    AtSplit(buf, off, w, S.Write(table) + tail);
    S.NumberRoundTrip(mmapBase, buf, off);
    AtSplit(buf, off + |w|, S.Write(table), tail);
    EntriesTyped(m);
    S.RoundTrip(table, TABLE, buf, off + |w|);
    TableDecodes(m, keys);
    FrontAll(m);
    var at := off + |w| + |S.Write(table)|;
    assert keys[0..] == keys && DataOf(m, keys, c)[..0] == [];
    DataDecodes(m, keys, 0, c, buf, at);
  }

  /** Parsing a snapshot, wherever it stands in a buffer, gives back the saved state. */
  lemma ParseSnapshot(mmapBase: u64, m: Regions, c: Cells, buf: seq<byte>, off: nat)
    requires WellFormed(m) && Mirrors(c, ViewOf(m)) && At(buf, off, SnapshotBytes(mmapBase, m, c))
    ensures Backed(m, Keys(m), c)
    ensures Parse(buf, off)
         == Some(Parsed(mmapBase, m, DataOf(m, Keys(m), c), off + |SnapshotBytes(mmapBase, m, c)|))
  {
    hide Parse, Encoded, At, Backed, DataOf, WellFormed, Mirrors, ViewOf, Keys;
    KeysBacked(m, c);
    ParseEncoded(mmapBase, m, c, buf, off);
  }

  lemma NumberBytes(v: u64)
    ensures S.Write(S.Number(v)) == S.WriteNumber(v)
  {
  }

  // ----- Truncation -----

  lemma {:induction false} DataLocal(m: Regions, keys: seq<nat>, i: nat, buf: seq<byte>, more: seq<byte>, off: nat,
      acc: seq<seq<byte>>)
    requires i <= |keys| && (forall k :: k in keys ==> k in m) && off <= |buf|
    ensures var r := ReadData(m, keys, i, buf, off, acc);
            r.Some? ==> r.value.1 <= |buf| && ReadData(m, keys, i, buf + more, off, acc) == r
    decreases |keys| - i
  {
    hide S.ReadRaw;
    if i < |keys| {
      var n := m[keys[i]].length;
      S.RawLocal(n, buf, more, off);
      RawIsBytes(n, buf, off);
      var r := S.ReadRaw(n, buf, off);
      if r.Ok? {
        DataLocal(m, keys, i + 1, buf, more, r.next, acc + [r.value.data]);
      }
    }
  }

  lemma RawIsBytes(n: nat, buf: seq<byte>, off: nat)
    ensures S.ReadRaw(n, buf, off).Ok? ==> S.ReadRaw(n, buf, off).value.Bytes?
  {
  }

  lemma ParseLocal(buf: seq<byte>, more: seq<byte>, off: nat)
    requires off <= |buf|
    ensures Parse(buf, off).Some? ==> Parse(buf, off).value.next <= |buf| && Parse(buf + more, off) == Parse(buf, off)
  {
    hide S.ReadNumber, ReadData;
    S.NumberLocal(buf, more, off);
    var n := S.ReadNumber(buf, off);
    if n.Some? {
      S.ReadLocal(TABLE, buf, more, n.value.1);
      var t := S.Read(TABLE, buf, n.value.1);
      if t.Ok? {
        var m := TableOf(t.value.entries);
        DataLocal(m, Keys(m), 0, buf, more, t.next, []);
      }
    }
  }

  /** A snapshot cut anywhere does not parse. */
  lemma TruncatedSnapshotFails(mmapBase: u64, m: Regions, c: Cells, buf: seq<byte>, off: nat, cut: nat)
    requires WellFormed(m) && Mirrors(c, ViewOf(m)) && At(buf, off, SnapshotBytes(mmapBase, m, c))
    requires off <= cut < off + |SnapshotBytes(mmapBase, m, c)|
    ensures Parse(buf[..cut], off).None?
  {
    hide Parse, SnapshotBytes;
    ParseSnapshot(mmapBase, m, c, buf, off);
    ParseLocal(buf[..cut], buf[cut..], off);
    assert buf[..cut] + buf[cut..] == buf;
  }

  // ----- The two calls -----

  method SerializeMemoryState(memory: LinuxMemoryManager, out: BufferSerializer)
    requires memory.Valid()
    modifies out
    ensures out.buffer == old(out.buffer) + SnapshotBytes(memory.mmapBase, memory.regions, memory.cells)
  {
    hide S.Write, WellFormed, Mirrors, EntriesOf, DataBytes, Keys, ViewOf;
    var m, c := memory.regions, memory.cells;
    var keys := Keys(m);
    KeysBacked(m, c);
    out.WriteValue(S.Number(memory.mmapBase));
    out.WriteValue(S.Entries(EntriesOf(m, keys)));
    WriteRegionData(m, keys, c, out);
    ghost var a, b, d := S.Write(S.Number(memory.mmapBase)), S.Write(S.Entries(EntriesOf(m, keys))), DataBytes(m, keys, c);
    assert old(out.buffer) + a + b + d == old(out.buffer) + (a + (b + d));
  }

  method WriteRegionData(m: Regions, keys: seq<nat>, c: Cells, out: BufferSerializer)
    requires Backed(m, keys, c)
    modifies out
    ensures out.buffer == old(out.buffer) + DataBytes(m, keys, c)
  {
    hide S.WriteRaw, Values, RegionOk, Range;
    ghost var head := out.buffer;
    for i := 0 to |keys|
      invariant out.buffer + DataBytes(m, keys[i..], c) == head + DataBytes(m, keys, c)
    {
      assert keys[i..][1..] == keys[i + 1..];
      ghost var before := out.buffer;
      var data := Values(c, keys[i], m[keys[i]].length);
      out.WriteData(data);
      assert before + (S.WriteRaw(data) + DataBytes(m, keys[i + 1..], c))
          == out.buffer + DataBytes(m, keys[i + 1..], c);
    }
  }

  /** unmap_all_memory: every region of the table goes from the backend. */
  method UnmapAllMemory(memory: LinuxMemoryManager)
    requires memory.Valid()
    modifies memory
    ensures memory.Valid() && memory.regions == map[] && memory.cells == map[]
  {
    hide WellFormed, Mirrors, ViewOf, Keys, UnmapCells, Range, ViewDrop, Sorted;
    var keys := Keys(memory.regions);
    ghost var rest := memory.regions;
    for i := 0 to |keys|
      invariant memory.regions == old(memory.regions)
      invariant rest == memory.regions - Elements(keys[..i])
      invariant WellFormed(rest) && Mirrors(memory.cells, ViewOf(rest))
    {
      var b := keys[i];
      SortedNext(memory.regions, keys, i);
      DropRefines(rest, b);
      DropMirrors(rest, b, memory.cells);
      memory.cells := UnmapCells(memory.cells, b, memory.regions[b].length);
      rest := rest - {b};
    }
    assert keys[..|keys|] == keys;
    assert rest == map[];
    EmptyView(memory.cells);
    memory.regions := map[];
  }

  lemma EmptyView(c: Cells)
    ensures WellFormed(map[])
    ensures Mirrors(c, ViewOf(map[])) <==> c == map[]
  {
    assert Represents(map[], map[]);
    ViewUnique(map[], map[]);
  }

  /** write_memory on mapped bytes. */
  function WriteCells(c: Cells, a: nat, data: seq<byte>): (r: Cells)
    requires Range(a, |data|) <= c.Keys
    ensures r.Keys == c.Keys
  {
    map x | x in c :: if a <= x < a + |data| then Cell(c[x].perm, data[x - a]) else c[x]
  }

  ghost predicate Fits(m: Regions, keys: seq<nat>, data: seq<seq<byte>>) {
    |data| == |keys| && forall i :: 0 <= i < |keys| ==> keys[i] in m && |data[i]| == m[keys[i]].length
  }

  /** The bytes of the first `n` regions are the given data. */
  ghost predicate Filled(m: Regions, keys: seq<nat>, data: seq<seq<byte>>, n: nat, c: Cells)
    requires Fits(m, keys, data) && n <= |keys|
  {
    forall i, a :: 0 <= i < n && keys[i] <= a < End(m, keys[i]) ==> a in c && c[a].value == data[i][a - keys[i]]
  }

  /** Table and data leave the backend no choice: only one can mirror the one and hold the other. */
  lemma FilledUnique(m: Regions, data: seq<seq<byte>>, c: Cells, d: Cells)
    requires WellFormed(m) && Fits(m, Keys(m), data)
    requires Mirrors(c, ViewOf(m)) && Filled(m, Keys(m), data, |Keys(m)|, c)
    requires Mirrors(d, ViewOf(m)) && Filled(m, Keys(m), data, |Keys(m)|, d)
    ensures c == d
  {
    hide WellFormed, Keys, ViewOf, Fits, Filled;
    forall a | a in c
      ensures a in d && c[a] == d[a]
    {
      FilledAt(m, data, a, c);
      FilledAt(m, data, a, d);
    }
  }

  lemma FilledAt(m: Regions, data: seq<seq<byte>>, a: nat, c: Cells)
    requires WellFormed(m) && Fits(m, Keys(m), data) && a in ViewOf(m)
    requires Filled(m, Keys(m), data, |Keys(m)|, c)
    ensures var b := ViewOf(m)[a].base;
            && b in Keys(m) && b <= a && IndexOf(Keys(m), b) < |data|
            && a - b < |data[IndexOf(Keys(m), b)]|
            && a in c && c[a].value == data[IndexOf(Keys(m), b)][a - b]
  {
    hide WellFormed, Keys, ViewOf;
    assert Owns(m, ViewOf(m)[a].base, a);
  }

  function IndexOf(keys: seq<nat>, b: nat): (i: nat)
    requires b in keys
    ensures i < |keys| && keys[i] == b
  {
    if keys[0] == b then 0 else 1 + IndexOf(keys[1..], b)
  }

  lemma SavedDataFills(m: Regions, c: Cells)
    requires WellFormed(m) && Mirrors(c, ViewOf(m)) && Backed(m, Keys(m), c)
    ensures Fits(m, Keys(m), DataOf(m, Keys(m), c))
    ensures Filled(m, Keys(m), DataOf(m, Keys(m), c), |Keys(m)|, c)
  {
    DataFills(m, Keys(m), c);
  }

  lemma DataFills(m: Regions, keys: seq<nat>, c: Cells)
    requires Backed(m, keys, c)
    ensures Fits(m, keys, DataOf(m, keys, c))
    ensures Filled(m, keys, DataOf(m, keys, c), |keys|, c)
  {
    hide RegionOk, Range, DataOf, Values;
    var data := DataOf(m, keys, c);
    forall i, a | 0 <= i < |keys| && keys[i] <= a < End(m, keys[i])
      ensures a in c && c[a].value == data[i][a - keys[i]]
    {
      var b: nat := keys[i];
      var d := Values(c, b, m[b].length);
      var o := a - b;
      assert d == data[i] && 0 <= o < |d|;
      var x := d[o];
      assert b + o in c && x == c[b + o].value;
    }
  }

  // ----- Mapping the parsed regions -----

  /** Which ranges a backend maps at all when they are free; some want whole pages. */
  type Accepts = (nat, nat) -> bool

  ghost predicate KeysIn(m: Regions, keys: seq<nat>) {
    forall k :: k in keys ==> k in m
  }

  /** The bytes mapped by the restore before region `i`. */
  ghost function MappedBefore(m: Regions, keys: seq<nat>, i: nat): set<nat>
    requires i <= |keys| && KeysIn(m, keys)
  {
    if i == 0 then {} else MappedBefore(m, keys, i - 1) + Range(keys[i - 1], m[keys[i - 1]].length)
  }

  /** The backend maps region `i` after the ones before it. */
  ghost predicate Maps(m: Regions, keys: seq<nat>, i: nat, accepts: Accepts)
    requires i < |keys| && KeysIn(m, keys)
  {
    accepts(keys[i], m[keys[i]].length) && Range(keys[i], m[keys[i]].length) !! MappedBefore(m, keys, i)
  }

  /** The backend holds the first `n` regions, their permissions and bytes, and nothing else. */
  ghost predicate Held(m: Regions, keys: seq<nat>, data: seq<seq<byte>>, n: nat, c: Cells)
    requires Fits(m, keys, data) && n <= |keys| && KeysIn(m, keys)
  {
    && c.Keys == MappedBefore(m, keys, n) && Filled(m, keys, data, n, c)
    && forall i, a :: 0 <= i < n && keys[i] <= a < End(m, keys[i]) ==> a in c && c[a].perm == m[keys[i]].perm
  }

  lemma HeldNone(m: Regions, keys: seq<nat>, data: seq<seq<byte>>)
    requires Fits(m, keys, data) && KeysIn(m, keys)
    ensures Held(m, keys, data, 0, map[])
  {
  }

  lemma HeldNext(m: Regions, keys: seq<nat>, data: seq<seq<byte>>, n: nat, c: Cells, accepts: Accepts)
    requires Fits(m, keys, data) && n < |keys| && KeysIn(m, keys) && Held(m, keys, data, n, c) && Maps(m, keys, n, accepts)
    ensures var b, r := keys[n], m[keys[n]];
            && Range(b, r.length) !! c.Keys
            && Range(b, r.length) <= MapCells(c, b, r.length, r.perm).Keys
            && Held(m, keys, data, n + 1, WriteCells(MapCells(c, b, r.length, r.perm), b, data[n]))
  {
    hide KeysIn;
    var b: nat, r := keys[n], m[keys[n]];
    var d := WriteCells(MapCells(c, b, r.length, r.perm), b, data[n]);
    forall i, a | 0 <= i < n + 1 && keys[i] <= a < End(m, keys[i])
      ensures a in d && d[a] == Cell(m[keys[i]].perm, data[i][a - keys[i]])
    {
      if i < n {
        assert a in c && a !in Range(b, r.length);
      } else {
        assert a in Range(b, r.length);
      }
    }
  }

  lemma HeldByOwner(m: Regions, keys: seq<nat>, data: seq<seq<byte>>, c: Cells, b: nat, a: nat)
    requires KeysIn(m, keys) && Fits(m, keys, data) && Held(m, keys, data, |keys|, c) && b in keys && Owns(m, b, a)
    ensures a in c && c[a].perm == m[b].perm
  {
    hide MappedBefore, Filled;
    var i :| 0 <= i < |keys| && keys[i] == b;
  }

  lemma HeldIsOwned(m: Regions, keys: seq<nat>, data: seq<seq<byte>>, c: Cells, a: nat) returns (b: nat)
    requires KeysIn(m, keys) && Fits(m, keys, data) && Held(m, keys, data, |keys|, c) && a in c
    ensures Owns(m, b, a)
  {
    hide MappedBefore, Filled;
    MappedBeforeHas(m, keys, |keys|, a);
    var i :| 0 <= i < |keys| && keys[i] <= a < End(m, keys[i]);
    b := keys[i];
  }

  /** For a table in order the backend then mirrors it. */
  lemma HeldMirrors(m: Regions, data: seq<seq<byte>>, c: Cells)
    requires WellFormed(m) && KeysIn(m, Keys(m)) && Fits(m, Keys(m), data) && Held(m, Keys(m), data, |Keys(m)|, c)
    ensures Mirrors(c, ViewOf(m))
  {
    hide Keys, ViewOf, Held, WellFormed, Fits, KeysIn;
    var keys, v := Keys(m), ViewOf(m);
    forall a | a in c
      ensures a in v
    {
      var b := HeldIsOwned(m, keys, data, c, a);
    }
    forall a | a in v
      ensures a in c && c[a].perm == v[a].perm
    {
      assert Owns(m, v[a].base, a);
      HeldByOwner(m, keys, data, c, v[a].base, a);
    }
  }

  /** Every map call of the restore meets free addresses only. */
  ghost predicate RestoreLegal(m: Regions) {
    forall i :: 0 <= i < |Keys(m)| ==> Range(Keys(m)[i], m[Keys(m)[i]].length) !! MappedBefore(m, Keys(m), i)
  }

  ghost predicate NoSharedByte(m: Regions) {
    forall x, y :: x in m && y in m && x < y ==> End(m, x) <= y || m[y].length == 0
  }

  lemma {:induction false} MappedBeforeHas(m: Regions, keys: seq<nat>, i: nat, a: nat)
    requires i <= |keys| && KeysIn(m, keys)
    ensures a in MappedBefore(m, keys, i) <==> exists j :: 0 <= j < i && keys[j] <= a < End(m, keys[j])
    decreases i
  {
    if i > 0 {
      MappedBeforeHas(m, keys, i - 1, a);
      assert a in Range(keys[i - 1], m[keys[i - 1]].length) <==> keys[i - 1] <= a < End(m, keys[i - 1]);
    }
  }

  /** A buffer that parses is only checked by the backend, after everything has been unmapped: its
      map calls are all legal if and only if no two parsed regions share a byte. */
  lemma RestoreLegalIff(m: Regions)
    ensures RestoreLegal(m) <==> NoSharedByte(m)
  {
    hide Keys, Range, MappedBefore;
    var keys := Keys(m);
    if NoSharedByte(m) {
      forall i | 0 <= i < |keys|
        ensures Range(keys[i], m[keys[i]].length) !! MappedBefore(m, keys, i)
      {
        LegalNext(m, keys, i);
      }
    }
    if RestoreLegal(m) {
      forall x, y | x in m && y in m && x < y
        ensures End(m, x) <= y || m[y].length == 0
      {
        var i :| 0 <= i < |keys| && keys[i] == x;
        var j :| 0 <= j < |keys| && keys[j] == y;
        MappedBeforeHas(m, keys, j, y);
        InRange(y, m[y].length);
      }
    }
  }

  lemma InRange(a: nat, n: nat)
    ensures a in Range(a, n) <==> 0 < n
  {
  }

  lemma LegalNext(m: Regions, keys: seq<nat>, i: nat)
    requires Sorted(keys) && i < |keys| && KeysIn(m, keys) && NoSharedByte(m)
    ensures Range(keys[i], m[keys[i]].length) !! MappedBefore(m, keys, i)
  {
    forall a | a in Range(keys[i], m[keys[i]].length)
      ensures a !in MappedBefore(m, keys, i)
    {
      MappedBeforeHas(m, keys, i, a);
    }
  }

  ghost predicate Restorable(m: Regions, accepts: Accepts) {
    NoSharedByte(m) && forall b :: b in m ==> accepts(b, m[b].length)
  }

  lemma RestorableIff(m: Regions, accepts: Accepts)
    ensures KeysIn(m, Keys(m))
    ensures Restorable(m, accepts) <==> forall i :: 0 <= i < |Keys(m)| ==> Maps(m, Keys(m), i, accepts)
  {
    hide Keys, MappedBefore, NoSharedByte;
    var keys := Keys(m);
    RestoreLegalIff(m);
    if forall i :: 0 <= i < |keys| ==> Maps(m, keys, i, accepts) {
      forall b | b in m
        ensures accepts(b, m[b].length)
      {
        var i :| 0 <= i < |keys| && keys[i] == b;
        assert Maps(m, keys, i, accepts);
      }
      forall i | 0 <= i < |keys|
        ensures Range(keys[i], m[keys[i]].length) !! MappedBefore(m, keys, i)
      {
        assert Maps(m, keys, i, accepts);
      }
    }
    if Restorable(m, accepts) {
      forall i | 0 <= i < |keys|
        ensures Maps(m, keys, i, accepts)
      {
        assert keys[i] in m;
      }
    }
  }

  /** The backend maps every region a manager can have. */
  ghost predicate AcceptsPages(accepts: Accepts) {
    forall b: nat, r: Region :: RegionOk(b, r) ==> accepts(b, r.length)
  }

  lemma OrderedRestorable(m: Regions, accepts: Accepts)
    requires WellFormed(m) && AcceptsPages(accepts)
    ensures Restorable(m, accepts)
  {
    hide RegionOk;
    assert forall b :: b in m ==> RegionOk(b, m[b]);
  }

  const OVERLAP: Regions := map[0x1000 := Region(0x2000, 3), 0x2000 := Region(0x1000, 3)]

  /** A buffer that parses to two regions of which one lies in the other: no backend restores it. */
  lemma OverlappingBuffer(mmapBase: u64, accepts: Accepts)
    ensures var c: Cells := map x | x in Range(0x1000, 0x2000) :: Cell(3, 0);
            && Backed(OVERLAP, Keys(OVERLAP), c)
            && var p := Parse(Encoded(mmapBase, OVERLAP, c), 0);
            p.Some? && p.value.regions == OVERLAP && !Restorable(p.value.regions, accepts)
  {
    hide Keys, Parse, Encoded, DataOf;
    var c: Cells := map x | x in Range(0x1000, 0x2000) :: Cell(3, 0);
    forall i | 0 <= i < |Keys(OVERLAP)|
      ensures var k := Keys(OVERLAP)[i];
              k in OVERLAP && RegionOk(k, OVERLAP[k]) && Range(k, OVERLAP[k].length) <= c.Keys
    {
      assert Keys(OVERLAP)[i] in Keys(OVERLAP);
    }
    var buf := Encoded(mmapBase, OVERLAP, c);
    assert buf[0..|buf|] == buf;
    ParseEncoded(mmapBase, OVERLAP, c, buf, 0);
    assert 0x1000 in OVERLAP && 0x2000 in OVERLAP && End(OVERLAP, 0x1000) == 0x3000;
  }

  // ----- Restoring -----

  /** How a restore ends: the buffer does not parse, the backend refuses a region after `mapped`
      others, or everything is in place. */
  datatype Restore = Rejected | Stopped(mapped: nat) | Complete

  /** Everything is read before anything is changed: a buffer that does not parse leaves the
      manager alone, and one that does determines its whole new state. A region the backend
      refuses ends the restore half way, with the table empty and the regions before it mapped. */
  method DeserializeMemoryState(memory: LinuxMemoryManager, input: BufferDeserializer, accepts: Accepts) returns (r: Restore)
    requires memory.Valid()
    modifies memory, input
    ensures r.Rejected? <==> Parse(input.buffer, old(input.offset)).None?
    ensures r.Rejected? ==> unchanged(memory)
    ensures !r.Rejected? ==> Outcome(memory, r, Parse(input.buffer, old(input.offset)).value, accepts)
    ensures !r.Rejected? ==> input.offset == Parse(input.buffer, old(input.offset)).value.next
    ensures r.Complete? <==> var p := Parse(input.buffer, old(input.offset)); p.Some? && Restorable(p.value.regions, accepts)
    ensures r.Complete? && WellFormed(memory.regions) ==> memory.Valid()
    ensures r.Stopped? ==> (memory.Valid() <==> memory.cells == map[])
  {
    hide S.ReadNumber, TableOf, Held, Restorable, MappedBefore, Mirrors, WellFormed, ViewOf, Keys, ReadData;
    var base := input.ReadSize();
    if base.None? {
      return Rejected;
    }
    var table := input.ReadValue(TABLE);
    if table.None? {
      return Rejected;
    }
    var m := TableOf(table.value.entries);
    var keys := Keys(m);
    var data := ReadRegionData(m, keys, input);
    if data.None? {
      return Rejected;
    }
    UnmapAllMemory(memory);
    memory.mmapBase := base.value;
    RestorableIff(m, accepts);
    EmptyView(memory.cells);
    var n := MapRegions(memory, m, keys, data.value, accepts);
    EmptyView(memory.cells);
    if n < |keys| {
      return Stopped(n);
    }
    memory.regions := m;
    if WellFormed(m) {
      HeldMirrors(m, data.value, memory.cells);
    }
    return Complete;
  }

  /** What the manager and the backend hold after a buffer that parsed. */
  ghost predicate Outcome(memory: LinuxMemoryManager, r: Restore, p: Parsed, accepts: Accepts)
    reads memory
  {
    var keys := Keys(p.regions);
    && memory.mmapBase == p.mmapBase && KeysIn(p.regions, keys) && Fits(p.regions, keys, p.data)
    && match r
       case Rejected => false
       case Complete => memory.regions == p.regions && Held(p.regions, keys, p.data, |keys|, memory.cells)
       case Stopped(n) =>
         && memory.regions == map[] && n < |keys| && Held(p.regions, keys, p.data, n, memory.cells)
         && (forall i :: 0 <= i < n ==> Maps(p.regions, keys, i, accepts)) && !Maps(p.regions, keys, n, accepts)
  }

  method ReadRegionData(m: Regions, keys: seq<nat>, input: BufferDeserializer) returns (r: Option<seq<seq<byte>>>)
    requires forall k :: k in keys ==> k in m
    modifies input
    ensures var e := ReadData(m, keys, 0, input.buffer, old(input.offset), []);
            if e.None? then r.None?
            else r == Some(e.value.0) && input.offset == e.value.1 && Fits(m, keys, e.value.0)
  {
    var data: seq<seq<byte>> := [];
    ghost var start := input.offset;
    for i := 0 to |keys|
      invariant |data| == i && forall j :: 0 <= j < i ==> |data[j]| == m[keys[j]].length
      invariant ReadData(m, keys, i, input.buffer, input.offset, data) == ReadData(m, keys, 0, input.buffer, start, [])
    {
      var d := input.ReadData(m[keys[i]].length);
      if d.None? {
        return None;
      }
      data := data + [d.value];
    }
    return Some(data);
  }

  /** Map regions and write their bytes until the backend refuses one. */
  method MapRegions(memory: LinuxMemoryManager, m: Regions, keys: seq<nat>, data: seq<seq<byte>>, accepts: Accepts)
    returns (n: nat)
    requires memory.cells == map[] && KeysIn(m, keys) && Fits(m, keys, data)
    modifies memory`cells
    ensures n <= |keys| && Held(m, keys, data, n, memory.cells)
    ensures forall i :: 0 <= i < n ==> Maps(m, keys, i, accepts)
    ensures n < |keys| ==> !Maps(m, keys, n, accepts)
  {
    hide Filled, Range, MapCells, WriteCells;
    n := 0;
    HeldNone(m, keys, data);
    while n < |keys|
      invariant n <= |keys| && Held(m, keys, data, n, memory.cells)
      invariant forall i :: 0 <= i < n ==> Maps(m, keys, i, accepts)
    {
      var b := keys[n];
      var r := m[b];
      if !accepts(b, r.length) || !(Range(b, r.length) !! memory.cells.Keys) {
        return;
      }
      HeldNext(m, keys, data, n, memory.cells, accepts);
      memory.cells := MapCells(memory.cells, b, r.length, r.perm);
      memory.cells := WriteCells(memory.cells, b, data[n]);
      n := n + 1;
    }
  }

  /** Saving one manager and restoring into another, whatever it held, makes them equal. */
  method Transfer(source: LinuxMemoryManager, target: LinuxMemoryManager, accepts: Accepts) returns (r: Restore)
    requires source.Valid() && target.Valid() && source != target && AcceptsPages(accepts)
    modifies target
    ensures r.Complete? && target.Valid()
    ensures target.mmapBase == source.mmapBase && target.regions == source.regions && target.cells == source.cells
  {
    hide Parse, SnapshotBytes, Filled, Mirrors, WellFormed;
    var out := new BufferSerializer();
    SerializeMemoryState(source, out);
    ghost var m, c := source.regions, source.cells;
    ghost var saved := SnapshotBytes(source.mmapBase, m, c);
    assert out.buffer == saved;
    assert saved[0..0 + |saved|] == saved;
    ParseSnapshot(source.mmapBase, m, c, out.buffer, 0);
    var input := new BufferDeserializer(out.buffer);
    OrderedRestorable(m, accepts);
    r := DeserializeMemoryState(target, input, accepts);
    SavedDataFills(m, c);
    FilledUnique(m, DataOf(m, Keys(m), c), c, target.cells);
  }
}
