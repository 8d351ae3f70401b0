/** The new import section of rebuild: descriptors, strings, lookup tables and address tables. */
module ImportLayout {
  import opened Machine
  import opened GuestMemory
  import opened PeImports
  import opened SectionPayload
  import W = Writes

  datatype Symbol = Symbol(name: Str, target: nat)

  /** The symbols needed from one DLL, each (name, target) pair once. */
  datatype Group = Group(dll: Str, symbols: seq<Symbol>)

  /** Addresses given to a group. */
  datatype Placed = Placed(dll: nat, names: seq<u64>, ilt: nat, iat: nat)

  function Table(names: seq<u64>): seq<byte> { Words(names + [0]) }

  function DescriptorBytes(d: Descriptor): (r: seq<byte>)
    ensures |r| == 20
  {
    Le(d.ilt, 4) + Le(0, 4) + Le(0, 4) + Le(d.name, 4) + Le(d.iat, 4)
  }

  ghost predicate Small(d: Descriptor) { d.ilt < U32 && d.name < U32 && d.iat < U32 }

  function HintName(name: Str): seq<byte> { [0, 0] + name + [0] }

  /** Beyond the descriptors nothing changes any more. */
  ghost predicate SameBeyond(s: seq<byte>, t: seq<byte>, head: nat) {
    |s| <= |t| && forall x :: head <= x < |s| ==> t[x] == s[x]
  }

  lemma AtBeyond(s: seq<byte>, t: seq<byte>, head: nat, off: nat, data: seq<byte>)
    requires SameBeyond(s, t, head) && head <= off && At(s, off, data)
    ensures At(t, off, data)
  {
    assert t[off..off + |data|] == s[off..off + |data|];
  }

  /** Strings and lookup table of a group stand where `p` says. */
  ghost predicate GroupLaid(bytes: seq<byte>, rva: nat, head: nat, g: Group, p: Placed) {
    && |p.names| == |g.symbols|
    && rva + head <= p.dll && At(bytes, p.dll - rva, g.dll + [0])
    && rva + head <= p.ilt < U32 && At(bytes, p.ilt - rva, Table(p.names))
    && p.dll < p.ilt
    && forall k :: 0 <= k < |p.names| ==> NameLaid(bytes, rva, head, g.symbols[k], p.names[k])
  }

  ghost predicate NameLaid(bytes: seq<byte>, rva: nat, head: nat, s: Symbol, at: nat) {
    rva + head <= at < U32 && At(bytes, at - rva, HintName(s.name))
  }

  ghost predicate IatLaid(bytes: seq<byte>, rva: nat, head: nat, p: Placed) {
    rva + head <= p.iat < U32 && At(bytes, p.iat - rva, Table(p.names))
  }

  lemma GroupStays(s: seq<byte>, t: seq<byte>, rva: nat, head: nat, g: Group, p: Placed)
    requires SameBeyond(s, t, head) && GroupLaid(s, rva, head, g, p)
    ensures GroupLaid(t, rva, head, g, p)
  {
    hide SameBeyond, At, Table;
    AtBeyond(s, t, head, p.dll - rva, g.dll + [0]);
    AtBeyond(s, t, head, p.ilt - rva, Table(p.names));
    forall k | 0 <= k < |p.names|
      ensures NameLaid(t, rva, head, g.symbols[k], p.names[k])
    {
      NameStays(s, t, rva, head, g.symbols[k], p.names[k]);
    }
  }

  lemma NameStays(s: seq<byte>, t: seq<byte>, rva: nat, head: nat, sym: Symbol, at: nat)
    requires SameBeyond(s, t, head) && NameLaid(s, rva, head, sym, at)
    ensures NameLaid(t, rva, head, sym, at)
  {
    AtBeyond(s, t, head, at - rva, HintName(sym.name));
  }

  lemma IatStays(s: seq<byte>, t: seq<byte>, rva: nat, head: nat, p: Placed)
    requires SameBeyond(s, t, head) && IatLaid(s, rva, head, p)
    ensures IatLaid(t, rva, head, p)
  {
    AtBeyond(s, t, head, p.iat - rva, Table(p.names));
  }

  // ----- Reading a laid-out group -----

  /** What re-reading must find: the symbols in order, in consecutive slots. */
  function Entries(g: Group, iat: nat, k: nat): (r: seq<Import>)
    requires k <= |g.symbols|
    ensures |r| == |g.symbols| - k
    ensures forall i :: 0 <= i < |r| ==> r[i] == Import(g.dll, g.symbols[k + i].name, iat + (k + i) * 8)
    decreases |g.symbols| - k
  {
    if k == |g.symbols| then [] else [Import(g.dll, g.symbols[k].name, iat + k * 8)] + Entries(g, iat, k + 1)
  }

  ghost predicate GroupOk(g: Group) {
    && Storable(g.dll) && Lower(g.dll) == g.dll
    && forall k :: 0 <= k < |g.symbols| ==> Storable(g.symbols[k].name)
  }

  lemma AtShift(img: seq<byte>, rva: nat, bytes: seq<byte>, off: nat, data: seq<byte>)
    requires At(img, rva, bytes) && At(bytes, off, data)
    ensures At(img, rva + off, data)
  {
    SliceOfSlice(img, rva, rva + |bytes|, off, off + |data|);
  }

  lemma TableWord(img: seq<byte>, at: nat, names: seq<u64>, k: nat)
    requires At(img, at, Table(names)) && k <= |names|
    ensures Field(img, at + k * 8, 8) == Some(if k < |names| then names[k] else 0)
  {
    hide Words, Le, FromLe;
    var ws := names + [0];
    var v := ws[k];
    WordsSlice(ws, k);
    var w := Words(ws);
    SliceOfSlice(img, at, at + |w|, 8 * k, 8 * k + 8);
    LeWord(v);
  }

  lemma NameRead(img: seq<byte>, rva: nat, head: nat, bytes: seq<byte>, s: Symbol, at: nat)
    requires At(img, rva, bytes) && NameLaid(bytes, rva, head, s, at) && Storable(s.name)
    ensures SymbolName(img, at) == Some(s.name)
  {
    hide CString, Storable;
    AtShift(img, rva, bytes, at - rva, HintName(s.name));
    assert HintName(s.name) == [0, 0] + (s.name + [0]);
    AtSplit(img, at, [0, 0], s.name + [0]);
    CStringAt(img, at + 2, s.name);
  }

  lemma {:induction false} ThunksRead(img: seq<byte>, rva: nat, head: nat, bytes: seq<byte>, g: Group, p: Placed, k: nat)
    requires At(img, rva, bytes) && GroupLaid(bytes, rva, head, g, p) && GroupOk(g) && 0 < rva && k <= |g.symbols|
    ensures Thunks(img, p.ilt, p.iat, g.dll, k) == Some(Entries(g, p.iat, k))
    decreases |g.symbols| - k
  {
    hide At, SymbolName, Field, Table, Storable, Lower;
    AtShift(img, rva, bytes, p.ilt - rva, Table(p.names));
    TableWord(img, p.ilt, p.names, k);
    if k < |g.symbols| {
      NameRead(img, rva, head, bytes, g.symbols[k], p.names[k]);
      ThunksRead(img, rva, head, bytes, g, p, k + 1);
    }
  }

  lemma GroupRead(img: seq<byte>, rva: nat, head: nat, bytes: seq<byte>, g: Group, p: Placed)
    requires At(img, rva, bytes) && GroupLaid(bytes, rva, head, g, p) && GroupOk(g) && 0 < rva
    ensures OneDll(img, Descriptor(p.ilt, p.dll, p.iat)) == Some(Entries(g, p.iat, 0))
  {
    hide At, CString, Thunks, Storable, Lower, Table;
    AtShift(img, rva, bytes, p.dll - rva, g.dll + [0]);
    CStringAt(img, p.dll, g.dll);
    ThunksRead(img, rva, head, bytes, g, p, 0);
  }

  lemma DescriptorRead(img: seq<byte>, off: nat, d: Descriptor)
    requires At(img, off, DescriptorBytes(d)) && Small(d)
    ensures DescriptorAt(img, off) == Some(d)
  {
    hide Le, FromLe;
    var b := DescriptorBytes(d);
    var w := img[off..off + 20];
    assert w == b;
    assert img[off..off + 4] == w[..4] == Le(d.ilt, 4);
    assert img[off + 12..off + 16] == w[12..16] == Le(d.name, 4);
    assert img[off + 16..off + 20] == w[16..20] == Le(d.iat, 4);
    Pow256Word();
    FromLeLe(d.ilt, 4);
    FromLeLe(d.name, 4);
    FromLeLe(d.iat, 4);
  }

  // ----- The whole section -----

  ghost predicate TablesLaid(bytes: seq<byte>, rva: nat, head: nat, groups: seq<Group>, placed: seq<Placed>) {
    |placed| <= |groups| && forall j :: 0 <= j < |placed| ==> GroupLaid(bytes, rva, head, groups[j], placed[j])
  }

  ghost predicate IatsLaid(bytes: seq<byte>, rva: nat, head: nat, placed: seq<Placed>, n: nat) {
    && n <= |placed|
    && (forall j :: 0 <= j < n ==> IatLaid(bytes, rva, head, placed[j]))
    && (forall i, j :: 0 <= i < j < n ==> IatEnd(placed[i]) <= placed[j].iat)
  }

  /** Past the terminating zero of an address table. */
  function IatEnd(p: Placed): nat { p.iat + 8 * (|p.names| + 1) }

  /** The descriptors so far, and zeros up to the end of the descriptor area. */
  ghost predicate HeadLaid(bytes: seq<byte>, ds: seq<Descriptor>, head: nat) {
    && 20 * |ds| <= head <= |bytes|
    && (forall j :: 0 <= j < |ds| ==> At(bytes, 20 * j, DescriptorBytes(ds[j])))
    && (forall x :: 20 * |ds| <= x < head ==> bytes[x] == 0)
  }

  lemma PrefixIsBeyond(s: seq<byte>, t: seq<byte>, head: nat)
    requires s <= t
    ensures SameBeyond(s, t, head)
  {
  }

  lemma TablesStay(s: seq<byte>, t: seq<byte>, rva: nat, head: nat, groups: seq<Group>, placed: seq<Placed>)
    requires SameBeyond(s, t, head) && TablesLaid(s, rva, head, groups, placed)
    ensures TablesLaid(t, rva, head, groups, placed)
  {
    hide SameBeyond, GroupLaid;
    forall j | 0 <= j < |placed|
      ensures GroupLaid(t, rva, head, groups[j], placed[j])
    {
      GroupStays(s, t, rva, head, groups[j], placed[j]);
    }
  }

  lemma IatsStay(s: seq<byte>, t: seq<byte>, rva: nat, head: nat, placed: seq<Placed>, n: nat)
    requires SameBeyond(s, t, head) && IatsLaid(s, rva, head, placed, n)
    ensures IatsLaid(t, rva, head, placed, n)
  {
    hide SameBeyond, IatLaid;
    forall j | 0 <= j < n
      ensures IatLaid(t, rva, head, placed[j])
    {
      IatStays(s, t, rva, head, placed[j]);
    }
  }

  lemma HeadGrows(s: seq<byte>, t: seq<byte>, ds: seq<Descriptor>, head: nat)
    requires s <= t && HeadLaid(s, ds, head)
    ensures HeadLaid(t, ds, head)
  {
    hide DescriptorBytes;
    forall j | 0 <= j < |ds|
      ensures At(t, 20 * j, DescriptorBytes(ds[j]))
    {
      AtGrows(s, t, 20 * j, DescriptorBytes(ds[j]));
    }
  }

  /** Writing the next descriptor. */
  lemma HeadNext(s: seq<byte>, ds: seq<Descriptor>, head: nat, d: Descriptor)
    requires HeadLaid(s, ds, head) && 20 * (|ds| + 1) <= head
    ensures HeadLaid(W.Put(s, 20 * |ds|, DescriptorBytes(d)), ds + [d], head)
    ensures SameBeyond(s, W.Put(s, 20 * |ds|, DescriptorBytes(d)), head)
  {
    hide DescriptorBytes;
    var n := |ds|;
    var b := DescriptorBytes(d);
    var t := W.Put(s, 20 * n, b);
    var es := ds + [d];
    forall j | 0 <= j < |es|
      ensures At(t, 20 * j, DescriptorBytes(es[j]))
    {
      if j < n {
        assert At(s, 20 * j, DescriptorBytes(ds[j]));
        assert t[20 * j..20 * j + 20] == s[20 * j..20 * j + 20];
      } else {
        assert t[20 * n..20 * n + 20] == b;
      }
    }
  }

  function DescriptorOf(p: Placed): Descriptor { Descriptor(p.ilt, p.dll, p.iat) }

  function DescriptorsOf(placed: seq<Placed>): (r: seq<Descriptor>)
    ensures |r| == |placed| && forall i :: 0 <= i < |r| ==> r[i] == DescriptorOf(placed[i])
  {
    seq(|placed|, i requires 0 <= i < |placed| => DescriptorOf(placed[i]))
  }

  /** A finished section: retained descriptors, one per group, a null one; all tables in place. */
  ghost predicate Laid(bytes: seq<byte>, rva: nat, retained: seq<Descriptor>, groups: seq<Group>, placed: seq<Placed>) {
    var head := 20 * (|retained| + |groups| + 1);
    && |placed| == |groups|
    && TablesLaid(bytes, rva, head, groups, placed)
    && IatsLaid(bytes, rva, head, placed, |placed|)
    && HeadLaid(bytes, retained + DescriptorsOf(placed), head)
  }

  /** The bytes no reader looks at: date and forwarder of a rebuilt descriptor are zero, so is the hint
      in front of a name, and the descriptors end with twenty zeros. */
  lemma LaidBytes(bytes: seq<byte>, rva: nat, retained: seq<Descriptor>, groups: seq<Group>, placed: seq<Placed>, j: nat, k: nat)
    requires Laid(bytes, rva, retained, groups, placed) && j < |groups| && k < |groups[j].symbols|
    ensures var d, name := 20 * (|retained| + j), groups[j].symbols[k].name;
            && d + 20 <= |bytes| && (forall x :: d + 4 <= x < d + 12 ==> bytes[x] == 0)
            && (forall x :: 20 * (|retained| + |groups|) <= x < 20 * (|retained| + |groups|) + 20 ==> x < |bytes| && bytes[x] == 0)
            && k < |placed[j].names| && rva <= placed[j].names[k] && At(bytes, placed[j].names[k] - rva, [0, 0] + name + [0])
  {
    hide Table, At, Le, IatLaid;
    assert GroupLaid(bytes, rva, 20 * (|retained| + |groups| + 1), groups[j], placed[j]);
    assert NameLaid(bytes, rva, 20 * (|retained| + |groups| + 1), groups[j].symbols[k], placed[j].names[k]);
    var ds := retained + DescriptorsOf(placed);
    assert ds[|retained| + j] == DescriptorOf(placed[j]);
    DescriptorZeros(bytes, 20 * (|retained| + j), ds[|retained| + j]);
  }

  lemma DescriptorZeros(bytes: seq<byte>, off: nat, d: Descriptor)
    requires At(bytes, off, DescriptorBytes(d))
    ensures off + 20 <= |bytes| && forall x :: off + 4 <= x < off + 12 ==> bytes[x] == 0
  {
    var b := DescriptorBytes(d);
    LeZeros();
    assert b[4..8] == Le(0, 4) && b[8..12] == Le(0, 4);
    forall x | off + 4 <= x < off + 12
      ensures bytes[x] == 0
    {
      assert bytes[x] == bytes[off..off + 20][x - off] == b[x - off];
      assert x < off + 8 ==> b[x - off] == b[4..8][x - off - 4];
      assert off + 8 <= x ==> b[x - off] == b[8..12][x - off - 8];
    }
  }

  lemma LeZeros()
    ensures Le(0, 4) == [0, 0, 0, 0]
  {
    assert Le(0, 1) == [0] && Le(0, 2) == [0, 0] && Le(0, 3) == [0, 0, 0];
  }

  /** Thunks appended later change nothing. */
  lemma LaidGrows(s: seq<byte>, t: seq<byte>, rva: nat, retained: seq<Descriptor>, groups: seq<Group>, placed: seq<Placed>)
    requires Laid(s, rva, retained, groups, placed) && s <= t
    ensures Laid(t, rva, retained, groups, placed)
  {
    hide TablesLaid, IatsLaid, HeadLaid, DescriptorsOf;
    var head := 20 * (|retained| + |groups| + 1);
    PrefixIsBeyond(s, t, head);
    TablesStay(s, t, rva, head, groups, placed);
    IatsStay(s, t, rva, head, placed, |placed|);
    HeadGrows(s, t, retained + DescriptorsOf(placed), head);
  }

  /** The imports a finished section lists: group by group, symbol by symbol. */
  function RebuiltParts(groups: seq<Group>, placed: seq<Placed>): (r: seq<seq<Import>>)
    requires |placed| == |groups|
    ensures |r| == |groups| && forall i :: 0 <= i < |r| ==> r[i] == Entries(groups[i], placed[i].iat, 0)
  {
    seq(|groups|, i requires 0 <= i < |groups| => Entries(groups[i], placed[i].iat, 0))
  }

  ghost predicate Retains(orig: seq<byte>, kept: set<nat>, retained: seq<Descriptor>, parts: seq<seq<Import>>) {
    && |parts| == |retained|
    && forall i :: 0 <= i < |retained| ==>
         && Small(retained[i]) && retained[i] != NULL
         && DllKept(orig, kept, retained[i]) && OneDll(orig, retained[i]) == Some(parts[i])
  }

  /** Walking the new directory in a mapped image gives the retained imports, then the rebuilt. */
  lemma SectionReads(img: seq<byte>, orig: seq<byte>, kept: set<nat>, rva: nat, bytes: seq<byte>,
      retained: seq<Descriptor>, parts: seq<seq<Import>>, groups: seq<Group>, placed: seq<Placed>)
    requires At(img, rva, bytes) && 0 < rva && Laid(bytes, rva, retained, groups, placed)
    requires forall i :: 0 <= i < |groups| ==> GroupOk(groups[i])
    requires Keeps(orig, img, kept) && Retains(orig, kept, retained, parts)
    ensures Imports(img, rva, rva + 20 * (|retained| + |groups| + 1))
         == Some(Concat(parts + RebuiltParts(groups, placed)))
  {
    hide At, Keeps, GroupLaid, GroupOk, DllKept, OneDll, DescriptorAt, IatLaid, DescriptorBytes, Entries, Imports, Concat;
    hide Retains, HeadLaid, IatsLaid, TablesLaid;
    RetainedCount(orig, kept, retained, parts);
    var ds := retained + DescriptorsOf(placed);
    var all := parts + RebuiltParts(groups, placed);
    var head := 20 * (|retained| + |groups| + 1);
    forall i | 0 <= i < |ds|
      ensures DescriptorAt(img, rva + 20 * i) == Some(ds[i]) && ds[i] != NULL && OneDll(img, ds[i]) == Some(all[i])
    {
      if i < |retained| {
        RetainedReads(img, orig, kept, rva, bytes, ds, head, retained, parts, i);
      } else {
        RebuiltReads(img, rva, bytes, ds, head, groups, placed, i);
      }
    }
    NullRead(img, rva, bytes, ds, head);
    ImportsList(img, rva, rva + head, ds, all);
  }

  lemma RetainedCount(orig: seq<byte>, kept: set<nat>, retained: seq<Descriptor>, parts: seq<seq<Import>>)
    requires Retains(orig, kept, retained, parts)
    ensures |parts| == |retained|
  {
  }

  lemma RetainedReads(img: seq<byte>, orig: seq<byte>, kept: set<nat>, rva: nat, bytes: seq<byte>, ds: seq<Descriptor>,
      head: nat, retained: seq<Descriptor>, parts: seq<seq<Import>>, i: nat)
    requires At(img, rva, bytes) && HeadLaid(bytes, ds, head) && retained <= ds && i < |retained|
    requires Keeps(orig, img, kept) && Retains(orig, kept, retained, parts)
    ensures DescriptorAt(img, rva + 20 * i) == Some(ds[i]) && ds[i] != NULL && OneDll(img, ds[i]) == Some(parts[i])
  {
    hide At, Keeps, DllKept, OneDll, DescriptorAt, DescriptorBytes;
    assert ds[i] == retained[i];
    AtShift(img, rva, bytes, 20 * i, DescriptorBytes(ds[i]));
    OneDllSame(orig, img, kept, retained[i]);
    DescriptorRead(img, rva + 20 * i, ds[i]);
  }

  lemma RebuiltReads(img: seq<byte>, rva: nat, bytes: seq<byte>, ds: seq<Descriptor>, head: nat, groups: seq<Group>,
      placed: seq<Placed>, i: nat)
    requires At(img, rva, bytes) && 0 < rva && HeadLaid(bytes, ds, head) && |placed| == |groups|
    requires |groups| <= |ds| && ds[|ds| - |groups|..] == DescriptorsOf(placed) && |ds| - |groups| <= i < |ds|
    requires TablesLaid(bytes, rva, head, groups, placed) && IatsLaid(bytes, rva, head, placed, |placed|)
    requires forall k :: 0 <= k < |groups| ==> GroupOk(groups[k])
    ensures var j := i - (|ds| - |groups|);
            && DescriptorAt(img, rva + 20 * i) == Some(ds[i]) && ds[i] != NULL
            && OneDll(img, ds[i]) == Some(Entries(groups[j], placed[j].iat, 0))
  {
    hide At, GroupLaid, GroupOk, OneDll, DescriptorAt, IatLaid, DescriptorBytes, Entries;
    var j := i - (|ds| - |groups|);
    assert ds[i] == ds[|ds| - |groups|..][j] == DescriptorOf(placed[j]);
    AtShift(img, rva, bytes, 20 * i, DescriptorBytes(ds[i]));
    PlacedSmall(bytes, rva, head, groups[j], placed[j]);
    GroupRead(img, rva, head, bytes, groups[j], placed[j]);
    DescriptorRead(img, rva + 20 * i, ds[i]);
  }

  lemma PlacedSmall(bytes: seq<byte>, rva: nat, head: nat, g: Group, p: Placed)
    requires GroupLaid(bytes, rva, head, g, p) && IatLaid(bytes, rva, head, p) && 0 < rva
    ensures Small(DescriptorOf(p)) && DescriptorOf(p) != NULL
  {
  }

  lemma NullRead(img: seq<byte>, rva: nat, bytes: seq<byte>, ds: seq<Descriptor>, head: nat)
    requires At(img, rva, bytes) && HeadLaid(bytes, ds, head) && head == 20 * (|ds| + 1)
    ensures DescriptorAt(img, rva + 20 * |ds|) == Some(NULL)
  {
    hide DescriptorBytes;
    var off := rva + 20 * |ds|;
    forall x | off <= x < off + 20
      ensures img[x] == 0
    {
      assert img[x] == img[rva..rva + |bytes|][x - rva];
    }
    ZeroField(img[off..off + 4]);
    ZeroField(img[off + 12..off + 16]);
    ZeroField(img[off + 16..off + 20]);
  }

  lemma {:induction false} ZeroField(b: seq<byte>)
    requires forall i :: 0 <= i < |b| ==> b[i] == 0
    ensures FromLe(b) == 0
    decreases |b|
  {
    if b != [] {
      ZeroField(b[1..]);
    }
  }
}
