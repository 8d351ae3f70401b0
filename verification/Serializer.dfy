/** The checked byte format of serialization.hpp: every raw write is preceded by the low byte of
    its length, and composite values are sequences of raw writes. */
module Serializer {
  import opened Machine
  import opened GuestMemory

  /** The shapes the templates produce. A struct with its own serialize function writes its
      fields one after the other (`Pair`); a string is a vector of characters. */
  datatype Schema =
    | Raw(size: nat)
    | Bool
    | Optional(of: Schema)
    | Vector(of: Schema)
    | BitVector
    | Table(key: Schema, value: Schema)
    | Pair(first: Schema, second: Schema)

  datatype Value =
    | Bytes(data: seq<byte>)
    | Flag(on: bool)
    | Absent
    | Present(value: Value)
    | List(items: seq<Value>)
    | Bits(bits: seq<bool>)
    | Entries(entries: seq<Entry>)
    | Both(first: Value, second: Value)

  datatype Entry = Entry(key: Value, value: Value)

  function Number(v: u64): Value { Bytes(Le(v, 8)) }

  ghost predicate DistinctKeys(entries: seq<Entry>) {
    forall i, j :: 0 <= i < j < |entries| ==> entries[i].key != entries[j].key
  }

  ghost predicate HasType(v: Value, s: Schema)
    decreases v
  {
    match s
    case Raw(size) => v.Bytes? && |v.data| == size
    case Bool => v.Flag?
    case Optional(of) => v.Absent? || (v.Present? && HasType(v.value, of))
    case Vector(of) => v.List? && |v.items| < U64 && forall i :: 0 <= i < |v.items| ==> HasType(v.items[i], of)
    case BitVector => v.Bits? && |v.bits| + 7 < U64
    case Table(key, value) =>
      && v.Entries? && |v.entries| < U64 && DistinctKeys(v.entries)
      && forall i :: 0 <= i < |v.entries| ==> EntryHasType(v.entries[i], key, value)
    case Pair(first, second) => v.Both? && HasType(v.first, first) && HasType(v.second, second)
  }

  ghost predicate EntryHasType(e: Entry, key: Schema, value: Schema)
    decreases e
  {
    HasType(e.key, key) && HasType(e.value, value)
  }

  // ----- Writing -----

  function WriteRaw(data: seq<byte>): seq<byte> { [|data| % 256] + data }

  function WriteNumber(v: u64): seq<byte> { WriteRaw(Le(v, 8)) }

  function WriteBool(on: bool): seq<byte> { WriteRaw([if on then 1 else 0]) }

  /** The bits of a vector<bool> as the bytes they are packed into, each written raw. */
  function WritePacked(bits: seq<bool>): seq<byte> {
    if bits == [] then []
    else
      var n := Min(8, |bits|);
      WriteRaw([PackByte(bits[..n])]) + WritePacked(bits[n..])
  }

  function PackByte(bits: seq<bool>): byte
    requires |bits| <= 8
  {
    ToBitsFromBits(bits);
    Pow2Small(|bits|);
    FromBits(bits)
  }

  lemma Pow2Small(n: nat)
    requires n <= 8
    ensures Pow2(n) <= 256
  {
    assert Pow2(1) == 2 && Pow2(2) == 4 && Pow2(3) == 8 && Pow2(4) == 16;
    assert Pow2(5) == 32 && Pow2(6) == 64 && Pow2(7) == 128 && Pow2(8) == 256;
  }

  function Write(v: Value): seq<byte>
    decreases v, 0
  {
    match v
    case Bytes(data) => WriteRaw(data)
    case Flag(on) => WriteBool(on)
    case Absent => WriteBool(false)
    case Present(value) => WriteBool(true) + Write(value)
    case List(items) => WriteNumber(|items| % U64) + WriteItems(items)
    case Bits(bits) => WriteNumber(|bits| % U64) + WritePacked(bits)
    case Entries(entries) => WriteNumber(|entries| % U64) + WriteEntries(entries)
    case Both(first, second) => Write(first) + Write(second)
  }

  function WriteItems(items: seq<Value>): seq<byte>
    decreases items, 1
  {
    if items == [] then [] else Write(items[0]) + WriteItems(items[1..])
  }

  function WriteEntries(entries: seq<Entry>): seq<byte>
    decreases entries, 1
  {
    if entries == [] then [] else WriteEntry(entries[0]) + WriteEntries(entries[1..])
  }

  function WriteEntry(e: Entry): seq<byte>
    decreases e, 1
  {
    Write(e.key) + Write(e.value)
  }

  // ----- Reading -----

  /** A value and the offset after it, or the exception. */
  datatype Result = Fail | Ok(value: Value, next: nat)

  function ReadRaw(size: nat, buf: seq<byte>, off: nat): Result {
    if off + (size + 1) > |buf| then Fail
    else if buf[off] != size % 256 then Fail
    else Ok(Bytes(buf[off + 1..off + 1 + size]), off + 1 + size)
  }

  function ReadNumber(buf: seq<byte>, off: nat): Option<(u64, nat)> {
    match ReadRaw(8, buf, off)
    case Fail => None
    case Ok(v, next) =>
      LeFromLe(v.data);
      Pow256Word();
      Some((FromLe(v.data), next))
  }

  /** The bytes still to come of a packed vector whose first bits are `acc`. */
  function ReadPacked(bytes: nat, count: nat, buf: seq<byte>, off: nat, acc: seq<bool>): Result {
    if bytes == 0 then Ok(Bits(acc), off)
    else
      match ReadRaw(1, buf, off)
      case Fail => Fail
      case Ok(v, next) =>
        var take := if |acc| < count then Min(8, count - |acc|) else 0;
        ReadPacked(bytes - 1, count, buf, next, acc + ToBits(v.data[0], 8)[..take])
  }

  function Read(s: Schema, buf: seq<byte>, off: nat): Result
    decreases s, 2, 0
  {
    match s
    case Raw(size) => ReadRaw(size, buf, off)
    case Bool =>
      (match ReadRaw(1, buf, off)
       case Fail => Fail
       case Ok(v, next) => Ok(Flag(v.data[0] != 0), next))
    case Optional(of) =>
      (match ReadRaw(1, buf, off)
       case Fail => Fail
       case Ok(v, next) =>
         if v.data[0] == 0 then Ok(Absent, next)
         else
           match Read(of, buf, next)
           case Fail => Fail
           case Ok(x, after) => Ok(Present(x), after))
    case Vector(of) =>
      (match ReadNumber(buf, off)
       case None => Fail
       case Some(n) => ReadItems(s, n.0, buf, n.1, []))
    case BitVector =>
      (match ReadNumber(buf, off)
       case None => Fail
       case Some(n) => ReadPacked((n.0 + 7) % U64 / 8, n.0, buf, n.1, []))
    case Table(key, value) =>
      (match ReadNumber(buf, off)
       case None => Fail
       case Some(n) => ReadEntries(s, n.0, buf, n.1, []))
    case Pair(first, second) =>
      match Read(first, buf, off)
      case Fail => Fail
      case Ok(a, next) =>
        match Read(second, buf, next)
        case Fail => Fail
        case Ok(b, after) => Ok(Both(a, b), after)
  }

  function ReadItems(s: Schema, count: nat, buf: seq<byte>, off: nat, acc: seq<Value>): Result
    requires s.Vector?
    decreases s, 1, count
  {
    if count == 0 then Ok(List(acc), off)
    else
      match Read(s.of, buf, off)
      case Fail => Fail
      case Ok(v, next) => ReadItems(s, count - 1, buf, next, acc + [v])
  }

  /** `emplace`: the first entry for a key stays. */
  function Emplace(acc: seq<Entry>, key: Value, value: Value): seq<Entry> {
    if exists i :: 0 <= i < |acc| && acc[i].key == key then acc else acc + [Entry(key, value)]
  }

  function ReadEntries(s: Schema, count: nat, buf: seq<byte>, off: nat, acc: seq<Entry>): (r: Result)
    requires s.Table?
    ensures r.Ok? ==> r.value.Entries?
    decreases s, 1, count
  {
    if count == 0 then Ok(Entries(acc), off)
    else
      match Read(s.key, buf, off)
      case Fail => Fail
      case Ok(k, mid) =>
        match Read(s.value, buf, mid)
        case Fail => Fail
        case Ok(v, next) => ReadEntries(s, count - 1, buf, next, Emplace(acc, k, v))
  }

  // ----- Round trip -----

  lemma RawRoundTrip(data: seq<byte>, buf: seq<byte>, off: nat)
    requires At(buf, off, WriteRaw(data))
    ensures ReadRaw(|data|, buf, off) == Ok(Bytes(data), off + |WriteRaw(data)|)
  {
    var w := WriteRaw(data);
    assert buf[off] == buf[off..off + |w|][0] == w[0];
    assert buf[off + 1..off + 1 + |data|] == buf[off..off + |w|][1..] == w[1..] == data;
  }

  lemma NumberRoundTrip(v: u64, buf: seq<byte>, off: nat)
    requires At(buf, off, WriteNumber(v))
    ensures ReadNumber(buf, off) == Some((v, off + |WriteNumber(v)|))
  {
    RawRoundTrip(Le(v, 8), buf, off);
    LeWord(v);
  }

  lemma PackRoundTrip(bits: seq<bool>)
    requires |bits| <= 8
    ensures ToBits(PackByte(bits), 8)[..|bits|] == bits
  {
    ToBitsFromBits(bits);
    ToBitsPrefix(PackByte(bits), |bits|, 8);
  }

  lemma {:induction false} ToBitsPrefix(v: nat, k: nat, n: nat)
    requires k <= n
    ensures ToBits(v, n)[..k] == ToBits(v, k)
  {
    if k > 0 {
      ToBitsPrefix(v / 2, k - 1, n - 1);
    }
  }

  lemma {:induction false} PackedRoundTrip(bits: seq<bool>, count: nat, buf: seq<byte>, off: nat, acc: seq<bool>)
    requires At(buf, off, WritePacked(bits)) && |acc| + |bits| == count
    ensures ReadPacked((|bits| + 7) / 8, count, buf, off, acc) == Ok(Bits(acc + bits), off + |WritePacked(bits)|)
    decreases |bits|
  {
    hide At, WriteRaw, ReadRaw, PackByte, ToBits;
    if bits == [] {
      assert acc + bits == acc;
    } else {
      var n := Min(8, |bits|);
      var b := PackByte(bits[..n]);
      var head := WriteRaw([b]);
      AtSplit(buf, off, head, WritePacked(bits[n..]));
      RawRoundTrip([b], buf, off);
      PackRoundTrip(bits[..n]);
      assert bits == bits[..n] + bits[n..];
      assert (acc + bits[..n]) + bits[n..] == acc + bits;
      PackedRoundTrip(bits[n..], count, buf, off + |head|, acc + bits[..n]);
      assert (|bits| + 7) / 8 - 1 == (|bits[n..]| + 7) / 8;
    }
  }

  /** Reading what was written gives the value back and consumes exactly the written bytes,
      whatever comes before and after them. */
  lemma {:induction false} RoundTrip(v: Value, s: Schema, buf: seq<byte>, off: nat)
    requires HasType(v, s) && At(buf, off, Write(v))
    ensures Read(s, buf, off) == Ok(v, off + |Write(v)|)
    decreases v, 5
  {
    hide At, WriteRaw, WriteBool, WriteNumber, WriteItems, WriteEntries, WritePacked;
    hide ReadNumber, ReadItems, ReadEntries, ReadPacked;
    match s
    case Raw(size) => RawRoundTrip(v.data, buf, off);
    case Bool => BoolRoundTrip(v.on, buf, off);
    case Optional(of) =>
      if v.Absent? {
        BoolRoundTrip(false, buf, off);
      } else {
        AtSplit(buf, off, WriteBool(true), Write(v.value));
        BoolRoundTrip(true, buf, off);
        RoundTrip(v.value, of, buf, off + |WriteBool(true)|);
      }
    case Vector(of) => VectorRoundTrip(v, s, buf, off);
    case BitVector => BitsRoundTrip(v, s, buf, off);
    case Table(key, value) => TableRoundTrip(v, s, buf, off);
    case Pair(first, second) =>
      AtSplit(buf, off, Write(v.first), Write(v.second));
      RoundTrip(v.first, first, buf, off);
      RoundTrip(v.second, second, buf, off + |Write(v.first)|);
  }

  lemma BoolRoundTrip(on: bool, buf: seq<byte>, off: nat)
    requires At(buf, off, WriteBool(on))
    ensures ReadRaw(1, buf, off) == Ok(Bytes([if on then 1 else 0]), off + |WriteBool(on)|)
  {
    RawRoundTrip([if on then 1 else 0], buf, off);
  }

  lemma {:induction false} VectorRoundTrip(v: Value, s: Schema, buf: seq<byte>, off: nat)
    requires HasType(v, s) && At(buf, off, Write(v)) && s.Vector?
    ensures Read(s, buf, off) == Ok(v, off + |Write(v)|)
    decreases v, 4
  {
    hide At, WriteNumber, ReadNumber, ReadItems, WriteItems;
    AtSplit(buf, off, WriteNumber(|v.items|), WriteItems(v.items));
    NumberRoundTrip(|v.items|, buf, off);
    ItemsRoundTrip(v.items, s, buf, off + |WriteNumber(|v.items|)|, []);
    assert [] + v.items == v.items;
  }

  lemma BitsRoundTrip(v: Value, s: Schema, buf: seq<byte>, off: nat)
    requires HasType(v, s) && At(buf, off, Write(v)) && s.BitVector?
    ensures Read(s, buf, off) == Ok(v, off + |Write(v)|)
  {
    hide At, WriteNumber, ReadNumber, ReadPacked, WritePacked;
    AtSplit(buf, off, WriteNumber(|v.bits|), WritePacked(v.bits));
    NumberRoundTrip(|v.bits|, buf, off);
    PackedRoundTrip(v.bits, |v.bits|, buf, off + |WriteNumber(|v.bits|)|, []);
    assert [] + v.bits == v.bits;
  }

  lemma {:induction false} TableRoundTrip(v: Value, s: Schema, buf: seq<byte>, off: nat)
    requires HasType(v, s) && At(buf, off, Write(v)) && s.Table?
    ensures Read(s, buf, off) == Ok(v, off + |Write(v)|)
    decreases v, 4
  {
    hide At, WriteNumber, ReadNumber, ReadEntries, WriteEntries;
    AtSplit(buf, off, WriteNumber(|v.entries|), WriteEntries(v.entries));
    NumberRoundTrip(|v.entries|, buf, off);
    assert [] + v.entries == v.entries;
    EntriesRoundTrip(v.entries, s, buf, off + |WriteNumber(|v.entries|)|, []);
  }

  lemma {:induction false} ItemsRoundTrip(items: seq<Value>, s: Schema, buf: seq<byte>, off: nat, acc: seq<Value>)
    requires s.Vector? && At(buf, off, WriteItems(items))
    requires forall i :: 0 <= i < |items| ==> HasType(items[i], s.of)
    ensures ReadItems(s, |items|, buf, off, acc) == Ok(List(acc + items), off + |WriteItems(items)|)
    decreases items, 1
  {
    hide Read, Write, At, HasType;
    if items == [] {
      assert acc + items == acc;
    } else {
      AtSplit(buf, off, Write(items[0]), WriteItems(items[1..]));
      RoundTrip(items[0], s.of, buf, off);
      ItemsRoundTrip(items[1..], s, buf, off + |Write(items[0])|, acc + [items[0]]);
      assert acc + [items[0]] + items[1..] == acc + items;
    }
  }

  lemma {:induction false} EntriesRoundTrip(entries: seq<Entry>, s: Schema, buf: seq<byte>, off: nat, acc: seq<Entry>)
    requires s.Table? && At(buf, off, WriteEntries(entries)) && DistinctKeys(acc + entries)
    requires forall i :: 0 <= i < |entries| ==> EntryHasType(entries[i], s.key, s.value)
    ensures ReadEntries(s, |entries|, buf, off, acc) == Ok(Entries(acc + entries), off + |WriteEntries(entries)|)
    decreases entries, 1
  {
    hide Read, Write, At, EntryHasType, WriteEntry;
    if entries == [] {
      assert acc + entries == acc;
    } else {
      var e := entries[0];
      AtSplit(buf, off, WriteEntry(e), WriteEntries(entries[1..]));
      EntryRoundTrip(e, s, buf, off);
      assert acc + [e] + entries[1..] == acc + entries;
      forall i | 0 <= i < |acc|
        ensures acc[i].key != e.key
      {
        assert (acc + entries)[i] == acc[i] && (acc + entries)[|acc|] == e;
      }
      EntriesRoundTrip(entries[1..], s, buf, off + |WriteEntry(e)|, acc + [e]);
    }
  }

  lemma {:induction false} EntryRoundTrip(e: Entry, s: Schema, buf: seq<byte>, off: nat)
    requires s.Table? && At(buf, off, WriteEntry(e)) && EntryHasType(e, s.key, s.value)
    ensures Read(s.key, buf, off) == Ok(e.key, off + |Write(e.key)|)
    ensures Read(s.value, buf, off + |Write(e.key)|) == Ok(e.value, off + |WriteEntry(e)|)
    decreases e, 1
  {
    AtSplit(buf, off, Write(e.key), Write(e.value));
    RoundTrip(e.key, s.key, buf, off);
    RoundTrip(e.value, s.value, buf, off + |Write(e.key)|);
  }

  // ----- The format, byte by byte -----

  /** A raw block: the low byte of its length, then its bytes. */
  lemma RawBytes(data: seq<byte>)
    ensures var w := Write(Bytes(data));
            |w| == 1 + |data| && w[0] == |data| % 256 && w[1..] == data
  {
  }

  /** A number is a block of eight bytes, least significant first. */
  lemma NumberBytes(v: u64, i: nat)
    requires i < 8
    ensures var w := Write(Number(v));
            |w| == 9 && w[0] == 8 && w[1 + i] == v / Pow256(i) % 256
  {
    LeDigit(v, 8, i);
  }

  /** A flag is a block of one byte. An optional value is a flag and, when set, the value; a pair is
      its parts in order. */
  lemma SimpleForms(on: bool, v: Value, w: Value)
    ensures Write(Flag(on)) == [1, if on then 1 else 0]
    ensures Write(Absent) == [1, 0] && Write(Present(v)) == [1, 1] + Write(v)
    ensures Write(Both(v, w)) == Write(v) + Write(w)
  {
  }

  /** Lists, bit vectors and tables begin with their count. */
  lemma CountFirst(items: seq<Value>, bits: seq<bool>, entries: seq<Entry>)
    requires |items| < U64 && |bits| < U64 && |entries| < U64
    ensures Write(Number(|items|)) <= Write(List(items)) && Write(Number(|bits|)) <= Write(Bits(bits))
    ensures Write(Number(|entries|)) <= Write(Entries(entries))
  {
    hide WriteItems, WriteEntries, WritePacked, WriteRaw, Le;
    SmallModulus(|items|);
    SmallModulus(|bits|);
    SmallModulus(|entries|);
  }

  lemma SmallModulus(n: nat)
    requires n < U64
    ensures n % U64 == n
  {
  }

  /** Behind the count stand the items in order, nothing between them. */
  lemma {:induction false} ItemsInOrder(a: seq<Value>, b: seq<Value>, x: Value)
    ensures Write(List(a + b))[9..] == Write(List(a))[9..] + Write(List(b))[9..]
    ensures Write(List([]))[9..] == [] && Write(List([x]))[9..] == Write(x)
    decreases |a|
  {
    hide Write, WriteItems;
    ItemsBehind(a + b);
    ItemsBehind(a);
    ItemsBehind(b);
    ItemsBehind([]);
    ItemsBehind([x]);
    ItemsConcat(a, b);
    ItemsOne(x);
  }

  lemma ItemsBehind(items: seq<Value>)
    ensures Write(List(items))[9..] == WriteItems(items)
  {
    hide WriteItems;
  }

  lemma ItemsOne(x: Value)
    ensures WriteItems([]) == [] && WriteItems([x]) == Write(x)
  {
    hide Write;
    assert [x][1..] == [];
    assert Write(x) + [] == Write(x);
  }

  lemma {:induction false} ItemsConcat(a: seq<Value>, b: seq<Value>)
    ensures WriteItems(a + b) == WriteItems(a) + WriteItems(b)
    decreases |a|
  {
    hide Write;
    if a == [] {
      assert a + b == b;
    } else {
      ItemsConcat(a[1..], b);
      assert (a + b)[0] == a[0] && (a + b)[1..] == a[1..] + b;
    }
  }

  /** Behind the count stand the entries in order, each its key and then its value. */
  lemma EntriesInOrder(a: seq<Entry>, b: seq<Entry>, e: Entry)
    ensures Write(Entries(a + b))[9..] == Write(Entries(a))[9..] + Write(Entries(b))[9..]
    ensures Write(Entries([]))[9..] == [] && Write(Entries([e]))[9..] == Write(e.key) + Write(e.value)
  {
    hide Write, WriteEntries;
    EntriesBehind(a + b);
    EntriesBehind(a);
    EntriesBehind(b);
    EntriesBehind([]);
    EntriesBehind([e]);
    EntriesConcat(a, b);
    EntriesOne(e);
  }

  lemma EntriesBehind(entries: seq<Entry>)
    ensures Write(Entries(entries))[9..] == WriteEntries(entries)
  {
    hide WriteEntries;
  }

  lemma EntriesOne(e: Entry)
    ensures WriteEntries([]) == [] && WriteEntries([e]) == Write(e.key) + Write(e.value)
  {
    hide Write;
    assert [e][1..] == [];
    assert WriteEntry(e) + [] == WriteEntry(e);
  }

  lemma {:induction false} EntriesConcat(a: seq<Entry>, b: seq<Entry>)
    ensures WriteEntries(a + b) == WriteEntries(a) + WriteEntries(b)
    decreases |a|
  {
    hide WriteEntry;
    if a == [] {
      assert a + b == b;
    } else {
      EntriesConcat(a[1..], b);
      assert (a + b)[0] == a[0] && (a + b)[1..] == a[1..] + b;
    }
  }

  /** Bit `j` of a bit vector is bit `j % 8` of byte `j / 8` behind the count; every such byte is a
      block of its own, and unused bits are zero. */
  lemma BitPlace(bits: seq<bool>, j: nat)
    requires j < (|bits| + 7) / 8 * 8
    ensures var w, at := Write(Bits(bits)), 9 + 2 * (j / 8);
            && |w| == 9 + 2 * ((|bits| + 7) / 8) && at + 1 < |w| && w[at] == 1
            && (w[at + 1] / Pow2(j % 8) % 2 == 1 <==> j < |bits| && bits[j])
  {
    hide WritePacked;
    PackedPlace(bits, j);
    assert Write(Bits(bits))[9..] == WritePacked(bits);
  }

  lemma PackedPlace(bits: seq<bool>, j: nat)
    requires j < (|bits| + 7) / 8 * 8
    ensures var w, at := WritePacked(bits), 2 * (j / 8);
            && |w| == 2 * ((|bits| + 7) / 8) && at + 1 < |w| && w[at] == 1
            && (w[at + 1] / Pow2(j % 8) % 2 == 1 <==> j < |bits| && bits[j])
  {
    hide Pow2, PackByte, WritePacked;
    var i := j / 8;
    PackedLength(bits);
    PackedAt(bits, i);
    PackedBit(bits[8 * i..Min(8 * i + 8, |bits|)], j % 8);
  }

  lemma {:induction false} PackedAt(bits: seq<bool>, i: nat)
    requires 8 * i < |bits|
    ensures var w := WritePacked(bits);
            2 * i + 1 < |w| && w[2 * i] == 1 && w[2 * i + 1] == PackByte(bits[8 * i..Min(8 * i + 8, |bits|)])
    decreases |bits|
  {
    hide PackByte;
    if i > 0 {
      var rest := bits[8..];
      PackedAt(rest, i - 1);
      assert WritePacked(bits)[2..] == WritePacked(rest);
      assert rest[8 * (i - 1)..Min(8 * i, |rest|)] == bits[8 * i..Min(8 * i + 8, |bits|)];
    }
  }

  lemma {:induction false} PackedLength(bits: seq<bool>)
    ensures |WritePacked(bits)| == 2 * ((|bits| + 7) / 8)
    decreases |bits|
  {
    hide PackByte;
    if bits != [] {
      var n := Min(8, |bits|);
      PackedLength(bits[n..]);
      assert (|bits| + 7) / 8 == 1 + (|bits| - n + 7) / 8;
    }
  }

  lemma PackedBit(bits: seq<bool>, j: nat)
    requires |bits| <= 8 && j < 8
    ensures PackByte(bits) / Pow2(j) % 2 == 1 <==> j < |bits| && bits[j]
  {
    hide Pow2;
    if j < |bits| {
      FromBitsDigit(bits, j);
    } else {
      ToBitsFromBits(bits);
      Pow2Grows(|bits|, j);
      SmallQuotient(FromBits(bits), Pow2(j));
    }
  }

  lemma {:induction false} Pow2Grows(i: nat, j: nat)
    requires i <= j
    ensures Pow2(i) <= Pow2(j)
    decreases j
  {
    if i < j {
      Pow2Grows(i, j - 1);
    }
  }

  lemma SmallQuotient(v: nat, c: nat)
    requires v < c
    ensures v / c == 0
  {
  }

  // ----- What reading accepts -----

  /** A block is read exactly when it lies in the buffer and its first byte is the low byte of its
      length. */
  lemma RawReads(size: nat, buf: seq<byte>, off: nat)
    ensures Read(Raw(size), buf, off) == if off + 1 + size <= |buf| && buf[off] == size % 256
                                         then Ok(Bytes(buf[off + 1..off + 1 + size]), off + 1 + size) else Fail
  {
  }

  /** Every byte but zero reads as true, and as the presence of an optional value. */
  lemma FlagReads(of: Schema, buf: seq<byte>, off: nat)
    requires off + 2 <= |buf| && buf[off] == 1
    ensures Read(Bool, buf, off) == Ok(Flag(buf[off + 1] != 0), off + 2)
    ensures buf[off + 1] == 0 ==> Read(Optional(of), buf, off) == Ok(Absent, off + 2)
    ensures buf[off + 1] != 0 ==>
              Read(Optional(of), buf, off) == match Read(of, buf, off + 2)
                                              case Fail => Fail
                                              case Ok(x, next) => Ok(Present(x), next)
  {
  }

  ghost predicate HasKey(entries: seq<Entry>, key: Value) {
    exists i :: 0 <= i < |entries| && entries[i].key == key
  }

  /** Entry `j` is the first with its key. */
  ghost predicate FirstAt(entries: seq<Entry>, j: nat, e: Entry) {
    j < |entries| && entries[j] == e && forall k :: 0 <= k < j ==> entries[k].key != e.key
  }

  ghost predicate IsFirst(entries: seq<Entry>, e: Entry) {
    exists j: nat :: FirstAt(entries, j, e)
  }

  /** One entry for every key, the first one. */
  ghost predicate FirstsOf(r: seq<Entry>, entries: seq<Entry>) {
    && DistinctKeys(r)
    && (forall i :: 0 <= i < |r| ==> IsFirst(entries, r[i]))
    && (forall j :: 0 <= j < |entries| ==> HasKey(r, entries[j].key))
  }

  lemma FirstsNext(r: seq<Entry>, entries: seq<Entry>, e: Entry)
    requires FirstsOf(r, entries)
    ensures FirstsOf(Emplace(r, e.key, e.value), entries + [e])
  {
    var more, out := entries + [e], Emplace(r, e.key, e.value);
    forall i | 0 <= i < |out|
      ensures IsFirst(more, out[i])
    {
      if i < |r| {
        var j: nat :| FirstAt(entries, j, r[i]);
        assert FirstAt(more, j, r[i]);
      } else {
        forall k | 0 <= k < |entries|
          ensures entries[k].key != e.key
        {
          assert HasKey(r, entries[k].key);
        }
        assert FirstAt(more, |entries|, e);
      }
    }
    forall j | 0 <= j < |more|
      ensures HasKey(out, more[j].key)
    {
      if j < |entries| {
        assert HasKey(r, entries[j].key);
        var i :| 0 <= i < |r| && r[i].key == entries[j].key;
        assert out[i].key == more[j].key;
      } else if !HasKey(r, e.key) {
        assert out[|r|].key == e.key;
      }
    }
  }

  /** A table that was written with repeated keys reads back with the first entry of each. */
  lemma {:induction false} FirstsRead(entries: seq<Entry>, done: seq<Entry>, s: Schema, buf: seq<byte>, off: nat, acc: seq<Entry>)
    requires s.Table? && At(buf, off, WriteEntries(entries)) && FirstsOf(acc, done)
    requires forall i :: 0 <= i < |entries| ==> EntryHasType(entries[i], s.key, s.value)
    ensures var r := ReadEntries(s, |entries|, buf, off, acc);
            r.Ok? && r.next == off + |WriteEntries(entries)| && r.value.Entries? && FirstsOf(r.value.entries, done + entries)
    decreases |entries|
  {
    hide Read, Write, At, EntryHasType, WriteEntry, Emplace, FirstsOf;
    if entries == [] {
      assert done + entries == done;
    } else {
      var e := entries[0];
      AtSplit(buf, off, WriteEntry(e), WriteEntries(entries[1..]));
      EntryRoundTrip(e, s, buf, off);
      FirstsNext(acc, done, e);
      FirstsRead(entries[1..], done + [e], s, buf, off + |WriteEntry(e)|, Emplace(acc, e.key, e.value));
      assert done + [e] + entries[1..] == done + entries;
    }
  }

  lemma RepeatedKeys(entries: seq<Entry>, s: Schema, buf: seq<byte>, off: nat)
    requires s.Table? && |entries| < U64 && At(buf, off, Write(Entries(entries)))
    requires forall i :: 0 <= i < |entries| ==> EntryHasType(entries[i], s.key, s.value)
    ensures var r := Read(s, buf, off);
            r.Ok? && r.next == off + |Write(Entries(entries))| && r.value.Entries? && FirstsOf(r.value.entries, entries)
  {
    hide At, WriteNumber, ReadNumber, ReadEntries, WriteEntries, EntryHasType;
    AtSplit(buf, off, WriteNumber(|entries|), WriteEntries(entries));
    NumberRoundTrip(|entries|, buf, off);
    assert [] + entries == entries;
    FirstsRead(entries, [], s, buf, off + |WriteNumber(|entries|)|, []);
  }

  // ----- Truncation -----

  /** A successful read depends only on the bytes it consumed. */
  ghost predicate Local(r: Result, t: Result, off: nat, size: nat) {
    r.Ok? ==> off <= r.next <= size && t == r
  }

  lemma RawLocal(size: nat, buf: seq<byte>, more: seq<byte>, off: nat)
    ensures Local(ReadRaw(size, buf, off), ReadRaw(size, buf + more, off), off, |buf|)
  {
    if off + size + 1 <= |buf| {
      assert (buf + more)[off + 1..off + 1 + size] == buf[off + 1..off + 1 + size];
    }
  }

  lemma NumberLocal(buf: seq<byte>, more: seq<byte>, off: nat)
    ensures var r := ReadNumber(buf, off);
            r.Some? ==> off <= r.value.1 <= |buf| && ReadNumber(buf + more, off) == r
  {
    RawLocal(8, buf, more, off);
  }

  lemma {:induction false} PackedLocal(bytes: nat, count: nat, buf: seq<byte>, more: seq<byte>, off: nat, acc: seq<bool>)
    requires off <= |buf|
    ensures Local(ReadPacked(bytes, count, buf, off, acc), ReadPacked(bytes, count, buf + more, off, acc), off, |buf|)
  {
    if bytes != 0 {
      RawLocal(1, buf, more, off);
      var r := ReadRaw(1, buf, off);
      if r.Ok? {
        var take := if |acc| < count then Min(8, count - |acc|) else 0;
        PackedLocal(bytes - 1, count, buf, more, r.next, acc + ToBits(r.value.data[0], 8)[..take]);
      }
    }
  }

  lemma {:induction false} ReadLocal(s: Schema, buf: seq<byte>, more: seq<byte>, off: nat)
    requires off <= |buf|
    ensures Local(Read(s, buf, off), Read(s, buf + more, off), off, |buf|)
    decreases s, 2, 0
  {
    match s
    case Raw(size) => RawLocal(size, buf, more, off);
    case Bool => RawLocal(1, buf, more, off);
    case Optional(of) =>
      RawLocal(1, buf, more, off);
      var r := ReadRaw(1, buf, off);
      if r.Ok? {
        ReadLocal(of, buf, more, r.next);
      }
    case Vector(of) =>
      NumberLocal(buf, more, off);
      var n := ReadNumber(buf, off);
      if n.Some? {
        ItemsLocal(s, n.value.0, buf, more, n.value.1, []);
      }
    case BitVector =>
      NumberLocal(buf, more, off);
      var n := ReadNumber(buf, off);
      if n.Some? {
        PackedLocal((n.value.0 + 7) % U64 / 8, n.value.0, buf, more, n.value.1, []);
      }
    case Table(key, value) =>
      NumberLocal(buf, more, off);
      var n := ReadNumber(buf, off);
      if n.Some? {
        EntriesLocal(s, n.value.0, buf, more, n.value.1, []);
      }
    case Pair(first, second) =>
      ReadLocal(first, buf, more, off);
      var r := Read(first, buf, off);
      if r.Ok? {
        ReadLocal(second, buf, more, r.next);
      }
  }

  lemma {:induction false} ItemsLocal(s: Schema, count: nat, buf: seq<byte>, more: seq<byte>, off: nat, acc: seq<Value>)
    requires s.Vector? && off <= |buf|
    ensures Local(ReadItems(s, count, buf, off, acc), ReadItems(s, count, buf + more, off, acc), off, |buf|)
    decreases s, 1, count
  {
    if count != 0 {
      ReadLocal(s.of, buf, more, off);
      var r := Read(s.of, buf, off);
      if r.Ok? {
        ItemsLocal(s, count - 1, buf, more, r.next, acc + [r.value]);
      }
    }
  }

  lemma {:induction false} EntriesLocal(s: Schema, count: nat, buf: seq<byte>, more: seq<byte>, off: nat, acc: seq<Entry>)
    requires s.Table? && off <= |buf|
    ensures Local(ReadEntries(s, count, buf, off, acc), ReadEntries(s, count, buf + more, off, acc), off, |buf|)
    decreases s, 1, count
  {
    if count != 0 {
      ReadLocal(s.key, buf, more, off);
      var k := Read(s.key, buf, off);
      if k.Ok? {
        ReadLocal(s.value, buf, more, k.next);
        var v := Read(s.value, buf, k.next);
        if v.Ok? {
          EntriesLocal(s, count - 1, buf, more, v.next, Emplace(acc, k.value, v.value));
        }
      }
    }
  }

  /** A buffer cut anywhere inside the written bytes cannot be read as that schema. */
  lemma TruncatedFails(v: Value, s: Schema, buf: seq<byte>, off: nat, cut: nat)
    requires HasType(v, s) && At(buf, off, Write(v)) && off <= cut < off + |Write(v)|
    ensures Read(s, buf[..cut], off).Fail?
  {
    RoundTrip(v, s, buf, off);
    ReadLocal(s, buf[..cut], buf[cut..], off);
    assert buf[..cut] + buf[cut..] == buf;
  }
}
