/** buffer_serializer and buffer_deserializer as they are written: a buffer that is appended to,
    an offset that advances, and loops over elements and bits. */
module SerializerBuffers {
  import opened Machine
  import opened GuestMemory
  import opened Serializer

  class BufferSerializer {
    var buffer: seq<byte>

    constructor ()
      ensures buffer == []
    {
      buffer := [];
    }

    method WriteData(data: seq<byte>)
      modifies this
      ensures buffer == old(buffer) + WriteRaw(data)
      ensures buffer == old(buffer) + [|data| % 256] + data
    {
      buffer := buffer + [|data| % 256];
      buffer := buffer + data;
    }

    /** Bits gather in a byte that is written when it is full, and once more at the end. */
    method WriteVectorBool(bits: seq<bool>)
      modifies this
      ensures buffer == old(buffer) + (WriteNumber(|bits| % U64) + WritePacked(bits))
    {
      hide WriteRaw, FromBits, PackByte, Pow2, WritePacked;
      WriteData(Le(|bits| % U64, 8));
      ghost var head := buffer;
      var packed, bitIndex := 0, 0;
      ghost var from := 0;
      PackingStarts(bits);
      for i := 0 to |bits|
        invariant 0 <= from <= i && bitIndex == i - from < 8
        invariant packed == FromBits(bits[from..i])
        invariant buffer + WritePacked(bits[from..]) == head + WritePacked(bits)
      {
        AppendBit(bits[from..i], bits[i]);
        assert bits[from..i + 1] == bits[from..i] + [bits[i]];
        if bits[i] {
          packed := packed + Pow2(bitIndex);
        }
        bitIndex := bitIndex + 1;
        if bitIndex == 8 {
          FullByte(bits, from);
          ghost var before := buffer;
          WriteData([packed]);
          assert before + (WriteRaw([packed]) + WritePacked(bits[from + 8..])) == buffer + WritePacked(bits[from + 8..]);
          packed, bitIndex := 0, 0;
          from := i + 1;
          PackingStarts(bits[from..]);
          assert bits[from..i + 1] == bits[from..][0..0];
        }
      }
      if bitIndex != 0 {
        LastByte(bits, from);
        WriteData([packed]);
      } else {
        PackingEnds(bits[from..]);
      }
      assert head + WritePacked(bits) == old(buffer) + (WriteNumber(|bits| % U64) + WritePacked(bits));
    }

    method WriteSpan(items: seq<Value>)
      modifies this
      ensures buffer == old(buffer) + (WriteNumber(|items| % U64) + WriteItems(items))
      decreases items, 1
    {
      hide Serializer.Write, WriteRaw;
      WriteData(Le(|items| % U64, 8));
      ghost var head := buffer;
      for i := 0 to |items|
        invariant buffer + WriteItems(items[i..]) == head + WriteItems(items)
      {
        assert items[i..][1..] == items[i + 1..];
        ghost var before := buffer;
        WriteValue(items[i]);
        assert before + (Serializer.Write(items[i]) + WriteItems(items[i + 1..])) == buffer + WriteItems(items[i + 1..]);
      }
      assert head + WriteItems(items) == old(buffer) + (WriteNumber(|items| % U64) + WriteItems(items));
    }

    method WriteMap(entries: seq<Entry>)
      modifies this
      ensures buffer == old(buffer) + (WriteNumber(|entries| % U64) + WriteEntries(entries))
      decreases entries, 1
    {
      hide WriteEntry, WriteRaw;
      WriteData(Le(|entries| % U64, 8));
      ghost var head := buffer;
      for i := 0 to |entries|
        invariant buffer + WriteEntries(entries[i..]) == head + WriteEntries(entries)
      {
        assert entries[i..][1..] == entries[i + 1..];
        ghost var before := buffer;
        WriteKeyAndValue(entries[i]);
        assert before + (WriteEntry(entries[i]) + WriteEntries(entries[i + 1..])) == buffer + WriteEntries(entries[i + 1..]);
      }
      assert head + WriteEntries(entries) == old(buffer) + (WriteNumber(|entries| % U64) + WriteEntries(entries));
    }

    method WriteValue(v: Value)
      modifies this
      ensures buffer == old(buffer) + Serializer.Write(v)
      decreases v, 2
    {
      hide WriteItems, WriteEntries, WritePacked, WriteRaw;
      match v
      case Bytes(data) => WriteData(data);
      case Flag(on) => WriteData([if on then 1 else 0]);
      case Absent => WriteData([0]);
      case Present(value) =>
        WriteData([1]);
        WriteValue(value);
      case List(items) => WriteSpan(items);
      case Bits(bits) => WriteVectorBool(bits);
      case Entries(entries) => WriteMap(entries);
      case Both(first, second) =>
        WriteValue(first);
        WriteValue(second);
    }

    method WriteKeyAndValue(e: Entry)
      modifies this
      ensures buffer == old(buffer) + WriteEntry(e)
      decreases e, 1
    {
      WriteValue(e.key);
      WriteValue(e.value);
    }
  }

  lemma {:induction false} AppendBit(bits: seq<bool>, b: bool)
    ensures FromBits(bits + [b]) == FromBits(bits) + if b then Pow2(|bits|) else 0
    ensures Pow2(|bits| + 1) == 2 * Pow2(|bits|)
  {
    if bits == [] {
      assert bits + [b] == [b];
    } else {
      AppendBit(bits[1..], b);
      assert (bits + [b])[1..] == bits[1..] + [b];
    }
  }

  lemma PackingStarts(bits: seq<bool>)
    ensures FromBits(bits[0..0]) == 0 && bits[0..] == bits
  {
  }

  lemma PackingEnds(bits: seq<bool>)
    requires bits == []
    ensures WritePacked(bits) == []
  {
  }

  lemma FullByte(bits: seq<bool>, from: nat)
    requires from + 8 <= |bits|
    ensures FromBits(bits[from..from + 8]) < 256
    ensures WritePacked(bits[from..]) == WriteRaw([FromBits(bits[from..from + 8])]) + WritePacked(bits[from + 8..])
  {
    var rest := bits[from..];
    assert PackByte(rest[..8]) == FromBits(rest[..8]);
    assert rest[..8] == bits[from..from + 8] && rest[8..] == bits[from + 8..];
  }

  lemma LastByte(bits: seq<bool>, from: nat)
    requires from < |bits| < from + 8
    ensures FromBits(bits[from..]) < 256 && bits[from..] == bits[from..|bits|]
    ensures WritePacked(bits[from..]) == WriteRaw([FromBits(bits[from..])])
  {
    var rest := bits[from..];
    assert rest[..|rest|] == rest && rest[|rest|..] == [];
    var b := PackByte(rest);
    assert WriteRaw([b]) + [] == WriteRaw([b]);
  }

  /** Reads advance the offset; `None` is the exception. */
  class BufferDeserializer {
    const buffer: seq<byte>
    var offset: nat

    constructor (buffer: seq<byte>)
      ensures this.buffer == buffer && offset == 0
    {
      this.buffer := buffer;
      offset := 0;
    }

    method ReadData(length: nat) returns (r: Option<seq<byte>>)
      modifies this
      ensures var e := ReadRaw(length, buffer, old(offset));
              if e.Fail? then r.None? && offset == old(offset) else r == Some(e.value.data) && offset == e.next
      ensures if old(offset) + 1 + length <= |buffer| && buffer[old(offset)] == length % 256
              then r == Some(buffer[old(offset) + 1..old(offset) + 1 + length]) && offset == old(offset) + 1 + length
              else r.None? && offset == old(offset)
    {
      if offset + (length + 1) > |buffer| {
        return None;
      }
      if buffer[offset] != length % 256 {
        return None;
      }
      offset := offset + 1;
      r := Some(buffer[offset..offset + length]);
      offset := offset + length;
    }

    method ReadSize() returns (r: Option<u64>)
      modifies this
      ensures var e := ReadNumber(buffer, old(offset));
              if e.None? then r.None? else r == Some(e.value.0) && offset == e.value.1
    {
      var d := ReadData(8);
      if d.None? {
        return None;
      }
      LeFromLe(d.value);
      Pow256Word();
      return Some(FromLe(d.value));
    }

    method ReadVectorBool() returns (r: Option<Value>)
      modifies this
      ensures Agrees(r, offset, Serializer.Read(BitVector, buffer, old(offset)))
    {
      var n := ReadSize();
      if n.None? {
        return None;
      }
      var count := n.value;
      var size := (count + 7) % U64 / 8;
      var result: seq<bool> := [];
      ghost var start := offset;
      for i := 0 to size
        invariant |result| <= count
        invariant ReadPacked(size - i, count, buffer, offset, result) == ReadPacked(size, count, buffer, start, [])
      {
        var d := ReadData(1);
        if d.None? {
          return None;
        }
        var bits := ToBits(d.value[0], 8);
        ghost var before := result;
        var bit := 0;
        while bit < 8 && |result| < count
          invariant 0 <= bit <= 8 && |result| <= count && result == before + bits[..bit]
        {
          result := result + [bits[bit]];
          bit := bit + 1;
        }
        assert bit == if |before| < count then Min(8, count - |before|) else 0;
      }
      return Some(Bits(result));
    }

    method ReadValue(s: Schema) returns (r: Option<Value>)
      modifies this
      ensures Agrees(r, offset, Serializer.Read(s, buffer, old(offset)))
      decreases s, 1
    {
      match s
      case Raw(size) =>
        var d := ReadData(size);
        if d.None? {
          return None;
        }
        return Some(Bytes(d.value));
      case Bool =>
        var d := ReadData(1);
        if d.None? {
          return None;
        }
        return Some(Flag(d.value[0] != 0));
      case Optional(of) =>
        var d := ReadData(1);
        if d.None? {
          return None;
        }
        if d.value[0] == 0 {
          return Some(Absent);
        }
        var v := ReadValue(of);
        if v.None? {
          return None;
        }
        return Some(Present(v.value));
      case Vector(_) => r := ReadVector(s);
      case BitVector => r := ReadVectorBool();
      case Table(_, _) => r := ReadMap(s);
      case Pair(first, second) =>
        var a := ReadValue(first);
        if a.None? {
          return None;
        }
        var b := ReadValue(second);
        if b.None? {
          return None;
        }
        return Some(Both(a.value, b.value));
    }

    method ReadVector(s: Schema) returns (r: Option<Value>)
      requires s.Vector?
      modifies this
      ensures Agrees(r, offset, Serializer.Read(s, buffer, old(offset)))
      decreases s, 0
    {
      var n := ReadSize();
      if n.None? {
        return None;
      }
      var result: seq<Value> := [];
      ghost var start := offset;
      for i := 0 to n.value
        invariant ReadItems(s, n.value - i, buffer, offset, result) == ReadItems(s, n.value, buffer, start, [])
      {
        var v := ReadValue(s.of);
        if v.None? {
          return None;
        }
        result := result + [v.value];
      }
      return Some(List(result));
    }

    method ReadMap(s: Schema) returns (r: Option<Value>)
      requires s.Table?
      modifies this
      ensures Agrees(r, offset, Serializer.Read(s, buffer, old(offset)))
      decreases s, 0, 1
    {
      hide ReadEntries, ReadNumber;
      var n := ReadSize();
      if n.None? {
        return None;
      }
      r := ReadMapEntries(s, n.value);
    }

    method ReadMapEntries(s: Schema, count: nat) returns (r: Option<Value>)
      requires s.Table?
      modifies this
      ensures Agrees(r, offset, ReadEntries(s, count, buffer, old(offset), []))
      decreases s, 0, 0
    {
      hide ReadEntries, Emplace, Serializer.Read;
      var result: seq<Entry> := [];
      ghost var start := offset;
      for i := 0 to count
        invariant ReadEntries(s, count - i, buffer, offset, result) == ReadEntries(s, count, buffer, start, [])
      {
        EntriesTurn(s, count - i, buffer, offset, result);
        var k := ReadValue(s.key);
        if k.None? {
          return None;
        }
        var v := ReadValue(s.value);
        if v.None? {
          return None;
        }
        result := Emplace(result, k.value, v.value);
      }
      EntriesDone(s, buffer, offset, result);
      return Some(Entries(result));
    }
  }

  lemma EntriesTurn(s: Schema, count: nat, buf: seq<byte>, off: nat, acc: seq<Entry>)
    requires s.Table? && 0 < count
    ensures var k := Serializer.Read(s.key, buf, off);
            if k.Fail? then ReadEntries(s, count, buf, off, acc).Fail?
            else
              var v := Serializer.Read(s.value, buf, k.next);
              if v.Fail? then ReadEntries(s, count, buf, off, acc).Fail?
              else ReadEntries(s, count, buf, off, acc) == ReadEntries(s, count - 1, buf, v.next, Emplace(acc, k.value, v.value))
  {
    hide Serializer.Read, Emplace;
  }

  lemma EntriesDone(s: Schema, buf: seq<byte>, off: nat, acc: seq<Entry>)
    requires s.Table?
    ensures ReadEntries(s, 0, buf, off, acc) == Ok(Entries(acc), off)
  {
  }

  /** A method's outcome and new offset match the reading function. */
  ghost predicate Agrees(r: Option<Value>, offset: nat, e: Result) {
    if e.Fail? then r.None? else r == Some(e.value) && offset == e.next
  }
}
