/** The bump allocator behind the rebuilt import section: bytes are only ever appended, after zero
    padding to the asked alignment. */
module SectionPayload {
  import opened Machine
  import W = Writes
  import M = GuestMemory

  predicate IsPowerOfTwo(a: nat) { a == 1 || (a != 0 && a % 2 == 0 && IsPowerOfTwo(a / 2)) }

  /** Halving down to one is being a power of two. */
  lemma {:induction false} PowerIff(a: nat)
    ensures IsPowerOfTwo(a) <==> exists k: nat :: a == M.Pow2(k)
  {
    if a == 1 {
      assert M.Pow2(0) == 1;
    } else if a > 1 {
      PowerIff(a / 2);
      if IsPowerOfTwo(a) {
        var k: nat :| a / 2 == M.Pow2(k);
        assert M.Pow2(k + 1) == a;
      }
      if k: nat :| a == M.Pow2(k) {
        assert a / 2 == M.Pow2(k - 1) && a % 2 == 0;
      }
    }
  }

  /** `(value + a - 1) & -a` for a power of two. */
  function AlignTo(value: nat, a: nat): (r: nat)
    requires 0 < a
    ensures value <= r < value + a
  {
    value + a - 1 - (value + a - 1) % a
  }

  lemma AlignToMultiple(value: nat, a: nat)
    requires 0 < a
    ensures AlignTo(value, a) % a == 0
  {
    MultipleOf(value + a - 1, a);
  }

  /** No multiple lies between a value and its alignment. */
  lemma AlignToLeast(value: nat, a: nat, c: nat)
    requires 0 < a && value <= c && c % a == 0
    ensures AlignTo(value, a) <= c
  {
    AlignToMultiple(value, a);
    if c < AlignTo(value, a) {
      MultiplesApart(c, AlignTo(value, a), a);
    }
  }

  function Zeros(n: nat): (r: seq<byte>)
    ensures |r| == n && forall i :: 0 <= i < n ==> r[i] == 0
  {
    seq(n, i => 0)
  }

  lemma AtGrows(s: seq<byte>, t: seq<byte>, off: nat, data: seq<byte>)
    requires At(s, off, data) && s <= t
    ensures At(t, off, data)
  {
    assert t[off..off + |data|] == s[off..off + |data|];
  }

  class Payload {
    const rva: nat
    var bytes: seq<byte>

    constructor (rva: nat, size: nat)
      ensures this.rva == rva && bytes == Zeros(size)
    {
      this.rva := rva;
      bytes := Zeros(size);
    }

    /** What was there stays, and the new data stands at the returned address. */
    method Append(data: seq<byte>, alignment: nat) returns (at: nat)
      requires 0 < alignment
      modifies this
      ensures at == rva + AlignTo(|old(bytes)|, alignment)
      ensures old(bytes) <= bytes && |bytes| == at - rva + |data| && At(bytes, at - rva, data)
      ensures forall x :: |old(bytes)| <= x < at - rva ==> bytes[x] == 0
    {
      bytes := bytes + Zeros(AlignTo(|bytes|, alignment) - |bytes|);
      var offset := |bytes|;
      bytes := bytes + data;
      at := rva + offset;
      assert bytes[offset..offset + |data|] == data;
    }

    /** pack_into: overwrite bytes that are already there. */
    method PackInto(at: nat, data: seq<byte>)
      requires at + |data| <= |bytes|
      modifies this
      ensures bytes == W.Put(old(bytes), at, data)
    {
      bytes := W.Put(bytes, at, data);
    }
  }
}
