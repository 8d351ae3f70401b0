/** Little-endian integers, and guest memory as a byte for every address. */
module GuestMemory {
  import opened Machine

  function Pow256(n: nat): (r: nat)
    ensures 0 < r
  {
    if n == 0 then 1 else 256 * Pow256(n - 1)
  }

  /** The `n` low bytes of `v`, least significant first. */
  function Le(v: nat, n: nat): (r: seq<byte>)
    ensures |r| == n
  {
    if n == 0 then [] else [v % 256] + Le(v / 256, n - 1)
  }

  function FromLe(s: seq<byte>): nat {
    if s == [] then 0 else s[0] + 256 * FromLe(s[1..])
  }

  lemma {:induction false} FromLeLe(v: nat, n: nat)
    requires v < Pow256(n)
    ensures FromLe(Le(v, n)) == v
  {
    if n > 0 {
      FromLeLe(v / 256, n - 1);
      assert Le(v, n)[1..] == Le(v / 256, n - 1);
    }
  }

  lemma {:induction false} LeFromLe(s: seq<byte>)
    ensures FromLe(s) < Pow256(|s|) && Le(FromLe(s), |s|) == s
  {
    if s != [] {
      LeFromLe(s[1..]);
      var v := FromLe(s);
      assert v % 256 == s[0] && v / 256 == FromLe(s[1..]);
      assert s == [s[0]] + s[1..];
    }
  }

  /** Byte `i` of the encoding is digit `i` to the base 256. */
  lemma {:induction false} LeDigit(v: nat, n: nat, i: nat)
    requires i < n
    ensures Le(v, n)[i] == v / Pow256(i) % 256
  {
    if i > 0 {
      LeDigit(v / 256, n - 1, i - 1);
      DivTwice(v, 256, Pow256(i - 1));
    }
  }

  lemma DivTwice(v: nat, a: nat, b: nat)
    requires 0 < a && 0 < b
    ensures v / a / b == v / (a * b)
  {
    var q := v / a;
    var k := q / b;
    DivBounds(v, a);
    DivBounds(q, b);
    TimesMonotone(a, b * k, q);
    TimesMonotone(a, q + 1, b * k + b);
    Products(a, b, k, q);
    QuotientIs(v, a * b, k);
  }

  lemma DivBounds(v: nat, a: nat)
    requires 0 < a
    ensures a * (v / a) <= v < a * (v / a) + a
  {
  }

  lemma Products(a: nat, b: nat, k: nat, q: nat)
    ensures a * (b * k) == (a * b) * k && a * (b * k + b) == (a * b) * k + a * b
    ensures a * (q + 1) == a * q + a && (0 < a && 0 < b ==> 0 < a * b)
  {
  }

  lemma TimesMonotone(c: nat, x: int, y: int)
    ensures x <= y ==> c * x <= c * y
  {
  }

  lemma QuotientIs(v: nat, c: nat, k: nat)
    requires 0 < c && c * k <= v < c * k + c
    ensures v / c == k
  {
    var q := v / c;
    assert c * q <= v < c * q + c;
    TimesMonotone(c, q + 1, k);
    TimesMonotone(c, k + 1, q);
    assert c * (q + 1) == c * q + c && c * (k + 1) == c * k + c;
  }

  lemma Pow256Word()
    ensures Pow256(8) == U64 && Pow256(4) == U32 && Pow256(2) == 0x1_0000 && Pow256(1) == 256
  {
    assert Pow256(1) == 256;
    assert Pow256(2) == 0x1_0000;
    assert Pow256(3) == 0x100_0000;
    assert Pow256(4) == U32;
    assert Pow256(5) == 0x100_0000_0000;
    assert Pow256(6) == 0x1_0000_0000_0000;
    assert Pow256(7) == 0x100_0000_0000_0000;
  }

  // ----- Bits -----

  function Pow2(n: nat): (r: nat)
    ensures 0 < r
  {
    if n == 0 then 1 else 2 * Pow2(n - 1)
  }

  /** The number whose binary digits, least significant first, are `bits`. */
  function FromBits(bits: seq<bool>): nat {
    if bits == [] then 0 else (if bits[0] then 1 else 0) + 2 * FromBits(bits[1..])
  }

  function ToBits(v: nat, n: nat): (bits: seq<bool>)
    ensures |bits| == n
  {
    if n == 0 then [] else [v % 2 == 1] + ToBits(v / 2, n - 1)
  }

  lemma {:induction false} ToBitsFromBits(bits: seq<bool>)
    ensures FromBits(bits) < Pow2(|bits|) && ToBits(FromBits(bits), |bits|) == bits
  {
    if bits != [] {
      ToBitsFromBits(bits[1..]);
      var v := FromBits(bits);
      assert v / 2 == FromBits(bits[1..]);
      assert bits == [bits[0]] + bits[1..];
    }
  }

  /** Bit `i` of the number is the flag at `i`. */
  lemma {:induction false} FromBitsDigit(bits: seq<bool>, i: nat)
    requires i < |bits|
    ensures FromBits(bits) / Pow2(i) % 2 == 1 <==> bits[i]
  {
    if i > 0 {
      FromBitsDigit(bits[1..], i - 1);
      assert FromBits(bits) / 2 == FromBits(bits[1..]);
      DivTwice(FromBits(bits), 2, Pow2(i - 1));
    }
  }

  lemma {:induction false} Pow2Pow256(n: nat)
    ensures Pow2(8 * n) == Pow256(n)
  {
    if n > 0 {
      Pow2Pow256(n - 1);
      var k := 8 * (n - 1);
      assert Pow2(k + 1) == 2 * Pow2(k) && Pow2(k + 2) == 4 * Pow2(k) && Pow2(k + 3) == 8 * Pow2(k);
      assert Pow2(k + 4) == 16 * Pow2(k) && Pow2(k + 5) == 32 * Pow2(k) && Pow2(k + 6) == 64 * Pow2(k);
      assert Pow2(k + 7) == 128 * Pow2(k) && Pow2(k + 8) == 256 * Pow2(k);
    }
  }

  type Memory = int -> byte

  function Write(mem: Memory, a: int, data: seq<byte>): Memory {
    (x: int) => if a <= x < a + |data| then data[x - a] else mem(x)
  }

  function Read(mem: Memory, a: int, n: nat): (r: seq<byte>)
    ensures |r| == n && forall i :: 0 <= i < n ==> r[i] == mem(a + i)
  {
    seq(n, i requires 0 <= i => mem(a + i))
  }

  /** Equal on the addresses [lo, hi). */
  ghost predicate Agree(m: Memory, n: Memory, lo: int, hi: int) {
    forall x :: lo <= x < hi ==> m(x) == n(x)
  }

  lemma ReadAgree(m: Memory, n: Memory, a: int, k: nat)
    requires Agree(m, n, a, a + k)
    ensures Read(m, a, k) == Read(n, a, k)
  {
  }

  lemma ReadWrite(mem: Memory, a: int, data: seq<byte>, off: nat, n: nat)
    requires off + n <= |data|
    ensures Read(Write(mem, a, data), a + off, n) == data[off..off + n]
  {
  }

  function Word(mem: Memory, a: int): nat { FromLe(Read(mem, a, 8)) }

  /** Consecutive 64-bit words as bytes. */
  function Words(ws: seq<u64>): (r: seq<byte>)
    ensures |r| == 8 * |ws|
  {
    if ws == [] then [] else Words(ws[..|ws| - 1]) + Le(ws[|ws| - 1], 8)
  }

  lemma {:induction false} WordsSlice(ws: seq<u64>, i: nat)
    requires i < |ws|
    ensures Words(ws)[8 * i..8 * i + 8] == Le(ws[i], 8)
  {
    if i < |ws| - 1 {
      WordsSlice(ws[..|ws| - 1], i);
    }
  }

  /** A word written as part of a run of words reads back. */
  lemma WordWritten(mem: Memory, a: int, ws: seq<u64>, i: nat)
    requires i < |ws|
    ensures Word(Write(mem, a, Words(ws)), a + 8 * i) == ws[i]
  {
    hide Words, Le, FromLe, Write;
    WordsSlice(ws, i);
    BlockRead(mem, a, Words(ws), i);
    LeWord(ws[i]);
  }

  lemma BlockRead(mem: Memory, a: int, data: seq<byte>, i: nat)
    requires 8 * i + 8 <= |data|
    ensures Word(Write(mem, a, data), a + 8 * i) == FromLe(data[8 * i..8 * i + 8])
  {
    hide FromLe, Write;
    ReadWrite(mem, a, data, 8 * i, 8);
  }

  lemma LeWord(v: u64)
    ensures FromLe(Le(v, 8)) == v
  {
    Pow256Word();
    FromLeLe(v, 8);
  }

  lemma WordBound(mem: Memory, a: int)
    ensures Word(mem, a) < U64
  {
    LeFromLe(Read(mem, a, 8));
    Pow256Word();
  }

  lemma WordAgree(m: Memory, n: Memory, a: int)
    requires Agree(m, n, a, a + 8)
    ensures Word(m, a) == Word(n, a)
  {
    ReadAgree(m, n, a, 8);
  }
}
