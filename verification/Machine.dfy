/** Machine words, bytes and the address arithmetic of address_utils.hpp.

    A 64-bit unsigned quantity is an `int` in [0, U64); wrap-around is written out
    wherever the source can reach it. */
module Machine {

  const U64: int := 0x1_0000_0000_0000_0000
  const U32: int := 0x1_0000_0000
  const PAGE: int := 0x1000

  type u64 = x: int | 0 <= x < 0x1_0000_0000_0000_0000
  type byte = x: int | 0 <= x < 256

  datatype Option<+T> = None | Some(value: T)

  function Max(a: int, b: int): int { if a < b then b else a }

  function Min(a: int, b: int): int { if a < b then a else b }

  function Add64(a: u64, b: u64): u64 { (a + b) % U64 }

  lemma Add64Exact(a: u64, b: u64)
    requires a + b < U64
    ensures Add64(a, b) == a + b
  {
  }

  /** `value & ~(alignment - 1)` for a power-of-two alignment. */
  function AlignDown(value: u64, alignment: u64): u64
    requires 0 < alignment
  {
    value - value % alignment
  }

  /** `align_down(value + (alignment - 1), alignment)`, with the sum wrapping. */
  function AlignUp(value: u64, alignment: u64): u64
    requires 0 < alignment
  {
    AlignDown(Add64(value, alignment - 1), alignment)
  }

  lemma AlignedMultiple(value: u64, alignment: u64)
    requires 0 < alignment
    ensures AlignDown(value, alignment) % alignment == 0 && AlignUp(value, alignment) % alignment == 0
  {
    hide Add64;
    MultipleOf(value, alignment);
    MultipleOf(Add64(value, alignment - 1), alignment);
  }

  /** Short of the wrap, `AlignUp` is the least multiple of the alignment at or above the value. */
  lemma AlignUpLeast(value: u64, alignment: u64)
    requires 0 < alignment && value + alignment <= U64
    ensures AlignUp(value, alignment) % alignment == 0
    ensures value <= AlignUp(value, alignment) < value + alignment
    ensures forall c: int :: value <= c && c % alignment == 0 ==> AlignUp(value, alignment) <= c
  {
    var t := value + alignment - 1;
    assert Add64(value, alignment - 1) == t;
    var r := t - t % alignment;
    MultipleOf(t, alignment);
    forall c: int | value <= c && c % alignment == 0
      ensures r <= c
    {
      if c < r {
        MultiplesApart(c, r, alignment);
      }
    }
  }

  lemma AlignedStays(value: u64)
    requires value % PAGE == 0
    ensures AlignUp(value, PAGE) == value
  {
  }

  lemma MultipleOf(t: int, k: int)
    requires 0 < k
    ensures (t - t % k) % k == 0
  {
    var q := t / k;
    assert t - t % k == q * k;
    MulMod(q, k);
  }

  lemma MulMod(q: int, k: int)
    requires 0 < k
    ensures (q * k) % k == 0
  {
    var r := (q * k) % k;
    var d := (q * k) / k;
    assert q * k == d * k + r;
    assert (q - d) * k == r;
    assert q - d >= 1 ==> (q - d) * k >= k;
    assert q - d <= -1 ==> (q - d) * k <= -k;
  }

  /** Distinct multiples of k are at least k apart. */
  lemma MultiplesApart(c: int, r: int, k: int)
    requires 0 < k && c % k == 0 && r % k == 0 && c < r
    ensures c + k <= r
  {
    var x, y := c / k, r / k;
    assert c == k * x && r == k * y;
    Distribute(k, x, y);
    MonotoneProduct(k, y - x);
  }

  lemma Distribute(k: int, x: int, y: int)
    ensures k * (y - x) == k * y - k * x
  {
  }

  lemma MonotoneProduct(k: int, d: int)
    requires 0 < k && 0 < k * d
    ensures k <= k * d
  {
    assert d <= 0 ==> k * d <= 0;
    assert k * d == k + k * (d - 1);
    assert d >= 1 ==> k * (d - 1) >= 0;
  }

  // ----- Bytes in a buffer -----

  /** The bytes `data` stand in `buf` at `off`. */
  ghost predicate At(buf: seq<byte>, off: nat, data: seq<byte>) {
    off + |data| <= |buf| && buf[off..off + |data|] == data
  }

  lemma AtSplit(buf: seq<byte>, off: nat, a: seq<byte>, b: seq<byte>)
    requires At(buf, off, a + b)
    ensures At(buf, off, a) && At(buf, off + |a|, b)
  {
    var w := buf[off..off + |a + b|];
    assert w[..|a|] == a && w[|a|..] == b;
    assert buf[off..off + |a|] == w[..|a|];
    assert buf[off + |a|..off + |a| + |b|] == w[|a|..];
  }

  lemma SliceOfSlice(s: seq<byte>, a: nat, b: nat, c: nat, d: nat)
    requires a <= b <= |s| && c <= d <= b - a
    ensures s[a..b][c..d] == s[a + c..a + d]
  {
    var x, y := s[a..b][c..d], s[a + c..a + d];
    forall i | 0 <= i < |x|
      ensures x[i] == y[i]
    {
      assert x[i] == s[a..b][c + i] == s[a + (c + i)];
    }
  }
}
