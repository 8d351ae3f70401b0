/** move_memory and set_memory (memory_interface.hpp): a byte-by-byte copy whose direction is
    chosen by comparing the two addresses, and a fill in chunks. Addresses wrap at 2^64. */
module MoveMemory {
  import opened Machine
  import opened GuestMemory

  const CHUNK: nat := 0x1000

  /** The address `j` bytes after `a`. */
  function Plus(a: u64, j: int): u64 { (a + j) % U64 }

  /** How far `x` lies after `a`, going round. */
  function Gap(a: u64, x: u64): u64 { (x - a) % U64 }

  lemma GapPlus(a: u64, j: u64)
    ensures Gap(a, Plus(a, j)) == j
  {
  }

  lemma PlusGap(a: u64, x: u64)
    ensures Plus(a, Gap(a, x)) == x
  {
  }

  lemma PlusInjective(a: u64, i: u64, j: u64)
    ensures Plus(a, i) == Plus(a, j) <==> i == j
  {
    GapPlus(a, i);
    GapPlus(a, j);
  }

  lemma PlusPlus(a: u64, i: int, j: int)
    ensures Plus(Plus(a, i), j) == Plus(a, i + j)
  {
  }

  function Put(mem: Memory, a: u64, v: byte): Memory {
    (x: int) => if x == a then v else mem(x)
  }

  /** The offset copied in step `k`. */
  function Offset(size: nat, fromEnd: bool, k: nat): int { if fromEnd then size - 1 - k else k }

  /** Memory after `n` steps of the copy loop. */
  function Copied(mem: Memory, dst: u64, src: u64, size: nat, fromEnd: bool, n: nat): Memory {
    if n == 0 then mem
    else
      var p := Copied(mem, dst, src, size, fromEnd, n - 1);
      var o := Offset(size, fromEnd, n - 1);
      Put(p, Plus(dst, o), p(Plus(src, o)))
  }

  /** memmove: every destination byte is the source byte as it was before; nothing else changes. */
  ghost predicate IsMemmove(before: Memory, after: Memory, dst: u64, src: u64, size: nat) {
    forall x: u64 :: after(x) == if Gap(dst, x) < size then before(Plus(src, Gap(dst, x))) else before(x)
  }

  /** The chosen direction never reads a byte it has already overwritten. */
  predicate SafeDirection(dst: u64, src: u64, size: u64) {
    dst == src || size <= if src < dst then Gap(dst, src) else Gap(src, dst)
  }

  lemma NoWrapIsSafe(dst: u64, src: u64, size: u64)
    requires src + size <= U64 && dst + size <= U64
    ensures SafeDirection(dst, src, size)
  {
  }

  /** Offset `j` has been copied after `n` steps. */
  predicate Passed(size: nat, fromEnd: bool, n: nat, j: nat) {
    if fromEnd then size - n <= j < size else j < n
  }

  lemma {:induction false} SafeCopy(mem: Memory, dst: u64, src: u64, size: u64, fromEnd: bool, n: nat, x: u64)
    requires size <= if fromEnd then Gap(dst, src) else Gap(src, dst)
    requires n <= size
    ensures Copied(mem, dst, src, size, fromEnd, n)(x)
         == if Passed(size, fromEnd, n, Gap(dst, x)) then mem(Plus(src, Gap(dst, x))) else mem(x)
    decreases n
  {
    if n > 0 {
      var o := Offset(size, fromEnd, n - 1);
      SafeCopy(mem, dst, src, size, fromEnd, n - 1, x);
      SafeCopy(mem, dst, src, size, fromEnd, n - 1, Plus(src, o));
      NotYetPassed(dst, src, size, fromEnd, n);
      GapPlus(dst, o);
      PlusGap(dst, x);
    }
  }

  lemma NotYetPassed(dst: u64, src: u64, size: u64, fromEnd: bool, n: nat)
    requires size <= if fromEnd then Gap(dst, src) else Gap(src, dst)
    requires 0 < n <= size
    ensures !Passed(size, fromEnd, n - 1, Gap(dst, Plus(src, Offset(size, fromEnd, n - 1))))
  {
    hide Gap, Plus;
    GapOfPlus(dst, src, Offset(size, fromEnd, n - 1));
    GapBack(dst, src);
  }

  lemma GapOfPlus(a: u64, b: u64, j: u64)
    ensures Gap(a, Plus(b, j)) == if Gap(a, b) + j < U64 then Gap(a, b) + j else Gap(a, b) + j - U64
  {
  }

  lemma GapBack(a: u64, b: u64)
    ensures Gap(a, b) == if a == b then 0 else U64 - Gap(b, a)
  {
  }

  lemma PlusCancel(a: u64, b: u64, j: u64)
    requires Plus(a, j) == Plus(b, j)
    ensures a == b
  {
  }

  /** Memory in which only the first byte to be copied is set. */
  function Marked(a: u64): Memory { (x: int) => if x == a then 1 else 0 }

  /** In an unsafe direction the first byte copied shows up again `gap` steps later. */
  lemma {:induction false} UnsafeCopy(dst: u64, src: u64, size: u64, fromEnd: bool, n: nat)
    requires 0 < (if fromEnd then Gap(dst, src) else Gap(src, dst)) < size && n <= size
    ensures var first := Offset(size, fromEnd, 0);
            var gap := if fromEnd then Gap(dst, src) else Gap(src, dst);
            var m := Copied(Marked(Plus(src, first)), dst, src, size, fromEnd, n);
            && (0 < n ==> m(Plus(dst, first)) == 1)
            && (gap < n ==> m(Plus(dst, Offset(size, fromEnd, gap))) == 1)
    decreases n
  {
    hide Gap, Plus;
    if n > 0 {
      UnsafeCopy(dst, src, size, fromEnd, n - 1);
      Lapped(dst, src, size, fromEnd, n - 1);
    }
  }

  lemma Lapped(dst: u64, src: u64, size: u64, fromEnd: bool, k: nat)
    requires 0 < (if fromEnd then Gap(dst, src) else Gap(src, dst)) < size && k < size
    ensures var first := Offset(size, fromEnd, 0);
            var gap := if fromEnd then Gap(dst, src) else Gap(src, dst);
            var o := Offset(size, fromEnd, k);
            && (Plus(dst, o) == Plus(dst, first) <==> k == 0)
            && (Plus(dst, o) == Plus(dst, Offset(size, fromEnd, gap)) <==> k == gap)
            && Plus(src, Offset(size, fromEnd, gap)) == Plus(dst, first)
  {
    hide Gap, Plus;
    var first := Offset(size, fromEnd, 0);
    var gap := if fromEnd then Gap(dst, src) else Gap(src, dst);
    var o := Offset(size, fromEnd, k);
    PlusInjective(dst, o, first);
    PlusInjective(dst, o, Offset(size, fromEnd, gap));
    if fromEnd {
      PlusGap(dst, src);
      PlusPlus(dst, gap, size - 1 - gap);
    } else {
      PlusGap(src, dst);
      PlusZero(dst);
    }
  }

  lemma PlusZero(a: u64)
    ensures Plus(a, 0) == a
  {
  }

  lemma UnsafeFails(dst: u64, src: u64, size: u64)
    requires !SafeDirection(dst, src, size)
    ensures var fromEnd := src < dst;
            var m := Marked(Plus(src, Offset(size, fromEnd, 0)));
            !IsMemmove(m, Moved(m, dst, src, size), dst, src, size)
  {
    hide Copied, Gap, Plus;
    GapBack(dst, src);
    var fromEnd := src < dst;
    var gap := if fromEnd then Gap(dst, src) else Gap(src, dst);
    var first := Offset(size, fromEnd, 0);
    var o := Offset(size, fromEnd, gap);
    UnsafeCopy(dst, src, size, fromEnd, size);
    Lapped(dst, src, size, fromEnd, gap);
    GapPlus(dst, o);
    if Plus(dst, first) == Plus(src, first) {
      PlusCancel(dst, src, first);
    }
  }

  function Moved(mem: Memory, dst: u64, src: u64, size: u64): Memory {
    if dst == src || size == 0 then mem else Copied(mem, dst, src, size, src < dst, size)
  }

  /** The copy is a memmove on every memory exactly when its direction is safe, which ranges that
      do not wrap always are. */
  lemma MoveIsMemmoveIff(dst: u64, src: u64, size: u64)
    ensures (forall m: Memory :: IsMemmove(m, Moved(m, dst, src, size), dst, src, size)) <==> SafeDirection(dst, src, size)
  {
    hide SafeDirection, IsMemmove, Moved, Plus, Offset, Marked;
    if SafeDirection(dst, src, size) {
      forall m: Memory
        ensures IsMemmove(m, Moved(m, dst, src, size), dst, src, size)
      {
        SafeMove(m, dst, src, size);
      }
    } else {
      UnsafeFails(dst, src, size);
    }
  }

  /** Thirty-two bytes across the top of the address space in either direction: the copy overwrites
      source bytes before it reads them. */
  lemma WrappedMove()
    ensures MoveGoesWrong(0x4, 0xFFFF_FFFF_FFFF_FFF0, 0x20) && MoveGoesWrong(0xFFFF_FFFF_FFFF_FFF0, 0x4, 0x20)
  {
    hide IsMemmove, Moved, Offset, Marked;
    var low: u64, high: u64 := 0x4, 0xFFFF_FFFF_FFFF_FFF0;
    assert !SafeDirection(low, high, 0x20) && !SafeDirection(high, low, 0x20);
    UnsafeFails(low, high, 0x20);
    UnsafeFails(high, low, 0x20);
  }

  ghost predicate MoveGoesWrong(dst: u64, src: u64, size: u64) {
    exists m: Memory :: !IsMemmove(m, Moved(m, dst, src, size), dst, src, size)
  }

  lemma SafeMove(m: Memory, dst: u64, src: u64, size: u64)
    requires SafeDirection(dst, src, size)
    ensures IsMemmove(m, Moved(m, dst, src, size), dst, src, size)
  {
    forall x: u64
      ensures Moved(m, dst, src, size)(x) == if Gap(dst, x) < size then m(Plus(src, Gap(dst, x))) else m(x)
    {
      if dst == src || size == 0 {
        PlusGap(dst, x);
      } else {
        SafeCopy(m, dst, src, size, src < dst, size, x);
      }
    }
  }

  class MemoryInterface {
    var mem: Memory

    method MoveMemory(dst: u64, src: u64, size: u64)
      modifies this
      ensures mem == Moved(old(mem), dst, src, size)
      ensures SafeDirection(dst, src, size) ==> IsMemmove(old(mem), mem, dst, src, size)
    {
      hide SafeDirection, IsMemmove, Gap, Plus;
      if dst == src || size == 0 {
        if SafeDirection(dst, src, size) {
          SafeMove(mem, dst, src, size);
        }
        return;
      }
      var fromEnd := src < dst;
      var increment := if fromEnd then -1 else 1;
      var pSrc := if fromEnd then Plus(src, size - 1) else src;
      var pDst := if fromEnd then Plus(dst, size - 1) else dst;
      PlusZero(src);
      PlusZero(dst);
      for k := 0 to size
        invariant pSrc == Plus(src, Offset(size, fromEnd, k)) && pDst == Plus(dst, Offset(size, fromEnd, k))
        invariant mem == Copied(old(mem), dst, src, size, fromEnd, k)
      {
        var elem := mem(pSrc);
        mem := Put(mem, pDst, elem);
        PlusPlus(src, Offset(size, fromEnd, k), increment);
        PlusPlus(dst, Offset(size, fromEnd, k), increment);
        pSrc := Plus(pSrc, increment);
        pDst := Plus(pDst, increment);
      }
      if SafeDirection(dst, src, size) {
        SafeMove(old(mem), dst, src, size);
      }
    }

    /** Chunk by chunk, the same as filling the whole range at once. */
    method SetMemory(address: u64, value: byte, size: u64)
      requires address + size <= U64
      modifies this
      ensures forall x: int :: mem(x) == if address <= x < address + size then value else old(mem)(x)
    {
      var buffer: seq<byte> := seq(CHUNK, _ => value);
      var at, left := address as int, size as int;
      while left > 0
        invariant 0 <= left <= size && at == address + (size - left)
        invariant forall x: int :: mem(x) == if address <= x < at then value else old(mem)(x)
      {
        var count := Min(CHUNK, left);
        mem := Write(mem, at, buffer[..count]);
        at := at + count;
        left := left - count;
      }
    }
  }
}
