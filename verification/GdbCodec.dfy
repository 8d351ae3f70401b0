/** The byte codec of the GDB stub: binary escapes, run-length compression, checksums and frames. */
module GdbCodec {
  import opened Machine

  type Bytes = seq<byte>

  const DOLLAR: byte := 36
  const HASH: byte := 35
  const BRACE: byte := 125
  const STAR: byte := 42

  // ----- Escape -----

  predicate Special(b: byte) { b == DOLLAR || b == HASH || b == BRACE || b == STAR }

  /** `b ^ 0x20`. */
  function Flip(b: byte): byte { if b / 32 % 2 == 1 then b - 32 else b + 32 }

  function EscapeByte(b: byte): Bytes { if Special(b) then [BRACE, Flip(b)] else [b] }

  /** The escape of a whole string, with no limit. */
  function Escaped(data: Bytes): Bytes {
    if data == [] then [] else Escaped(data[..|data| - 1]) + EscapeByte(data[|data| - 1])
  }

  /** The length of the longest prefix whose escape fits in `max` bytes. */
  function Copied(data: Bytes, max: nat): (n: nat)
    ensures n <= |data|
  {
    if data == [] then 0
    else
      var n := Copied(data[..|data| - 1], max);
      if n == |data| - 1 && |Escaped(data)| <= max then |data| else n
  }

  lemma {:induction false} EscapedMonotone(data: Bytes, n: nat)
    requires n <= |data|
    ensures |Escaped(data[..n])| + (|data| - n) <= |Escaped(data)|
  {
    if n < |data| {
      EscapedMonotone(data[..|data| - 1], n);
      assert data[..|data| - 1][..n] == data[..n];
    } else {
      assert data[..n] == data;
    }
  }

  /** `Copied` is the longest fitting prefix: it fits, and every longer prefix does not. */
  lemma {:induction false} CopiedIsLongest(data: Bytes, max: nat)
    ensures |Escaped(data[..Copied(data, max)])| <= max
    ensures forall n: nat :: Copied(data, max) < n <= |data| ==> max < |Escaped(data[..n])|
  {
    if data == [] {
      assert data[..0] == [];
    } else {
      var front := data[..|data| - 1];
      CopiedIsLongest(front, max);
      var k := Copied(front, max);
      assert data[..|data|] == data && data[..k] == front[..k];
      forall n: nat | Copied(data, max) < n <= |data|
        ensures max < |Escaped(data[..n])|
      {
        BeyondFront(data, front, max, k, n);
      }
    }
  }

  lemma BeyondFront(data: Bytes, front: Bytes, max: nat, k: nat, n: nat)
    requires 0 < |data| && front == data[..|data| - 1] && k < n <= |data| && (k == |front| ==> max < |Escaped(data)|)
    requires forall m: nat :: k < m <= |front| ==> max < |Escaped(front[..m])|
    ensures max < |Escaped(data[..n])|
  {
    hide Escaped;
    assert data[..|data|] == data && front[..|front|] == front;
    assert n < |data| ==> front[..n] == data[..n];
    EscapedMonotone(data, |front|);
  }

  /** The source's loop, spending its budget byte by byte. */
  method Escape(data: Bytes, maxSize: nat) returns (result: Bytes, count: nat)
    ensures count == Copied(data, maxSize) && result == Escaped(data[..count])
  {
    result, count := [], 0;
    var budget := maxSize;
    assert data[..0] == [];
    while count < |data|
      invariant count <= |data| && result == Escaped(data[..count])
      invariant 0 <= budget && budget + |result| == maxSize
    {
      var ch := data[count];
      assert data[..count + 1][..count] == data[..count];
      assert Escaped(data[..count + 1]) == Escaped(data[..count]) + EscapeByte(ch);
      if Special(ch) {
        if budget < 2 {
          assert maxSize < |Escaped(data[..count + 1])|;
          break;
        }
        budget := budget - 1;
        result := result + [BRACE];
        ch := Flip(ch);
      }
      if budget == 0 {
        assert maxSize < |Escaped(data[..count + 1])|;
        break;
      }
      budget := budget - 1;
      result := result + [ch];
      count := count + 1;
    }
    LongestIsCopied(data, maxSize, count);
  }

  lemma LongestIsCopied(data: Bytes, max: nat, n: nat)
    requires n <= |data| && |Escaped(data[..n])| <= max
    requires n < |data| ==> max < |Escaped(data[..n + 1])|
    ensures n == Copied(data, max)
  {
    CopiedIsLongest(data, max);
    var c := Copied(data, max);
    if n < c {
      PrefixesGrow(data, n + 1, c);
    }
  }

  lemma PrefixesGrow(data: Bytes, a: nat, b: nat)
    requires a <= b <= |data|
    ensures |Escaped(data[..a])| <= |Escaped(data[..b])|
  {
    EscapedMonotone(data[..b], a);
    assert data[..b][..a] == data[..a];
  }

  /** What unescape makes of `data`; `xorNext` holds when a '}' is pending. It is an error for one
      to be pending at the end. */
  function UnescapeFrom(data: Bytes, xorNext: bool): Option<Bytes> {
    if data == [] then if xorNext then None else Some([])
    else if xorNext then Prefixed([Flip(data[0])], UnescapeFrom(data[1..], false))
    else if data[0] == BRACE then UnescapeFrom(data[1..], true)
    else Prefixed([data[0]], UnescapeFrom(data[1..], false))
  }

  method Unescape(data: Bytes) returns (r: Option<Bytes>)
    ensures r == UnescapeFrom(data, false)
  {
    var result: Bytes := [];
    var xorNext := false;
    assert data[0..] == data;
    PrefixedEmpty(UnescapeFrom(data, false));
    for i := 0 to |data|
      invariant Prefixed(result, UnescapeFrom(data[i..], xorNext)) == UnescapeFrom(data, false)
    {
      var value := data[i];
      assert data[i..][1..] == data[i + 1..];
      if xorNext {
        value := Flip(value);
        xorNext := false;
      } else if value == BRACE {
        xorNext := true;
        continue;
      }
      PrefixedTwice(result, [value], UnescapeFrom(data[i + 1..], false));
      result := result + [value];
    }
    if xorNext {
      return None;
    }
    assert result + [] == result;
    return Some(result);
  }

  lemma FlipTwice(b: byte)
    ensures Flip(Flip(b)) == b
  {
  }

  lemma {:induction false} UnescapeAppend(data: Bytes, rest: Bytes)
    ensures UnescapeFrom(Escaped(data) + rest, false) == Prefixed(data, UnescapeFrom(rest, false))
  {
    if data == [] {
      assert Escaped(data) + rest == rest;
      PrefixedEmpty(UnescapeFrom(rest, false));
    } else {
      var n := |data| - 1;
      var b := data[n];
      var more := EscapeByte(b) + rest;
      assert Escaped(data) + rest == Escaped(data[..n]) + more;
      UnescapeAppend(data[..n], more);
      UnescapeByte(b, rest);
      assert data == data[..n] + [b];
      PrefixedTwice(data[..n], [b], UnescapeFrom(rest, false));
    }
  }

  lemma UnescapeByte(b: byte, rest: Bytes)
    ensures UnescapeFrom(EscapeByte(b) + rest, false) == Prefixed([b], UnescapeFrom(rest, false))
  {
    var more := EscapeByte(b) + rest;
    FlipTwice(b);
    if Special(b) {
      assert more[1..] == [Flip(b)] + rest && more[1..][1..] == rest;
    } else {
      assert more[1..] == rest;
    }
  }

  /** Unescaping undoes escaping. */
  lemma UnescapeEscaped(data: Bytes)
    ensures UnescapeFrom(Escaped(data), false) == Some(data)
  {
    UnescapeAppend(data, []);
    assert Escaped(data) + [] == Escaped(data) && data + [] == data;
  }

  /** Escaped data holds none of the three bytes with a meaning in the frame. */
  lemma {:induction false} EscapedIsClean(data: Bytes)
    ensures DOLLAR !in Escaped(data) && HASH !in Escaped(data) && STAR !in Escaped(data)
  {
    if data != [] {
      EscapedIsClean(data[..|data| - 1]);
    }
  }

  /** Byte by byte: the four special bytes become '}' and the byte with bit 5 flipped, every other
      byte stays. */
  lemma EscapeForms(a: Bytes, b: Bytes, c: byte)
    ensures Escaped([]) == [] && Escaped(a + b) == Escaped(a) + Escaped(b)
    ensures Escaped([c]) == if c == 36 then [125, 4] else if c == 35 then [125, 3] else if c == 125 then [125, 93]
                            else if c == 42 then [125, 10] else [c]
  {
    assert [c][..0] == [];
    EscapedConcat(a, b);
  }

  lemma {:induction false} EscapedConcat(a: Bytes, b: Bytes)
    ensures Escaped(a + b) == Escaped(a) + Escaped(b)
    decreases |b|
  {
    hide EscapeByte;
    if b == [] {
      assert a + b == a;
    } else {
      var n := |b| - 1;
      EscapedConcat(a, b[..n]);
      assert (a + b)[..|a| + n] == a + b[..n] && (a + b)[|a| + n] == b[n];
    }
  }

  /** '}' is dropped and the byte after it read with bit 5 flipped; other bytes stand for themselves. */
  lemma UnescapeForms(c: byte, x: byte, rest: Bytes)
    requires x != c && x % 32 == c % 32 && x / 64 == c / 64
    ensures UnescapeFrom([], false) == Some([]) && UnescapeFrom([125], false) == None
    ensures c != 125 ==> UnescapeFrom([c] + rest, false) == Prefixed([c], UnescapeFrom(rest, false))
    ensures UnescapeFrom([125, c] + rest, false) == Prefixed([x], UnescapeFrom(rest, false))
  {
    assert ([c] + rest)[1..] == rest && [125][1..] == [];
    assert ([125, c] + rest)[1..] == [c] + rest;
    assert UnescapeFrom([c] + rest, true) == Prefixed([Flip(c)], UnescapeFrom(rest, false));
    assert Flip(c) == x;
  }

  // ----- Run-length compression -----

  /** What the source emits for `count` repeats after the first copy of `symbol`. */
  function RunCode(symbol: byte, count: nat): Bytes
    requires count <= 97
  {
    if count >= 3 then
      if count == 6 || count == 7 then
        [STAR, 34, symbol] + if count == 7 then [symbol] else []
      else
        [STAR, count + 29]
    else if count >= 1 then
      [symbol] + if count == 2 then [symbol] else []
    else []
  }

  /** What is still to be emitted when `data` is left and `prev` has been repeated `count` times. */
  function CompressFrom(start: bool, prev: byte, count: nat, data: Bytes): Bytes
    requires count <= 97
    decreases |data|
  {
    if data == [] then RunCode(prev, count)
    else if start || prev != data[0] || count == 97 then
      RunCode(prev, count) + [data[0]] + CompressFrom(false, data[0], 0, data[1..])
    else
      CompressFrom(false, prev, count + 1, data[1..])
  }

  function Compressed(data: Bytes): Bytes { CompressFrom(true, 0, 0, data) }

  method Compress(data: Bytes) returns (result: Bytes)
    ensures result == Compressed(data)
  {
    result := [];
    var start, prev, counter := true, 0, 0;
    assert data[0..] == data;
    for i := 0 to |data|
      invariant counter <= 97
      invariant result + CompressFrom(start, prev, counter, data[i..]) == Compressed(data)
    {
      var ch := data[i];
      assert data[i..][1..] == data[i + 1..];
      if start || prev != ch || counter == 97 {
        result := result + RunCode(prev, counter);
        result := result + [ch];
        prev, counter, start := ch, 0, false;
      } else {
        counter := counter + 1;
      }
    }
    if counter != 0 {
      result := result + RunCode(prev, counter);
    }
  }

  function Repeat(b: byte, n: nat): (r: Bytes)
    ensures |r| == n && forall i :: 0 <= i < n ==> r[i] == b
  {
    if n == 0 then [] else [b] + Repeat(b, n - 1)
  }

  /** The receiver's side (Appendix E.1, "Overview", of the GDB manual): '*' and a printable count
      character repeat the last byte. `last` is the byte most recently produced. */
  function ExpandFrom(last: Option<byte>, data: Bytes): Option<Bytes>
    decreases |data|
  {
    if data == [] then Some([])
    else if data[0] == STAR then
      if last.None? || |data| < 2 || data[1] < 32 || 126 < data[1] then None
      else
        match ExpandFrom(last, data[2..])
        case Some(rest) => Some(Repeat(last.value, data[1] - 29) + rest)
        case None => None
    else
      match ExpandFrom(Some(data[0]), data[1..])
      case Some(rest) => Some([data[0]] + rest)
      case None => None
  }

  function Expand(data: Bytes): Option<Bytes> { ExpandFrom(None, data) }

  function Prefixed(a: Bytes, r: Option<Bytes>): Option<Bytes> {
    if r.Some? then Some(a + r.value) else None
  }

  lemma PrefixedTwice(a: Bytes, b: Bytes, r: Option<Bytes>)
    ensures Prefixed(a, Prefixed(b, r)) == Prefixed(a + b, r)
  {
    if r.Some? {
      assert a + (b + r.value) == (a + b) + r.value;
    }
  }

  lemma PrefixedEmpty(r: Option<Bytes>)
    ensures Prefixed([], r) == r
  {
    if r.Some? {
      assert [] + r.value == r.value;
    }
  }

  lemma RepeatMore(b: byte, n: nat)
    ensures Repeat(b, n) + [b] == Repeat(b, n + 1)
  {
  }

  lemma ExpandLiteral(last: Option<byte>, b: byte, rest: Bytes)
    requires b != STAR
    ensures ExpandFrom(last, [b] + rest) == Prefixed([b], ExpandFrom(Some(b), rest))
  {
    assert ([b] + rest)[1..] == rest;
  }

  lemma ExpandRepeats(p: byte, n: nat, rest: Bytes)
    requires 3 <= n <= 97
    ensures ExpandFrom(Some(p), [STAR, n + 29] + rest) == Prefixed(Repeat(p, n), ExpandFrom(Some(p), rest))
  {
    assert ([STAR, n + 29] + rest)[2..] == rest;
  }

  /** A run code expands to its repeats, whatever follows. */
  lemma ExpandRun(p: byte, n: nat, rest: Bytes)
    requires p != STAR && n <= 97
    ensures ExpandFrom(Some(p), RunCode(p, n) + rest) == Prefixed(Repeat(p, n), ExpandFrom(Some(p), rest))
  {
    hide ExpandFrom, Repeat;
    if n == 0 {
      assert RunCode(p, n) + rest == rest;
      PrefixedEmpty(ExpandFrom(Some(p), rest));
    } else if n <= 2 {
      ExpandCopies(p, n, rest);
      assert RunCode(p, n) == Repeat(p, n);
    } else if n == 6 || n == 7 {
      var copies := Repeat(p, n - 5);
      assert RunCode(p, n) + rest == [STAR, 5 + 29] + (copies + rest);
      ExpandRepeats(p, 5, copies + rest);
      ExpandCopies(p, n - 5, rest);
      PrefixedTwice(Repeat(p, 5), copies, ExpandFrom(Some(p), rest));
      assert Repeat(p, 5) + copies == Repeat(p, n);
    } else {
      ExpandRepeats(p, n, rest);
    }
  }

  lemma {:induction false} ExpandCopies(p: byte, n: nat, rest: Bytes)
    requires p != STAR
    ensures ExpandFrom(Some(p), Repeat(p, n) + rest) == Prefixed(Repeat(p, n), ExpandFrom(Some(p), rest))
  {
    if n == 0 {
      assert Repeat(p, n) + rest == rest;
      PrefixedEmpty(ExpandFrom(Some(p), rest));
    } else {
      var more := Repeat(p, n - 1) + rest;
      assert Repeat(p, n) + rest == [p] + more;
      ExpandLiteral(Some(p), p, more);
      ExpandCopies(p, n - 1, rest);
      PrefixedTwice([p], Repeat(p, n - 1), ExpandFrom(Some(p), rest));
    }
  }

  lemma {:induction false} ExpandCompressedFrom(prev: byte, count: nat, data: Bytes)
    requires prev != STAR && STAR !in data && count <= 97
    ensures ExpandFrom(Some(prev), CompressFrom(false, prev, count, data)) == Some(Repeat(prev, count) + data)
    decreases |data|
  {
    if data == [] {
      ExpandRun(prev, count, []);
      assert RunCode(prev, count) + [] == RunCode(prev, count);
    } else if prev != data[0] || count == 97 {
      var more := [data[0]] + CompressFrom(false, data[0], 0, data[1..]);
      assert CompressFrom(false, prev, count, data) == RunCode(prev, count) + more;
      ExpandCompressedFrom(data[0], 0, data[1..]);
      ExpandRun(prev, count, more);
      ExpandLiteral(Some(prev), data[0], CompressFrom(false, data[0], 0, data[1..]));
      assert Repeat(data[0], 0) + data[1..] == data[1..];
      assert [data[0]] + data[1..] == data;
    } else {
      ExpandCompressedFrom(prev, count + 1, data[1..]);
      RepeatMore(prev, count);
      assert data == [prev] + data[1..];
      assert Repeat(prev, count) + data == (Repeat(prev, count) + [prev]) + data[1..];
    }
  }

  lemma {:induction false} ExpandHasNoStar(last: Option<byte>, data: Bytes)
    requires last.Some? ==> last.value != STAR
    ensures var r := ExpandFrom(last, data); r.Some? ==> STAR !in r.value
    decreases |data|
  {
    if data != [] {
      if data[0] == STAR {
        if |data| >= 2 {
          ExpandHasNoStar(last, data[2..]);
        }
      } else {
        ExpandHasNoStar(Some(data[0]), data[1..]);
      }
    }
  }

  /** "a*!" goes out as it is and arrives as "aaaaa". */
  lemma StarChanges()
    ensures Compressed([97, STAR, 33]) == [97, STAR, 33]
    ensures Expand([97, STAR, 33]) == Some([97, 97, 97, 97, 97])
  {
    var data: Bytes := [97, STAR, 33];
    assert data[1..] == [STAR, 33] && [STAR, 33][1..] == [33] && [33][1..] == [];
    assert CompressFrom(false, 33, 0, []) == [];
    assert CompressFrom(false, STAR, 0, [33]) == [33];
    assert CompressFrom(false, 97, 0, [STAR, 33]) == [STAR, 33];
    assert [STAR, 33][2..] == [];
    assert ExpandFrom(Some(97), []) == Some([]);
    assert Repeat(97, 4) == [97, 97, 97, 97];
    assert ExpandFrom(Some(97), [STAR, 33]) == Some(Repeat(97, 4) + []);
    assert Repeat(97, 4) + [] == [97, 97, 97, 97] && [97] + [97, 97, 97, 97] == [97, 97, 97, 97, 97];
  }

  lemma {:induction false} RunOn(b: byte, count: nat, k: nat)
    requires count + k <= 97
    ensures CompressFrom(false, b, count, Repeat(b, k)) == RunCode(b, count + k)
    decreases k
  {
    hide RunCode;
    if k > 0 {
      assert Repeat(b, k)[1..] == Repeat(b, k - 1);
      RunOn(b, count + 1, k - 1);
    }
  }

  /** A run of up to 98 copies: short ones stay, 7 and 8 copies avoid the counts '#' and '$', the
      rest is the byte, '*' and the number of repeats plus 29. */
  lemma RunForm(b: byte, n: nat)
    requires n <= 97
    ensures Compressed(Repeat(b, n + 1))
         == [b] + (if n == 0 then [] else if n == 1 then [b] else if n == 2 then [b, b]
                   else if n == 6 then [42, 34, b] else if n == 7 then [42, 34, b, b] else [42, n + 29])
  {
    assert Repeat(b, n + 1)[1..] == Repeat(b, n);
    RunOn(b, 0, n);
    var w := RunCode(b, n);
    assert RunCode(0, 0) + [b] + w == [b] + w;
  }

  lemma {:induction false} CompressSplit(start: bool, prev: byte, count: nat, a: Bytes, b: Bytes)
    requires count <= 97 && b != []
    requires if a == [] then start || prev != b[0] || count == 97 else a[|a| - 1] != b[0]
    ensures CompressFrom(start, prev, count, a + b) == CompressFrom(start, prev, count, a) + Compressed(b)
    decreases |a|
  {
    hide RunCode;
    var first := [b[0]] + CompressFrom(false, b[0], 0, b[1..]);
    assert Compressed(b) == first by { NoRun(); }
    if a == [] {
      assert a + b == b;
      assert RunCode(prev, count) + [b[0]] + CompressFrom(false, b[0], 0, b[1..]) == RunCode(prev, count) + first;
    } else {
      assert (a + b)[0] == a[0] && (a + b)[1..] == a[1..] + b;
      if start || prev != a[0] || count == 97 {
        CompressSplit(false, a[0], 0, a[1..], b);
      } else {
        CompressSplit(false, prev, count + 1, a[1..], b);
      }
    }
  }

  lemma NoRun()
    ensures RunCode(0, 0) == []
  {
  }

  /** Different neighbours are compressed apart. */
  lemma RunsApart(a: Bytes, b: Bytes)
    requires a != [] && b != [] && a[|a| - 1] != b[0]
    ensures Compressed([]) == [] && Compressed(a + b) == Compressed(a) + Compressed(b)
  {
    CompressSplit(true, 0, 0, a, b);
  }

  /** A run longer than 98 copies starts afresh behind the 98th. */
  lemma LongRun(b: byte, rest: Bytes)
    requires rest != [] && rest[0] == b
    ensures Compressed(Repeat(b, 98) + rest) == Compressed(Repeat(b, 98)) + Compressed(rest)
  {
    hide RunCode;
    var run := Repeat(b, 98);
    assert run[1..] == Repeat(b, 97) && (run + rest)[0] == b && (run + rest)[1..] == Repeat(b, 97) + rest;
    NoRun();
    LongRunOn(b, 0, 97, rest);
    var first, second := CompressFrom(false, b, 0, Repeat(b, 97)), Compressed(rest);
    assert [] + [b] + (first + second) == ([] + [b] + first) + second;
  }

  lemma {:induction false} LongRunOn(b: byte, count: nat, k: nat, rest: Bytes)
    requires count + k == 97 && rest != []
    ensures CompressFrom(false, b, count, Repeat(b, k) + rest) == CompressFrom(false, b, count, Repeat(b, k)) + Compressed(rest)
    decreases k
  {
    hide RunCode;
    if k == 0 {
      assert Repeat(b, 0) == [];
      CompressSplit(false, b, 97, [], rest);
    } else {
      assert Repeat(b, k)[1..] == Repeat(b, k - 1) && (Repeat(b, k) + rest)[1..] == Repeat(b, k - 1) + rest;
      LongRunOn(b, count + 1, k - 1, rest);
    }
  }

  /** The receiver gets back exactly what was compressed if and only if it holds no '*'. */
  lemma ExpandCompressedIff(data: Bytes)
    ensures Expand(Compressed(data)) == Some(data) <==> STAR !in data
  {
    ExpandHasNoStar(None, Compressed(data));
    if STAR in data {
      assert Expand(Compressed(data)) != Some(data);
    } else if data != [] {
      ExpandCompressedFrom(data[0], 0, data[1..]);
      var more := CompressFrom(false, data[0], 0, data[1..]);
      assert Compressed(data) == [data[0]] + more;
      ExpandLiteral(None, data[0], more);
      assert Repeat(data[0], 0) + data[1..] == data[1..];
      assert [data[0]] + data[1..] == data;
    }
  }

  /** Every '*' in the output is followed by a legal count: printable and neither '#' nor '$'. */
  ghost predicate CountsOk(s: Bytes) {
    if s == [] then true
    else if s[0] == STAR then
      1 < |s| && 32 <= s[1] <= 126 && s[1] != HASH && s[1] != DOLLAR && CountsOk(s[2..])
    else CountsOk(s[1..])
  }

  /** Compression of data without '*', '#' or '$' emits no '#' or '$', only legal counts, and is
      never longer than the data. */
  lemma {:induction false} CompressedIsClean(start: bool, prev: byte, count: nat, data: Bytes)
    requires count <= 97 && prev != STAR && prev != HASH && prev != DOLLAR
    requires STAR !in data && HASH !in data && DOLLAR !in data
    ensures var r := CompressFrom(start, prev, count, data);
            && HASH !in r && DOLLAR !in r && CountsOk(r)
            && |r| <= count + |data|
    decreases |data|
  {
    var code := RunCode(prev, count);
    RunCodeIsClean(prev, count);
    if data != [] {
      if start || prev != data[0] || count == 97 {
        var rest := CompressFrom(false, data[0], 0, data[1..]);
        CompressedIsClean(false, data[0], 0, data[1..]);
        CountsConcat(code, [data[0]] + rest);
        CountsConcat([data[0]], rest);
        assert code + [data[0]] + rest == code + ([data[0]] + rest);
      } else {
        CompressedIsClean(false, prev, count + 1, data[1..]);
      }
    }
  }

  lemma RunCodeIsClean(p: byte, n: nat)
    requires n <= 97 && p != STAR && p != HASH && p != DOLLAR
    ensures HASH !in RunCode(p, n) && DOLLAR !in RunCode(p, n) && CountsOk(RunCode(p, n)) && |RunCode(p, n)| <= n
  {
    if n >= 3 && n != 6 && n != 7 {
      assert RunCode(p, n) == [STAR, n + 29];
    } else if n == 6 {
      assert RunCode(p, n) == [STAR, 34, p];
    } else if n == 7 {
      assert RunCode(p, n) == [STAR, 34, p, p];
      assert [p, p][1..] == [p] && CountsOk([p, p]);
      assert RunCode(p, n)[2..] == [p, p];
    }
  }

  lemma {:induction false} CountsConcat(a: Bytes, b: Bytes)
    requires CountsOk(a) && CountsOk(b)
    ensures CountsOk(a + b)
  {
    if a == [] {
      assert a + b == b;
    } else if a[0] == STAR {
      CountsConcat(a[2..], b);
      assert (a + b)[2..] == a[2..] + b;
    } else {
      CountsConcat(a[1..], b);
      assert (a + b)[1..] == a[1..] + b;
    }
  }

  // ----- Checksums and frames -----

  function Checksum(data: Bytes): byte {
    if data == [] then 0 else (Checksum(data[..|data| - 1]) + data[|data| - 1]) % 256
  }

  /** The sum of the bytes modulo 256: it starts from nothing, a byte counts as itself, and
      concatenation adds. */
  lemma ChecksumAdds(a: Bytes, b: Bytes, c: byte)
    ensures Checksum([]) == 0 && Checksum([c]) == c
    ensures Checksum(a + b) == (Checksum(a) + Checksum(b)) % 256
  {
    assert [c][..0] == [];
    ChecksumConcat(a, b);
  }

  lemma {:induction false} ChecksumConcat(a: Bytes, b: Bytes)
    ensures Checksum(a + b) == (Checksum(a) + Checksum(b)) % 256
    decreases |b|
  {
    if b == [] {
      assert a + b == a && Checksum([]) == 0;
    } else {
      hide Checksum;
      var n := |b| - 1;
      ChecksumConcat(a, b[..n]);
      assert b == b[..n] + [b[n]];
      ConcatMore(a, b[..n], b[n]);
    }
  }

  lemma ConcatMore(a: Bytes, b: Bytes, c: byte)
    requires Checksum(a + b) == (Checksum(a) + Checksum(b)) % 256
    ensures Checksum(a + (b + [c])) == (Checksum(a) + Checksum(b + [c])) % 256
  {
    hide Checksum;
    ChecksumMore(a + b, c);
    ChecksumMore(b, c);
    assert a + (b + [c]) == (a + b) + [c];
    ModAdds(Checksum(a), Checksum(b), c);
  }

  lemma ChecksumMore(a: Bytes, c: byte)
    ensures Checksum(a + [c]) == (Checksum(a) + c) % 256
  {
    assert (a + [c])[..|a|] == a;
  }

  lemma ModAdds(x: nat, y: nat, z: nat)
    ensures ((x + y) % 256 + z) % 256 == (x + (y + z) % 256) % 256
  {
  }

  /** The plain sum, however large. */
  ghost function Sum(data: Bytes): nat {
    if data == [] then 0 else data[0] + Sum(data[1..])
  }

  lemma {:induction false} ChecksumIsSum(data: Bytes)
    ensures Checksum(data) == Sum(data) % 256
    decreases |data|
  {
    if data != [] {
      hide Checksum;
      ChecksumIsSum(data[1..]);
      ChecksumAdds([data[0]], data[1..], data[0]);
      assert data == [data[0]] + data[1..];
      ModAdds(data[0], Sum(data[1..]), 0);
    }
  }

  method ComputeChecksum(data: Bytes) returns (checksum: byte)
    ensures checksum == Checksum(data)
    ensures checksum == Sum(data) % 256
  {
    ChecksumIsSum(data);
    checksum := 0;
    for i := 0 to |data|
      invariant checksum == Checksum(data[..i])
    {
      assert data[..i + 1][..i] == data[..i];
      checksum := (checksum + data[i]) % 256;
    }
    assert data[..|data|] == data;
  }

  /** Lower-case hexadecimal digit. */
  function Nibble(v: int): byte
    requires 0 <= v < 16
  {
    if v <= 9 then 48 + v else 97 + (v - 10)
  }

  function Hex(b: byte): Bytes { [Nibble(b / 16), Nibble(b % 16)] }

  function HexDigit(c: byte): Option<int> {
    if 48 <= c <= 57 then Some(c - 48)
    else if 97 <= c <= 102 then Some(c - 87)
    else if 65 <= c <= 70 then Some(c - 55)
    else None
  }

  predicate Space(c: byte) { c == 32 || 9 <= c <= 13 }

  function Digits(s: Bytes, acc: nat): nat {
    if s == [] || HexDigit(s[0]).None? then acc else Digits(s[1..], acc * 16 + HexDigit(s[0]).value)
  }

  /** `strtoul(s, nullptr, 16)` on a string of two characters: leading blanks, a sign, digits. */
  function Strtoul(s: Bytes): int
    requires |s| <= 2
    decreases |s|
  {
    if s == [] then 0
    else if Space(s[0]) then Strtoul(s[1..])
    else if s[0] == 45 then (U64 - Digits(s[1..], 0)) % U64
    else if s[0] == 43 then Digits(s[1..], 0)
    else Digits(s, 0)
  }

  /** "0123456789abcdef" and "0123456789ABCDEF". */
  const LOWER: Bytes := [48, 49, 50, 51, 52, 53, 54, 55, 56, 57, 97, 98, 99, 100, 101, 102]
  const UPPER: Bytes := [48, 49, 50, 51, 52, 53, 54, 55, 56, 57, 65, 66, 67, 68, 69, 70]

  /** A byte is written as its two lower-case digits, high one first. */
  lemma HexForm(b: byte)
    ensures Hex(b) == [LOWER[b / 16], LOWER[b % 16]]
  {
  }

  /** Two digits of either case are read as the number they spell; a blank or a sign in front of one
      digit is skipped, '-' negating it; anything else ends the number. */
  lemma StrtoulForms(x: byte, y: byte, i: nat, j: nat)
    requires i < 16 && j < 16
    ensures IsDigit(x, i) && IsDigit(y, j) ==> Strtoul([x, y]) == 16 * i + j
    ensures IsDigit(x, i) && y !in LOWER && y !in UPPER ==> Strtoul([x, y]) == i
    ensures IsDigit(y, j) && (x == 32 || 9 <= x <= 13 || x == 43) ==> Strtoul([x, y]) == j
    ensures IsDigit(y, j) && x == 45 ==> Strtoul([x, y]) == if j == 0 then 0 else U64 - j
    ensures x !in LOWER && x !in UPPER && x != 32 && !(9 <= x <= 13) && x != 43 && x != 45 ==> Strtoul([x, y]) == 0
  {
    hide HexDigit, Digits, IsDigit;
    assert [x, y][1..] == [y];
    DigitRead(x, i);
    DigitRead(y, j);
    OneDigit(y, 0);
    TwoDigits(x, y);
    DigitIsPlain(x, i);
  }

  lemma DigitIsPlain(x: byte, i: nat)
    requires i < 16
    ensures x in LOWER || x in UPPER ==> !Space(x) && x != 43 && x != 45
    ensures IsDigit(x, i) ==> x in LOWER || x in UPPER
  {
  }

  lemma TwoDigits(x: byte, y: byte)
    ensures HexDigit(x).None? ==> Digits([x, y], 0) == 0
    ensures HexDigit(x).Some? ==> 0 <= HexDigit(x).value && Digits([x, y], 0) == Digits([y], HexDigit(x).value)
    ensures HexDigit(x).Some? && HexDigit(y).None? ==> Digits([x, y], 0) == HexDigit(x).value
    ensures HexDigit(x).Some? && HexDigit(y).Some? ==> Digits([x, y], 0) == 16 * HexDigit(x).value + HexDigit(y).value
  {
    assert [x, y][1..] == [y];
    if HexDigit(x).Some? {
      OneDigit(y, HexDigit(x).value);
    }
  }

  lemma OneDigit(y: byte, acc: nat)
    ensures Digits([y], acc) == if HexDigit(y).None? then acc else acc * 16 + HexDigit(y).value
  {
    assert [y][1..] == [];
  }

  predicate IsDigit(c: byte, v: nat)
    requires v < 16
  {
    c == LOWER[v] || c == UPPER[v]
  }

  lemma DigitRead(c: byte, v: nat)
    requires v < 16
    ensures IsDigit(c, v) <==> HexDigit(c) == Some(v)
    ensures HexDigit(c).None? <==> c !in LOWER && c !in UPPER
  {
    var w := if HexDigit(c).Some? then HexDigit(c).value else 0;
    assert HexDigit(c).Some? ==> c == LOWER[w] || c == UPPER[w];
    forall k | 0 <= k < 16
      ensures HexDigit(LOWER[k]) == Some(k) && HexDigit(UPPER[k]) == Some(k)
    {
    }
  }

  lemma NibbleDigit(v: int)
    requires 0 <= v < 16
    ensures HexDigit(Nibble(v)) == Some(v) && !Space(Nibble(v)) && Nibble(v) != 43 && Nibble(v) != 45
  {
  }

  lemma StrtoulHex(b: byte)
    ensures Strtoul(Hex(b)) == b
  {
    var s := Hex(b);
    NibbleDigit(b / 16);
    NibbleDigit(b % 16);
    assert s[1..] == [Nibble(b % 16)] && s[1..][1..] == [];
    assert Digits(s, 0) == Digits(s[1..], b / 16);
    assert Digits(s[1..], b / 16) == Digits([], b / 16 * 16 + b % 16);
  }

  function Frame(payload: Bytes): Bytes {
    [DOLLAR] + payload + [HASH] + Hex(Checksum(payload))
  }
}
