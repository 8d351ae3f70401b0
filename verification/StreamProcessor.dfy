/** Incremental packet extraction (stream_processor.cpp) and the reply path it mirrors. */
module StreamProcessor {
  import opened Machine
  import opened GdbCodec

  /** The offset of the first `b` in `s`, or |s| when there is none. */
  function Find(s: Bytes, b: byte): (i: nat)
    ensures i <= |s| && (i < |s| ==> s[i] == b) && forall k :: 0 <= k < i ==> s[k] != b
  {
    if s == [] || s[0] == b then 0 else 1 + Find(s[1..], b)
  }

  function Trim(s: Bytes): Bytes { s[Find(s, DOLLAR)..] }

  /** enqueue_packet: the payload if the packet is well formed and its checksum agrees. */
  function Accepted(packet: Bytes): seq<Bytes> {
    if |packet| < 4 || packet[0] != DOLLAR || packet[|packet| - 3] != HASH then []
    else
      var payload := packet[1..|packet| - 3];
      if Strtoul(packet[|packet| - 2..]) == Checksum(payload) then [payload] else []
  }

  /** What process_data_stream leaves in the buffer and adds to the queue. */
  function Process(stream: Bytes): (r: (Bytes, seq<Bytes>))
    decreases |stream|
  {
    var s := Trim(stream);
    var end := Find(s, HASH);
    if end == |s| || end + 3 > |s| then (s, [])
    else
      var (rest, packets) := Process(s[end + 3..]);
      (rest, Accepted(s[..end + 3]) + packets)
  }

  /** A trimmed buffer starts with a complete packet. */
  predicate Ready(s: Bytes) { Find(s, HASH) + 3 <= |s| }

  lemma ProcessStops(stream: Bytes)
    requires !Ready(Trim(stream))
    ensures Process(stream) == (Trim(stream), [])
  {
  }

  lemma ProcessTakes(stream: Bytes)
    requires Ready(Trim(stream))
    ensures var s := Trim(stream);
            var end := Find(s, HASH);
            var next := Process(s[end + 3..]);
            Process(stream) == (next.0, Accepted(s[..end + 3]) + next.1)
  {
    hide Accepted, Find;
  }

  class Processor {
    var stream: Bytes
    var packets: seq<Bytes>

    constructor ()
      ensures stream == [] && packets == []
    {
      stream, packets := [], [];
    }

    method TrimStart()
      modifies this`stream
      ensures stream == Trim(old(stream))
    {
      while stream != [] && stream[0] != DOLLAR
        invariant Trim(stream) == Trim(old(stream))
        decreases |stream|
      {
        stream := stream[1..];
      }
      assert Find(stream, DOLLAR) == 0;
    }

    method EnqueuePacket(packet: Bytes)
      modifies this`packets
      ensures packets == old(packets) + Accepted(packet)
      ensures packets == old(packets)
                         + if |packet| >= 4 && packet[0] == 36 && packet[|packet| - 3] == 35
                              && Strtoul(packet[|packet| - 2..]) == Checksum(packet[1..|packet| - 3])
                           then [packet[1..|packet| - 3]] else []
    {
      if |packet| < 4 || packet[0] != DOLLAR || packet[|packet| - 3] != HASH {
        return;
      }
      var checksum := Strtoul(packet[|packet| - 2..]);
      var payload := packet[1..];
      payload := payload[..|payload| - 3];
      assert payload == packet[1..|packet| - 3];
      var computed := ComputeChecksum(payload);
      if computed == checksum {
        packets := packets + [payload];
      }
    }

    method ProcessDataStream()
      modifies this
      ensures stream == Process(old(stream)).0
      ensures packets == old(packets) + Process(old(stream)).1
    {
      hide Process, Accepted, Trim;
      while true
        invariant Process(stream).0 == Process(old(stream)).0
        invariant packets + Process(stream).1 == old(packets) + Process(old(stream)).1
        decreases |stream|
      {
        ghost var before := stream;
        TrimStart();
        TrimShorter(before);
        var end := Find(stream, HASH);
        if end == |stream| {
          ProcessStops(before);
          break;
        }
        var packetSize := end + 3;
        if packetSize > |stream| {
          ProcessStops(before);
          break;
        }
        ProcessTakes(before);
        var packet := stream[..packetSize];
        stream := stream[packetSize..];
        EnqueuePacket(packet);
      }
    }

    method PushStreamData(data: Bytes)
      modifies this
      ensures stream == Process(old(stream) + data).0
      ensures packets == old(packets) + Process(old(stream) + data).1
    {
      stream := stream + data;
      ProcessDataStream();
    }

    method GetNextPacket() returns (packet: Bytes)
      requires packets != []
      modifies this`packets
      ensures [packet] + packets == old(packets)
    {
      packet := packets[0];
      packets := packets[1..];
    }

    /** However a stream is cut into chunks, pushing them one by one is pushing it whole. */
    method PushChunks(chunks: seq<Bytes>)
      modifies this
      ensures chunks == [] ==> stream == old(stream) && packets == old(packets)
      ensures chunks != [] ==> stream == Process(old(stream) + Concat(chunks)).0 && Settled(stream)
      ensures chunks != [] ==> packets == old(packets) + Process(old(stream) + Concat(chunks)).1
    {
      hide Process;
      for i := 0 to |chunks|
        invariant i == 0 ==> stream == old(stream) && packets == old(packets)
        invariant i > 0 ==> stream == Process(old(stream) + Concat(chunks[..i])).0
        invariant i > 0 ==> packets == old(packets) + Process(old(stream) + Concat(chunks[..i])).1
      {
        ghost var sofar := old(stream) + Concat(chunks[..i]);
        ChunksCompose(sofar, chunks[i]);
        assert chunks[..i + 1][..i] == chunks[..i];
        assert sofar + chunks[i] == old(stream) + Concat(chunks[..i + 1]);
        assert i == 0 ==> sofar == old(stream);
        PushStreamData(chunks[i]);
      }
      assert chunks[..|chunks|] == chunks;
      ProcessSettles(old(stream) + Concat(chunks));
    }
  }

  // ----- Chunking -----

  function Concat(chunks: seq<Bytes>): Bytes {
    if chunks == [] then [] else Concat(chunks[..|chunks| - 1]) + chunks[|chunks| - 1]
  }

  /** Nothing more can be extracted from the buffer as it stands. */
  ghost predicate Settled(stream: Bytes) {
    Process(stream) == (stream, [])
  }

  lemma {:induction false} FindAppend(s: Bytes, t: Bytes, b: byte)
    ensures Find(s + t, b) == if Find(s, b) < |s| then Find(s, b) else |s| + Find(t, b)
  {
    if s == [] {
      assert s + t == t;
    } else if s[0] != b {
      assert (s + t)[1..] == s[1..] + t;
      FindAppend(s[1..], t, b);
    }
  }

  lemma TrimShorter(s: Bytes)
    ensures |Trim(s)| <= |s|
  {
  }

  lemma TrimTwice(s: Bytes)
    ensures Trim(Trim(s)) == Trim(s)
  {
    assert Trim(s) != [] ==> Trim(s)[0] == DOLLAR;
    assert Find(Trim(s), DOLLAR) == 0;
  }

  lemma TrimAppend(s: Bytes, t: Bytes)
    ensures Trim(s + t) == Trim(Trim(s) + t)
    ensures Trim(s) != [] ==> Trim(s + t) == Trim(s) + t
  {
    FindAppend(s, t, DOLLAR);
    TrimTwice(s);
    FindAppend(Trim(s), t, DOLLAR);
    if Trim(s) == [] {
      assert (s + t)[|s| + Find(t, DOLLAR)..] == t[Find(t, DOLLAR)..];
      assert [] + t == t;
    } else {
      assert (s + t)[Find(s, DOLLAR)..] == Trim(s) + t;
    }
  }

  lemma ProcessTrimmed(s: Bytes)
    ensures Process(Trim(s)) == Process(s)
  {
    hide Process, Trim;
    TrimTwice(s);
    if Ready(Trim(s)) {
      ProcessTakes(s);
      ProcessTakes(Trim(s));
    } else {
      ProcessStops(s);
      ProcessStops(Trim(s));
    }
  }

  lemma {:induction false} ProcessSettles(s: Bytes)
    ensures Settled(Process(s).0)
    decreases |s|
  {
    hide Process, Trim;
    var t := Trim(s);
    TrimShorter(s);
    if Ready(t) {
      ProcessTakes(s);
      ProcessSettles(t[Find(t, HASH) + 3..]);
    } else {
      ProcessStops(s);
      TrimTwice(s);
      ProcessStops(t);
    }
  }

  /** Processing a stream in two parts: the buffer left by the first part is all that matters. */
  lemma {:induction false} ChunksCompose(s: Bytes, t: Bytes)
    ensures var first, whole := Process(s), Process(s + t);
            var second := Process(first.0 + t);
            whole == (second.0, first.1 + second.1)
    decreases |s|
  {
    hide Process, Trim, Accepted;
    var u := Trim(s);
    TrimAppend(s, t);
    TrimShorter(s);
    if Ready(u) {
      var end := Find(u, HASH);
      FindAppend(u, t, HASH);
      var rest := u[end + 3..];
      assert (u + t)[end + 3..] == rest + t;
      assert (u + t)[..end + 3] == u[..end + 3];
      ProcessTakes(s);
      ProcessTakes(s + t);
      ChunksCompose(rest, t);
      var second := Process(Process(rest).0 + t);
      assert Accepted(u[..end + 3]) + (Process(rest).1 + second.1)
          == (Accepted(u[..end + 3]) + Process(rest).1) + second.1;
    } else {
      ProcessStops(s);
      ProcessTrimmed(s + t);
      ProcessTrimmed(u + t);
      assert [] + Process(u + t).1 == Process(u + t).1;
    }
  }

  // ----- Frames on the wire -----

  /** Noise between frames, then a frame. */
  datatype Piece = Piece(noise: Bytes, payload: Bytes)

  ghost predicate PieceOk(p: Piece) {
    DOLLAR !in p.noise && HASH !in p.payload
  }

  function Wire(pieces: seq<Piece>): Bytes {
    if pieces == [] then [] else pieces[0].noise + Frame(pieces[0].payload) + Wire(pieces[1..])
  }

  function Payloads(pieces: seq<Piece>): seq<Bytes> {
    if pieces == [] then [] else [pieces[0].payload] + Payloads(pieces[1..])
  }

  lemma FindAbsent(s: Bytes, b: byte)
    requires b !in s
    ensures Find(s, b) == |s|
  {
  }

  lemma AcceptedFrame(payload: Bytes)
    ensures Accepted(Frame(payload)) == [payload]
  {
    var f := Frame(payload);
    var h := Hex(Checksum(payload));
    assert f[|f| - 2..] == h;
    assert f[1..|f| - 3] == payload;
    StrtoulHex(Checksum(payload));
  }

  lemma ProcessFrame(p: Piece, tail: Bytes)
    requires PieceOk(p)
    ensures Process(p.noise + Frame(p.payload) + tail) == (Process(tail).0, [p.payload] + Process(tail).1)
  {
    hide Process, Accepted;
    var f := Frame(p.payload);
    var s := p.noise + f + tail;
    assert s == p.noise + (f + tail);
    FindAbsent(p.noise, DOLLAR);
    FindAppend(p.noise, f + tail, DOLLAR);
    assert Find(f + tail, DOLLAR) == 0;
    assert Trim(s) == f + tail;
    var head, rest := [DOLLAR] + p.payload, [HASH] + Hex(Checksum(p.payload)) + tail;
    assert f + tail == head + rest;
    FindAbsent(head, HASH);
    FindAppend(head, rest, HASH);
    var end := Find(f + tail, HASH);
    assert end + 3 == |f|;
    assert (f + tail)[..end + 3] == f && (f + tail)[end + 3..] == tail;
    ProcessTakes(s);
    AcceptedFrame(p.payload);
  }

  /** Any candidate packet, right or wrong: up to the first '$' everything is dropped, the two bytes
      behind the first '#' decide, and what follows is processed as if it stood alone. */
  lemma ProcessAny(noise: Bytes, payload: Bytes, x: byte, y: byte, tail: Bytes)
    requires DOLLAR !in noise && HASH !in payload
    ensures Process(noise + [36] + payload + [35, x, y] + tail)
         == (Process(tail).0, (if Strtoul([x, y]) == Checksum(payload) then [payload] else []) + Process(tail).1)
  {
    hide Process, Strtoul, Checksum, Find;
    var f := [36] + payload + [35, x, y];
    var s := noise + [36] + payload + [35, x, y] + tail;
    assert s == noise + (f + tail);
    FindAbsent(noise, DOLLAR);
    FindAppend(noise, f + tail, DOLLAR);
    FindFirst(f + tail, DOLLAR);
    assert Trim(s) == f + tail;
    var head, rest := [DOLLAR] + payload, [35, x, y] + tail;
    assert f + tail == head + rest;
    FindAbsent(head, HASH);
    FindAppend(head, rest, HASH);
    FindFirst(rest, HASH);
    var end := |head|;
    assert (f + tail)[..end + 3] == f && (f + tail)[end + 3..] == tail;
    ProcessTakes(s);
    assert f[|f| - 2..] == [x, y] && f[1..|f| - 3] == payload;
  }

  lemma FindFirst(s: Bytes, b: byte)
    requires s != [] && s[0] == b
    ensures Find(s, b) == 0
  {
  }

  /** Noise alone leaves nothing; a packet that has begun stays in the buffer until both bytes behind
      its '#' are there. */
  lemma ProcessPartial(noise: Bytes, payload: Bytes, x: byte)
    requires DOLLAR !in noise && HASH !in payload
    ensures Process(noise) == ([], [])
    ensures Process(noise + [36] + payload) == ([36] + payload, [])
    ensures Process(noise + [36] + payload + [35]) == ([36] + payload + [35], [])
    ensures Process(noise + [36] + payload + [35, x]) == ([36] + payload + [35, x], [])
  {
    hide Process, Find;
    FindAbsent(noise, DOLLAR);
    assert noise[|noise|..] == [];
    FindAbsent([], HASH);
    ProcessStops(noise);
    PartialStays(noise, payload, []);
    PartialStays(noise, payload, [35]);
    PartialStays(noise, payload, [35, x]);
    assert noise + [36] + payload + [] == noise + [36] + payload && [36] + payload + [] == [36] + payload;
  }

  lemma PartialStays(noise: Bytes, payload: Bytes, end: Bytes)
    requires DOLLAR !in noise && HASH !in payload && |end| < 3 && (end != [] ==> end[0] == 35)
    ensures Process(noise + [36] + payload + end) == ([36] + payload + end, [])
  {
    hide Process, Find;
    var f := [36] + payload + end;
    assert noise + [36] + payload + end == noise + f;
    FindAbsent(noise, DOLLAR);
    FindAppend(noise, f, DOLLAR);
    FindFirst(f, DOLLAR);
    assert Trim(noise + f) == f;
    var head := [36] + payload;
    FindAbsent(head, HASH);
    FindAppend(head, end, HASH);
    if end != [] {
      FindFirst(end, HASH);
    } else {
      FindAbsent(end, HASH);
    }
    ProcessStops(noise + f);
  }

  /** "$OK#9a" is a packet, and "$OK#9b" is not. */
  lemma OkPacket()
    ensures Frame([79, 75]) == [36, 79, 75, 35, 57, 97]
    ensures Process([36, 79, 75, 35, 57, 97]) == ([], [[79, 75]]) && Process([36, 79, 75, 35, 57, 98]) == ([], [])
  {
    hide Process, Strtoul, Checksum;
    OkSum();
    OkCandidate(57, 97);
    OkCandidate(57, 98);
  }

  lemma OkSum()
    ensures Checksum([79, 75]) == 154 && Strtoul([57, 97]) == 154 && Strtoul([57, 98]) == 155
  {
    hide Strtoul, Checksum;
    ChecksumAdds([79], [75], 79);
    ChecksumAdds([79], [75], 75);
    assert [79] + [75] == [79, 75];
    StrtoulForms(57, 97, 9, 10);
    StrtoulForms(57, 98, 9, 11);
  }

  lemma OkCandidate(x: byte, y: byte)
    ensures Process([36, 79, 75, 35, x, y]) == ([], if Strtoul([x, y]) == Checksum([79, 75]) then [[79, 75]] else [])
  {
    hide Process, Strtoul, Checksum;
    var ok: Bytes, none: Bytes := [79, 75], [];
    ProcessAny(none, ok, x, y, none);
    ProcessPartial(none, none, 0);
    assert none + [36] + ok + [35, x, y] + none == [36, 79, 75, 35, x, y];
    var got := if Strtoul([x, y]) == Checksum(ok) then [ok] else [];
    assert got + [] == got;
  }

  /** Frames with noise between them come out as exactly their payloads, in order, and what
      follows them is processed as if it stood alone. */
  lemma {:induction false} ProcessWire(pieces: seq<Piece>, tail: Bytes)
    requires forall i :: 0 <= i < |pieces| ==> PieceOk(pieces[i])
    ensures Process(Wire(pieces) + tail) == (Process(tail).0, Payloads(pieces) + Process(tail).1)
  {
    hide Process, Frame;
    if pieces == [] {
      assert Wire(pieces) + tail == tail;
      assert [] + Process(tail).1 == Process(tail).1;
    } else {
      var p, more := pieces[0], Wire(pieces[1..]) + tail;
      assert Wire(pieces) + tail == p.noise + Frame(p.payload) + more;
      ProcessFrame(p, more);
      ProcessWire(pieces[1..], tail);
      assert [p.payload] + (Payloads(pieces[1..]) + Process(tail).1) == Payloads(pieces) + Process(tail).1;
    }
  }

  // ----- Replies -----

  /** send_reply: compress, then frame. */
  function Reply(data: Bytes): Bytes { Frame(Compressed(data)) }

  lemma CompressedClean(data: Bytes)
    requires STAR !in data && HASH !in data && DOLLAR !in data
    ensures HASH !in Compressed(data) && DOLLAR !in Compressed(data)
  {
    CompressedIsClean(true, 0, 0, data);
  }

  /** A reply free of '*', '#' and '$' arrives as one packet that expands to the reply. */
  lemma ReplyArrives(data: Bytes)
    requires STAR !in data && HASH !in data && DOLLAR !in data
    ensures Process(Reply(data)) == ([], [Compressed(data)]) && Expand(Compressed(data)) == Some(data)
  {
    hide Compressed, Expand, Frame;
    CompressedClean(data);
    ExpandCompressedIff(data);
    var p := Piece([], Compressed(data));
    ProcessFrame(p, []);
    assert p.noise + Frame(p.payload) + [] == Reply(data);
    ProcessStops([]);
    assert [p.payload] + [] == [p.payload];
  }

  /** Escape, compress and frame on one side; deframe, expand and unescape on the other: the
      receiver has the longest prefix of the data whose escape fits the budget. */
  lemma ReplyRoundTrip(data: Bytes, max: nat)
    ensures var sent := Escaped(data[..Copied(data, max)]);
            var got := Process(Reply(sent)).1;
            && |got| == 1 && Expand(got[0]) == Some(sent)
            && UnescapeFrom(sent, false) == Some(data[..Copied(data, max)])
  {
    var prefix := data[..Copied(data, max)];
    EscapedIsClean(prefix);
    ReplyArrives(Escaped(prefix));
    UnescapeEscaped(prefix);
  }

  // ----- qXfer transfers -----

  const MAX_DATA_SIZE: nat := 128 * 1024

  const TAG_LAST: byte := 108
  const TAG_MORE: byte := 109

  function XferCount(data: Bytes, offset: nat, length: nat): (n: nat)
    requires offset < |data|
    ensures n <= |data| - offset
  {
    var granted := Min(|data| - offset, length);
    Copied(data[offset..offset + granted], Max(granted, MAX_DATA_SIZE - 1))
  }

  /** The reply to a request for `length` bytes at `offset`. */
  function XferReply(data: Bytes, offset: nat, length: nat): Bytes {
    if offset >= |data| then [TAG_LAST]
    else
      var n := XferCount(data, offset, length);
      [if n == |data| - offset then TAG_LAST else TAG_MORE] + Escaped(data[offset..offset + n])
  }

  /** `n` bytes are sent: no more than are left or asked for, all of them unless their escape passes
      the limit, and as many as stay within it; 'l' marks the end of the object, 'm' more to come. */
  ghost predicate XferBlock(data: Bytes, offset: nat, length: nat, n: nat, reply: Bytes)
    requires offset < |data|
  {
    var granted := if |data| - offset <= length then |data| - offset else length;
    var limit := if granted <= 131071 then 131071 else granted;
    && n <= granted && |Escaped(data[offset..offset + n])| <= limit
    && (n < granted ==> limit < |Escaped(data[offset..offset + n + 1])|)
    && reply == [if offset + n == |data| then 108 else 109] + Escaped(data[offset..offset + n])
  }

  lemma BlockIsLongest(data: Bytes, offset: nat, length: nat, n: nat)
    requires offset < |data| && n == XferCount(data, offset, length)
    ensures XferBlock(data, offset, length, n, [if offset + n == |data| then 108 else 109] + Escaped(data[offset..offset + n]))
  {
    hide Escaped, Copied;
    var granted := Min(|data| - offset, length);
    var sub := data[offset..offset + granted];
    CopiedIsLongest(sub, Max(granted, MAX_DATA_SIZE - 1));
    assert sub[..n] == data[offset..offset + n];
    if n < granted {
      assert sub[..n + 1] == data[offset..offset + n + 1];
    }
  }

  method SendXferData(data: Bytes, offset: nat, length: nat) returns (reply: Bytes)
    ensures reply == XferReply(data, offset, length)
    ensures offset >= |data| ==> reply == [108]
    ensures offset < |data| ==> exists n: nat :: XferBlock(data, offset, length, n, reply)
  {
    hide Escaped, Copied;
    if offset >= |data| {
      return [TAG_LAST];
    }
    var remaining := |data| - offset;
    var granted := Min(remaining, length);
    var sub := data[offset..offset + granted];
    var escaped, copied := Escape(sub, Max(granted, MAX_DATA_SIZE - 1));
    assert sub[..copied] == data[offset..offset + copied];
    BlockIsLongest(data, offset, length, copied);
    reply := [if copied == remaining then TAG_LAST else TAG_MORE] + escaped;
  }

  lemma XferProgress(data: Bytes, offset: nat, length: nat)
    requires offset < |data| && 0 < length
    ensures 0 < XferCount(data, offset, length)
  {
    var granted := Min(|data| - offset, length);
    var sub := data[offset..offset + granted];
    CopiedIsLongest(sub, Max(granted, MAX_DATA_SIZE - 1));
    assert sub[..1] == [sub[0]] && sub[..1][..0] == [];
    assert |Escaped(sub[..1])| <= 2;
  }

  /** The debugger's side of a transfer: ask, unescape, move on by what was received. */
  function Fetch(data: Bytes, offset: nat, length: nat): Option<Bytes>
    requires 0 < length && offset <= |data|
    decreases |data| - offset
  {
    var reply := XferReply(data, offset, length);
    match UnescapeFrom(reply[1..], false)
    case None => None
    case Some(part) =>
      if reply[0] == TAG_LAST || part == [] || |part| > |data| - offset then Some(part)
      else Prefixed(part, Fetch(data, offset + |part|, length))
  }

  /** Whatever block size the debugger asks for, the blocks it receives add up to the object. */
  lemma {:induction false} FetchIsComplete(data: Bytes, offset: nat, length: nat)
    requires 0 < length && offset <= |data|
    ensures Fetch(data, offset, length) == Some(data[offset..])
    decreases |data| - offset
  {
    hide Escaped, XferCount;
    var reply := XferReply(data, offset, length);
    if offset == |data| {
      assert reply[1..] == [];
    } else {
      var n := XferCount(data, offset, length);
      var part := data[offset..offset + n];
      XferProgress(data, offset, length);
      assert reply[1..] == Escaped(part);
      UnescapeEscaped(part);
      if n < |data| - offset {
        FetchIsComplete(data, offset + n, length);
        assert data[offset..] == part + data[offset + n..];
      } else {
        assert data[offset..] == part;
      }
    }
  }

  /** Every transfer reply also survives the wire. */
  lemma XferReplyArrives(data: Bytes, offset: nat, length: nat)
    ensures var reply := XferReply(data, offset, length);
            && Process(Reply(reply)) == ([], [Compressed(reply)])
            && Expand(Compressed(reply)) == Some(reply)
  {
    if offset < |data| {
      EscapedIsClean(data[offset..offset + XferCount(data, offset, length)]);
    }
    ReplyArrives(XferReply(data, offset, length));
  }
}
