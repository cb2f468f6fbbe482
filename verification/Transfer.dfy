/**
 * The file transfer: a sender that cuts a file into offset-tagged chunks, a network that may
 * lose, repeat and reorder them, and a receiver that writes each chunk at its offset.
 */
module Transfer {
  import opened Bits
  import opened RamFile
  import opened Status

  /** A message: the header fields and the payload behind them. */
  datatype Datagram = Datagram(flags: uint32, offset: uint64, data: Bytes)

  const HEADER_BYTES: nat := 16
  const MAX_CHUNK: nat := 1024
  const MAX_RECEIVED: nat := 1024 * 1024

  // ----- messages as bytes

  function ByteOf(n: nat, i: nat): byte {
    if i == 0 then n % 256 else ByteOf(n / 256, i - 1)
  }

  function LittleEndian(n: nat, width: nat): (b: Bytes)
    ensures |b| == width
  {
    seq<byte>(width, (i: nat) => ByteOf(n, i))
  }

  function FromLittleEndian(b: Bytes): nat {
    if b == [] then 0 else b[0] + 256 * FromLittleEndian(b[1..])
  }

  ghost function Values(width: nat): nat {
    if width == 0 then 1 else 256 * Values(width - 1)
  }

  lemma {:induction false} LittleEndianRoundTrip(n: nat, width: nat)
    requires n < Values(width)
    ensures FromLittleEndian(LittleEndian(n, width)) == n
  {
    if width > 0 {
      LittleEndianRoundTrip(n / 256, width - 1);
      var b := LittleEndian(n, width);
      assert b[0] == n % 256 && b[1..] == LittleEndian(n / 256, width - 1);
    }
  }

  lemma {:induction false} FromLittleEndianBound(b: Bytes)
    ensures FromLittleEndian(b) < Values(|b|)
  {
    if b != [] { FromLittleEndianBound(b[1..]); }
  }

  /** Eight little-endian bytes, written out. */
  lemma EightBytes(b: Bytes)
    requires |b| == 8
    ensures FromLittleEndian(b)
         == b[0] as int + 0x100 * (b[1] as int) + 0x1_0000 * (b[2] as int)
            + 0x100_0000 * (b[3] as int) + 0x1_0000_0000 * (b[4] as int)
            + 0x100_0000_0000 * (b[5] as int) + 0x1_0000_0000_0000 * (b[6] as int)
            + 0x100_0000_0000_0000 * (b[7] as int)
  {
    FourBytes(b[..4]);
    FourBytes(b[4..]);
    Joined4(b);
  }

  lemma FourBytes(b: Bytes)
    requires |b| == 4
    ensures FromLittleEndian(b)
         == b[0] as int + 0x100 * (b[1] as int) + 0x1_0000 * (b[2] as int) + 0x100_0000 * (b[3] as int)
  {
    var c := b[1..];
    var d := c[1..];
    var e := d[1..];
    assert FromLittleEndian(e) == e[0] + 256 * FromLittleEndian(e[1..]) && e[1..] == [];
    assert FromLittleEndian(d) == d[0] + 256 * FromLittleEndian(e);
    assert FromLittleEndian(c) == c[0] + 256 * FromLittleEndian(d);
  }

  lemma Joined4(b: Bytes)
    requires |b| == 8
    ensures FromLittleEndian(b) == FromLittleEndian(b[..4]) + 0x1_0000_0000 * FromLittleEndian(b[4..])
  {
    FromJoined(b[..4], b[4..]);
    assert b == b[..4] + b[4..];
    assert Values(4) == 0x1_0000_0000;
  }

  lemma {:induction false} FromJoined(a: Bytes, b: Bytes)
    ensures FromLittleEndian(a + b) == FromLittleEndian(a) + Values(|a|) * FromLittleEndian(b)
  {
    if a == [] {
      assert a + b == b;
    } else {
      FromJoined(a[1..], b);
      assert (a + b)[1..] == a[1..] + b;
      Rescaled(FromLittleEndian(a[1..]), Values(|a| - 1), FromLittleEndian(b));
    }
  }

  lemma Rescaled(x: nat, v: nat, y: nat)
    ensures 256 * (x + v * y) == 256 * x + (256 * v) * y
  {
  }

  /** The packed header on a 64-bit machine: flags, four bytes of padding, offset; then the payload. */
  function Encode(d: Datagram): (p: Bytes)
    ensures |p| == HEADER_BYTES + |d.data|
  {
    LittleEndian(d.flags, 4) + [0, 0, 0, 0] + LittleEndian(d.offset, 8) + d.data
  }

  function Decode(p: Bytes): Datagram
    requires |p| >= HEADER_BYTES
  {
    FromLittleEndianBound(p[..4]);
    FromLittleEndianBound(p[8..16]);
    assert Values(4) == WORD;
    assert Values(8) == 256 * (256 * (256 * (256 * Values(4))));
    Datagram(FromLittleEndian(p[..4]), FromLittleEndian(p[8..16]), p[HEADER_BYTES..])
  }

  /** The receiver reads back exactly the header and payload that the sender packed. */
  lemma MessageRoundTrip(d: Datagram)
    ensures Decode(Encode(d)) == d
  {
    assert Values(4) == WORD;
    assert Values(8) == 256 * (256 * (256 * (256 * Values(4))));
    LittleEndianRoundTrip(d.flags, 4);
    LittleEndianRoundTrip(d.offset, 8);
    var p := Encode(d);
    assert p[..4] == LittleEndian(d.flags, 4);
    assert p[8..16] == LittleEndian(d.offset, 8);
    assert p[HEADER_BYTES..] == d.data;
  }

  // ----- the sender

  function ChunkSize(left: nat): nat {
    if left < MAX_CHUNK then left else MAX_CHUNK
  }

  /** The chunk the sender makes of the bytes at `from`. */
  function ChunkAt(file: Bytes, from: nat): Datagram
    requires from < |file| < SIZE_WRAP
  {
    Datagram(0, from, file[from..from + ChunkSize(|file| - from)])
  }

  /** The chunks of a file from an offset on. */
  function Chunks(file: Bytes, from: nat): seq<Datagram>
    requires from <= |file| < SIZE_WRAP
    decreases |file| - from
  {
    if from == |file| then []
    else [ChunkAt(file, from)] + Chunks(file, from + ChunkSize(|file| - from))
  }

  /** The messages of a file: its chunks, packed. */
  function Messages(file: Bytes, from: nat): seq<Bytes>
    requires from <= |file| < SIZE_WRAP
    decreases |file| - from
  {
    if from == |file| then []
    else [Encode(ChunkAt(file, from))] + Messages(file, from + ChunkSize(|file| - from))
  }

  /** Reads a chunk behind the header in the shared buffer and packs the message. */
  method PackChunk(file: RamFile, offset: uint64, buffer: array<byte>, size: nat) returns (rc: Code, message: Bytes)
    requires offset < |file.content| <= file.maxFileSize && |file.content| < LONG_LIMIT
    requires size == ChunkSize(|file.content| - offset) <= buffer.Length < LONG_LIMIT
    modifies buffer
    ensures rc == SUCCESS && message == Encode(ChunkAt(file.content, offset))
  {
    rc := file.Read(offset, buffer, size);
    if rc != SUCCESS { return rc, []; }
    message := Encode(Datagram(0, offset, buffer[..size]));
  }

  /**
   * The sender's loop. `net` gives the outcome of each send; the first failure ends the
   * transfer. Reading never fails, and without a failing send every chunk goes out.
   */
  method SendFile(file: RamFile, net: nat -> Code) returns (rc: Code, sent: seq<Bytes>)
    requires |file.content| < LONG_LIMIT
    requires file.maxFileSize == if |file.content| == 0 then 10485760 else |file.content|
    ensures rc == SUCCESS ==> sent == Messages(file.content, 0)
    ensures rc != SUCCESS ==> sent < Messages(file.content, 0) && rc == net(|sent|)
    ensures forall k :: 0 <= k < |sent| ==> net(k) == SUCCESS
    ensures if rc == SUCCESS then |sent| == (|file.content| + 1023) / 1024
            else |sent| < (|file.content| + 1023) / 1024
    ensures forall k :: 0 <= k < |sent| ==> OnWire(file.content, k, sent[k])
  {
    ghost var c := file.content;
    var fileSize := |file.content|;
    var buffer := new byte[MAX_CHUNK];
    var fileOffset: uint64 := 0;
    sent := [];
    while fileOffset < fileSize
      invariant file.content == c && fileOffset <= fileSize == |c|
      invariant sent + Messages(c, fileOffset) == Messages(c, 0)
      invariant forall k :: 0 <= k < |sent| ==> net(k) == SUCCESS
    {
      MessagesStep(c, fileOffset, sent);
      PrefixOnWire(c, sent);
      var chunkSize := if fileSize - fileOffset < MAX_CHUNK then fileSize - fileOffset else MAX_CHUNK;
      var readError, message := PackChunk(file, fileOffset, buffer, chunkSize);
      if readError != SUCCESS { return readError, sent; }
      rc := net(|sent|);
      if rc != SUCCESS { return; }
      sent := sent + [message];
      fileOffset := fileOffset + chunkSize;
    }
    assert Messages(c, fileOffset) == [];
    PrefixOnWire(c, sent);
    rc := SUCCESS;
  }

  /**
   * Message `k` of a file as it goes over the wire: eight zero bytes, the little-endian offset
   * 1024 k, and the bytes of the file from there, up to 1024 of them.
   */
  ghost predicate OnWire(src: Bytes, k: nat, m: Bytes) {
    && 1024 * k < |src|
    && |m| == 16 + (if |src| - 1024 * k < 1024 then |src| - 1024 * k else 1024)
    && (forall i :: 0 <= i < 8 ==> m[i] == 0)
    && m[8] as int + 0x100 * (m[9] as int) + 0x1_0000 * (m[10] as int)
       + 0x100_0000 * (m[11] as int) + 0x1_0000_0000 * (m[12] as int)
       + 0x100_0000_0000 * (m[13] as int) + 0x1_0000_0000_0000 * (m[14] as int)
       + 0x100_0000_0000_0000 * (m[15] as int) == 1024 * k
    && m[16..] == src[1024 * k..1024 * k + (|m| - 16)]
  }

  lemma {:induction false} ZeroBytes(i: nat)
    ensures ByteOf(0, i) == 0
  {
    if i > 0 { ZeroBytes(i - 1); }
  }

  /** The packed form of a datagram, byte by byte. */
  lemma PackedBytes(d: Datagram)
    requires d.flags == 0
    ensures var m := Encode(d);
            && (forall i :: 0 <= i < 8 ==> m[i] == 0)
            && FromLittleEndian(m[8..16]) == d.offset && m[16..] == d.data
  {
    var m := Encode(d);
    forall i | 0 <= i < 4 ensures LittleEndian(0, 4)[i] == 0 { ZeroBytes(i); }
    assert m[..4] == LittleEndian(0, 4) && m[4..8] == [0, 0, 0, 0];
    forall i | 0 <= i < 8 ensures m[i] == 0 {
      assert m[i] == if i < 4 then m[..4][i] else m[4..8][i - 4];
    }
    MessageRoundTrip(d);
  }

  /** The sender's messages on the wire. */
  lemma MessageOnWire(src: Bytes, k: nat)
    requires |src| < SIZE_WRAP
    ensures |Messages(src, 0)| == (|src| + 1023) / 1024
    ensures k < |Messages(src, 0)| ==> OnWire(src, k, Messages(src, 0)[k])
  {
    MessagesAreChunks(src, 0, k);
    ChunksTile(src, 0, k);
    if k < |Messages(src, 0)| {
      var d := Chunks(src, 0)[k];
      ChunkFlags(src, 0, k);
      PackedBytes(d);
      ChunkOnWire(src, k, d, Encode(d));
    }
  }

  lemma {:induction false} ChunkFlags(file: Bytes, from: nat, k: nat)
    requires from <= |file| < SIZE_WRAP && k < |Chunks(file, from)|
    ensures Chunks(file, from)[k].flags == 0
    decreases |file| - from
  {
    if k > 0 { ChunkFlags(file, from + ChunkSize(|file| - from), k - 1); }
  }

  lemma ChunkOnWire(src: Bytes, k: nat, d: Datagram, m: Bytes)
    requires |src| < SIZE_WRAP && k < |Chunks(src, 0)| && d == Chunks(src, 0)[k]
    requires |m| == 16 + |d.data| && (forall i :: 0 <= i < 8 ==> m[i] == 0)
    requires FromLittleEndian(m[8..16]) == d.offset && m[16..] == d.data
    ensures OnWire(src, k, m)
  {
    ChunksTile(src, 0, k);
    EightBytes(m[8..16]);
  }

  /** Whatever prefix of the messages has been sent is on the wire in this form. */
  lemma PrefixOnWire(src: Bytes, sent: seq<Bytes>)
    requires |src| < SIZE_WRAP && sent <= Messages(src, 0)
    ensures |Messages(src, 0)| == (|src| + 1023) / 1024
    ensures forall k :: 0 <= k < |sent| ==> OnWire(src, k, sent[k])
  {
    MessageOnWire(src, 0);
    forall k | 0 <= k < |sent| ensures OnWire(src, k, sent[k]) {
      MessageOnWire(src, k);
      assert sent[k] == Messages(src, 0)[k];
    }
  }

  /** One more message sent, one message less to send. */
  lemma MessagesStep(file: Bytes, from: nat, sent: seq<Bytes>)
    requires from < |file| < SIZE_WRAP
    requires sent + Messages(file, from) == Messages(file, 0)
    ensures sent < Messages(file, 0)
    ensures sent + [Encode(ChunkAt(file, from))] + Messages(file, from + ChunkSize(|file| - from)) == Messages(file, 0)
  {
    var rest := Messages(file, from + ChunkSize(|file| - from));
    assert Messages(file, from) == [Encode(ChunkAt(file, from))] + rest;
    assert sent + ([Encode(ChunkAt(file, from))] + rest) == sent + [Encode(ChunkAt(file, from))] + rest;
  }

  /** The chunk that holds the byte at `p` is the one numbered `p / 1024`. */
  lemma {:induction false} ChunksTile(file: Bytes, from: nat, k: nat)
    requires from <= |file| < SIZE_WRAP && from % 1024 == 0
    ensures |Chunks(file, from)| == (|file| - from + 1023) / 1024
    ensures k < |Chunks(file, from)| ==>
              var c := Chunks(file, from)[k];
              && c.offset == from + 1024 * k
              && 1 <= |c.data| <= 1024
              && c.offset + |c.data| == (if k + 1 < |Chunks(file, from)| then c.offset + 1024 else |file|)
              && c.data == file[c.offset..c.offset + |c.data|]
    decreases |file| - from
  {
    if from < |file| {
      var next := from + ChunkSize(|file| - from);
      if next == |file| {
        assert Chunks(file, next) == [];
      } else {
        ChunksTile(file, next, if k > 0 then k - 1 else 0);
      }
    }
  }

  /** Every byte of the file is in exactly one chunk. */
  lemma ByteInOneChunk(file: Bytes, p: nat, k: nat)
    requires p < |file| < SIZE_WRAP
    ensures p / 1024 < |Chunks(file, 0)|
    ensures k < |Chunks(file, 0)| ==>
              var c := Chunks(file, 0)[k];
              c.offset <= p < c.offset + |c.data| <==> k == p / 1024
  {
    ChunksTile(file, 0, k);
  }

  // ----- the receiver

  /** The receiver writes a chunk that ends within its limit and ignores any other. */
  predicate Accepted(d: Datagram) {
    0 < |d.data| <= MAX_CHUNK && d.offset + |d.data| <= MAX_RECEIVED
  }

  function Received(file: Bytes, d: Datagram): Bytes {
    if Accepted(d) then Overwrite(file, d.offset, d.data) else file
  }

  /**
   * The server's callback. A message of at least 16 bytes carries the little-endian offset in
   * bytes 8 to 15 and the payload from byte 16 on. A payload of 1 to 1024 bytes that ends
   * within the first 1048576 bytes is written at the offset; any other message is ignored.
   */
  method OnDatagram(file: RamFile, message: Bytes)
    requires file.maxFileSize == 1048576 && |message| < LONG_LIMIT
    modifies file
    ensures |message| < 16 ==> file.content == old(file.content)
    ensures |message| >= 16 ==>
              var o := message[8] as int + 0x100 * (message[9] as int) + 0x1_0000 * (message[10] as int)
                 + 0x100_0000 * (message[11] as int) + 0x1_0000_0000 * (message[12] as int)
                 + 0x100_0000_0000 * (message[13] as int) + 0x1_0000_0000_0000 * (message[14] as int)
                 + 0x100_0000_0000_0000 * (message[15] as int);
              file.content == if 1 <= |message| - 16 <= 1024 && o + |message| - 16 <= 1048576
                              then Overwrite(old(file.content), o, message[16..]) else old(file.content)
    ensures file.content == if |message| < HEADER_BYTES then old(file.content)
                            else Received(old(file.content), Decode(message))
  {
    if |message| < HEADER_BYTES { return; }
    EightBytes(message[8..16]);
    var chunk := Decode(message);
    var fileDataSize := |message| - HEADER_BYTES;
    if fileDataSize > MAX_CHUNK { return; }
    var rc := file.Write(chunk.offset, chunk.data);
  }

  lemma {:induction false} MessagesAreChunks(file: Bytes, from: nat, k: nat)
    requires from <= |file| < SIZE_WRAP
    ensures |Messages(file, from)| == |Chunks(file, from)|
    ensures k < |Chunks(file, from)| ==> Messages(file, from)[k] == Encode(Chunks(file, from)[k])
    decreases |file| - from
  {
    if from < |file| {
      MessagesAreChunks(file, from + ChunkSize(|file| - from), if k > 0 then k - 1 else 0);
    }
  }

  /** What the receiver does with a message of the sender is what it does with its chunk. */
  lemma MessageDelivers(src: Bytes, file: Bytes, k: nat)
    requires |src| < SIZE_WRAP && k < |Chunks(src, 0)|
    ensures |Messages(src, 0)| == |Chunks(src, 0)| && |Messages(src, 0)[k]| >= HEADER_BYTES
    ensures Received(file, Decode(Messages(src, 0)[k])) == Received(file, Chunks(src, 0)[k])
  {
    MessagesAreChunks(src, 0, k);
    MessageRoundTrip(Chunks(src, 0)[k]);
  }

  /** The receiver's file after the deliveries of a trace. */
  function Deliver(initial: Bytes, trace: seq<Datagram>): Bytes {
    if trace == [] then initial
    else Received(Deliver(initial, trace[..|trace| - 1]), trace[|trace| - 1])
  }

  /** The datagrams in a series of messages; one too short for the header holds none. */
  function Unpacked(messages: seq<Bytes>): seq<Datagram> {
    if messages == [] then []
    else
      var rest, last := Unpacked(messages[..|messages| - 1]), messages[|messages| - 1];
      if |last| < HEADER_BYTES then rest else rest + [Decode(last)]
  }

  /** The receiver at work: the callback on one message after another. */
  method Receive(file: RamFile, messages: seq<Bytes>)
    requires file.maxFileSize == 1048576
    requires forall m :: m in messages ==> |m| < LONG_LIMIT
    modifies file
    ensures file.content == Deliver(old(file.content), Unpacked(messages))
  {
    assert messages[..0] == [];
    for i := 0 to |messages|
      invariant file.content == Deliver(old(file.content), Unpacked(messages[..i]))
    {
      OnDatagram(file, messages[i]);
      DeliverNext(old(file.content), messages[..i], messages[i]);
      assert messages[..i + 1] == messages[..i] + [messages[i]];
    }
    assert messages[..|messages|] == messages;
  }

  lemma DeliverNext(initial: Bytes, before: seq<Bytes>, message: Bytes)
    ensures Deliver(initial, Unpacked(before + [message]))
         == if |message| < HEADER_BYTES then Deliver(initial, Unpacked(before))
            else Received(Deliver(initial, Unpacked(before)), Decode(message))
  {
    var all := before + [message];
    assert all[..|all| - 1] == before;
    var trace := Unpacked(before);
    if |message| >= HEADER_BYTES {
      assert (trace + [Decode(message)])[..|trace|] == trace;
    }
  }

  /** Messages taken from the sender's unpack to a trace of its chunks, complete if they are. */
  lemma {:induction false} UnpackedTrace(src: Bytes, messages: seq<Bytes>)
    requires |src| < SIZE_WRAP && forall m :: m in messages ==> m in Messages(src, 0)
    ensures TraceOf(src, Unpacked(messages))
    ensures forall k :: 0 <= k < |Messages(src, 0)| && Messages(src, 0)[k] in messages ==>
              k < |Chunks(src, 0)| && Chunks(src, 0)[k] in Unpacked(messages)
  {
    MessagesAreChunks(src, 0, 0);
    if messages != [] {
      var n := |messages| - 1;
      assert messages == messages[..n] + [messages[n]];
      UnpackedTrace(src, messages[..n]);
      assert messages[n] in messages;
      var j :| 0 <= j < |Messages(src, 0)| && Messages(src, 0)[j] == messages[n];
      MessagesAreChunks(src, 0, j);
      MessageRoundTrip(Chunks(src, 0)[j]);
      forall k | 0 <= k < |Messages(src, 0)| && Messages(src, 0)[k] in messages
        ensures k < |Chunks(src, 0)| && Chunks(src, 0)[k] in Unpacked(messages)
      {
        MessagesAreChunks(src, 0, k);
        MessageRoundTrip(Chunks(src, 0)[k]);
        assert Messages(src, 0)[k] in messages[..n] || Messages(src, 0)[k] == messages[n];
      }
    }
  }

  /**
   * End to end: whatever of the sender's messages arrives, however often and in whatever
   * order, is delivered as chunks; once all have arrived the file is the source up to the
   * receiver's limit, followed by what it had beyond.
   */
  method ReceiveTransfer(file: RamFile, messages: seq<Bytes>, ghost src: Bytes)
    requires file.maxFileSize == 1048576 && |src| < SIZE_WRAP
    requires forall m :: m in messages ==> m in Messages(src, 0) && |m| < LONG_LIMIT
    modifies file
    ensures TraceOf(src, Unpacked(messages))
    ensures file.content == Deliver(old(file.content), Unpacked(messages))
    ensures (forall m :: m in Messages(src, 0) ==> m in messages) ==>
              file.content == src[..Reach(src)] + (if |old(file.content)| <= Reach(src) then []
                                                   else old(file.content)[Reach(src)..])
  {
    Receive(file, messages);
    UnpackedTrace(src, messages);
    if forall m :: m in Messages(src, 0) ==> m in messages {
      forall d | d in Chunks(src, 0) ensures d in Unpacked(messages) {
        var k :| 0 <= k < |Chunks(src, 0)| && Chunks(src, 0)[k] == d;
        MessagesAreChunks(src, 0, k);
        assert Messages(src, 0)[k] in messages;
      }
      CompleteDelivery(src, old(file.content), Unpacked(messages));
    }
  }

  /** A delivery trace of a file: its chunks, any of them any number of times in any order. */
  ghost predicate TraceOf(src: Bytes, trace: seq<Datagram>)
    requires |src| < SIZE_WRAP
  {
    forall d :: d in trace ==> d in Chunks(src, 0)
  }

  ghost predicate Covered(trace: seq<Datagram>, p: nat) {
    exists d :: d in trace && Accepted(d) && d.offset <= p < d.offset + |d.data|
  }

  /** The furthest end of an accepted chunk. */
  function FurthestEnd(trace: seq<Datagram>): nat {
    if trace == [] then 0
    else
      var d, rest := trace[|trace| - 1], FurthestEnd(trace[..|trace| - 1]);
      if Accepted(d) && rest < d.offset + |d.data| then d.offset + |d.data| else rest
  }

  /** A delivered chunk carries the bytes of the source at its offset. */
  lemma ChunkBytes(src: Bytes, d: Datagram, p: nat)
    requires |src| < SIZE_WRAP && d in Chunks(src, 0)
    ensures 0 < |d.data| && d.offset + |d.data| <= |src|
    ensures d.offset <= p < d.offset + |d.data| ==> d.data[p - d.offset] == src[p]
  {
    ChunkInFile(src, d);
    if d.offset <= p < d.offset + |d.data| { SliceAt(src, d.offset, |d.data|, p); }
  }

  lemma ChunkInFile(src: Bytes, d: Datagram)
    requires |src| < SIZE_WRAP && d in Chunks(src, 0)
    ensures 0 < |d.data| && d.offset + |d.data| <= |src| && d.data == src[d.offset..d.offset + |d.data|]
  {
    var k :| 0 <= k < |Chunks(src, 0)| && Chunks(src, 0)[k] == d;
    ChunkInside(src, k);
  }

  lemma ChunkInside(src: Bytes, k: nat)
    requires |src| < SIZE_WRAP && k < |Chunks(src, 0)|
    ensures var d := Chunks(src, 0)[k];
            0 < |d.data| && d.offset + |d.data| <= |src| && d.data == src[d.offset..d.offset + |d.data|]
  {
    ChunksTile(src, 0, k);
  }

  lemma SliceAt(s: Bytes, offset: nat, size: nat, p: nat)
    requires offset <= p < offset + size <= |s|
    ensures s[offset..offset + size][p - offset] == s[p]
  {
  }

  lemma CoveredStep(front: seq<Datagram>, d: Datagram, p: nat)
    ensures Covered(front + [d], p) <==>
            Covered(front, p) || (Accepted(d) && d.offset <= p < d.offset + |d.data|)
  {
    assert forall e :: e in front + [d] <==> e in front || e == d;
  }

  /**
   * Transfer safety: whatever was lost, repeated or reordered, every byte covered by a
   * delivered chunk is the source's, every other byte is the initial one (zero in a gap),
   * and the length is the larger of the initial one and the furthest chunk end.
   */
  lemma {:induction false} TransferSafety(src: Bytes, initial: Bytes, trace: seq<Datagram>, p: nat)
    requires |src| < SIZE_WRAP && TraceOf(src, trace)
    ensures var file := Deliver(initial, trace);
            && |file| == (if |initial| < FurthestEnd(trace) then FurthestEnd(trace) else |initial|)
            && (Covered(trace, p) ==> p < |src| && p < |file|)
            && Padded(file, p) == if Covered(trace, p) then src[p] else Padded(initial, p)
  {
    if trace != [] {
      var n := |trace| - 1;
      var front, d := trace[..n], trace[n];
      assert trace == front + [d];
      assert d in trace;
      TransferSafety(src, initial, front, p);
      OverwriteBytes(Deliver(initial, front), d.offset, d.data, p);
      ChunkBytes(src, d, p);
      CoveredStep(front, d, p);
    }
  }

  lemma {:induction false} FurthestEndBounds(trace: seq<Datagram>)
    ensures forall d :: d in trace && Accepted(d) ==> d.offset + |d.data| <= FurthestEnd(trace)
    ensures FurthestEnd(trace) > 0 ==>
              exists d :: d in trace && Accepted(d) && d.offset + |d.data| == FurthestEnd(trace)
  {
    if trace != [] {
      var n := |trace| - 1;
      FurthestEndBounds(trace[..n]);
      assert trace == trace[..n] + [trace[n]];
      assert forall d :: d in trace <==> d in trace[..n] || d == trace[n];
    }
  }

  /** Only the set of delivered chunks matters, not their order or number. */
  lemma DeliveryOrderIrrelevant(src: Bytes, initial: Bytes, trace: seq<Datagram>, trace': seq<Datagram>)
    requires |src| < SIZE_WRAP && TraceOf(src, trace)
    requires forall d :: d in trace <==> d in trace'
    ensures Deliver(initial, trace) == Deliver(initial, trace')
  {
    FurthestEndBounds(trace);
    FurthestEndBounds(trace');
    TransferSafety(src, initial, trace, 0);
    TransferSafety(src, initial, trace', 0);
    var a, b := Deliver(initial, trace), Deliver(initial, trace');
    forall p | 0 <= p < |a| ensures Padded(a, p) == Padded(b, p) {
      TransferSafety(src, initial, trace, p);
      TransferSafety(src, initial, trace', p);
      assert Covered(trace, p) <==> Covered(trace', p);
    }
    SameBytes(a, b);
  }

  /** The receiver ends with the source exactly when length and uncovered bytes already agree. */
  lemma TransferExact(src: Bytes, initial: Bytes, trace: seq<Datagram>)
    requires |src| < SIZE_WRAP && TraceOf(src, trace)
    ensures Deliver(initial, trace) == src <==>
              && |src| == (if |initial| < FurthestEnd(trace) then FurthestEnd(trace) else |initial|)
              && forall p :: 0 <= p < |src| && !Covered(trace, p) ==> Padded(initial, p) == src[p]
  {
    var file := Deliver(initial, trace);
    TransferSafety(src, initial, trace, 0);
    forall p | 0 <= p < |src|
      ensures Padded(file, p) == if Covered(trace, p) then src[p] else Padded(initial, p)
    {
      TransferSafety(src, initial, trace, p);
    }
    if |file| == |src| && forall p :: 0 <= p < |src| && !Covered(trace, p) ==> Padded(initial, p) == src[p] {
      SameBytes(file, src);
    }
    if file == src {
      forall p | 0 <= p < |src| && !Covered(trace, p) ensures Padded(initial, p) == src[p] {
        assert Padded(file, p) == src[p];
      }
    }
  }

  /** What the receiver accepts of a whole file. */
  function Reach(src: Bytes): nat {
    if |src| <= MAX_RECEIVED then |src| else MAX_RECEIVED
  }

  /** When every chunk arrives, exactly the bytes below the receiver's limit are covered. */
  lemma FullCoverage(src: Bytes, trace: seq<Datagram>, p: nat)
    requires |src| < SIZE_WRAP && TraceOf(src, trace)
    requires forall d :: d in Chunks(src, 0) ==> d in trace
    ensures Covered(trace, p) <==> p < Reach(src)
    ensures FurthestEnd(trace) == Reach(src)
  {
    FurthestEndBounds(trace);
    forall q: nat ensures Covered(trace, q) <==> q < Reach(src) { CoveredBelowReach(src, trace, q); }
    if FurthestEnd(trace) > 0 {
      var d :| d in trace && Accepted(d) && d.offset + |d.data| == FurthestEnd(trace);
      assert Covered(trace, FurthestEnd(trace) - 1);
    }
    if Reach(src) > 0 { assert Covered(trace, Reach(src) - 1); }
  }

  lemma CoveredBelowReach(src: Bytes, trace: seq<Datagram>, p: nat)
    requires |src| < SIZE_WRAP && TraceOf(src, trace)
    requires forall d :: d in Chunks(src, 0) ==> d in trace
    ensures Covered(trace, p) <==> p < Reach(src)
  {
    if Covered(trace, p) {
      var d :| d in trace && Accepted(d) && d.offset <= p < d.offset + |d.data|;
      var k :| 0 <= k < |Chunks(src, 0)| && Chunks(src, 0)[k] == d;
      ChunksTile(src, 0, k);
    } else if p < Reach(src) {
      LowChunkAccepted(src, p);
    }
  }

  lemma LowChunkAccepted(src: Bytes, p: nat)
    requires |src| < SIZE_WRAP && p < Reach(src)
    ensures p / 1024 < |Chunks(src, 0)|
    ensures var d := Chunks(src, 0)[p / 1024];
            Accepted(d) && d.offset <= p < d.offset + |d.data|
  {
    ByteInOneChunk(src, p, p / 1024);
    ChunksTile(src, 0, p / 1024);
  }

  /**
   * Transfer convergence: a trace that delivers every chunk at least once leaves exactly the
   * source up to the receiver's limit, followed by what the initial file had beyond it.
   */
  lemma CompleteDelivery(src: Bytes, initial: Bytes, trace: seq<Datagram>)
    requires |src| < SIZE_WRAP && TraceOf(src, trace)
    requires forall d :: d in Chunks(src, 0) ==> d in trace
    ensures Deliver(initial, trace)
         == src[..Reach(src)] + (if |initial| <= Reach(src) then [] else initial[Reach(src)..])
  {
    var r, file := Reach(src), Deliver(initial, trace);
    FullCoverage(src, trace, 0);
    TransferSafety(src, initial, trace, 0);
    forall p | 0 <= p < |file|
      ensures Padded(file, p) == if p < r then src[p] else Padded(initial, p)
    {
      FullCoverage(src, trace, p);
      TransferSafety(src, initial, trace, p);
    }
    Joined(file, src, initial, r);
  }

  lemma Joined(file: Bytes, src: Bytes, initial: Bytes, r: nat)
    requires r <= |src| && |file| == if |initial| < r then r else |initial|
    requires forall p :: 0 <= p < |file| ==> Padded(file, p) == if p < r then src[p] else Padded(initial, p)
    ensures file == src[..r] + (if |initial| <= r then [] else initial[r..])
  {
    forall p | 0 <= p < |file|
      ensures file[p] == if p < r then src[p] else initial[p]
    {
      assert Padded(file, p) == if p < r then src[p] else Padded(initial, p);
    }
    assert file[..r] == src[..r];
    if |initial| > r { assert file[r..] == initial[r..]; }
    assert file == file[..r] + file[r..];
  }

  /**
   * With everything delivered the files agree exactly when the receiver's file was not
   * longer than the source and, for a source over the limit, already agreed beyond it.
   */
  lemma TransferConverges(src: Bytes, initial: Bytes, trace: seq<Datagram>)
    requires |src| < SIZE_WRAP && TraceOf(src, trace)
    requires forall d :: d in Chunks(src, 0) ==> d in trace
    ensures Deliver(initial, trace) == src <==>
              && |initial| <= |src|
              && (|src| > 1048576 ==>
                    |initial| == |src| && initial[1048576..] == src[1048576..])
  {
    CompleteDelivery(src, initial, trace);
    var r, file := Reach(src), Deliver(initial, trace);
    if |initial| > r {
      assert file[r..] == initial[r..];
    }
    if |src| > MAX_RECEIVED && |initial| == |src| && initial[r..] == src[r..] {
      assert src == src[..r] + src[r..];
    }
  }
}
