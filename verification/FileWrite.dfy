/** The chunked write handler: however the payload is split between the receive buffer and
    the sender's message, and into chunks, the file sees one positional write. */
module FileWrite {
  import opened Types
  import Messages
  import Wire

  const DEFAULT_CHUNK: nat := MAX_MESSAGE_SIZE - 128

  // ------------------------------------------------ one positional write

  function Padded(file: Bytes, size: nat): (r: Bytes)
    ensures |r| >= size
  {
    if |file| < size then file + Zeros(size - |file|) else file
  }

  /** pwrite: overwrite from `offset`, filling a gap with zeros; writing nothing does nothing. */
  function WriteAt(file: Bytes, offset: nat, data: Bytes): Bytes {
    if data == [] then file
    else
      var base := Padded(file, offset + |data|);
      base[..offset] + data + base[offset + |data|..]
  }

  /** What a reader finds afterwards. */
  lemma WriteThenRead(file: Bytes, offset: nat, data: Bytes, i: nat)
    requires data != []
    ensures var after := WriteAt(file, offset, data);
            && |after| == (if |file| < offset + |data| then offset + |data| else |file|)
            && (i < |after| ==>
                  after[i] == if offset <= i < offset + |data| then data[i - offset]
                              else if i < |file| then file[i] else 0)
  {}

  lemma WriteNothing(file: Bytes, offset: nat)
    ensures WriteAt(file, offset, []) == file
  {}

  /** Two adjacent writes are one. */
  lemma WritesJoin(file: Bytes, offset: nat, a: Bytes, b: Bytes)
    ensures WriteAt(WriteAt(file, offset, a), offset + |a|, b) == WriteAt(file, offset, a + b)
  {
    hide *;
    WriteNothing(file, offset);
    WriteNothing(WriteAt(file, offset, a), offset + |a|);
    if a == [] {
      assert a + b == b;
    } else if b == [] {
      assert a + b == a;
    } else {
      var once, twice := WriteAt(file, offset, a + b), WriteAt(WriteAt(file, offset, a), offset + |a|, b);
      WriteThenRead(file, offset, a + b, 0);
      WriteThenRead(file, offset, a, 0);
      WriteThenRead(WriteAt(file, offset, a), offset + |a|, b, 0);
      forall i | 0 <= i < |once| ensures once[i] == twice[i] {
        WriteThenRead(file, offset, a + b, i);
        WriteThenRead(file, offset, a, i);
        WriteThenRead(WriteAt(file, offset, a), offset + |a|, b, i);
      }
    }
  }

  // ------------------------------------------------ the handler

  /** The server's file. */
  class RemoteFile {
    var content: Bytes

    constructor (content: Bytes)
      ensures this.content == content
    {
      this.content := content;
    }

    /** Twrite: the server takes the first `verdict` bytes, or refuses with a negative code. */
    method Write(offset: nat, data: Bytes, verdict: int) returns (rc: int)
      requires verdict <= |data|
      modifies this
      ensures rc == verdict
      ensures content == if verdict < 0 then old(content) else WriteAt(old(content), offset, data[..verdict])
    {
      rc := verdict;
      if verdict >= 0 {
        content := WriteAt(content, offset, data[..verdict]);
      }
    }
  }

  /** The parts of an open file's OCB a write uses: sequential offset, I/O unit, local size. */
  class OpenFile {
    var offset: nat
    var iounit: nat
    var nbytes: nat

    constructor (offset: nat, iounit: nat)
      ensures this.offset == offset && this.iounit == iounit
    {
      this.offset, this.iounit, nbytes := offset, iounit, 0;
    }
  }

  /** write(), pwrite() with its offset, or an extended type the handler does not know. */
  datatype XType = Sequential | At(offset: nat) | Unsupported

  /** A write message: `payload` stands between a header and the `rest` of the sender's message,
      of which `received` bytes have arrived in the receive buffer. */
  datatype WriteMsg = WriteMsg(header: Bytes, payload: Bytes, rest: Bytes, received: nat, xtype: XType)

  function SenderMessage(msg: WriteMsg): Bytes {
    msg.header + msg.payload + msg.rest
  }

  /** What has arrived. */
  function ReceiveBuffer(msg: WriteMsg): Bytes {
    SenderMessage(msg)[..Min(msg.received, |SenderMessage(msg)|)]
  }

  /** How the outside answers in the n-th iteration: what msgread delivers of a request at an
      offset of the sender's message, and what the server makes of a count. */
  datatype Env = Env(delivers: (nat, nat, nat) -> int, accepts: (nat, nat) -> int)

  /** msgread delivers 0..requested bytes or fails; the server takes 0..count bytes or fails. */
  ghost predicate Plausible(env: Env) {
    && (forall n: nat, offset: nat, want: nat :: env.delivers(n, offset, want) <= want)
    && (forall n: nat, count: nat :: env.accepts(n, count) <= count)
  }

  /** And msgread does not come back empty-handed from within the payload. */
  ghost predicate Cooperates(env: Env, msg: WriteMsg) {
    && Plausible(env)
    && forall n: nat, offset: nat, want: nat ::
         want > 0 && |msg.header| <= offset && offset + want <= |msg.header + msg.payload| ==>
           env.delivers(n, offset, want) != 0
  }

  function InlineBytes(msg: WriteMsg): nat {
    Min(if msg.received > |msg.header| then msg.received - |msg.header| else 0, |msg.payload|)
  }

  /** The payload bytes taken inline are those that have arrived, no fewer and no more. */
  lemma InlineIffReceived(msg: WriteMsg, i: nat)
    requires i < |msg.payload|
    ensures i < InlineBytes(msg) <==> |msg.header| + i < |ReceiveBuffer(msg)|
    ensures i < InlineBytes(msg) ==> ReceiveBuffer(msg)[|msg.header| + i] == msg.payload[i]
    ensures InlineBytes(msg) > 0 ==> |msg.header| + InlineBytes(msg) <= msg.received
    ensures |ReceiveBuffer(msg)| <= msg.received
    ensures msg.received <= |msg.header| + |msg.payload| + |msg.rest| ==> |ReceiveBuffer(msg)| == msg.received
  {}

  function ChunkSize(iounit: nat): nat {
    if iounit > 0 then iounit else DEFAULT_CHUNK
  }

  /** 128 KiB less 128 bytes unless the server named an I/O unit. */
  lemma ChunkSizes(iounit: nat)
    ensures ChunkSize(0) == 130944
    ensures iounit > 0 ==> ChunkSize(iounit) == iounit
  {}

  /** resmgr_msgread of `count` bytes at `offset` of the sender's message. */
  function SenderBytes(msg: WriteMsg, offset: nat, count: nat): Bytes
    requires offset + count <= |SenderMessage(msg)|
  {
    SenderMessage(msg)[offset..offset + count]
  }

  /** How much of an iteration comes from the inline bytes. */
  function InlinePart(msg: WriteMsg, total: nat, toWrite: nat): nat {
    if total < InlineBytes(msg) then Min(InlineBytes(msg) - total, toWrite) else 0
  }

  /** `copied` of one iteration when msgread delivers `delivered` bytes. */
  function Copied(msg: WriteMsg, total: nat, toWrite: nat, delivered: nat): nat {
    var inlinePart := InlinePart(msg, total, toWrite);
    if inlinePart < toWrite then inlinePart + delivered else inlinePart
  }

  /** What msgread delivers in iteration n, or 0 if it is not asked. */
  function Delivered(msg: WriteMsg, env: Env, n: nat, total: nat, toWrite: nat): int {
    var inlinePart := InlinePart(msg, total, toWrite);
    if inlinePart < toWrite then env.delivers(n, |msg.header| + total + inlinePart, toWrite - inlinePart) else 0
  }

  /** An iteration asks msgread for what has not arrived of its stretch, from the first missing
      byte on, and for nothing else. */
  lemma AsksForTheMissing(msg: WriteMsg, env: Env, n: nat, total: nat, toWrite: nat)
    requires total + toWrite <= |msg.payload|
    ensures var arrived, from := |ReceiveBuffer(msg)|, |msg.header| + total;
            var delivered := Delivered(msg, env, n, total, toWrite);
            if arrived <= from then
              && (toWrite > 0 ==> delivered == env.delivers(n, from, toWrite))
              && (toWrite > 0 && delivered >= 0 ==> Copied(msg, total, toWrite, delivered) == delivered)
            else if arrived < from + toWrite then
              && delivered == env.delivers(n, arrived, from + toWrite - arrived)
              && (delivered >= 0 ==> Copied(msg, total, toWrite, delivered) == arrived - from + delivered)
            else delivered == 0 && Copied(msg, total, toWrite, 0) == toWrite
  {}

  lemma Stretches(msg: WriteMsg, from: nat, count: nat)
    requires from + count <= |msg.payload|
    ensures |msg.header| + from + count <= |SenderMessage(msg)|
    ensures SenderBytes(msg, |msg.header| + from, count) == msg.payload[from..from + count]
    ensures from + count <= InlineBytes(msg) && count > 0 ==>
              && |msg.header| + from + count <= |ReceiveBuffer(msg)|
              && ReceiveBuffer(msg)[|msg.header| + from..|msg.header| + from + count] == msg.payload[from..from + count]
  {}

  /** A sender that cooperates gives every iteration something. */
  lemma SomethingCopied(msg: WriteMsg, env: Env, n: nat, total: nat, toWrite: nat)
    requires Cooperates(env, msg) && toWrite > 0 && total + toWrite <= |msg.payload|
    ensures var delivered := Delivered(msg, env, n, total, toWrite);
            delivered >= 0 ==> Copied(msg, total, toWrite, delivered) > 0
  {
    hide InlineBytes;
  }

  lemma IterationParts(msg: WriteMsg, env: Env, n: nat, total: nat, toWrite: nat)
    requires Plausible(env)
    ensures var part, delivered := InlinePart(msg, total, toWrite), Delivered(msg, env, n, total, toWrite);
            && part == (if total < InlineBytes(msg) then Min(InlineBytes(msg) - total, toWrite) else 0)
            && delivered == (if part < toWrite then env.delivers(n, |msg.header| + total + part, toWrite - part) else 0)
            && delivered <= toWrite - part
            && (delivered >= 0 ==> Copied(msg, total, toWrite, delivered) == part + delivered)
  {
    hide InlineBytes;
  }

  lemma JoinStretches(s: Bytes, from: nat, a: nat, b: nat)
    requires from + a + b <= |s|
    ensures s[from..from + a] + s[from + a..from + a + b] == s[from..from + (a + b)]
  {}

  /** One iteration's buffer: inline bytes first, then the sender's message. */
  method FillBuffer(msg: WriteMsg, total: nat, toWrite: nat, n: nat, env: Env) returns (err: int, buf: Bytes)
    requires Plausible(env) && toWrite > 0 && total + toWrite <= |msg.payload|
    ensures var delivered := Delivered(msg, env, n, total, toWrite);
            && err == (if delivered < 0 then delivered else 0)
            && (err == 0 ==> |buf| == Copied(msg, total, toWrite, delivered) <= toWrite)
    ensures err == 0 ==> |buf| <= toWrite && buf == msg.payload[total..total + |buf|]
    ensures err == 0 && Cooperates(env, msg) ==> |buf| > 0
  {
    hide SenderMessage, ReceiveBuffer, InlineBytes, Cooperates, Plausible, InlinePart, Copied, Delivered, SenderBytes;
    IterationParts(msg, env, n, total, toWrite);
    if Cooperates(env, msg) { SomethingCopied(msg, env, n, total, toWrite); }
    var inlineBytes := InlineBytes(msg);
    var inlineData := |msg.header|;
    var copied;
    copied, buf := 0, [];
    if total < inlineBytes {
      copied := Min(inlineBytes - total, toWrite);
      Stretches(msg, total, copied);
      buf := ReceiveBuffer(msg)[inlineData + total..inlineData + total + copied];
    }
    if copied < toWrite {
      var overflowOffset := |msg.header| + total + copied;
      var bytesRead := env.delivers(n, overflowOffset, toWrite - copied);
      if bytesRead < 0 {
        return bytesRead, buf;
      }
      Stretches(msg, total + copied, bytesRead);
      JoinStretches(msg.payload, total, copied, bytesRead);
      buf := buf + SenderBytes(msg, overflowOffset, bytesRead);
    }
    return 0, buf;
  }

  /** The bytes of one Twrite and how many of them the server took. */
  datatype Chunk = Chunk(data: Bytes, written: nat)

  function Total(chunks: seq<Chunk>): nat {
    if chunks == [] then 0 else Total(chunks[..|chunks| - 1]) + chunks[|chunks| - 1].written
  }

  /** c is what iteration n makes of the payload from position `from`, msgread and the server
      answering as they do. */
  ghost predicate ChunkAt(msg: WriteMsg, env: Env, size: nat, n: nat, from: nat, c: Chunk) {
    && from < |msg.payload|
    && var toWrite := Min(|msg.payload| - from, size);
    && var delivered := Delivered(msg, env, n, from, toWrite);
    && delivered >= 0 && |c.data| == Copied(msg, from, toWrite, delivered) <= toWrite
    && c.data == msg.payload[from..from + |c.data|]
    && c.written == env.accepts(n, |c.data|) <= |c.data|
  }

  /** Iteration n fails with the code of msgread or of the server. */
  ghost predicate ChunkFails(msg: WriteMsg, env: Env, size: nat, n: nat, from: nat, code: int) {
    && code < 0 && from < |msg.payload|
    && var toWrite := Min(|msg.payload| - from, size);
    && var delivered := Delivered(msg, env, n, from, toWrite);
    && code == if delivered < 0 then delivered else env.accepts(n, Copied(msg, from, toWrite, delivered))
  }

  /** One iteration: fill the buffer and write it behind what is written already. */
  method WriteChunk(file: RemoteFile, msg: WriteMsg, env: Env, n: nat, offset: nat, total: nat, chunkSize: nat)
    returns (rc: int, chunk: Chunk)
    requires Plausible(env) && chunkSize > 0 && total < |msg.payload|
    modifies file
    ensures rc <= 0
    ensures rc < 0 ==> ChunkFails(msg, env, chunkSize, n, total, rc) && file.content == old(file.content)
    ensures rc == 0 ==>
              && ChunkAt(msg, env, chunkSize, n, total, chunk)
              && file.content == WriteAt(old(file.content), offset + total, chunk.data[..chunk.written])
    ensures rc == 0 && Cooperates(env, msg) ==> |chunk.data| > 0
  {
    hide WriteAt, InlineBytes, Cooperates, Copied, InlinePart, Delivered;
    chunk := Chunk([], 0);
    var toWrite := Min(|msg.payload| - total, chunkSize);
    var err, buf := FillBuffer(msg, total, toWrite, n, env);
    if err < 0 {
      return err, chunk;
    }
    var written := file.Write(offset + total, buf, env.accepts(n, |buf|));
    if written < 0 {
      return written, chunk;
    }
    return 0, Chunk(buf, written);
  }

  /** The chunks of a write so far, one after the other, all but possibly the last taken whole. */
  ghost predicate ChunksOk(msg: WriteMsg, env: Env, size: nat, chunks: seq<Chunk>, total: nat) {
    && total == Total(chunks) <= |msg.payload|
    && (forall i :: 0 <= i < |chunks| ==>
          chunks[i].data != [] && ChunkAt(msg, env, size, i, Total(chunks[..i]), chunks[i]))
    && (forall i :: 0 <= i < |chunks| - 1 ==> chunks[i].written == |chunks[i].data|)
  }

  /** The server took less than it was given. */
  ghost predicate ShortEnd(chunks: seq<Chunk>) {
    chunks != [] && chunks[|chunks| - 1].written < |chunks[|chunks| - 1].data|
  }

  /** How a write ends: with everything written, after a short write of the server, or with
      the code of the chunk that failed. */
  ghost predicate WriteOutcome(msg: WriteMsg, env: Env, size: nat, rc: int, total: nat, chunks: seq<Chunk>) {
    && ChunksOk(msg, env, size, chunks, total)
    && if rc == EOK then total == |msg.payload| || ShortEnd(chunks)
       else !ShortEnd(chunks) && ChunkFails(msg, env, size, |chunks|, total, -rc)
  }

  lemma ChunksSnoc(msg: WriteMsg, env: Env, size: nat, chunks: seq<Chunk>, total: nat, c: Chunk)
    requires ChunksOk(msg, env, size, chunks, total) && !ShortEnd(chunks)
    requires c.data != [] && ChunkAt(msg, env, size, |chunks|, total, c)
    ensures ChunksOk(msg, env, size, chunks + [c], total + c.written)
    ensures ShortEnd(chunks + [c]) <==> c.written < |c.data|
  {
    hide ChunkAt;
    var all := chunks + [c];
    ChunkInside(msg, env, size, |chunks|, total, c);
    TotalSnoc(chunks, c);
    LastTaken(msg, env, size, chunks, total);
    hide Total;
    forall i | 0 <= i < |all| ensures all[i].data != [] && ChunkAt(msg, env, size, i, Total(all[..i]), all[i]) {
      assert all[..i] == chunks[..i];
      assert i == |chunks| ==> chunks[..i] == chunks;
    }
  }

  lemma TotalSnoc(chunks: seq<Chunk>, c: Chunk)
    ensures Total(chunks + [c]) == Total(chunks) + c.written
  {
    assert (chunks + [c])[..|chunks|] == chunks;
  }

  lemma LastTaken(msg: WriteMsg, env: Env, size: nat, chunks: seq<Chunk>, total: nat)
    requires ChunksOk(msg, env, size, chunks, total) && !ShortEnd(chunks)
    ensures forall i :: 0 <= i < |chunks| ==> chunks[i].written == |chunks[i].data|
  {
    hide ChunkAt, Total;
    if chunks != [] {
      var last := |chunks| - 1;
      ChunkInside(msg, env, size, last, Total(chunks[..last]), chunks[last]);
    }
  }

  lemma ChunkInside(msg: WriteMsg, env: Env, size: nat, n: nat, from: nat, c: Chunk)
    requires ChunkAt(msg, env, size, n, from, c)
    ensures c.written <= |c.data| && |c.data| <= size && from + |c.data| <= |msg.payload|
    ensures c.data == msg.payload[from..from + |c.data|]
  {}

  lemma ChunkIsUnique(msg: WriteMsg, env: Env, size: nat, n: nat, from: nat, c: Chunk, d: Chunk, code: int)
    requires ChunkAt(msg, env, size, n, from, c)
    ensures ChunkAt(msg, env, size, n, from, d) ==> c == d
    ensures !ChunkFails(msg, env, size, n, from, code)
  {}

  /** Every chunk a write can make fits the transport's buffer, header included, exactly if the
      server's I/O unit is 0, which stands for the default, or at most 131049. */
  lemma ChunksFitIff(iounit: nat)
    ensures (forall tag: u16, fid: u32, offset: u64, data: Bytes :: |data| <= ChunkSize(iounit) ==>
               |Wire.Encode(Messages.Twrite(tag, fid, offset, data))| <= MAX_MESSAGE_SIZE) <==>
            iounit <= MAX_MESSAGE_SIZE - 23
  {
    hide Wire.Encode;
    forall tag: u16, fid: u32, offset: u64, data: Bytes
      ensures |Wire.Encode(Messages.Twrite(tag, fid, offset, data))| <= MAX_MESSAGE_SIZE <==>
              |data| <= MAX_MESSAGE_SIZE - 23
    {
      Wire.TwriteFitsIff(Messages.Twrite(tag, fid, offset, data));
    }
    var largest := Zeros(ChunkSize(iounit));
    assert |Wire.Encode(Messages.Twrite(0, 0, 0, largest))| <= MAX_MESSAGE_SIZE <==>
           |largest| <= MAX_MESSAGE_SIZE - 23;
  }

  /** The chunks made are the same as far as both go. */
  lemma {:induction false} ChunksAgree(
    msg: WriteMsg, env: Env, size: nat, a: seq<Chunk>, s: nat, b: seq<Chunk>, t: nat, n: nat)
    requires ChunksOk(msg, env, size, a, s) && ChunksOk(msg, env, size, b, t) && n <= |a| && n <= |b|
    ensures a[..n] == b[..n]
  {
    hide *;
    if n > 0 {
      ChunksAgree(msg, env, size, a, s, b, t, n - 1);
      ChunkOf(msg, env, size, a, s, n - 1);
      ChunkOf(msg, env, size, b, t, n - 1);
      ChunkIsUnique(msg, env, size, n - 1, Total(a[..n - 1]), a[n - 1], b[n - 1], -1);
      assert a[..n] == a[..n - 1] + [a[n - 1]];
      assert b[..n] == b[..n - 1] + [b[n - 1]];
    }
  }

  lemma ChunkOf(msg: WriteMsg, env: Env, size: nat, chunks: seq<Chunk>, total: nat, i: nat)
    requires ChunksOk(msg, env, size, chunks, total) && i < |chunks|
    ensures ChunkAt(msg, env, size, i, Total(chunks[..i]), chunks[i])
  {}

  /** The answers of msgread and server determine how a write ends. */
  lemma OutcomeIsUnique(
    msg: WriteMsg, env: Env, size: nat, rc: int, total: nat, chunks: seq<Chunk>,
    rc': int, total': nat, chunks': seq<Chunk>)
    requires WriteOutcome(msg, env, size, rc, total, chunks) && WriteOutcome(msg, env, size, rc', total', chunks')
    ensures chunks == chunks' && total == total' && rc == rc'
  {
    hide ChunkAt, ChunkFails;
    var n := Min(|chunks|, |chunks'|);
    ChunksAgree(msg, env, size, chunks, total, chunks', total', n);
    NotLonger(msg, env, size, rc, total, chunks, total', chunks');
    NotLonger(msg, env, size, rc', total', chunks', total, chunks);
    assert chunks[..n] == chunks && chunks'[..n] == chunks';
    CodesAgree(msg, env, size, |chunks|, total, -rc, -rc');
    CodesAgree(msg, env, size, |chunks|, total, -rc', -rc);
  }

  lemma CodesAgree(msg: WriteMsg, env: Env, size: nat, n: nat, from: nat, code: int, code': int)
    ensures ChunkFails(msg, env, size, n, from, code) && ChunkFails(msg, env, size, n, from, code') ==> code == code'
    ensures ChunkFails(msg, env, size, n, from, code) ==> from < |msg.payload|
  {}

  /** A write that has ended has no further chunk. */
  lemma NotLonger(
    msg: WriteMsg, env: Env, size: nat, rc: int, total: nat, chunks: seq<Chunk>, total': nat, chunks': seq<Chunk>)
    requires WriteOutcome(msg, env, size, rc, total, chunks) && ChunksOk(msg, env, size, chunks', total')
    requires chunks'[..Min(|chunks|, |chunks'|)] == chunks[..Min(|chunks|, |chunks'|)]
    ensures |chunks'| <= |chunks|
  {
    hide ChunkAt, ChunkFails;
    var n := |chunks|;
    if |chunks'| > n {
      assert chunks'[..n] == chunks[..n] == chunks;
      assert ChunkAt(msg, env, size, n, Total(chunks'[..n]), chunks'[n]);
      ChunkIsUnique(msg, env, size, n, total, chunks'[n], chunks'[n], -rc);
      Nonempty(msg, env, size, n, total, chunks'[n]);
      LastOf(chunks, chunks');
    }
  }

  /** The end of a prefix is short only if the chunk there is. */
  lemma LastOf(chunks: seq<Chunk>, chunks': seq<Chunk>)
    requires |chunks| < |chunks'| && chunks'[..|chunks|] == chunks
    requires forall i :: 0 <= i < |chunks'| - 1 ==> chunks'[i].written == |chunks'[i].data|
    ensures !ShortEnd(chunks)
  {}

  lemma Nonempty(msg: WriteMsg, env: Env, size: nat, n: nat, from: nat, c: Chunk)
    ensures ChunkAt(msg, env, size, n, from, c) ==> from < |msg.payload|
  {}

  /** If the server takes what it is given and msgread does not fail, everything is written. */
  lemma TakersWriteAll(msg: WriteMsg, env: Env, size: nat, rc: int, total: nat, chunks: seq<Chunk>)
    requires WriteOutcome(msg, env, size, rc, total, chunks)
    requires forall n: nat, count: nat :: env.accepts(n, count) == count
    requires forall n: nat, offset: nat, want: nat :: env.delivers(n, offset, want) >= 0
    ensures rc == EOK && total == |msg.payload|
  {
    hide Copied, InlinePart, InlineBytes;
    if chunks != [] {
      var last := |chunks| - 1;
      assert ChunkAt(msg, env, size, last, Total(chunks[..last]), chunks[last]);
    }
  }

  lemma AcceptedPrefix(file: Bytes, offset: nat, payload: Bytes, total: nat, count: nat, written: nat)
    requires written <= count && total + count <= |payload|
    ensures var buf := payload[total..total + count];
            WriteAt(WriteAt(file, offset, payload[..total]), offset + total, buf[..written]) ==
            WriteAt(file, offset, payload[..total + written])
  {
    hide *;
    var buf := payload[total..total + count];
    WritesJoin(file, offset, payload[..total], buf[..written]);
    assert payload[..total] + buf[..written] == payload[..total + written];
  }

  /** Main result: the server's file is the old one with the first `total` payload bytes written
      at the offset; `total` is everything, or ends on a short answer of the server, or on the
      failure that is returned; the OCB moves on success only. */
  method IoWrite(ocb: OpenFile, file: RemoteFile, msg: WriteMsg, env: Env)
    returns (rc: int, total: nat, chunks: seq<Chunk>)
    requires Cooperates(env, msg)
    modifies ocb, file
    ensures rc >= EOK && total <= |msg.payload| && ocb.iounit == old(ocb.iounit)
    ensures if msg.payload != [] && msg.xtype.Unsupported? then rc == ENOSYS && total == 0
            else WriteOutcome(msg, env, ChunkSize(ocb.iounit), rc, total, chunks)
    ensures file.content ==
            WriteAt(old(file.content), if msg.xtype.At? then msg.xtype.offset else old(ocb.offset),
                    msg.payload[..total])
    ensures rc == EOK ==> ocb.offset == if msg.xtype.At? then old(ocb.offset) else old(ocb.offset) + total
    ensures rc == EOK && msg.payload != [] ==>
              var end := (if msg.xtype.At? then msg.xtype.offset else old(ocb.offset)) + total;
              ocb.nbytes == if end > old(ocb.nbytes) then end else old(ocb.nbytes)
    ensures rc != EOK ==> unchanged(ocb)
  {
    hide WriteAt, ChunksOk, ShortEnd, Cooperates, Plausible, ChunkAt, ChunkFails;
    var nbytes := |msg.payload|;
    total, chunks := 0, [];
    WriteNothing(file.content, if msg.xtype.At? then msg.xtype.offset else ocb.offset);
    CooperatesIsPlausible(env, msg);
    NoChunks(msg, env, ChunkSize(ocb.iounit));
    if nbytes == 0 {
      return EOK, 0, [];
    }
    var offset := ocb.offset;
    if msg.xtype.At? {
      offset := msg.xtype.offset;
    } else if !msg.xtype.Sequential? {
      return ENOSYS, 0, [];
    }
    var chunkSize := ChunkSize(ocb.iounit);

    while total < nbytes
      invariant total <= nbytes && unchanged(ocb)
      invariant file.content == WriteAt(old(file.content), offset, msg.payload[..total])
      invariant ChunksOk(msg, env, chunkSize, chunks, total) && !ShortEnd(chunks)
      decreases nbytes - total
    {
      var err, chunk := WriteChunk(file, msg, env, |chunks|, offset, total, chunkSize);
      if err < 0 {
        return -err, total, chunks;
      }
      ChunkInside(msg, env, chunkSize, |chunks|, total, chunk);
      AcceptedPrefix(old(file.content), offset, msg.payload, total, |chunk.data|, chunk.written);
      ChunksSnoc(msg, env, chunkSize, chunks, total, chunk);
      chunks := chunks + [chunk];
      total := total + chunk.written;
      if chunk.written < |chunk.data| {
        break;
      }
    }

    if !msg.xtype.At? {
      ocb.offset := ocb.offset + total;
    }
    if offset + total > ocb.nbytes {
      ocb.nbytes := offset + total;
    }
    return EOK, total, chunks;
  }

  lemma NoChunks(msg: WriteMsg, env: Env, size: nat)
    ensures ChunksOk(msg, env, size, [], 0) && !ShortEnd([])
  {}

  lemma CooperatesIsPlausible(env: Env, msg: WriteMsg)
    requires Cooperates(env, msg)
    ensures Plausible(env)
  {}

  // ------------------------------------------------ several writes on one open file

  datatype Written = Written(total: nat, chunks: seq<Chunk>)

  predicate Inside(msgs: seq<WriteMsg>, done: seq<Written>) {
    |done| <= |msgs| && forall i :: 0 <= i < |done| ==> done[i].total <= |msgs[i].payload|
  }

  /** The bytes acknowledged by a series of writes, in order. */
  function Acknowledged(msgs: seq<WriteMsg>, done: seq<Written>): Bytes
    requires Inside(msgs, done)
    decreases |done|
  {
    if done == [] then []
    else
      var n := |done| - 1;
      Acknowledged(msgs, done[..n]) + msgs[n].payload[..done[n].total]
  }

  lemma {:induction false} AcknowledgedSnoc(msgs: seq<WriteMsg>, done: seq<Written>, w: Written)
    requires Inside(msgs, done) && |done| < |msgs| && w.total <= |msgs[|done|].payload|
    ensures Inside(msgs, done + [w])
    ensures Acknowledged(msgs, done + [w]) == Acknowledged(msgs, done) + msgs[|done|].payload[..w.total]
  {
    assert (done + [w])[..|done|] == done;
  }

  /** Main result: a series of write() calls, each with its own split between receive buffer and
      sender and its own answers from outside, leaves what one positional write of all
      acknowledged bytes would, short writes included, and the offset follows; it stops early
      only on a call that fails, which may have written a prefix. */
  method WriteSeries(content: Bytes, offset: nat, iounit: nat, msgs: seq<WriteMsg>, envs: seq<Env>)
    returns (rc: int, done: seq<Written>, last: Written, after: Bytes, end: nat)
    requires |envs| == |msgs| && forall i :: 0 <= i < |msgs| ==> Cooperates(envs[i], msgs[i])
    requires forall msg <- msgs :: msg.xtype.Sequential?
    ensures Inside(msgs, done) && (rc == EOK <==> |done| == |msgs|)
    ensures forall i :: 0 <= i < |done| ==>
              WriteOutcome(msgs[i], envs[i], ChunkSize(iounit), EOK, done[i].total, done[i].chunks)
    ensures rc != EOK ==>
              var i := |done|;
              && last.total <= |msgs[i].payload|
              && WriteOutcome(msgs[i], envs[i], ChunkSize(iounit), rc, last.total, last.chunks)
    ensures var acknowledged := Acknowledged(msgs, done);
            && end == offset + |acknowledged|
            && after == WriteAt(content, offset,
                                acknowledged + if rc == EOK then [] else msgs[|done|].payload[..last.total])
  {
    hide WriteAt, Cooperates, WriteOutcome, Acknowledged;
    var ocb := new OpenFile(offset, iounit);
    var file := new RemoteFile(content);
    done, last := [], Written(0, []);
    WriteNothing(content, offset);
    NothingAcknowledged(msgs);
    for n := 0 to |msgs|
      invariant |done| == n && Inside(msgs, done) && fresh(ocb) && fresh(file) && ocb.iounit == iounit
      invariant forall i :: 0 <= i < n ==>
                  WriteOutcome(msgs[i], envs[i], ChunkSize(iounit), EOK, done[i].total, done[i].chunks)
      invariant file.content == WriteAt(content, offset, Acknowledged(msgs, done))
      invariant ocb.offset == offset + |Acknowledged(msgs, done)|
    {
      assert msgs[n] in msgs;
      var total, chunks;
      rc, total, chunks := IoWrite(ocb, file, msgs[n], envs[n]);
      WritesJoin(content, offset, Acknowledged(msgs, done), msgs[n].payload[..total]);
      last := Written(total, chunks);
      if rc != EOK {
        return rc, done, last, file.content, ocb.offset;
      }
      AcknowledgedSnoc(msgs, done, last);
      done := done + [last];
    }
    assert Acknowledged(msgs, done) + [] == Acknowledged(msgs, done);
    rc, after, end := EOK, file.content, ocb.offset;
  }

  lemma NothingAcknowledged(msgs: seq<WriteMsg>)
    ensures Acknowledged(msgs, []) == []
  {}

  // ------------------------------------------------ when the sender's message is too short

  /** What a sender's message of `length` bytes gives. */
  function Held(length: nat, offset: nat, want: nat): (delivered: nat)
    ensures delivered <= want
  {
    if offset < length then Min(want, length - offset) else 0
  }

  /** Such a sender, and a server that takes all. */
  function Holding(length: nat): Env {
    Env((n: nat, offset: nat, want: nat) => Held(length, offset, want), (n: nat, count: nat) => count)
  }

  /** `total` after n iterations with a sender's message that ends after `present` payload bytes. */
  function TotalAfter(msg: WriteMsg, present: nat, chunk: nat, n: nat): nat {
    if n == 0 then 0
    else
      var total := TotalAfter(msg, present, chunk, n - 1);
      if total >= |msg.payload| then total
      else
        var toWrite := Min(|msg.payload| - total, chunk);
        var delivered := Delivered(msg, Holding(|msg.header| + present), n - 1, total, toWrite);
        total + Copied(msg, total, toWrite, if delivered < 0 then 0 else delivered)
  }

  lemma HoldingIsPlausible(length: nat)
    ensures Plausible(Holding(length))
  {
    var env := Holding(length);
    forall n: nat, offset: nat, want: nat ensures env.delivers(n, offset, want) <= want {}
    forall n: nat, count: nat ensures env.accepts(n, count) <= count {}
  }

  /** A sender that holds the whole payload cooperates. */
  lemma HoldingAllCooperates(msg: WriteMsg)
    ensures Cooperates(Holding(|msg.header| + |msg.payload|), msg)
  {
    HoldingIsPlausible(|msg.header| + |msg.payload|);
    hide Plausible;
    var env := Holding(|msg.header| + |msg.payload|);
    forall n: nat, offset: nat, want: nat | want > 0 && offset + want <= |msg.header + msg.payload|
      ensures env.delivers(n, offset, want) != 0 {}
  }

  /** One iteration takes the inline bytes, and of the rest what is there. */
  lemma HoldingStep(msg: WriteMsg, total: nat, present: nat, toWrite: nat, n: nat)
    requires InlineBytes(msg) <= present && total <= present
    ensures var delivered := Delivered(msg, Holding(|msg.header| + present), n, total, toWrite);
            && delivered >= 0
            && Copied(msg, total, toWrite, delivered) == Min(toWrite, present - total)
  {
    hide InlineBytes;
  }

  lemma {:induction false} TotalBounds(msg: WriteMsg, present: nat, chunk: nat, n: nat)
    requires chunk > 0 && InlineBytes(msg) <= present <= |msg.payload|
    ensures TotalAfter(msg, present, chunk, n) <= present
    ensures TotalAfter(msg, present, chunk, n) >= Min(n, present)
  {
    hide Holding, Delivered, Copied, InlineBytes;
    if n > 0 {
      TotalBounds(msg, present, chunk, n - 1);
      var total := TotalAfter(msg, present, chunk, n - 1);
      if total < |msg.payload| { HoldingStep(msg, total, present, Min(|msg.payload| - total, chunk), n - 1); }
    }
  }

  /** The loop never ends exactly when the message holds less than it announces. */
  lemma StallsForeverIff(msg: WriteMsg, present: nat, chunk: nat)
    requires chunk > 0 && InlineBytes(msg) <= present <= |msg.payload|
    ensures (forall n: nat :: TotalAfter(msg, present, chunk, n) < |msg.payload|) <==> present < |msg.payload|
  {
    hide TotalAfter, InlineBytes;
    forall n: nat ensures TotalAfter(msg, present, chunk, n) <= present {
      TotalBounds(msg, present, chunk, n);
    }
    TotalBounds(msg, present, chunk, |msg.payload|);
    assert TotalAfter(msg, present, chunk, |msg.payload|) >= present;
  }

  lemma StartsAtZero(msg: WriteMsg, present: nat, chunk: nat)
    ensures TotalAfter(msg, present, chunk, 0) == 0
  {}

  lemma StaysDone(msg: WriteMsg, present: nat, chunk: nat, n: nat)
    requires TotalAfter(msg, present, chunk, n) >= |msg.payload|
    ensures TotalAfter(msg, present, chunk, n + 1) ==
            TotalAfter(msg, present, chunk, n)
  {}

  /** An iteration with such a sender does not fail and advances the total as TotalAfter says. */
  lemma HoldingChunk(msg: WriteMsg, present: nat, size: nat, n: nat, total: nat, rc: int, chunk: Chunk)
    requires InlineBytes(msg) <= present <= |msg.payload| && total <= present && total < |msg.payload|
    requires total == TotalAfter(msg, present, size, n)
    requires rc <= 0 && (rc < 0 ==> ChunkFails(msg, Holding(|msg.header| + present), size, n, total, rc))
    requires rc == 0 ==> ChunkAt(msg, Holding(|msg.header| + present), size, n, total, chunk)
    ensures rc == 0 && total + |chunk.data| <= |msg.payload| && chunk.written == |chunk.data|
    ensures chunk.data == msg.payload[total..total + |chunk.data|]
    ensures total + chunk.written == TotalAfter(msg, present, size, n + 1)
  {
    hide InlineBytes, InlinePart, Copied, Delivered;
    HoldingStep(msg, total, present, Min(|msg.payload| - total, size), n);
  }

  /** Main result: n iterations of the handler's own loop body with such a sender get exactly
      that far, and write exactly that much. */
  method Stall(content: Bytes, offset: nat, iounit: nat, msg: WriteMsg, present: nat, n: nat)
    returns (total: nat, after: Bytes)
    requires InlineBytes(msg) <= present <= |msg.payload|
    ensures total == TotalAfter(msg, present, ChunkSize(iounit), n) <= |msg.payload|
    ensures after == WriteAt(content, offset, msg.payload[..total])
  {
    hide WriteAt, InlineBytes, InlinePart, Copied, Delivered, Plausible, Holding, ChunkAt, ChunkFails, TotalAfter;
    var file := new RemoteFile(content);
    var env := Holding(|msg.header| + present);
    StartsAtZero(msg, present, ChunkSize(iounit));
    HoldingIsPlausible(|msg.header| + present);
    total := 0;
    WriteNothing(content, offset);
    for k := 0 to n
      invariant fresh(file) && total <= present
      invariant total == TotalAfter(msg, present, ChunkSize(iounit), k)
      invariant total <= |msg.payload| && file.content == WriteAt(content, offset, msg.payload[..total])
    {
      TotalBounds(msg, present, ChunkSize(iounit), k + 1);
      if total < |msg.payload| {
        var rc, chunk := WriteChunk(file, msg, env, k, offset, total, ChunkSize(iounit));
        HoldingChunk(msg, present, ChunkSize(iounit), k, total, rc, chunk);
        AcceptedPrefix(content, offset, msg.payload, total, |chunk.data|, chunk.written);
        total := total + chunk.written;
      } else {
        StaysDone(msg, present, ChunkSize(iounit), k);
      }
    }
    after := file.content;
  }
}
