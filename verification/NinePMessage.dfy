/** The message class: a growing byte vector and a read cursor. */
module NinePMessages {
  import opened Types
  import opened Messages
  import opened LittleEndian
  import opened Wire

  class NinePMessage {
    var data: Bytes
    var readOffset: nat

    constructor ()
      ensures data == [] && readOffset == HEADER_SIZE
    {
      data, readOffset := [], HEADER_SIZE;
    }

    constructor Received(bytes: Bytes)
      ensures data == bytes && readOffset == HEADER_SIZE
    {
      data, readOffset := bytes, HEADER_SIZE;
    }

    // Encoder helpers.

    method BeginMessage(code: u8, tag: u16)
      modifies this
      ensures data == Header(0, code, tag) && readOffset == HEADER_SIZE
    {
      data := [];
      readOffset := HEADER_SIZE;
      PutU32(0);
      PutU8(code);
      PutU16(tag);
    }

    /** Patch the size field: nothing but the first four bytes changes. */
    method EndMessage()
      requires |data| >= 4
      modifies this`data
      ensures data == U32(|old(data)| % TWO_32) + old(data)[4..]
    {
      var size: u32 := |data| % TWO_32;
      ghost var body := data[4..];
      data := data[0 := size % 0x100];
      data := data[1 := size / 0x100 % 0x100];
      data := data[2 := size / 0x1_0000 % 0x100];
      data := data[3 := size / 0x100_0000 % 0x100];
      BytesOf(size);
      assert data == [data[0], data[1], data[2], data[3]] + body;
    }

    method PutU8(value: u8)
      modifies this`data
      ensures data == old(data) + [value]
    {
      data := data + [value];
    }

    method PutU16(value: u16)
      modifies this`data
      ensures data == old(data) + U16(value)
    {
      data := data + [value % 0x100];
      data := data + [value / 0x100 % 0x100];
      assert U16(value) == [value % 0x100] + Le(value / 0x100, 1);
    }

    method PutU32(value: u32)
      modifies this`data
      ensures data == old(data) + U32(value)
    {
      data := data + [value % 0x100];
      data := data + [value / 0x100 % 0x100];
      data := data + [value / 0x1_0000 % 0x100];
      data := data + [value / 0x100_0000 % 0x100];
      BytesOf(value);
    }

    method PutU64(value: u64)
      modifies this`data
      ensures data == old(data) + U64(value)
    {
      PutU32(value % TWO_32);
      PutU32(value / TWO_32);
    }

    method PutString(value: Bytes)
      modifies this`data
      ensures data == old(data) + Str(value)
    {
      PutU16(|value| % 0x1_0000);
      data := data + value;
    }

    method PutBytes(bytes: Bytes)
      modifies this`data
      ensures data == old(data) + bytes
    {
      data := data + bytes;
    }

    // Decoder helpers: each is its Read function at the cursor, on any bytes.

    method GetU8() returns (v: u8)
      modifies this`readOffset
      ensures (v, readOffset) == ReadU8(data, old(readOffset))
    {
      if readOffset >= |data| {
        return 0;
      }
      v := data[readOffset];
      readOffset := readOffset + 1;
    }

    method GetU16() returns (v: u16)
      modifies this`readOffset
      ensures (v, readOffset) == ReadU16(data, old(readOffset))
    {
      if readOffset + 2 > |data| {
        return 0;
      }
      v := ByteAt(data, readOffset) + 0x100 * ByteAt(data, readOffset + 1);
      readOffset := readOffset + 2;
    }

    method GetU32() returns (v: u32)
      modifies this`readOffset
      ensures (v, readOffset) == ReadU32(data, old(readOffset))
    {
      if readOffset + 4 > |data| {
        return 0;
      }
      v := ByteAt(data, readOffset) + 0x100 * ByteAt(data, readOffset + 1) +
      0x1_0000 * ByteAt(data, readOffset + 2) + 0x100_0000 * ByteAt(data, readOffset + 3);
      readOffset := readOffset + 4;
    }

    method GetU64() returns (v: u64)
      modifies this`readOffset
      ensures (v, readOffset) == ReadU64(data, old(readOffset))
    {
      var lo := GetU32();
      var hi := GetU32();
      v := lo + TWO_32 * hi;
    }

    method GetString() returns (s: Bytes)
      modifies this`readOffset
      ensures (s, readOffset) == ReadString(data, old(readOffset))
    {
      var len := GetU16();
      if readOffset + len > |data| {
        return [];
      }
      s := data[readOffset..readOffset + len];
      readOffset := readOffset + len;
    }

    /** The bound check adds in 32 bits; when the sum wraps and passes it nevertheless, the
        C++ code leaves the buffer, here `inside` is false and nothing is read. */
    method GetBytes(length: u32) returns (inside: bool, bytes: Bytes)
      requires readOffset < TWO_32
      modifies this`readOffset
      ensures inside <==> !Escapes(data, old(readOffset), length)
      ensures inside ==> (bytes, readOffset) == ReadBytes(data, old(readOffset), length)
      ensures !inside ==> bytes == [] && readOffset == old(readOffset)
    {
      if (readOffset + length) % TWO_32 > |data| {
        return true, [];
      }
      if readOffset + length > |data| {
        return false, [];
      }
      bytes := data[readOffset..readOffset + length];
      readOffset := readOffset + length;
      inside := true;
    }

    method GetQid() returns (qid: Qid)
      modifies this`readOffset
      ensures (qid, readOffset) == ReadQid(data, old(readOffset))
    {
      var kind := GetU8();
      var version := GetU32();
      var path := GetU64();
      qid := Qid(kind, version, path);
    }
  }

  /** GetBytes reads outside the buffer: its check passes although the bytes are not there. */
  predicate Escapes(d: Bytes, at: nat, length: nat) {
    (at + length) % TWO_32 <= |d| < at + length
  }

  lemma One(s: Bytes, a: Field)
    ensures s + FieldBytes(a) == s + FieldsBytes([a])
  {
    assert [a][1..] == [];
  }

  lemma Two(s: Bytes, a: Field, b: Field)
    ensures s + FieldBytes(a) + FieldBytes(b) == s + FieldsBytes([a, b])
  {
    hide FieldBytes;
    assert [a, b][1..] == [b];
    One(s + FieldBytes(a), b);
  }

  lemma Three(s: Bytes, a: Field, b: Field, c: Field)
    ensures s + FieldBytes(a) + FieldBytes(b) + FieldBytes(c) == s + FieldsBytes([a, b, c])
  {
    hide FieldBytes;
    assert [a, b, c][1..] == [b, c];
    Two(s + FieldBytes(a), b, c);
  }

  lemma Four(s: Bytes, a: Field, b: Field, c: Field, d: Field)
    ensures s + FieldBytes(a) + FieldBytes(b) + FieldBytes(c) + FieldBytes(d) == s + FieldsBytes([a, b, c, d])
  {
    hide FieldBytes;
    assert [a, b, c, d][1..] == [b, c, d];
    Three(s + FieldBytes(a), b, c, d);
  }

  lemma Five(s: Bytes, a: Field, b: Field, c: Field, d: Field, e: Field)
    ensures s + FieldBytes(a) + FieldBytes(b) + FieldBytes(c) + FieldBytes(d) + FieldBytes(e) ==
            s + FieldsBytes([a, b, c, d, e])
  {
    hide FieldBytes;
    assert [a, b, c, d, e][1..] == [b, c, d, e];
    Four(s + FieldBytes(a), b, c, d, e);
  }

  /** The Build functions, by message type. */
  method Build(m: TMsg) returns (msg: NinePMessage)
    ensures fresh(msg) && msg.data == Encode(m)
    ensures LengthsFit(m) && |msg.data| < 0x1_0000_0000 ==> ReadsBack(msg.data, m)
  {
    hide Le, Header, FieldsBytes, ReadsBack, LengthsFit;
    msg := new NinePMessage();
    msg.BeginMessage(TypeCode(m), TagOf(m));
    PutBody(msg, m);
    msg.EndMessage();
    SizePatched(0, TypeCode(m), TagOf(m), FieldsBytes(Fields(m)));
    if LengthsFit(m) && |Encode(m)| < 0x1_0000_0000 { EncodeReadsBack(m); }
  }

  method PutBody(msg: NinePMessage, m: TMsg)
    modifies msg`data
    ensures msg.data == old(msg.data) + FieldsBytes(Fields(m))
  {
    hide Le, Str, U64, FieldsBytes;
    ghost var begun := msg.data;
    match m {
      case Tversion(msize, version) =>
        msg.PutU32(msize);
        msg.PutString(version);
        Two(begun, F32(msize), FStr(version));
      case Tattach(_, fid, afid, uname, aname, nUname) =>
        msg.PutU32(fid);
        msg.PutU32(afid);
        msg.PutString(uname);
        msg.PutString(aname);
        msg.PutU32(nUname);
        Five(begun, F32(fid), F32(afid), FStr(uname), FStr(aname), F32(nUname));
      case Twalk(_, fid, newfid, names) =>
        msg.PutU32(fid);
        msg.PutU32(newfid);
        PutNames(msg, names);
        Three(begun, F32(fid), F32(newfid), FNames(names));
      case Tlopen(_, fid, flags) =>
        msg.PutU32(fid);
        msg.PutU32(flags);
        Two(begun, F32(fid), F32(flags));
      case Tlcreate(_, fid, name, flags, mode, gid) =>
        msg.PutU32(fid);
        msg.PutString(name);
        msg.PutU32(flags);
        msg.PutU32(mode);
        msg.PutU32(gid);
        Five(begun, F32(fid), FStr(name), F32(flags), F32(mode), F32(gid));
      case _ =>
        PutRest(msg, m);
    }
  }

  method PutRest(msg: NinePMessage, m: TMsg)
    requires !m.Tversion? && !m.Tattach? && !m.Twalk? && !m.Tlopen? && !m.Tlcreate?
    modifies msg`data
    ensures msg.data == old(msg.data) + FieldsBytes(Fields(m))
  {
    hide Le, Str, U64, FieldsBytes;
    ghost var begun := msg.data;
    match m {
      case Tread(_, fid, offset, count) =>
        msg.PutU32(fid);
        msg.PutU64(offset);
        msg.PutU32(count);
        Three(begun, F32(fid), F64(offset), F32(count));
      case Twrite(_, fid, offset, data) =>
        msg.PutU32(fid);
        msg.PutU64(offset);
        msg.PutU32(|data| % TWO_32);
        msg.PutBytes(data);
        Three(begun, F32(fid), F64(offset), FData(data));
      case Tclunk(_, fid) =>
        msg.PutU32(fid);
        One(begun, F32(fid));
      case Tgetattr(_, fid, mask) =>
        msg.PutU32(fid);
        msg.PutU64(mask);
        Two(begun, F32(fid), F64(mask));
      case Treaddir(_, fid, offset, count) =>
        msg.PutU32(fid);
        msg.PutU64(offset);
        msg.PutU32(count);
        Three(begun, F32(fid), F64(offset), F32(count));
      case Tmkdir(_, fid, name, mode, gid) =>
        msg.PutU32(fid);
        msg.PutString(name);
        msg.PutU32(mode);
        msg.PutU32(gid);
        Four(begun, F32(fid), FStr(name), F32(mode), F32(gid));
      case Tunlinkat(_, fid, name, flags) =>
        msg.PutU32(fid);
        msg.PutString(name);
        msg.PutU32(flags);
        Three(begun, F32(fid), FStr(name), F32(flags));
      case Trenameat(_, fid, oldname, newfid, newname) =>
        msg.PutU32(fid);
        msg.PutString(oldname);
        msg.PutU32(newfid);
        msg.PutString(newname);
        Four(begun, F32(fid), FStr(oldname), F32(newfid), FStr(newname));
    }
  }

  lemma SizePatched(size: nat, code: u8, tag: u16, body: Bytes)
    ensures var d := Header(size, code, tag) + body;
            U32(|d| % TWO_32) + d[4..] == Header(|d|, code, tag) + body
  {
    var d := Header(size, code, tag) + body;
    assert d[4..] == [code] + U16(tag) + body;
  }

  /** The name loop of BuildTwalk. */
  method PutNames(msg: NinePMessage, names: seq<Bytes>)
    modifies msg`data
    ensures msg.data == old(msg.data) + FieldBytes(FNames(names))
  {
    hide Str, Le;
    msg.PutU16(|names| % 0x1_0000);
    ghost var counted := msg.data;
    for i := 0 to |names|
      invariant msg.data == counted + Strs(names[..i])
    {
      msg.PutString(names[i]);
      StrsSnoc(names[..i], names[i]);
      assert names[..i] + [names[i]] == names[..i + 1];
    }
    assert names[..|names|] == names;
  }

  lemma {:induction false} StrsSnoc(names: seq<Bytes>, name: Bytes)
    ensures Strs(names + [name]) == Strs(names) + Str(name)
  {
    if names == [] {
      assert Strs([name]) == Str(name) + Strs([]);
    } else {
      StrsSnoc(names[1..], name);
      assert (names + [name])[1..] == names[1..] + [name];
    }
  }

  // ------------------------------------------------ the parsers with loops

  method ParseRwalk(msg: NinePMessage) returns (ok: bool, qids: seq<Qid>)
    modifies msg`readOffset
    ensures ok <==> GetType(msg.data) == 111
    ensures ok ==> var (n, p) := ReadU16(msg.data, HEADER_SIZE);
                   && (qids, msg.readOffset) == ReadQids(msg.data, p, n)
                   && |qids| == n && CursorOk(msg.data, msg.readOffset)
  {
    if GetType(msg.data) != RWALK {
      return false, [];
    }
    msg.readOffset := HEADER_SIZE;
    var n := msg.GetU16();
    hide ReadQid;
    ghost var start := msg.readOffset;
    ghost var whole := ReadQids(msg.data, start, n);
    qids := [];
    assert [] + whole.0 == whole.0;
    QidsKeepCursor(msg.data, start, n);
    for i := 0 to n
      invariant |qids| == i
      invariant msg.data == old(msg.data)
      invariant whole == var (rest, q) := ReadQids(msg.data, msg.readOffset, n - i); (qids + rest, q)
    {
      ghost var (rest, q) := ReadQids(msg.data, msg.readOffset, n - i);
      var qid := msg.GetQid();
      assert qids + rest == (qids + [qid]) + rest[1..];
      qids := qids + [qid];
    }
    assert qids + [] == qids;
    ok := true;
  }

  /** GetBytes on a count that comes from the message. */
  method ParseRread(msg: NinePMessage) returns (ok: bool, inside: bool, data: Bytes)
    modifies msg`readOffset
    ensures ok <==> GetType(msg.data) == 117
    ensures ok ==>
              var (count, p) := ReadU32(msg.data, HEADER_SIZE);
              && (inside <==> !Escapes(msg.data, p, count))
              && (inside ==> (data, msg.readOffset) == ReadBytes(msg.data, p, count))
  {
    if GetType(msg.data) != RREAD {
      return false, true, [];
    }
    msg.readOffset := HEADER_SIZE;
    var count := msg.GetU32();
    inside, data := msg.GetBytes(count);
    ok := true;
  }

  /** An Rread that announces `count` bytes and carries `payload`. */
  function RreadBytes(tag: u16, count: u32, payload: Bytes): Bytes {
    var body := U32(count) + payload;
    Header((HEADER_SIZE + |body|) % TWO_32, RREAD, tag) + body
  }

  /** Whatever it carries, parsing such a reply leaves the buffer exactly when the cursor plus
      the count wraps, that is, for the last eleven counts; a truthful count gives the payload. */
  lemma RreadEscapesIff(tag: u16, count: u32, payload: Bytes)
    requires HEADER_SIZE + 4 + |payload| < TWO_32
    ensures var d := RreadBytes(tag, count, payload);
            && GetType(d) == RREAD && ReadU32(d, HEADER_SIZE) == (count, HEADER_SIZE + 4)
            && (Escapes(d, HEADER_SIZE + 4, count) <==> count >= TWO_32 - 11)
            && (count == |payload| ==> ReadBytes(d, HEADER_SIZE + 4, count) == (payload, |d|))
  {
    hide Le, Header, Here, ReadU32, GetType, GetSize, GetTag;
    var d, body := RreadBytes(tag, count, payload), U32(count) + payload;
    HeaderHere(RREAD, tag, body);
    HereSplit(d, HEADER_SIZE, U32(count), payload);
    U32Here(d, HEADER_SIZE, count);
    BytesHere(d, HEADER_SIZE + 4, payload);
  }

  /** The smallest of them on a reply without data: cursor and count add up to 2^32, the check
      compares 0 with the length. */
  method ParseWrappingRread(tag: u16) returns (ok: bool, inside: bool)
    ensures ok && !inside
  {
    RreadEscapesIff(tag, TWO_32 - 11, []);
    hide *;
    var msg := new NinePMessage.Received(RreadBytes(tag, TWO_32 - 11, []));
    var data;
    ok, inside, data := ParseRread(msg);
  }

  /** Byte count, cursor and entries after n iterations of the entry loop, with its 32-bit
      addition. */
  function AfterIterations(d: Bytes, at: nat, n: nat): (u32, nat, seq<DirEntry>) {
    if n == 0 then (0, at, [])
    else
      var (consumed, p, entries) := AfterIterations(d, at, n - 1);
      var (entry, q) := ReadEntry(d, p);
      ((consumed + 24 + |entry.name|) % TWO_32, q, entries + [entry])
  }

  /** The loop stops after n iterations: its guard is false then, and not before. */
  ghost predicate StopsAt(d: Bytes, at: nat, count: nat, n: nat) {
    AfterIterations(d, at, n).0 >= count && forall m: nat :: m < n ==> AfterIterations(d, at, m).0 < count
  }

  /** How many iterations past the end bring the byte count from c to its last multiple of 24
      below 2^32: 178956971 * 24 is 8 modulo 2^32. */
  function IterationsLeft(c: u32): nat {
    178956971 * (0x2000_0000 - 1 - c / 8)
  }

  lemma IterationsSuffice(c: u32)
    ensures (c + 24 * IterationsLeft(c)) % TWO_32 == TWO_32 - 8 + c % 8
  {
    var m := 0x2000_0000 - 1 - c / 8;
    assert c + 24 * IterationsLeft(c) == TWO_32 * m + (TWO_32 - 8 + c % 8);
  }

  lemma CountDown(c: u32, left: nat, count: nat)
    requires (c + 24 * left) % TWO_32 >= TWO_32 - 8 && c < count <= TWO_32 - 8
    ensures left > 0 && ((c + 24) % TWO_32 + 24 * (left - 1)) % TWO_32 >= TWO_32 - 8
  {
    var sum := c + 24 * left;
    if c + 24 < TWO_32 {
      assert (c + 24) % TWO_32 + 24 * (left - 1) == sum;
    } else {
      assert (c + 24) % TWO_32 == c + 24 - TWO_32;
      OneTurn(sum);
    }
  }

  lemma OneTurn(x: nat)
    requires x >= TWO_32
    ensures (x - TWO_32) % TWO_32 == x % TWO_32
  {}

  lemma OneMore(d: Bytes, at: nat, n: nat)
    ensures AfterIterations(d, at, 0) == (0, at, [])
    ensures var (consumed, p, entries) := AfterIterations(d, at, n);
            var (entry, q) := ReadEntry(d, p);
            AfterIterations(d, at, n + 1) == ((consumed + 24 + |entry.name|) % TWO_32, q, entries + [entry])
  {
    hide ReadEntry;
  }

  /** The entry loop.  It ends on every message for every count up to 2^32 - 8, although the
      byte count may wrap many times before; up to 2^32 - 24 it never wraps. */
  method ParseRreaddir(msg: NinePMessage) returns (ok: bool, entries: seq<DirEntry>)
    requires |msg.data| <= MAX_MESSAGE_SIZE
    requires ReadU32(msg.data, HEADER_SIZE).0 <= TWO_32 - 8
    modifies msg`readOffset
    ensures ok <==> GetType(msg.data) == 41
    ensures ok ==> var (count, p) := ReadU32(msg.data, HEADER_SIZE);
                   && StopsAt(msg.data, p, count, |entries|)
                   && AfterIterations(msg.data, p, |entries|).1 == msg.readOffset
                   && AfterIterations(msg.data, p, |entries|).2 == entries
                   && CursorOk(msg.data, msg.readOffset)
  {
    hide ReadEntry, ReadString, ReadU64, ReadU8, ReadQid, Le, IterationsLeft, AfterIterations;
    if GetType(msg.data) != RREADDIR {
      return false, [];
    }
    msg.readOffset := HEADER_SIZE;
    var count := msg.GetU32();
    ghost var d, start := msg.data, msg.readOffset;
    entries := [];
    var bytesConsumed: u32 := 0;
    ghost var left := IterationsLeft(0);
    IterationsSuffice(0);
    OneMore(d, start, 0);
    while bytesConsumed < count
      invariant msg.data == d && CursorOk(d, msg.readOffset)
      invariant (bytesConsumed, msg.readOffset, entries) == AfterIterations(d, start, |entries|)
      invariant forall m: nat :: m < |entries| ==> AfterIterations(d, start, m).0 < count
      invariant msg.readOffset >= |d| ==> (bytesConsumed + 24 * left) % TWO_32 >= TWO_32 - 8
      decreases if msg.readOffset < |d| then |d| - msg.readOffset else 0, left
    {
      ghost var at := msg.readOffset;
      EntryKeepsCursor(d, at);
      OneMore(d, start, |entries|);
      if at >= |d| { CountDown(bytesConsumed, left, count); }
      var entry := NextEntry(msg);
      bytesConsumed := (bytesConsumed + 13 + 8 + 1 + 2 + |entry.name|) % TWO_32;
      entries := entries + [entry];
      if at < |d| {
        left := IterationsLeft(bytesConsumed);
        IterationsSuffice(bytesConsumed);
      } else {
        left := left - 1;
      }
    }
    ok := true;
  }

  method NextEntry(msg: NinePMessage) returns (entry: DirEntry)
    modifies msg`readOffset
    ensures (entry, msg.readOffset) == ReadEntry(msg.data, old(msg.readOffset))
  {
    hide ReadQid, ReadU64, ReadU8, ReadString;
    var qid := msg.GetQid();
    var offset := msg.GetU64();
    var kind := msg.GetU8();
    var name := msg.GetString();
    entry := DirEntry(qid, offset, kind, name);
  }

  /** While the byte count does not wrap, the loop reads what it would read with unbounded
      numbers. */
  lemma {:induction false} NoWrap(d: Bytes, at: nat, count: nat, n: nat)
    requires |d| <= MAX_MESSAGE_SIZE && CursorOk(d, at) && count <= TWO_32 - 24
    requires forall m: nat :: m < n ==> AfterIterations(d, at, m).0 < count
    ensures var (consumed, p, entries) := AfterIterations(d, at, n);
            && CursorOk(d, p) && |entries| == n && (p < |d| ==> consumed <= 25 * p)
            && var (rest, q) := ReadEntries(d, p, consumed, count);
            ReadEntries(d, at, 0, count) == (entries + rest, q)
  {
    hide ReadEntry, AfterIterations, ReadEntries;
    OneMore(d, at, if n == 0 then 0 else n - 1);
    if n == 0 {
      assert [] + ReadEntries(d, at, 0, count).0 == ReadEntries(d, at, 0, count).0;
    } else {
      NoWrap(d, at, count, n - 1);
      var (consumed, p, entries) := AfterIterations(d, at, n - 1);
      EntryKeepsCursor(d, p);
      ReadOne(d, p, consumed, count, entries);
    }
  }

  lemma ReadOne(d: Bytes, p: nat, consumed: nat, count: nat, entries: seq<DirEntry>)
    requires consumed < count
    ensures var (entry, q) := ReadEntry(d, p);
            var (rest, end) := ReadEntries(d, q, consumed + 24 + |entry.name|, count);
            ReadEntries(d, p, consumed, count).1 == end
            && entries + ReadEntries(d, p, consumed, count).0 == (entries + [entry]) + rest
  {
    hide ReadEntry;
    var (entry, q) := ReadEntry(d, p);
    var (rest, end) := ReadEntries(d, q, consumed + 24 + |entry.name|, count);
    assert ReadEntries(d, p, consumed, count).0 == [entry] + rest;
  }

  /** So up to that count the parser reads at most ceil(count / 24) entries, and those. */
  lemma StopsUnwrapped(d: Bytes, at: nat, count: nat, n: nat)
    requires |d| <= MAX_MESSAGE_SIZE && CursorOk(d, at) && count <= TWO_32 - 24 && StopsAt(d, at, count, n)
    ensures var (_, p, entries) := AfterIterations(d, at, n);
            && ReadEntries(d, at, 0, count) == (entries, p)
            && |entries| == n && 24 * n < count + 24
  {
    hide ReadEntry, AfterIterations;
    NoWrap(d, at, count, n);
    EntriesBound(d, at, 0, count);
    var (_, p, entries) := AfterIterations(d, at, n);
    assert entries + [] == entries;
  }

  /** Main result: the parser inverts the wire form: it gives back the entries of a listing, in
      order, and stops at the end of the message. */
  method ParseListing(tag: u16, es: seq<DirEntry>) returns (ok: bool, entries: seq<DirEntry>, cursor: nat)
    requires (forall e <- es :: |e.name| < 0x1_0000) && |RreaddirBytes(tag, es)| <= MAX_MESSAGE_SIZE
    ensures ok && entries == es && cursor == |RreaddirBytes(tag, es)|
  {
    RreaddirRoundTrip(tag, es);
    hide *;
    var msg := new NinePMessage.Received(RreaddirBytes(tag, es));
    ok, entries := ParseRreaddir(msg);
    cursor := msg.readOffset;
    StopsUnwrapped(msg.data, HEADER_SIZE + 4, |EntriesBytes(es)|, |entries|);
  }

  /** The same for the qids of a walk. */
  method ParseWalk(tag: u16, qids: seq<Qid>) returns (ok: bool, parsed: seq<Qid>, cursor: nat)
    requires |qids| < 0x1_0000
    ensures ok && parsed == qids && cursor == |RwalkBytes(tag, qids)|
  {
    QidsLength(qids);
    RwalkRoundTrip(tag, qids);
    hide *;
    var msg := new NinePMessage.Received(RwalkBytes(tag, qids));
    ok, parsed := ParseRwalk(msg);
    cursor := msg.readOffset;
  }

  lemma {:induction false} QidsLength(qids: seq<Qid>)
    ensures |QidsBytes(qids)| == 13 * |qids|
    decreases |qids|
  {
    if qids != [] { QidsLength(qids[1..]); }
  }

  // ------------------------------------------------ why the count must be bounded

  /** From any byte count past the end the loop adds 24 an iteration, modulo 2^32. */
  lemma {:induction false} StuckPastEnd(d: Bytes, at: nat, n: nat, k: nat)
    requires AfterIterations(d, at, n).1 >= |d| && CursorOk(d, AfterIterations(d, at, n).1)
    ensures AfterIterations(d, at, n + k).0 == (AfterIterations(d, at, n).0 + 24 * k) % TWO_32
    ensures AfterIterations(d, at, n + k).1 == AfterIterations(d, at, n).1
    decreases k
  {
    hide ReadEntry, AfterIterations;
    if k > 0 {
      StuckPastEnd(d, at, n, k - 1);
      EntryKeepsCursor(d, AfterIterations(d, at, n).1);
      OneMore(d, at, n + (k - 1));
      AddWrap(AfterIterations(d, at, n).0, k);
    }
  }

  lemma AddWrap(c: u32, k: nat)
    requires k > 0
    ensures ((c + 24 * (k - 1)) % TWO_32 + 24) % TWO_32 == (c + 24 * k) % TWO_32
  {}

  lemma MultipleOf24(n: nat)
    ensures 24 * n % TWO_32 <= TWO_32 - 8
  {
    var k := 24 * n / TWO_32;
    assert 24 * n % TWO_32 == 24 * n - TWO_32 * k == 8 * (3 * n - 0x2000_0000 * k);
  }

  /** Every iteration before the end moves the cursor. */
  lemma {:induction false} ReachesEnd(d: Bytes, at: nat, n: nat)
    requires CursorOk(d, at)
    ensures CursorOk(d, AfterIterations(d, at, n).1)
    ensures AfterIterations(d, at, n).1 >= |d| || AfterIterations(d, at, n).1 >= at + n
  {
    hide ReadEntry;
    if n > 0 {
      ReachesEnd(d, at, n - 1);
      EntryKeepsCursor(d, AfterIterations(d, at, n - 1).1);
    }
  }

  /** Some number of iterations makes the guard of the loop false. */
  ghost predicate Ends(d: Bytes, at: nat, count: nat) {
    exists n: nat :: AfterIterations(d, at, n).0 >= count
  }

  lemma SmallCountsEnd(d: Bytes, at: nat, count: nat)
    requires CursorOk(d, at) && count <= TWO_32 - 8
    ensures Ends(d, at, count)
  {
    hide AfterIterations, IterationsLeft;
    ReachesEnd(d, at, |d|);
    var c := AfterIterations(d, at, |d|).0;
    StuckPastEnd(d, at, |d|, IterationsLeft(c));
    IterationsSuffice(c);
    assert AfterIterations(d, at, |d| + IterationsLeft(c)).0 >= count;
  }

  /** An Rreaddir that announces `count` bytes of entries and carries none. */
  function EmptyReply(tag: u16, count: u32): Bytes {
    Header(HEADER_SIZE + 4, RREADDIR, tag) + U32(count)
  }

  lemma EmptyReplyHeader(tag: u16, count: u32)
    ensures var d := EmptyReply(tag, count);
            GetType(d) == RREADDIR && ReadU32(d, HEADER_SIZE) == (count, |d|) && |d| == HEADER_SIZE + 4
  {
    hide Header, Le, ReadU32;
    HeaderHere(RREADDIR, tag, U32(count));
    U32Here(EmptyReply(tag, count), HEADER_SIZE, count);
  }

  /** On such a reply the byte count stays a multiple of 8 and never exceeds 2^32 - 8. */
  lemma EmptyReplyEndsIff(tag: u16, count: u32)
    ensures Ends(EmptyReply(tag, count), HEADER_SIZE + 4, count) <==> count <= TWO_32 - 8
  {
    EmptyReplyHeader(tag, count);
    hide EmptyReply, GetType, ReadU32, AfterIterations;
    var d := EmptyReply(tag, count);
    OneMore(d, |d|, 0);
    forall n: nat ensures AfterIterations(d, |d|, n).0 <= TWO_32 - 8 {
      StuckPastEnd(d, |d|, 0, n);
      MultipleOf24(n);
    }
    if count <= TWO_32 - 8 { SmallCountsEnd(d, |d|, count); }
  }

  /** A reply that ParseRreaddir gets as far as its loop on. */
  predicate Announces(d: Bytes, count: u32) {
    GetType(d) == RREADDIR && |d| <= MAX_MESSAGE_SIZE && ReadU32(d, HEADER_SIZE).0 == count
  }

  /** Main result: the loop of ParseRreaddir ends on every reply that announces `count` bytes
      exactly when `count` is at most 2^32 - 8. */
  lemma EndsIff(count: u32)
    ensures (forall d: Bytes :: Announces(d, count) ==> Ends(d, ReadU32(d, HEADER_SIZE).1, count)) <==>
            count <= TWO_32 - 8
  {
    hide Ends, EmptyReply, GetType, Announces;
    if count <= TWO_32 - 8 {
      forall d: Bytes | Announces(d, count) ensures Ends(d, ReadU32(d, HEADER_SIZE).1, count) {
        SmallCountsEnd(d, ReadU32(d, HEADER_SIZE).1, count);
      }
    } else {
      EmptyReplyAnnounces(count);
      EmptyReplyEndsIff(0, count);
    }
  }

  lemma EmptyReplyAnnounces(count: u32)
    ensures var d := EmptyReply(0, count); Announces(d, count) && ReadU32(d, HEADER_SIZE).1 == HEADER_SIZE + 4
  {
    EmptyReplyHeader(0, count);
    hide EmptyReply, GetType, ReadU32;
  }
}
