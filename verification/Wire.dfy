/**
  The 9P wire format: requests as sequences of fields behind a header, the cursor-based
  decoder, and the reply forms that loop.  `NinePMessage` is the class that implements it.
 */
module Wire {
  import opened Types
  import opened Messages
  import opened LittleEndian

  const TWO_32: nat := 0x1_0000_0000

  // ------------------------------------------------ encoding

  function U16(v: u16): Bytes { Le(v, 2) }

  function U32(v: u32): Bytes { Le(v, 4) }

  /** PutU64: the low half, then the high half. */
  function U64(v: u64): Bytes {
    U32(v % TWO_32) + U32(v / TWO_32)
  }

  /** PutString: the length is cast to 16 bits, the bytes are not cut. */
  function Str(s: Bytes): Bytes {
    U16(|s| % 0x1_0000) + s
  }

  function Strs(names: seq<Bytes>): Bytes {
    if names == [] then [] else Str(names[0]) + Strs(names[1..])
  }

  /** What a request is made of; the last two carry their own count. */
  datatype Field =
    | F32(n: u32)
    | F64(l: u64)
    | FStr(s: Bytes)
    | FNames(names: seq<Bytes>)
    | FData(data: Bytes)

  datatype Kind = K32 | K64 | KStr | KNames | KData

  function FieldBytes(f: Field): Bytes {
    match f
    case F32(n) => U32(n)
    case F64(l) => U64(l)
    case FStr(s) => Str(s)
    case FNames(names) => U16(|names| % 0x1_0000) + Strs(names)
    case FData(data) => U32(|data| % TWO_32) + data
  }

  function FieldsBytes(fs: seq<Field>): Bytes {
    if fs == [] then [] else FieldBytes(fs[0]) + FieldsBytes(fs[1..])
  }

  function TypeCode(m: TMsg): u8 {
    match m
    case Tversion(_, _) => 100
    case Tattach(_, _, _, _, _, _) => 104
    case Twalk(_, _, _, _) => 110
    case Tlopen(_, _, _) => 12
    case Tlcreate(_, _, _, _, _, _) => 14
    case Tread(_, _, _, _) => 116
    case Twrite(_, _, _, _) => 118
    case Tclunk(_, _) => 120
    case Tgetattr(_, _, _) => 24
    case Treaddir(_, _, _, _) => 40
    case Tmkdir(_, _, _, _, _) => 72
    case Tunlinkat(_, _, _, _) => 76
    case Trenameat(_, _, _, _, _) => 74
  }

  function TagOf(m: TMsg): u16 {
    if m.Tversion? then NO_TAG else m.tag
  }

  function Fields(m: TMsg): seq<Field> {
    match m
    case Tversion(msize, version) => [F32(msize), FStr(version)]
    case Tattach(_, fid, afid, uname, aname, nUname) => [F32(fid), F32(afid), FStr(uname), FStr(aname), F32(nUname)]
    case Twalk(_, fid, newfid, names) => [F32(fid), F32(newfid), FNames(names)]
    case Tlopen(_, fid, flags) => [F32(fid), F32(flags)]
    case Tlcreate(_, fid, name, flags, mode, gid) => [F32(fid), FStr(name), F32(flags), F32(mode), F32(gid)]
    case Tread(_, fid, offset, count) => [F32(fid), F64(offset), F32(count)]
    case Twrite(_, fid, offset, data) => [F32(fid), F64(offset), FData(data)]
    case Tclunk(_, fid) => [F32(fid)]
    case Tgetattr(_, fid, mask) => [F32(fid), F64(mask)]
    case Treaddir(_, fid, offset, count) => [F32(fid), F64(offset), F32(count)]
    case Tmkdir(_, fid, name, mode, gid) => [F32(fid), FStr(name), F32(mode), F32(gid)]
    case Tunlinkat(_, fid, name, flags) => [F32(fid), FStr(name), F32(flags)]
    case Trenameat(_, fid, oldname, newfid, newname) => [F32(fid), FStr(oldname), F32(newfid), FStr(newname)]
  }

  function Header(size: nat, code: u8, tag: u16): (h: Bytes)
    ensures |h| == HEADER_SIZE
  {
    U32(size % TWO_32) + [code] + U16(tag)
  }

  /** The bytes of a request, as the Build functions lay them out. */
  function Encode(m: TMsg): Bytes {
    var body := FieldsBytes(Fields(m));
    Header(HEADER_SIZE + |body|, TypeCode(m), TagOf(m)) + body
  }

  // ------------------------------------------------ decoding, as the Get helpers do it

  function ReadU8(d: Bytes, at: nat): (u8, nat) {
    if at >= |d| then (0, at) else (d[at], at + 1)
  }

  function ByteAt(d: Bytes, i: nat): (b: int)
    requires i < |d|
    ensures 0 <= b < 0x100
  {
    d[i]
  }

  function ReadU16(d: Bytes, at: nat): (u16, nat) {
    if at + 2 > |d| then (0, at) else (ByteAt(d, at) + 256 * ByteAt(d, at + 1), at + 2)
  }

  function ReadU32(d: Bytes, at: nat): (u32, nat) {
    if at + 4 > |d| then (0, at)
    else
      (ByteAt(d, at) + 256 * ByteAt(d, at + 1) + 0x1_0000 * ByteAt(d, at + 2) + 0x100_0000 * ByteAt(d, at + 3), at + 4)
  }

  function ReadU64(d: Bytes, at: nat): (u64, nat) {
    var (lo, p) := ReadU32(d, at);
    var (hi, q) := ReadU32(d, p);
    (lo + TWO_32 * hi, q)
  }

  function ReadString(d: Bytes, at: nat): (Bytes, nat) {
    var (len, p) := ReadU16(d, at);
    ReadBytes(d, p, len)
  }

  function ReadBytes(d: Bytes, at: nat, len: nat): (Bytes, nat) {
    if at + len > |d| then ([], at) else (d[at..at + len], at + len)
  }

  function ReadStrings(d: Bytes, at: nat, n: nat): (seq<Bytes>, nat)
    decreases n
  {
    if n == 0 then ([], at)
    else
      var (s, p) := ReadString(d, at);
      var (rest, q) := ReadStrings(d, p, n - 1);
      ([s] + rest, q)
  }

  function ReadField(k: Kind, d: Bytes, at: nat): (Field, nat) {
    match k
    case K32 => var (n, p) := ReadU32(d, at); (F32(n), p)
    case K64 => var (l, p) := ReadU64(d, at); (F64(l), p)
    case KStr => var (s, p) := ReadString(d, at); (FStr(s), p)
    case KNames =>
      var (n, p) := ReadU16(d, at);
      var (names, q) := ReadStrings(d, p, n);
      (FNames(names), q)
    case KData =>
      var (n, p) := ReadU32(d, at);
      var (data, q) := ReadBytes(d, p, n);
      (FData(data), q)
  }

  function ReadFields(ks: seq<Kind>, d: Bytes, at: nat): (seq<Field>, nat) {
    if ks == [] then ([], at)
    else
      var (f, p) := ReadField(ks[0], d, at);
      var (rest, q) := ReadFields(ks[1..], d, p);
      ([f] + rest, q)
  }

  /** The field kinds of each request type (section 5 of the Plan 9 manual, 9P2000.L). */
  function Schema(code: u8): Option<seq<Kind>> {
    match code
    case 100 => Some([K32, KStr])
    case 104 => Some([K32, K32, KStr, KStr, K32])
    case 110 => Some([K32, K32, KNames])
    case 12 => Some([K32, K32])
    case 14 => Some([K32, KStr, K32, K32, K32])
    case 116 => Some([K32, K64, K32])
    case 118 => Some([K32, K64, KData])
    case 120 => Some([K32])
    case 24 => Some([K32, K64])
    case 40 => Some([K32, K64, K32])
    case 72 => Some([K32, KStr, K32, K32])
    case 76 => Some([K32, KStr, K32])
    case 74 => Some([K32, KStr, K32, KStr])
    case _ => None
  }

  predicate Matches(ks: seq<Kind>, fs: seq<Field>) {
    |ks| == |fs| && forall i :: 0 <= i < |ks| ==> KindOf(fs[i]) == ks[i]
  }

  function KindOf(f: Field): Kind {
    match f
    case F32(_) => K32
    case F64(_) => K64
    case FStr(_) => KStr
    case FNames(_) => KNames
    case FData(_) => KData
  }

  function GetSize(d: Bytes): u32 {
    if |d| < 4 then 0 else ReadU32(d, 0).0
  }

  function GetType(d: Bytes): u8 {
    if |d| < HEADER_SIZE then 6 else d[4]
  }

  function GetTag(d: Bytes): u16 {
    if |d| < HEADER_SIZE then 0 else ReadU16(d, 5).0
  }

  // ------------------------------------------------ round trips

  /** x stands in d at position `at`. */
  ghost predicate Here(d: Bytes, at: nat, x: Bytes) {
    at + |x| <= |d| && d[at..at + |x|] == x
  }

  lemma HereSplit(d: Bytes, at: nat, x: Bytes, y: Bytes)
    requires Here(d, at, x + y)
    ensures Here(d, at, x) && Here(d, at + |x|, y)
  {
    var w := d[at..at + |x + y|];
    assert d[at..at + |x|] == w[..|x|];
    assert d[at + |x|..at + |x| + |y|] == w[|x|..];
    assert (x + y)[..|x|] == x && (x + y)[|x|..] == y;
  }

  lemma U16Here(d: Bytes, at: nat, v: u16)
    requires Here(d, at, U16(v))
    ensures ReadU16(d, at) == (v, at + 2)
  {
    var w := d[at..at + 2];
    assert w[0] == d[at] && w[1] == d[at + 1];
    assert U16(v)[0] == v % 256;
    assert U16(v)[1] == Le(v / 256, 1)[0] == v / 256 % 256;
  }

  lemma U32Here(d: Bytes, at: nat, v: u32)
    requires Here(d, at, U32(v))
    ensures ReadU32(d, at) == (v, at + 4)
  {
    var w := d[at..at + 4];
    assert w[0] == d[at] && w[1] == d[at + 1] && w[2] == d[at + 2] && w[3] == d[at + 3];
    FourBytes(v);
  }

  lemma FourBytes(v: u32)
    ensures var b := U32(v);
            ByteAt(b, 0) + 256 * ByteAt(b, 1) + 0x1_0000 * ByteAt(b, 2) + 0x100_0000 * ByteAt(b, 3) == v
  {
    var a, b, c := v / 256, v / 256 / 256, v / 256 / 256 / 256;
    assert U32(v)[0] == v % 256;
    assert U32(v)[1] == Le(a, 3)[0] == a % 256;
    assert U32(v)[2] == Le(b, 2)[0] == b % 256;
    assert U32(v)[3] == Le(c, 1)[0] == c % 256 == c;
  }

  lemma U64Here(d: Bytes, at: nat, v: u64)
    requires Here(d, at, U64(v))
    ensures ReadU64(d, at) == (v, at + 8)
  {
    HereSplit(d, at, U32(v % TWO_32), U32(v / TWO_32));
    U32Here(d, at, v % TWO_32);
    U32Here(d, at + 4, v / TWO_32);
  }

  lemma BytesHere(d: Bytes, at: nat, x: Bytes)
    requires Here(d, at, x)
    ensures ReadBytes(d, at, |x|) == (x, at + |x|)
  {}

  lemma StringHere(d: Bytes, at: nat, s: Bytes)
    requires Here(d, at, Str(s)) && |s| < 0x1_0000
    ensures ReadString(d, at) == (s, at + |Str(s)|)
  {
    HereSplit(d, at, U16(|s| % 0x1_0000), s);
    U16Here(d, at, |s| % 0x1_0000);
    BytesHere(d, at + 2, s);
  }

  /** A string survives the wire exactly when its length fits 16 bits. */
  lemma StringRoundTripIff(s: Bytes, rest: Bytes)
    ensures ReadString(Str(s) + rest, 0).0 == s <==> |s| < 0x1_0000
  {
    var d := Str(s) + rest;
    assert d[0..|Str(s)|] == Str(s);
    HereSplit(d, 0, U16(|s| % 0x1_0000), s);
    U16Here(d, 0, |s| % 0x1_0000);
    if |s| < 0x1_0000 {
      StringHere(d, 0, s);
    } else {
      assert |ReadString(d, 0).0| < 0x1_0000;
    }
  }

  lemma {:induction false} StringsHere(d: Bytes, at: nat, names: seq<Bytes>)
    requires Here(d, at, Strs(names)) && forall s <- names :: |s| < 0x1_0000
    ensures ReadStrings(d, at, |names|) == (names, at + |Strs(names)|)
    decreases |names|
  {
    hide Str, ReadString, Here;
    if names != [] {
      var first, rest := names[0], names[1..];
      assert Strs(names) == Str(first) + Strs(rest);
      HereSplit(d, at, Str(first), Strs(rest));
      StringHere(d, at, first);
      StringsHere(d, at + |Str(first)|, rest);
      StringsStep(d, at, |names|, first, at + |Str(first)|);
      hide ReadStrings, Strs;
      assert names == [first] + rest;
    }
  }

  lemma StringsStep(d: Bytes, at: nat, n: nat, s: Bytes, p: nat)
    requires n > 0 && ReadString(d, at) == (s, p)
    ensures var (rest, q) := ReadStrings(d, p, n - 1); ReadStrings(d, at, n) == ([s] + rest, q)
  {
    hide ReadString;
  }

  /** Lengths fit their length fields. */
  predicate FieldFits(f: Field) {
    match f
    case FStr(s) => |s| < 0x1_0000
    case FNames(names) => |names| < 0x1_0000 && forall s <- names :: |s| < 0x1_0000
    case FData(data) => |data| < TWO_32
    case _ => true
  }

  lemma NamesHere(d: Bytes, at: nat, names: seq<Bytes>)
    requires Here(d, at, U16(|names| % 0x1_0000) + Strs(names)) && FieldFits(FNames(names))
    ensures ReadField(KNames, d, at) == (FNames(names), at + |FieldBytes(FNames(names))|)
  {
    hide Strs, Here, ReadU16, ReadStrings;
    HereSplit(d, at, U16(|names| % 0x1_0000), Strs(names));
    U16Here(d, at, |names| % 0x1_0000);
    StringsHere(d, at + 2, names);
  }

  lemma DataHere(d: Bytes, at: nat, data: Bytes)
    requires Here(d, at, U32(|data| % TWO_32) + data) && |data| < TWO_32
    ensures ReadField(KData, d, at) == (FData(data), at + 4 + |data|)
  {
    hide Here, ReadU32, ReadBytes, FieldFits, FieldBytes;
    var n: u32 := |data|;
    hide Le;
    HereSplit(d, at, U32(n), data);
    U32Here(d, at, n);
    BytesHere(d, at + 4, data);
  }

  lemma FieldHere(d: Bytes, at: nat, f: Field)
    requires Here(d, at, FieldBytes(f)) && FieldFits(f)
    ensures ReadField(KindOf(f), d, at) == (f, at + |FieldBytes(f)|)
  {
    hide Here, Str, Strs, Le, ReadU16, ReadU32, ReadU64, ReadString, ReadStrings, ReadBytes;
    match f
    case F32(n) => U32Here(d, at, n);
    case F64(l) => U64Here(d, at, l);
    case FStr(s) => StringHere(d, at, s);
    case FNames(names) => NamesHere(d, at, names);
    case FData(data) => DataHere(d, at, data);
  }

  lemma NoFields(ks: seq<Kind>, d: Bytes, at: nat, fs: seq<Field>)
    requires Readable(ks, fs) && |fs| == 0
    ensures ReadFields(ks, d, at) == (fs, at + |FieldsBytes(fs)|)
  {}

  lemma FieldsStep(ks: seq<Kind>, d: Bytes, at: nat)
    requires |ks| > 0
    ensures var (f, p) := ReadField(ks[0], d, at);
            var (rest, q) := ReadFields(ks[1..], d, p);
            ReadFields(ks, d, at) == ([f] + rest, q)
  {
    hide ReadField;
  }

  /** The kinds match and all lengths fit. */
  ghost predicate Readable(ks: seq<Kind>, fs: seq<Field>) {
    Matches(ks, fs) && forall f <- fs :: FieldFits(f)
  }

  lemma FirstFits(ks: seq<Kind>, fs: seq<Field>)
    requires |fs| > 0 && Readable(ks, fs)
    ensures |ks| > 0 && Readable(ks[1..], fs[1..]) && FieldFits(fs[0]) && KindOf(fs[0]) == ks[0]
  {
    hide FieldFits, KindOf;
    assert fs[0] in fs;
    forall f | f in fs[1..] ensures FieldFits(f) { assert f in fs; }
  }

  lemma FieldsSplit(fs: seq<Field>)
    requires |fs| > 0
    ensures FieldsBytes(fs) == FieldBytes(fs[0]) + FieldsBytes(fs[1..])
  {
    hide FieldBytes;
  }

  /** The field at the cursor, and the rest behind it. */
  lemma FirstField(ks: seq<Kind>, d: Bytes, at: nat, fs: seq<Field>)
    requires |fs| > 0 && Here(d, at, FieldsBytes(fs)) && Readable(ks, fs)
    ensures |ks| > 0 && Readable(ks[1..], fs[1..])
    ensures var size := |FieldBytes(fs[0])|;
            && ReadField(ks[0], d, at) == (fs[0], at + size)
            && |FieldsBytes(fs)| == size + |FieldsBytes(fs[1..])|
            && Here(d, at + size, FieldsBytes(fs[1..]))
  {
    hide *;
    FirstFits(ks, fs);
    FieldsSplit(fs);
    HereSplit(d, at, FieldBytes(fs[0]), FieldsBytes(fs[1..]));
    FieldHere(d, at, fs[0]);
  }

  lemma {:induction false} FieldsHere(ks: seq<Kind>, d: Bytes, at: nat, fs: seq<Field>)
    requires Here(d, at, FieldsBytes(fs)) && Readable(ks, fs)
    ensures ReadFields(ks, d, at) == (fs, at + |FieldsBytes(fs)|)
    decreases |fs|
  {
    hide *;
    if |fs| == 0 {
      NoFields(ks, d, at, fs);
    } else {
      FirstField(ks, d, at, fs);
      FieldsHere(ks[1..], d, at + |FieldBytes(fs[0])|, fs[1..]);
      FieldsStep(ks, d, at);
      Uncons(fs);
    }
  }

  lemma Uncons<T>(s: seq<T>)
    requires |s| > 0
    ensures [s[0]] + s[1..] == s
  {}

  predicate Fits(m: TMsg) {
    && (forall f <- Fields(m) :: FieldFits(f))
    && HEADER_SIZE + |FieldsBytes(Fields(m))| < TWO_32
  }

  /** Main result: every request whose lengths fit is read back field by field from its own
      bytes, to the last byte, with its size, type and tag in the header. */
  lemma EncodeThenRead(m: TMsg)
    requires Fits(m)
    ensures var d := Encode(m);
            && GetSize(d) == |d| && GetType(d) == TypeCode(m) && GetTag(d) == TagOf(m)
            && Schema(GetType(d)).Some?
            && ReadFields(Schema(GetType(d)).value, d, HEADER_SIZE) == (Fields(m), |d|)
  {
    hide *;
    var fs, code, tag := Fields(m), TypeCode(m), TagOf(m);
    EncodeParts(m);
    SchemaReads(m);
    HeaderHere(code, tag, FieldsBytes(fs));
    FieldsHere(Schema(code).value, Encode(m), HEADER_SIZE, fs);
  }

  lemma EncodeParts(m: TMsg)
    ensures var body := FieldsBytes(Fields(m));
            Encode(m) == Header(HEADER_SIZE + |body|, TypeCode(m), TagOf(m)) + body
  {}

  lemma SchemaReads(m: TMsg)
    requires Fits(m)
    ensures HEADER_SIZE + |FieldsBytes(Fields(m))| < TWO_32
    ensures Schema(TypeCode(m)).Some? && Readable(Schema(TypeCode(m)).value, Fields(m))
  {
    SchemaMatches(m);
    hide Fields, FieldsBytes, FieldFits, TypeCode, Schema, Matches;
  }

  /** A message's header says its size, type and tag, and its body starts behind it. */
  lemma HeaderHere(code: u8, tag: u16, body: Bytes)
    requires HEADER_SIZE + |body| < TWO_32
    ensures var d := Header(HEADER_SIZE + |body|, code, tag) + body;
            && |d| == HEADER_SIZE + |body|
            && GetSize(d) == |d| && GetType(d) == code && GetTag(d) == tag
            && Here(d, HEADER_SIZE, body)
  {
    hide Le;
    var size := HEADER_SIZE + |body|;
    var d := Header(size, code, tag) + body;
    assert d == U32(size) + ([code] + (U16(tag) + body));
    assert d[0..|d|] == d;
    HereSplit(d, 0, U32(size), [code] + (U16(tag) + body));
    U32Here(d, 0, size);
    HereSplit(d, 4, [code], U16(tag) + body);
    assert d[4] == d[4..5][0];
    HereSplit(d, 5, U16(tag), body);
    U16Here(d, 5, tag);
  }

  lemma SchemaMatches(m: TMsg)
    ensures Schema(TypeCode(m)).Some? && Matches(Schema(TypeCode(m)).value, Fields(m))
  {}

  /** A write request is 23 bytes longer than its data, so it fits the bounce buffer of the
      transports exactly up to kMaxMessageSize less that. */
  lemma TwriteFitsIff(m: TMsg)
    requires m.Twrite?
    ensures |Encode(m)| == HEADER_SIZE + 16 + |m.data|
    ensures |Encode(m)| <= MAX_MESSAGE_SIZE <==> |m.data| <= MAX_MESSAGE_SIZE - 23
  {
    var a, b, c := F32(m.fid), F64(m.offset), FData(m.data);
    assert [c][1..] == [] && [b, c][1..] == [c] && [a, b, c][1..] == [b, c];
    assert FieldsBytes([c]) == FieldBytes(c) + FieldsBytes([]);
    assert FieldsBytes([b, c]) == FieldBytes(b) + FieldsBytes([c]);
    assert FieldsBytes([a, b, c]) == FieldBytes(a) + FieldsBytes([b, c]);
    assert Fields(m) == [a, b, c];
  }

  /** Type, tag and fields are the whole message: nothing is lost before the bytes. */
  lemma FieldsDetermine(m: TMsg, n: TMsg)
    requires TypeCode(m) == TypeCode(n) && TagOf(m) == TagOf(n) && Fields(m) == Fields(n)
    ensures m == n
  {
    var fs, gs := Fields(m), Fields(n);
    assert forall i :: 0 <= i < |fs| ==> fs[i] == gs[i];
  }

  /** Hence different requests never share a wire form. */
  lemma EncodeInjective(m: TMsg, n: TMsg)
    requires Fits(m) && Fits(n) && Encode(m) == Encode(n)
    ensures m == n
  {
    EncodeThenRead(m);
    EncodeThenRead(n);
    FieldsDetermine(m, n);
  }

  // ------------------------------------------------ where every argument stands

  /** d is a message of this type and tag that says its length. */
  predicate Headed(d: Bytes, code: u8, tag: u16) {
    |d| >= 7 && ReadU32(d, 0) == (|d|, 4) && d[4] == code && ReadU16(d, 5) == (tag, 7)
  }

  /** The helpers, called in the standard's order, find the arguments of m in d, up to its end
      (section 5 of the Plan 9 manual and the 9P2000.L protocol). */
  predicate ReadsBack(d: Bytes, m: TMsg) {
    match m
    case Tversion(msize, version) =>
      Headed(d, 100, 0xFFFF) && ReadU32(d, 7) == (msize, 11) && ReadString(d, 11) == (version, |d|)
    case Tattach(tag, fid, afid, uname, aname, nUname) =>
      var a := 17 + |uname|;
      && Headed(d, 104, tag) && ReadU32(d, 7) == (fid, 11) && ReadU32(d, 11) == (afid, 15)
      && ReadString(d, 15) == (uname, a) && ReadString(d, a) == (aname, a + 2 + |aname|)
      && ReadU32(d, a + 2 + |aname|) == (nUname, |d|)
    case Twalk(tag, fid, newfid, names) =>
      && Headed(d, 110, tag) && ReadU32(d, 7) == (fid, 11) && ReadU32(d, 11) == (newfid, 15)
      && ReadU16(d, 15) == (|names|, 17) && ReadStrings(d, 17, |names|) == (names, |d|)
    case Tlopen(tag, fid, flags) =>
      Headed(d, 12, tag) && ReadU32(d, 7) == (fid, 11) && ReadU32(d, 11) == (flags, |d|)
    case Tlcreate(tag, fid, name, flags, mode, gid) =>
      var a := 13 + |name|;
      && Headed(d, 14, tag) && ReadU32(d, 7) == (fid, 11) && ReadString(d, 11) == (name, a)
      && ReadU32(d, a) == (flags, a + 4) && ReadU32(d, a + 4) == (mode, a + 8) && ReadU32(d, a + 8) == (gid, |d|)
    case Tread(tag, fid, offset, count) =>
      && Headed(d, 116, tag) && ReadU32(d, 7) == (fid, 11)
      && ReadU64(d, 11) == (offset, 19) && ReadU32(d, 19) == (count, |d|)
    case Twrite(tag, fid, offset, data) =>
      && Headed(d, 118, tag) && ReadU32(d, 7) == (fid, 11) && ReadU64(d, 11) == (offset, 19)
      && ReadU32(d, 19) == (|data|, 23) && ReadBytes(d, 23, |data|) == (data, |d|)
    case Tclunk(tag, fid) =>
      Headed(d, 120, tag) && ReadU32(d, 7) == (fid, |d|)
    case Tgetattr(tag, fid, mask) =>
      Headed(d, 24, tag) && ReadU32(d, 7) == (fid, 11) && ReadU64(d, 11) == (mask, |d|)
    case Treaddir(tag, fid, offset, count) =>
      && Headed(d, 40, tag) && ReadU32(d, 7) == (fid, 11)
      && ReadU64(d, 11) == (offset, 19) && ReadU32(d, 19) == (count, |d|)
    case Tmkdir(tag, fid, name, mode, gid) =>
      var a := 13 + |name|;
      && Headed(d, 72, tag) && ReadU32(d, 7) == (fid, 11) && ReadString(d, 11) == (name, a)
      && ReadU32(d, a) == (mode, a + 4) && ReadU32(d, a + 4) == (gid, |d|)
    case Tunlinkat(tag, fid, name, flags) =>
      && Headed(d, 76, tag) && ReadU32(d, 7) == (fid, 11)
      && ReadString(d, 11) == (name, 13 + |name|) && ReadU32(d, 13 + |name|) == (flags, |d|)
    case Trenameat(tag, fid, oldname, newfid, newname) =>
      var a := 13 + |oldname|;
      && Headed(d, 74, tag) && ReadU32(d, 7) == (fid, 11) && ReadString(d, 11) == (oldname, a)
      && ReadU32(d, a) == (newfid, a + 4) && ReadString(d, a + 4) == (newname, |d|)
  }

  /** Strings have at most 65535 bytes, and there are no more names than that. */
  predicate LengthsFit(m: TMsg) {
    match m
    case Tversion(_, version) => |version| < 65536
    case Tattach(_, _, _, uname, aname, _) => |uname| < 65536 && |aname| < 65536
    case Twalk(_, _, _, names) => |names| < 65536 && forall s <- names :: |s| < 65536
    case Tlcreate(_, _, name, _, _, _) => |name| < 65536
    case Tmkdir(_, _, name, _, _) => |name| < 65536
    case Tunlinkat(_, _, name, _) => |name| < 65536
    case Trenameat(_, _, oldname, _, newname) => |oldname| < 65536 && |newname| < 65536
    case _ => true
  }

  /** From here to the end d consists of these fields. */
  ghost predicate Tail(d: Bytes, at: nat, fs: seq<Field>) {
    at <= |d| && d[at..] == FieldsBytes(fs)
  }

  lemma TailEnd(d: Bytes, at: nat)
    requires Tail(d, at, [])
    ensures at == |d|
  {
    assert |d[at..]| == |d| - at;
  }

  lemma TailStep(d: Bytes, at: nat, f: Field, fs: seq<Field>)
    requires Tail(d, at, [f] + fs)
    ensures Here(d, at, FieldBytes(f)) && Tail(d, at + |FieldBytes(f)|, fs)
  {
    hide FieldBytes;
    var tail, size := d[at..], |FieldBytes(f)|;
    assert ([f] + fs)[1..] == fs;
    assert tail == FieldBytes(f) + FieldsBytes(fs);
    assert d[at..at + size] == tail[..size];
    assert d[at + size..] == tail[size..];
  }

  lemma TailU32(d: Bytes, at: nat, n: u32, fs: seq<Field>)
    requires Tail(d, at, [F32(n)] + fs)
    ensures ReadU32(d, at) == (n, at + 4) && Tail(d, at + 4, fs)
  {
    TailStep(d, at, F32(n), fs);
    hide Tail, Here, ReadU32;
    U32Here(d, at, n);
  }

  lemma TailU64(d: Bytes, at: nat, n: u64, fs: seq<Field>)
    requires Tail(d, at, [F64(n)] + fs)
    ensures ReadU64(d, at) == (n, at + 8) && Tail(d, at + 8, fs)
  {
    TailStep(d, at, F64(n), fs);
    hide Tail, Here, ReadU64;
    U64Here(d, at, n);
  }

  lemma TailString(d: Bytes, at: nat, x: Bytes, fs: seq<Field>)
    requires Tail(d, at, [FStr(x)] + fs) && |x| < 65536
    ensures ReadString(d, at) == (x, at + 2 + |x|) && Tail(d, at + 2 + |x|, fs)
  {
    TailStep(d, at, FStr(x), fs);
    hide Tail, Here, ReadString;
    StringHere(d, at, x);
  }

  lemma TailNames(d: Bytes, at: nat, names: seq<Bytes>)
    requires Tail(d, at, [FNames(names)] + []) && |names| < 65536 && forall x <- names :: |x| < 65536
    ensures ReadU16(d, at) == (|names|, at + 2) && ReadStrings(d, at + 2, |names|) == (names, |d|)
  {
    hide *;
    TailStep(d, at, FNames(names), []);
    TailEnd(d, at + |FieldBytes(FNames(names))|);
    NamesBytes(names);
    HereSplit(d, at, U16(|names|), Strs(names));
    U16Here(d, at, |names|);
    StringsHere(d, at + 2, names);
  }

  lemma NamesBytes(names: seq<Bytes>)
    requires |names| < 65536
    ensures |U16(|names|)| == 2 && FieldBytes(FNames(names)) == U16(|names|) + Strs(names)
  {
    hide Strs, Le;
  }

  lemma TailData(d: Bytes, at: nat, data: Bytes)
    requires Tail(d, at, [FData(data)] + []) && |data| < 0x1_0000_0000
    ensures ReadU32(d, at) == (|data|, at + 4) && ReadBytes(d, at + 4, |data|) == (data, |d|)
  {
    hide *;
    TailStep(d, at, FData(data), []);
    TailEnd(d, at + |FieldBytes(FData(data))|);
    DataBytes(data);
    HereSplit(d, at, U32(|data|), data);
    U32Here(d, at, |data|);
    BytesHere(d, at + 4, data);
  }

  lemma DataBytes(data: Bytes)
    requires |data| < 0x1_0000_0000
    ensures |U32(|data|)| == 4 && FieldBytes(FData(data)) == U32(|data|) + data
  {
    hide Le;
  }

  lemma Starts(m: TMsg)
    requires |Encode(m)| < 0x1_0000_0000
    ensures Headed(Encode(m), TypeCode(m), TagOf(m)) && Tail(Encode(m), 7, Fields(m))
  {
    var d, body := Encode(m), FieldsBytes(Fields(m));
    HeaderHere(TypeCode(m), TagOf(m), body);
    hide Fields, FieldsBytes, TypeCode, TagOf, Header;
    assert d[7..] == d[7..7 + |body|];
  }

  /** Requests without a name or an offset. */
  lemma FidReadsBack(m: TMsg)
    requires m.Tlopen? || m.Tclunk? || m.Tgetattr?
    requires |Encode(m)| < 0x1_0000_0000
    ensures ReadsBack(Encode(m), m)
  {
    Starts(m);
    var d := Encode(m);
    hide Encode, Tail, Headed, ReadU16, ReadU32, ReadU64, ReadString, ReadStrings, ReadBytes;
    match m
    case Tlopen(_, fid, flags) =>
      assert Fields(m) == [F32(fid)] + ([F32(flags)] + []);
      TailU32(d, 7, fid, [F32(flags)] + []);
      TailU32(d, 11, flags, []);
      TailEnd(d, 15);
    case Tclunk(_, fid) =>
      assert Fields(m) == [F32(fid)] + [];
      TailU32(d, 7, fid, []);
      TailEnd(d, 11);
    case Tgetattr(_, fid, mask) =>
      assert Fields(m) == [F32(fid)] + ([F64(mask)] + []);
      TailU32(d, 7, fid, [F64(mask)] + []);
      TailU64(d, 11, mask, []);
      TailEnd(d, 19);
  }

  /** Requests at an offset. */
  lemma DataReadsBack(m: TMsg)
    requires m.Tread? || m.Twrite? || m.Treaddir?
    requires |Encode(m)| < 0x1_0000_0000
    ensures ReadsBack(Encode(m), m)
  {
    Starts(m);
    var d := Encode(m);
    if m.Twrite? { TwriteFitsIff(m); }
    hide Encode, Tail, Headed, ReadU16, ReadU32, ReadU64, ReadString, ReadStrings, ReadBytes;
    if m.Twrite? {
      var rest := [FData(m.data)] + [];
      assert Fields(m) == [F32(m.fid)] + ([F64(m.offset)] + rest);
      TailU32(d, 7, m.fid, [F64(m.offset)] + rest);
      TailU64(d, 11, m.offset, rest);
      TailData(d, 19, m.data);
    } else {
      var rest := [F32(m.count)] + [];
      assert Fields(m) == [F32(m.fid)] + ([F64(m.offset)] + rest);
      TailU32(d, 7, m.fid, [F64(m.offset)] + rest);
      TailU64(d, 11, m.offset, rest);
      TailU32(d, 19, m.count, []);
      TailEnd(d, 23);
    }
  }

  /** Requests with names. */
  lemma VersionReadsBack(m: TMsg)
    requires m.Tversion? && LengthsFit(m) && |Encode(m)| < 0x1_0000_0000
    ensures ReadsBack(Encode(m), m)
  {
    Starts(m);
    var d := Encode(m);
    hide Encode, Tail, Headed, ReadU16, ReadU32, ReadU64, ReadString, ReadStrings, ReadBytes;
    assert Fields(m) == [F32(m.msize)] + ([FStr(m.version)] + []);
    TailU32(d, 7, m.msize, [FStr(m.version)] + []);
    TailString(d, 11, m.version, []);
    TailEnd(d, 13 + |m.version|);
  }

  lemma WalkReadsBack(m: TMsg)
    requires m.Twalk? && LengthsFit(m) && |Encode(m)| < 0x1_0000_0000
    ensures ReadsBack(Encode(m), m)
  {
    Starts(m);
    var d := Encode(m);
    hide Encode, Tail, Headed, ReadU16, ReadU32, ReadU64, ReadString, ReadStrings, ReadBytes;
    assert Fields(m) == [F32(m.fid)] + ([F32(m.newfid)] + ([FNames(m.names)] + []));
    TailU32(d, 7, m.fid, [F32(m.newfid)] + ([FNames(m.names)] + []));
    TailU32(d, 11, m.newfid, [FNames(m.names)] + []);
    TailNames(d, 15, m.names);
  }

  lemma AttachReadsBack(m: TMsg)
    requires m.Tattach? && LengthsFit(m) && |Encode(m)| < 0x1_0000_0000
    ensures ReadsBack(Encode(m), m)
  {
    Starts(m);
    AttachFields(m);
    hide Encode, Tail, Headed, ReadU16, ReadU32, ReadU64, ReadString, ReadStrings, ReadBytes;
    hide Fields;
    AttachTail(Encode(m), m.fid, m.afid, m.uname, m.aname, m.nUname);
  }

  lemma AttachFields(m: TMsg)
    requires m.Tattach?
    ensures Fields(m) ==
            [F32(m.fid)] + ([F32(m.afid)] + ([FStr(m.uname)] + ([FStr(m.aname)] + ([F32(m.nUname)] + []))))
  {}

  lemma AttachTail(d: Bytes, fid: u32, afid: u32, uname: Bytes, aname: Bytes, nUname: u32)
    requires Tail(d, 7, [F32(fid)] + ([F32(afid)] + ([FStr(uname)] + ([FStr(aname)] + ([F32(nUname)] + [])))))
    requires |uname| < 65536 && |aname| < 65536
    ensures ReadU32(d, 7) == (fid, 11) && ReadU32(d, 11) == (afid, 15)
    ensures var a := 17 + |uname|;
            && ReadString(d, 15) == (uname, a) && ReadString(d, a) == (aname, a + 2 + |aname|)
            && ReadU32(d, a + 2 + |aname|) == (nUname, |d|)
  {
    hide *;
    var a, last := 17 + |uname|, [F32(nUname)] + [];
    var names := [FStr(uname)] + ([FStr(aname)] + last);
    TailU32(d, 7, fid, [F32(afid)] + names);
    TailU32(d, 11, afid, names);
    TailString(d, 15, uname, [FStr(aname)] + last);
    TailString(d, a, aname, last);
    TailU32(d, a + 2 + |aname|, nUname, []);
    TailEnd(d, a + 6 + |aname|);
  }

  lemma CreateReadsBack(m: TMsg)
    requires m.Tlcreate? && LengthsFit(m) && |Encode(m)| < 0x1_0000_0000
    ensures ReadsBack(Encode(m), m)
  {
    Starts(m);
    CreateFields(m);
    hide Encode, Tail, Headed, ReadU16, ReadU32, ReadU64, ReadString, ReadStrings, ReadBytes;
    hide Fields;
    CreateTail(Encode(m), m.fid, m.name, m.flags, m.mode, m.gid);
  }

  lemma CreateFields(m: TMsg)
    requires m.Tlcreate?
    ensures Fields(m) == [F32(m.fid)] + ([FStr(m.name)] + ([F32(m.flags)] + ([F32(m.mode)] + ([F32(m.gid)] + []))))
  {}

  lemma CreateTail(d: Bytes, fid: u32, name: Bytes, flags: u32, mode: u32, gid: u32)
    requires Tail(d, 7, [F32(fid)] + ([FStr(name)] + ([F32(flags)] + ([F32(mode)] + ([F32(gid)] + [])))))
    requires |name| < 65536
    ensures ReadU32(d, 7) == (fid, 11)
    ensures var a := 13 + |name|;
            && ReadString(d, 11) == (name, a) && ReadU32(d, a) == (flags, a + 4)
            && ReadU32(d, a + 4) == (mode, a + 8) && ReadU32(d, a + 8) == (gid, |d|)
  {
    hide *;
    var a, last := 13 + |name|, [F32(gid)] + [];
    var numbers := [F32(flags)] + ([F32(mode)] + last);
    TailU32(d, 7, fid, [FStr(name)] + numbers);
    TailString(d, 11, name, numbers);
    TailU32(d, a, flags, [F32(mode)] + last);
    TailU32(d, a + 4, mode, last);
    TailU32(d, a + 8, gid, []);
    TailEnd(d, a + 12);
  }

  lemma MkdirReadsBack(m: TMsg)
    requires m.Tmkdir? && LengthsFit(m) && |Encode(m)| < 0x1_0000_0000
    ensures ReadsBack(Encode(m), m)
  {
    Starts(m);
    MkdirFields(m);
    hide Encode, Tail, Headed, ReadU16, ReadU32, ReadU64, ReadString, ReadStrings, ReadBytes;
    hide Fields;
    MkdirTail(Encode(m), m.fid, m.name, m.mode, m.gid);
  }

  lemma MkdirFields(m: TMsg)
    requires m.Tmkdir?
    ensures Fields(m) == [F32(m.fid)] + ([FStr(m.name)] + ([F32(m.mode)] + ([F32(m.gid)] + [])))
  {}

  lemma MkdirTail(d: Bytes, fid: u32, name: Bytes, mode: u32, gid: u32)
    requires Tail(d, 7, [F32(fid)] + ([FStr(name)] + ([F32(mode)] + ([F32(gid)] + []))))
    requires |name| < 65536
    ensures ReadU32(d, 7) == (fid, 11)
    ensures var a := 13 + |name|;
            && ReadString(d, 11) == (name, a) && ReadU32(d, a) == (mode, a + 4) && ReadU32(d, a + 4) == (gid, |d|)
  {
    hide *;
    var a, last := 13 + |name|, [F32(gid)] + [];
    TailU32(d, 7, fid, [FStr(name)] + ([F32(mode)] + last));
    TailString(d, 11, name, [F32(mode)] + last);
    TailU32(d, a, mode, last);
    TailU32(d, a + 4, gid, []);
    TailEnd(d, a + 8);
  }

  lemma UnlinkReadsBack(m: TMsg)
    requires m.Tunlinkat? && LengthsFit(m) && |Encode(m)| < 0x1_0000_0000
    ensures ReadsBack(Encode(m), m)
  {
    Starts(m);
    var d, a := Encode(m), 13 + |m.name|;
    hide Encode, Tail, Headed, ReadU16, ReadU32, ReadU64, ReadString, ReadStrings, ReadBytes;
    assert Fields(m) == [F32(m.fid)] + ([FStr(m.name)] + ([F32(m.flags)] + []));
    TailU32(d, 7, m.fid, [FStr(m.name)] + ([F32(m.flags)] + []));
    TailString(d, 11, m.name, [F32(m.flags)] + []);
    TailU32(d, a, m.flags, []);
    TailEnd(d, a + 4);
  }

  lemma RenameReadsBack(m: TMsg)
    requires m.Trenameat? && LengthsFit(m) && |Encode(m)| < 0x1_0000_0000
    ensures ReadsBack(Encode(m), m)
  {
    Starts(m);
    RenameFields(m);
    hide Encode, Tail, Headed, ReadU16, ReadU32, ReadU64, ReadString, ReadStrings, ReadBytes;
    hide Fields;
    RenameTail(Encode(m), m.fid, m.oldname, m.newfid, m.newname);
  }

  lemma RenameFields(m: TMsg)
    requires m.Trenameat?
    ensures Fields(m) == [F32(m.fid)] + ([FStr(m.oldname)] + ([F32(m.newfid)] + ([FStr(m.newname)] + [])))
  {}

  lemma RenameTail(d: Bytes, fid: u32, oldname: Bytes, newfid: u32, newname: Bytes)
    requires Tail(d, 7, [F32(fid)] + ([FStr(oldname)] + ([F32(newfid)] + ([FStr(newname)] + []))))
    requires |oldname| < 65536 && |newname| < 65536
    ensures ReadU32(d, 7) == (fid, 11)
    ensures var a := 13 + |oldname|;
            && ReadString(d, 11) == (oldname, a)
            && ReadU32(d, a) == (newfid, a + 4) && ReadString(d, a + 4) == (newname, |d|)
  {
    hide *;
    var a, last := 13 + |oldname|, [FStr(newname)] + [];
    TailU32(d, 7, fid, [FStr(oldname)] + ([F32(newfid)] + last));
    TailString(d, 11, oldname, [F32(newfid)] + last);
    TailU32(d, a, newfid, last);
    TailString(d, a + 4, newname, []);
    TailEnd(d, a + 6 + |newname|);
  }

  /** Main result: in the bytes of a request whose lengths fit every argument stands where the
      protocol has it. */
  lemma EncodeReadsBack(m: TMsg)
    requires LengthsFit(m) && |Encode(m)| < 0x1_0000_0000
    ensures ReadsBack(Encode(m), m)
  {
    hide *;
    match m
    case Tversion(_, _) => VersionReadsBack(m);
    case Tattach(_, _, _, _, _, _) => AttachReadsBack(m);
    case Twalk(_, _, _, _) => WalkReadsBack(m);
    case Tlcreate(_, _, _, _, _, _) => CreateReadsBack(m);
    case Tmkdir(_, _, _, _, _) => MkdirReadsBack(m);
    case Tunlinkat(_, _, _, _) => UnlinkReadsBack(m);
    case Trenameat(_, _, _, _, _) => RenameReadsBack(m);
    case Tread(_, _, _, _) => DataReadsBack(m);
    case Twrite(_, _, _, _) => DataReadsBack(m);
    case Treaddir(_, _, _, _) => DataReadsBack(m);
    case _ => FidReadsBack(m);
  }

  /** What the numbers are in bytes: least significant first. */
  lemma NumberBytes(x: u16, y: u32, z: u32)
    ensures U16(x) == [x % 0x100, x / 0x100]
    ensures U32(y) == [y % 0x100, y / 0x100 % 0x100, y / 0x1_0000 % 0x100, y / 0x100_0000]
    ensures y + 0x1_0000_0000 * z < 0x1_0000_0000_0000_0000 && U64(y + 0x1_0000_0000 * z) == U32(y) + U32(z)
  {
    assert U16(x) == [x % 256] + Le(x / 256, 1) && Le(x / 256, 1) == [x / 256 % 256] + Le(x / 256 / 256, 0);
    BytesOf(y);
    hide Le, U32;
    LowAndHigh(y, z);
  }

  lemma LowAndHigh(y: u32, z: u32)
    ensures y + TWO_32 * z < TWO_32 * TWO_32
    ensures (y + TWO_32 * z) % TWO_32 == y && (y + TWO_32 * z) / TWO_32 == z
  {}

  lemma BytesOf(v: u32)
    ensures U32(v) == [v % 0x100, v / 0x100 % 0x100, v / 0x1_0000 % 0x100, v / 0x100_0000 % 0x100]
  {
    var a, b, c := v / 256, v / 256 / 256, v / 256 / 256 / 256;
    assert Le(v, 4) == [v % 256] + Le(a, 3) && Le(a, 3) == [a % 256] + Le(b, 2);
    assert Le(b, 2) == [b % 256] + Le(c, 1) && Le(c, 1) == [c % 256] + Le(c / 256, 0);
  }

  /** The code of a reply; 0 for any other. */
  function ReplyCode(r: RMsg): u8 {
    match r
    case Rlerror(_) => 7
    case Rversion(_, _) => 101
    case Rattach(_) => 105
    case Rwalk(_) => 111
    case Rlopen(_, _) => 13
    case Rlcreate(_, _) => 15
    case Rread(_) => 117
    case Rwrite(_) => 119
    case Rclunk => 121
    case Rgetattr(_) => 25
    case Rreaddir(_) => 41
    case Rmkdir(_) => 73
    case Runlinkat => 77
    case Rrenameat => 75
    case Rother => 0
  }

  /** A reply answers a request exactly if its code is the next one. */
  lemma AnswersIff(m: TMsg, r: RMsg)
    ensures Answers(m, r) <==> ReplyCode(r) == TypeCode(m) + 1
  {}

  // ------------------------------------------------ replies that loop

  function QidBytes(q: Qid): Bytes {
    [q.kind] + (U32(q.version) + U64(q.path))
  }

  function QidsBytes(qids: seq<Qid>): Bytes {
    if qids == [] then [] else QidBytes(qids[0]) + QidsBytes(qids[1..])
  }

  function EntryBytes(e: DirEntry): Bytes {
    QidBytes(e.qid) + (U64(e.offset) + ([e.kind] + Str(e.name)))
  }

  function EntriesBytes(es: seq<DirEntry>): Bytes {
    if es == [] then [] else EntryBytes(es[0]) + EntriesBytes(es[1..])
  }

  const RWALK: u8 := 111
  const RREADDIR: u8 := 41
  const RREAD: u8 := 117

  function RwalkBytes(tag: u16, qids: seq<Qid>): Bytes {
    var body := U16(|qids| % 0x1_0000) + QidsBytes(qids);
    Header(HEADER_SIZE + |body|, RWALK, tag) + body
  }

  function RreaddirBytes(tag: u16, es: seq<DirEntry>): Bytes {
    var blob := EntriesBytes(es);
    var body := U32(|blob| % TWO_32) + blob;
    Header(HEADER_SIZE + |body|, RREADDIR, tag) + body
  }

  function ReadQid(d: Bytes, at: nat): (Qid, nat) {
    var (kind, p) := ReadU8(d, at);
    var (version, q) := ReadU32(d, p);
    var (path, r) := ReadU64(d, q);
    (Qid(kind, version, path), r)
  }

  function ReadQids(d: Bytes, at: nat, n: nat): (seq<Qid>, nat)
    decreases n
  {
    if n == 0 then ([], at)
    else
      var (qid, p) := ReadQid(d, at);
      var (rest, q) := ReadQids(d, p, n - 1);
      ([qid] + rest, q)
  }

  function ReadEntry(d: Bytes, at: nat): (DirEntry, nat) {
    var (qid, p) := ReadQid(d, at);
    var (offset, q) := ReadU64(d, p);
    var (kind, r) := ReadU8(d, q);
    var (name, s) := ReadString(d, r);
    (DirEntry(qid, offset, kind, name), s)
  }

  /** The entry loop on an unbounded byte count. */
  function ReadEntries(d: Bytes, at: nat, consumed: nat, count: nat): (seq<DirEntry>, nat)
    decreases count - consumed
  {
    if consumed >= count then ([], at)
    else
      var (e, p) := ReadEntry(d, at);
      var (rest, q) := ReadEntries(d, p, consumed + 24 + |e.name|, count);
      ([e] + rest, q)
  }

  lemma U8Here(d: Bytes, at: nat, v: u8)
    requires Here(d, at, [v])
    ensures ReadU8(d, at) == (v, at + 1)
  {
    assert d[at] == d[at..at + 1][0];
  }

  lemma QidHere(d: Bytes, at: nat, q: Qid)
    requires Here(d, at, QidBytes(q))
    ensures ReadQid(d, at) == (q, at + 13)
  {
    hide Here, Le, ReadU8, ReadU32, ReadU64;
    HereSplit(d, at, [q.kind], U32(q.version) + U64(q.path));
    HereSplit(d, at + 1, U32(q.version), U64(q.path));
    U8Here(d, at, q.kind);
    U32Here(d, at + 1, q.version);
    U64Here(d, at + 5, q.path);
  }

  /** Where the fields of a directory entry stand; the first thirteen bytes are a qid. */
  lemma EntryLayout(e: DirEntry, rest: Bytes)
    requires |e.name| < 65536
    ensures var d := EntryBytes(e) + rest;
            && ReadU8(d, 0) == (e.qid.kind, 1) && ReadU32(d, 1) == (e.qid.version, 5)
            && ReadU64(d, 5) == (e.qid.path, 13) && ReadU64(d, 13) == (e.offset, 21)
            && ReadU8(d, 21) == (e.kind, 22) && ReadString(d, 22) == (e.name, 24 + |e.name|)
            && QidBytes(e.qid) == d[..13]
  {
    var d, q := EntryBytes(e) + rest, e.qid;
    assert Here(d, 0, EntryBytes(e));
    hide Here, Le, ReadU8, ReadU32, ReadU64, ReadString;
    HereSplit(d, 0, QidBytes(q), U64(e.offset) + ([e.kind] + Str(e.name)));
    HereSplit(d, 0, [q.kind], U32(q.version) + U64(q.path));
    HereSplit(d, 1, U32(q.version), U64(q.path));
    HereSplit(d, 13, U64(e.offset), [e.kind] + Str(e.name));
    HereSplit(d, 21, [e.kind], Str(e.name));
    U8Here(d, 0, q.kind);
    U32Here(d, 1, q.version);
    U64Here(d, 5, q.path);
    U64Here(d, 13, e.offset);
    U8Here(d, 21, e.kind);
    StringHere(d, 22, e.name);
  }

  lemma {:induction false} QidsHere(d: Bytes, at: nat, qids: seq<Qid>)
    requires Here(d, at, QidsBytes(qids))
    ensures ReadQids(d, at, |qids|) == (qids, at + |QidsBytes(qids)|)
    decreases |qids|
  {
    hide Here, QidBytes, ReadQid;
    if qids != [] {
      QidLength(qids[0]);
      HereSplit(d, at, QidBytes(qids[0]), QidsBytes(qids[1..]));
      QidHere(d, at, qids[0]);
      QidsHere(d, at + 13, qids[1..]);
      assert qids == [qids[0]] + qids[1..];
    }
  }

  lemma QidLength(q: Qid)
    ensures |QidBytes(q)| == 13
  {}

  lemma EntryHere(d: Bytes, at: nat, e: DirEntry)
    requires Here(d, at, EntryBytes(e)) && |e.name| < 0x1_0000
    ensures |EntryBytes(e)| == 24 + |e.name|
    ensures ReadEntry(d, at) == (e, at + 24 + |e.name|)
  {
    hide Here, Le, QidBytes, ReadQid, ReadU8, ReadU64, ReadString;
    QidLength(e.qid);
    HereSplit(d, at, QidBytes(e.qid), U64(e.offset) + ([e.kind] + Str(e.name)));
    HereSplit(d, at + 13, U64(e.offset), [e.kind] + Str(e.name));
    HereSplit(d, at + 21, [e.kind], Str(e.name));
    QidHere(d, at, e.qid);
    U64Here(d, at + 13, e.offset);
    U8Here(d, at + 21, e.kind);
    StringHere(d, at + 22, e.name);
  }

  lemma EntriesStep(d: Bytes, at: nat, consumed: nat, count: nat, e: DirEntry, p: nat)
    requires consumed < count && ReadEntry(d, at) == (e, p)
    ensures var (rest, q) := ReadEntries(d, p, consumed + 24 + |e.name|, count);
            ReadEntries(d, at, consumed, count) == ([e] + rest, q)
  {
    hide ReadEntry;
  }

  lemma NoEntries(d: Bytes, at: nat, count: nat)
    ensures EntriesBytes([]) == [] && ReadEntries(d, at, count, count) == ([], at)
  {}

  lemma FirstEntry(d: Bytes, at: nat, es: seq<DirEntry>)
    requires es != [] && Here(d, at, EntriesBytes(es)) && |es[0].name| < 0x1_0000
    ensures var size := 24 + |es[0].name|;
            && ReadEntry(d, at) == (es[0], at + size)
            && |EntriesBytes(es)| == size + |EntriesBytes(es[1..])|
            && Here(d, at + size, EntriesBytes(es[1..]))
  {
    hide Here, EntryBytes, ReadEntry;
    HereSplit(d, at, EntryBytes(es[0]), EntriesBytes(es[1..]));
    EntryHere(d, at, es[0]);
  }

  lemma {:induction false} EntriesHere(d: Bytes, at: nat, es: seq<DirEntry>, consumed: nat, count: nat)
    requires Here(d, at, EntriesBytes(es)) && forall e <- es :: |e.name| < 0x1_0000
    requires count == consumed + |EntriesBytes(es)|
    ensures ReadEntries(d, at, consumed, count) == (es, at + |EntriesBytes(es)|)
    decreases |es|
  {
    hide *;
    NoEntries(d, at, consumed);
    if es != [] {
      var e, rest := es[0], es[1..];
      FirstEntry(d, at, es);
      EntriesHere(d, at + 24 + |e.name|, rest, consumed + 24 + |e.name|, count);
      EntriesStep(d, at, consumed, count, e, at + 24 + |e.name|);
      assert es == [e] + rest;
    }
  }

  /** Main result: parsing the wire form of a directory listing gives back exactly its
      entries, in order, and ends at the end of the message. */
  lemma RreaddirRoundTrip(tag: u16, es: seq<DirEntry>)
    requires (forall e <- es :: |e.name| < 0x1_0000) && HEADER_SIZE + 4 + |EntriesBytes(es)| < TWO_32
    ensures var d := RreaddirBytes(tag, es);
            && GetType(d) == 41 && GetSize(d) == |d|
            && ReadU32(d, HEADER_SIZE) == (|EntriesBytes(es)|, HEADER_SIZE + 4)
            && ReadEntries(d, HEADER_SIZE + 4, 0, |EntriesBytes(es)|) == (es, |d|)
  {
    hide Here, Le, EntriesBytes, GetType, GetSize, GetTag, Header;
    var blob, d := EntriesBytes(es), RreaddirBytes(tag, es);
    HeaderHere(RREADDIR, tag, U32(|blob|) + blob);
    HereSplit(d, HEADER_SIZE, U32(|blob|), blob);
    U32Here(d, HEADER_SIZE, |blob|);
    EntriesHere(d, HEADER_SIZE + 4, es, 0, |blob|);
  }

  lemma RwalkRoundTrip(tag: u16, qids: seq<Qid>)
    requires |qids| < 0x1_0000 && HEADER_SIZE + 2 + |QidsBytes(qids)| < TWO_32
    ensures var d := RwalkBytes(tag, qids);
            && GetType(d) == 111 && GetSize(d) == |d|
            && ReadU16(d, HEADER_SIZE) == (|qids|, HEADER_SIZE + 2)
            && ReadQids(d, HEADER_SIZE + 2, |qids|) == (qids, |d|)
  {
    hide Here, Le, QidsBytes, GetType, GetSize, GetTag, Header;
    var body, d := QidsBytes(qids), RwalkBytes(tag, qids);
    HeaderHere(RWALK, tag, U16(|qids|) + body);
    HereSplit(d, HEADER_SIZE, U16(|qids|), body);
    U16Here(d, HEADER_SIZE, |qids|);
    QidsHere(d, HEADER_SIZE + 2, qids);
  }

  // ------------------------------------------------ arbitrary bytes

  /** The cursor never passes the end (or the header, for a shorter message). */
  ghost predicate CursorOk(d: Bytes, at: nat) {
    at <= HEADER_SIZE || at <= |d|
  }

  lemma ReadsKeepCursor(d: Bytes, at: nat, len: nat)
    requires CursorOk(d, at)
    ensures at <= ReadU8(d, at).1 && CursorOk(d, ReadU8(d, at).1)
    ensures at <= ReadU16(d, at).1 && CursorOk(d, ReadU16(d, at).1)
    ensures at <= ReadU32(d, at).1 && CursorOk(d, ReadU32(d, at).1)
    ensures at <= ReadU64(d, at).1 && CursorOk(d, ReadU64(d, at).1)
    ensures at <= ReadString(d, at).1 && CursorOk(d, ReadString(d, at).1)
    ensures at <= ReadBytes(d, at, len).1 && CursorOk(d, ReadBytes(d, at, len).1)
    ensures |ReadString(d, at).0| <= ReadString(d, at).1 - at
  {}

  /** What the helpers make of a message that is too short: zero or nothing, and the cursor stays;
      but a 64-bit number of which only the first half is there is that half, and a string whose
      bytes are missing is passed by its length. */
  lemma ShortReads(d: Bytes, at: nat, len: nat)
    ensures at >= |d| ==> ReadU8(d, at) == (0, at)
    ensures at + 2 > |d| ==> ReadU16(d, at) == (0, at) && ReadString(d, at) == ([], at)
    ensures at + 4 > |d| ==> ReadU32(d, at) == (0, at) && ReadU64(d, at) == (0, at)
    ensures at + 4 <= |d| < at + 8 ==> ReadU64(d, at) == (ReadU32(d, at).0, at + 4)
    ensures at + len > |d| ==> ReadBytes(d, at, len) == ([], at)
    ensures at + 2 <= |d| < at + 2 + ReadU16(d, at).0 ==> ReadString(d, at) == ([], at + 2)
    ensures |d| < 7 ==> GetType(d) == 6 && GetTag(d) == 0
    ensures |d| < 4 ==> GetSize(d) == 0
  {
    assert at <= |d| ==> d[at..at] == [];
  }

  lemma QidKeepsCursor(d: Bytes, at: nat)
    requires CursorOk(d, at)
    ensures at <= ReadQid(d, at).1 && CursorOk(d, ReadQid(d, at).1)
    ensures at < |d| ==> at < ReadQid(d, at).1
  {}

  lemma {:induction false} QidsKeepCursor(d: Bytes, at: nat, n: nat)
    requires CursorOk(d, at)
    ensures at <= ReadQids(d, at, n).1 && CursorOk(d, ReadQids(d, at, n).1) && |ReadQids(d, at, n).0| == n
    decreases n
  {
    hide ReadQid;
    if n > 0 {
      QidKeepsCursor(d, at);
      QidsKeepCursor(d, ReadQid(d, at).1, n - 1);
    }
  }

  /** An entry read before the end advances the cursor; past the end it is empty. */
  lemma EntryKeepsCursor(d: Bytes, at: nat)
    requires CursorOk(d, at)
    ensures var (e, p) := ReadEntry(d, at);
            && at <= p && CursorOk(d, p) && |e.name| <= p - at
            && (at < |d| ==> at < p) && (at >= |d| ==> p == at && e.name == [])
  {
    hide ReadQid, ReadU64, ReadU8, ReadString;
    var p := ReadQid(d, at).1;
    QidKeepsCursor(d, at);
    ReadsKeepCursor(d, p, 0);
    ReadsKeepCursor(d, ReadU64(d, p).1, 0);
    ReadsKeepCursor(d, ReadU8(d, ReadU64(d, p).1).1, 0);
    if at >= |d| { PastEnd(d, at); }
  }

  lemma PastEnd(d: Bytes, at: nat)
    requires at >= |d|
    ensures ReadQid(d, at).1 == at && ReadU64(d, at).1 == at && ReadU8(d, at).1 == at && ReadString(d, at) == ([], at)
  {
    assert at == |d| ==> d[at..at] == [];
  }

  /** The entry loop reads at most ceil(count / 24) entries and keeps the cursor in bounds. */
  lemma {:induction false} EntriesBound(d: Bytes, at: nat, consumed: nat, count: nat)
    requires CursorOk(d, at)
    ensures var (es, p) := ReadEntries(d, at, consumed, count);
            && CursorOk(d, p)
            && (consumed < count ==> 24 * |es| < count - consumed + 24) && (consumed >= count ==> es == [])
    decreases count - consumed
  {
    hide ReadEntry;
    if consumed < count {
      EntryKeepsCursor(d, at);
      var (e, p) := ReadEntry(d, at);
      EntriesBound(d, p, consumed + 24 + |e.name|, count);
    }
  }
}
