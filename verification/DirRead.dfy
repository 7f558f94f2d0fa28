/** The directory read handler: 9P entries repacked into aligned dirents, resumed by cookie. */
module DirRead {
  import opened Types
  import opened Alignment
  import opened LittleEndian
  import opened Wire

  /** offsetof(struct dirent, d_name): d_ino and d_offset of 8 bytes, d_reclen and d_namelen of 2. */
  const NAME_OFFSET: nat := 20

  /** The longest name whose record length is an int16. */
  const MAX_NAME: nat := 32739

  // ------------------------------------------------ one dirent

  /** (offsetof(dirent, d_name) + name_len + 1 + 7) & ~7 */
  function RecLen(n: nat): nat {
    AlignUp(NAME_OFFSET + n + 1, 8)
  }

  lemma RecLenBounds(n: nat)
    requires n < 0x1_0000
    ensures RecLen(n) % 8 == 0 && NAME_OFFSET + n + 1 <= RecLen(n) < NAME_OFFSET + n + 1 + 8
  {
    hide AlignUp;
    EightIsPowerOfTwo();
    AlignUpIsLeast(NAME_OFFSET + n + 1, 8, 0);
  }

  lemma EightIsPowerOfTwo()
    ensures PowerOfTwo(8)
  {
    assert PowerOfTwo(2);
  }

  /** The NUL and the alignment bytes behind a name. */
  function Padding(n: nat): nat {
    if RecLen(n) > NAME_OFFSET + n then RecLen(n) - NAME_OFFSET - n else 0
  }

  /** The lengths are cast to int16, which keeps their low 16 bits. */
  function Record(e: DirEntry): Bytes {
    var n := |e.name|;
    Le(e.qid.path, 8) + (Le(e.offset, 8) + (Le(RecLen(n) % 0x1_0000, 2) + (Le(n % 0x1_0000, 2) +
    (e.name + Zeros(Padding(n))))))
  }

  function Packed(es: seq<DirEntry>): Bytes {
    if es == [] then [] else Record(es[0]) + Packed(es[1..])
  }

  /** Names that came through a 9P string. */
  ghost predicate FromWire(es: seq<DirEntry>) {
    forall e <- es :: |e.name| < 0x1_0000
  }

  // ------------------------------------------------ reading the buffer back

  datatype Dirent = Dirent(ino: nat, cookie: nat, name: Bytes)

  function View(e: DirEntry): Dirent {
    Dirent(e.qid.path, e.offset, e.name)
  }

  function Views(es: seq<DirEntry>): seq<Dirent> {
    if es == [] then [] else [View(es[0])] + Views(es[1..])
  }

  function Num(d: Bytes, at: nat, n: nat): nat
    requires at + n <= |d|
  {
    FromLe(d[at..at + n])
  }

  function AsInt16(x: nat): int {
    if x < 0x8000 then x else x - 0x1_0000
  }

  /** What a caller finds who steps from record to record by d_reclen. */
  function Walk(buf: Bytes): seq<Dirent>
    decreases |buf|
  {
    if |buf| < NAME_OFFSET then []
    else
      var reclen, namelen := AsInt16(Num(buf, 16, 2)), AsInt16(Num(buf, 18, 2));
      if namelen < 0 || reclen < NAME_OFFSET + namelen || reclen > |buf| then []
      else
        [Dirent(Num(buf, 0, 8), Num(buf, 8, 8), buf[NAME_OFFSET..NAME_OFFSET + namelen])] + Walk(buf[reclen..])
  }

  lemma NumHere(d: Bytes, at: nat, v: nat, n: nat)
    requires Here(d, at, Le(v, n)) && v < Pow256(n)
    ensures Num(d, at, n) == v
  {
    LeRoundTrip(v, n);
  }

  /** Where the fields of a record stand in the buffer. */
  ghost predicate Laid(buf: Bytes, e: DirEntry) {
    && Here(buf, 0, Le(e.qid.path, 8)) && Here(buf, 8, Le(e.offset, 8))
    && Here(buf, 16, Le(RecLen(|e.name|) % 0x1_0000, 2)) && Here(buf, 18, Le(|e.name| % 0x1_0000, 2))
    && Here(buf, NAME_OFFSET, e.name)
  }

  lemma RecordLaid(e: DirEntry, rest: Bytes)
    ensures Laid(Record(e) + rest, e)
  {
    var n, buf := |e.name|, Record(e) + rest;
    assert Here(buf, 0, Record(e));
    hide Le, RecLen, Here, Zeros;
    var named := e.name + Zeros(Padding(n));
    var lengths := Le(RecLen(n) % 0x1_0000, 2) + (Le(n % 0x1_0000, 2) + named);
    HereSplit(buf, 0, Le(e.qid.path, 8), Le(e.offset, 8) + lengths);
    HereSplit(buf, 8, Le(e.offset, 8), lengths);
    HereSplit(buf, 16, Le(RecLen(n) % 0x1_0000, 2), Le(n % 0x1_0000, 2) + named);
    HereSplit(buf, 18, Le(n % 0x1_0000, 2), named);
    HereSplit(buf, 20, e.name, Zeros(Padding(n)));
  }

  lemma RecordLength(e: DirEntry)
    requires |e.name| < 0x1_0000
    ensures |Record(e)| == RecLen(|e.name|) >= NAME_OFFSET + |e.name| + 1
  {
    RecLenBounds(|e.name|);
    hide Le, RecLen;
  }

  lemma LaidReads(buf: Bytes, e: DirEntry)
    requires Laid(buf, e) && |e.name| < 0x1_0000
    ensures NAME_OFFSET + |e.name| <= |buf|
    ensures Num(buf, 0, 8) == e.qid.path && Num(buf, 8, 8) == e.offset
    ensures Num(buf, 16, 2) == RecLen(|e.name|) % 0x1_0000 && Num(buf, 18, 2) == |e.name|
    ensures buf[NAME_OFFSET..NAME_OFFSET + |e.name|] == e.name
  {
    Widths();
    hide Le, RecLen, Num, Pow256;
    NumHere(buf, 0, e.qid.path, 8);
    NumHere(buf, 8, e.offset, 8);
    NumHere(buf, 16, RecLen(|e.name|) % 0x1_0000, 2);
    NumHere(buf, 18, |e.name|, 2);
  }

  /** A record, in numbers: its length is the name's and 28, rounded down to a multiple of 8;
      inode, cookie, record length and name length, the name and at least one NUL. */
  lemma RecordLayout(e: DirEntry, rest: Bytes)
    requires |e.name| < 0x1_0000
    ensures var n, d := |e.name|, Record(e) + rest;
            && |Record(e)| == RecLen(n) == (n + 28) / 8 * 8
            && Num(d, 0, 8) == e.qid.path && Num(d, 8, 8) == e.offset
            && Num(d, 16, 2) == (n + 28) / 8 * 8 % 0x1_0000 && Num(d, 18, 2) == n
            && d[20..20 + n] == e.name && d[20 + n] == 0
  {
    RecordLength(e);
    RecordLaid(e, rest);
    LaidReads(Record(e) + rest, e);
    RecordShape(e);
    RecLenIs(|e.name|);
    hide Record, RecLen, Num, Laid;
  }

  lemma RecLenIs(n: nat)
    requires n < 0x1_0000
    ensures RecLen(n) == (n + 28) / 8 * 8
  {
    RecLenBounds(n);
    hide RecLen;
  }

  lemma FirstStep(e: DirEntry, rest: Bytes)
    requires |e.name| < 0x1_0000
    ensures Walk(Record(e) + rest) == if |e.name| <= MAX_NAME then [View(e)] + Walk(rest) else []
  {
    RecordLength(e);
    RecordLaid(e, rest);
    LaidReads(Record(e) + rest, e);
    RecLenFitsIff(|e.name|);
    hide Record, RecLen, Num, Laid;
    assert (Record(e) + rest)[RecLen(|e.name|)..] == rest;
  }

  /** Records are 8-aligned and padded with 1 to 8 zero bytes, the first of them the NUL. */
  lemma RecordShape(e: DirEntry)
    requires |e.name| < 0x1_0000
    ensures |Record(e)| % 8 == 0 && 1 <= |Record(e)| - NAME_OFFSET - |e.name| <= 8
    ensures forall i :: NAME_OFFSET + |e.name| <= i < |Record(e)| ==> Record(e)[i] == 0
  {
    RecLenBounds(|e.name|);
    hide RecLen, Le;
  }

  /** The int16 cast of d_reclen keeps the length exactly up to names of 32739 bytes. */
  lemma RecLenFitsIff(n: nat)
    requires n < 0x1_0000
    ensures AsInt16(RecLen(n) % 0x1_0000) == RecLen(n) <==> n <= MAX_NAME
    ensures n > MAX_NAME ==> AsInt16(n) < 0 || AsInt16(RecLen(n) % 0x1_0000) < 0
  {
    RecLenBounds(n);
    hide RecLen;
  }

  /** Main result: walking the buffer by record length recovers inode, cookie and name of
      every entry, in order, exactly when no name is longer than 32739 bytes. */
  lemma {:induction false} WalkUndoesPacking(es: seq<DirEntry>)
    requires FromWire(es)
    ensures Walk(Packed(es)) == Views(es) <==> forall e <- es :: |e.name| <= MAX_NAME
    decreases |es|
  {
    hide *;
    if |es| == 0 {
      NothingPacked(es);
    } else {
      PackedFirst(es);
      FirstStep(es[0], Packed(es[1..]));
      WalkUndoesPacking(es[1..]);
      SameTails(View(es[0]), Walk(Packed(es[1..])), Views(es[1..]));
      NamesSplit(es);
    }
  }

  lemma NothingPacked(es: seq<DirEntry>)
    requires |es| == 0
    ensures Walk(Packed(es)) == Views(es) == []
  {}

  lemma PackedFirst(es: seq<DirEntry>)
    requires |es| > 0 && FromWire(es)
    ensures Packed(es) == Record(es[0]) + Packed(es[1..]) && Views(es) == [View(es[0])] + Views(es[1..])
    ensures |es[0].name| < 0x1_0000 && FromWire(es[1..])
  {
    hide Record, View;
  }

  lemma NamesSplit(es: seq<DirEntry>)
    requires |es| > 0
    ensures (forall e <- es :: |e.name| <= MAX_NAME) <==>
            |es[0].name| <= MAX_NAME && forall e <- es[1..] :: |e.name| <= MAX_NAME
  {
    assert forall i :: 1 <= i < |es| ==> es[i] == es[1..][i - 1];
  }

  lemma SameTails(head: Dirent, a: seq<Dirent>, b: seq<Dirent>)
    ensures [head] + a == [head] + b <==> a == b
    ensures [head] + b != []
  {
    assert ([head] + a)[1..] == a && ([head] + b)[1..] == b;
  }

  /** A 9P reply of c bytes can carry an entry that does not fit a dirent buffer of c bytes:
      exactly for names whose length leaves 4..7 modulo 8. */
  lemma WireEntryOutgrowsIff(n: nat)
    requires n < 0x1_0000
    ensures RecLen(n) > 24 + n <==> n % 8 >= 4
  {
    RecLenBounds(n);
    hide RecLen;
  }

  // ------------------------------------------------ prefixes that fit

  lemma {:induction false} PackedSnoc(es: seq<DirEntry>, e: DirEntry)
    ensures Packed(es + [e]) == Packed(es) + Record(e)
    decreases |es|
  {
    hide Record;
    if es == [] {
      assert Packed([e]) == Record(e) + Packed([]);
      assert [] + [e] == [e];
    } else {
      PackedSnoc(es[1..], e);
      assert (es + [e])[1..] == es[1..] + [e];
    }
  }

  lemma {:induction false} ViewsJoin(a: seq<DirEntry>, b: seq<DirEntry>)
    ensures Views(a + b) == Views(a) + Views(b)
    decreases |a|
  {
    hide View;
    if a == [] {
      assert a + b == b;
    } else {
      var rest := a[1..];
      ViewsJoin(rest, b);
      assert (a + b)[0] == a[0] && (a + b)[1..] == rest + b;
      assert Views(a + b) == [View(a[0])] + Views(rest + b);
      assert Views(a) == [View(a[0])] + Views(rest);
      hide Views;
      assert [View(a[0])] + (Views(rest) + Views(b)) == [View(a[0])] + Views(rest) + Views(b);
    }
  }

  /** The first n entries are all that fit into `room` bytes. */
  ghost predicate Fits(es: seq<DirEntry>, n: nat, room: nat) {
    && n <= |es| && |Packed(es[..n])| <= room
    && (n < |es| ==> |Packed(es[..n])| + RecLen(|es[n].name|) > room)
  }

  /** No longer prefix fits, so n is determined. */
  lemma {:induction false} FitsIsMaximal(es: seq<DirEntry>, n: nat, room: nat, k: nat)
    requires FromWire(es) && Fits(es, n, room) && k <= |es|
    ensures |Packed(es[..k])| <= room <==> k <= n
    decreases if k < n then n - k else k - n
  {
    hide Record, RecLen;
    if k < n {
      FitsIsMaximal(es, n, room, k + 1);
      PrefixGrows(es, k);
    } else if k == n + 1 {
      PrefixGrows(es, n);
    } else if k > n {
      FitsIsMaximal(es, n, room, k - 1);
      PrefixGrows(es, k - 1);
    }
  }

  lemma PrefixGrows(es: seq<DirEntry>, k: nat)
    requires FromWire(es) && k < |es|
    ensures |Packed(es[..k + 1])| == |Packed(es[..k])| + RecLen(|es[k].name|) && RecLen(|es[k].name|) > 0
  {
    PackedSnoc(es[..k], es[k]);
    assert es[..k] + [es[k]] == es[..k + 1];
    RecordLength(es[k]);
    hide Record, RecLen;
  }

  lemma EmptyIff(es: seq<DirEntry>, n: nat, room: nat)
    requires FromWire(es) && Fits(es, n, room)
    ensures Packed(es[..n]) == [] <==> n == 0
    ensures n > 0 <==> es != [] && RecLen(|es[0].name|) <= room
  {
    hide Record, RecLen;
    if es != [] {
      FitsIsMaximal(es, n, room, 1);
      PrefixGrows(es, 0);
      assert es[..1][0] == es[0];
      if n > 0 { FitsIsMaximal(es, n, |Packed(es[..n])|, 1); }
    }
  }

  // ------------------------------------------------ the handler

  function Stored(s: Bytes, at: nat, b: Bytes): Bytes
    requires at + |b| <= |s|
  {
    s[..at] + b + s[at + |b|..]
  }

  method Store(buf: array<u8>, at: nat, bytes: Bytes)
    requires at + |bytes| <= buf.Length
    modifies buf
    ensures buf[..] == Stored(old(buf[..]), at, bytes)
  {
    ghost var was := buf[..];
    for i := 0 to |bytes|
      invariant buf[..at] == was[..at] && buf[at..at + i] == bytes[..i] && buf[at + i..] == was[at + i..]
    {
      buf[at + i] := bytes[i];
    }
    assert buf[..] == buf[..at] + buf[at..at + |bytes|] + buf[at + |bytes|..];
  }

  /** Fill in the next field of a record that is zero from there on. */
  method StoreNext(buf: array<u8>, at: nat, bytes: Bytes, ghost done: Bytes)
    requires at == |done| && at + |bytes| <= buf.Length
    requires buf[..] == done + Zeros(buf.Length - at)
    modifies buf
    ensures buf[..] == done + bytes + Zeros(buf.Length - at - |bytes|)
  {
    Store(buf, at, bytes);
  }

  lemma RecordParts(e: DirEntry)
    requires |e.name| < 0x1_0000
    ensures var n, reclen := |e.name|, RecLen(|e.name|);
            && Padding(n) > 0 && reclen == NAME_OFFSET + n + Padding(n)
            && Record(e) == [] + Le(e.qid.path, 8) + Le(e.offset, 8) + Le(reclen % 0x1_0000, 2) + Le(n % 0x1_0000, 2) +
                         (e.name + [0]) + Zeros(Padding(n) - 1)
  {
    RecLenBounds(|e.name|);
    hide Le, RecLen;
  }

  /** One record: a zeroed buffer whose fields are filled in. */
  method Pack(e: DirEntry) returns (record: Bytes)
    requires |e.name| < 0x1_0000
    ensures record == Record(e)
  {
    RecordParts(e);
    hide Stored, Le, RecLen, Record, Zeros;
    var n := |e.name|;
    var reclen := RecLen(n);
    RecLenBounds(n);
    var buf := NewZeroed(reclen);
    ghost var done: Bytes := [];
    StoreNext(buf, 0, Le(e.qid.path, 8), done);
    done := done + Le(e.qid.path, 8);
    StoreNext(buf, 8, Le(e.offset, 8), done);
    done := done + Le(e.offset, 8);
    StoreNext(buf, 16, Le(reclen % 0x1_0000, 2), done);
    done := done + Le(reclen % 0x1_0000, 2);
    StoreNext(buf, 18, Le(n % 0x1_0000, 2), done);
    done := done + Le(n % 0x1_0000, 2);
    StoreNext(buf, NAME_OFFSET, e.name + [0], done);
    record := buf[..];
  }

  method NewZeroed(size: nat) returns (buf: array<u8>)
    ensures fresh(buf) && buf.Length == size && buf[..] == [] + Zeros(size)
  {
    buf := new u8[size](_ => 0);
  }

  /** What ReadDir gives the handler. */
  datatype DirReply = Refused(rc: int) | Listed(entries: seq<DirEntry>)

  /** The OCB of an open directory, and the local attribute the handler sets. */
  class OpenDir {
    var offset: u64
    var nbytes: nat

    constructor ()
      ensures offset == 0
    {
      offset, nbytes := 0, 0;
    }
  }

  /** What one read does to the cookie and gives the caller: the n first entries. */
  ghost predicate ReadResult(before: u64, after: u64, es: seq<DirEntry>, room: nat, buf: Bytes, n: nat) {
    && Fits(es, n, room) && buf == Packed(es[..n])
    && after == if n == 0 then before else es[n - 1].offset
  }

  /** One directory read: the longest prefix of the entries that fits, and the cookie of its
      last entry.  It looks like the end of the directory exactly when there is no entry or
      the first one does not fit. */
  method IoRead(ocb: OpenDir, nbytes: u32, answer: (nat, u64, u32) -> DirReply, turn: nat)
    returns (rc: int, buf: Bytes, n: nat)
    requires answer(turn, ocb.offset, nbytes).Listed? ==> FromWire(answer(turn, ocb.offset, nbytes).entries)
    modifies ocb
    ensures match answer(turn, old(ocb.offset), nbytes)
            case Refused(code) => rc == -code && buf == [] && n == 0 && unchanged(ocb)
            case Listed(es) =>
              && rc == EOK && ReadResult(old(ocb.offset), ocb.offset, es, nbytes, buf, n)
              && ocb.nbytes == (if buf == [] then old(ocb.nbytes) else |buf|)
              && (buf == [] <==> es == [] || RecLen(|es[0].name|) > nbytes)
  {
    var reply := answer(turn, ocb.offset, nbytes);
    if reply.Refused? {
      return -reply.rc, [], 0;
    }
    hide Record, RecLen, Walk, Packed;
    var es := reply.entries;
    buf, n := [], 0;
    PrefixOf(es, 0);
    while n < |es|
      invariant n <= |es| && buf == Packed(es[..n]) && |buf| <= nbytes
      invariant ocb.offset == (if n == 0 then old(ocb.offset) else es[n - 1].offset)
      invariant ocb.nbytes == old(ocb.nbytes)
    {
      var entry := es[n];
      var reclen := RecLen(|entry.name|);
      if |buf| + reclen > nbytes {
        break;
      }
      var record := Pack(entry);
      PrefixOf(es, n);
      PrefixGrows(es, n);
      buf := buf + record;
      ocb.offset := entry.offset;
      n := n + 1;
    }
    EmptyIff(es, n, nbytes);
    rc := EOK;
    if buf == [] {
      return;
    }
    ocb.nbytes := |buf|;
  }

  lemma PrefixOf(es: seq<DirEntry>, n: nat)
    ensures Packed(es[..0]) == []
    ensures n < |es| ==> Packed(es[..n + 1]) == Packed(es[..n]) + Record(es[n])
  {
    if n < |es| {
      PackedSnoc(es[..n], es[n]);
      assert es[..n] + [es[n]] == es[..n + 1];
    }
  }

  // ------------------------------------------------ whole runs

  function AfterCookie(listing: seq<DirEntry>, cookie: u64): (p: nat)
    ensures p <= |listing|
  {
    if listing == [] then 0
    else if listing[0].offset == cookie then 1
    else 1 + AfterCookie(listing[1..], cookie)
  }

  /** Where a server resumes: cookie 0 is the start. */
  function Position(listing: seq<DirEntry>, cookie: u64): (p: nat)
    ensures p <= |listing|
  {
    if cookie == 0 then 0 else AfterCookie(listing, cookie)
  }

  function CookieAt(listing: seq<DirEntry>, n: nat): u64
    requires n <= |listing|
  {
    if n == 0 then 0 else listing[n - 1].offset
  }

  /** Cookies are nonzero and distinct. */
  ghost predicate CookiesOk(listing: seq<DirEntry>) {
    && (forall e <- listing :: e.offset != 0)
    && (forall i, j :: 0 <= i < j < |listing| ==> listing[i].offset != listing[j].offset)
  }

  lemma {:induction false} AfterCookieFound(listing: seq<DirEntry>, i: nat)
    requires CookiesOk(listing) && i < |listing|
    ensures AfterCookie(listing, listing[i].offset) == i + 1
    decreases i
  {
    if i > 0 {
      assert listing[1..][i - 1] == listing[i];
      AfterCookieFound(listing[1..], i - 1);
    }
  }

  lemma PositionOfCookie(listing: seq<DirEntry>, n: nat)
    requires CookiesOk(listing) && n <= |listing|
    ensures Position(listing, CookieAt(listing, n)) == n
  {
    if n > 0 { AfterCookieFound(listing, n - 1); }
  }

  /** The server answers with contiguous slices of the listing that start after the cookie. */
  ghost predicate Serves(answer: (nat, u64, u32) -> DirReply, listing: seq<DirEntry>) {
    forall turn: nat, cookie: u64, count: u32 :: answer(turn, cookie, count).Listed? ==>
      var es, p := answer(turn, cookie, count).entries, Position(listing, cookie);
      p + |es| <= |listing| && es == listing[p..p + |es|]
  }

  /** It answers reads of `count` bytes, with at least one entry while there is one. */
  ghost predicate Prompt(answer: (nat, u64, u32) -> DirReply, listing: seq<DirEntry>, count: u32) {
    forall turn: nat, cookie: u64 ::
      && answer(turn, cookie, count).Listed?
      && (answer(turn, cookie, count).entries == [] ==> Position(listing, cookie) == |listing|)
  }

  /** A server that answers with all that follows the cookie is such a server. */
  lemma WholeListings(listing: seq<DirEntry>, count: u32)
    ensures var answer := (turn: nat, cookie: u64, count: u32) => Listed(listing[Position(listing, cookie)..]);
            Serves(answer, listing) && Prompt(answer, listing, count)
  {
    hide Position;
  }

  /** Everything a caller finds in the buffers of a series of reads. */
  function Collected(buffers: seq<Bytes>): seq<Dirent> {
    if buffers == [] then [] else Collected(buffers[..|buffers| - 1]) + Walk(buffers[|buffers| - 1])
  }

  ghost predicate ShortNames(listing: seq<DirEntry>) {
    forall e <- listing :: |e.name| <= MAX_NAME
  }

  /** One read extends what was emitted, from position p, by n entries. */
  lemma ReadExtends(
    listing: seq<DirEntry>, p: nat, es: seq<DirEntry>, before: u64, after: u64, room: nat, buf: Bytes, n: nat)
    requires ShortNames(listing) && p + |es| <= |listing| && es == listing[p..p + |es|]
    requires before == CookieAt(listing, p) && ReadResult(before, after, es, room, buf, n)
    ensures p + n <= |listing| && after == CookieAt(listing, p + n)
    ensures Views(listing[..p]) + Walk(buf) == Views(listing[..p + n])
  {
    hide Walk, Packed, Record, Views;
    var part := es[..n];
    assert part == listing[p..p + n];
    assert FromWire(part) && ShortNames(part);
    WalkUndoesPacking(part);
    ViewsJoin(listing[..p], part);
    assert listing[..p] + part == listing[..p + n];
  }

  lemma CollectedSnoc(buffers: seq<Bytes>, buf: Bytes)
    ensures Collected(buffers + [buf]) == Collected(buffers) + Walk(buf)
  {
    assert (buffers + [buf])[..|buffers|] == buffers;
  }

  /** What read number `turn` does that starts where `from` entries were found: it gives the
      longest prefix that fits of what the server answers, up to entry `to`. */
  ghost predicate ReadOutcome(
    listing: seq<DirEntry>, answer: (nat, u64, u32) -> DirReply, turn: nat, from: nat, to: nat, size: u32,
    rc: int, buf: Bytes) {
    && from <= to <= |listing|
    && match answer(turn, CookieAt(listing, from), size)
       case Refused(code) => rc == -code && buf == [] && to == from
       case Listed(es) => rc == EOK && Fits(es, to - from, size) && buf == Packed(es[..to - from])
  }

  /** Reads of these sizes, one after the other from the start. */
  ghost predicate Reads(
    listing: seq<DirEntry>, answer: (nat, u64, u32) -> DirReply, sizes: seq<u32>,
    rcs: seq<int>, buffers: seq<Bytes>, marks: seq<nat>) {
    && |rcs| == |buffers| == |sizes| && |marks| == |sizes| + 1 && marks[0] == 0
    && forall i :: 0 <= i < |sizes| ==>
         && |buffers[i]| <= sizes[i]
         && ReadOutcome(listing, answer, i, marks[i], marks[i + 1], sizes[i], rcs[i], buffers[i])
  }

  lemma ReadsSnoc(
    listing: seq<DirEntry>, answer: (nat, u64, u32) -> DirReply, sizes: seq<u32>,
    rcs: seq<int>, buffers: seq<Bytes>, marks: seq<nat>, size: u32, rc: int, buf: Bytes, to: nat)
    requires Reads(listing, answer, sizes, rcs, buffers, marks) && |buf| <= size
    requires ReadOutcome(listing, answer, |sizes|, marks[|sizes|], to, size, rc, buf)
    ensures Reads(listing, answer, sizes + [size], rcs + [rc], buffers + [buf], marks + [to])
  {
    hide ReadOutcome;
    var sizes', rcs', buffers', marks' := sizes + [size], rcs + [rc], buffers + [buf], marks + [to];
    forall i | 0 <= i < |sizes'|
      ensures |buffers'[i]| <= sizes'[i]
      ensures ReadOutcome(listing, answer, i, marks'[i], marks'[i + 1], sizes'[i], rcs'[i], buffers'[i])
    {
      if i < |sizes| { assert marks'[i] == marks[i] && marks'[i + 1] == marks[i + 1]; }
    }
  }

  /** Main result: over any series of reads of any sizes on one open directory, refused ones
      included, every read gives the longest fitting prefix of the server's answer; the caller
      finds the listing's first entries, none skipped and none twice, no buffer is overfilled,
      and the cookie is that of the last one. */
  method ReadSeries(listing: seq<DirEntry>, sizes: seq<u32>, answer: (nat, u64, u32) -> DirReply)
    returns (rcs: seq<int>, buffers: seq<Bytes>, marks: seq<nat>, offset: u64)
    requires CookiesOk(listing) && ShortNames(listing) && Serves(answer, listing)
    ensures Reads(listing, answer, sizes, rcs, buffers, marks)
    ensures var emitted := marks[|sizes|];
            && emitted <= |listing| && Collected(buffers) == Views(listing[..emitted])
            && offset == CookieAt(listing, emitted)
  {
    hide *;
    var ocb := new OpenDir();
    var emitted := 0;
    rcs, buffers, marks := [], [], [0];
    NoReads(listing, answer);
    for turn := 0 to |sizes|
      invariant fresh(ocb) && emitted <= |listing| && |marks| == turn + 1 && marks[turn] == emitted
      invariant Reads(listing, answer, sizes[..turn], rcs, buffers, marks)
      invariant Collected(buffers) == Views(listing[..emitted]) && ocb.offset == CookieAt(listing, emitted)
    {
      var rc, buf, n := ReadNext(listing, emitted, ocb, sizes[turn], answer, turn);
      CollectedSnoc(buffers, buf);
      emitted := emitted + n;
      ReadsSnoc(listing, answer, sizes[..turn], rcs, buffers, marks, sizes[turn], rc, buf, emitted);
      assert sizes[..turn] + [sizes[turn]] == sizes[..turn + 1];
      rcs, buffers, marks := rcs + [rc], buffers + [buf], marks + [emitted];
    }
    assert sizes[..|sizes|] == sizes;
    offset := ocb.offset;
  }

  lemma NoReads(listing: seq<DirEntry>, answer: (nat, u64, u32) -> DirReply)
    ensures Reads(listing, answer, [], [], [], [0]) && CookieAt(listing, 0) == 0
    ensures Collected([]) == Views(listing[..0])
  {
    NothingYet(listing);
  }

  lemma NothingYet(listing: seq<DirEntry>)
    ensures Collected([]) == Views(listing[..0]) == Walk([]) == []
  {}

  /** A read that starts where `emitted` entries were found. */
  method ReadNext(
    listing: seq<DirEntry>, emitted: nat, ocb: OpenDir, size: u32, answer: (nat, u64, u32) -> DirReply, turn: nat)
    returns (rc: int, buf: Bytes, n: nat)
    requires CookiesOk(listing) && ShortNames(listing) && Serves(answer, listing)
    requires emitted <= |listing| && ocb.offset == CookieAt(listing, emitted)
    modifies ocb
    ensures ReadOutcome(listing, answer, turn, emitted, emitted + n, size, rc, buf)
    ensures |buf| <= size && emitted + n <= |listing| && ocb.offset == CookieAt(listing, emitted + n)
    ensures Views(listing[..emitted]) + Walk(buf) == Views(listing[..emitted + n])
    ensures buf == [] <==> n == 0
    ensures Prompt(answer, listing, size) && emitted < |listing| && RecLen(|listing[emitted].name|) <= size ==> n > 0
  {
    hide Walk, Views, Packed, CookiesOk, RecLen, CookieAt, Position;
    ghost var before := ocb.offset;
    var reply := answer(turn, ocb.offset, size);
    PositionOfCookie(listing, emitted);
    if reply.Listed? {
      assert reply.entries == listing[emitted..emitted + |reply.entries|];
    }
    rc, buf, n := IoRead(ocb, size, answer, turn);
    NothingYet(listing);
    if reply.Listed? {
      ReadExtends(listing, emitted, reply.entries, before, ocb.offset, size, buf, n);
      EmptyIff(reply.entries, n, size);
    }
  }

  /** Reads that each gave something, one after the other from the start. */
  ghost predicate FullReads(
    listing: seq<DirEntry>, answer: (nat, u64, u32) -> DirReply, sizes: nat -> u32,
    buffers: seq<Bytes>, marks: seq<nat>) {
    && |marks| == |buffers| + 1 && marks[0] == 0
    && forall i :: 0 <= i < |buffers| ==>
         && 0 < |buffers[i]| <= sizes(i)
         && ReadOutcome(listing, answer, i, marks[i], marks[i + 1], sizes(i), EOK, buffers[i])
  }

  lemma FullReadsSnoc(
    listing: seq<DirEntry>, answer: (nat, u64, u32) -> DirReply, sizes: nat -> u32,
    buffers: seq<Bytes>, marks: seq<nat>, buf: Bytes, to: nat, rc: int)
    requires FullReads(listing, answer, sizes, buffers, marks) && 0 < |buf| <= sizes(|buffers|)
    requires ReadOutcome(listing, answer, |buffers|, marks[|buffers|], to, sizes(|buffers|), rc, buf)
    ensures FullReads(listing, answer, sizes, buffers + [buf], marks + [to])
  {
    DataMeansEok(listing, answer, |buffers|, marks[|buffers|], to, sizes(|buffers|), rc, buf);
    hide ReadOutcome;
    var all, ends := buffers + [buf], marks + [to];
    forall i | 0 <= i < |all|
      ensures 0 < |all[i]| <= sizes(i)
      ensures ReadOutcome(listing, answer, i, ends[i], ends[i + 1], sizes(i), EOK, all[i])
    {
      if i < |buffers| { assert all[i] == buffers[i] && ends[i] == marks[i] && ends[i + 1] == marks[i + 1]; }
    }
  }

  /** Main result: reading with any buffer sizes until an empty reply ends.  If the server is
      prompt for the last size, the empty reply comes exactly when the listing is exhausted or
      the next record has no room. */
  method ReadAll(listing: seq<DirEntry>, sizes: nat -> u32, answer: (nat, u64, u32) -> DirReply)
    returns (rc: int, buffers: seq<Bytes>, marks: seq<nat>)
    requires CookiesOk(listing) && ShortNames(listing) && Serves(answer, listing)
    ensures FullReads(listing, answer, sizes, buffers, marks)
    ensures var last, emitted := |buffers|, marks[|buffers|];
            && emitted <= |listing| && Collected(buffers) == Views(listing[..emitted])
            && ReadOutcome(listing, answer, last, emitted, emitted, sizes(last), rc, [])
            && (Prompt(answer, listing, sizes(last)) && emitted < |listing| ==>
                  RecLen(|listing[emitted].name|) > sizes(last))
  {
    hide *;
    var ocb := new OpenDir();
    var emitted, n := 0, 0;
    buffers, marks := [], [0];
    var buf: Bytes;
    FirstRead(listing, answer, sizes);
    while true
      invariant fresh(ocb) && emitted <= |listing| && FullReads(listing, answer, sizes, buffers, marks)
      invariant |marks| == |buffers| + 1 && marks[|buffers|] == emitted
      invariant Collected(buffers) == Views(listing[..emitted]) && ocb.offset == CookieAt(listing, emitted)
      decreases |listing| - emitted
    {
      rc, buf, n := ReadNext(listing, emitted, ocb, sizes(|buffers|), answer, |buffers|);
      if buf == [] {
        break;
      }
      CollectedSnoc(buffers, buf);
      FullReadsSnoc(listing, answer, sizes, buffers, marks, buf, emitted + n, rc);
      emitted := emitted + n;
      buffers, marks := buffers + [buf], marks + [emitted];
    }
  }

  lemma FirstRead(listing: seq<DirEntry>, answer: (nat, u64, u32) -> DirReply, sizes: nat -> u32)
    ensures FullReads(listing, answer, sizes, [], [0]) && CookieAt(listing, 0) == 0
    ensures Collected([]) == Views(listing[..0])
  {
    NothingYet(listing);
  }

  lemma DataMeansEok(
    listing: seq<DirEntry>, answer: (nat, u64, u32) -> DirReply, turn: nat, from: nat, to: nat, size: u32,
    rc: int, buf: Bytes)
    requires ReadOutcome(listing, answer, turn, from, to, size, rc, buf) && buf != []
    ensures rc == EOK
  {}
}
