/**
  The connect and close handlers of the resource manager: which fids they open and clunk.
  `localOpen` is the result of the QNX open helper, `handle` the new OCB it allocates.
 */
module ResourceManager {
  import opened Types
  import opened Messages
  import opened Server
  import opened FidPools
  import opened Paths
  import opened Sessions

  const LINUX_O_CREAT: u32 := 0x40
  const LINUX_AT_REMOVEDIR: u32 := 0x200

  /** Per-open state; `stat` is what the per-file attributes are initialised from. */
  datatype Ocb = Ocb(fid: u32, offset: u64, iounit: u32, isDirectory: bool, openFlags: u32, stat: Stat)

  /** A file that was just created: 0100644, empty. */
  const NEW_FILE: Stat := Stat(0x81A4, 0)

  /** st_mode has the directory bit 0040000. */
  predicate IsDirectory(mode: u32) {
    mode / 0x4000 % 2 == 1
  }

  /** S_ISDIR: the file type bits say directory. */
  predicate SIsDir(mode: u32) {
    mode / 0x1000 % 16 == 4
  }

  /** flags | O_CREAT */
  function WithCreat(flags: u32): u32 {
    if flags / LINUX_O_CREAT % 2 == 1 then flags else (flags + LINUX_O_CREAT) % 0x1_0000_0000
  }

  function OcbFids(ocbs: map<nat, Ocb>): set<u32> {
    set h | h in ocbs :: ocbs[h].fid
  }

  /** The pool is exactly the root and one fid of its own per open OCB. */
  ghost predicate Owned(inUse: set<u32>, root: u32, ocbs: map<nat, Ocb>) {
    && inUse == {root} + OcbFids(ocbs)
    && (forall h <- ocbs :: ocbs[h].fid != root)
    && (forall h <- ocbs, k <- ocbs :: ocbs[h].fid == ocbs[k].fid ==> h == k)
  }

  /** Counted: one fid per OCB, and the root's. */
  lemma {:induction false} OwnedCounts(inUse: set<u32>, root: u32, ocbs: map<nat, Ocb>, f: u32)
    requires Owned(inUse, root, ocbs)
    ensures |inUse| == |ocbs| + 1
    ensures f in inUse <==> f == root || exists h :: h in ocbs && ocbs[h].fid == f
    decreases |ocbs|
  {
    if h :| h in ocbs {
      CloseOwns(inUse, root, ocbs, h);
      OwnedCounts(inUse - {ocbs[h].fid}, root, ocbs - {h}, f);
    } else {
      assert OcbFids(ocbs) == {};
      assert inUse == {root};
    }
  }

  lemma OpenOwns(inUse: set<u32>, root: u32, ocbs: map<nat, Ocb>, handle: nat, ocb: Ocb)
    requires Owned(inUse, root, ocbs) && handle !in ocbs && ocb.fid !in inUse
    ensures Owned(inUse + {ocb.fid}, root, ocbs[handle := ocb])
  {
    var after := ocbs[handle := ocb];
    assert forall h <- ocbs :: after[h] == ocbs[h] && ocbs[h].fid in OcbFids(ocbs);
    assert OcbFids(after) == OcbFids(ocbs) + {ocb.fid} by {
      assert after[handle].fid in OcbFids(after);
      assert forall h <- ocbs :: after[h].fid in OcbFids(after);
    }
  }

  lemma CloseOwns(inUse: set<u32>, root: u32, ocbs: map<nat, Ocb>, handle: nat)
    requires Owned(inUse, root, ocbs) && handle in ocbs
    ensures ocbs[handle].fid in inUse && ocbs[handle].fid != root
    ensures Owned(inUse - {ocbs[handle].fid}, root, ocbs - {handle})
  {
    var after := ocbs - {handle};
    assert ocbs[handle].fid in OcbFids(ocbs);
    assert OcbFids(after) == OcbFids(ocbs) - {ocbs[handle].fid} by {
      assert forall h <- after :: after[h] == ocbs[h] && after[h].fid in OcbFids(after);
    }
  }

  lemma TakeBack(fids: set<u32>, fid: u32)
    ensures fid !in fids ==> fids + {fid} - {fid} == fids
  {}

  lemma TakeBackBoth(fids: set<u32>, a: u32, b: u32)
    ensures a !in fids && b !in fids ==> fids + {a} + {b} - {a} - {b} == fids
  {}

  // ------------------------------------------------ what a handler sends and returns

  /** e walks from the root to all of `path`. */
  ghost predicate FullWalk(e: Entry, root: u32, path: Bytes) {
    e.msg.Twalk? && e.msg.fid == root && e.msg.names == Components(path)
  }

  /** e walks from the root to the parent of `path`. */
  ghost predicate ParentWalk(e: Entry, root: u32, path: Bytes) {
    var names := Components(path);
    e.msg.Twalk? && e.msg.fid == root && names != [] && e.msg.names == names[..|names| - 1]
  }

  /** The last component of a path. */
  function BaseName(path: Bytes): Bytes {
    var names := Components(path);
    if names == [] then [] else names[|names| - 1]
  }

  ghost predicate ClunkOf(e: Entry, fid: u32) {
    e.msg.Tclunk? && e.msg.fid == fid
  }

  /** Walk to the parent, make the directory there, let go of the parent. */
  ghost predicate MknodOutcome(
    sent: seq<Entry>, root: u32, path: Bytes, mode: u32, rc: int) {
    if path == [] then sent == [] && rc == EINVAL
    else if !SIsDir(mode) then sent == [] && rc == ENOTSUP
    else if !EndsInName(path) then sent == [] && rc == EINVAL
    else
      && sent != [] && ParentWalk(sent[0], root, path)
      && if EntryRc(sent[0]) != 0 then |sent| == 1 && rc == -EntryRc(sent[0])
         else
           && |sent| == 3 && sent[1].msg.Tmkdir? && sent[1].msg.fid == sent[0].msg.newfid
           && sent[1].msg.name == BaseName(path) && sent[1].msg.mode == mode % 0x200 && sent[1].msg.gid == 0
           && ClunkOf(sent[2], sent[0].msg.newfid) && rc == -EntryRc(sent[1])
  }

  /** Walk to both parents, rename from the first to the second, let go of both. */
  ghost predicate RenameOutcome(sent: seq<Entry>, root: u32, oldPath: Bytes, newPath: Bytes, rc: int) {
    if !EndsInName(oldPath) then sent == [] && rc == EINVAL
    else
      && sent != [] && ParentWalk(sent[0], root, oldPath)
      && if EntryRc(sent[0]) != 0 then |sent| == 1 && rc == -EntryRc(sent[0])
         else if !EndsInName(newPath) then |sent| == 2 && ClunkOf(sent[1], sent[0].msg.newfid) && rc == EINVAL
         else
           && |sent| >= 2 && ParentWalk(sent[1], root, newPath)
           && if EntryRc(sent[1]) != 0 then
                |sent| == 3 && ClunkOf(sent[2], sent[0].msg.newfid) && rc == -EntryRc(sent[1])
              else
                && |sent| == 5 && sent[2].msg.Trenameat?
                && sent[2].msg.fid == sent[0].msg.newfid && sent[2].msg.oldname == BaseName(oldPath)
                && sent[2].msg.newfid == sent[1].msg.newfid && sent[2].msg.newname == BaseName(newPath)
                && ClunkOf(sent[3], sent[0].msg.newfid) && ClunkOf(sent[4], sent[1].msg.newfid)
                && rc == -EntryRc(sent[2])
  }

  /** The probe of an unlink: a walk to the target that failed, or one that succeeded, the
      target's attributes and its clunk; `isDir` is what it found. */
  ghost predicate ProbeTrace(sent: seq<Entry>, root: u32, path: Bytes, isDir: bool) {
    && sent != [] && FullWalk(sent[0], root, path)
    && if EntryRc(sent[0]) != 0 then |sent| == 1 && !isDir
       else
         && |sent| == 3 && sent[1].msg.Tgetattr? && sent[1].msg.fid == sent[0].msg.newfid
         && ClunkOf(sent[2], sent[0].msg.newfid)
         && (isDir <==> EntryRc(sent[1]) == 0 && IsDirectory(StatOf(sent[1]).mode))
  }

  /** Walk to the parent, probe the target, remove it as what it is, let go of the parent. */
  ghost predicate UnlinkOutcome(sent: seq<Entry>, root: u32, path: Bytes, rc: int) {
    if !EndsInName(path) then sent == [] && rc == EINVAL
    else
      && sent != [] && ParentWalk(sent[0], root, path)
      && if EntryRc(sent[0]) != 0 then |sent| == 1 && rc == -EntryRc(sent[0])
         else
           && |sent| >= 4 && sent[|sent| - 2].msg.Tunlinkat?
           && var remove := sent[|sent| - 2];
           && remove.msg.fid == sent[0].msg.newfid && remove.msg.name == BaseName(path)
           && (remove.msg.flags == 0 || remove.msg.flags == LINUX_AT_REMOVEDIR)
           && ProbeTrace(sent[1..|sent| - 2], root, path, remove.msg.flags == LINUX_AT_REMOVEDIR)
           && ClunkOf(sent[|sent| - 1], sent[0].msg.newfid) && rc == -EntryRc(remove)
  }

  /** The attributes a Tgetattr brought, zeros if the server refused. */
  function StatOf(e: Entry): Stat {
    if EntryRc(e) == 0 && e.outcome.Got? && e.outcome.reply.Rgetattr? then e.outcome.reply.stat else Stat(0, 0)
  }

  /** Open the fid of a path that exists and look at its attributes, or let go of it. */
  ghost predicate ExistingOpened(sent: seq<Entry>, fid: u32, flags: u32, rc: int, iounit: u32, stat: Stat) {
    && |sent| == 2 && sent[0].msg.Tlopen? && sent[0].msg.fid == fid && sent[0].msg.flags == flags
    && rc == EntryRc(sent[0])
    && if rc != 0 then ClunkOf(sent[1], fid)
       else
         && sent[1].msg.Tgetattr? && sent[1].msg.fid == fid
         && sent[0].outcome.Got? && sent[0].outcome.reply.Rlopen? && iounit == sent[0].outcome.reply.iounit
         && stat == StatOf(sent[1])
  }

  /** Walk to the parent and create there; the parent's fid becomes the new file's. */
  ghost predicate MissingCreated(
    sent: seq<Entry>, root: u32, path: Bytes, flags: u32, rc: int, fid: u32, iounit: u32) {
    if !EndsInName(path) then sent == [] && rc == -EINVAL
    else
      && sent != [] && ParentWalk(sent[0], root, path)
      && if EntryRc(sent[0]) != 0 then |sent| == 1 && rc == EntryRc(sent[0])
         else
           && |sent| >= 2 && sent[1].msg.Tlcreate?
           && fid == sent[0].msg.newfid == sent[1].msg.fid && sent[1].msg.name == BaseName(path)
           && sent[1].msg.flags == WithCreat(flags) && sent[1].msg.mode == 0x1A4 && sent[1].msg.gid == 0
           && rc == EntryRc(sent[1])
           && if rc != 0 then |sent| == 3 && ClunkOf(sent[2], fid)
              else
                && |sent| == 2
                && sent[1].outcome.Got? && sent[1].outcome.reply.Rlcreate? && iounit == sent[1].outcome.reply.iounit
  }

  /** The end of an open: what the QNX open helper says, or why it was not asked. */
  ghost predicate OpenEnds(sent: seq<Entry>, fid: u32, openRc: int, localOpen: int, rc: int) {
    if openRc != 0 then sent == [] && rc == -openRc
    else
      && rc == localOpen
      && if localOpen == EOK then sent == [] else |sent| == 1 && ClunkOf(sent[0], fid)
  }

  /** Walk and open, or, if O_CREAT is given and the walk did not reach the path, create in the
      parent.  `ocb` is what a successful open leaves: the fid that is now open and what the
      server said of it. */
  ghost predicate OpenOutcome(
    sent: seq<Entry>, root: u32, path: Bytes, wantCreate: bool, flags: u32, localOpen: int, rc: int, cut: nat,
    ocb: Ocb) {
    && 1 <= cut <= |sent| && FullWalk(sent[0], root, path)
    && ocb.offset == 0 && ocb.openFlags == flags && (ocb.isDirectory <==> IsDirectory(ocb.stat.mode))
    && var walked := EntryRc(sent[0]);
    if walked == 0 then
      && cut == 3 && ocb.fid == sent[0].msg.newfid
      && ExistingOpened(sent[1..3], ocb.fid, flags, EntryRc(sent[1]), ocb.iounit, ocb.stat)
      && OpenEnds(sent[3..], ocb.fid, EntryRc(sent[1]), localOpen, rc)
    else if walked == -ENOENT && wantCreate then
      && ocb.stat == NEW_FILE
      && exists createRc: int ::
           && MissingCreated(sent[1..cut], root, path, flags, createRc, ocb.fid, ocb.iounit)
           && OpenEnds(sent[cut..], ocb.fid, createRc, localOpen, rc)
    else |sent| == 1 && rc == -walked
  }

  // When each handler succeeds.

  lemma MknodSucceedsIff(sent: seq<Entry>, root: u32, path: Bytes, mode: u32, rc: int)
    requires MknodOutcome(sent, root, path, mode, rc)
    ensures rc == EOK <==> |sent| == 3 && EntryRc(sent[1]) == 0
  {}

  lemma RenameSucceedsIff(sent: seq<Entry>, root: u32, oldPath: Bytes, newPath: Bytes, rc: int)
    requires RenameOutcome(sent, root, oldPath, newPath, rc)
    ensures rc == EOK <==> |sent| == 5 && EntryRc(sent[2]) == 0
  {}

  lemma UnlinkSucceedsIff(sent: seq<Entry>, root: u32, path: Bytes, rc: int)
    requires UnlinkOutcome(sent, root, path, rc)
    ensures rc == EOK <==> |sent| >= 4 && EntryRc(sent[|sent| - 2]) == 0
  {}

  lemma OpenSucceedsIff(
    sent: seq<Entry>, root: u32, path: Bytes, wantCreate: bool, flags: u32, localOpen: int, rc: int, cut: nat, ocb: Ocb)
    requires OpenOutcome(sent, root, path, wantCreate, flags, localOpen, rc, cut, ocb)
    ensures rc == EOK <==>
            && localOpen == EOK && |sent| == 3
            && ((sent[1].msg.Tlopen? && EntryRc(sent[1]) == 0) || (sent[2].msg.Tlcreate? && EntryRc(sent[2]) == 0))
  {
    if 1 <= cut <= |sent| {
      assert sent[1..cut] + sent[cut..] == sent[1..];
    }
  }

  // What the handlers return and send, in numbers.

  /** A file type is taken for a directory if it has the bit 0040000: directories (4), and also
      block devices (6) and sockets (12); S_ISDIR takes directories only. */
  lemma DirectoryTypes(t: nat, perm: nat)
    requires t < 16 && perm < 0x1000
    ensures IsDirectory(t * 0x1000 + perm) <==> t in {4, 5, 6, 7, 12, 13, 14, 15}
    ensures SIsDir(t * 0x1000 + perm) <==> t == 4
  {}

  /** Bit 6 is set, the others are kept. */
  lemma CreatBit(flags: u32)
    ensures var r := WithCreat(flags); r / 64 % 2 == 1 && r % 64 == flags % 64 && r / 128 == flags / 128
  {
    hide WithCreat;
    var high, bit, low := flags / 128, flags / 64 % 2, flags % 64;
    assert flags == 128 * high + 64 * bit + low;
    SetBit(flags, high, bit, low);
    BitsOf(WithCreat(flags), high, 1, low);
  }

  lemma BitsOf(x: nat, high: nat, bit: nat, low: nat)
    requires bit < 2 && low < 64 && x == 128 * high + 64 * bit + low
    ensures x / 64 == 2 * high + bit && x / 64 % 2 == bit && x % 64 == low && x / 128 == high
  {
    assert x / 64 == 2 * high + bit;
  }

  lemma SetBit(flags: u32, high: nat, bit: nat, low: nat)
    requires bit < 2 && low < 64 && flags == 128 * high + 64 * bit + low
    ensures WithCreat(flags) == 128 * high + 64 + low
  {
    BitsOf(flags, high, bit, low);
  }

  /** The server answered e with this errno. */
  predicate Refused(e: Entry, errno: u32) {
    0 < errno < 0x8000_0000 && e.outcome == Got(Rlerror(errno))
  }

  /** Not done, because the server refused or a walk stopped early. */
  predicate Fails(e: Entry, errno: u32) {
    Refused(e, errno) ||
    (errno == 2 && e.msg.Twalk? && e.outcome.Got? && e.outcome.reply.Rwalk? &&
     |e.outcome.reply.qids| != |e.msg.names|)
  }

  lemma FailsWith(e: Entry, errno: u32)
    requires Fails(e, errno)
    ensures EntryRc(e) == 0 - errno < 0
  {}

  lemma MknodCodes(sent: seq<Entry>, root: u32, path: Bytes, mode: u32, rc: int, errno: u32)
    requires MknodOutcome(sent, root, path, mode, rc)
    ensures path == [] ==> sent == [] && rc == 22
    ensures path != [] && mode / 0x1000 % 16 != 4 ==> sent == [] && rc == 48
    ensures sent != [] && Fails(sent[0], errno) ==> |sent| == 1 && rc == errno
    ensures |sent| > 1 && Fails(sent[1], errno) ==> |sent| == 3 && rc == errno
    ensures |sent| > 1 && sent[1].outcome.Got? && sent[1].outcome.reply.Rmkdir? ==> |sent| == 3 && rc == 0
  {
    hide Components, FullWalk, EndsInName;
    if sent != [] && Fails(sent[0], errno) { FailsWith(sent[0], errno); }
    if |sent| > 1 && Fails(sent[1], errno) { FailsWith(sent[1], errno); }
  }

  lemma RenameCodes(sent: seq<Entry>, root: u32, oldPath: Bytes, newPath: Bytes, rc: int, errno: u32)
    requires RenameOutcome(sent, root, oldPath, newPath, rc)
    ensures sent == [] ==> rc == 22
    ensures sent != [] && Fails(sent[0], errno) ==> |sent| == 1 && rc == errno
    ensures |sent| > 2 && Fails(sent[1], errno) ==> |sent| == 3 && rc == errno
    ensures |sent| == 2 ==> rc == 22
    ensures |sent| > 3 && Fails(sent[2], errno) ==> |sent| == 5 && rc == errno
    ensures |sent| > 3 && sent[2].outcome.Got? && sent[2].outcome.reply.Rrenameat? ==> |sent| == 5 && rc == 0
  {
    hide Components, FullWalk, EndsInName, ParentWalk, BaseName;
    if sent != [] && Fails(sent[0], errno) { FailsWith(sent[0], errno); }
    if |sent| > 2 && Fails(sent[1], errno) { FailsWith(sent[1], errno); }
    if |sent| > 3 && Fails(sent[2], errno) { FailsWith(sent[2], errno); }
  }

  /** An unlink sends nothing, one walk, four messages or six.  An answered mode decides the
      flags; without one the target is removed as a file. */
  lemma UnlinkCodes(sent: seq<Entry>, root: u32, path: Bytes, rc: int, errno: u32)
    requires UnlinkOutcome(sent, root, path, rc)
    ensures |sent| == 0 || |sent| == 1 || |sent| == 4 || |sent| == 6
    ensures sent == [] ==> rc == 22
    ensures sent != [] && Fails(sent[0], errno) ==> |sent| == 1 && rc == errno
    ensures |sent| > 1 && Fails(sent[|sent| - 2], errno) ==> rc == errno
    ensures |sent| > 1 && sent[|sent| - 2].outcome.Got? && sent[|sent| - 2].outcome.reply.Runlinkat? ==> rc == 0
  {
    hide Components, FullWalk, EndsInName, ParentWalk, BaseName, StatOf, IsDirectory;
    if sent != [] && Fails(sent[0], errno) { FailsWith(sent[0], errno); }
    if |sent| > 1 && Fails(sent[|sent| - 2], errno) { FailsWith(sent[|sent| - 2], errno); }
  }

  lemma UnlinkFlags(sent: seq<Entry>, root: u32, path: Bytes, rc: int, t: nat, perm: nat, size: u64)
    requires UnlinkOutcome(sent, root, path, rc) && t < 16 && perm < 0x1000
    ensures |sent| == 4 ==> sent[2].msg.Tunlinkat? && sent[2].msg.flags == 0
    ensures |sent| == 6 ==> sent[2].msg.Tgetattr? && sent[4].msg.Tunlinkat?
    ensures |sent| == 6 && Fails(sent[2], 13) ==> sent[4].msg.flags == 0
    ensures |sent| == 6 && sent[2].outcome == Got(Rgetattr(Stat(t * 0x1000 + perm, size))) ==>
              sent[4].msg.flags == if t in {4, 5, 6, 7, 12, 13, 14, 15} then 0x200 else 0
  {
    hide Components, FullWalk, EndsInName, ParentWalk, BaseName, IsDirectory;
    DirectoryTypes(t, perm);
  }

  lemma OpenCodes(
    sent: seq<Entry>, root: u32, path: Bytes, wantCreate: bool, flags: u32, localOpen: int, rc: int, cut: nat,
    ocb: Ocb, errno: u32)
    requires OpenOutcome(sent, root, path, wantCreate, flags, localOpen, rc, cut, ocb)
    ensures |sent| > 0
    ensures Fails(sent[0], errno) && (errno != 2 || !wantCreate) ==> |sent| == 1 && rc == errno
    ensures Fails(sent[0], 2) && wantCreate && !EndsInName(path) ==> |sent| == 1 && rc == 22
    ensures Fails(sent[0], 2) && wantCreate && EndsInName(path) ==> |sent| > 1 && ParentWalk(sent[1], root, path)
    ensures |sent| > 1 && sent[1].msg.Tlopen? && Fails(sent[1], errno) ==> |sent| == 3 && rc == errno
    ensures |sent| > 1 && sent[1].msg.Twalk? && Fails(sent[1], errno) ==> |sent| == 2 && rc == errno
    ensures |sent| > 2 && sent[2].msg.Tlcreate? && Fails(sent[2], errno) ==> |sent| == 4 && rc == errno
  {
    hide Components, EndsInName, BaseName, StatOf, IsDirectory, WithCreat, EntryRc, Fails;
    if Fails(sent[0], errno) { FailsWith(sent[0], errno); }
    if Fails(sent[0], 2) { FailsWith(sent[0], 2); }
    if |sent| > 1 && Fails(sent[1], errno) { FailsWith(sent[1], errno); }
    if |sent| > 2 && Fails(sent[2], errno) { FailsWith(sent[2], errno); }
  }

  /** What a successful open leaves open: a file that was found, under the fid walked to and by
      the type its attributes say; or one that was made, which is an empty regular file. */
  lemma OpenedAs(
    sent: seq<Entry>, root: u32, path: Bytes, wantCreate: bool, flags: u32, localOpen: int, cut: nat,
    ocb: Ocb, t: nat, perm: nat, size: u64)
    requires OpenOutcome(sent, root, path, wantCreate, flags, localOpen, 0, cut, ocb)
    requires t < 16 && perm < 0x1000
    ensures |sent| == 3
    ensures sent[1].msg.Twalk? ==>
              && sent[2].msg.Tlcreate? && sent[2].msg.fid == sent[1].msg.newfid == ocb.fid
              && sent[2].msg.flags / 64 % 2 == 1 && sent[2].msg.mode == 420 && sent[2].msg.gid == 0
              && !ocb.isDirectory && ocb.stat == Stat(33188, 0)
    ensures sent[1].msg.Tlopen? ==>
              && sent[0].msg.Twalk? && sent[0].msg.newfid == sent[1].msg.fid == ocb.fid
              && sent[1].msg.flags == flags && sent[2].msg.Tgetattr? && sent[2].msg.fid == ocb.fid
    ensures sent[1].msg.Tlopen? && sent[2].outcome == Got(Rgetattr(Stat(t * 0x1000 + perm, size))) ==>
              && ocb.stat == Stat(t * 0x1000 + perm, size)
              && (ocb.isDirectory <==> t in {4, 5, 6, 7, 12, 13, 14, 15})
  {
    hide Components, EndsInName, BaseName, IsDirectory, WithCreat;
    DirectoryTypes(t, perm);
    DirectoryTypes(8, 0x1A4);
    CreatBit(flags);
    OpenSucceedsIff(sent, root, path, wantCreate, flags, localOpen, 0, cut, ocb);
  }

  /** What was sent between two states of the log. */
  function Since(before: seq<Entry>, after: seq<Entry>): seq<Entry> {
    if before <= after then after[|before|..] else []
  }

  class FileSystem {
    const session: Session
    var ocbs: map<nat, Ocb>

    ghost predicate Valid()
      reads this, session, session.channel, session.pool
    {
      && session.Ready()
      && (Healthy(session.channel.log) ==> Owned(session.pool.inUse, session.rootFid, ocbs))
    }

    constructor (session: Session)
      requires session.Ready()
      requires Healthy(session.channel.log) ==> session.pool.inUse == {session.rootFid}
      ensures Valid() && this.session == session && ocbs == map[]
    {
      this.session := session;
      ocbs := map[];
    }

    /** ConnectOpen on an existing path. */
    method OpenExisting(fid: u32, linuxFlags: u32) returns (rc: int, iounit: u32, stat: Stat)
      requires session.Ready()
      requires Healthy(session.channel.log) ==> fid in session.pool.inUse && fid != session.rootFid
      modifies session, session.channel, session.pool
      ensures session.Ready() && old(session.channel.log) <= session.channel.log
      ensures Healthy(session.channel.log) ==>
                && Healthy(old(session.channel.log)) && session.rootFid == old(session.rootFid)
                && session.pool.inUse == (if rc == 0 then old(session.pool.inUse) else old(session.pool.inUse) - {fid})
                && ExistingOpened(Since(old(session.channel.log), session.channel.log),
                                  fid, linuxFlags, rc, iounit, stat)
    {
      hide Owned, Clean, Agree;
      stat := Stat(0, 0);
      rc, iounit := session.Open(fid, linuxFlags);
      ghost var answered := session.channel.log;
      if rc != 0 {
        var ignored := session.Clunk(fid);
        return;
      }
      var ignored;
      ignored, stat := session.GetAttr(fid);
    }

    /** ConnectOpen on a missing path, with O_CREAT. */
    method CreateMissing(path: Bytes, linuxFlags: u32) returns (rc: int, fid: u32, iounit: u32)
      requires session.Ready()
      modifies session, session.channel, session.pool
      ensures session.Ready() && old(session.channel.log) <= session.channel.log
      ensures Healthy(session.channel.log) ==>
                && Healthy(old(session.channel.log)) && session.rootFid == old(session.rootFid)
                && (rc == 0 ==> fid !in old(session.pool.inUse))
                && session.pool.inUse == (if rc == 0 then old(session.pool.inUse) + {fid} else old(session.pool.inUse))
                && MissingCreated(Since(old(session.channel.log), session.channel.log), old(session.rootFid),
                                  path, linuxFlags, rc, fid, iounit)
    {
      hide Owned, Clean, Agree, Components, MissingCreated, ParentWalkSent, EntryRc;
      ghost var before, root := session.channel.log, session.rootFid;
      var basename;
      iounit := 0;
      rc, fid, basename := session.WalkParent(path);
      ghost var walked := session.channel.log;
      if rc != 0 {
        if Healthy(walked) { CreateNotFound(before, walked, root, path, linuxFlags, fid, basename, rc, iounit); }
        return;
      }
      rc, iounit := session.Create(fid, basename, WithCreat(linuxFlags), 0x1A4, 0);
      ghost var created := session.channel.log;
      if rc != 0 {
        var ignored := session.Clunk(fid);
        TakeBack(old(session.pool.inUse), fid);
      }
      if Healthy(session.channel.log) {
        EntryOf(created[|walked|], rc);
        CreateSent(before, walked, created, session.channel.log, root, path, linuxFlags, fid, basename, rc, iounit);
      }
    }

    /** Walk to the path and open it, or create it in its parent. */
    method OpenOrCreate(path: Bytes, wantCreate: bool, linuxFlags: u32)
      returns (rc: int, fid: u32, iounit: u32, stat: Stat, ghost log: seq<Entry>, ghost walkRc: int)
      requires session.Ready()
      modifies session, session.channel, session.pool
      ensures session.Ready() && old(session.channel.log) <= session.channel.log
      ensures Healthy(session.channel.log) ==>
                && Healthy(old(session.channel.log)) && session.rootFid == old(session.rootFid)
                && (rc == 0 ==> fid !in old(session.pool.inUse))
                && session.pool.inUse == (if rc == 0 then old(session.pool.inUse) + {fid} else old(session.pool.inUse))
                && OpenTried(old(session.channel.log), log, session.channel.log, old(session.rootFid), path, wantCreate,
                             linuxFlags, walkRc, rc, fid, iounit, stat)
    {
      hide Owned, Clean, Agree, Components, ExistingOpened, MissingCreated, EntryRc;
      iounit, stat := 0, NEW_FILE;
      rc, fid := session.Walk(path);
      log, walkRc := session.channel.log, rc;
      if rc == 0 {
        rc, iounit, stat := OpenExisting(fid, linuxFlags);
        TakeBack(old(session.pool.inUse), fid);
      } else if rc == -ENOENT && wantCreate {
        rc, fid, iounit := CreateMissing(path, linuxFlags);
      }
    }

    method ConnectOpen(path: Bytes, wantCreate: bool, linuxFlags: u32, localOpen: int, handle: nat)
      returns (rc: int, ghost cut: nat, ghost ocb: Ocb)
      requires Valid() && handle !in ocbs
      modifies this, session, session.channel, session.pool
      ensures Valid() && old(session.channel.log) <= session.channel.log
      ensures Healthy(session.channel.log) ==>
                && session.rootFid == old(session.rootFid)
                && OpenOutcome(Since(old(session.channel.log), session.channel.log), old(session.rootFid),
                               path, wantCreate, linuxFlags, localOpen, rc, cut, ocb)
      ensures ocbs == if rc == EOK then old(ocbs)[handle := ocb] else old(ocbs)
    {
      hide Owned, Clean, Agree, Components, OpenTried, OpenOutcome, IsDirectory;
      ghost var before, root := session.channel.log, session.rootFid;
      var openRc, fid, iounit, stat;
      ghost var log, walkRc;
      var relative := if path == [] then [SLASH] else path;
      openRc, fid, iounit, stat, log, walkRc := OpenOrCreate(relative, wantCreate, linuxFlags);
      ghost var tried := session.channel.log;
      cut := |tried| - |before|;
      var entry := Ocb(fid, 0, iounit, IsDirectory(stat.mode), linuxFlags, stat);
      ocb := entry;
      if openRc != 0 {
        if Healthy(tried) {
          OpenSent(before, log, tried, tried, root, path, wantCreate, localOpen, walkRc, openRc, -openRc, ocb);
        }
        return -openRc, cut, ocb;
      }
      if localOpen != EOK {
        var ignored := session.Clunk(fid);
        TakeBack(old(session.pool.inUse), fid);
        if Healthy(session.channel.log) {
          OpenSent(before, log, tried, session.channel.log, root, path, wantCreate, localOpen,
                   walkRc, 0, localOpen, ocb);
        }
        return localOpen, cut, ocb;
      }
      if Healthy(tried) {
        OpenOwns(old(session.pool.inUse), session.rootFid, ocbs, handle, entry);
        OpenSent(before, log, tried, tried, root, path, wantCreate, localOpen, walkRc, 0, EOK, ocb);
      }
      ocbs := ocbs[handle := entry];
      return EOK, cut, ocb;
    }

    method ConnectMknod(path: Bytes, mode: u32) returns (rc: int)
      requires Valid()
      modifies session, session.channel, session.pool
      ensures Valid() && ocbs == old(ocbs) && old(session.channel.log) <= session.channel.log
      ensures Healthy(session.channel.log) ==>
                && session.rootFid == old(session.rootFid)
                && MknodOutcome(Since(old(session.channel.log), session.channel.log), old(session.rootFid),
                                path, mode, rc)
    {
      hide Owned, Clean, Agree, Components, EntryRc, MknodOutcome, ParentWalkSent, SIsDir;
      ghost var before, root := session.channel.log, session.rootFid;
      NoMknod(before, root, path, mode);
      if path == [] {
        return EINVAL;
      }
      if !SIsDir(mode) {
        return ENOTSUP;
      }
      var parentFid, basename;
      rc, parentFid, basename := session.WalkParent(path);
      ghost var walked := session.channel.log;
      if rc != 0 {
        if EndsInName(path) && Healthy(walked) {
          MknodNotFound(before, walked, root, path, mode, parentFid, basename, rc);
        }
        return -rc;
      }
      rc := session.Mkdir(parentFid, basename, mode % 0x200, 0);
      ghost var made := session.channel.log;
      var ignored := session.Clunk(parentFid);
      TakeBack(old(session.pool.inUse), parentFid);
      if Healthy(session.channel.log) {
        EntryOf(made[|walked|], rc);
        MknodSent(before, walked, made, session.channel.log, root, path, mode, parentFid, basename, rc);
      }
      return if rc != 0 then -rc else EOK;
    }

    /** Whether the target of an unlink is a directory: 0 or AT_REMOVEDIR. */
    method Probe(path: Bytes) returns (unlinkFlags: u32)
      requires session.Ready()
      modifies session, session.channel, session.pool
      ensures session.Ready() && session.FidsKept() && old(session.channel.log) <= session.channel.log
      ensures unlinkFlags == 0 || unlinkFlags == LINUX_AT_REMOVEDIR
      ensures Healthy(session.channel.log) ==>
                ProbeTrace(Since(old(session.channel.log), session.channel.log), old(session.rootFid),
                           path, unlinkFlags != 0)
    {
      hide Owned, Clean, Agree, Components, ProbeTrace, EntryRc, StatOf;
      ghost var before, root := session.channel.log, session.rootFid;
      unlinkFlags := 0;
      var rc, targetFid := session.Walk(path);
      ghost var walked := session.channel.log;
      if rc == 0 {
        var statRc, stat := session.GetAttr(targetFid);
        if statRc == 0 && IsDirectory(stat.mode) {
          unlinkFlags := LINUX_AT_REMOVEDIR;
        }
        ghost var probed := session.channel.log;
        var ignored := session.Clunk(targetFid);
        TakeBack(old(session.pool.inUse), targetFid);
        if Healthy(session.channel.log) {
          EntryOf(probed[|walked|], statRc);
          StatRead(probed[|walked|], statRc, stat);
          ProbeSent(before, walked, probed, session.channel.log, root, path, unlinkFlags != 0);
        }
      } else if Healthy(walked) {
        ProbeNotFound(before, walked, root, path);
      }
    }

    method ConnectUnlink(path: Bytes) returns (rc: int)
      requires Valid()
      modifies session, session.channel, session.pool
      ensures Valid() && ocbs == old(ocbs) && old(session.channel.log) <= session.channel.log
      ensures Healthy(session.channel.log) ==>
                && session.rootFid == old(session.rootFid)
                && UnlinkOutcome(Since(old(session.channel.log), session.channel.log), old(session.rootFid), path, rc)
    {
      hide Owned, Clean, Agree, Components, ProbeTrace, ParentWalkSent, UnlinkOutcome, EntryRc;
      NoUnlink(session.channel.log, session.rootFid, path);
      if path == [] {
        return EINVAL;
      }
      var parentFid, basename;
      rc, parentFid, basename := session.WalkParent(path);
      ghost var walked := session.channel.log;
      if rc != 0 {
        if EndsInName(path) && Healthy(walked) {
          UnlinkNotFound(old(session.channel.log), walked, old(session.rootFid), path, parentFid, basename, rc);
        }
        return -rc;
      }
      var unlinkFlags := Probe(path);
      ghost var probed := session.channel.log;
      rc := session.Unlink(parentFid, basename, unlinkFlags);
      ghost var removed := session.channel.log;
      var ignored := session.Clunk(parentFid);
      TakeBack(old(session.pool.inUse), parentFid);
      if Healthy(session.channel.log) {
        EntryOf(removed[|probed|], rc);
        UnlinkSent(old(session.channel.log), walked, probed, removed, session.channel.log, old(session.rootFid),
                   path, parentFid, basename, unlinkFlags != 0, rc);
      }
      return if rc != 0 then -rc else EOK;
    }

    method ConnectRename(oldPath: Bytes, newPath: Bytes) returns (rc: int)
      requires Valid()
      modifies session, session.channel, session.pool
      ensures Valid() && ocbs == old(ocbs) && old(session.channel.log) <= session.channel.log
      ensures Healthy(session.channel.log) ==>
                && session.rootFid == old(session.rootFid)
                && RenameOutcome(Since(old(session.channel.log), session.channel.log), old(session.rootFid),
                                 oldPath, newPath, rc)
    {
      hide Owned, Clean, Agree, Components, ParentWalkSent, RenameOutcome, EntryRc;
      NoRename(session.channel.log, session.rootFid, oldPath, newPath);
      if oldPath == [] {
        return EINVAL;
      }
      var oldFid, oldName, newFid, newName;
      rc, oldFid, oldName := session.WalkParent(oldPath);
      ghost var a := session.channel.log;
      if rc != 0 {
        if EndsInName(oldPath) && Healthy(a) {
          RenameNotFound(old(session.channel.log), a, old(session.rootFid), oldPath, newPath, oldFid, oldName, rc);
        }
        return -rc;
      }
      rc, newFid, newName := session.WalkParent(newPath);
      ghost var b := session.channel.log;
      if rc != 0 {
        var ignored := session.Clunk(oldFid);
        TakeBack(old(session.pool.inUse), oldFid);
        if Healthy(session.channel.log) {
          RenameToNowhere(old(session.channel.log), a, b, session.channel.log, old(session.rootFid), oldPath, newPath,
                          oldFid, oldName, newFid, newName, rc);
        }
        return -rc;
      }
      rc := session.Rename(oldFid, oldName, newFid, newName);
      ghost var c := session.channel.log;
      var ignored := session.Clunk(oldFid);
      ghost var d := session.channel.log;
      ignored := session.Clunk(newFid);
      TakeBackBoth(old(session.pool.inUse), oldFid, newFid);
      if Healthy(session.channel.log) {
        EntryOf(c[|b|], rc);
        RenameSent(old(session.channel.log), a, b, c, d, session.channel.log, old(session.rootFid),
                   oldPath, oldFid, oldName, newPath, newFid, newName, rc);
      }
      return if rc != 0 then -rc else EOK;
    }

    method IoCloseOcb(handle: nat)
      requires Valid() && handle in ocbs
      modifies this, session, session.channel, session.pool
      ensures Valid() && ocbs == old(ocbs) - {handle} && old(session.channel.log) <= session.channel.log
      ensures Healthy(session.channel.log) ==>
                && session.rootFid == old(session.rootFid)
                && var sent := Since(old(session.channel.log), session.channel.log);
                |sent| == 1 && ClunkOf(sent[0], old(ocbs)[handle].fid)
    {
      hide Owned, Clean, Agree;
      ghost var inUse, root := session.pool.inUse, session.rootFid;
      if Healthy(session.channel.log) {
        CloseOwns(inUse, root, ocbs, handle);
      }
      var ignored := session.Clunk(ocbs[handle].fid);
      ocbs := ocbs - {handle};
    }
  }

  /** The code of an operation other than a walk. */
  lemma EntryOf(e: Entry, rc: int)
    requires !e.msg.Twalk? && e.outcome.Got? && rc == CallRc(e.msg, e.outcome.reply)
    ensures rc == EntryRc(e)
  {}

  /** The empty path stands for the root. */
  lemma SamePath(path: Bytes)
    ensures Components(if path == [] then [SLASH] else path) == Components(path)
    ensures EndsInName(if path == [] then [SLASH] else path) <==> EndsInName(path)
  {
    NoComponents();
  }

  lemma SameCreated(sent: seq<Entry>, root: u32, path: Bytes, flags: u32, rc: int, fid: u32, iounit: u32)
    ensures MissingCreated(sent, root, if path == [] then [SLASH] else path, flags, rc, fid, iounit) ==>
              MissingCreated(sent, root, path, flags, rc, fid, iounit)
  {
    hide Components, EntryRc;
    SamePath(path);
  }

  /** Up to `done`: a walk, and what it led to. */
  ghost predicate OpenTried(
    before: seq<Entry>, walked: seq<Entry>, done: seq<Entry>, root: u32, path: Bytes, wantCreate: bool,
    flags: u32, walkRc: int, rc: int, fid: u32, iounit: u32, stat: Stat) {
    && before < walked <= done && |walked| == |before| + 1
    && FullWalk(walked[|before|], root, path) && walkRc == EntryRc(walked[|before|])
    && if walkRc == 0 then
         fid == walked[|before|].msg.newfid && ExistingOpened(Since(walked, done), fid, flags, rc, iounit, stat)
       else if walkRc == -ENOENT && wantCreate then
         stat == NEW_FILE && MissingCreated(Since(walked, done), root, path, flags, rc, fid, iounit)
       else walked == done && rc == walkRc
  }

  lemma OpenSent(
    before: seq<Entry>, walked: seq<Entry>, done: seq<Entry>, after: seq<Entry>, root: u32, path: Bytes,
    wantCreate: bool, localOpen: int, walkRc: int, openRc: int, rc: int, ocb: Ocb)
    requires OpenTried(before, walked, done, root, if path == [] then [SLASH] else path, wantCreate,
                       ocb.openFlags, walkRc, openRc, ocb.fid, ocb.iounit, ocb.stat)
    requires ocb.offset == 0 && (ocb.isDirectory <==> IsDirectory(ocb.stat.mode))
    requires done <= after && OpenEnds(Since(done, after), ocb.fid, openRc, localOpen, rc)
    ensures |done| >= |before|
    ensures OpenOutcome(Since(before, after), root, path, wantCreate, ocb.openFlags, localOpen, rc,
                        |done| - |before|, ocb)
  {
    SamePath(path);
    var sent, cut := Since(before, after), |done| - |before|;
    OpenSlices(before, walked, done, after);
    SameCreated(Since(walked, done), root, path, ocb.openFlags, openRc, ocb.fid, ocb.iounit);
    TwoSent(Since(walked, done), ocb.fid, ocb.openFlags, openRc, ocb.iounit, ocb.stat);
    hide Components, EntryRc, ExistingOpened, MissingCreated, IsDirectory, Since, OpenEnds;
    if walkRc != 0 && !(walkRc == -ENOENT && wantCreate) {
      assert walked == done;
      NothingOpened(Since(done, after), ocb.fid, openRc, localOpen, rc);
    }
  }

  lemma OpenSlices(before: seq<Entry>, walked: seq<Entry>, done: seq<Entry>, after: seq<Entry>)
    requires before < walked <= done <= after && |walked| == |before| + 1
    ensures var sent, cut := Since(before, after), |done| - |before|;
            && 1 <= cut <= |sent| && |sent| == cut + |Since(done, after)| && |Since(walked, done)| == cut - 1
            && sent[0] == walked[|before|] && sent[1..cut] == Since(walked, done) && sent[cut..] == Since(done, after)
            && (cut > 1 ==> sent[1] == Since(walked, done)[0])
  {}

  lemma NothingOpened(sent: seq<Entry>, fid: u32, openRc: int, localOpen: int, rc: int)
    requires OpenEnds(sent, fid, openRc, localOpen, rc) && openRc != 0
    ensures sent == [] && rc == -openRc
  {}

  lemma TwoSent(sent: seq<Entry>, fid: u32, flags: u32, rc: int, iounit: u32, stat: Stat)
    ensures ExistingOpened(sent, fid, flags, rc, iounit, stat) ==> |sent| == 2 && rc == EntryRc(sent[0])
  {}

  lemma CreateNotFound(
    log: seq<Entry>, a: seq<Entry>, root: u32, path: Bytes, flags: u32, fid: u32, name: Bytes, rc: int, iounit: u32)
    requires if EndsInName(path) then ParentWalkSent(log, a, root, fid, path, name, rc) else log == a && rc == -EINVAL
    requires rc != 0
    ensures MissingCreated(Since(log, a), root, path, flags, rc, fid, iounit)
  {
    hide Components, EntryRc;
  }

  lemma CreateSent(
    log: seq<Entry>, a: seq<Entry>, b: seq<Entry>, c: seq<Entry>, root: u32, path: Bytes, flags: u32,
    fid: u32, name: Bytes, rc: int, iounit: u32)
    requires EndsInName(path) && ParentWalkSent(log, a, root, fid, path, name, 0)
    requires a < b <= c && |b| == |a| + 1 && rc == EntryRc(b[|a|])
    requires var m := b[|a|].msg;
             && m.Tlcreate? && m.fid == fid && m.name == name && m.flags == WithCreat(flags)
             && m.mode == 0x1A4 && m.gid == 0
    requires if rc != 0 then |c| == |b| + 1 && ClunkOf(c[|b|], fid)
             else
               && b == c && b[|a|].outcome.Got? && b[|a|].outcome.reply.Rlcreate?
               && iounit == b[|a|].outcome.reply.iounit
    ensures MissingCreated(Since(log, c), root, path, flags, rc, fid, iounit)
  {
    hide Components, EntryRc, ClunkOf, WithCreat;
    var sent := Since(log, c);
    assert sent[0] == a[|log|] && sent[1] == b[|a|];
  }

  lemma NoMknod(log: seq<Entry>, root: u32, path: Bytes, mode: u32)
    ensures path == [] ==> MknodOutcome(Since(log, log), root, path, mode, EINVAL)
    ensures path != [] && !SIsDir(mode) ==> MknodOutcome(Since(log, log), root, path, mode, ENOTSUP)
    ensures SIsDir(mode) && !EndsInName(path) ==> MknodOutcome(Since(log, log), root, path, mode, EINVAL)
  {}

  lemma MknodNotFound(
    log: seq<Entry>, a: seq<Entry>, root: u32, path: Bytes, mode: u32, fid: u32, name: Bytes, rc: int)
    requires EndsInName(path) && SIsDir(mode) && ParentWalkSent(log, a, root, fid, path, name, rc) && rc != 0
    ensures MknodOutcome(Since(log, a), root, path, mode, -rc)
  {
    hide Components, EntryRc, SIsDir;
  }

  lemma MknodSent(
    log: seq<Entry>, a: seq<Entry>, b: seq<Entry>, c: seq<Entry>, root: u32, path: Bytes, mode: u32,
    fid: u32, name: Bytes, rc: int)
    requires EndsInName(path) && SIsDir(mode) && ParentWalkSent(log, a, root, fid, path, name, 0)
    requires a < b < c && |b| == |a| + 1 && |c| == |b| + 1 && rc == EntryRc(b[|a|])
    requires var m := b[|a|].msg;
             m.Tmkdir? && m.fid == fid && m.name == name && m.mode == mode % 0x200 && m.gid == 0
    requires ClunkOf(c[|b|], fid)
    ensures MknodOutcome(Since(log, c), root, path, mode, -rc)
  {
    hide Components, EntryRc, ClunkOf, SIsDir;
    var sent := Since(log, c);
    assert sent == [a[|log|], b[|a|], c[|b|]];
  }

  lemma StatRead(e: Entry, rc: int, stat: Stat)
    requires e.outcome.Got? && rc == EntryRc(e)
    requires if rc == 0 then e.outcome.reply.Rgetattr? && stat == e.outcome.reply.stat else stat == Stat(0, 0)
    ensures stat == StatOf(e)
  {}

  lemma ProbeNotFound(log: seq<Entry>, a: seq<Entry>, root: u32, path: Bytes)
    requires log < a && |a| == |log| + 1 && FullWalk(a[|log|], root, path) && EntryRc(a[|log|]) != 0
    ensures ProbeTrace(Since(log, a), root, path, false)
  {
    hide Components, EntryRc;
  }

  lemma ProbeSent(
    log: seq<Entry>, a: seq<Entry>, b: seq<Entry>, c: seq<Entry>, root: u32, path: Bytes, isDir: bool)
    requires log < a < b < c && |a| == |log| + 1 && |b| == |a| + 1 && |c| == |b| + 1
    requires FullWalk(a[|log|], root, path) && EntryRc(a[|log|]) == 0
    requires b[|a|].msg.Tgetattr? && b[|a|].msg.fid == a[|log|].msg.newfid && ClunkOf(c[|b|], a[|log|].msg.newfid)
    requires isDir <==> EntryRc(b[|a|]) == 0 && IsDirectory(StatOf(b[|a|]).mode)
    ensures ProbeTrace(Since(log, c), root, path, isDir)
  {
    hide Components, EntryRc, ClunkOf, StatOf, IsDirectory;
    var sent := Since(log, c);
    assert sent == [a[|log|], b[|a|], c[|b|]];
  }

  lemma NoRename(log: seq<Entry>, root: u32, oldPath: Bytes, newPath: Bytes)
    ensures !EndsInName(oldPath) ==> RenameOutcome(Since(log, log), root, oldPath, newPath, EINVAL)
  {}

  lemma RenameNotFound(
    log: seq<Entry>, a: seq<Entry>, root: u32, oldPath: Bytes, newPath: Bytes, fid: u32, name: Bytes, rc: int)
    requires ParentWalkSent(log, a, root, fid, oldPath, name, rc) && EndsInName(oldPath) && rc != 0
    ensures RenameOutcome(Since(log, a), root, oldPath, newPath, -rc)
  {
    hide Components, EntryRc;
  }

  lemma RenameToNowhere(
    log: seq<Entry>, a: seq<Entry>, b: seq<Entry>, c: seq<Entry>, root: u32, oldPath: Bytes, newPath: Bytes,
    oldFid: u32, oldName: Bytes, newFid: u32, newName: Bytes, rc: int)
    requires ParentWalkSent(log, a, root, oldFid, oldPath, oldName, 0) && EndsInName(oldPath) && rc != 0
    requires if EndsInName(newPath) then ParentWalkSent(a, b, root, newFid, newPath, newName, rc)
             else a == b && rc == -EINVAL
    requires b < c && |c| == |b| + 1 && ClunkOf(c[|b|], oldFid)
    ensures RenameOutcome(Since(log, c), root, oldPath, newPath, -rc)
  {
    hide Components, EntryRc, ClunkOf;
    var sent := Since(log, c);
    if EndsInName(newPath) {
      assert sent == [a[|log|], b[|a|], c[|b|]];
    } else {
      assert sent == [a[|log|], c[|b|]];
    }
  }

  lemma RenameSent(
    log: seq<Entry>, a: seq<Entry>, b: seq<Entry>, c: seq<Entry>, d: seq<Entry>, e: seq<Entry>, root: u32,
    oldPath: Bytes, oldFid: u32, oldName: Bytes, newPath: Bytes, newFid: u32, newName: Bytes, rc: int)
    requires EndsInName(oldPath) && ParentWalkSent(log, a, root, oldFid, oldPath, oldName, 0)
    requires EndsInName(newPath) && ParentWalkSent(a, b, root, newFid, newPath, newName, 0)
    requires b < c < d < e && |c| == |b| + 1 && |d| == |c| + 1 && |e| == |d| + 1
    requires var m := c[|b|].msg;
             && m.Trenameat? && m.fid == oldFid && m.oldname == oldName
             && m.newfid == newFid && m.newname == newName
    requires rc == EntryRc(c[|b|]) && ClunkOf(d[|c|], oldFid) && ClunkOf(e[|d|], newFid)
    ensures RenameOutcome(Since(log, e), root, oldPath, newPath, -rc)
  {
    hide Components, EntryRc, ClunkOf;
    var sent := Since(log, e);
    assert sent == [a[|log|], b[|a|], c[|b|], d[|c|], e[|d|]];
  }

  lemma NoUnlink(log: seq<Entry>, root: u32, path: Bytes)
    ensures !EndsInName(path) ==> UnlinkOutcome(Since(log, log), root, path, EINVAL)
  {}

  lemma UnlinkNotFound(
    log: seq<Entry>, a: seq<Entry>, root: u32, path: Bytes, fid: u32, name: Bytes, rc: int)
    requires ParentWalkSent(log, a, root, fid, path, name, rc) && EndsInName(path) && rc != 0
    ensures UnlinkOutcome(Since(log, a), root, path, -rc)
  {
    hide Components, EntryRc;
  }

  lemma UnlinkSent(
    log: seq<Entry>, a: seq<Entry>, b: seq<Entry>, c: seq<Entry>, d: seq<Entry>, root: u32,
    path: Bytes, fid: u32, name: Bytes, isDir: bool, rc: int)
    requires EndsInName(path) && ParentWalkSent(log, a, root, fid, path, name, 0)
    requires a <= b < c < d && |c| == |b| + 1 && |d| == |c| + 1
    requires ProbeTrace(Since(a, b), root, path, isDir)
    requires var m := c[|b|].msg;
             && m.Tunlinkat? && m.fid == fid && m.name == name
             && m.flags == if isDir then LINUX_AT_REMOVEDIR else 0
    requires rc == EntryRc(c[|b|]) && ClunkOf(d[|c|], fid)
    ensures UnlinkOutcome(Since(log, d), root, path, -rc)
  {
    hide Components, EntryRc, ClunkOf;
    Probed(Since(a, b), root, path, isDir);
    hide ProbeTrace;
    var sent := Since(log, d);
    assert sent == [a[|log|]] + Since(a, b) + [c[|b|], d[|c|]];
    assert sent[1..|sent| - 2] == Since(a, b);
  }

  lemma Probed(sent: seq<Entry>, root: u32, path: Bytes, isDir: bool)
    ensures ProbeTrace(sent, root, path, isDir) ==> sent != []
  {}

  // ------------------------------------------------ whole runs

  datatype FsOp =
    | OpOpen(path: Bytes, wantCreate: bool, flags: u32, localOpen: int)
    | OpMknod(path: Bytes, mode: u32)
    | OpUnlink(path: Bytes)
    | OpRename(path: Bytes, newPath: Bytes)
    | OpClose(handle: nat)

  /** What the n-th operation sends and does to the table of open OCBs. */
  ghost predicate OpOutcome(
    op: FsOp, n: nat, sent: seq<Entry>, root: u32, before: map<nat, Ocb>, after: map<nat, Ocb>, rc: int) {
    match op
    case OpOpen(path, wantCreate, flags, localOpen) =>
      exists cut: nat, ocb: Ocb ::
        && OpenOutcome(sent, root, path, wantCreate, flags, localOpen, rc, cut, ocb)
        && after == if rc == EOK then before[n := ocb] else before
    case OpMknod(path, mode) =>
      MknodOutcome(sent, root, path, mode, rc) && after == before
    case OpUnlink(path) => UnlinkOutcome(sent, root, path, rc) && after == before
    case OpRename(path, newPath) => RenameOutcome(sent, root, path, newPath, rc) && after == before
    case OpClose(handle) =>
      && rc == EOK
      && if handle in before then |sent| == 1 && ClunkOf(sent[0], before[handle].fid) && after == before - {handle}
         else sent == [] && after == before
  }

  /** Operation n has the messages from marks[n] on, and turns tables[n] into the next table. */
  ghost predicate OpAt(
    ops: seq<FsOp>, log: seq<Entry>, root: u32, marks: seq<nat>, tables: seq<map<nat, Ocb>>, rcs: seq<int>, n: nat)
    requires n < |rcs| <= |ops| && |marks| == |tables| == |rcs| + 1
  {
    && marks[n] <= marks[n + 1] <= |log|
    && (Healthy(log[..marks[n + 1]]) ==>
          OpOutcome(ops[n], n, log[marks[n]..marks[n + 1]], root, tables[n], tables[n + 1], rcs[n]))
  }

  ghost predicate OpsOutcome(
    ops: seq<FsOp>, log: seq<Entry>, root: u32, marks: seq<nat>, tables: seq<map<nat, Ocb>>, rcs: seq<int>) {
    && |rcs| <= |ops| && |marks| == |tables| == |rcs| + 1 && marks[|rcs|] == |log| && tables[0] == map[]
    && forall n :: 0 <= n < |rcs| ==> OpAt(ops, log, root, marks, tables, rcs, n)
  }

  lemma OpsSnoc(
    ops: seq<FsOp>, log: seq<Entry>, root: u32, marks: seq<nat>, tables: seq<map<nat, Ocb>>, rcs: seq<int>,
    log': seq<Entry>, table: map<nat, Ocb>, rc: int)
    requires OpsOutcome(ops, log, root, marks, tables, rcs) && |rcs| < |ops| && log <= log'
    requires Healthy(log') ==> OpOutcome(ops[|rcs|], |rcs|, Since(log, log'), root, tables[|rcs|], table, rc)
    ensures OpsOutcome(ops, log', root, marks + [|log'|], tables + [table], rcs + [rc])
  {
    hide OpOutcome, Healthy;
    var marks', tables', rcs' := marks + [|log'|], tables + [table], rcs + [rc];
    forall n | 0 <= n < |rcs'| ensures OpAt(ops, log', root, marks', tables', rcs', n) {
      if n < |rcs| {
        assert OpAt(ops, log, root, marks, tables, rcs, n);
        assert log'[..marks[n + 1]] == log[..marks[n + 1]];
        assert log'[marks[n]..marks[n + 1]] == log[marks[n]..marks[n + 1]];
      } else {
        assert log'[..|log'|] == log' && log'[|log|..|log'|] == Since(log, log');
      }
    }
  }

  lemma HealthyPrefix(log: seq<Entry>, log': seq<Entry>)
    requires log <= log' && Healthy(log')
    ensures Healthy(log)
  {
    CleanPrefix(log', |log|);
    assert log'[..|log|] == log;
  }

  lemma NoOps(ops: seq<FsOp>, log: seq<Entry>, root: u32)
    ensures OpsOutcome(ops, log, root, [|log|], [map[]], [])
  {}

  /** Run one operation; closing a handle that is not in use does nothing. */
  method DoOp(fs: FileSystem, op: FsOp, n: nat) returns (rc: int)
    requires fs.Valid() && n !in fs.ocbs
    modifies fs, fs.session, fs.session.channel, fs.session.pool
    ensures fs.Valid() && old(fs.session.channel.log) <= fs.session.channel.log
    ensures fs.ocbs.Keys <= old(fs.ocbs.Keys) + {n}
    ensures Healthy(fs.session.channel.log) ==>
              && fs.session.rootFid == old(fs.session.rootFid)
              && OpOutcome(op, n, Since(old(fs.session.channel.log), fs.session.channel.log), old(fs.session.rootFid),
                           old(fs.ocbs), fs.ocbs, rc)
  {
    hide OpenOutcome, MknodOutcome, UnlinkOutcome, RenameOutcome, Healthy, Owned;
    match op {
      case OpOpen(path, wantCreate, flags, localOpen) =>
        ghost var cut, ocb;
        rc, cut, ocb := fs.ConnectOpen(path, wantCreate, flags, localOpen, n);
      case OpMknod(path, mode) =>
        rc := fs.ConnectMknod(path, mode);
      case OpUnlink(path) =>
        rc := fs.ConnectUnlink(path);
      case OpRename(path, newPath) =>
        rc := fs.ConnectRename(path, newPath);
      case OpClose(handle) =>
        rc := EOK;
        if handle in fs.ocbs {
          fs.IoCloseOcb(handle);
        }
    }
  }

  /** Main result: mount, then any operations, against any transport and server.  Each operation
      of a run without failures so far sends, returns and opens what its outcome says; and on
      every such run against a conforming server the client's pool is the server's fid table,
      and both are the root plus one fid of its own per open OCB, no new fid was in use, and the
      root was never clunked. */
  method Serve(answer: (nat, TMsg) -> Outcome, aname: Bytes, ops: seq<FsOp>)
    returns (mountRc: int, log: seq<Entry>, mounted: nat, inUse: set<u32>, root: u32,
      marks: seq<nat>, tables: seq<map<nat, Ocb>>, rcs: seq<int>)
    ensures forall i :: 0 <= i < |log| ==> log[i].outcome == answer(i, log[i].msg)
    ensures mounted <= |log| && exists cut :: InitRetries(log[..mounted], cut, 0, 0, aname, mountRc)
    ensures OpsOutcome(ops, log, root, marks, tables, rcs) && marks[0] == mounted
    ensures |rcs| == if mountRc == 0 then |ops| else 0
    ensures Clean(log) && |log| < NO_FID ==>
              && inUse == Table(log)
              && (if mountRc == 0 then Owned(inUse, root, tables[|ops|]) && Proper(log, root) else inUse == {})
  {
    hide Clean, Table, Proper, Owned, OpOutcome, OpsOutcome, InitRetries;
    var channel := new Channel(answer);
    var session := new Session(channel);
    mountRc := session.Mount(aname);
    log, inUse, root := channel.log, session.pool.inUse, session.rootFid;
    mounted, marks, tables, rcs := |log|, [|log|], [map[]], [];
    NoOps(ops, log, root);
    assert log[..mounted] == log;
    if mountRc != 0 {
      return;
    }
    var fs := new FileSystem(session);
    for n := 0 to |ops|
      invariant fs.Valid() && fs.session == session && session.channel == channel && channel.answer == answer
      invariant fresh(fs) && fresh(session) && fresh(channel) && fresh(session.pool)
      invariant forall h <- fs.ocbs :: h < n
      invariant |rcs| == n && OpsOutcome(ops, channel.log, root, marks, tables, rcs)
      invariant |tables| == n + 1 && tables[n] == fs.ocbs && |marks| == n + 1 && marks[0] == mounted
      invariant mounted <= |channel.log| && channel.log[..mounted] == log[..mounted]
      invariant Healthy(channel.log) ==> session.rootFid == root
    {
      ghost var before := channel.log;
      var rc := DoOp(fs, ops[n], n);
      if Healthy(channel.log) { HealthyPrefix(before, channel.log); }
      OpsSnoc(ops, before, root, marks, tables, rcs, channel.log, fs.ocbs, rc);
      marks, tables, rcs := marks + [|channel.log|], tables + [fs.ocbs], rcs + [rc];
    }
    log, inUse := channel.log, session.pool.inUse;
  }
}
