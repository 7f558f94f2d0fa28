/** 9P2000.L messages as values; `Wire` gives their bytes. */
module Messages {
  import opened Types

  datatype TMsg =
    | Tversion(msize: u32, version: Bytes)
    | Tattach(tag: u16, fid: u32, afid: u32, uname: Bytes, aname: Bytes, nUname: u32)
    | Twalk(tag: u16, fid: u32, newfid: u32, names: seq<Bytes>)
    | Tlopen(tag: u16, fid: u32, flags: u32)
    | Tlcreate(tag: u16, fid: u32, name: Bytes, flags: u32, mode: u32, gid: u32)
    | Tread(tag: u16, fid: u32, offset: u64, count: u32)
    | Twrite(tag: u16, fid: u32, offset: u64, data: Bytes)
    | Tclunk(tag: u16, fid: u32)
    | Tgetattr(tag: u16, fid: u32, mask: u64)
    | Treaddir(tag: u16, fid: u32, offset: u64, count: u32)
    | Tmkdir(tag: u16, fid: u32, name: Bytes, mode: u32, gid: u32)
    | Tunlinkat(tag: u16, fid: u32, name: Bytes, flags: u32)
    | Trenameat(tag: u16, fid: u32, oldname: Bytes, newfid: u32, newname: Bytes)

  /** The attributes the handlers use; a fresh one is all zeros. */
  datatype Stat = Stat(mode: u32, size: u64)

  /** Replies, with the fields the session or the handlers look at. */
  datatype RMsg =
    | Rlerror(ecode: u32)
    | Rversion(msize: u32, version: Bytes)
    | Rattach(qid: Qid)
    | Rwalk(qids: seq<Qid>)
    | Rlopen(qid: Qid, iounit: u32)
    | Rlcreate(qid: Qid, iounit: u32)
    | Rread(data: Bytes)
    | Rwrite(count: u32)
    | Rclunk
    | Rgetattr(stat: Stat)
    | Rreaddir(entries: seq<DirEntry>)
    | Rmkdir(qid: Qid)
    | Runlinkat
    | Rrenameat
    | Rother

  /** The reply type a server owes to a request, other than Rlerror. */
  predicate Answers(m: TMsg, r: RMsg) {
    match m
    case Tversion(_, _) => r.Rversion?
    case Tattach(_, _, _, _, _, _) => r.Rattach?
    case Twalk(_, _, _, _) => r.Rwalk?
    case Tlopen(_, _, _) => r.Rlopen?
    case Tlcreate(_, _, _, _, _, _) => r.Rlcreate?
    case Tread(_, _, _, _) => r.Rread?
    case Twrite(_, _, _, _) => r.Rwrite?
    case Tclunk(_, _) => r.Rclunk?
    case Tgetattr(_, _, _) => r.Rgetattr?
    case Treaddir(_, _, _, _) => r.Rreaddir?
    case Tmkdir(_, _, _, _, _) => r.Rmkdir?
    case Tunlinkat(_, _, _, _) => r.Runlinkat?
    case Trenameat(_, _, _, _, _) => r.Rrenameat?
  }

  /** What one Exchange gives the session: a transport error, or a reply. */
  type ErrorRc = rc: int | rc < 0 witness -1
  datatype Outcome = Failed(rc: ErrorRc) | Got(reply: RMsg)

  datatype Entry = Entry(msg: TMsg, outcome: Outcome)
}
