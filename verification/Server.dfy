/** The server's fid table, as version(5), attach(5), walk(5) and clunk(5) in section 5 of
    the Plan 9 manual define it, read off the messages exchanged. */
module Server {
  import opened Types
  import opened Messages

  /** The replies a conforming server may give in state `table`. */
  predicate Conforms(table: set<u32>, m: TMsg, r: RMsg) {
    r.Rlerror? ||
    (Answers(m, r) &&
     match m
     case Tversion(_, _) => true
     case Tattach(_, fid, _, _, _, _) => fid !in table
     case Twalk(_, fid, newfid, names) =>
       && fid in table && newfid !in table
       && |r.qids| <= |names| && (names != [] ==> r.qids != [])
     case Trenameat(_, fid, _, newfid, _) => fid in table && newfid in table
     case _ => m.fid in table)
  }

  /** Only an accepted attach or a complete walk adds a fid; version drops them all; clunk
      drops its fid even when it reports an error. */
  function Next(table: set<u32>, m: TMsg, o: Outcome): set<u32> {
    if o.Failed? then table
    else
      match m
      case Tversion(_, _) => if o.reply.Rversion? then {} else table
      case Tattach(_, fid, _, _, _, _) => if o.reply.Rattach? then table + {fid} else table
      case Twalk(_, _, newfid, names) =>
        if o.reply.Rwalk? && |o.reply.qids| == |names| then table + {newfid} else table
      case Tclunk(_, fid) => table - {fid}
      case _ => table
  }

  function Table(log: seq<Entry>): set<u32> {
    if log == [] then {}
    else var last := log[|log| - 1]; Next(Table(log[..|log| - 1]), last.msg, last.outcome)
  }

  /** Every exchange so far succeeded, with a conforming reply. */
  predicate Clean(log: seq<Entry>) {
    log == [] ||
    var pre, last := log[..|log| - 1], log[|log| - 1];
    Clean(pre) && last.outcome.Got? && Conforms(Table(pre), last.msg, last.outcome.reply)
  }

  /** No message of the log breaks a fid rule: a new fid is unused, a clunk is never of the root. */
  predicate Proper(log: seq<Entry>, root: u32) {
    log == [] ||
    var pre, last := log[..|log| - 1], log[|log| - 1];
    && Proper(pre, root)
    && (last.msg.Tattach? ==> last.msg.fid !in Table(pre) && last.msg.fid != NO_FID)
    && (last.msg.Twalk? ==> last.msg.newfid !in Table(pre) && last.msg.newfid != NO_FID)
    && (last.msg.Tclunk? ==> last.msg.fid in Table(pre) && last.msg.fid != root)
  }

  lemma LogSnoc(log: seq<Entry>, e: Entry, root: u32)
    ensures Table(log + [e]) == Next(Table(log), e.msg, e.outcome)
    ensures Clean(log + [e]) <==>
            Clean(log) && e.outcome.Got? && Conforms(Table(log), e.msg, e.outcome.reply)
    ensures Proper(log + [e], root) <==>
            && Proper(log, root)
            && (e.msg.Tattach? ==> e.msg.fid !in Table(log) && e.msg.fid != NO_FID)
            && (e.msg.Twalk? ==> e.msg.newfid !in Table(log) && e.msg.newfid != NO_FID)
            && (e.msg.Tclunk? ==> e.msg.fid in Table(log) && e.msg.fid != root)
  {
    assert (log + [e])[..|log|] == log;
  }

  /** The rules of the manual, message by message. */
  lemma TableRules(
    table: set<u32>, tag: u16, fid: u32, newfid: u32, names: seq<Bytes>, qids: seq<Qid>, e: u32,
    afid: u32, uname: Bytes, aname: Bytes, nUname: u32, qid: Qid, msize: u32, version: Bytes)
    ensures Next(table, Twalk(tag, fid, newfid, names), Got(Rwalk(qids))) ==
            if |qids| == |names| then table + {newfid} else table
    ensures Next(table, Twalk(tag, fid, newfid, names), Got(Rlerror(e))) == table
    ensures Next(table, Tclunk(tag, fid), Got(Rclunk)) == table - {fid}
    ensures Next(table, Tclunk(tag, fid), Got(Rlerror(e))) == table - {fid}
    ensures Next(table, Tattach(tag, fid, afid, uname, aname, nUname), Got(Rattach(qid))) == table + {fid}
    ensures Next(table, Tattach(tag, fid, afid, uname, aname, nUname), Got(Rlerror(e))) == table
    ensures Next(table, Tversion(msize, version), Got(Rversion(msize, version))) == {}
    ensures Next(table, Tversion(msize, version), Got(Rlerror(e))) == table
  {}

  /** Nothing else changes the table. */
  lemma TableStays(table: set<u32>, m: TMsg, o: Outcome)
    ensures o.Failed? || !(m.Tversion? || m.Tattach? || m.Twalk? || m.Tclunk?) ==> Next(table, m, o) == table
  {}

  /** What a conforming server may answer: an error always, the reply type owed to the request
      when its fids are as they should be, and nothing else. */
  lemma ReplyRules(table: set<u32>, m: TMsg, r: RMsg)
    ensures r.Rlerror? ==> Conforms(table, m, r)
    ensures m.Tversion? && r.Rversion? ==> Conforms(table, m, r)
    ensures m.Tattach? && r.Rattach? ==> (Conforms(table, m, r) <==> m.fid !in table)
    ensures m.Twalk? && r.Rwalk? ==>
              (Conforms(table, m, r) <==>
               m.fid in table && m.newfid !in table &&
               if m.names == [] then r.qids == [] else 1 <= |r.qids| <= |m.names|)
    ensures m.Trenameat? && r.Rrenameat? ==> (Conforms(table, m, r) <==> m.fid in table && m.newfid in table)
    ensures (m.Tclunk? && r.Rclunk?) || (m.Tlopen? && r.Rlopen?) || (m.Tgetattr? && r.Rgetattr?) ||
            (m.Tlcreate? && r.Rlcreate?) || (m.Tmkdir? && r.Rmkdir?) || (m.Tunlinkat? && r.Runlinkat?) ||
            (m.Tread? && r.Rread?) || (m.Twrite? && r.Rwrite?) || (m.Treaddir? && r.Rreaddir?) ==>
              (Conforms(table, m, r) <==> m.fid in table)
    ensures !r.Rlerror? && !Answers(m, r) ==> !Conforms(table, m, r)
  {}

  /** Message i was answered as a conforming server may. */
  ghost predicate ConformsAt(log: seq<Entry>, i: nat)
    requires i < |log|
  {
    log[i].outcome.Got? && Conforms(Table(log[..i]), log[i].msg, log[i].outcome.reply)
  }

  /** A clean log has conforming replies only. */
  lemma {:induction false} CleanMeans(log: seq<Entry>)
    ensures Clean(log) <==> forall i :: 0 <= i < |log| ==> ConformsAt(log, i)
    decreases |log|
  {
    if log != [] {
      var pre, n := log[..|log| - 1], |log| - 1;
      CleanMeans(pre);
      assert Clean(log) <==> Clean(pre) && ConformsAt(log, n);
      hide *;
      forall i | 0 <= i < n ensures ConformsAt(pre, i) <==> ConformsAt(log, i) { SameBefore(log, n, i, 0); }
    }
  }

  /** What message i does, seen from before it: a new fid is unused, a clunk is not of the root. */
  ghost predicate ProperAt(log: seq<Entry>, i: nat, root: u32)
    requires i < |log|
  {
    match log[i].msg
    case Tattach(_, fid, _, _, _, _) => fid !in Table(log[..i]) && fid != 0xFFFF_FFFF
    case Twalk(_, _, newfid, _) => newfid !in Table(log[..i]) && newfid != 0xFFFF_FFFF
    case Tclunk(_, fid) => fid in Table(log[..i]) && fid != root
    case _ => true
  }

  /** In a proper log every message is like that. */
  lemma {:induction false} ProperMeans(log: seq<Entry>, root: u32)
    ensures Proper(log, root) <==> forall i :: 0 <= i < |log| ==> ProperAt(log, i, root)
    decreases |log|
  {
    if log != [] {
      var pre, n := log[..|log| - 1], |log| - 1;
      ProperMeans(pre, root);
      assert Proper(log, root) <==> Proper(pre, root) && ProperAt(log, n, root);
      hide *;
      forall i | 0 <= i < n ensures ProperAt(pre, i, root) <==> ProperAt(log, i, root) { SameBefore(log, n, i, root); }
    }
  }

  lemma SameBefore(log: seq<Entry>, n: nat, i: nat, root: u32)
    requires i < n <= |log|
    ensures ConformsAt(log[..n], i) <==> ConformsAt(log, i)
    ensures ProperAt(log[..n], i, root) <==> ProperAt(log, i, root)
  {
    hide Conforms, Table;
    assert log[..n][..i] == log[..i];
  }

  lemma {:induction false} CleanPrefix(log: seq<Entry>, n: nat)
    requires n <= |log| && Clean(log)
    ensures Clean(log[..n])
    ensures forall i :: n <= i < |log| ==> log[i].outcome.Got?
    decreases |log|
  {
    if n < |log| {
      CleanPrefix(log[..|log| - 1], n);
      assert log[..|log| - 1][..n] == log[..n];
      assert forall i :: n <= i < |log| - 1 ==> log[i] == log[..|log| - 1][i];
    } else {
      assert log[..n] == log;
    }
  }
}
