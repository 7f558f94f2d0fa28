/**
  The 9P session: the retry loop that recurses through re-initialisation, and the
  operations on top of it.  Every exchange is recorded in the log of a `Channel`, whose
  outcomes are arbitrary; the properties are statements about that log.
 */
module Sessions {
  import opened Types
  import opened Messages
  import opened Server
  import opened FidPools
  import opened Paths

  const MAX_RETRIES: nat := 3

  /** The transport and the server behind it, seen from the session. */
  class Channel {
    const answer: (nat, TMsg) -> Outcome
    var log: seq<Entry>

    constructor (answer: (nat, TMsg) -> Outcome)
      ensures this.answer == answer && log == [] && Truthful()
    {
      this.answer := answer;
      log := [];
    }

    /** The log is what the transport and the server answered. */
    ghost predicate Truthful()
      reads this
    {
      forall i :: 0 <= i < |log| ==> log[i].outcome == answer(i, log[i].msg)
    }

    method Exchange(m: TMsg) returns (o: Outcome)
      requires Truthful()
      modifies this
      ensures Truthful()
      ensures log == old(log) + [Entry(m, o)] && o == answer(|old(log)|, m)
    {
      o := answer(|log|, m);
      log := log + [Entry(m, o)];
    }
  }

  // ------------------------------------------------ the shape of a retried request

  function AsInt32(x: u32): int {
    if x < 0x8000_0000 then x else x - 0x1_0000_0000
  }

  function VersionRequest(): TMsg {
    Tversion(MAX_MESSAGE_SIZE, PROTOCOL_VERSION)
  }

  function AttachRequest(tag: u16, fid: u32, aname: Bytes): TMsg {
    Tattach(tag, fid, NO_FID, [], aname, 0)
  }

  predicate VersionAccepted(o: Outcome) {
    o.Got? && o.reply.Rversion? && o.reply.version == PROTOCOL_VERSION
  }

  predicate AttachAccepted(o: Outcome) {
    o.Got? && o.reply.Rattach?
  }

  /** The i-th message of a top-level Transact: the request, and between two sends of it a
      version and an attach. */
  function Turn(i: nat, request: TMsg, aname: Bytes): TMsg {
    if i % 3 == 0 then request else if i % 3 == 1 then VersionRequest() else AttachRequest(0, 0, aname)
  }

  /** The outcome after which another message follows. */
  predicate Continues(i: nat, o: Outcome) {
    if i % 3 == 0 then o.Failed? else if i % 3 == 1 then VersionAccepted(o) else AttachAccepted(o)
  }

  ghost predicate RetryTrace(sent: seq<Entry>, request: TMsg, aname: Bytes) {
    && 1 <= |sent| <= 3 * MAX_RETRIES
    && (forall i :: 0 <= i < |sent| ==> sent[i].msg == Turn(i, request, aname))
    && (forall i :: 0 <= i < |sent| - 1 ==> Continues(i, sent[i].outcome))
    && (|sent| < 3 * MAX_RETRIES ==> !Continues(|sent| - 1, sent[|sent| - 1].outcome))
  }

  /** The messages of an Initialize that does not retry, and when it succeeds. */
  ghost predicate InitTrace(sent: seq<Entry>, tag: u16, fid: u32, aname: Bytes, rc: int) {
    && 1 <= |sent| <= 2 && sent[0].msg == VersionRequest()
    && (|sent| == 2 <==> VersionAccepted(sent[0].outcome))
    && (|sent| == 2 ==> sent[1].msg == AttachRequest(tag, fid, aname))
    && (rc == 0 <==> |sent| == 2 && AttachAccepted(sent[1].outcome))
  }

  /** A top-level Initialize whatever fails: the retry trace of a version up to `cut`, and, if
      that was accepted, the retry trace of an attach, and its code.  The attach takes the tag
      and fid that are next, which are 1 if the version had to be retried: the attach of the
      recovery has taken 0. */
  ghost predicate InitRetries(sent: seq<Entry>, cut: nat, tag: u16, fid: u32, aname: Bytes, rc: int) {
    && 0 < cut <= |sent| && RetryTrace(sent[..cut], VersionRequest(), aname)
    && var versionRc, version := TraceRc(sent[..cut]), sent[cut - 1].outcome;
    if versionRc != 0 then cut == |sent| && rc == versionRc
    else if !VersionAccepted(version) then
      cut == |sent| && rc == if version.Got? && version.reply.Rversion? then -ENOTSUP else -EIO
    else
      && cut < |sent| && RetryTrace(sent[cut..], sent[cut].msg, aname)
      && sent[cut].msg == AttachRequest(if cut == 1 then tag else 1, if cut == 1 then fid else 1, aname)
      && rc == AttachRc(sent[cut..])
  }

  function AttachRc(sent: seq<Entry>): int
    requires |sent| > 0
  {
    if TraceRc(sent) != 0 then TraceRc(sent) else if AttachAccepted(sent[|sent| - 1].outcome) then 0 else -EIO
  }

  function ReplyRc(r: RMsg): int {
    if r.Rlerror? then -AsInt32(r.ecode) else 0
  }

  /** The return code of an operation with this reply: the error reply's, or that of the type
      check of its Parse function. */
  function CallRc(m: TMsg, r: RMsg): int {
    if ReplyRc(r) == 0 && !Answers(m, r) then -EIO else ReplyRc(r)
  }

  lemma CallRcZero(m: TMsg, r: RMsg)
    ensures CallRc(m, r) == 0 <==> Answers(m, r)
  {}

  /** The return code of the operation that sent e; a walk must be complete. */
  function EntryRc(e: Entry): int {
    match e.outcome
    case Failed(rc) => rc
    case Got(r) =>
      if e.msg.Twalk? && r.Rwalk? && |r.qids| != |e.msg.names| then -ENOENT else CallRc(e.msg, r)
  }

  /** The return code a trace stands for: the last reply's, or the transport error of the
      send that could not be recovered, or -EIO when all attempts are used up. */
  function TraceRc(sent: seq<Entry>): int
    requires |sent| > 0
  {
    var last := |sent| - 1;
    if last % 3 == 0 then
      match sent[last].outcome
      case Got(r) => ReplyRc(r)
      case Failed(rc) => rc
    else if |sent| == 3 * MAX_RETRIES && AttachAccepted(sent[last].outcome) then -EIO
    else
      match sent[last - last % 3].outcome
      case Got(_) => 0
      case Failed(rc) => rc
  }

  /** The messages of a top-level request, in numbers and bytes: version asks for 128 KiB and
      "9P2000.L", attach gives tag 0, fid 0, no afid, an empty user name and the tree's name. */
  lemma RetryMessages(sent: seq<Entry>, request: TMsg, aname: Bytes, i: nat)
    requires RetryTrace(sent, request, aname) && i < |sent|
    ensures |sent| <= 9
    ensures i == 0 || i == 3 || i == 6 ==> sent[i].msg == request
    ensures i == 1 || i == 4 || i == 7 ==> sent[i].msg == Tversion(131072, [57, 80, 50, 48, 48, 48, 46, 76])
    ensures i == 2 || i == 5 || i == 8 ==> sent[i].msg == Tattach(0, 0, 0xFFFF_FFFF, [], aname, 0)
  {
    assert sent[i].msg == Turn(i, request, aname);
  }

  /** And when another one follows: a failed send, an accepted version, an accepted attach. */
  lemma RetryContinuesIff(sent: seq<Entry>, request: TMsg, aname: Bytes, i: nat)
    requires RetryTrace(sent, request, aname) && i < |sent| && i < 8
    ensures i + 1 < |sent| <==>
            var o := sent[i].outcome;
            if i == 0 || i == 3 || i == 6 then o.Failed?
            else if i == 2 || i == 5 then o.Got? && o.reply.Rattach?
            else o.Got? && o.reply.Rversion? && o.reply.version == [57, 80, 50, 48, 48, 48, 46, 76]
  {
    assert i < |sent| - 1 ==> Continues(i, sent[i].outcome);
  }

  /** The messages of an Initialize that does not retry, likewise, with its own tag and fid. */
  lemma InitMessages(sent: seq<Entry>, tag: u16, fid: u32, aname: Bytes, rc: int)
    requires InitTrace(sent, tag, fid, aname, rc)
    ensures |sent| == 1 || |sent| == 2
    ensures sent[0].msg == Tversion(131072, [57, 80, 50, 48, 48, 48, 46, 76])
    ensures |sent| == 2 ==> sent[1].msg == Tattach(tag, fid, 0xFFFF_FFFF, [], aname, 0)
    ensures rc == 0 <==> |sent| == 2 && sent[1].outcome.Got? && sent[1].outcome.reply.Rattach?
  {}

  /** What an error reply means, as a signed number. */
  function Errno(e: u32): int {
    if e < 2147483648 then 0 - e else 4294967296 - e
  }

  /** The return code of a request by how its trace ends (5 is EIO). */
  lemma TraceCodes(sent: seq<Entry>, request: TMsg, aname: Bytes)
    requires RetryTrace(sent, request, aname)
    ensures var n, o := |sent|, sent[|sent| - 1].outcome;
            if n == 1 || n == 4 || n == 7 then
              o.Got? && TraceRc(sent) == if o.reply.Rlerror? then Errno(o.reply.ecode) else 0
            else if n == 2 || n == 5 || n == 8 then
              sent[n - 2].outcome.Failed? && TraceRc(sent) == sent[n - 2].outcome.rc
            else
              && (n == 3 || n == 6 || n == 9) && sent[n - 3].outcome.Failed?
              && TraceRc(sent) == if o.Got? && o.reply.Rattach? then -5 else sent[n - 3].outcome.rc
  {
    var last := |sent| - 1;
    assert last % 3 >= 1 ==> Continues(last - last % 3, sent[last - last % 3].outcome);
    assert last < 8 ==> !Continues(last, sent[last].outcome);
  }

  /** The attach of an Initialize on a new session, and the code of one that was answered: the
      server's errno, ENOTSUP (48) for another version, EIO (5) for another reply. */
  lemma InitCodes(sent: seq<Entry>, cut: nat, aname: Bytes, rc: int)
    requires InitRetries(sent, cut, 0, 0, aname, rc)
    ensures 0 < cut <= |sent|
    ensures cut < |sent| ==>
              var number := if cut == 1 then 0 else 1;
              && sent[cut].msg == Tattach(number, number, 0xFFFF_FFFF, [], aname, 0)
              && VersionAccepted(sent[cut - 1].outcome)
    ensures var n, o := if cut < |sent| then |sent| - cut else cut, sent[|sent| - 1].outcome;
            n % 3 == 1 && o.Got? ==>
              rc == if o.reply.Rlerror? && o.reply.ecode != 0 then Errno(o.reply.ecode)
                    else if cut < |sent| then if o.reply.Rattach? then 0 else -5
                    else if o.reply.Rversion? then -48 else -5
  {
    TraceCodes(sent[..cut], VersionRequest(), aname);
    if cut < |sent| { TraceCodes(sent[cut..], sent[cut].msg, aname); }
  }

  lemma RefusedCode(sent: seq<Entry>, request: TMsg, aname: Bytes)
    requires RetryTrace(sent, request, aname)
    ensures |sent| > 0
    ensures var o := sent[|sent| - 1].outcome;
            |sent| % 3 == 1 && o.Got? && o.reply.Rlerror? ==> TraceRc(sent) == Errno(o.reply.ecode)
  {
    TraceCodes(sent, request, aname);
  }

  /** The return code of an operation by its reply: the server's errno, EIO (5) for a reply of
      another type or an error without a code, ENOENT (2) for a walk that stopped early. */
  lemma CallCodes(m: TMsg, r: RMsg)
    ensures r.Rlerror? && r.ecode != 0 ==>
              CallRc(m, r) == EntryRc(Entry(m, Got(r))) == TraceRc([Entry(m, Got(r))]) == Errno(r.ecode)
    ensures (r.Rlerror? && r.ecode == 0) || (!r.Rlerror? && !Answers(m, r)) ==>
              CallRc(m, r) == EntryRc(Entry(m, Got(r))) == -5 || (m.Twalk? && r.Rwalk?)
    ensures Answers(m, r) ==>
              && CallRc(m, r) == 0
              && EntryRc(Entry(m, Got(r))) == if m.Twalk? && |r.qids| != |m.names| then -2 else 0
  {}

  ghost predicate AllGot(sent: seq<Entry>) {
    forall i :: 0 <= i < |sent| ==> sent[i].outcome.Got?
  }

  /** n sends of the request that failed, each recovered by a version and an attach. */
  ghost predicate FailedRounds(sent: seq<Entry>, n: nat, request: TMsg, aname: Bytes) {
    && |sent| == 3 * n
    && forall i :: 0 <= i < |sent| ==> sent[i].msg == Turn(i, request, aname) && Continues(i, sent[i].outcome)
  }

  lemma AnsweredSend(sent: seq<Entry>, n: nat, request: TMsg, aname: Bytes, o: Outcome)
    requires FailedRounds(sent, n, request, aname) && n < MAX_RETRIES && o.Got?
    ensures RetryTrace(sent + [Entry(request, o)], request, aname)
    ensures TraceRc(sent + [Entry(request, o)]) == ReplyRc(o.reply)
  {
    var all := sent + [Entry(request, o)];
    assert forall i :: 0 <= i < |all| - 1 ==> all[i] == sent[i];
  }

  lemma AbandonedSend(
    sent: seq<Entry>, n: nat, request: TMsg, aname: Bytes, o: Outcome, reinit: seq<Entry>, rc: int)
    requires FailedRounds(sent, n, request, aname) && n < MAX_RETRIES && o.Failed?
    requires InitTrace(reinit, 0, 0, aname, rc) && rc != 0
    ensures var all := sent + [Entry(request, o)] + reinit;
            RetryTrace(all, request, aname) && TraceRc(all) == o.rc
  {
    var all := sent + [Entry(request, o)] + reinit;
    forall i | 0 <= i < |all|
      ensures all[i].msg == Turn(i, request, aname) && (i < |all| - 1 ==> Continues(i, all[i].outcome))
    {
      if i < 3 * n {
        assert all[i] == sent[i];
      } else if i == 3 * n {
        assert all[i] == Entry(request, o);
      } else {
        assert all[i] == reinit[i - 3 * n - 1];
      }
    }
  }

  lemma RecoveredSend(
    sent: seq<Entry>, n: nat, request: TMsg, aname: Bytes, o: Outcome, reinit: seq<Entry>)
    requires FailedRounds(sent, n, request, aname) && o.Failed?
    requires InitTrace(reinit, 0, 0, aname, 0)
    ensures FailedRounds(sent + [Entry(request, o)] + reinit, n + 1, request, aname)
  {
    var all := sent + [Entry(request, o)] + reinit;
    forall i | 0 <= i < |all|
      ensures all[i].msg == Turn(i, request, aname) && Continues(i, all[i].outcome)
    {
      if i < 3 * n {
        assert all[i] == sent[i];
      } else if i == 3 * n {
        assert all[i] == Entry(request, o);
      } else {
        assert all[i] == reinit[i - 3 * n - 1];
      }
    }
  }

  lemma ExhaustedSends(sent: seq<Entry>, request: TMsg, aname: Bytes)
    requires FailedRounds(sent, MAX_RETRIES, request, aname)
    ensures RetryTrace(sent, request, aname) && TraceRc(sent) == -EIO
  {
    assert Continues(8, sent[8].outcome);
  }

  // ------------------------------------------------ fids, on runs without failures

  /** Every exchange succeeded with a conforming reply, and no fid number was reused. */
  ghost predicate Healthy(log: seq<Entry>) {
    Clean(log) && |log| < NO_FID
  }

  /** The client's pool is the server's table, and no fid rule was broken to get there. */
  ghost predicate Agree(log: seq<Entry>, inUse: set<u32>, allocations: nat, root: u32) {
    && (Clean(log) ==> allocations <= |log|)
    && (Healthy(log) ==> inUse == Table(log) && Proper(log, root))
  }

  /** One request on a clean run: sent once, answered by `reply`. */
  ghost predicate CleanCall(before: seq<Entry>, after: seq<Entry>, m: TMsg, reply: RMsg, rc: int) {
    && Clean(before) && after == before + [Entry(m, Got(reply))]
    && Conforms(Table(before), m, reply)
    && rc == CallRc(m, reply)
  }

  lemma CleanTransact(before: seq<Entry>, sent: seq<Entry>, m: TMsg, aname: Bytes) returns (reply: RMsg)
    requires RetryTrace(sent, m, aname) && Clean(before + sent)
    ensures Clean(before) && sent == [Entry(m, Got(reply))] && Conforms(Table(before), m, reply)
    ensures TraceRc(sent) == ReplyRc(reply)
  {
    var log := before + sent;
    CleanPrefix(log, |before|);
    assert log[..|before|] == before && log[|before|] == sent[0];
    assert sent[0].msg == Turn(0, m, aname) && |sent| == 1;
    reply := sent[0].outcome.reply;
    assert sent == [Entry(m, Got(reply))];
    LogSnoc(before, sent[0], 0);
  }

  function LastReply(log: seq<Entry>): RMsg {
    if log != [] && log[|log| - 1].outcome.Got? then log[|log| - 1].outcome.reply else Rother
  }

  /** One walk from the root was sent, and its reply gave the code. */
  ghost predicate WalkSent(before: seq<Entry>, after: seq<Entry>, root: u32, fid: u32, names: seq<Bytes>, rc: int) {
    && before < after && |after| == |before| + 1
    && var e := after[|before|];
    && e.msg.Twalk? && e.msg.fid == root && e.msg.newfid == fid && e.msg.names == names
    && e.outcome.Got? && rc == EntryRc(e)
  }

  /** One walk to the parent of `path` was sent; `name` is the last component. */
  ghost predicate ParentWalkSent(
    before: seq<Entry>, after: seq<Entry>, root: u32, fid: u32, path: Bytes, name: Bytes, rc: int) {
    var names := Components(path);
    && names != [] && name == names[|names| - 1]
    && WalkSent(before, after, root, fid, names[..|names| - 1], rc)
  }

  class Session {
    const channel: Channel
    const pool: FidPool
    var rootFid: u32
    var messageSize: u32
    var aname: Bytes
    var reinitializing: bool
    var nextTag: u16

    constructor (channel: Channel)
      requires channel.Truthful()
      ensures this.channel == channel && fresh(pool) && Valid() && pool.inUse == {} && pool.allocations == 0
      ensures rootFid == 0 && nextTag == 0 && !reinitializing && aname == []
    {
      this.channel := channel;
      pool := new FidPool();
      rootFid, messageSize, aname, reinitializing, nextTag := 0, MAX_MESSAGE_SIZE, [], false, 0;
    }

    ghost predicate Valid()
      reads this, channel, pool
    {
      pool.Valid() && channel.Truthful() && messageSize <= MAX_MESSAGE_SIZE
    }

    method NextTag() returns (tag: u16)
      modifies this`nextTag
      ensures tag == old(nextTag) && nextTag == (old(nextTag) + 1) % 0x1_0000
    {
      tag := nextTag;
      nextTag := (nextTag + 1) % 0x1_0000;
    }

    /** Send a request, recovering the session after a transport failure; `sent` is what
        this call put on the channel. */
    method Transact(request: TMsg) returns (rc: int, response: RMsg, ghost sent: seq<Entry>)
      requires Valid()
      modifies this, channel, pool
      ensures Valid() && reinitializing == old(reinitializing) && aname == old(aname)
      ensures channel.log == old(channel.log) + sent && |sent| > 0 && rc == TraceRc(sent)
      ensures !reinitializing ==> RetryTrace(sent, request, aname)
      ensures reinitializing || sent[0].outcome.Got? ==>
                |sent| == 1 && sent[0].msg == request && unchanged(this) && unchanged(pool)
      ensures rc == 0 ==> sent[|sent| - 1].outcome == Got(response)
      ensures rc == 0 && |sent| > 1 ==> nextTag == 1 && pool.nextFid == 1
      ensures rc == 0 && old(rootFid in pool.inUse) ==> rootFid in pool.inUse
      decreases if reinitializing then 0 else 1, 1
    {
      hide RetryTrace, TraceRc, FailedRounds, InitTrace, Turn, Continues, Channel.Truthful;
      response, sent := Rother, [];
      assert FailedRounds(sent, 0, request, aname) by { NoRounds(request, aname); }
      for attempt := 0 to MAX_RETRIES
        invariant Valid() && reinitializing == old(reinitializing) && aname == old(aname)
        invariant channel.log == old(channel.log) + sent
        invariant attempt == 0 ==> sent == [] && unchanged(this) && unchanged(pool)
        invariant attempt > 0 ==> !reinitializing && sent != [] && sent[0].outcome.Failed? && rootFid in pool.inUse
        invariant attempt > 0 ==> nextTag == 1 && pool.nextFid == 1
        invariant FailedRounds(sent, attempt, request, aname)
      {
        ghost var before := sent;
        var o := channel.Exchange(request);
        sent := sent + [Entry(request, o)];
        if o.Failed? {
          if reinitializing {
            SingleSend(sent, request, o);
            return o.rc, response, sent;
          }
          ghost var reinit;
          var reinitRc;
          reinitRc, reinit := Reinitialize();
          sent := sent + reinit;
          if reinitRc != 0 {
            AbandonedSend(before, attempt, request, aname, o, reinit, reinitRc);
            return o.rc, response, sent;
          }
          RecoveredSend(before, attempt, request, aname, o, reinit);
          continue;
        }
        AnsweredSend(before, attempt, request, aname, o);
        response := o.reply;
        if response.Rlerror? {
          return -AsInt32(response.ecode), response, sent;
        }
        return 0, response, sent;
      }
      ExhaustedSends(sent, request, aname);
      return -EIO, response, sent;
    }

    method Reinitialize() returns (rc: int, ghost sent: seq<Entry>)
      requires Valid() && !reinitializing
      modifies this, channel, pool
      ensures Valid() && !reinitializing && aname == old(aname)
      ensures channel.log == old(channel.log) + sent && InitTrace(sent, 0, 0, aname, rc)
      ensures rc == 0 ==> rootFid in pool.inUse && nextTag == 1 && pool.nextFid == 1
      decreases if reinitializing then 0 else 1, 0
    {
      pool.Reset();
      nextTag := 0;
      reinitializing := true;
      rc, sent := Initialize(aname);
      reinitializing := false;
    }

    method Initialize(name: Bytes) returns (rc: int, ghost sent: seq<Entry>)
      requires Valid()
      modifies this, channel, pool
      ensures Valid() && reinitializing == old(reinitializing) && aname == name
      ensures channel.log == old(channel.log) + sent && |sent| <= 6 * MAX_RETRIES
      ensures reinitializing || AllGot(sent) ==>
                && InitTrace(sent, old(nextTag), old(pool.nextFid), name, rc)
                && pool.allocations <= old(pool.allocations) + |sent| - 1
                && (rc == 0 ==> rootFid == old(pool.nextFid) && pool.inUse == old(pool.inUse) + {rootFid})
                && (rc != 0 && old(pool.allocations) < 0x1_0000_0000 ==> pool.inUse == old(pool.inUse))
      ensures rc == 0 ==> rootFid in pool.inUse
      ensures !reinitializing ==>
                exists cut :: InitRetries(sent, cut, old(nextTag), old(pool.nextFid), name, rc)
      ensures reinitializing && rc == 0 ==>
                nextTag == (old(nextTag) + 1) % 0x1_0000 && pool.allocations == old(pool.allocations) + 1
      ensures (reinitializing || AllGot(sent)) && rc == 0 ==>
                messageSize == Min(sent[0].outcome.reply.msize, MAX_MESSAGE_SIZE)
      decreases if reinitializing then 0 else 1, 3
    {
      hide Turn, Continues, InitTrace, InitRetries, TraceRc, RetryTrace, AllGot, AttachAccepted, Channel.Truthful;
      hide AttachRc, AttachRequest, ReplyRc, EntryRc, CallRc;
      aname := name;
      var rversion;
      rc, rversion, sent := Transact(VersionRequest());
      AllGotHead(sent);
      TraceLength(sent, VersionRequest(), name);
      SingleReply(sent, rc);
      if rc != 0 || !rversion.Rversion? || rversion.version != PROTOCOL_VERSION {
        rc := if rc != 0 then rc else if !rversion.Rversion? then -EIO else -ENOTSUP;
        VersionOnly(sent, old(nextTag), old(pool.nextFid), name, rc);
        if !reinitializing { VersionRetries(sent, old(nextTag), old(pool.nextFid), name, rc); }
        return;
      }
      messageSize := if rversion.msize < MAX_MESSAGE_SIZE then rversion.msize else MAX_MESSAGE_SIZE;

      ghost var version, attach := sent, [];
      ghost var tag, fid := nextTag, pool.nextFid;
      rc, attach := Attach();
      sent := version + attach;
      if !reinitializing { AttachRetries(version, attach, old(nextTag), old(pool.nextFid), tag, fid, name, rc); }
      AllGotSplit(version, attach);
      if reinitializing || AllGot(sent) {
        VersionAttach(version, attach, old(nextTag), old(pool.nextFid), name, rc);
      }
    }

    /** Initialize, second step: attach a new root fid. */
    method Attach() returns (rc: int, ghost sent: seq<Entry>)
      requires Valid()
      modifies this, channel, pool
      ensures Valid() && reinitializing == old(reinitializing) && aname == old(aname)
      ensures channel.log == old(channel.log) + sent && 1 <= |sent| <= 3 * MAX_RETRIES
      ensures reinitializing || AllGot(sent) ==>
                && |sent| == 1 && sent[0].msg == AttachRequest(old(nextTag), old(pool.nextFid), aname)
                && messageSize == old(messageSize)
                && (rc == 0 <==> AttachAccepted(sent[0].outcome))
                && pool.allocations == old(pool.allocations) + 1
                && (rc == 0 ==> rootFid == old(pool.nextFid) && pool.inUse == old(pool.inUse) + {rootFid})
                && (rc != 0 && old(pool.allocations) < 0x1_0000_0000 ==> pool.inUse == old(pool.inUse))
      ensures rc == 0 ==> rootFid in pool.inUse
      ensures reinitializing && rc == 0 ==>
                nextTag == (old(nextTag) + 1) % 0x1_0000 && pool.allocations == old(pool.allocations) + 1
      ensures !reinitializing ==>
                && sent[0].msg == AttachRequest(old(nextTag), old(pool.nextFid), aname)
                && RetryTrace(sent, sent[0].msg, aname) && rc == AttachRc(sent)
      decreases if reinitializing then 0 else 1, 2
    {
      hide Turn, Continues, InitTrace, TraceRc, RetryTrace, AllGot, Channel.Truthful;
      rootFid := pool.Allocate();
      var tag := NextTag();
      ghost var fid := rootFid;
      var rattach;
      rc, rattach, sent := Transact(AttachRequest(tag, rootFid, aname));
      AllGotHead(sent);
      TraceLength(sent, AttachRequest(tag, fid, aname), aname);
      SingleReply(sent, rc);
      if rc != 0 {
        pool.Release(rootFid);
        return;
      }
      if !rattach.Rattach? {
        pool.Release(rootFid);
        return -EIO, sent;
      }
    }

    // The operations.

    ghost predicate InSync()
      reads this, channel, pool
    {
      && Valid() && !reinitializing
      && Agree(channel.log, pool.inUse, pool.allocations, rootFid)
    }

    /** In step with the server and attached. */
    ghost predicate Ready()
      reads this, channel, pool
    {
      InSync() && (Healthy(channel.log) ==> rootFid in pool.inUse)
    }

    /** One request, its error reply, and the type check of its Parse function. */
    method Call(m: TMsg) returns (rc: int, response: RMsg, ghost reply: RMsg)
      requires Valid() && !reinitializing
      modifies this, channel, pool
      ensures Valid() && !reinitializing && old(channel.log) < channel.log
      ensures Clean(channel.log) ==>
                && CleanCall(old(channel.log), channel.log, m, reply, rc)
                && unchanged(pool) && rootFid == old(rootFid)
      ensures rc == 0 ==> Answers(m, response)
      ensures Clean(channel.log) && rc == 0 ==> response == reply
    {
      hide RetryTrace, TraceRc, Clean, Table, Conforms, Channel.Truthful;
      ghost var sent;
      rc, response, sent := Transact(m);
      reply := response;
      if Clean(channel.log) {
        reply := CleanTransact(old(channel.log), sent, m, aname);
        CallRcZero(m, reply);
      }
      if rc == 0 && !Answers(m, response) {
        rc := -EIO;
      }
    }

    method Walk(path: Bytes) returns (rc: int, outFid: u32)
      requires Ready()
      modifies this, channel, pool
      ensures Ready() && old(channel.log) < channel.log
      ensures Healthy(channel.log) ==> Healthy(old(channel.log)) && rootFid == old(rootFid)
      ensures Healthy(channel.log) ==> outFid !in old(pool.inUse)
      ensures Healthy(channel.log) ==> pool.inUse == if rc == 0 then old(pool.inUse) + {outFid} else old(pool.inUse)
      ensures Clean(channel.log) ==> WalkSent(old(channel.log), channel.log, old(rootFid), outFid, Components(path), rc)
    {
      hide Clean, Table, Conforms, Proper, Components, Channel.Truthful;
      var names := SplitPath(path);
      outFid := pool.Allocate();
      var tag := NextTag();
      ghost var m, reply := Twalk(tag, rootFid, outFid, names), Rother;
      var rwalk;
      rc, rwalk, reply := Call(Twalk(tag, rootFid, outFid, names));
      if Healthy(channel.log) {
        WalkFids(old(channel.log), rootFid, m, reply);
      }
      if rc != 0 {
        pool.Release(outFid);
        return;
      }
      if |rwalk.qids| != |names| {
        pool.Release(outFid);
        return -ENOENT, outFid;
      }
    }

    method WalkParent(path: Bytes) returns (rc: int, outFid: u32, basename: Bytes)
      requires Ready()
      modifies this, channel, pool
      ensures Ready() && old(channel.log) <= channel.log
      ensures Healthy(channel.log) ==> Healthy(old(channel.log)) && rootFid == old(rootFid)
      ensures Healthy(channel.log) ==> outFid !in old(pool.inUse) || rc != 0
      ensures Healthy(channel.log) ==> pool.inUse == if rc == 0 then old(pool.inUse) + {outFid} else old(pool.inUse)
      ensures rc == 0 ==> basename != [] && SLASH !in basename
      ensures !EndsInName(path) ==> rc == -EINVAL && channel.log == old(channel.log)
      ensures EndsInName(path) && Clean(channel.log) ==>
                ParentWalkSent(old(channel.log), channel.log, old(rootFid), outFid, path, basename, rc)
    {
      hide Clean, Table, Conforms, Proper, Components, Channel.Truthful, Agree, Healthy, Join;
      var parent;
      parent, basename := SplitParent(path);
      LastByte(path, parent, basename);
      if basename == [] {
        return -EINVAL, 0, basename;
      }
      ParentAndBasename(path, parent, basename);
      assert (Components(parent) + [basename])[..|Components(parent)|] == Components(parent);
      rc, outFid := Walk(parent);
    }

    method Clunk(fid: u32) returns (rc: int)
      requires Ready()
      requires Healthy(channel.log) ==> fid in pool.inUse && fid != rootFid
      modifies this, channel, pool
      ensures Ready() && old(channel.log) < channel.log
      ensures Healthy(channel.log) ==> Healthy(old(channel.log)) && rootFid == old(rootFid)
      ensures Healthy(channel.log) ==> pool.inUse == old(pool.inUse) - {fid}
      ensures SentOnce(Tclunk(old(nextTag), fid), rc)
    {
      hide Clean, Table, Conforms, Proper, Channel.Truthful;
      var tag := NextTag();
      ghost var reply;
      var rclunk;
      rc, rclunk, reply := Call(Tclunk(tag, fid));
      if Healthy(channel.log) {
        ClunkFids(old(channel.log), rootFid, Tclunk(tag, fid), reply);
      }
      pool.Release(fid);
    }

    /** The fids are as before the call. */
    twostate predicate FidsKept()
      reads this, channel, pool
    {
      Healthy(channel.log) ==>
        Healthy(old(channel.log)) && rootFid == old(rootFid) && pool.inUse == old(pool.inUse)
    }

    /** The log grew; on a clean run by m alone, sent once, and its reply gave the code. */
    twostate predicate SentOnce(m: TMsg, rc: int)
      reads this, channel
    {
      && old(channel.log) < channel.log
      && (Clean(channel.log) ==>
            && channel.log == old(channel.log) + [Entry(m, Got(LastReply(channel.log)))]
            && rc == CallRc(m, LastReply(channel.log)))
    }

    /** A request that leaves the fids alone. */
    method Perform(m: TMsg) returns (rc: int, response: RMsg)
      requires Ready() && LeavesFids(m)
      modifies this, channel, pool
      ensures Ready() && FidsKept() && SentOnce(m, rc)
      ensures rc == 0 ==> Answers(m, response)
      ensures Clean(channel.log) && rc == 0 ==> response == LastReply(channel.log)
    {
      hide Clean, Table, Conforms, Proper, Channel.Truthful;
      ghost var reply;
      rc, response, reply := Call(m);
      if Healthy(channel.log) {
        OtherFids(old(channel.log), rootFid, m, reply);
      }
    }

    method Open(fid: u32, flags: u32) returns (rc: int, iounit: u32)
      requires Ready()
      modifies this, channel, pool
      ensures Ready() && FidsKept() && SentOnce(Tlopen(old(nextTag), fid, flags), rc)
      ensures Clean(channel.log) && rc == 0 ==> LastReply(channel.log).iounit == iounit
    {
      hide Clean, Agree, Healthy, Channel.Truthful;
      var tag := NextTag();
      var response;
      rc, response := Perform(Tlopen(tag, fid, flags));
      iounit := if rc == 0 then response.iounit else 0;
    }

    method Create(parentFid: u32, name: Bytes, flags: u32, mode: u32, gid: u32) returns (rc: int, iounit: u32)
      requires Ready()
      modifies this, channel, pool
      ensures Ready() && FidsKept() && SentOnce(Tlcreate(old(nextTag), parentFid, name, flags, mode, gid), rc)
      ensures Clean(channel.log) && rc == 0 ==> LastReply(channel.log).iounit == iounit
    {
      hide Clean, Agree, Healthy, Channel.Truthful;
      var tag := NextTag();
      var response;
      rc, response := Perform(Tlcreate(tag, parentFid, name, flags, mode, gid));
      iounit := if rc == 0 then response.iounit else 0;
    }

    method GetAttr(fid: u32) returns (rc: int, stat: Stat)
      requires Ready()
      modifies this, channel, pool
      ensures Ready() && FidsKept() && SentOnce(Tgetattr(old(nextTag), fid, 0x7ff), rc)
      ensures Clean(channel.log) && rc == 0 ==> LastReply(channel.log).stat == stat
      ensures rc != 0 ==> stat == Stat(0, 0)
    {
      hide Clean, Agree, Healthy, Channel.Truthful;
      var tag := NextTag();
      var response;
      rc, response := Perform(Tgetattr(tag, fid, 0x7ff));
      stat := if rc == 0 then response.stat else Stat(0, 0);
    }

    method ReadDir(fid: u32, offset: u64, count: u32) returns (rc: int, entries: seq<DirEntry>)
      requires Ready()
      modifies this, channel, pool
      ensures Ready() && FidsKept() && SentOnce(Treaddir(old(nextTag), fid, offset, count), rc)
      ensures Clean(channel.log) && rc == 0 ==> LastReply(channel.log).entries == entries
    {
      hide Clean, Agree, Healthy, Channel.Truthful;
      var tag := NextTag();
      var response;
      rc, response := Perform(Treaddir(tag, fid, offset, count));
      entries := if rc == 0 then response.entries else [];
    }

    method Mkdir(parentFid: u32, name: Bytes, mode: u32, gid: u32) returns (rc: int)
      requires Ready()
      modifies this, channel, pool
      ensures Ready() && FidsKept() && SentOnce(Tmkdir(old(nextTag), parentFid, name, mode, gid), rc)
    {
      hide Clean, Agree, Healthy, Channel.Truthful;
      var tag := NextTag();
      var response;
      rc, response := Perform(Tmkdir(tag, parentFid, name, mode, gid));
    }

    method Unlink(dirFid: u32, name: Bytes, flags: u32) returns (rc: int)
      requires Ready()
      modifies this, channel, pool
      ensures Ready() && FidsKept() && SentOnce(Tunlinkat(old(nextTag), dirFid, name, flags), rc)
    {
      hide Clean, Agree, Healthy, Channel.Truthful;
      var tag := NextTag();
      var response;
      rc, response := Perform(Tunlinkat(tag, dirFid, name, flags));
    }

    method Rename(oldDirFid: u32, oldName: Bytes, newDirFid: u32, newName: Bytes) returns (rc: int)
      requires Ready()
      modifies this, channel, pool
      ensures Ready() && FidsKept() && SentOnce(Trenameat(old(nextTag), oldDirFid, oldName, newDirFid, newName), rc)
    {
      hide Clean, Agree, Healthy, Channel.Truthful;
      var tag := NextTag();
      var response;
      rc, response := Perform(Trenameat(tag, oldDirFid, oldName, newDirFid, newName));
    }

    /** Initialize on a new session: in step with the server from the first message. */
    method Mount(name: Bytes) returns (rc: int)
      requires Valid() && !reinitializing && channel.log == []
      requires pool.inUse == {} && pool.allocations == 0
      modifies this, channel, pool
      ensures Valid() && (rc == 0 ==> Ready())
      ensures exists cut :: InitRetries(channel.log, cut, old(nextTag), 0, name, rc)
      ensures rc == 0 && Healthy(channel.log) ==> pool.inUse == {rootFid} == Table(channel.log)
      ensures rc != 0 && Healthy(channel.log) ==> pool.inUse == {} == Table(channel.log)
    {
      hide Clean, Table, Proper, InitTrace, InitRetries, Channel.Truthful;
      ghost var sent;
      rc, sent := Initialize(name);
      assert channel.log == sent;
      if rc != 0 && Healthy(channel.log) {
        CleanPrefix(sent, 0);
        FailedInitLeavesNothing(sent, old(nextTag), old(pool.nextFid), name, rc);
      }
      if rc == 0 && Healthy(channel.log) {
        CleanPrefix(sent, 0);
        InitAgrees(sent, old(nextTag), rootFid, name);
      }
      if rc == 0 && Clean(channel.log) {
        CleanPrefix(sent, 0);
      }
    }
  }

  lemma InitAgrees(sent: seq<Entry>, tag: u16, fid: u32, aname: Bytes)
    requires InitTrace(sent, tag, fid, aname, 0) && fid != NO_FID
    ensures Table(sent) == {fid} && Proper(sent, fid)
  {
    var version, attach := sent[0], sent[1];
    assert sent == [] + [version] + [attach];
    LogSnoc([], version, fid);
    LogSnoc([] + [version], attach, fid);
  }

  lemma FailedInitLeavesNothing(sent: seq<Entry>, tag: u16, fid: u32, aname: Bytes, rc: int)
    requires InitTrace(sent, tag, fid, aname, rc) && rc != 0 && AllGot(sent)
    ensures Table(sent) == {}
  {
    LogSnoc([], sent[0], fid);
    assert [] + [sent[0]] == [sent[0]];
    if |sent| == 2 {
      LogSnoc([sent[0]], sent[1], fid);
      assert sent == [sent[0]] + [sent[1]];
    } else {
      assert sent == [sent[0]];
    }
  }

  /** A trace is all there is to a run: two runs of the same request against the same
      transport and server are the same run. */
  lemma TraceIsUnique(
    s: seq<Entry>, t: seq<Entry>, request: TMsg, aname: Bytes, start: nat, answer: (nat, TMsg) -> Outcome)
    requires RetryTrace(s, request, aname) && RetryTrace(t, request, aname)
    requires forall i :: 0 <= i < |s| ==> s[i].outcome == answer(start + i, s[i].msg)
    requires forall i :: 0 <= i < |t| ==> t[i].outcome == answer(start + i, t[i].msg)
    ensures s == t
  {
    var n := if |s| <= |t| then |s| else |t|;
    forall i | 0 <= i < n ensures s[i] == t[i] {
      assert s[i].msg == Turn(i, request, aname) == t[i].msg;
    }
    assert s[n - 1] == t[n - 1];
    SameEnd(s, t, request, aname);
    SameEnd(t, s, request, aname);
  }

  lemma SameEnd(s: seq<Entry>, t: seq<Entry>, request: TMsg, aname: Bytes)
    requires RetryTrace(s, request, aname) && RetryTrace(t, request, aname)
    requires |s| <= |t| ==> s[|s| - 1] == t[|s| - 1]
    ensures |s| >= |t|
  {}

  /** A run that does not end on an answered send fails. */
  lemma UnansweredFails(sent: seq<Entry>, request: TMsg, aname: Bytes)
    requires RetryTrace(sent, request, aname)
    ensures |sent| % 3 != 1 ==> TraceRc(sent) < 0
  {
    var last := |sent| - 1;
    if last % 3 != 0 {
      assert Continues(last - last % 3, sent[last - last % 3].outcome);
    }
  }

  /** Main result: for every pattern of transport failures and replies a top-level request
      ends after at most nine exchanges, with the retry trace and the return code that trace
      stands for; a zero return hands back the reply to the last send. */
  method TransactOnce(answer: (nat, TMsg) -> Outcome, name: Bytes, request: TMsg)
    returns (rc: int, response: RMsg, log: seq<Entry>)
    ensures RetryTrace(log, request, name) && rc == TraceRc(log)
    ensures forall i :: 0 <= i < |log| ==> log[i].outcome == answer(i, log[i].msg)
    ensures rc == 0 ==> |log| % 3 == 1 && log[|log| - 1].outcome == Got(response)
    ensures |log| % 3 == 1 && log[|log| - 1].outcome.Got? && log[|log| - 1].outcome.reply.Rlerror? ==>
              rc == Errno(log[|log| - 1].outcome.reply.ecode)
  {
    var channel := new Channel(answer);
    var session := new Session(channel);
    session.aname := name;
    ghost var sent;
    hide RetryTrace, TraceRc, Errno;
    rc, response, sent := session.Transact(request);
    log := channel.log;
    assert log == sent;
    UnansweredFails(sent, request, name);
    RefusedCode(sent, request, name);
  }

  predicate LeavesFids(m: TMsg) {
    !m.Tversion? && !m.Tattach? && !m.Twalk? && !m.Tclunk?
  }

  lemma WalkFids(log: seq<Entry>, root: u32, m: TMsg, reply: RMsg)
    requires m.Twalk? && m.newfid !in Table(log) && m.newfid != NO_FID && Proper(log, root)
    ensures var after := log + [Entry(m, Got(reply))];
            && Proper(after, root)
            && Table(after) ==
               if Answers(m, reply) && |reply.qids| == |m.names| then Table(log) + {m.newfid} else Table(log)
  {
    LogSnoc(log, Entry(m, Got(reply)), root);
  }

  lemma ClunkFids(log: seq<Entry>, root: u32, m: TMsg, reply: RMsg)
    requires m.Tclunk? && m.fid in Table(log) && m.fid != root && Proper(log, root)
    ensures var after := log + [Entry(m, Got(reply))];
            Proper(after, root) && Table(after) == Table(log) - {m.fid}
  {
    LogSnoc(log, Entry(m, Got(reply)), root);
  }

  lemma OtherFids(log: seq<Entry>, root: u32, m: TMsg, reply: RMsg)
    requires LeavesFids(m) && Proper(log, root)
    ensures var after := log + [Entry(m, Got(reply))];
            Proper(after, root) && Table(after) == Table(log)
  {
    LogSnoc(log, Entry(m, Got(reply)), root);
  }

  lemma AllGotHead(sent: seq<Entry>)
    ensures AllGot(sent) && sent != [] ==> sent[0].outcome.Got?
  {}

  lemma AllGotSplit(a: seq<Entry>, b: seq<Entry>)
    ensures AllGot(a + b) ==> AllGot(a) && AllGot(b)
  {
    if AllGot(a + b) {
      assert forall i :: 0 <= i < |a| ==> (a + b)[i] == a[i];
      assert forall i :: 0 <= i < |b| ==> (a + b)[|a| + i] == b[i];
    }
  }

  lemma TraceLength(sent: seq<Entry>, request: TMsg, aname: Bytes)
    ensures RetryTrace(sent, request, aname) ==> |sent| <= 3 * MAX_RETRIES && sent[0].msg == request
  {
    assert RetryTrace(sent, request, aname) ==> sent[0].msg == Turn(0, request, aname);
  }

  lemma SingleReply(sent: seq<Entry>, rc: int)
    requires |sent| > 0 && rc == TraceRc(sent)
    ensures |sent| == 1 && rc != 0 ==> !VersionAccepted(sent[0].outcome) && !AttachAccepted(sent[0].outcome)
  {}

  lemma VersionRetries(sent: seq<Entry>, tag: u16, fid: u32, aname: Bytes, rc: int)
    requires RetryTrace(sent, VersionRequest(), aname) && rc != 0
    requires var o := sent[|sent| - 1].outcome;
             if TraceRc(sent) != 0 then rc == TraceRc(sent)
             else !VersionAccepted(o) && rc == if o.Got? && o.reply.Rversion? then -ENOTSUP else -EIO
    ensures InitRetries(sent, |sent|, tag, fid, aname, rc)
  {
    assert sent[..|sent|] == sent;
  }

  lemma AttachRetries(
    version: seq<Entry>, attach: seq<Entry>, tag: u16, fid: u32, tag': u16, fid': u32, aname: Bytes, rc: int)
    requires version != [] && RetryTrace(version, VersionRequest(), aname) && TraceRc(version) == 0
    requires VersionAccepted(version[|version| - 1].outcome)
    requires |version| == 1 ==> tag' == tag && fid' == fid
    requires |version| > 1 ==> tag' == 1 && fid' == 1
    requires attach != [] && attach[0].msg == AttachRequest(tag', fid', aname)
    requires RetryTrace(attach, attach[0].msg, aname) && rc == AttachRc(attach)
    ensures InitRetries(version + attach, |version|, tag, fid, aname, rc)
  {
    hide RetryTrace, TraceRc, AttachRc;
    var sent := version + attach;
    assert sent[..|version|] == version && sent[|version|..] == attach;
    TraceLength(version, VersionRequest(), aname);
    assert sent[|version|] == attach[0] && sent[|sent| - 1] == attach[|attach| - 1];
    assert sent[|version| - 1] == version[|version| - 1];
  }

  lemma VersionOnly(sent: seq<Entry>, tag: u16, fid: u32, aname: Bytes, rc: int)
    requires |sent| == 1 ==> sent[0].msg == VersionRequest() && !VersionAccepted(sent[0].outcome)
    requires rc != 0
    ensures |sent| == 1 ==> InitTrace(sent, tag, fid, aname, rc)
  {}

  lemma VersionAttach(version: seq<Entry>, attach: seq<Entry>, tag: u16, fid: u32, aname: Bytes, rc: int)
    requires |version| == |attach| == 1 ==>
               && version[0].msg == VersionRequest() && VersionAccepted(version[0].outcome)
               && attach[0].msg == AttachRequest(tag, fid, aname)
               && (rc == 0 <==> AttachAccepted(attach[0].outcome))
    ensures |version| == |attach| == 1 ==> InitTrace(version + attach, tag, fid, aname, rc)
  {}

  lemma NoRounds(request: TMsg, aname: Bytes)
    ensures FailedRounds([], 0, request, aname)
  {}

  lemma SingleSend(sent: seq<Entry>, request: TMsg, o: Outcome)
    requires sent == [Entry(request, o)] && o.Failed?
    ensures TraceRc(sent) == o.rc
  {}
}
