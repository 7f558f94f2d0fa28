/**
  `Exchange` and `ResetDevice` of the two transports over a real virtqueue, DMA bounce
  buffers and a device; what is proved is that all of it is one synchronous call.
 */
module Transports {
  import opened Types
  import opened Alignment
  import opened RingSpec
  import opened Virtqueues

  const DEFAULT_QUEUE_SIZE: nat := 128

  /** GetBuf calls after one pulse: one, and the spin. */
  const POLLS_PER_PULSE: nat := 101

  datatype Bus = Pci | Mmio

  /** The first step of device setup that fails, in the order the code takes them. */
  datatype Stage =
    | Negotiate | QueueAlloc | ReqMap | ReqTranslate | RespMap | RespTranslate | Channel | Connect | Interrupt | Done

  /** One run of device setup: the device's queue limit and the addresses the fresh
      bounce buffers get. */
  datatype Setup = Setup(stage: Stage, maxSize: nat, reqPhys: u64, respPhys: u64, errno: nat)

  /** What happens while the driver waits: the device takes the request, writes its reply and
      completes the chain, each before the poll of that number if not earlier; an attached
      driver receives `pulses` pulses before a receive fails with `errno`. */
  datatype Act = Act(reply: Bytes, takeAt: nat, writeAt: nat, publishAt: nat, pulses: nat, errno: nat)

  datatype Request =
    | Call(request: Bytes, act: Act, setup: Setup)  // Exchange; `setup` is the reset it makes if the wait fails
    | Reset(setup: Setup)                           // ResetDevice called on its own

  datatype Reply = Reply(rc: int, response: Bytes, seen: Option<Bytes>)

  // ------------------------------------------------ the synchronous call

  /** The driver's view: unusable, or usable with a queue of q descriptors, a response
      buffer at bufPhys, the address respPhys it tells the device, and pulses or not. */
  datatype Link = Down(respPhys: u64) | Up(q: nat, bufPhys: u64, respPhys: u64, attached: bool)

  /** Two live buffers have different addresses; queue limits are powers of two. */
  predicate SetupOk(s: Setup) {
    (s.maxSize == 0 || PowerOfTwo(s.maxSize)) && s.errno > 0 && s.reqPhys != s.respPhys
  }

  predicate RequestOk(r: Request) {
    && SetupOk(r.setup)
    && (r.Call? ==> |r.request| <= MAX_MESSAGE_SIZE && |r.act.reply| <= MAX_MESSAGE_SIZE && r.act.errno > 0)
  }

  /** The response buffer's address was translated. */
  predicate Translated(s: Setup) {
    s.maxSize > 0 && (s.stage.Channel? || s.stage.Connect? || s.stage.Interrupt? || s.stage.Done?)
  }

  /** The response buffer was mapped: the null guard of Exchange passes. */
  predicate Mapped(s: Setup) {
    Translated(s) || (s.maxSize > 0 && s.stage.RespTranslate?)
  }

  function AfterReset(link: Link, s: Setup): Link {
    var respPhys := if Translated(s) then s.respPhys else link.respPhys;
    if Mapped(s) then Up(Min(s.maxSize, DEFAULT_QUEUE_SIZE), s.respPhys, respPhys, s.stage.Done?)
    else Down(respPhys)
  }

  function ResetRc(s: Setup): int {
    if s.stage.Done? && s.maxSize > 0 then 0 else -(s.errno as int)
  }

  /** Initialize unmaps everything again when a step fails. */
  function Boot(s: Setup): Link {
    var link := AfterReset(Down(0), s);
    if ResetRc(s) == 0 then link else Down(link.respPhys)
  }

  function Max(a: nat, b: nat): nat {
    if a < b then b else a
  }

  /** The number of the first poll that finds the completion. */
  function Due(act: Act): nat {
    Max(act.takeAt, Max(act.writeAt, act.publishAt))
  }

  /** How often the wait looks at the used ring before it gives up.  PCI looks before the first
      receive and after a failed one; MMIO only after a pulse, and after one pulse only. */
  function Polls(bus: Bus, attached: bool, act: Act): nat {
    if bus.Pci? then 2 + POLLS_PER_PULSE * (if attached then act.pulses else 0)
    else if attached && act.pulses > 0 then POLLS_PER_PULSE
    else 0
  }

  function WaitRc(bus: Bus, attached: bool, act: Act): int {
    if bus.Mmio? && attached && act.pulses > 0 then -EIO else -(act.errno as int)
  }

  /** Exchange as a synchronous call: no rings, no descriptors, no history but `Link`. */
  function SyncCall(bus: Bus, link: Link, r: Request): (Link, Reply) {
    match r
    case Reset(s) => (AfterReset(link, s), Reply(ResetRc(s), [], None))
    case Call(request, act, s) =>
      if link.Down? then (link, Reply(-EINVAL, [], None))
      else if link.q < 2 then (link, Reply(-ENOSPC, [], None))
      else if Due(act) < Polls(bus, link.attached, act) then
        (link, Reply(0, if link.bufPhys == link.respPhys then act.reply else Zeros(|act.reply|), Some(request)))
      else (AfterReset(link, s), Reply(WaitRc(bus, link.attached, act), [], None))
  }

  /** When one exchange on a transport that is set up succeeds, and with which codes it fails
      (22 is EINVAL, 28 ENOSPC, 5 EIO).  MMIO looks at the ring 101 times after the first pulse,
      and not without one; PCI looks once, 101 times after every pulse and once more. */
  lemma ExchangeCodes(link: Link, request: Bytes, act: Act, s: Setup)
    requires link.Up? && link.q >= 2 && link.bufPhys == link.respPhys
    ensures var (after, reply) := SyncCall(Mmio, link, Call(request, act, s));
            if link.attached && act.pulses >= 1 && act.takeAt <= 100 && act.writeAt <= 100 && act.publishAt <= 100 then
              after == link && reply == Reply(0, act.reply, Some(request))
            else
              && after == AfterReset(link, s)
              && reply == Reply(if link.attached && act.pulses >= 1 then -5 else -(act.errno as int), [], None)
    ensures var (after, reply) := SyncCall(Pci, link, Call(request, act, s));
            var last: nat := if link.attached then 1 + 101 * act.pulses else 1;
            if act.takeAt <= last && act.writeAt <= last && act.publishAt <= last then
              after == link && reply == Reply(0, act.reply, Some(request))
            else after == AfterReset(link, s) && reply == Reply(-(act.errno as int), [], None)
  {}

  lemma GuardCodes(bus: Bus, link: Link, request: Bytes, act: Act, s: Setup)
    ensures var reply := SyncCall(bus, link, Call(request, act, s)).1;
            && (link.Down? ==> reply == Reply(-22, [], None))
            && (link.Up? && link.q < 2 ==> reply == Reply(-28, [], None))
  {}

  /** What a reset leaves, by the step that fails: the null guard passes from a mapped response
      buffer on, the address is new from its translation on, pulses come only after all steps;
      the queue has the device's limit, but at most 128 descriptors. */
  lemma ResetLeaves(link: Link, s: Setup)
    requires s.maxSize > 0
    ensures var q: nat := if s.maxSize < 128 then s.maxSize else 128;
            match s.stage
            case Negotiate => AfterReset(link, s) == Down(link.respPhys)
            case QueueAlloc => AfterReset(link, s) == Down(link.respPhys)
            case ReqMap => AfterReset(link, s) == Down(link.respPhys)
            case ReqTranslate => AfterReset(link, s) == Down(link.respPhys)
            case RespMap => AfterReset(link, s) == Down(link.respPhys)
            case RespTranslate => AfterReset(link, s) == Up(q, s.respPhys, link.respPhys, false)
            case Channel => AfterReset(link, s) == Up(q, s.respPhys, s.respPhys, false)
            case Connect => AfterReset(link, s) == Up(q, s.respPhys, s.respPhys, false)
            case Interrupt => AfterReset(link, s) == Up(q, s.respPhys, s.respPhys, false)
            case Done => AfterReset(link, s) == Up(q, s.respPhys, s.respPhys, true) && ResetRc(s) == 0
    ensures !s.stage.Done? ==> ResetRc(s) == -(s.errno as int)
  {}

  /** A device without a queue stops a reset at once; and a first setup leaves a usable link
      exactly if all steps succeed. */
  lemma SetupLeaves(link: Link, s: Setup)
    ensures s.maxSize == 0 ==> AfterReset(link, s) == Down(link.respPhys) && ResetRc(s) == -(s.errno as int)
    ensures s.maxSize > 0 && s.stage.Done? ==>
              Boot(s) == Up(if s.maxSize < 128 then s.maxSize else 128, s.respPhys, s.respPhys, true)
    ensures s.errno > 0 && !(s.maxSize > 0 && s.stage.Done?) ==> Boot(s).Down?
  {}

  function SyncRun(bus: Bus, link: Link, calls: seq<Request>): (Link, seq<Reply>) {
    if calls == [] then (link, [])
    else
      var (before, replies) := SyncRun(bus, link, calls[..|calls| - 1]);
      var (after, reply) := SyncCall(bus, before, calls[|calls| - 1]);
      (after, replies + [reply])
  }

  lemma SyncRunEmpty(bus: Bus, link: Link)
    ensures SyncRun(bus, link, []) == (link, [])
  {}

  lemma SyncRunSnoc(bus: Bus, link: Link, calls: seq<Request>, r: Request)
    ensures var (before, replies) := SyncRun(bus, link, calls);
            var (after, reply) := SyncCall(bus, before, r);
            SyncRun(bus, link, calls + [r]) == (after, replies + [reply])
  {
    assert (calls + [r])[..|calls|] == calls;
  }

  /** What a caller whose request was answered may expect. */
  function Delivered(r: Request): Reply
    requires r.Call?
  {
    Reply(0, r.act.reply, Some(r.request))
  }

  /** Every caller whose request is answered in time gets the device's own bytes. */
  ghost predicate AlwaysDelivers(bus: Bus, link: Link) {
    forall request: Bytes, act: Act, s: Setup :: Due(act) < Polls(bus, AttachedTo(link), act) ==>
      SyncCall(bus, link, Call(request, act, s)).1 == Delivered(Call(request, act, s))
  }

  predicate AttachedTo(link: Link) {
    link.Up? && link.attached
  }

  lemma DeliversIff(bus: Bus, link: Link)
    requires link.Up? && link.q >= 2 && (bus.Mmio? ==> link.attached)
    ensures AlwaysDelivers(bus, link) <==> link.bufPhys == link.respPhys
  {
    if link.bufPhys != link.respPhys {
      var act, s := Act([1], 0, 0, 0, 1, 1), Setup(Done, 0, 0, 0, 0);
      assert Due(act) < Polls(bus, AttachedTo(link), act);
      assert SyncCall(bus, link, Call([], act, s)).1.response == Zeros(1);
      assert Zeros(1)[0] != [1][0];
    }
  }

  // ------------------------------------------------ whole histories

  /** The reset that r makes in the state `link`, if it makes one. */
  function ResetOf(bus: Bus, link: Link, r: Request): seq<Setup> {
    if r.Reset? then [r.setup]
    else if link.Up? && link.q >= 2 && Due(r.act) >= Polls(bus, link.attached, r.act) then [r.setup]
    else []
  }

  /** All setups made so far, the initial one first. */
  function Setups(bus: Bus, s: Setup, calls: seq<Request>): (made: seq<Setup>)
    ensures made != []
  {
    if calls == [] then [s]
    else
      var pre := calls[..|calls| - 1];
      Setups(bus, s, pre) + ResetOf(bus, SyncRun(bus, Boot(s), pre).0, calls[|calls| - 1])
  }

  /** The address the last setup that translated one left behind. */
  function Announced(made: seq<Setup>): u64 {
    if made == [] then 0
    else
      var last := made[|made| - 1];
      if Translated(last) then last.respPhys else Announced(made[..|made| - 1])
  }

  /** The last setup did not stop between mapping the response buffer and translating its
      address, or the new buffer got the old address. */
  predicate Honest(made: seq<Setup>)
    requires made != []
  {
    var last := made[|made| - 1];
    last.stage.RespTranslate? ==> last.respPhys == Announced(made[..|made| - 1])
  }

  /** The link as a function of the setups made: nothing else of the history matters. */
  ghost predicate LinkOf(link: Link, made: seq<Setup>)
    requires made != []
  {
    var last := made[|made| - 1];
    && link.respPhys == Announced(made)
    && (link.Up? ==> Mapped(last) && link.bufPhys == last.respPhys && (link.attached <==> last.stage.Done?))
    && (|made| > 1 || ResetRc(last) == 0 ==> (link.Up? <==> Mapped(last)))
  }

  lemma LinkAfterReset(link: Link, made: seq<Setup>, s: Setup)
    requires made != [] && link.respPhys == Announced(made)
    ensures LinkOf(AfterReset(link, s), made + [s])
  {
    assert (made + [s])[..|made|] == made;
  }

  lemma LinkAtBoot(s: Setup)
    ensures LinkOf(Boot(s), [s])
  {
    var made := [s];
    assert made[|made| - 1] == s && made[..|made| - 1] == [];
  }

  lemma {:induction false} LinkHistory(bus: Bus, s: Setup, calls: seq<Request>)
    ensures LinkOf(SyncRun(bus, Boot(s), calls).0, Setups(bus, s, calls))
    decreases |calls|
  {
    if calls == [] {
      LinkAtBoot(s);
    } else {
      var pre, r := calls[..|calls| - 1], calls[|calls| - 1];
      LinkHistory(bus, s, pre);
      var link, made := SyncRun(bus, Boot(s), pre).0, Setups(bus, s, pre);
      LinkAfterReset(link, made, r.setup);
      assert made + [] == made;
      hide SyncRun, Announced, AfterReset;
    }
  }

  /** Main result, the exact condition over histories: after any history of exchanges,
      timeouts and resets, complete or failing part-way, a usable link gives the device its
      own response buffer, and so hands over every answer, exactly when the history is honest. */
  lemma HonestIff(bus: Bus, s: Setup, calls: seq<Request>)
    ensures var link := SyncRun(bus, Boot(s), calls).0;
            link.Up? ==>
              && (link.bufPhys == link.respPhys <==> Honest(Setups(bus, s, calls)))
              && (link.q >= 2 && (bus.Mmio? ==> link.attached) ==>
                    (AlwaysDelivers(bus, link) <==> Honest(Setups(bus, s, calls))))
  {
    LinkHistory(bus, s, calls);
    var link := SyncRun(bus, Boot(s), calls).0;
    if link.Up? && link.q >= 2 && (bus.Mmio? ==> link.attached) { DeliversIff(bus, link); }
    hide SyncRun, Setups, AlwaysDelivers;
  }

  lemma {:induction false} ReplyAt(bus: Bus, link: Link, calls: seq<Request>, i: nat)
    requires i < |calls|
    ensures var (after, replies) := SyncRun(bus, link, calls);
            |replies| == |calls| && replies[i] == SyncCall(bus, SyncRun(bus, link, calls[..i]).0, calls[i]).1
    decreases |calls|
  {
    hide SyncCall;
    var pre := calls[..|calls| - 1];
    RepliesLength(bus, link, calls);
    RepliesLength(bus, link, pre);
    if i < |calls| - 1 {
      ReplyAt(bus, link, pre, i);
      assert pre[..i] == calls[..i];
    }
  }

  lemma {:induction false} RepliesLength(bus: Bus, link: Link, calls: seq<Request>)
    ensures |SyncRun(bus, link, calls).1| == |calls|
    decreases |calls|
  {
    if calls != [] { RepliesLength(bus, link, calls[..|calls| - 1]); }
  }

  /** What a zero return of the i-th call of a history is worth. */
  ghost predicate ZeroMeansDelivered(bus: Bus, s: Setup, calls: seq<Request>, replies: seq<Reply>, i: nat)
    requires i < |calls| == |replies|
  {
    calls[i].Call? && replies[i].rc == 0 ==>
      && (replies[i] == Delivered(calls[i]) <==>
            Honest(Setups(bus, s, calls[..i])) || calls[i].act.reply == Zeros(|calls[i].act.reply|))
      && (bus.Mmio? ==> replies[i] == Delivered(calls[i]))
  }

  /** Main result: whatever failed before and however far its resets got, a zero return hands
      over the bytes the device wrote for this very request exactly when the history is honest
      (or the bytes are zeros anyway), and on MMIO always. */
  lemma HistoryDelivers(bus: Bus, s: Setup, calls: seq<Request>, i: nat)
    requires i < |calls| && RequestOk(calls[i])
    ensures var replies := SyncRun(bus, Boot(s), calls).1;
            |replies| == |calls| && ZeroMeansDelivered(bus, s, calls, replies, i)
  {
    ReplyAt(bus, Boot(s), calls, i);
    LinkHistory(bus, s, calls[..i]);
    HonestIff(bus, s, calls[..i]);
    hide SyncRun, Setups, Announced, Boot, PowerOfTwo, AlwaysDelivers;
  }

  /** A history in which no setup stops between mapping the response buffer and translating its
      address is honest, wherever else its setups stop. */
  lemma {:induction false} NoStopIsHonest(bus: Bus, s: Setup, calls: seq<Request>)
    requires !s.stage.RespTranslate? && forall r <- calls :: !r.setup.stage.RespTranslate?
    ensures Honest(Setups(bus, s, calls))
    ensures forall made <- Setups(bus, s, calls) :: !made.stage.RespTranslate?
    decreases |calls|
  {
    if calls != [] {
      var pre := calls[..|calls| - 1];
      assert calls[|calls| - 1] in calls && forall r <- pre :: r in calls;
      NoStopIsHonest(bus, s, pre);
    }
  }

  predicate Complete(s: Setup) {
    s.stage.Done? && s.maxSize >= 2
  }

  /** What a caller may expect of one exchange on a transport that is set up completely. */
  function Expected(bus: Bus, r: Request): Reply
    requires r.Call?
  {
    if Due(r.act) < Polls(bus, true, r.act) then Delivered(r) else Reply(WaitRc(bus, true, r.act), [], None)
  }

  /** Set up completely. */
  predicate Sound(link: Link) {
    link.Up? && link.q >= 2 && link.bufPhys == link.respPhys && link.attached
  }

  lemma CompleteStep(bus: Bus, link: Link, r: Request)
    requires Sound(link) && Complete(r.setup)
    ensures var (after, reply) := SyncCall(bus, link, r);
            Sound(after) && (r.Call? ==> reply == Expected(bus, r))
  {}

  /** If every reset on the way completes, every exchange is served that completes in time. */
  lemma {:induction false} CompleteResetsDeliver(bus: Bus, s: Setup, calls: seq<Request>)
    requires Complete(s) && forall r <- calls :: Complete(r.setup)
    ensures var (link, replies) := SyncRun(bus, Boot(s), calls);
            && Sound(link) && |replies| == |calls|
            && forall i :: 0 <= i < |calls| && calls[i].Call? ==> replies[i] == Expected(bus, calls[i])
    decreases |calls|
  {
    if calls != [] {
      var pre, last := calls[..|calls| - 1], calls[|calls| - 1];
      assert last in calls && forall r <- pre :: r in calls;
      CompleteResetsDeliver(bus, s, pre);
      CompleteStep(bus, SyncRun(bus, Boot(s), pre).0, last);
      hide SyncCall, Sound, Complete, Expected;
    }
  }

  /** Once the null guard fails it fails for good: Exchange never tries another reset. */
  lemma {:induction false} DownStaysDown(bus: Bus, link: Link, calls: seq<Request>)
    requires link.Down? && forall r <- calls :: r.Call?
    ensures var (after, replies) := SyncRun(bus, link, calls);
            after == link && |replies| == |calls| && forall r <- replies :: r == Reply(-EINVAL, [], None)
    decreases |calls|
  {
    if calls != [] {
      var pre, last := calls[..|calls| - 1], calls[|calls| - 1];
      assert last in calls && forall r <- pre :: r in calls;
      DownStaysDown(bus, link, pre);
    }
  }

  /** The exception is reachable on PCI: after a timeout whose reset fails to translate the new
      response buffer, the next exchange reports success with bytes nobody sent. */
  lemma StaleAddressReturnsZeros(reply: Bytes)
    requires reply != [] && reply[0] != 0
    ensures var good, stale := Setup(Done, 2, 0, 1, 1), Setup(RespTranslate, 2, 2, 3, 1);
            var calls := [Call([], Act([], 2, 0, 0, 0, 1), stale), Call([], Act(reply, 0, 0, 0, 0, 1), good)];
            && SetupOk(good) && SetupOk(stale)
            && SyncRun(Pci, Boot(good), calls).1 == [Reply(-1, [], None), Reply(0, Zeros(|reply|), Some([]))]
            && Zeros(|reply|) != reply
  {
    assert PowerOfTwo(2);
    var good, stale := Setup(Done, 2, 0, 1, 1), Setup(RespTranslate, 2, 2, 3, 1);
    var first, second := Call([], Act([], 2, 0, 0, 0, 1), stale), Call([], Act(reply, 0, 0, 0, 0, 1), good);
    var up := Boot(good);
    SyncRunEmpty(Pci, up);
    SyncRunSnoc(Pci, up, [], first);
    SyncRunSnoc(Pci, up, [first], second);
    assert [] + [first] == [first] && [first] + [second] == [first, second];
    assert Zeros(|reply|)[0] != reply[0];
  }

  // ------------------------------------------------ one exchange on the ring

  predicate Idle(r: Ring) {
    && |r.free| == r.q && r.inflight == map[] && r.waiting == []
    && r.held == {} && r.staged == None && r.done == []
  }

  /** How far the device is with the request; `head`, `chain` and `seen` are what it knows. */
  datatype Job =
    | Untaken
    | Taken(head: nat, chain: Chain, seen: Bytes)
    | Replied(head: nat, chain: Chain, seen: Bytes)
    | Completed(head: nat, chain: Chain, seen: Bytes)

  /** Only `chain` is out, published under `head`, and the device is as far as `job` says. */
  predicate InFlight(r: Ring, head: nat, chain: Chain, len: u32, job: Job) {
    && |r.free| + 2 == r.q && r.inflight == map[head := chain]
    && r.waiting == (if job.Untaken? then [head] else [])
    && r.held == (if job.Taken? || job.Replied? then {head} else {})
    && r.staged == (if job.Replied? then Some(UsedElem(head, len)) else None)
    && r.done == (if job.Completed? then [UsedElem(head, len)] else [])
  }

  /** The steps the device has made were due before poll n. */
  predicate Reached(act: Act, job: Job, n: nat) {
    && (!job.Untaken? ==> act.takeAt <= n)
    && (job.Replied? || job.Completed? ==> act.writeAt <= n)
    && (job.Completed? ==> act.publishAt <= n)
  }

  /** The response buffer after it was cleared, and after the device wrote to it. */
  function ResponseBytes(reply: Bytes, written: bool): Bytes
    requires |reply| <= MAX_MESSAGE_SIZE
  {
    if written then reply + Zeros(MAX_MESSAGE_SIZE)[|reply|..] else Zeros(MAX_MESSAGE_SIZE)
  }

  lemma SendFromIdle(r: Ring, e: Event, len: u32)
    requires Idle(r) && r.q >= 2 && e.Add?
    ensures var (t, out) := Step(r, e);
            && out == AddRc(r.free[0])
            && InFlight(t, r.free[0], Chain(r.free[1], e.outAddr, e.outLen, e.inAddr, e.inLen), len, Untaken)
            && t.q == r.q
  {}

  lemma FullRing(r: Ring, e: Event)
    requires Idle(r) && r.q < 2 && e.Add?
    ensures Step(r, e) == (r, AddRc(-ENOSPC))
  {}

  /** The device's three steps on the request, in order. */
  lemma TakeInFlight(r: Ring, head: nat, chain: Chain, len: u32, seen: Bytes)
    requires InFlight(r, head, chain, len, Untaken)
    ensures var (t, out) := Step(r, Take);
            out == Took(head, chain) && InFlight(t, head, chain, len, Taken(head, chain, seen)) && t.q == r.q
  {}

  lemma StageInFlight(r: Ring, head: nat, chain: Chain, len: u32, seen: Bytes)
    requires InFlight(r, head, chain, len, Taken(head, chain, seen))
    ensures var t := Step(r, Stage(head, len)).0;
            InFlight(t, head, chain, len, Replied(head, chain, seen)) && t.q == r.q
  {}

  lemma PublishInFlight(r: Ring, head: nat, chain: Chain, len: u32, seen: Bytes)
    requires InFlight(r, head, chain, len, Replied(head, chain, seen))
    ensures var t := Step(r, Publish).0;
            InFlight(t, head, chain, len, Completed(head, chain, seen)) && t.q == r.q
  {}

  lemma PollInFlight(r: Ring, head: nat, chain: Chain, len: u32, job: Job)
    requires InFlight(r, head, chain, len, job)
    ensures !job.Completed? ==> Step(r, Get) == (r, GetRc(-1, 0))
    ensures job.Completed? ==>
              var (t, out) := Step(r, Get);
              out == GetRc(head, len) && Idle(t) && t.q == r.q
  {}

  lemma CallCases(bus: Bus, link: Link, request: Bytes, act: Act, s: Setup)
    ensures var out := SyncCall(bus, link, Call(request, act, s));
            && (link.Down? ==> out == (link, Reply(-EINVAL, [], None)))
            && (link.Up? && link.q < 2 ==> out == (link, Reply(-ENOSPC, [], None)))
            && (link.Up? && link.q >= 2 && Due(act) >= Polls(bus, link.attached, act) ==>
                  out == (AfterReset(link, s), Reply(WaitRc(bus, link.attached, act), [], None)))
            && (link.Up? && link.q >= 2 && Due(act) < Polls(bus, link.attached, act) ==>
                  var bytes := if link.bufPhys == link.respPhys then act.reply else Zeros(|act.reply|);
                  out == (link, Reply(0, bytes, Some(request))))
  {}

  /** The reply stands at the front of the response buffer, or nothing does. */
  lemma ReplyPrefix(reply: Bytes, written: bool)
    requires |reply| <= MAX_MESSAGE_SIZE
    ensures |ResponseBytes(reply, written)| == MAX_MESSAGE_SIZE
    ensures ResponseBytes(reply, written)[..|reply|] == if written then reply else Zeros(|reply|)
  {}

  // ------------------------------------------------ the transport

  class DmaBuffer {
    const phys: u64
    const data: array<u8>

    constructor (phys: u64)
      ensures this.phys == phys && data.Length == MAX_MESSAGE_SIZE && fresh(data)
    {
      this.phys := phys;
      data := new u8[MAX_MESSAGE_SIZE](_ => 0);
    }
  }

  /** memcpy to the start of a buffer. */
  method Fill(buf: array<u8>, bytes: Bytes)
    requires |bytes| <= buf.Length
    modifies buf
    ensures buf[..] == bytes + old(buf[..])[|bytes|..]
  {
    forall i | 0 <= i < |bytes| {
      buf[i] := bytes[i];
    }
  }

  class Transport {
    const bus: Bus
    var vq: Virtqueue?
    var device: Device?
    var reqBuf: DmaBuffer?
    var respBuf: DmaBuffer?
    var reqPhys: u64
    var respPhys: u64
    // Channel, connection and interrupt: attached or -1.
    var chid: bool
    var coid: bool
    var irqId: bool

    ghost function QueueObjects(): set<object>
      reads this
    {
      (if vq == null then {} else {vq, vq.desc, vq.avail, vq.used}) +
      (if device == null then {} else {device})
    }

    ghost function Objects(): set<object>
      reads this
    {
      QueueObjects() +
      (if reqBuf == null then {} else {reqBuf.data}) +
      (if respBuf == null then {} else {respBuf.data})
    }

    predicate Guard()
      reads this
    {
      vq != null && reqBuf != null && respBuf != null
    }

    predicate Attached()
      reads this
    {
      chid && coid && irqId
    }

    ghost function TheLink(): Link
      reads this
    {
      if Guard() then Up(vq.queueSize, respBuf.phys, respPhys, Attached()) else Down(respPhys)
    }

    /** Queue, device and buffers belong together and do not overlap. */
    ghost predicate Wired()
      reads this, Objects()
    {
      && Guard()
      && device != null && device.vq == vq && device.Attached()
      && reqBuf.data.Length == respBuf.data.Length == MAX_MESSAGE_SIZE
      && reqBuf.data != respBuf.data && {reqBuf.data, respBuf.data} !! QueueObjects()
      && reqPhys == reqBuf.phys != respBuf.phys
    }

    /** Whenever the null guard passes, no descriptor is in flight and the request buffer
        is where the driver says it is. */
    ghost predicate Valid()
      reads this, Objects()
    {
      Guard() ==> Wired() && Idle(vq.ring)
    }

    /** A transport that is not set up yet. */
    constructor (bus: Bus)
      ensures Valid() && TheLink() == Down(0) && Objects() == {} && this.bus == bus
    {
      this.bus := bus;
      vq, device, reqBuf, respBuf := null, null, null, null;
      reqPhys, respPhys := 0, 0;
      chid, coid, irqId := false, false, false;
    }

    method SetupVirtqueue(s: Setup) returns (rc: int)
      requires SetupOk(s)
      modifies this`vq, this`device
      ensures s.maxSize == 0 ==> vq == old(vq) && device == old(device)
      ensures s.maxSize > 0 ==> vq != null && fresh(vq) && fresh(vq.desc) && fresh(vq.avail) && fresh(vq.used)
      ensures rc == if s.maxSize == 0 || s.stage.QueueAlloc? then -(s.errno as int) else 0
      ensures rc == 0 ==>
                && vq.queueSize == Min(s.maxSize, DEFAULT_QUEUE_SIZE)
                && device != null && fresh(device) && device.vq == vq && device.Attached() && Idle(vq.ring)
      ensures rc != 0 ==> device == old(device)
    {
      hide Rep, PowerOfTwo;
      if s.maxSize == 0 {
        return -(s.errno as int);
      }
      var queueSize := if s.maxSize < DEFAULT_QUEUE_SIZE then s.maxSize else DEFAULT_QUEUE_SIZE;
      assert PowerOfTwo(DEFAULT_QUEUE_SIZE) by { DefaultIsPowerOfTwo(); }
      vq := new Virtqueue(queueSize);
      if s.stage.QueueAlloc? {
        return -(s.errno as int);
      }
      vq.InitDescChain();
      device := new Device(vq);
      return 0;
    }

    /** Map the bounce buffers and translate their addresses. */
    method MapBuffers(s: Setup) returns (rc: int)
      requires reqBuf == null && respBuf == null
      requires !s.stage.Negotiate? && !s.stage.QueueAlloc? && s.maxSize > 0
      modifies this`reqBuf, this`respBuf, this`reqPhys, this`respPhys
      ensures rc == if Translated(s) then 0 else -(s.errno as int)
      ensures respBuf != null <==> Mapped(s)
      ensures respBuf != null ==>
                && reqBuf != null && fresh(reqBuf.data) && fresh(respBuf.data) && reqBuf.data != respBuf.data
                && reqBuf.data.Length == respBuf.data.Length == MAX_MESSAGE_SIZE
                && reqBuf.phys == s.reqPhys == reqPhys && respBuf.phys == s.respPhys
      ensures reqBuf != null ==> fresh(reqBuf.data)
      ensures respPhys == if Translated(s) then s.respPhys else old(respPhys)
    {
      rc := -(s.errno as int);
      if s.stage.ReqMap? {
        return;
      }
      reqBuf := new DmaBuffer(s.reqPhys);
      if s.stage.ReqTranslate? {
        return;
      }
      reqPhys := s.reqPhys;

      if s.stage.RespMap? {
        return;
      }
      respBuf := new DmaBuffer(s.respPhys);
      if s.stage.RespTranslate? {
        return;
      }
      respPhys := s.respPhys;
      return 0;
    }

    /** Channel, connection and interrupt, each only if the one before succeeded. */
    method AttachInterrupt(s: Setup) returns (rc: int)
      requires Translated(s) && !chid && !coid && !irqId
      modifies this`chid, this`coid, this`irqId
      ensures rc == if s.stage.Done? then 0 else -(s.errno as int)
      ensures Attached() <==> s.stage.Done?
    {
      rc := -(s.errno as int);
      if s.stage.Channel? {
        return;
      }
      chid := true;
      if s.stage.Connect? {
        return;
      }
      coid := true;
      if s.stage.Interrupt? {
        return;
      }
      irqId := true;
      return 0;
    }

    /** The same steps on a new transport; a failure undoes everything again. */
    method Initialize(s: Setup) returns (rc: int)
      requires SetupOk(s) && TheLink() == Down(0)
      modifies this
      ensures Valid() && fresh(Objects())
      ensures TheLink() == Boot(s) && rc == ResetRc(s)
    {
      hide AfterReset, SetupOk, Idle, Wired, Attached;
      rc := ResetDevice(s);
      assert TheLink().respPhys == respPhys;
      if rc != 0 {
        vq, device, reqBuf, respBuf := null, null, null, null;
        chid, coid, irqId := false, false, false;
        assert !Guard() && Objects() == {};
      }
    }

    /** Negotiate features and set everything up, stopping at the first step that fails. */
    method InitializeDevice(s: Setup) returns (rc: int)
      requires SetupOk(s) && vq == null && device == null && reqBuf == null && respBuf == null
      requires !chid && !coid && !irqId
      modifies this
      ensures Valid() && fresh(Objects())
      ensures TheLink() == AfterReset(Down(old(respPhys)), s) && rc == ResetRc(s)
    {
      hide Device.Attached, Idle, PowerOfTwo;
      if s.stage.Negotiate? {
        return -(s.errno as int);
      }
      rc := SetupVirtqueue(s);
      if rc != 0 {
        return;
      }
      rc := MapBuffers(s);
      if rc == 0 {
        rc := AttachInterrupt(s);
      }
    }

    /** Drop queue, interrupt and buffers, and set up again; the response address stays. */
    method ResetDevice(s: Setup) returns (rc: int)
      requires SetupOk(s)
      modifies this
      ensures Valid() && fresh(Objects())
      ensures TheLink() == AfterReset(old(TheLink()), s) && rc == ResetRc(s)
    {
      hide Valid, SetupOk;
      vq, device := null, null;
      chid, coid, irqId := false, false, false;
      reqBuf, respBuf := null, null;
      rc := InitializeDevice(s);
    }

    // Waiting: the device works between polls.

    /** The completion was collected: the ring is idle again and the device saw the request. */
    ghost predicate Finished(act: Act, request: Bytes, job: Job)
      reads this, Objects()
    {
      && Wired() && Idle(vq.ring) && |act.reply| <= MAX_MESSAGE_SIZE
      && job.Completed? && job.seen == request
      && respBuf.data[..] == ResponseBytes(act.reply, respPhys == respBuf.phys)
    }

    /** The request is out, and the response buffer is as cleared until the device writes it,
        and afterwards too if the device was told another address. */
    ghost predicate Working(act: Act, head: nat, chain: Chain, request: Bytes, job: Job)
      reads this, Objects()
    {
      && Wired() && |act.reply| <= MAX_MESSAGE_SIZE && InFlight(vq.ring, head, chain, |act.reply|, job)
      && chain.outAddr == reqPhys && chain.inAddr == respPhys && chain.inLen == MAX_MESSAGE_SIZE
      && chain.outLen == |request| <= MAX_MESSAGE_SIZE && reqBuf.data[..|request|] == request
      && (!job.Untaken? ==> job.head == head && job.chain == chain && job.seen == request)
      && respBuf.data[..] == ResponseBytes(act.reply, (job.Replied? || job.Completed?) && respPhys == respBuf.phys)
    }

    /** The device takes the request and reads it. */
    method DeviceTake(act: Act, ghost head: nat, ghost chain: Chain, ghost request: Bytes) returns (job: Job)
      requires Working(act, head, chain, request, Untaken)
      modifies Objects()
      ensures Working(act, head, chain, request, job) && job.Taken?
    {
      hide Rep, Step, Device.Attached;
      TakeInFlight(vq.ring, head, chain, |act.reply|, request);
      var out := device.TakeHead();
      var seen := if out.chain.outAddr == reqBuf.phys then reqBuf.data[..out.chain.outLen] else [];
      job := Taken(out.head, out.chain, seen);
    }

    /** It writes its reply where the chain says, no more than fits there, and a used element the
        driver cannot see yet. */
    method DeviceWrite(act: Act, ghost head: nat, ghost chain: Chain, ghost request: Bytes, taken: Job)
      returns (job: Job)
      requires Working(act, head, chain, request, taken) && taken.Taken?
      modifies Objects()
      ensures Working(act, head, chain, request, job) && job.Replied?
    {
      hide Rep, Step, Device.Attached;
      StageInFlight(vq.ring, head, chain, |act.reply|, request);
      if taken.chain.inAddr == respBuf.phys {
        Fill(respBuf.data, act.reply[..Min(|act.reply|, taken.chain.inLen)]);
      }
      device.WriteUsed(taken.head, |act.reply|);
      job := Replied(taken.head, taken.chain, taken.seen);
    }

    /** It bumps the used index. */
    method DevicePublish(act: Act, ghost head: nat, ghost chain: Chain, ghost request: Bytes, replied: Job)
      returns (job: Job)
      requires Working(act, head, chain, request, replied) && replied.Replied?
      modifies Objects()
      ensures Working(act, head, chain, request, job) && job.Completed?
    {
      hide Rep, Step, Device.Attached;
      PublishInFlight(vq.ring, head, chain, |act.reply|, request);
      var done := device.BumpUsed();
      job := Completed(replied.head, replied.chain, replied.seen);
    }

    /** What the device does before poll n. */
    method DeviceWork(act: Act, ghost head: nat, ghost chain: Chain, ghost request: Bytes, n: nat, before: Job)
      returns (job: Job)
      requires Working(act, head, chain, request, before)
      requires Reached(act, before, n)
      modifies Objects()
      ensures Working(act, head, chain, request, job) && Reached(act, job, n)
      ensures job.Completed? <==> Due(act) <= n
    {
      hide Working;
      job := before;
      if job.Untaken? && act.takeAt <= n {
        job := DeviceTake(act, head, chain, request);
      }
      if job.Taken? && act.writeAt <= n {
        job := DeviceWrite(act, head, chain, request, job);
      }
      if job.Replied? && act.publishAt <= n {
        job := DevicePublish(act, head, chain, request, job);
      }
    }

    /** GetBuf with the request out. */
    method Collect(act: Act, ghost head: nat, ghost chain: Chain, ghost request: Bytes, ghost job: Job)
      returns (rc: int, outLen: u32)
      requires Working(act, head, chain, request, job)
      modifies Objects()
      ensures job.Completed? ==> rc >= 0 && outLen == |act.reply| && Finished(act, request, job)
      ensures !job.Completed? ==> rc == -1 && Working(act, head, chain, request, job)
    {
      hide Rep, Step, ResponseBytes;
      PollInFlight(vq.ring, head, chain, |act.reply|, job);
      DriverKeepsDevice(vq.ring, Get);
      rc, outLen := vq.GetBuf();
    }

    /** The n-th look at the used ring. */
    method Poll(act: Act, ghost head: nat, ghost chain: Chain, ghost request: Bytes, n: nat, before: Job)
      returns (rc: int, outLen: u32, job: Job)
      requires Working(act, head, chain, request, before) && !before.Completed? && Reached(act, before, n)
      modifies Objects()
      ensures Due(act) <= n ==> rc >= 0 && outLen == |act.reply| && Finished(act, request, job)
      ensures Due(act) > n ==>
                rc == -1 && Working(act, head, chain, request, job) && !job.Completed? && Reached(act, job, n)
    {
      hide Working, Finished, Due, Reached;
      job := DeviceWork(act, head, chain, request, n, before);
      rc, outLen := Collect(act, head, chain, request, job);
    }

    /** One look and the spin after a pulse. */
    method PollRound(act: Act, ghost head: nat, ghost chain: Chain, ghost request: Bytes, n: nat, before: Job)
      returns (rc: int, outLen: u32, job: Job)
      requires Working(act, head, chain, request, before) && !before.Completed? && Reached(act, before, n)
      requires Due(act) >= n
      modifies Objects()
      ensures Due(act) < n + POLLS_PER_PULSE ==> rc >= 0 && outLen == |act.reply| && Finished(act, request, job)
      ensures Due(act) >= n + POLLS_PER_PULSE ==>
                && rc == -1 && Working(act, head, chain, request, job)
                && !job.Completed? && Reached(act, job, n + POLLS_PER_PULSE)
    {
      hide Working, Finished, Due, Reached;
      rc, outLen, job := Poll(act, head, chain, request, n, before);
      if rc >= 0 {
        return;
      }
      for spin := 0 to 100
        invariant Working(act, head, chain, request, job) && !job.Completed? && Reached(act, job, n + spin)
        invariant Due(act) > n + spin && rc == -1
      {
        ReachedLater(act, job, n + spin);
        rc, outLen, job := Poll(act, head, chain, request, n + spin + 1, job);
        if rc >= 0 {
          return;
        }
      }
      ReachedLater(act, job, n + 100);
    }

    method WaitForCompletion(act: Act, ghost head: nat, ghost chain: Chain, ghost request: Bytes)
      returns (rc: int, outLen: u32, job: Job)
      requires Working(act, head, chain, request, Untaken)
      modifies Objects()
      ensures Due(act) < Polls(bus, Attached(), act) ==> rc == 0 && outLen == |act.reply| && Finished(act, request, job)
      ensures Due(act) >= Polls(bus, Attached(), act) ==> rc == WaitRc(bus, Attached(), act)
    {
      hide Working, Finished, Due;
      if bus.Pci? {
        rc, outLen, job := WaitOnPci(act, head, chain, request);
      } else {
        rc, outLen, job := WaitOnMmio(act, head, chain, request);
      }
    }

    /** Look first, then after every pulse, and once more when a receive fails. */
    method WaitOnPci(act: Act, ghost head: nat, ghost chain: Chain, ghost request: Bytes)
      returns (rc: int, outLen: u32, job: Job)
      requires Working(act, head, chain, request, Untaken)
      modifies Objects()
      ensures Due(act) < Polls(Pci, Attached(), act) ==> rc == 0 && outLen == |act.reply| && Finished(act, request, job)
      ensures Due(act) >= Polls(Pci, Attached(), act) ==> rc == WaitRc(Pci, Attached(), act)
    {
      hide Working, Finished, Due, Reached;
      ghost var attached := Attached();
      NothingReached(act);
      rc, outLen, job := Poll(act, head, chain, request, 0, Untaken);
      if rc >= 0 {
        return 0, outLen, job;
      }
      ReachedLater(act, job, 0);
      var received := 0;
      while true
        invariant received <= (if attached then act.pulses else 0) && Attached() == attached
        invariant Working(act, head, chain, request, job) && !job.Completed?
        invariant Reached(act, job, 1 + POLLS_PER_PULSE * received) && Due(act) >= 1 + POLLS_PER_PULSE * received
        decreases act.pulses - received
      {
        var n := 1 + POLLS_PER_PULSE * received;
        if !Attached() || received == act.pulses {
          rc, outLen, job := Poll(act, head, chain, request, n, job);
          if rc >= 0 {
            return 0, outLen, job;
          }
          return -(act.errno as int), outLen, job;
        }
        received := received + 1;
        rc, outLen, job := PollRound(act, head, chain, request, n, job);
        if rc >= 0 {
          return 0, outLen, job;
        }
      }
    }

    /** Look only after a pulse, and give up after one. */
    method WaitOnMmio(act: Act, ghost head: nat, ghost chain: Chain, ghost request: Bytes)
      returns (rc: int, outLen: u32, job: Job)
      requires Working(act, head, chain, request, Untaken)
      modifies Objects()
      ensures Due(act) < Polls(Mmio, Attached(), act) ==>
                rc == 0 && outLen == |act.reply| && Finished(act, request, job)
      ensures Due(act) >= Polls(Mmio, Attached(), act) ==> rc == WaitRc(Mmio, Attached(), act)
    {
      hide Working, Finished, Due, Reached;
      outLen, job := 0, Untaken;
      if !Attached() || act.pulses == 0 {
        return -(act.errno as int), outLen, job;
      }
      NothingReached(act);
      rc, outLen, job := PollRound(act, head, chain, request, 0, Untaken);
      if rc >= 0 {
        return 0, outLen, job;
      }
      return -EIO, outLen, job;
    }

    /** Clear the response buffer, copy the request in and publish the chain. */
    method Submit(request: Bytes, ghost act: Act) returns (head: int, ghost chain: Chain)
      requires Wired() && Idle(vq.ring) && |request| <= MAX_MESSAGE_SIZE && |act.reply| <= MAX_MESSAGE_SIZE
      modifies Objects()
      ensures vq.queueSize < 2 ==> head == -ENOSPC && Wired() && Idle(vq.ring)
      ensures vq.queueSize >= 2 ==> head >= 0 && Working(act, head, chain, request, Untaken)
    {
      hide Rep, Step;
      Fill(respBuf.data, Zeros(MAX_MESSAGE_SIZE));
      Fill(reqBuf.data, request);
      ghost var posted := Add(reqPhys, |request|, respPhys, MAX_MESSAGE_SIZE);
      DriverKeepsDevice(vq.ring, posted);
      if vq.queueSize >= 2 { SendFromIdle(vq.ring, posted, |act.reply|); } else { FullRing(vq.ring, posted); }
      ghost var free := vq.ring.free;
      head := vq.AddBuf(reqPhys, |request|, respPhys, MAX_MESSAGE_SIZE);
      chain := Chain(if |free| >= 2 then free[1] else 0, reqPhys, |request|, respPhys, MAX_MESSAGE_SIZE);
    }

    method Exchange(request: Bytes, act: Act, setup: Setup) returns (rc: int, response: Bytes, seen: Option<Bytes>)
      requires Valid() && RequestOk(Call(request, act, setup))
      modifies this, Objects()
      ensures Valid() && fresh(Objects() - old(Objects()))
      ensures (TheLink(), Reply(rc, response, seen)) == SyncCall(bus, old(TheLink()), Call(request, act, setup))
    {
      hide Rep, Step, Device.Attached, Working, Idle, PowerOfTwo, SyncCall, AfterReset, Polls, Due, ResponseBytes;
      ghost var link := TheLink();
      CallCases(bus, link, request, act, setup);
      response, seen := [], None;
      if vq == null || reqBuf == null || respBuf == null {
        return -EINVAL, [], None;
      }
      var head;
      ghost var chain;
      head, chain := Submit(request, act);
      if head < 0 {
        return head, [], None;
      }
      var outLen, job;
      rc, outLen, job := WaitForCompletion(act, head, chain, request);
      if rc < 0 {
        var ignored := ResetDevice(setup);
        return rc, [], None;
      }
      response, seen := respBuf.data[..outLen], Some(job.seen);
      assert respBuf.data[..outLen] == respBuf.data[..][..outLen];
      ReplyPrefix(act.reply, respPhys == respBuf.phys);
    }

    method DoRequest(r: Request) returns (reply: Reply)
      requires Valid() && RequestOk(r)
      modifies this, Objects()
      ensures Valid() && fresh(Objects() - old(Objects()))
      ensures (TheLink(), reply) == SyncCall(bus, old(TheLink()), r)
    {
      hide AfterReset, TheLink, Valid, PowerOfTwo;
      match r {
        case Call(request, act, setup) =>
          var rc, response, seen := Exchange(request, act, setup);
          reply := Reply(rc, response, seen);
        case Reset(setup) =>
          var rc := ResetDevice(setup);
          reply := Reply(rc, [], None);
      }
    }
  }

  lemma NothingReached(act: Act)
    ensures Reached(act, Untaken, 0)
  {}

  lemma ReachedLater(act: Act, job: Job, n: nat)
    requires Reached(act, job, n)
    ensures Reached(act, job, n + 1)
  {}

  /** Main result: over any sequence of exchanges, timeouts and resets, complete or failing
      part-way, the transport on its real queue returns what the synchronous calls return, and a
      zero return is the device's answer to this very request exactly on honest histories. */
  method RunExchanges(bus: Bus, s: Setup, calls: seq<Request>) returns (replies: seq<Reply>)
    requires SetupOk(s) && forall r <- calls :: RequestOk(r)
    ensures |replies| == |calls| && replies == SyncRun(bus, Boot(s), calls).1
    ensures forall i :: 0 <= i < |calls| ==> ZeroMeansDelivered(bus, s, calls, replies, i)
  {
    hide *;
    ghost var start := Boot(s);
    SyncRunEmpty(bus, start);
    var transport := new Transport(bus);
    var up := transport.Initialize(s);
    replies := [];
    for n := 0 to |calls|
      invariant transport.Valid() && fresh(transport) && fresh(transport.Objects()) && transport.bus == bus
      invariant (transport.TheLink(), replies) == SyncRun(bus, start, calls[..n])
    {
      SyncRunSnoc(bus, start, calls[..n], calls[n]);
      assert calls[..n] + [calls[n]] == calls[..n + 1];
      assert calls[n] in calls;
      ghost var owned := transport.Objects();
      label before:
      var reply := transport.DoRequest(calls[n]);
      assert forall o :: o in transport.Objects() ==> o in owned || o in transport.Objects() - owned;
      assert forall o :: o in transport.Objects() - owned ==> fresh@before(o);
      replies := replies + [reply];
    }
    assert calls[..|calls|] == calls;
    RepliesLength(bus, start, calls);
    forall i | 0 <= i < |calls| ensures ZeroMeansDelivered(bus, s, calls, replies, i) {
      HistoryDelivers(bus, s, calls, i);
    }
  }

  lemma DefaultIsPowerOfTwo()
    ensures PowerOfTwo(DEFAULT_QUEUE_SIZE)
  {
    assert PowerOfTwo(128);
  }
}
