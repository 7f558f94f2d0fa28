/**
  The split virtqueue as a state machine over unbounded counters: no arrays, no
  16-bit indices, no linked free list.  `Virtqueue` implements it; the whole-run
  theorems below are proved here once.
 */
module RingSpec {
  import opened Types

  /** A two-descriptor chain: device-readable request, device-writable response. */
  datatype Chain = Chain(second: nat, outAddr: u64, outLen: u32, inAddr: u64, inLen: u32)

  datatype UsedElem = UsedElem(id: nat, len: u32)

  /** Every in-flight head is in exactly one of `waiting` (published, not yet taken
      by the device), `held` (taken, not completed) and `done` (completed, not yet
      reclaimed by the driver). */
  datatype Ring = Ring(
    q: nat,
    free: seq<nat>,
    inflight: map<nat, Chain>,
    waiting: seq<nat>,
    held: set<nat>,
    staged: Option<UsedElem>,
    done: seq<UsedElem>,
    published: nat,
    completed: nat)

  datatype Event =
    | Add(outAddr: u64, outLen: u32, inAddr: u64, inLen: u32)  // driver: AddBuf
    | Take                                                     // device: consume a published head
    | Stage(head: nat, len: u32)                               // device: write a used element for a head it holds
    | Publish                                                  // device: bump the used index over it
    | Get                                                      // driver: GetBuf

  datatype Outcome =
    | AddRc(rc: int)
    | Took(head: nat, chain: Chain)
    | Returned(elem: UsedElem)
    | GetRc(rc: int, len: u32)
    | Stutter

  function Init(q: nat): Ring {
    Ring(q, seq(q, i => i), map[], [], {}, None, [], 0, 0)
  }

  function Step(s: Ring, e: Event): (Ring, Outcome) {
    match e
    case Add(outAddr, outLen, inAddr, inLen) =>
      if |s.free| < 2 then (s, AddRc(-ENOSPC))
      else
        var head, second := s.free[0], s.free[1];
        (s.(free := s.free[2..],
            inflight := s.inflight[head := Chain(second, outAddr, outLen, inAddr, inLen)],
            waiting := s.waiting + [head],
            published := s.published + 1),
         AddRc(head))
    case Take =>
      if s.waiting == [] || s.waiting[0] !in s.inflight then (s, Stutter)
      else
        var head := s.waiting[0];
        (s.(waiting := s.waiting[1..], held := s.held + {head}), Took(head, s.inflight[head]))
    case Stage(head, len) =>
      (if head in s.held then s.(staged := Some(UsedElem(head, len))) else s, Stutter)
    case Publish =>
      if s.staged.None? then (s, Stutter)
      else
        var elem := s.staged.value;
        (s.(held := s.held - {elem.id}, staged := None,
            done := s.done + [elem], completed := s.completed + 1),
         Returned(elem))
    case Get =>
      if s.done == [] || s.done[0].id !in s.inflight then (s, GetRc(-1, 0))
      else
        var elem := s.done[0];
        (s.(free := [s.inflight[elem.id].second, elem.id] + s.free,
            inflight := s.inflight - {elem.id},
            done := s.done[1..]),
         GetRc(elem.id, elem.len))
  }

  /** How often head h occurs. */
  function Count(heads: seq<nat>, h: nat): nat {
    if heads == [] then 0 else (if heads[0] == h then 1 else 0) + Count(heads[1..], h)
  }

  function CountElems(elems: seq<UsedElem>, h: nat): nat {
    if elems == [] then 0 else (if elems[0].id == h then 1 else 0) + CountElems(elems[1..], h)
  }

  // ---------------------------------------------------------------- invariant

  /** The free list and the chains occupy disjoint descriptors, q in all. */
  ghost predicate Partitioned(s: Ring) {
    && Distinct(s.free)
    && (forall d <- s.free :: d < s.q)
    && (forall h <- s.inflight :: h < s.q && h !in s.free)
    && (forall h <- s.inflight :: Second(s, h) < s.q && Second(s, h) !in s.free && Second(s, h) !in s.inflight)
    && (forall h <- s.inflight, k <- s.inflight :: Second(s, h) == Second(s, k) ==> h == k)
    && |s.free| + 2 * |s.inflight| == s.q
  }

  ghost function Second(s: Ring, h: nat): nat
    requires h in s.inflight
  {
    s.inflight[h].second
  }

  /** How many stages head h is in, with multiplicity. */
  ghost function Owners(s: Ring, h: nat): nat {
    Count(s.waiting, h) + (if h in s.held then 1 else 0) + CountElems(s.done, h)
  }

  /** Each in-flight head is in exactly one stage, and no other head in any. */
  ghost predicate Staged(s: Ring) {
    && (forall h: nat :: Owners(s, h) == if h in s.inflight then 1 else 0)
    && |s.waiting| + |s.held| + |s.done| == |s.inflight|
    && |s.waiting| <= s.published
    && |s.done| <= s.completed
    && (s.staged.Some? ==> s.staged.value.id in s.held)
  }

  ghost predicate Inv(s: Ring) {
    Partitioned(s) && Staged(s)
  }

  lemma CountSnoc(heads: seq<nat>, x: nat, h: nat)
    ensures Count(heads + [x], h) == Count(heads, h) + if x == h then 1 else 0
  {
    if heads != [] {
      assert (heads + [x])[1..] == heads[1..] + [x];
      CountSnoc(heads[1..], x, h);
    }
  }

  lemma CountElemsSnoc(elems: seq<UsedElem>, e: UsedElem, h: nat)
    ensures CountElems(elems + [e], h) == CountElems(elems, h) + if e.id == h then 1 else 0
  {
    if elems != [] {
      assert (elems + [e])[1..] == elems[1..] + [e];
      CountElemsSnoc(elems[1..], e, h);
    }
  }

  lemma CountPositive(heads: seq<nat>, h: nat)
    requires h in heads
    ensures Count(heads, h) > 0
  {
    if heads[0] != h { CountPositive(heads[1..], h); }
  }

  lemma CountElemsPositive(elems: seq<UsedElem>, e: UsedElem)
    requires e in elems
    ensures CountElems(elems, e.id) > 0
  {
    if elems[0] != e { CountElemsPositive(elems[1..], e); }
  }

  /** No stage outgrows half the queue, and all staged heads are in flight. */
  lemma StagesBounded(s: Ring)
    requires Inv(s)
    ensures 2 * (|s.waiting| + |s.held| + |s.done|) <= s.q
    ensures forall h <- s.waiting :: h in s.inflight
    ensures forall h <- s.held :: h in s.inflight
    ensures forall e <- s.done :: e.id in s.inflight
  {
    forall h | h in s.waiting ensures h in s.inflight {
      CountPositive(s.waiting, h);
      assert Owners(s, h) > 0;
    }
    forall h | h in s.held ensures h in s.inflight {
      assert Owners(s, h) > 0;
    }
    forall e | e in s.done ensures e.id in s.inflight {
      CountElemsPositive(s.done, e);
      assert Owners(s, e.id) > 0;
    }
  }

  lemma InitInv(q: nat)
    ensures Inv(Init(q))
  {}

  lemma AddKeepsPartition(s: Ring, e: Event)
    requires Partitioned(s) && e.Add? && |s.free| >= 2
    ensures Partitioned(Step(s, e).0)
  {
    var t := Step(s, e).0;
    var head, second := s.free[0], s.free[1];
    assert t.free == s.free[2..] && t.q == s.q;
    assert t.inflight == s.inflight[head := t.inflight[head]] && t.inflight[head].second == second;
    hide Step;
    FreeAfterAdd(s, t, head, second);
  }

  lemma FreeAfterAdd(s: Ring, t: Ring, head: nat, second: nat)
    requires Partitioned(s) && |s.free| >= 2 && head == s.free[0] && second == s.free[1]
    requires t.free == s.free[2..] && t.q == s.q && head in t.inflight
    requires t.inflight == s.inflight[head := t.inflight[head]] && t.inflight[head].second == second
    ensures Partitioned(t)
  {
    forall d | d in t.free ensures d in s.free && d != head && d != second {
      var i :| 0 <= i < |t.free| && t.free[i] == d;
      assert s.free[i + 2] == d;
    }
    assert head in s.free && second in s.free && head != second;
    assert t.inflight.Keys == s.inflight.Keys + {head};
    forall h | h in s.inflight
      ensures Second(t, h) == Second(s, h) && Second(t, h) != head && Second(t, h) != second
    {
      assert h != head && Second(s, h) !in s.free;
    }
    assert Second(t, head) == second;
  }

  lemma DistinctPush(free: seq<nat>, a: nat, b: nat)
    requires Distinct(free) && a != b && a !in free && b !in free
    ensures Distinct([a, b] + free)
  {
    var f := [a, b] + free;
    forall i, j | 0 <= i < j < |f| ensures f[i] != f[j] {
      if i >= 2 {
        assert f[i] == free[i - 2] && f[j] == free[j - 2];
      } else if j >= 2 {
        assert f[j] == free[j - 2] && free[j - 2] in free;
      }
    }
  }

  lemma GetKeepsPartition(s: Ring)
    requires Partitioned(s) && s.done != [] && s.done[0].id in s.inflight
    ensures Partitioned(Step(s, Get).0)
  {
    var t := Step(s, Get).0;
    var id := s.done[0].id;
    var second := s.inflight[id].second;
    assert Second(s, id) == second;
    assert t.free == [second, id] + s.free && t.inflight == s.inflight - {id} && t.q == s.q;
    assert second != id;
    hide Step;
    DistinctPush(s.free, second, id);
    hide Distinct;
    FreeAfterGet(s, t, id, second);
  }

  lemma FreeAfterGet(s: Ring, t: Ring, id: nat, second: nat)
    requires Partitioned(s) && id in s.inflight && second == Second(s, id)
    requires t.free == [second, id] + s.free && t.inflight == s.inflight - {id} && t.q == s.q
    requires Distinct(t.free)
    ensures Partitioned(t)
  {
    hide Distinct;
    assert t.inflight.Keys == s.inflight.Keys - {id};
    forall d | d in t.free ensures d == second || d == id || d in s.free {}
    forall h | h in t.inflight
      ensures Second(t, h) == Second(s, h) && h != id && h != second && Second(t, h) != id && Second(t, h) != second
    {
      assert second !in s.inflight && Second(s, h) !in s.inflight;
    }
  }

  lemma AddKeepsStages(s: Ring, e: Event)
    requires Inv(s) && e.Add? && |s.free| >= 2
    ensures Staged(Step(s, e).0)
  {
    var t := Step(s, e).0;
    var head := s.free[0];
    assert head in s.free && head !in s.inflight;
    assert |t.inflight| == |s.inflight| + 1;
    forall h: nat ensures Owners(t, h) == Owners(s, h) + if h == head then 1 else 0 {
      CountSnoc(s.waiting, head, h);
    }
  }

  lemma TakeKeepsStages(s: Ring)
    requires Staged(s) && s.waiting != [] && s.waiting[0] in s.inflight
    ensures Staged(Step(s, Take).0)
  {
    var t := Step(s, Take).0;
    var head := s.waiting[0];
    CountPositive(s.waiting, head);
    assert Owners(s, head) == 1;
    assert head !in s.held;
    forall h: nat ensures Owners(t, h) == Owners(s, h) {}
  }

  lemma PublishKeepsStages(s: Ring)
    requires Staged(s) && s.staged.Some?
    ensures Staged(Step(s, Publish).0)
  {
    var t := Step(s, Publish).0;
    assert |t.held| == |s.held| - 1;
    forall h: nat ensures Owners(t, h) == Owners(s, h) {
      CountElemsSnoc(s.done, s.staged.value, h);
    }
  }

  lemma StageKeepsStages(s: Ring, e: Event)
    requires Staged(s) && e.Stage?
    ensures Staged(Step(s, e).0)
  {
    var t := Step(s, e).0;
    forall h: nat ensures Owners(t, h) == Owners(s, h) {}
  }

  lemma GetKeepsStages(s: Ring)
    requires Staged(s) && s.done != [] && s.done[0].id in s.inflight
    ensures Staged(Step(s, Get).0)
  {
    var t := Step(s, Get).0;
    var id: nat := s.done[0].id;
    assert t.inflight.Keys == s.inflight.Keys - {id};
    assert |t.inflight.Keys| == |s.inflight.Keys| - 1;
    forall h: nat ensures Owners(t, h) == Owners(s, h) - if h == id then 1 else 0 {
      assert h == id ==> Owners(s, h) == 1;
    }
  }

  lemma SamePartition(s: Ring, t: Ring)
    requires Partitioned(s)
    requires s.q == t.q && s.free == t.free && s.inflight == t.inflight
    ensures Partitioned(t)
  {
    assert forall h <- s.inflight :: Second(t, h) == Second(s, h);
  }

  lemma StepKeepsInv(s: Ring, e: Event)
    requires Inv(s)
    ensures Inv(Step(s, e).0)
  {
    if e.Add? && |s.free| >= 2 {
      AddKeepsPartition(s, e);
      AddKeepsStages(s, e);
    } else if e.Take? && s.waiting != [] && s.waiting[0] in s.inflight {
      TakeKeepsStages(s);
      SamePartition(s, Step(s, e).0);
    } else if e.Publish? && s.staged.Some? {
      PublishKeepsStages(s);
      SamePartition(s, Step(s, e).0);
    } else if e.Stage? {
      StageKeepsStages(s, e);
      SamePartition(s, Step(s, e).0);
    } else if e.Get? && s.done != [] && s.done[0].id in s.inflight {
      GetKeepsPartition(s);
      GetKeepsStages(s);
    } else {
      assert Step(s, e).0 == s;
    }
  }

  // ---------------------------------------------------------------- whole runs

  function Run(s: Ring, events: seq<Event>): (Ring, seq<Outcome>)
    decreases |events|
  {
    if events == [] then (s, [])
    else
      var (t, outs) := Run(s, events[..|events| - 1]);
      var (u, out) := Step(t, events[|events| - 1]);
      (u, outs + [out])
  }

  lemma RunEmpty(s: Ring)
    ensures Run(s, []) == (s, [])
  {}

  lemma RunSnoc(s: Ring, events: seq<Event>, e: Event)
    ensures var (t, outs) := Run(s, events);
            Run(s, events + [e]) == (Step(t, e).0, outs + [Step(t, e).1])
  {
    assert (events + [e])[..|events|] == events;
  }

  lemma {:induction false} RunKeepsInv(q: nat, events: seq<Event>)
    ensures Inv(Run(Init(q), events).0)
    decreases |events|
  {
    if events == [] {
      InitInv(q);
    } else {
      RunKeepsInv(q, events[..|events| - 1]);
      StepKeepsInv(Run(Init(q), events[..|events| - 1]).0, events[|events| - 1]);
    }
  }

  /** Descriptor d is the second one of some chain. */
  ghost predicate IsSecond(inflight: map<nat, Chain>, d: nat) {
    exists h :: h in inflight && inflight[h].second == d
  }

  /** The seconds of all chains, as a set of the same size as the chains. */
  lemma {:induction false} SecondsCount(inflight: map<nat, Chain>) returns (seconds: set<nat>)
    requires forall h <- inflight, k <- inflight :: inflight[h].second == inflight[k].second ==> h == k
    ensures |seconds| == |inflight|
    ensures forall d: nat :: d in seconds <==> IsSecond(inflight, d)
    decreases |inflight|
  {
    if inflight == map[] {
      seconds := {};
    } else {
      var h :| h in inflight;
      var rest := inflight - {h};
      assert rest.Keys == inflight.Keys - {h};
      assert |rest.Keys| == |inflight.Keys| - 1;
      var s := SecondsCount(rest);
      seconds := s + {inflight[h].second};
      forall d: nat ensures d in seconds <==> IsSecond(inflight, d) {
        if d in s {
          var k :| k in rest && rest[k].second == d;
          assert k in inflight && inflight[k].second == d;
        }
        if IsSecond(inflight, d) {
          var k :| k in inflight && inflight[k].second == d;
          assert k == h || (k in rest && rest[k].second == d);
        }
      }
    }
  }

  ghost function Elements(s: seq<nat>): set<nat> {
    set d | d in s
  }

  lemma {:induction false} DistinctSize(s: seq<nat>)
    requires Distinct(s)
    ensures |Elements(s)| == |s|
  {
    if s == [] {
      assert Elements(s) == {};
    } else {
      var init, last := s[..|s| - 1], s[|s| - 1];
      DistinctSize(init);
      assert s == init + [last];
      assert last !in Elements(init);
      assert Elements(s) == Elements(init) + {last};
    }
  }

  lemma {:induction false} FullSubset(a: set<nat>, n: nat)
    requires forall x <- a :: x < n
    ensures |a| <= n
    ensures |a| == n ==> forall x: nat | x < n :: x in a
  {
    if n > 0 {
      FullSubset(a - {n - 1}, n - 1);
      assert a - {n - 1} == a || |a - {n - 1}| == |a| - 1;
    }
  }

  lemma SecondIsOutside(s: Ring, d: nat)
    requires Partitioned(s) && IsSecond(s.inflight, d)
    ensures d < s.q && d !in s.free && d !in s.inflight
  {
    var h :| h in s.inflight && s.inflight[h].second == d;
    assert Second(s, h) == d;
  }

  /** The three disjoint parts hold q descriptors, so they hold them all. */
  lemma PartitionCovers(s: Ring, d: nat)
    requires Partitioned(s) && d < s.q
    ensures d in s.free || d in s.inflight || IsSecond(s.inflight, d)
  {
    assert forall h <- s.inflight :: Second(s, h) == s.inflight[h].second;
    var seconds := SecondsCount(s.inflight);
    DistinctSize(s.free);
    forall x | x in seconds ensures x < s.q && x !in s.free && x !in s.inflight {
      SecondIsOutside(s, x);
    }
    ThreeParts(Elements(s.free), s.inflight.Keys, seconds, s.q, d);
  }

  lemma ThreeParts(a: set<nat>, b: set<nat>, c: set<nat>, n: nat, d: nat)
    requires forall x <- a :: x < n && x !in b
    requires forall x <- b :: x < n
    requires forall x <- c :: x < n && x !in a && x !in b
    requires |a| + |b| + |c| == n
    requires d < n
    ensures d in a || d in b || d in c
  {
    assert a !! b;
    assert |a + b| == |a| + |b|;
    assert a + b !! c;
    assert |a + b + c| == n;
    FullSubset(a + b + c, n);
  }

  /** Main result: in every state reachable by any interleaving of driver and device,
      each of the q descriptors is a free-list entry, the first or the second
      descriptor of a chain, and only one of these; none is lost. */
  lemma ReachablePartition(q: nat, events: seq<Event>, d: nat)
    requires d < q
    ensures var s := Run(Init(q), events).0;
            && |s.free| + 2 * |s.inflight| == q
            && Distinct(s.free)
            && (d in s.free || d in s.inflight || IsSecond(s.inflight, d))
            && !(d in s.free && d in s.inflight)
            && (IsSecond(s.inflight, d) ==> d !in s.free && d !in s.inflight)
            && forall h <- s.inflight, k <- s.inflight :: s.inflight[h].second == s.inflight[k].second ==> h == k
  {
    var s := Run(Init(q), events).0;
    RunKeepsInv(q, events);
    QueueSizeFixed(q, events);
    PartitionCovers(s, d);
    assert forall h <- s.inflight :: Second(s, h) == s.inflight[h].second;
  }

  lemma {:induction false} QueueSizeFixed(q: nat, events: seq<Event>)
    ensures Run(Init(q), events).0.q == q
    decreases |events|
  {
    if events != [] { QueueSizeFixed(q, events[..|events| - 1]); }
  }

  /** The completions the driver collected, in the order GetBuf returned them. */
  function Collected(outs: seq<Outcome>): seq<UsedElem> {
    if outs == [] then []
    else
      var last, before := outs[|outs| - 1], Collected(outs[..|outs| - 1]);
      if last.GetRc? && last.rc >= 0 then before + [UsedElem(last.rc, last.len)] else before
  }

  /** The completions the device made, in the order it made them. */
  function Made(outs: seq<Outcome>): seq<UsedElem> {
    if outs == [] then []
    else
      var last, before := outs[|outs| - 1], Made(outs[..|outs| - 1]);
      if last.Returned? then before + [last.elem] else before
  }

  /** The heads the driver published, in order. */
  function Published(outs: seq<Outcome>): seq<nat> {
    if outs == [] then []
    else
      var last, before := outs[|outs| - 1], Published(outs[..|outs| - 1]);
      if last.AddRc? && last.rc >= 0 then before + [last.rc] else before
  }

  /** The heads the device took, in order. */
  function Taken(outs: seq<Outcome>): seq<nat> {
    if outs == [] then []
    else
      var last, before := outs[|outs| - 1], Taken(outs[..|outs| - 1]);
      if last.Took? then before + [last.head] else before
  }

  lemma TraceSnoc(outs: seq<Outcome>, out: Outcome)
    ensures Collected(outs + [out]) ==
            if out.GetRc? && out.rc >= 0 then Collected(outs) + [UsedElem(out.rc, out.len)]
            else Collected(outs)
    ensures Made(outs + [out]) == if out.Returned? then Made(outs) + [out.elem] else Made(outs)
    ensures Published(outs + [out]) == if out.AddRc? && out.rc >= 0 then Published(outs) + [out.rc] else Published(outs)
    ensures Taken(outs + [out]) == if out.Took? then Taken(outs) + [out.head] else Taken(outs)
  {
    assert (outs + [out])[..|outs|] == outs;
  }

  /** What the logs and the queues of a run say about each other. */
  ghost predicate Logged(s: Ring, outs: seq<Outcome>) {
    && Collected(outs) + s.done == Made(outs)
    && Taken(outs) + s.waiting == Published(outs)
    && s.completed == |Made(outs)|
    && s.published == |Published(outs)|
  }

  lemma Requeue<T>(log: seq<T>, queue: seq<T>)
    requires queue != []
    ensures log + queue == (log + [queue[0]]) + queue[1..]
  {}

  lemma Extend<T>(log: seq<T>, queue: seq<T>, x: T)
    ensures log + queue + [x] == log + (queue + [x])
  {}

  lemma StepKeepsLogs(s: Ring, outs: seq<Outcome>, e: Event)
    requires Logged(s, outs)
    requires s.waiting != [] ==> s.waiting[0] in s.inflight
    requires s.done != [] ==> s.done[0].id in s.inflight
    ensures Logged(Step(s, e).0, outs + [Step(s, e).1])
  {
    var (t, out) := Step(s, e);
    TraceSnoc(outs, out);
    match e
    case Add(_, _, _, _) =>
      if |s.free| >= 2 { Extend(Taken(outs), s.waiting, s.free[0]); }
    case Take =>
      if s.waiting != [] { Requeue(Taken(outs), s.waiting); }
    case Stage(_, _) =>
    case Publish =>
      if s.staged.Some? { Extend(Collected(outs), s.done, s.staged.value); }
    case Get =>
      if s.done != [] { Requeue(Collected(outs), s.done); }
  }

  /** Main result: over a whole run the driver collects the device's completions
      exactly once and in the device's order, and the device takes heads exactly once
      and in the driver's order; what is missing is exactly what is still queued. */
  lemma {:induction false} FirstInFirstOut(q: nat, events: seq<Event>)
    ensures var (s, outs) := Run(Init(q), events);
            && |outs| == |events|
            && Collected(outs) + s.done == Made(outs)
            && Taken(outs) + s.waiting == Published(outs)
            && s.completed == |Made(outs)| && s.published == |Published(outs)|
    decreases |events|
  {
    if events != [] {
      var pre, e := events[..|events| - 1], events[|events| - 1];
      FirstInFirstOut(q, pre);
      RunKeepsInv(q, pre);
      var (t, outs) := Run(Init(q), pre);
      StagesBounded(t);
      StepKeepsLogs(t, outs, e);
    }
  }

  /** GetBuf reports "nothing" exactly when the driver has already collected
      everything the device completed so far. */
  lemma GetEmptyIffAllCollected(q: nat, events: seq<Event>)
    ensures var (s, outs) := Run(Init(q), events);
            Step(s, Get).1 == GetRc(-1, 0) <==> Collected(outs) == Made(outs)
  {
    FirstInFirstOut(q, events);
    RunKeepsInv(q, events);
    var s := Run(Init(q), events).0;
    StagesBounded(s);
  }

  /** Each published head comes back once: head h was published as often as it was
      collected, plus once if it is in flight now. */
  lemma {:induction false} HeadsConserved(q: nat, events: seq<Event>, h: nat)
    ensures var (s, outs) := Run(Init(q), events);
            Count(Published(outs), h) == CountElems(Collected(outs), h) + if h in s.inflight then 1 else 0
    decreases |events|
  {
    if events != [] {
      var pre, e := events[..|events| - 1], events[|events| - 1];
      HeadsConserved(q, pre, h);
      RunKeepsInv(q, pre);
      var (t, outs) := Run(Init(q), pre);
      StagesBounded(t);
      assert t.free != [] ==> t.free[0] in t.free;
      StepConservesHeads(t, outs, e, h);
    }
  }

  lemma StepConservesHeads(s: Ring, outs: seq<Outcome>, e: Event, h: nat)
    requires Count(Published(outs), h) == CountElems(Collected(outs), h) + if h in s.inflight then 1 else 0
    requires s.free != [] ==> s.free[0] !in s.inflight
    ensures var (t, out) := Step(s, e);
            Count(Published(outs + [out]), h) ==
            CountElems(Collected(outs + [out]), h) + if h in t.inflight then 1 else 0
  {
    var (t, out) := Step(s, e);
    TraceSnoc(outs, out);
    hide Published, Collected, Count, CountElems;
    if e.Add? && |s.free| >= 2 {
      CountSnoc(Published(outs), s.free[0], h);
    } else if e.Get? && s.done != [] {
      CountElemsSnoc(Collected(outs), s.done[0], h);
    }
  }
}
