/**
  The driver's half of a split virtqueue (section 2.4 of Virtio 1.0) in the memory it
  shares with the device, and a conforming device as a second process.
  `Virtqueue.Valid` ties the arrays, the threaded free list and the wrapping 16-bit
  indices to the abstract `Ring`; every method takes exactly one `Ring` step.
 */
module Virtqueues {
  import opened Types
  import opened Alignment
  import opened RingSpec

  const FLAG_NEXT: bv16 := 1
  const FLAG_WRITE: bv16 := 2

  datatype VringDesc = VringDesc(addr: u64, len: u32, flags: bv16, next: nat)

  // ------------------------------------------------ index arithmetic

  /** i places after slot s in a ring of q slots, going round. */
  function Around(s: nat, i: nat, q: nat): nat
    requires s < q && i <= q
  {
    if s + i < q then s + i else s + i - q
  }

  /** Where the k-th element of an endless sequence lives in a ring of q slots. */
  function Slot(k: nat, q: nat): (s: nat)
    requires q > 0
    ensures s < q
  {
    if k == 0 then 0 else Around(Slot(k - 1, q), 1, q)
  }

  /** Adding n <= q to a counter moves its slot n places round. */
  lemma {:induction false} SlotAdvance(k: nat, n: nat, q: nat)
    requires q > 0 && n <= q
    ensures Slot(k + n, q) == Around(Slot(k, q), n, q)
    decreases n
  {
    if n > 0 { SlotAdvance(k, n - 1, q); }
  }

  lemma {:induction false} SlotIsRemainder(k: nat, q: nat)
    requires q > 0
    ensures Slot(k, q) == k % q
  {
    if k > 0 {
      SlotIsRemainder(k - 1, q);
      var d, m := (k - 1) / q, (k - 1) % q;
      if m + 1 < q { DivModUnique(k, q, d, m + 1); } else { DivModUnique(k, q, d + 1, 0); }
    } else {
      DivModUnique(0, q, 0, 0);
    }
  }

  /** The 16-bit index finds the k-th element's slot, before and after it wraps. */
  lemma WrappedSlot(k: nat, q: nat)
    requires q > 0 && 0x1_0000 % q == 0
    ensures (k % 0x1_0000) % q == Slot(k, q)
  {
    var m, a, r := 0x1_0000 / q, k / 0x1_0000, k % 0x1_0000;
    assert q * (m * a) == (q * m) * a == 0x1_0000 * a;
    assert k == q * (m * a + r / q) + r % q;
    DivModUnique(k, q, m * a + r / q, r % q);
    SlotIsRemainder(k, q);
  }

  /** It does so for every k exactly when the queue size divides 65536, as every
      power of two up to it does. */
  lemma WrapKeepsSlotIff(q: nat)
    requires q > 0
    ensures (forall k: nat :: (k % 0x1_0000) % q == Slot(k, q)) <==> 0x1_0000 % q == 0
  {
    if 0x1_0000 % q == 0 {
      forall k: nat ensures (k % 0x1_0000) % q == Slot(k, q) { WrappedSlot(k, q); }
    } else {
      SlotIsRemainder(0x1_0000, q);
      DivModUnique(0, q, 0, 0);
      assert (0x1_0000 % 0x1_0000) % q != Slot(0x1_0000, q);
    }
  }

  /** The queue w occupies consecutive slots of a ring, starting at slot s. */
  ghost predicate Window<T>(ring: seq<T>, s: nat, w: seq<T>) {
    && |w| <= |ring| && (w != [] ==> s < |ring|)
    && forall i :: 0 <= i < |w| ==> ring[Around(s, i, |ring|)] == w[i]
  }

  lemma WindowPush<T>(ring: seq<T>, s: nat, w: seq<T>, x: T)
    requires Window(ring, s, w) && |w| < |ring| && s < |ring|
    ensures Window(ring[Around(s, |w|, |ring|) := x], s, w + [x])
    ensures Window(ring[Around(s, |w|, |ring|) := x], s, w)
  {}

  lemma WindowPop<T>(ring: seq<T>, s: nat, w: seq<T>)
    requires Window(ring, s, w) && w != []
    ensures ring[s] == w[0] && Window(ring, Around(s, 1, |ring|), w[1..])
  {
    assert ring[Around(s, 0, |ring|)] == w[0];
    var s' := Around(s, 1, |ring|);
    forall i | 0 <= i < |w| - 1 ensures ring[Around(s', i, |ring|)] == w[1..][i] {
      assert Around(s', i, |ring|) == Around(s, i + 1, |ring|);
    }
  }

  // ------------------------------------------------ memory against the abstract ring

  /** The queue sizes section 2.4 of Virtio 1.0 allows: powers of two up to 32768. */
  predicate QueueSize(q: nat) {
    q < 0x1_0000 && PowerOfTwo(q)
  }

  /** The C expressions `idx % queue_size` and `idx + 1`, for the 16-bit index behind counter k. */
  lemma NextSlot(k: nat, idx: nat, q: nat) returns (slot: nat)
    requires QueueSize(q) && idx == k % 0x1_0000
    ensures q > 0 && slot == Slot(k, q) && idx % q == slot
    ensures (idx + 1) % 0x1_0000 == (k + 1) % 0x1_0000
  {
    slot := Slot(k, q);
    assert PowerOfTwo(0x1_0000);
    PowerDivides(q, 0x1_0000);
    WrappedSlot(k, q);
  }

  /** The free list: `numFree` descriptors linked from `freeHead`.  Nothing is said of
      the last one's `next`, which may be out of range and is never followed. */
  ghost predicate FreeList(desc: seq<VringDesc>, r: Ring, freeHead: nat, numFree: nat) {
    && |desc| == r.q
    && numFree == |r.free|
    && (r.free != [] ==> freeHead == r.free[0])
    && (forall i :: 0 <= i < |r.free| ==> r.free[i] < |desc|)
    && forall i, j :: 0 <= i < |r.free| && j == i + 1 && j < |r.free| ==> desc[r.free[i]].next == r.free[j]
  }

  ghost predicate ChainAt(desc: seq<VringDesc>, h: nat, c: Chain) {
    && h < |desc| && c.second < |desc|
    && desc[h] == VringDesc(c.outAddr, c.outLen, FLAG_NEXT, c.second)
    && desc[c.second].addr == c.inAddr && desc[c.second].len == c.inLen && desc[c.second].flags == FLAG_WRITE
  }

  /** Every in-flight chain still holds what AddBuf posted. */
  ghost predicate Chains(desc: seq<VringDesc>, r: Ring) {
    forall h <- r.inflight :: ChainAt(desc, h, r.inflight[h])
  }

  /** Unconsumed published heads sit in their slots of the available ring. */
  ghost predicate AvailRing(avail: seq<nat>, r: Ring) {
    && r.q > 0 && |avail| == 2 + r.q
    && avail[1] == r.published % 0x1_0000
    && |r.waiting| <= r.published
    && Window(avail[2..], Slot(r.published - |r.waiting|, r.q), r.waiting)
  }

  /** Uncollected completions, and the staged one, sit in their slots of the used ring. */
  ghost predicate UsedRing(used: seq<UsedElem>, r: Ring, usedIdx: nat, lastUsedIdx: nat) {
    && r.q > 0 && |used| == r.q
    && usedIdx == r.completed % 0x1_0000
    && |r.done| <= r.completed
    && lastUsedIdx == (r.completed - |r.done|) % 0x1_0000
    && Window(used, Slot(r.completed - |r.done|, r.q), r.done)
    && (r.staged.Some? ==> used[Slot(r.completed, r.q)] == r.staged.value)
  }

  // The descriptor table after AddBuf and after GetBuf.

  function AfterAdd(desc: seq<VringDesc>, head: nat, second: nat, e: Event): seq<VringDesc>
    requires e.Add? && head < |desc| && second < |desc|
  {
    desc[head := VringDesc(e.outAddr, e.outLen, FLAG_NEXT, second)]
        [second := desc[second].(addr := e.inAddr, len := e.inLen, flags := FLAG_WRITE)]
  }

  function AfterGet(desc: seq<VringDesc>, head: nat, second: nat, freeHead: nat): seq<VringDesc>
    requires head < |desc| && second < |desc|
  {
    desc[head := desc[head].(next := freeHead)][second := desc[second].(next := head)]
  }

  lemma AddKeepsFreeList(desc: seq<VringDesc>, r: Ring, freeHead: nat, numFree: nat, e: Event)
    requires Distinct(r.free) && FreeList(desc, r, freeHead, numFree) && e.Add? && |r.free| >= 2
    ensures r.free[0] < r.q && r.free[1] < r.q && r.free[0] != r.free[1] && desc[r.free[0]].next == r.free[1]
    ensures FreeList(AfterAdd(desc, r.free[0], r.free[1], e), Step(r, e).0, desc[r.free[1]].next, numFree - 2)
  {
    assert r.free[0] in r.free && r.free[1] in r.free;
    var t := Step(r, e).0;
    forall i | 0 <= i < |t.free|
      ensures t.free[i] == r.free[i + 2] && t.free[i] != r.free[0] && t.free[i] != r.free[1] && t.free[i] < r.q
    {
      assert r.free[i + 2] in r.free;
    }
    if |t.free| > 0 {
      assert desc[r.free[1]].next == r.free[2];
    }
  }

  lemma AddKeepsChains(desc: seq<VringDesc>, r: Ring, e: Event)
    requires Inv(r) && Chains(desc, r) && |desc| == r.q && e.Add? && |r.free| >= 2
    requires r.free[0] < r.q && r.free[1] < r.q
    ensures Chains(AfterAdd(desc, r.free[0], r.free[1], e), Step(r, e).0)
  {
    var head, second := r.free[0], r.free[1];
    assert head in r.free && second in r.free;
    assert head != second;
    forall h | h in r.inflight
      ensures ChainAt(desc, h, r.inflight[h])
      ensures h != head && h != second && r.inflight[h].second != head && r.inflight[h].second != second
    {
      assert Second(r, h) == r.inflight[h].second;
    }
  }

  lemma AddKeepsAvail(avail: seq<nat>, r: Ring, e: Event)
    requires AvailRing(avail, r) && |r.waiting| < r.q && e.Add? && |r.free| >= 2
    ensures var slot := Slot(r.published, r.q);
            AvailRing(avail[2 + slot := r.free[0]][1 := (r.published + 1) % 0x1_0000], Step(r, e).0)
  {
    hide Slot, Window, Around;
    var start, slot := Slot(r.published - |r.waiting|, r.q), Slot(r.published, r.q);
    SlotAdvance(r.published - |r.waiting|, |r.waiting|, r.q);
    WindowPush(avail[2..], start, r.waiting, r.free[0]);
    assert avail[2 + slot := r.free[0]][1 := (r.published + 1) % 0x1_0000][2..] == avail[2..][slot := r.free[0]];
  }

  lemma GetKeepsFreeList(desc: seq<VringDesc>, r: Ring, freeHead: nat, numFree: nat, head: nat)
    requires FreeList(desc, r, freeHead, numFree)
    requires r.done != [] && head == r.done[0].id && head in r.inflight && head < r.q && head !in r.free
    requires r.inflight[head].second < r.q && r.inflight[head].second !in r.free && r.inflight[head].second != head
    ensures var second := r.inflight[head].second;
            FreeList(AfterGet(desc, head, second, freeHead), Step(r, Get).0, second, numFree + 2)
  {
    var second := r.inflight[head].second;
    assert Step(r, Get).0.free == [second, head] + r.free && Step(r, Get).0.q == r.q;
    hide Step;
    PushFree(desc, r.free, freeHead, head, second);
  }

  /** Putting two descriptors in front of a linked list, as the loop of GetBuf does. */
  lemma PushFree(desc: seq<VringDesc>, free: seq<nat>, freeHead: nat, head: nat, second: nat)
    requires head < |desc| && second < |desc| && head != second && head !in free && second !in free
    requires free != [] ==> freeHead == free[0]
    requires forall i :: 0 <= i < |free| ==> free[i] < |desc|
    requires forall i, j :: 0 <= i < |free| && j == i + 1 && j < |free| ==> desc[free[i]].next == free[j]
    ensures var d, f := AfterGet(desc, head, second, freeHead), [second, head] + free;
            && (forall i :: 0 <= i < |f| ==> f[i] < |d|)
            && forall i, j :: 0 <= i < |f| && j == i + 1 && j < |f| ==> d[f[i]].next == f[j]
  {
    var d, f := AfterGet(desc, head, second, freeHead), [second, head] + free;
    forall i, j | 0 <= i < |f| && j == i + 1 && j < |f|
      ensures d[f[i]].next == f[j]
    {
      if i >= 2 {
        assert free[i - 2] in free;
        assert f[i] == free[i - 2] && f[j] == free[j - 2];
      }
    }
  }

  /** The head GetBuf is about to free, seen through the invariant. */
  lemma DoneHead(r: Ring)
    requires Inv(r) && r.done != []
    ensures var head := r.done[0].id;
            && head in r.inflight && head < r.q && head !in r.free
            && r.inflight[head].second < r.q && r.inflight[head].second !in r.free && r.inflight[head].second != head
  {
    StagesBounded(r);
    assert r.done[0] in r.done;
    assert Second(r, r.done[0].id) == r.inflight[r.done[0].id].second;
  }

  lemma GetKeepsChains(desc: seq<VringDesc>, r: Ring, freeHead: nat, head: nat)
    requires Inv(r) && Chains(desc, r) && |desc| == r.q
    requires r.done != [] && head == r.done[0].id && head in r.inflight && head < r.q && r.inflight[head].second < r.q
    ensures Chains(AfterGet(desc, head, r.inflight[head].second, freeHead), Step(r, Get).0)
  {
    var second := r.inflight[head].second;
    assert Second(r, head) == second;
    forall h | h in r.inflight && h != head
      ensures ChainAt(desc, h, r.inflight[h])
      ensures h != second && r.inflight[h].second != head && r.inflight[h].second != second
    {
      assert Second(r, h) == r.inflight[h].second;
    }
  }

  /** Unequal indices mean a nonempty queue: the difference never reaches 65536. */
  lemma IndicesTell(count: nat, behind: nat, idx: nat, lastIdx: nat)
    requires behind <= count && behind < 0x1_0000
    requires idx == count % 0x1_0000 && lastIdx == (count - behind) % 0x1_0000
    ensures idx == lastIdx <==> behind == 0
    ensures behind > 0 ==> (lastIdx + 1) % 0x1_0000 == (count - (behind - 1)) % 0x1_0000
  {}

  lemma NextIndex(k: nat, idx: nat)
    requires idx == k % 0x1_0000
    ensures (idx + 1) % 0x1_0000 == (k + 1) % 0x1_0000
  {}

  lemma GetKeepsUsed(used: seq<UsedElem>, r: Ring, usedIdx: nat, lastUsedIdx: nat)
    requires UsedRing(used, r, usedIdx, lastUsedIdx)
    requires r.done != [] && r.done[0].id in r.inflight
    ensures used[Slot(r.completed - |r.done|, r.q)] == r.done[0]
    ensures UsedRing(used, Step(r, Get).0, usedIdx, (lastUsedIdx + 1) % 0x1_0000)
  {
    var base := r.completed - |r.done|;
    hide Window, Slot, Around;
    SlotAdvance(base, 1, r.q);
    WindowPop(used, Slot(base, r.q), r.done);
    NextIndex(base, lastUsedIdx);
  }

  lemma AddKeepsUsed(used: seq<UsedElem>, r: Ring, usedIdx: nat, lastUsedIdx: nat, e: Event)
    requires UsedRing(used, r, usedIdx, lastUsedIdx) && e.Add?
    ensures UsedRing(used, Step(r, e).0, usedIdx, lastUsedIdx)
  {}

  lemma GetKeepsAvail(avail: seq<nat>, r: Ring)
    requires AvailRing(avail, r)
    ensures AvailRing(avail, Step(r, Get).0)
  {}

  /** Everything the driver and the device can see. */
  datatype Memory = Memory(
    desc: seq<VringDesc>, avail: seq<nat>, used: seq<UsedElem>,
    freeHead: nat, numFree: nat, lastUsedIdx: nat, usedIdx: nat)

  /** Memory m represents the abstract ring r. */
  ghost predicate Rep(m: Memory, r: Ring) {
    && QueueSize(r.q) && Inv(r)
    && FreeList(m.desc, r, m.freeHead, m.numFree)
    && Chains(m.desc, r)
    && AvailRing(m.avail, r)
    && UsedRing(m.used, r, m.usedIdx, m.lastUsedIdx)
  }

  lemma StepKeepsSize(r: Ring, e: Event)
    ensures Step(r, e).0.q == r.q
  {}

  lemma RepOf(m: Memory, r: Ring)
    requires QueueSize(r.q) && Inv(r)
    requires FreeList(m.desc, r, m.freeHead, m.numFree) && Chains(m.desc, r)
    requires AvailRing(m.avail, r) && UsedRing(m.used, r, m.usedIdx, m.lastUsedIdx)
    ensures Rep(m, r)
  {}

  lemma RepParts(m: Memory, r: Ring)
    requires Rep(m, r)
    ensures QueueSize(r.q) && Inv(r)
    ensures FreeList(m.desc, r, m.freeHead, m.numFree) && Chains(m.desc, r)
    ensures AvailRing(m.avail, r) && UsedRing(m.used, r, m.usedIdx, m.lastUsedIdx)
  {}

  lemma ReadFreeList(m: Memory, r: Ring)
    requires Rep(m, r)
    ensures m.numFree == |r.free| && r.q > 0
    ensures |r.free| >= 2 ==>
              && m.freeHead == r.free[0] < |m.desc| && r.free[1] < |m.desc| && r.free[0] != r.free[1]
              && m.desc[r.free[0]].next == r.free[1]
    ensures |m.desc| == r.q && |m.avail| == 2 + r.q && m.avail[1] == r.published % 0x1_0000
    ensures |r.waiting| < r.q && Distinct(r.free)
  {
    hide Chains, Window;
    StagesBounded(r);
    assert forall i, j :: 0 <= i < |r.free| && j == i + 1 && j < |r.free| ==> m.desc[r.free[i]].next == r.free[j];
  }

  lemma AddKeepsRep(m: Memory, r: Ring, e: Event, slot: nat, m': Memory)
    requires Rep(m, r) && e.Add? && |r.free| >= 2
    requires r.q > 0 && slot == m.avail[1] % r.q
    requires r.free[0] < |m.desc| && r.free[1] < |m.desc| && 2 + slot < |m.avail|
    requires m' == m.(desc := AfterAdd(m.desc, r.free[0], r.free[1], e),
                      freeHead := m.desc[r.free[1]].next,
                      numFree := m.numFree - 2,
                      avail := m.avail[2 + slot := r.free[0]][1 := (m.avail[1] + 1) % 0x1_0000])
    ensures Rep(m', Step(r, e).0)
  {
    hide *;
    RepParts(m, r);
    ReadFreeList(m, r);
    var next := NextSlot(r.published, m.avail[1], r.q);
    StepKeepsInv(r, e);
    AddKeepsFreeList(m.desc, r, m.freeHead, m.numFree, e);
    AddKeepsChains(m.desc, r, e);
    AddKeepsAvail(m.avail, r, e);
    AddKeepsUsed(m.used, r, m.usedIdx, m.lastUsedIdx, e);
    assert Step(r, e).0.q == r.q by { StepKeepsSize(r, e); }
    RepOf(m', Step(r, e).0);
  }

  lemma ReadUsedRing(m: Memory, r: Ring)
    requires Rep(m, r)
    ensures m.lastUsedIdx == m.usedIdx <==> r.done == []
    ensures |m.desc| == |m.used| == r.q && r.q > 0
    ensures m.lastUsedIdx == (r.completed - |r.done|) % 0x1_0000 && |r.done| <= r.completed
    ensures r.done != [] ==>
              && m.lastUsedIdx % r.q < |m.used| && m.used[m.lastUsedIdx % r.q] == r.done[0]
              && r.done[0].id in r.inflight
              && ChainAt(m.desc, r.done[0].id, r.inflight[r.done[0].id])
              && r.inflight[r.done[0].id].second != r.done[0].id
  {
    StagesBounded(r);
    IndicesTell(r.completed, |r.done|, m.usedIdx, m.lastUsedIdx);
    if r.done != [] {
      var slot := NextSlot(r.completed - |r.done|, m.lastUsedIdx, r.q);
      DoneHead(r);
      GetKeepsUsed(m.used, r, m.usedIdx, m.lastUsedIdx);
    }
  }

  lemma GetKeepsRep(m: Memory, r: Ring, head: nat, second: nat, m': Memory)
    requires Rep(m, r) && r.done != []
    requires head == r.done[0].id && head in r.inflight && second == r.inflight[head].second
    requires head < |m.desc| && second < |m.desc|
    requires m' == m.(desc := AfterGet(m.desc, head, second, m.freeHead), freeHead := second,
                      numFree := m.numFree + 2, lastUsedIdx := (m.lastUsedIdx + 1) % 0x1_0000)
    ensures Rep(m', Step(r, Get).0)
  {
    hide *;
    RepParts(m, r);
    ReadUsedRing(m, r);
    DoneHead(r);
    StepKeepsInv(r, Get);
    GetKeepsFreeList(m.desc, r, m.freeHead, m.numFree, head);
    GetKeepsChains(m.desc, r, m.freeHead, head);
    GetKeepsUsed(m.used, r, m.usedIdx, m.lastUsedIdx);
    GetKeepsAvail(m.avail, r);
    assert Step(r, Get).0.q == r.q by { StepKeepsSize(r, Get); }
    RepOf(m', Step(r, Get).0);
  }

  /** The next head the device will take, read through the wrapping index. */
  lemma ReadAvailRing(m: Memory, r: Ring, lastAvailIdx: nat)
    requires Rep(m, r) && lastAvailIdx == (r.published - |r.waiting|) % 0x1_0000
    ensures lastAvailIdx == m.avail[1] <==> r.waiting == []
    ensures |m.desc| == r.q && |m.avail| == 2 + r.q && r.q > 0
    ensures r.waiting != [] ==>
              && lastAvailIdx % r.q < r.q && m.avail[2 + lastAvailIdx % r.q] == r.waiting[0]
              && r.waiting[0] in r.inflight
              && ChainAt(m.desc, r.waiting[0], r.inflight[r.waiting[0]])
  {
    hide *;
    RepParts(m, r);
    StagesBounded(r);
    ReadFreeList(m, r);
    AvailFront(m.avail, r, lastAvailIdx);
    if r.waiting != [] {
      assert r.waiting[0] in r.waiting;
      ChainOf(m.desc, r, r.waiting[0]);
    }
  }

  /** What taking that head from memory does to the abstract ring. */
  lemma TakeStep(m: Memory, r: Ring, idx: nat)
    requires Rep(m, r) && |r.waiting| <= r.published && idx == (r.published - |r.waiting|) % 0x1_0000
    ensures Rep(m, Step(r, Take).0)
    ensures |m.desc| == r.q && |m.avail| == 2 + r.q && r.q > 0 && (idx == m.avail[1] <==> r.waiting == [])
    ensures r.waiting == [] ==> Step(r, Take) == (r, Stutter)
    ensures r.waiting != [] ==>
              && idx % r.q < r.q && m.avail[2 + idx % r.q] < |m.desc|
              && var head := m.avail[2 + idx % r.q];
              && m.desc[head].next < |m.desc|
              && var second := m.desc[head].next;
              && m.desc[head].flags == 1 && m.desc[second].flags == 2
              && var t := Step(r, Take).0;
              && Step(r, Take).1 ==
                 Took(head, Chain(second, m.desc[head].addr, m.desc[head].len, m.desc[second].addr, m.desc[second].len))
              && t.q == r.q && t.held == r.held + {head} && t.staged == r.staged
              && |t.waiting| <= t.published && (idx + 1) % 0x1_0000 == (t.published - |t.waiting|) % 0x1_0000
  {
    hide Rep;
    ReadAvailRing(m, r, idx);
    TakeKeepsRep(m, r);
  }

  lemma AvailFront(avail: seq<nat>, r: Ring, lastAvailIdx: nat)
    requires QueueSize(r.q) && AvailRing(avail, r) && |r.waiting| < r.q
    requires lastAvailIdx == (r.published - |r.waiting|) % 0x1_0000
    ensures lastAvailIdx == avail[1] <==> r.waiting == []
    ensures r.waiting != [] ==> lastAvailIdx % r.q < r.q && avail[2 + lastAvailIdx % r.q] == r.waiting[0]
  {
    hide PowerOfTwo, Window, Slot, Around;
    IndicesTell(r.published, |r.waiting|, avail[1], lastAvailIdx);
    if r.waiting != [] {
      var base := r.published - |r.waiting|;
      var slot := NextSlot(base, lastAvailIdx, r.q);
      WindowPop(avail[2..], slot, r.waiting);
      assert avail[2..][slot] == avail[2 + slot];
    }
  }

  lemma ChainOf(desc: seq<VringDesc>, r: Ring, h: nat)
    requires Chains(desc, r) && h in r.inflight
    ensures ChainAt(desc, h, r.inflight[h])
  {}

  lemma TakeKeepsRep(m: Memory, r: Ring)
    requires Rep(m, r)
    ensures Rep(m, Step(r, Take).0)
  {
    hide *;
    RepParts(m, r);
    StepKeepsInv(r, Take);
    DeviceKeepsTable(m.desc, r, Take, m.freeHead, m.numFree);
    TakeKeepsRings(m.avail, m.used, r, m.usedIdx, m.lastUsedIdx);
    assert Step(r, Take).0.q == r.q by { StepKeepsSize(r, Take); }
    RepOf(m, Step(r, Take).0);
  }

  lemma DeviceKeepsTable(desc: seq<VringDesc>, r: Ring, e: Event, freeHead: nat, numFree: nat)
    requires FreeList(desc, r, freeHead, numFree) && Chains(desc, r) && !e.Add? && !e.Get?
    ensures FreeList(desc, Step(r, e).0, freeHead, numFree) && Chains(desc, Step(r, e).0)
  {
    var t := Step(r, e).0;
    assert t.free == r.free && t.inflight == r.inflight && t.q == r.q;
  }

  lemma TakeKeepsRings(avail: seq<nat>, used: seq<UsedElem>, r: Ring, usedIdx: nat, lastUsedIdx: nat)
    requires AvailRing(avail, r) && UsedRing(used, r, usedIdx, lastUsedIdx)
    ensures AvailRing(avail, Step(r, Take).0) && UsedRing(used, Step(r, Take).0, usedIdx, lastUsedIdx)
  {
    hide Window, Slot;
    if r.waiting != [] {
      var base := r.published - |r.waiting|;
      assert Slot(base, r.q) < r.q;
      assert Slot(base + 1, r.q) == Around(Slot(base, r.q), 1, r.q) by { SlotAdvance(base, 1, r.q); }
      WindowPop(avail[2..], Slot(base, r.q), r.waiting);
    }
  }

  /** Writing the next used element overwrites no uncollected one. */
  lemma StageKeepsRep(m: Memory, r: Ring, e: Event, m': Memory)
    requires Rep(m, r) && e.Stage? && e.head in r.held
    requires |m.used| == r.q && r.q > 0
    requires m' == m.(used := m.used[m.usedIdx % r.q := UsedElem(e.head, e.len)])
    ensures Rep(m', Step(r, e).0)
  {
    hide *;
    RepParts(m, r);
    StepKeepsInv(r, e);
    DeviceKeepsTable(m.desc, r, e, m.freeHead, m.numFree);
    ReadUsedIdx(m, r);
    StageKeepsRings(m.avail, m.used, r, m.usedIdx, m.lastUsedIdx, e);
    assert Step(r, e).0.q == r.q by { StepKeepsSize(r, e); }
    RepOf(m', Step(r, e).0);
  }

  lemma ReadUsedIdx(m: Memory, r: Ring)
    requires Rep(m, r)
    ensures |m.used| == r.q && r.q > 0
    ensures m.usedIdx == r.completed % 0x1_0000 && m.usedIdx % r.q == Slot(r.completed, r.q)
    ensures (m.usedIdx + 1) % 0x1_0000 == (r.completed + 1) % 0x1_0000
    ensures |r.done| < r.q
  {
    StagesBounded(r);
    var slot := NextSlot(r.completed, m.usedIdx, r.q);
  }

  lemma StageKeepsRings(avail: seq<nat>, used: seq<UsedElem>, r: Ring, usedIdx: nat, lastUsedIdx: nat, e: Event)
    requires AvailRing(avail, r) && UsedRing(used, r, usedIdx, lastUsedIdx) && |r.done| < r.q
    requires e.Stage? && e.head in r.held
    ensures AvailRing(avail, Step(r, e).0)
    ensures UsedRing(used[Slot(r.completed, r.q) := UsedElem(e.head, e.len)], Step(r, e).0, usedIdx, lastUsedIdx)
  {
    hide Window, Slot;
    var base := r.completed - |r.done|;
    SlotAdvance(base, |r.done|, r.q);
    WindowPush(used, Slot(base, r.q), r.done, UsedElem(e.head, e.len));
  }

  lemma PublishKeepsRep(m: Memory, r: Ring, m': Memory)
    requires Rep(m, r) && r.staged.Some?
    requires m' == m.(usedIdx := (m.usedIdx + 1) % 0x1_0000)
    ensures Rep(m', Step(r, Publish).0)
  {
    hide *;
    RepParts(m, r);
    StepKeepsInv(r, Publish);
    DeviceKeepsTable(m.desc, r, Publish, m.freeHead, m.numFree);
    ReadUsedIdx(m, r);
    PublishKeepsRings(m.avail, m.used, r, m.usedIdx, m.lastUsedIdx);
    assert Step(r, Publish).0.q == r.q by { StepKeepsSize(r, Publish); }
    RepOf(m', Step(r, Publish).0);
  }

  lemma PublishKeepsRings(avail: seq<nat>, used: seq<UsedElem>, r: Ring, usedIdx: nat, lastUsedIdx: nat)
    requires AvailRing(avail, r) && UsedRing(used, r, usedIdx, lastUsedIdx) && |r.done| < r.q && r.staged.Some?
    ensures AvailRing(avail, Step(r, Publish).0)
    ensures UsedRing(used, Step(r, Publish).0, (r.completed + 1) % 0x1_0000, lastUsedIdx)
  {
    hide Window, Slot;
    var base := r.completed - |r.done|;
    SlotAdvance(base, |r.done|, r.q);
    WindowPush(used, Slot(base, r.q), r.done, r.staged.value);
    assert used[Slot(r.completed, r.q) := r.staged.value] == used;
  }

  // ------------------------------------------------ the driver

  class Virtqueue {
    const queueSize: nat
    var freeHead: nat
    var numFree: nat
    var lastUsedIdx: nat

    // Shared with the device.
    const desc: array<VringDesc>
    const avail: array<nat>       // [0] flags, [1] idx, [2..] ring
    var usedIdx: nat              // bytes 2-3 of the used ring
    const used: array<UsedElem>   // bytes 4.. of the used ring

    ghost var ring: Ring

    ghost predicate Shape()
      reads this
    {
      && QueueSize(queueSize) && ring.q == queueSize
      && desc.Length == queueSize && used.Length == queueSize && avail.Length == 2 + queueSize
    }

    ghost function Snapshot(): Memory
      reads this, desc, avail, used
    {
      Memory(desc[..], avail[..], used[..], freeHead, numFree, lastUsedIdx, usedIdx)
    }

    ghost predicate Valid()
      reads this, desc, avail, used
    {
      Shape() && Rep(Snapshot(), ring)
    }

    /** Constructor with the zeroed ring memory of `Initialize`; not usable before `InitDescChain`. */
    constructor (size: nat)
      requires QueueSize(size)
      ensures Shape() && queueSize == size
      ensures usedIdx == 0 && avail[1] == 0
      ensures fresh(desc) && fresh(avail) && fresh(used)
    {
      queueSize := size;
      freeHead, numFree, lastUsedIdx, usedIdx := 0, size, 0, 0;
      desc := new VringDesc[size](_ => VringDesc(0, 0, 0, 0));
      avail := new nat[2 + size](_ => 0);
      used := new UsedElem[size](_ => UsedElem(0, 0));
      ring := Init(size);
    }

    method InitDescChain()
      requires Shape() && usedIdx == 0 && avail[1] == 0
      modifies this, desc
      ensures Valid() && ring == Init(queueSize)
    {
      var i := 0;
      while i < queueSize
        invariant 0 <= i <= queueSize
        invariant forall k :: 0 <= k < i ==> desc[k].next == k + 1
        modifies desc
      {
        desc[i] := desc[i].(next := i + 1);
        i := i + 1;
      }
      freeHead := 0;
      numFree := queueSize;
      lastUsedIdx := 0;
      ring := Init(queueSize);
      InitInv(queueSize);
    }

    method AddBuf(outAddr: u64, outLen: u32, inAddr: u64, inLen: u32) returns (rc: int)
      requires Valid()
      modifies this, desc, avail
      ensures Valid()
      ensures (ring, AddRc(rc)) == Step(old(ring), Add(outAddr, outLen, inAddr, inLen))
      // The words the device reads: a readable descriptor linked to a writable one, and the head
      // in its slot before the index moves on.
      ensures old(numFree) < 2 ==> rc == -28
      ensures old(numFree) >= 2 ==>
                && rc == old(freeHead) < queueSize
                && var second := old(desc[freeHead].next);
                && second < queueSize
                && desc[rc] == VringDesc(outAddr, outLen, 1, second)
                && desc[second].addr == inAddr && desc[second].len == inLen && desc[second].flags == 2
                && queueSize > 0 && avail[2 + old(avail[1]) % queueSize] == rc
                && avail[1] == (old(avail[1]) + 1) % 0x1_0000
    {
      hide Rep, PowerOfTwo;
      ghost var before := Snapshot();
      ReadFreeList(before, ring);
      if numFree < 2 {
        return -ENOSPC;
      }
      ghost var slot := avail[1] % queueSize;
      var head := FillChain(outAddr, outLen, inAddr, inLen);
      PublishHead(head, slot);
      AddKeepsRep(before, ring, Add(outAddr, outLen, inAddr, inLen), slot, Snapshot());
      ring := Step(ring, Add(outAddr, outLen, inAddr, inLen)).0;
      return head;
    }

    /** AddBuf, first half: pop two descriptors and fill them in. */
    method FillChain(outAddr: u64, outLen: u32, inAddr: u64, inLen: u32) returns (head: nat)
      requires freeHead < desc.Length && numFree >= 2
      requires desc[freeHead].next < desc.Length && desc[freeHead].next != freeHead
      modifies this`freeHead, this`numFree, desc
      ensures head == old(freeHead) && numFree == old(numFree) - 2
      ensures freeHead == old(desc[desc[freeHead].next].next)
      ensures desc[..] == AfterAdd(old(desc[..]), head, old(desc[freeHead].next), Add(outAddr, outLen, inAddr, inLen))
    {
      head := freeHead;
      var idx := freeHead;
      desc[idx] := desc[idx].(addr := outAddr, len := outLen, flags := FLAG_NEXT);
      freeHead := desc[idx].next;
      numFree := numFree - 1;

      var prev := idx;
      idx := freeHead;
      desc[idx] := desc[idx].(addr := inAddr, len := inLen, flags := FLAG_WRITE);
      desc[prev] := desc[prev].(next := idx);
      freeHead := desc[idx].next;
      numFree := numFree - 1;
    }

    /** AddBuf, second half: store the head in the available ring, then bump its index. */
    method PublishHead(head: nat, ghost slot: nat)
      requires queueSize > 0 && avail.Length == 2 + queueSize && slot == avail[1] % queueSize
      modifies avail
      ensures avail[..] == old(avail[..])[2 + slot := head][1 := (old(avail[1]) + 1) % 0x1_0000]
    {
      var availIdx := avail[1];
      avail[2 + availIdx % queueSize] := head;
      avail[1] := (availIdx + 1) % 0x1_0000;
    }

    method GetBuf() returns (rc: int, outLen: u32)
      requires Valid()
      modifies this, desc
      ensures Valid()
      ensures (ring, GetRc(rc, outLen)) == Step(old(ring), Get)
      ensures if old(lastUsedIdx) == usedIdx then rc == -1 && lastUsedIdx == old(lastUsedIdx)
              else
                && queueSize > 0
                && rc == used[old(lastUsedIdx) % queueSize].id && outLen == used[old(lastUsedIdx) % queueSize].len
                && lastUsedIdx == (old(lastUsedIdx) + 1) % 0x1_0000
    {
      hide Rep, PowerOfTwo;
      ghost var before := Snapshot();
      ReadUsedRing(before, ring);
      var deviceUsedIdx := usedIdx;
      if lastUsedIdx == deviceUsedIdx {
        return -1, 0;
      }
      var elem := used[lastUsedIdx % queueSize];
      outLen := elem.len;
      rc := elem.id;
      ghost var second := ring.inflight[elem.id].second;
      FreeChain(elem.id, second);
      lastUsedIdx := (lastUsedIdx + 1) % 0x1_0000;
      GetKeepsRep(before, ring, elem.id, second, Snapshot());
      ring := Step(ring, Get).0;
    }

    /** GetBuf's loop: push the chain's descriptors back on the free list. */
    method FreeChain(head: nat, ghost second: nat)
      requires head < desc.Length && second < desc.Length && head != second
      requires desc[head].flags == FLAG_NEXT && desc[head].next == second && desc[second].flags == FLAG_WRITE
      modifies this`freeHead, this`numFree, desc
      ensures freeHead == second && numFree == old(numFree) + 2
      ensures desc[..] == AfterGet(old(desc[..]), head, second, old(freeHead))
    {
      ghost var table := desc[..];
      var i := head;
      ghost var atHead := true;
      while true
        invariant atHead ==> i == head && desc[..] == table && freeHead == old(freeHead) && numFree == old(numFree)
        invariant !atHead ==> i == second && desc[..] == table[head := table[head].(next := old(freeHead))] &&
                              freeHead == head && numFree == old(numFree) + 1
        decreases atHead
      {
        assert desc[i].flags == desc[..][i].flags == table[i].flags;
        var hasNext := desc[i].flags & FLAG_NEXT != 0;
        var next := desc[i].next;
        desc[i] := desc[i].(next := freeHead);
        freeHead := i;
        numFree := numFree + 1;
        if !hasNext {
          break;
        }
        atHead := false;
        i := next;
      }
    }
  }

  // ------------------------------------------------ the device

  lemma DriverKeepsDevice(r: Ring, e: Event)
    requires (e.Add? || e.Get?) && |r.waiting| <= r.published
    ensures var t := Step(r, e).0;
            && t.held == r.held && t.staged == r.staged && |t.waiting| <= t.published
            && t.published - |t.waiting| == r.published - |r.waiting|
  {}

  /** A conforming device: it returns only heads it took and has not returned. */
  class Device {
    const vq: Virtqueue
    var lastAvailIdx: nat
    var held: set<nat>
    var staged: Option<UsedElem>

    ghost predicate Attached()
      reads this, vq, vq.desc, vq.avail, vq.used
    {
      && vq.Valid()
      && |vq.ring.waiting| <= vq.ring.published
      && lastAvailIdx == (vq.ring.published - |vq.ring.waiting|) % 0x1_0000
      && held == vq.ring.held && staged == vq.ring.staged
    }

    constructor (vq: Virtqueue)
      requires vq.Valid() && vq.ring == Init(vq.queueSize)
      ensures Attached() && this.vq == vq
    {
      this.vq := vq;
      lastAvailIdx, held, staged := 0, {}, None;
    }

    /** One step of the driver or the device. */
    method DoEvent(e: Event) returns (out: Outcome)
      requires Attached()
      modifies this, vq, vq.desc, vq.avail, vq.used
      ensures Attached() && (vq.ring, out) == Step(old(vq.ring), e)
    {
      hide Rep, QueueSize;
      match e {
        case Add(outAddr, outLen, inAddr, inLen) =>
          DriverKeepsDevice(vq.ring, e);
          var rc := vq.AddBuf(outAddr, outLen, inAddr, inLen);
          out := AddRc(rc);
        case Take =>
          out := TakeHead();
        case Stage(head, len) =>
          WriteUsed(head, len);
          out := Stutter;
        case Publish =>
          out := BumpUsed();
        case Get =>
          DriverKeepsDevice(vq.ring, e);
          var rc, len := vq.GetBuf();
          out := GetRc(rc, len);
      }
    }

    /** Take the next published head and read its chain from the descriptor table. */
    method TakeHead() returns (out: Outcome)
      requires Attached()
      modifies this, vq`ring
      ensures Attached() && (vq.ring, out) == Step(old(vq.ring), Take)
    {
      hide Rep, PowerOfTwo, Step;
      TakeStep(vq.Snapshot(), vq.ring, lastAvailIdx);
      if lastAvailIdx == vq.avail[1] {
        return Stutter;
      }
      var head := vq.avail[2 + lastAvailIdx % vq.queueSize];
      var request := vq.desc[head];
      // A chain the device can serve: bit 0 says that another descriptor follows, bit 1 that it
      // is for the device to write (section 2.4.5 of Virtio 1.0).
      if request.flags & 2 != 0 || request.flags & 1 == 0 {
        return Stutter;
      }
      var response := vq.desc[request.next];
      if response.flags & 2 == 0 || response.flags & 1 != 0 {
        return Stutter;
      }
      lastAvailIdx := (lastAvailIdx + 1) % 0x1_0000;
      held := held + {head};
      vq.ring := Step(vq.ring, Take).0;
      return Took(head, Chain(request.next, request.addr, request.len, response.addr, response.len));
    }

    /** Write a used element behind the used index; the driver cannot see it yet. */
    method WriteUsed(head: nat, len: u32)
      requires Attached()
      modifies this, vq`ring, vq.used
      ensures Attached() && vq.ring == Step(old(vq.ring), Stage(head, len)).0
    {
      hide Rep, PowerOfTwo;
      ghost var before := vq.Snapshot();
      ReadUsedIdx(before, vq.ring);
      if head in held {
        staged := Some(UsedElem(head, len));
        vq.used[vq.usedIdx % vq.queueSize] := UsedElem(head, len);
        StageKeepsRep(before, vq.ring, Stage(head, len), vq.Snapshot());
        vq.ring := Step(vq.ring, Stage(head, len)).0;
      }
    }

    /** Bump the used index over the written element. */
    method BumpUsed() returns (out: Outcome)
      requires Attached()
      modifies this, vq`ring, vq`usedIdx
      ensures Attached() && (vq.ring, out) == Step(old(vq.ring), Publish)
    {
      hide Rep, PowerOfTwo;
      if staged.None? {
        return Stutter;
      }
      ghost var before := vq.Snapshot();
      out := Returned(staged.value);
      held := held - {staged.value.id};
      staged := None;
      vq.usedIdx := (vq.usedIdx + 1) % 0x1_0000;
      PublishKeepsRep(before, vq.ring, vq.Snapshot());
      vq.ring := Step(vq.ring, Publish).0;
    }
  }

  // ------------------------------------------------ any interleaving

  /** Main result: whatever the interleaving of driver and device, the array-backed queue
      with its wrapping indices gives the outcomes of the abstract ring. */
  method Interleave(queueSize: nat, events: seq<Event>) returns (outs: seq<Outcome>)
    requires QueueSize(queueSize)
    ensures outs == Run(Init(queueSize), events).1
  {
    hide *;
    assert Run(Init(queueSize), []) == (Init(queueSize), []) by { RunEmpty(Init(queueSize)); }
    var vq := new Virtqueue(queueSize);
    vq.InitDescChain();
    var device := new Device(vq);
    outs := [];
    for n := 0 to |events|
      invariant device.vq == vq && device.Attached()
      invariant fresh(vq) && fresh(device) && fresh(vq.desc) && fresh(vq.avail) && fresh(vq.used)
      invariant (vq.ring, outs) == Run(Init(queueSize), events[..n])
    {
      RunSnoc(Init(queueSize), events[..n], events[n]);
      assert events[..n] + [events[n]] == events[..n + 1];
      var out := device.DoEvent(events[n]);
      outs := outs + [out];
    }
    assert events[..|events|] == events;
  }
}
