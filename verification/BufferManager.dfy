/** The buffer manager's frame pool: every frame is either on the free list or in the
    eviction queue, whatever sequence of allocations and batch evictions is performed. */
module BufferManager {
  import opened Eviction
  import opened Ring

  /** The pool of frames, frame `i` having slot `i`. */
  ghost predicate IsPool(all: seq<Frame>)
  {
    forall i :: 0 <= i < |all| ==> all[i].slot == i
  }

  /** The frames listed free and the frames queued are complementary parts of the pool. */
  ghost predicate Partition(all: seq<Frame>, free: seq<Frame>, queued: seq<Frame?>)
  {
    && |queued| == |all|
    && (forall i :: 0 <= i < |all| ==> queued[i] == null || queued[i] == all[i])
    && (forall i :: 0 <= i < |all| ==> (all[i] in free <==> queued[i] == null))
    && (forall f :: f in free ==> 0 <= f.slot < |all| && all[f.slot] == f)
    && (forall i, j :: 0 <= i < j < |free| ==> free[i] != free[j])
  }

  ghost function FilledSlots(queued: seq<Frame?>): set<int> { set i | 0 <= i < |queued| && queued[i] != null }

  /** Conservation: free and queued frames add up to the pool. */
  lemma FramesConserved(all: seq<Frame>, free: seq<Frame>, queued: seq<Frame?>)
    requires IsPool(all) && Partition(all, free, queued)
    ensures |free| + |FilledSlots(queued)| == |all|
  {
    assert forall i, j :: 0 <= i < j < |free| ==> free[i] in free && free[j] in free;
    CountOf(Slots(free));
    CountOf(Slots(all));
    assert SetOf(Slots(free)) !! FilledSlots(queued) by {
      assert forall k :: 0 <= k < |free| ==> free[k] in free && Slots(free)[k] == free[k].slot;
    }
    assert SetOf(Slots(all)) == SetOf(Slots(free)) + FilledSlots(queued) by {
      forall i ensures i in Slots(all) <==> i in Slots(free) || i in FilledSlots(queued) {
        SlotOfPool(all, free, queued, i);
      }
    }
  }

  lemma SlotOfPool(all: seq<Frame>, free: seq<Frame>, queued: seq<Frame?>, i: int)
    requires IsPool(all) && Partition(all, free, queued)
    ensures i in Slots(all) <==> i in Slots(free) || i in FilledSlots(queued)
  {
    if 0 <= i < |all| {
      assert Slots(all)[i] == i;
      if all[i] in free {
        var k :| 0 <= k < |free| && free[k] == all[i];
        assert Slots(free)[k] == i;
      }
    } else {
      assert forall k :: 0 <= k < |all| ==> Slots(all)[k] == k;
      assert forall k :: 0 <= k < |free| ==> Slots(free)[k] == free[k].slot && free[k] in free;
    }
  }

  /** Moving a frame from the free list to its slot. */
  lemma PartitionPop(all: seq<Frame>, free: seq<Frame>, queued: seq<Frame?>)
    requires IsPool(all) && Partition(all, free, queued) && free != []
    ensures var f := free[|free| - 1];
            0 <= f.slot < |queued| && queued[f.slot] == null
            && Partition(all, free[..|free| - 1], queued[f.slot := f])
  {
    var n := |free| - 1;
    var f := free[n];
    assert f in free;
    assert forall g :: g in free <==> g in free[..n] || g == f by {
      assert free == free[..n] + [f];
    }
    assert f !in free[..n];
  }

  /** Moving the frames of a batch from their slots to the free list. */
  lemma PartitionPush(all: seq<Frame>, free: seq<Frame>, queued: seq<Frame?>, got: seq<Frame>, now: seq<Frame?>)
    requires IsPool(all) && Partition(all, free, queued)
    requires StoodIn(queued, got) && |SetOf(Slots(got))| == |got|
    requires |now| == |queued| && forall k :: 0 <= k < |now| ==> now[k] == if k in Slots(got) then null else queued[k]
    ensures Partition(all, free + got, now)
    ensures forall f :: f in got ==> f in all && f !in free && f !in now
  {
    forall f | f in got ensures f.slot in Slots(got) && 0 <= f.slot < |all| && all[f.slot] == f && f !in free {
      var k :| 0 <= k < |got| && got[k] == f;
      assert Slots(got)[k] == f.slot;
    }
    forall v | v in Slots(got) ensures 0 <= v < |all| && all[v] in got {
      var k :| 0 <= k < |got| && Slots(got)[k] == v;
      assert got[k] in got;
    }
    assert forall f :: f in free + got <==> f in free || f in got;
    Distinct(got);
    NoRepeats(free, got);
  }

  lemma Distinct(got: seq<Frame>)
    requires |SetOf(Slots(got))| == |got|
    ensures forall i, j :: 0 <= i < j < |got| ==> got[i] != got[j]
  {
    forall i, j | 0 <= i < j < |got| ensures got[i] != got[j] {
      if got[i] == got[j] { Repeated(Slots(got), i, j); }
    }
  }

  lemma {:induction false} AtMost(slots: seq<int>)
    ensures |SetOf(slots)| <= |slots|
  {
    if slots != [] {
      var n := |slots| - 1;
      AtMost(slots[..n]);
      assert slots == slots[..n] + [slots[n]];
      assert SetOf(slots) == SetOf(slots[..n]) + {slots[n]};
    }
  }

  lemma Repeated(slots: seq<int>, i: nat, j: nat)
    requires i < j < |slots| && slots[i] == slots[j]
    ensures |SetOf(slots)| < |slots|
  {
    var rest := slots[..j] + slots[j + 1..];
    AtMost(rest);
    assert rest[i] == slots[j];
    assert forall k :: 0 <= k < |slots| && k != j ==> slots[k] == rest[if k < j then k else k - 1];
    assert SetOf(slots) == SetOf(rest);
  }

  lemma NoRepeats(free: seq<Frame>, got: seq<Frame>)
    requires forall i, j :: 0 <= i < j < |free| ==> free[i] != free[j]
    requires forall i, j :: 0 <= i < j < |got| ==> got[i] != got[j]
    requires forall f :: f in got ==> f !in free
    ensures forall i, j :: 0 <= i < j < |free + got| ==> (free + got)[i] != (free + got)[j]
  {
    forall i, j | 0 <= i < j < |free + got| ensures (free + got)[i] != (free + got)[j] {
      if i < |free| <= j {
        assert free[i] in free && got[j - |free|] in got;
      }
    }
  }

  /** A pool none of whose frames is queued is wholly free. */
  lemma FreshPartition(all: seq<Frame>, queued: seq<Frame?>)
    requires IsPool(all) && |queued| == |all| && forall i :: 0 <= i < |queued| ==> queued[i] == null
    ensures Partition(all, all, queued)
  {
    forall f | f in all ensures 0 <= f.slot < |all| && all[f.slot] == f {
      var i :| 0 <= i < |all| && all[i] == f;
      assert f.slot == i;
    }
    assert forall i, j :: 0 <= i < j < |all| ==> all[i].slot != all[j].slot;
  }

  // ----- Allocations under pressure -----

  /** The clock's victim `v` goes to a new owner, pinned and marked, and the hand stops just past it. */
  ghost predicate Reallocated(before: seq<Cell>, now: seq<Cell>, start: int, hand: int, v: int, owner: FrameOwner)
  {
    && |now| == |before| && 0 <= v < |before| && now[v] == Full(true, true, owner)
    && ClockEvicted(before, now[v := Empty], start, v)
    && hand == Next(v, |before|)
  }

  /** A run of allocations, each of which finds no free frame. */
  ghost predicate AllocRun(cells: seq<seq<Cell>>, hands: seq<int>, victims: seq<int>, owners: seq<FrameOwner>)
  {
    && |cells| == |hands| == |victims| + 1 && |owners| == |victims|
    && 0 <= hands[0] < |cells[0]|
    && forall k :: 0 <= k < |victims| ==> Reallocated(cells[k], cells[k + 1], hands[k], hands[k + 1], victims[k], owners[k])
  }

  ghost function Without(cells: seq<Cell>, taken: seq<int>): seq<Cell>
  {
    seq(|cells|, k requires 0 <= k < |cells| => if k in taken then Empty else cells[k])
  }

  ghost predicate AllPinned(cells: seq<Cell>, taken: seq<int>)
  {
    forall u :: u in taken ==> 0 <= u < |cells| && cells[u].Full? && cells[u].pinned
  }

  /** Frames handed out before are pinned, so the clock passes them like empty slots. */
  lemma SweepPassesPinned(before: seq<Cell>, now: seq<Cell>, start: int, i: int, v: int, taken: seq<int>)
    requires AllPinned(before, taken) && 0 <= v < |now| == |before| && v !in taken
    requires SweptTo(before, now[v := Empty], start, i, Any, {v})
    ensures SweptTo(Without(before, taken), Without(now, taken + [v]), start, i, Any, {v})
  {
    var a, b := Without(before, taken), Without(now, taken + [v]);
    forall k | 0 <= k < |before|
      ensures b[k] == After(a[k], Turn(start, k, |a|), i, |a|, Any)
      ensures k in {v} <==> TakenBy(a[k], Turn(start, k, |a|), i, |a|, Any)
    {
      if k !in taken { assert k != v ==> now[v := Empty][k] == now[k]; }
    }
  }

  /** The steps of one hand until it has taken the last of `taken`. */
  ghost function StepsTo(cells: seq<Cell>, start: int, taken: seq<int>): int
  {
    if taken == [] then 0 else TakeTime(cells, start, taken[|taken| - 1]) + 1
  }

  /** The frames `taken`, pinned now, are those one sweep over `cells` takes, in its order. */
  ghost predicate OneHand(cells: seq<Cell>, start: int, now: seq<Cell>, hand: int, taken: seq<int>)
  {
    var i := StepsTo(cells, start, taken);
    && |now| == |cells| && AllPinned(now, taken)
    && 0 <= i <= 2 * |cells| && hand == At(start, i, |cells|)
    && Swept(cells, Without(now, taken), start, i, Any, taken)
  }

  /** The clock, started where the sweep stopped, takes its victim when the sweep would. */
  lemma VictimTime(c: Cell, start: int, v: int, i: int, n: int)
    requires 0 <= start < n && 0 <= v < n && 0 <= i <= 2 * n && Candidate(c, Any)
    requires !TakenBy(c, Turn(start, v, n), i, n, Any)
    ensures var d := Turn(start, v, n);
            var b := After(c, d, i, n, Any);
            var time := d + if c.ref then n else 0;
            && i + Turn(At(start, i, n), v, n) + (if b.ref then n else 0) == time < 2 * n
            && At(start, time + 1, n) == Next(v, n)
  {
  }

  lemma NextVictim(cells: seq<Cell>, start: int, before: seq<Cell>, hand: int, taken: seq<int>, v: int)
    requires 0 <= start < |cells| && OneHand(cells, start, before, hand, taken) && v in Unpinned(before)
    ensures v !in taken
    ensures StepsTo(cells, start, taken) + Turn(hand, v, |cells|) + (if before[v].ref then |cells| else 0)
            == TakeTime(cells, start, v) < 2 * |cells|
    ensures At(start, TakeTime(cells, start, v) + 1, |cells|) == Next(v, |cells|)
  {
    var n, i := |cells|, StepsTo(cells, start, taken);
    assert v !in SetOf(taken);
    assert before[v] == Without(before, taken)[v] == After(cells[v], Turn(start, v, n), i, n, Any);
    VictimTime(cells[v], start, v, i, n);
  }

  /** The sweep goes on to the next victim. */
  lemma SweepOn(cells: seq<Cell>, start: int, i: int, before: seq<Cell>, now: seq<Cell>, j: int, taken: seq<int>, v: int)
    requires 0 <= start < |cells| && 0 <= i <= 2 * |cells| && 0 <= j
    requires Swept(cells, Without(before, taken), start, i, Any, taken) && i + j == TakeTime(cells, start, v) + 1 && j > 0
    requires SweptTo(Without(before, taken), Without(now, taken + [v]), At(start, i, |cells|), j, Any, {v})
    ensures Swept(cells, Without(now, taken + [v]), start, StepsTo(cells, start, taken + [v]), Any, taken + [v])
  {
    SweptTwice(cells, Without(before, taken), Without(now, taken + [v]), start, i, j, Any, SetOf(taken), {v});
    assert SetOf(taken + [v]) == SetOf(taken) + {v};
    LastInOrder(cells, Without(before, taken), start, i, taken, v);
    assert (taken + [v])[|taken|] == v;
  }

  lemma OneHandStep(cells: seq<Cell>, start: int, before: seq<Cell>, now: seq<Cell>, hand: int, next: int,
                    taken: seq<int>, v: int, owner: FrameOwner)
    requires 0 <= start < |cells| && OneHand(cells, start, before, hand, taken)
    requires Reallocated(before, now, hand, next, v, owner)
    ensures OneHand(cells, start, now, next, taken + [v])
  {
    NextVictim(cells, start, before, hand, taken, v);
    var j := Turn(hand, v, |cells|) + 1 + if before[v].ref then |cells| else 0;
    SweepPassesPinned(before, now, hand, j, v, taken);
    SweepOn(cells, start, StepsTo(cells, start, taken), before, now, j, taken, v);
    StillPinned(before, now, hand, j, v, taken, owner);
    assert StepsTo(cells, start, taken + [v]) == TakeTime(cells, start, v) + 1;
  }

  lemma StillPinned(before: seq<Cell>, now: seq<Cell>, hand: int, j: int, v: int, taken: seq<int>, owner: FrameOwner)
    requires AllPinned(before, taken) && 0 <= v < |now| == |before| && now[v] == Full(true, true, owner)
    requires SweptTo(before, now[v := Empty], hand, j, Any, {v})
    ensures AllPinned(now, taken + [v])
  {
    forall u | u in taken && u != v ensures now[u] == before[u] {
      assert now[v := Empty][u] == now[u];
    }
  }

  lemma LastInOrder(cells: seq<Cell>, mid: seq<Cell>, start: int, i: int, taken: seq<int>, v: int)
    requires Swept(cells, mid, start, i, Any, taken) && i <= TakeTime(cells, start, v)
    ensures InOrder(cells, start, taken + [v])
  {
    forall j, k | 0 <= j < k < |taken + [v]|
      ensures TakeTime(cells, start, (taken + [v])[j]) < TakeTime(cells, start, (taken + [v])[k])
    {
      if k == |taken| { assert taken[j] in SetOf(taken); }
    }
  }

  lemma {:induction false} AllocsByOneHand(cells: seq<seq<Cell>>, hands: seq<int>, victims: seq<int>, owners: seq<FrameOwner>, m: nat)
    requires AllocRun(cells, hands, victims, owners) && m <= |victims|
    ensures OneHand(cells[0], hands[0], cells[m], hands[m], victims[..m])
    decreases m
  {
    if m == 0 {
      SweptStart(cells[0], hands[0], Any);
      assert Without(cells[0], []) == cells[0];
    } else {
      AllocsByOneHand(cells, hands, victims, owners, m - 1);
      assert victims[..m] == victims[..m - 1] + [victims[m - 1]];
      OneHandStep(cells[0], hands[0], cells[m - 1], cells[m], hands[m - 1], hands[m], victims[..m - 1],
                  victims[m - 1], owners[m - 1]);
    }
  }

  /** Allocations that follow one another under pressure hand out the frames that one hand, going
      round once or twice, meets: in the order of the clock, none passed over, and with the hand
      left where a single batch of as many frames would leave it. */
  lemma AllocsFollowTheClock(cells: seq<seq<Cell>>, hands: seq<int>, victims: seq<int>, owners: seq<FrameOwner>)
    requires AllocRun(cells, hands, victims, owners) && victims != []
    ensures InOrder(cells[0], hands[0], victims) && forall v :: v in victims ==> v in Unpinned(cells[0])
    ensures forall u, v :: u in Unpinned(cells[0]) && u !in victims && v in victims ==>
              TakeTime(cells[0], hands[0], v) < TakeTime(cells[0], hands[0], u)
    ensures var m := |victims|;
            Batched(cells[0], Without(cells[m], victims), hands[0], hands[m], m, OwnerFree, victims)
  {
    var m := |victims|;
    AllocsByOneHand(cells, hands, victims, owners, m);
    assert victims[..m] == victims;
    OneHandOrder(cells[0], hands[0], cells[m], hands[m], victims);
    OneHandBatch(cells[0], hands[0], cells[m], hands[m], victims);
  }

  lemma OneHandOrder(cells: seq<Cell>, start: int, now: seq<Cell>, hand: int, taken: seq<int>)
    requires OneHand(cells, start, now, hand, taken)
    ensures InOrder(cells, start, taken) && forall v :: v in taken ==> v in Unpinned(cells)
    ensures forall u, v :: u in Unpinned(cells) && u !in taken && v in taken ==>
              TakeTime(cells, start, v) < TakeTime(cells, start, u)
  {
    var i := StepsTo(cells, start, taken);
    forall u | u in Unpinned(cells) && u !in taken ensures i <= TakeTime(cells, start, u) {
      assert u !in SetOf(taken);
    }
    forall v | v in taken ensures v in Unpinned(cells) && TakeTime(cells, start, v) < i {
      assert v in SetOf(taken);
    }
  }

  lemma OneHandBatch(cells: seq<Cell>, start: int, now: seq<Cell>, hand: int, taken: seq<int>)
    requires OneHand(cells, start, now, hand, taken) && 0 <= start < |cells| && taken != []
    ensures Batched(cells, Without(now, taken), start, hand, |taken|, OwnerFree, taken)
  {
    var i := StepsTo(cells, start, taken);
    BatchedByBoth(cells, cells, Without(now, taken), start, 0, i, OwnerFree, |taken|, [], taken);
    assert [] + taken == taken;
  }

  class Manager {
    const all: seq<Frame>
    const evictor: EvictionQueue
    var freeList: seq<Frame>

    ghost predicate Valid()
      reads this, evictor, evictor.frames
    {
      && evictor.Valid() && evictor.capacity == |all|
      && IsPool(all) && Partition(all, freeList, evictor.frames[..])
    }

    /** All frames start on the free list. */
    constructor (maxFrames: int)
      ensures Valid() && freeList == all && |all| == if maxFrames <= 0 then 1024 else maxFrames
      ensures fresh(evictor) && fresh(evictor.frames) && forall f :: f in all ==> fresh(f)
      ensures forall f :: f in all ==> f.owner == OwnerFree && f.pinCount == 0 && !f.refBit
    {
      var size := if maxFrames <= 0 then 1024 else maxFrames;
      var pool: seq<Frame> := [];
      for i := 0 to size
        invariant |pool| == i && IsPool(pool)
        invariant forall f :: f in pool ==> fresh(f) && f.owner == OwnerFree && f.pinCount == 0 && !f.refBit
      {
        var f := new Frame(i, OwnerFree);
        pool := pool + [f];
      }
      var queue := new EvictionQueue(size);
      forall i | 0 <= i < size ensures queue.frames[i] == null {
        assert i !in queue.Filled();
      }
      FreshPartition(pool, queue.frames[..]);
      all, evictor, freeList := pool, queue, pool;
    }

    /** Free and queued frames always add up to the pool. */
    lemma Conserved()
      requires Valid()
      ensures |freeList| + evictor.count == |all|
    {
      FramesConserved(all, freeList, evictor.frames[..]);
      assert evictor.Filled() == FilledSlots(evictor.frames[..]);
    }

    /** Prepares a frame for its new owner: pinned once, bit set. */
    method InitFrame(f: Frame, owner: FrameOwner)
      modifies f
      ensures f.owner == owner && f.pinCount == 1 && f.refBit
    {
      ResetFrame(f);
      f.owner := owner;
      f.pinCount, f.refBit := f.pinCount + 1, true;
    }

    method ResetFrame(f: Frame)
      modifies f
      ensures f.owner == OwnerFree && f.pinCount == 0 && !f.refBit
    {
      f.pinCount, f.refBit, f.owner := 0, false, OwnerFree;
    }

    /** Puts a frame whose slot is empty into the queue. */
    method Enqueue(f: Frame, ghost free: seq<Frame>)
      requires evictor.Valid() && evictor.capacity == |all| && IsPool(all)
      requires 0 <= f.slot < |all| && Partition(all, free, evictor.frames[..][f.slot := f])
      modifies evictor`count, evictor.frames, f`refBit
      ensures evictor.Valid() && Partition(all, free, evictor.frames[..])
      ensures f.refBit && evictor.hand == old(evictor.hand)
      ensures evictor.frames[..] == old(evictor.frames[..])[f.slot := f]
    {
      ghost var want := evictor.frames[..][f.slot := f];
      evictor.Add(f);
      assert evictor.frames[..] == want;
    }

    /** Hands out the last free frame, or else the clock's victim; fails exactly when there is no
        free frame and every queued one is pinned. A frame handed out was free or unpinned, comes
        back pinned and queued, and no other frame moves. Only an eviction moves the hand or clears
        bits: the hand stops just past the victim, and the bits are those the clock leaves. */
    method AllocFrame(owner: FrameOwner) returns (f: Frame?)
      requires Valid()
      modifies this`freeList, evictor, evictor.frames, all
      ensures Valid()
      ensures f == null <==> old(freeList) == [] && Unpinned(old(evictor.Cells())) == {}
      ensures f == null ==>
        evictor.frames[..] == old(evictor.frames[..]) && evictor.Cells() == old(evictor.Cells()) && evictor.hand == old(evictor.hand)
      ensures f != null ==> f in all && f.owner == owner && f.pinCount == 1 && f.refBit
      ensures f != null ==> evictor.frames[..] == old(evictor.frames[..])[f.slot := f]
      ensures old(freeList) != [] ==>
        && f == old(freeList)[|old(freeList)| - 1] && freeList == old(freeList)[..|old(freeList)| - 1]
        && evictor.hand == old(evictor.hand) && forall g :: g in all && g != f ==> unchanged(g)
      ensures forall g :: g in all && g != f ==> g.pinCount == old(g.pinCount) && g.owner == old(g.owner)
      ensures old(freeList) == [] ==> freeList == []
      ensures old(freeList) == [] && f != null ==>
        Reallocated(old(evictor.Cells()), evictor.Cells(), old(evictor.hand), evictor.hand, f.slot, owner)
    {
      if |freeList| > 0 {
        var g := AllocFromFree(owner);
        return g;
      }
      f := AllocByEviction(owner);
    }

    method AllocFromFree(owner: FrameOwner) returns (f: Frame)
      requires Valid() && freeList != []
      modifies this`freeList, evictor`count, evictor.frames, all
      ensures Valid()
      ensures f in all && f.owner == owner && f.pinCount == 1 && f.refBit
      ensures f == old(freeList)[|old(freeList)| - 1] && freeList == old(freeList)[..|old(freeList)| - 1]
      ensures forall g :: g in all && g != f ==> unchanged(g)
      ensures evictor.frames[..] == old(evictor.frames[..])[f.slot := f]
    {
      PartitionPop(all, freeList, evictor.frames[..]);
      f := freeList[|freeList| - 1];
      assert f in freeList && all[f.slot] == f;
      freeList := freeList[..|freeList| - 1];
      InitFrame(f, owner);
      Enqueue(f, freeList);
    }

    method AllocByEviction(owner: FrameOwner) returns (f: Frame?)
      requires Valid() && freeList == []
      modifies evictor, evictor.frames, all
      ensures Valid()
      ensures f == null <==> Unpinned(old(evictor.Cells())) == {}
      ensures f == null ==> evictor.Cells() == old(evictor.Cells()) && evictor.hand == old(evictor.hand)
      ensures f != null ==> f in all && f.owner == owner && f.pinCount == 1 && f.refBit
      ensures f != null ==>
        Reallocated(old(evictor.Cells()), evictor.Cells(), old(evictor.hand), evictor.hand, f.slot, owner)
      ensures forall g :: g in all && g != f ==> g.pinCount == old(g.pinCount) && g.owner == old(g.owner)
      ensures evictor.frames[..] == old(evictor.frames[..])
    {
      ghost var queued, before := evictor.frames[..], evictor.Cells();
      assert forall g :: g in evictor.Members() ==> g in all;
      var victim := evictor.EvictOne();
      if victim == null {
        return null;
      }
      assert victim == queued[victim.slot] == all[victim.slot];
      assert evictor.frames[..][victim.slot := victim] == queued;
      Requeue(victim, owner, before, old(evictor.hand));
      return victim;
    }

    /** The victim, in its own slot again, for its new owner. */
    method Requeue(f: Frame, owner: FrameOwner, ghost before: seq<Cell>, ghost start: int)
      requires evictor.Valid() && evictor.capacity == |all| == |before| && IsPool(all)
      requires 0 <= f.slot < |all| && all[f.slot] == f && f !in evictor.frames[..]
      requires Partition(all, [], evictor.frames[..][f.slot := f])
      requires ClockEvicted(before, evictor.Cells(), start, f.slot) && evictor.hand == Next(f.slot, |before|)
      modifies evictor`count, evictor.frames, f
      ensures evictor.Valid() && Partition(all, [], evictor.frames[..])
      ensures f.owner == owner && f.pinCount == 1 && f.refBit
      ensures evictor.frames[..] == old(evictor.frames[..])[f.slot := f]
      ensures Reallocated(before, evictor.Cells(), start, evictor.hand, f.slot, owner)
    {
      ghost var mid := evictor.Cells();
      InitFrame(f, owner);
      Enqueue(f, []);
      assert evictor.Cells()[f.slot := Empty] == mid by {
        assert forall k :: 0 <= k < |all| && k != f.slot ==> evictor.frames[k] == old(evictor.frames[..])[k];
      }
    }

    /** Evicts the eviction queue's batch: the evicted frames, reset, go to the end of the free
        list in the order in which the sweeps took them, and their number is returned. */
    method EvictBatch(n: int, prefer: FrameOwner) returns (k: nat, ghost got: seq<Frame>)
      requires Valid()
      modifies this`freeList, evictor, evictor.frames, all
      ensures Valid() && k == |got| == |SetOf(Slots(got))| && freeList == old(freeList) + got
      ensures n > 0 ==>
        && IsBatch(old(evictor.Cells()), n, prefer, SetOf(Slots(got)))
        && Batched(old(evictor.Cells()), evictor.Cells(), old(evictor.hand), evictor.hand, n, prefer, Slots(got))
      ensures n <= 0 ==> got == [] && evictor.Cells() == old(evictor.Cells()) && evictor.hand == old(evictor.hand)
      ensures forall f :: f in got ==> f in all && f.owner == OwnerFree && f.pinCount == 0 && !f.refBit
      ensures forall g :: g in all && g !in got ==> g.pinCount == old(g.pinCount) && g.owner == old(g.owner)
      ensures forall g :: g in old(freeList) ==> unchanged(g)
      ensures forall v :: 0 <= v < |all| ==>
        evictor.frames[v] == if v in Slots(got) then null else old(evictor.frames[v])
    {
      var frames := TakeBatch(n, prefer);
      Recycle(frames);
      k, got := |frames|, frames;
    }

    /** The eviction queue's batch, before it is recycled. */
    method TakeBatch(n: int, prefer: FrameOwner) returns (got: seq<Frame>)
      requires Valid()
      modifies evictor, evictor.frames, all
      ensures evictor.Valid() && Partition(all, freeList + got, evictor.frames[..])
      ensures |SetOf(Slots(got))| == |got| && forall f :: f in got ==> f in all && f !in freeList && f !in evictor.frames[..]
      ensures n > 0 ==> IsBatch(old(evictor.Cells()), n, prefer, SetOf(Slots(got)))
      ensures n > 0 ==> Batched(old(evictor.Cells()), evictor.Cells(), old(evictor.hand), evictor.hand, n, prefer, Slots(got))
      ensures n <= 0 ==> got == [] && evictor.Cells() == old(evictor.Cells()) && evictor.hand == old(evictor.hand)
      ensures forall v :: 0 <= v < |all| ==> evictor.frames[v] == if v in Slots(got) then null else old(evictor.frames[v])
      ensures forall g :: g in all ==> g.pinCount == old(g.pinCount) && g.owner == old(g.owner)
      ensures forall g :: g in freeList ==> unchanged(g)
    {
      ghost var queued, cells := evictor.frames[..], evictor.Cells();
      QueuedAreNotFree();
      ghost var forced;
      got, forced := evictor.EvictBatch(n, prefer);
      BatchMoved(queued, cells, old(evictor.hand), n, prefer, got);
      PartitionPush(all, freeList, queued, got, evictor.frames[..]);
    }

    lemma QueuedAreNotFree()
      requires Valid()
      ensures forall g :: g in evictor.Members() ==> g in all && g !in freeList
    {
      forall g | g in evictor.Members() ensures g in all && g !in freeList {
        var k :| 0 <= k < evictor.capacity && evictor.frames[..][k] == g;
        assert all[k] == g;
      }
    }

    lemma BatchMoved(queued: seq<Frame?>, cells: seq<Cell>, start: int, n: int, prefer: FrameOwner, got: seq<Frame>)
      requires evictor.Valid() && |queued| == |cells| == evictor.capacity && OnlyEmptied(queued, evictor.frames[..])
      requires forall k :: 0 <= k < |cells| ==> (cells[k].Empty? <==> queued[k] == null)
      requires n > 0 ==> Batched(cells, evictor.Cells(), start, evictor.hand, n, prefer, Slots(got))
      requires n <= 0 ==> got == [] && evictor.Cells() == cells
      ensures |SetOf(Slots(got))| == |got| && (n > 0 ==> IsBatch(cells, n, prefer, SetOf(Slots(got))))
      ensures forall v :: 0 <= v < |queued| ==> evictor.frames[v] == if v in Slots(got) then null else queued[v]
    {
      if n > 0 {
        BatchedMeans(cells, evictor.Cells(), start, evictor.hand, n, prefer, Slots(got));
        evictor.BatchedFrames(queued, cells, start, n, prefer, got);
      } else {
        assert SetOf(Slots(got)) == {};
        evictor.EmptiedFrames(queued, cells, {});
      }
    }

    method Recycle(got: seq<Frame>)
      requires forall f :: f in got ==> f in all && f !in evictor.frames[..]
      modifies this`freeList, all
      ensures freeList == old(freeList) + got && evictor.Cells() == old(evictor.Cells())
      ensures forall f :: f in got ==> f.owner == OwnerFree && f.pinCount == 0 && !f.refBit
      ensures forall f :: f in all && f !in got ==> unchanged(f)
    {
      for i := 0 to |got|
        invariant freeList == old(freeList) + got[..i]
        invariant forall k :: 0 <= k < evictor.frames.Length && evictor.frames[k] != null ==> unchanged(evictor.frames[k])
        invariant forall f :: f in all && f !in got ==> unchanged(f)
        invariant forall f :: f in got[..i] ==> f.owner == OwnerFree && f.pinCount == 0 && !f.refBit
      {
        assert got[i] in got;
        ResetFrame(got[i]);
        freeList := freeList + [got[i]];
      }
    }
  }
}
