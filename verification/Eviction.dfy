/** The buffer manager's Clock (second-chance) eviction queue, with pins fixed during a
    call. What the hand does is given in closed form: after `i` steps from `start`, the
    state of every slot is a function of its distance from `start` (`SweptTo`). */
module Eviction {
  import opened Ring

  datatype FrameOwner = OwnerFree | OwnerSegCache | OwnerQuery | OwnerMemtable | OwnerCompaction

  class Frame {
    const slot: int
    var owner: FrameOwner
    var pinCount: int
    var refBit: bool

    constructor (slot: int, owner: FrameOwner)
      ensures this.slot == slot && this.owner == owner && pinCount == 0 && !refBit
    {
      this.slot, this.owner, pinCount, refBit := slot, owner, 0, false;
    }

    predicate IsPinned()
      reads this
    {
      pinCount > 0
    }
  }

  // ----- Slots as values -----

  /** A slot of the queue, as the sweep sees it. */
  datatype Cell = Empty | Full(pinned: bool, ref: bool, owner: FrameOwner)

  /** The frames a pass may take: those of one owner, or any. */
  datatype Class = Any | Only(owner: FrameOwner)

  predicate InClass(owner: FrameOwner, cls: Class) { cls.Any? || owner == cls.owner }

  predicate Candidate(c: Cell, cls: Class) { c.Full? && !c.pinned && InClass(c.owner, cls) }

  ghost function Candidates(cells: seq<Cell>, cls: Class): set<int>
  {
    set i | 0 <= i < |cells| && Candidate(cells[i], cls)
  }

  ghost function Unpinned(cells: seq<Cell>): set<int> { Candidates(cells, Any) }

  /** The slot with content `c` at distance `d` has been taken within the first `i` steps:
      on the first visit if its bit was clear, on the second if it was set. */
  predicate TakenBy(c: Cell, d: int, i: int, n: int, cls: Class)
  {
    Candidate(c, cls) && if c.ref then d + n < i else d < i
  }

  /** The content of that slot after `i` steps. */
  function After(c: Cell, d: int, i: int, n: int, cls: Class): Cell
  {
    if TakenBy(c, d, i, n, cls) then Empty
    else if Candidate(c, cls) && d < i then c.(ref := false)
    else c
  }

  /** `now` and `taken` are what a sweep makes of `before` in `i` steps from `start`. */
  ghost predicate SweptTo(before: seq<Cell>, now: seq<Cell>, start: int, i: int, cls: Class, taken: set<int>)
  {
    && |now| == |before|
    && (forall k :: 0 <= k < |before| ==>
          now[k] == After(before[k], Turn(start, k, |before|), i, |before|, cls))
    && (forall k :: k in taken <==>
          0 <= k < |before| && TakenBy(before[k], Turn(start, k, |before|), i, |before|, cls))
  }

  /** What one step of the hand does to the slot it points at. */
  function Visited(c: Cell, cls: Class): Cell
  {
    if !Candidate(c, cls) then c else if c.ref then c.(ref := false) else Empty
  }

  predicate Takes(c: Cell, cls: Class) { Candidate(c, cls) && !c.ref }

  lemma SweepStart(before: seq<Cell>, start: int, cls: Class)
    requires 0 <= start < |before|
    ensures SweptTo(before, before, start, 0, cls, {})
  {
  }

  /** A slot the hand does not point at keeps its closed form. */
  lemma OtherSlotsKeep(c: Cell, d: int, i: int, n: int, cls: Class)
    requires 0 <= d < n && 0 <= i < 2 * n && d != (if i < n then i else i - n)
    ensures After(c, d, i, n, cls) == After(c, d, i + 1, n, cls)
    ensures TakenBy(c, d, i, n, cls) <==> TakenBy(c, d, i + 1, n, cls)
  {
  }

  lemma VisitedSlot(c: Cell, d: int, i: int, n: int, cls: Class)
    requires 0 <= d < n && 0 <= i < 2 * n && d == (if i < n then i else i - n)
    ensures After(c, d, i + 1, n, cls) == Visited(After(c, d, i, n, cls), cls)
    ensures TakenBy(c, d, i + 1, n, cls) <==> TakenBy(c, d, i, n, cls) || Takes(After(c, d, i, n, cls), cls)
    ensures Takes(After(c, d, i, n, cls), cls) ==> !TakenBy(c, d, i, n, cls)
  {
  }

  /** The closed form is advanced by visiting the slot `idx` under the hand. */
  lemma SweepStep(before: seq<Cell>, now: seq<Cell>, start: int, i: int, cls: Class, taken: set<int>, idx: int)
    requires 0 <= start < |before| && 0 <= i < 2 * |before| && idx == At(start, i, |before|)
    requires SweptTo(before, now, start, i, cls, taken)
    ensures 0 <= idx < |before|
    ensures SweptTo(before, now[idx := Visited(now[idx], cls)], start, i + 1, cls,
                    if Takes(now[idx], cls) then taken + {idx} else taken)
    ensures Takes(now[idx], cls) ==> idx !in taken
  {
    var n := |before|;
    VisitedSlot(before[idx], Turn(start, idx, n), i, n, cls);
    forall k | 0 <= k < n && k != idx
      ensures After(before[k], Turn(start, k, n), i, n, cls) == After(before[k], Turn(start, k, n), i + 1, n, cls)
      ensures TakenBy(before[k], Turn(start, k, n), i, n, cls) <==> TakenBy(before[k], Turn(start, k, n), i + 1, n, cls)
    {
      OtherSlotsKeep(before[k], Turn(start, k, n), i, n, cls);
    }
  }

  /** Two rounds take every candidate. */
  lemma SweepTakesAll(before: seq<Cell>, now: seq<Cell>, start: int, i: int, cls: Class, taken: set<int>)
    requires 0 <= start < |before| && i >= 2 * |before|
    requires SweptTo(before, now, start, i, cls, taken)
    ensures taken == Candidates(before, cls)
  {
  }

  /** A sweep that stops when it has `room` frames or after two rounds takes exactly as
      many candidates as there are, up to `room`. */
  lemma SweepTakesMin(before: seq<Cell>, now: seq<Cell>, start: int, i: int, cls: Class, taken: set<int>, room: int)
    requires 0 <= start < |before|
    requires SweptTo(before, now, start, i, cls, taken)
    requires |taken| == room || (i == 2 * |before| && |taken| <= room)
    ensures taken <= Candidates(before, cls)
    ensures |taken| == Min(room, |Candidates(before, cls)|)
  {
    assert taken <= Candidates(before, cls);
    SubsetCardinality(taken, Candidates(before, cls));
    if i == 2 * |before| {
      SweepTakesAll(before, now, start, i, cls, taken);
    }
  }

  /** After two rounds no candidate is left. */
  lemma SweepLeavesNone(before: seq<Cell>, now: seq<Cell>, start: int, cls: Class, taken: set<int>)
    requires 0 <= start < |before|
    requires SweptTo(before, now, start, 2 * |before|, cls, taken)
    ensures Candidates(now, cls) == {}
  {
    forall k | 0 <= k < |now| ensures !Candidate(now[k], cls) {
      assert Turn(start, k, |before|) < |before|;
    }
  }

  /** Second chance: a frame whose bit was set is taken only after every clear one. */
  lemma SweepIsFair(before: seq<Cell>, now: seq<Cell>, start: int, i: int, cls: Class, taken: set<int>, u: int, w: int)
    requires 0 <= start < |before|
    requires SweptTo(before, now, start, i, cls, taken)
    requires u in taken && before[u].ref
    requires 0 <= w < |before| && Candidate(before[w], cls) && !before[w].ref
    ensures w in taken
  {
    assert Turn(start, w, |before|) < |before| < i;
  }

  function Min(x: int, y: int): int { if x < y then x else y }

  lemma {:induction false} SubsetCardinality<T>(a: set<T>, b: set<T>)
    requires a <= b
    ensures |a| <= |b|
    ensures |a| == |b| ==> a == b
  {
    if x :| x in a {
      SubsetCardinality(a - {x}, b - {x});
    }
  }

  /** Going on from where a sweep stopped is one longer sweep, slot by slot ... */
  lemma AfterTwice(c: Cell, start: int, k: int, i: int, j: int, n: int, cls: Class)
    requires 0 <= start < n && 0 <= k < n && 0 <= i <= 2 * n && 0 <= j
    ensures var d, e := Turn(start, k, n), Turn(At(start, i, n), k, n);
            var b := After(c, d, i, n, cls);
            && After(b, e, j, n, cls) == After(c, d, i + j, n, cls)
            && (TakenBy(c, d, i + j, n, cls) <==> TakenBy(c, d, i, n, cls) || TakenBy(b, e, j, n, cls))
  {
  }

  /** ... and so for the whole queue. */
  lemma SweptTwice(a: seq<Cell>, b: seq<Cell>, c: seq<Cell>, start: int, i: int, j: int, cls: Class, first: set<int>, second: set<int>)
    requires 0 <= start < |a| && 0 <= i <= 2 * |a| && 0 <= j
    requires SweptTo(a, b, start, i, cls, first) && SweptTo(b, c, At(start, i, |a|), j, cls, second)
    ensures SweptTo(a, c, start, i + j, cls, first + second)
  {
    forall k | 0 <= k < |a|
      ensures c[k] == After(a[k], Turn(start, k, |a|), i + j, |a|, cls)
      ensures k in first + second <==> TakenBy(a[k], Turn(start, k, |a|), i + j, |a|, cls)
    {
      AfterTwice(a[k], start, k, i, j, |a|, cls);
    }
  }

  /** The victim of a single sweep: the first clear-bit candidate clockwise, or, if no
      candidate is clear, the first candidate clockwise. */
  ghost predicate IsClockVictim(cells: seq<Cell>, start: int, v: int)
  {
    && v in Unpinned(cells)
    && (!cells[v].ref ==>
          forall k :: k in Unpinned(cells) && !cells[k].ref ==> Turn(start, v, |cells|) <= Turn(start, k, |cells|))
    && (cells[v].ref ==>
          forall k :: k in Unpinned(cells) ==> cells[k].ref && Turn(start, v, |cells|) <= Turn(start, k, |cells|))
  }

  /** `v` is the clock's choice, and the sweep stopped right after taking it. */
  ghost predicate ClockEvicted(before: seq<Cell>, now: seq<Cell>, start: int, v: int)
  {
    && IsClockVictim(before, start, v)
    && SweptTo(before, now, start, Turn(start, v, |before|) + 1 + (if before[v].ref then |before| else 0), Any, {v})
  }

  lemma FirstTakenIsClockVictim(before: seq<Cell>, now: seq<Cell>, start: int, i: int, v: int)
    requires 0 <= start < |before| && 0 <= i < 2 * |before| && v == At(start, i, |before|)
    requires SweptTo(before, now, start, i, Any, {})
    requires 0 <= v < |before| && Takes(now[v], Any)
    ensures ClockEvicted(before, now[v := Empty], start, v)
  {
    var n := |before|;
    assert v !in {};
    forall k | k in Unpinned(before)
      ensures if before[k].ref then i <= Turn(start, k, n) + n else i <= Turn(start, k, n)
    {
      assert k !in {};
    }
    SweepStep(before, now, start, i, Any, {}, v);
    assert {} + {v} == {v};
  }

  lemma NothingTakenTwice(before: seq<Cell>, now: seq<Cell>, start: int)
    requires 0 <= start < |before|
    requires SweptTo(before, now, start, 2 * |before|, Any, {})
    ensures Unpinned(before) == {} && now == before
  {
    SweepTakesAll(before, now, start, 2 * |before|, Any, {});
    forall k | 0 <= k < |before| ensures now[k] == before[k] {
      assert k !in Unpinned(before);
    }
  }

  /** At most one slot can be the victim. */
  lemma ClockVictimUnique(cells: seq<Cell>, start: int, u: int, v: int)
    requires 0 <= start < |cells|
    requires IsClockVictim(cells, start, u) && IsClockVictim(cells, start, v)
    ensures u == v
  {
    assert Turn(start, u, |cells|) == Turn(start, v, |cells|);
  }

  // ----- Batches -----

  ghost function SetOf(slots: seq<int>): set<int> { set v | v in slots }

  lemma {:induction false} CountOf(slots: seq<int>)
    requires forall j, k :: 0 <= j < k < |slots| ==> slots[j] != slots[k]
    ensures |SetOf(slots)| == |slots|
  {
    if slots == [] {
      assert SetOf(slots) == {};
    } else {
      var n := |slots| - 1;
      CountOf(slots[..n]);
      assert slots == slots[..n] + [slots[n]];
      assert SetOf(slots) == SetOf(slots[..n]) + {slots[n]};
      assert slots[n] !in SetOf(slots[..n]);
    }
  }

  /** The step at which a sweep from `start` takes slot `v`, if it gets that far. */
  function TakeTime(cells: seq<Cell>, start: int, v: int): int
  {
    Turn(start, v, |cells|) + if 0 <= v < |cells| && cells[v].Full? && cells[v].ref then |cells| else 0
  }

  /** The slots are listed in the order in which a sweep takes them. */
  ghost predicate InOrder(cells: seq<Cell>, start: int, got: seq<int>)
  {
    forall j, k :: 0 <= j < k < |got| ==> TakeTime(cells, start, got[j]) < TakeTime(cells, start, got[k])
  }

  /** In `i` steps from `start` a sweep makes `now` of `before` and takes `got`, in this order. */
  ghost predicate Swept(before: seq<Cell>, now: seq<Cell>, start: int, i: int, cls: Class, got: seq<int>)
  {
    SweptTo(before, now, start, i, cls, SetOf(got)) && InOrder(before, start, got)
  }

  lemma SweptCount(before: seq<Cell>, now: seq<Cell>, start: int, i: int, cls: Class, got: seq<int>)
    requires Swept(before, now, start, i, cls, got)
    ensures |SetOf(got)| == |got|
  {
    CountOf(got);
  }

  /** What a sweep takes at step `i` has that time, and what it has taken before an earlier one. */
  lemma TakenInTime(before: seq<Cell>, now: seq<Cell>, start: int, i: int, cls: Class, taken: set<int>, idx: int)
    requires 0 <= start < |before| && 0 <= i < 2 * |before| && idx == At(start, i, |before|)
    requires SweptTo(before, now, start, i, cls, taken)
    ensures forall v :: v in taken ==> TakeTime(before, start, v) < i
    ensures 0 <= idx < |before| && (Takes(now[idx], cls) ==> TakeTime(before, start, idx) == i)
  {
  }

  /** One step of a sweep, with the order of what it takes. */
  lemma SweptStep(before: seq<Cell>, now: seq<Cell>, start: int, i: int, cls: Class, got: seq<int>, idx: int)
    requires 0 <= start < |before| && 0 <= i < 2 * |before| && idx == At(start, i, |before|)
    requires Swept(before, now, start, i, cls, got)
    ensures 0 <= idx < |before|
    ensures Swept(before, now[idx := Visited(now[idx], cls)], start, i + 1, cls,
                  if Takes(now[idx], cls) then got + [idx] else got)
    ensures Takes(now[idx], cls) ==> idx !in got
  {
    SweepStep(before, now, start, i, cls, SetOf(got), idx);
    TakenInTime(before, now, start, i, cls, SetOf(got), idx);
    if Takes(now[idx], cls) {
      assert SetOf(got + [idx]) == SetOf(got) + {idx};
      forall j, k | 0 <= j < k < |got + [idx]|
        ensures TakeTime(before, start, (got + [idx])[j]) < TakeTime(before, start, (got + [idx])[k])
      {
        if k == |got| { assert got[j] in SetOf(got); }
      }
    }
  }

  lemma SweptStart(before: seq<Cell>, start: int, cls: Class)
    requires 0 <= start < |before|
    ensures Swept(before, before, start, 0, cls, [])
  {
    SweepStart(before, start, cls);
    assert SetOf([]) == {};
  }

  /** The slots the frames say they belong to. */
  ghost function Slots(got: seq<Frame>): seq<int> { seq(|got|, k requires 0 <= k < |got| => got[k].slot) }

  lemma SlotsAppend(got: seq<Frame>, f: Frame)
    ensures Slots(got + [f]) == Slots(got) + [f.slot]
  {
  }

  lemma SlotsConcat(got: seq<Frame>, more: seq<Frame>)
    ensures Slots(got + more) == Slots(got) + Slots(more)
  {
  }

  /** Every frame of the batch stood in its slot. */
  ghost predicate StoodIn(frames: seq<Frame?>, got: seq<Frame>)
  {
    forall k :: 0 <= k < |got| ==> 0 <= got[k].slot < |frames| && frames[got[k].slot] == got[k]
  }

  /** Slots are only ever emptied. */
  ghost predicate OnlyEmptied(before: seq<Frame?>, now: seq<Frame?>)
  {
    |now| == |before| && forall k :: 0 <= k < |now| ==> now[k] == before[k] || now[k] == null
  }

  lemma OnlyEmptiedTwice(a: seq<Frame?>, b: seq<Frame?>, c: seq<Frame?>)
    requires OnlyEmptied(a, b) && OnlyEmptied(b, c)
    ensures OnlyEmptied(a, c)
  {
  }

  lemma StoodBefore(a: seq<Frame?>, b: seq<Frame?>, got: seq<Frame>, more: seq<Frame>)
    requires OnlyEmptied(a, b) && StoodIn(a, got) && StoodIn(b, more)
    ensures StoodIn(a, got + more)
  {
  }

  /** A frame whose bit was set is taken only if every clear one of its class is taken.
      The classes are the preferred owner and all others; without a preference there is one class. */
  ghost predicate FairWithin(cells: seq<Cell>, taken: set<int>, prefer: FrameOwner)
    requires forall v :: v in taken ==> 0 <= v < |cells| && cells[v].Full?
  {
    forall u, w | u in taken && cells[u].ref && w in Unpinned(cells) && !cells[w].ref
                  && (prefer == OwnerFree || (cells[u].owner == prefer <==> cells[w].owner == prefer)) :: w in taken
  }

  /** What a batch of at most `n` frames preferring `prefer` must return. */
  ghost predicate IsBatch(cells: seq<Cell>, n: int, prefer: FrameOwner, taken: set<int>)
  {
    && taken <= Unpinned(cells)
    && |taken| == Min(n, |Unpinned(cells)|)
    && FairWithin(cells, taken, prefer)
    && match prefer
       case OwnerFree => true
       case _ => |taken * Candidates(cells, Only(prefer))| == Min(n, |Candidates(cells, Only(prefer))|)
  }

  /** The preferred pass filled the batch. */
  lemma BatchFilledByPreferred(cells: seq<Cell>, now: seq<Cell>, start: int, i: int, prefer: FrameOwner, taken: set<int>, n: int)
    requires 0 <= start < |cells|
    requires prefer != OwnerFree
    requires SweptTo(cells, now, start, i, Only(prefer), taken) && |taken| == n
    ensures IsBatch(cells, n, prefer, taken)
  {
    var mine := Candidates(cells, Only(prefer));
    SweepTakesMin(cells, now, start, i, Only(prefer), taken, n);
    assert mine <= Unpinned(cells);
    SubsetCardinality(taken, Unpinned(cells));
    assert taken * mine == taken;
    forall u, w | u in taken && cells[u].ref && w in Unpinned(cells) && !cells[w].ref && cells[w].owner == prefer
      ensures w in taken
    {
      SweepIsFair(cells, now, start, i, Only(prefer), taken, u, w);
    }
  }

  /** The preferred pass took all of its class; the general pass works on the rest. */
  lemma BatchFromTwoPasses(cells: seq<Cell>, mid: seq<Cell>, now: seq<Cell>, start: int,
                           i: int, first: set<int>, second: set<int>, prefer: FrameOwner, n: int)
    requires 0 <= start < |cells| && prefer != OwnerFree
    requires SweptTo(cells, mid, start, 2 * |cells|, Only(prefer), first) && |first| < n
    requires SweptTo(mid, now, start, i, Any, second)
    requires |second| == n - |first| || (i == 2 * |cells| && |second| <= n - |first|)
    ensures first !! second && IsBatch(cells, n, prefer, first + second)
  {
    SweepTakesAll(cells, mid, start, 2 * |cells|, Only(prefer), first);
    LeftByPreferred(cells, mid, start, first, prefer);
    SweepTakesMin(mid, now, start, i, Any, second, n - |first|);
    CountOfBoth(first, second, Unpinned(cells), n);
    assert (first + second) * first == first;
    FairOfBoth(cells, mid, now, start, i, first, second, prefer);
  }

  /** The preferred sweep leaves the other unpinned frames as they were. */
  lemma LeftByPreferred(cells: seq<Cell>, mid: seq<Cell>, start: int, first: set<int>, prefer: FrameOwner)
    requires 0 <= start < |cells| && SweptTo(cells, mid, start, 2 * |cells|, Only(prefer), first)
    requires first == Candidates(cells, Only(prefer))
    ensures Unpinned(mid) == Unpinned(cells) - first && first <= Unpinned(cells)
    ensures forall k :: k in Unpinned(mid) ==> mid[k] == cells[k]
  {
  }

  lemma CountOfBoth(first: set<int>, second: set<int>, unpinned: set<int>, n: int)
    requires first <= unpinned && second <= unpinned - first && |first| < n
    requires |second| == Min(n - |first|, |unpinned - first|)
    ensures first !! second && first + second <= unpinned && |first + second| == Min(n, |unpinned|)
  {
    assert first + (unpinned - first) == unpinned;
    assert |first + second| == |first| + |second|;
  }

  lemma FairOfBoth(cells: seq<Cell>, mid: seq<Cell>, now: seq<Cell>, start: int, i: int,
                   first: set<int>, second: set<int>, prefer: FrameOwner)
    requires 0 <= start < |cells| == |mid| && prefer != OwnerFree
    requires first == Candidates(cells, Only(prefer)) && SweptTo(mid, now, start, i, Any, second)
    requires Unpinned(mid) == Unpinned(cells) - first && second <= Unpinned(mid)
    requires forall k :: k in Unpinned(mid) ==> mid[k] == cells[k]
    ensures FairWithin(cells, first + second, prefer)
  {
    forall u, w | u in first + second && cells[u].ref && w in Unpinned(cells) && !cells[w].ref
                  && (cells[u].owner == prefer <==> cells[w].owner == prefer)
      ensures w in first + second
    {
      if cells[w].owner != prefer {
        SweepIsFair(mid, now, start, i, Any, second, u, w);
      }
    }
  }

  /** With no preference there is only the general pass. */
  lemma BatchFromOnePass(cells: seq<Cell>, now: seq<Cell>, start: int, i: int, taken: set<int>, n: int)
    requires 0 <= start < |cells|
    requires SweptTo(cells, now, start, i, Any, taken)
    requires |taken| == n || (i == 2 * |cells| && |taken| <= n)
    ensures IsBatch(cells, n, OwnerFree, taken)
  {
    SweepTakesMin(cells, now, start, i, Any, taken, n);
    forall u, w | u in taken && cells[u].ref && w in Unpinned(cells) && !cells[w].ref ensures w in taken {
      SweepIsFair(cells, now, start, i, Any, taken, u, w);
    }
  }

  /** The two sweeps of a batch: what each took, in order, and in how many steps. */
  datatype Sweeps = Sweeps(first: seq<int>, i: int, second: seq<int>, j: int)

  /** The slots between the two sweeps. */
  ghost function Between(cells: seq<Cell>, start: int, i: int, prefer: FrameOwner): seq<Cell>
  {
    if prefer == OwnerFree then cells
    else seq(|cells|, k requires 0 <= k < |cells| => After(cells[k], Turn(start, k, |cells|), i, |cells|, Only(prefer)))
  }

  /** `w` accounts for the whole new state: every slot, every reference bit and the hand. */
  ghost predicate Accounts(w: Sweeps, cells: seq<Cell>, now: seq<Cell>, start: int, hand: int, prefer: FrameOwner)
  {
    var mid := Between(cells, start, w.i, prefer);
    && (if prefer == OwnerFree then w.first == [] else Swept(cells, mid, start, w.i, Only(prefer), w.first))
    && Swept(mid, now, start, w.j, Any, w.second)
    && 0 <= w.j <= 2 * |cells| && hand == At(start, w.j, |cells|)
  }

  lemma SweptIsBetween(cells: seq<Cell>, mid: seq<Cell>, start: int, i: int, prefer: FrameOwner, first: set<int>)
    requires prefer != OwnerFree && SweptTo(cells, mid, start, i, Only(prefer), first)
    ensures mid == Between(cells, start, i, prefer)
  {
  }

  lemma AccountsIdle(cells: seq<Cell>, start: int, prefer: FrameOwner)
    requires 0 <= start < |cells|
    ensures Accounts(Sweeps([], 0, [], 0), cells, cells, start, start, prefer)
  {
    SweptStart(cells, start, Only(prefer));
    SweptStart(cells, start, Any);
    assert Between(cells, start, 0, prefer) == cells;
  }

  /** The slots emptied are exactly those `taken`. */
  ghost predicate EmptiedExactly(cells: seq<Cell>, now: seq<Cell>, taken: set<int>)
  {
    |now| == |cells| && forall k :: 0 <= k < |now| ==> (now[k].Empty? <==> cells[k].Empty? || k in taken)
  }

  lemma SweepEmptiesTaken(cells: seq<Cell>, now: seq<Cell>, start: int, i: int, cls: Class, taken: set<int>)
    requires SweptTo(cells, now, start, i, cls, taken)
    ensures EmptiedExactly(cells, now, taken)
  {
  }

  /** Both sweeps together: `first` and `second` are what they took. */
  lemma TwoPasses(cells: seq<Cell>, mid: seq<Cell>, now: seq<Cell>, start: int, i: int, prefer: FrameOwner, n: int,
                  first: set<int>, second: set<int>)
    requires 0 <= start < |cells|
    requires if prefer == OwnerFree then mid == cells && first == {}
             else SweptTo(cells, mid, start, 2 * |cells|, Only(prefer), first)
    requires |first| < n && SweptTo(mid, now, start, i, Any, second)
    requires |second| == n - |first| || (i == 2 * |cells| && |second| <= n - |first|)
    ensures first !! second && IsBatch(cells, n, prefer, first + second)
    ensures |first| + |second| == n || Unpinned(now) == {}
    ensures EmptiedExactly(cells, now, first + second)
  {
    EmptiedByBoth(cells, mid, now, start, i, prefer, first, second);
    if |first| + |second| < n {
      SweepLeavesNone(mid, now, start, Any, second);
    }
    if prefer == OwnerFree {
      BatchFromOnePass(cells, now, start, i, second, n);
      assert first + second == second;
    } else {
      BatchFromTwoPasses(cells, mid, now, start, i, first, second, prefer, n);
    }
  }

  lemma EmptiedByBoth(cells: seq<Cell>, mid: seq<Cell>, now: seq<Cell>, start: int, i: int, prefer: FrameOwner,
                      first: set<int>, second: set<int>)
    requires 0 <= start < |cells|
    requires if prefer == OwnerFree then mid == cells && first == {}
             else SweptTo(cells, mid, start, 2 * |cells|, Only(prefer), first)
    requires SweptTo(mid, now, start, i, Any, second)
    ensures EmptiedExactly(cells, now, first + second)
  {
    SweepEmptiesTaken(mid, now, start, i, Any, second);
    if prefer != OwnerFree {
      SweepEmptiesTaken(cells, mid, start, 2 * |cells|, Only(prefer), first);
    }
  }

  /** `w` tells how the sweeps made `now` of `cells` and brought in the batch `got`. */
  ghost predicate Explains(w: Sweeps, cells: seq<Cell>, now: seq<Cell>, start: int, hand: int,
                           n: int, prefer: FrameOwner, got: seq<int>)
  {
    && Accounts(w, cells, now, start, hand, prefer)
    && got == w.first + w.second && |SetOf(got)| == |got|
    && IsBatch(cells, n, prefer, SetOf(got)) && EmptiedExactly(cells, now, SetOf(got))
  }

  /** A batch of at most `n` frames preferring `prefer` takes the slots `got`, in this order. */
  ghost predicate Batched(cells: seq<Cell>, now: seq<Cell>, start: int, hand: int, n: int, prefer: FrameOwner, got: seq<int>)
  {
    exists w :: Explains(w, cells, now, start, hand, n, prefer, got)
  }

  lemma BatchedByPreferred(cells: seq<Cell>, now: seq<Cell>, start: int, i: int, prefer: FrameOwner, n: int, got: seq<int>)
    requires 0 <= start < |cells| && prefer != OwnerFree && n > 0
    requires Swept(cells, now, start, i, Only(prefer), got) && |got| == n
    ensures Batched(cells, now, start, start, n, prefer, got)
  {
    SweptCount(cells, now, start, i, Only(prefer), got);
    BatchFilledByPreferred(cells, now, start, i, prefer, SetOf(got), n);
    SweepEmptiesTaken(cells, now, start, i, Only(prefer), SetOf(got));
    SweptStart(now, start, Any);
    AccountsBoth(cells, now, now, start, i, 0, prefer, got, []);
    var w := Sweeps(got, i, [], 0);
    assert got + [] == got;
    assert Explains(w, cells, now, start, start, n, prefer, got);
  }

  lemma SetOfConcat(a: seq<int>, b: seq<int>)
    ensures SetOf(a + b) == SetOf(a) + SetOf(b)
  {
  }

  lemma BothTaken(cells: seq<Cell>, mid: seq<Cell>, now: seq<Cell>, start: int, j: int, prefer: FrameOwner, n: int,
                  got: seq<int>, more: seq<int>)
    requires 0 <= start < |cells| && 0 <= j <= 2 * |cells|
    requires if prefer == OwnerFree then mid == cells && got == []
             else SweptTo(cells, mid, start, 2 * |cells|, Only(prefer), SetOf(got))
    requires SweptTo(mid, now, start, j, Any, SetOf(more))
    requires |SetOf(got)| == |got| < n && |SetOf(more)| == |more|
    requires |more| == n - |got| || (j == 2 * |cells| && |more| <= n - |got|)
    ensures |SetOf(got + more)| == |got + more| && IsBatch(cells, n, prefer, SetOf(got + more))
    ensures EmptiedExactly(cells, now, SetOf(got + more))
    ensures |got + more| == n || (|got + more| < n && Unpinned(now) == {})
  {
    TwoPasses(cells, mid, now, start, j, prefer, n, SetOf(got), SetOf(more));
    SetOfConcat(got, more);
  }

  lemma BatchedByBoth(cells: seq<Cell>, mid: seq<Cell>, now: seq<Cell>, start: int, i: int, j: int, prefer: FrameOwner, n: int,
                      got: seq<int>, more: seq<int>)
    requires 0 <= start < |cells| && 0 <= j <= 2 * |cells|
    requires if prefer == OwnerFree then mid == cells && got == []
             else i == 2 * |cells| && Swept(cells, mid, start, i, Only(prefer), got)
    requires |got| < n && Swept(mid, now, start, j, Any, more)
    requires |more| == n - |got| || (j == 2 * |cells| && |more| <= n - |got|)
    ensures Batched(cells, now, start, At(start, j, |cells|), n, prefer, got + more)
    ensures |got + more| == n || (|got + more| < n && Unpinned(now) == {})
  {
    if prefer != OwnerFree { SweptCount(cells, mid, start, i, Only(prefer), got); }
    SweptCount(mid, now, start, j, Any, more);
    BothTaken(cells, mid, now, start, j, prefer, n, got, more);
    AccountsBoth(cells, mid, now, start, i, j, prefer, got, more);
    var w := Sweeps(got, i, more, j);
    assert Explains(w, cells, now, start, At(start, j, |cells|), n, prefer, got + more);
  }

  lemma AccountsBoth(cells: seq<Cell>, mid: seq<Cell>, now: seq<Cell>, start: int, i: int, j: int, prefer: FrameOwner,
                     first: seq<int>, second: seq<int>)
    requires 0 <= start < |cells| && 0 <= j <= 2 * |cells|
    requires if prefer == OwnerFree then mid == cells && first == [] else Swept(cells, mid, start, i, Only(prefer), first)
    requires Swept(mid, now, start, j, Any, second)
    ensures Accounts(Sweeps(first, i, second, j), cells, now, start, At(start, j, |cells|), prefer)
  {
    if prefer != OwnerFree { SweptIsBetween(cells, mid, start, i, prefer, SetOf(first)); }
  }

  lemma EmptyBatch(cells: seq<Cell>, n: int, prefer: FrameOwner)
    requires Unpinned(cells) == {} && n > 0
    ensures IsBatch(cells, n, prefer, {})
  {
    assert Candidates(cells, Only(prefer)) <= Unpinned(cells);
  }

  lemma BatchedIdle(cells: seq<Cell>, start: int, n: int, prefer: FrameOwner)
    requires 0 <= start < |cells| && Unpinned(cells) == {} && n > 0
    ensures Batched(cells, cells, start, start, n, prefer, [])
  {
    AccountsIdle(cells, start, prefer);
    EmptyBatch(cells, n, prefer);
    var w := Sweeps([], 0, [], 0);
    assert SetOf([]) == {};
    assert Explains(w, cells, cells, start, start, n, prefer, []);
  }

  /** What a batch means for its caller: exactly min(n, unpinned) distinct unpinned frames, as
      many of the preferred owner as possible, fairly, and exactly their slots emptied. */
  lemma BatchedMeans(cells: seq<Cell>, now: seq<Cell>, start: int, hand: int, n: int, prefer: FrameOwner, got: seq<int>)
    requires Batched(cells, now, start, hand, n, prefer, got)
    ensures |SetOf(got)| == |got| && IsBatch(cells, n, prefer, SetOf(got))
    ensures EmptiedExactly(cells, now, SetOf(got))
  {
  }

  /** Exactly the slots `taken` are emptied and nothing else changes. */
  ghost predicate OnlyTaken(cells: seq<Cell>, now: seq<Cell>, taken: set<int>)
  {
    |now| == |cells| && forall k :: 0 <= k < |cells| ==> now[k] == if k in taken then Empty else cells[k]
  }

  /** Exactly the listed slots, all different and unpinned, have been emptied. */
  ghost predicate ForcedFrom(before: seq<Cell>, now: seq<Cell>, got: seq<int>)
  {
    && (forall j, k :: 0 <= j < k < |got| ==> got[j] != got[k])
    && (forall v :: v in got ==> v in Unpinned(before))
    && OnlyTaken(before, now, SetOf(got))
  }

  lemma ForcedMore(before: seq<Cell>, now: seq<Cell>, got: seq<int>, idx: int)
    requires ForcedFrom(before, now, got) && idx in Unpinned(now)
    ensures ForcedFrom(before, now[idx := Empty], got + [idx])
  {
    assert SetOf(got + [idx]) == SetOf(got) + {idx};
    assert idx !in SetOf(got) && now[idx] == before[idx];
  }

  // ----- The queue -----

  class EvictionQueue {
    const capacity: nat
    const frames: array<Frame?>
    var hand: nat
    var count: nat

    ghost function Filled(): set<int>
      reads frames
    {
      set i | 0 <= i < frames.Length && frames[i] != null
    }

    ghost function Members(): set<Frame>
      reads frames
    {
      set f: Frame | f in frames[..]
    }

    /** Slot `i` holds only a frame whose own slot number is `i`; `count` counts the filled slots. */
    ghost predicate Valid()
      reads this, frames
    {
      && frames.Length == capacity > 0
      && hand < capacity
      && (forall i :: 0 <= i < capacity && frames[i] != null ==> frames[i].slot == i)
      && count == |Filled()|
    }

    ghost function CellOf(f: Frame?): Cell
      reads f
    {
      if f == null then Empty else Full(f.IsPinned(), f.refBit, f.owner)
    }

    ghost function Cells(): seq<Cell>
      reads frames, frames[..]
    {
      seq(frames.Length, i requires 0 <= i < frames.Length
                         reads frames, frames[..] => CellOf(frames[i]))
    }

    constructor (capacity: int)
      ensures Valid() && fresh(frames)
      ensures this.capacity == if capacity < 1 then 1024 else capacity
      ensures count == 0 && hand == 0 && Filled() == {}
    {
      var size := if capacity < 1 then 1024 else capacity;
      this.capacity := size;
      frames := new Frame?[size](_ => null);
      hand := 0;
      count := 0;
      new;
      assert Filled() == {};
    }

    method Add(f: Frame)
      requires Valid()
      modifies this`count, frames, f`refBit
      ensures Valid() && hand == old(hand)
      ensures 0 <= f.slot < capacity ==> frames[f.slot] == f && f.refBit
      ensures forall i :: 0 <= i < capacity && i != f.slot ==> frames[i] == old(frames[i])
      ensures !(0 <= f.slot < capacity) ==> f.refBit == old(f.refBit)
    {
      var slot := f.slot;
      if slot < 0 || slot >= capacity {
        return;
      }
      ghost var before := Filled();
      if frames[slot] == null {
        assert slot !in before && |before + {slot}| == |before| + 1;
        count := count + 1;
      }
      frames[slot] := f;
      f.refBit := true;
      assert Filled() == before + {slot};
      assert old(frames[slot]) != null ==> before + {slot} == before;
    }

    /** Empties slot `idx`. */
    method Take(idx: nat) returns (f: Frame)
      requires Valid() && idx < capacity && frames[idx] != null
      modifies this`count, frames
      ensures Valid() && f == old(frames[idx])
      ensures Cells() == old(Cells())[idx := Empty]
      ensures frames[..] == old(frames[..])[idx := null]
    {
      f := frames[idx];
      ghost var filled := Filled();
      assert idx in filled && |filled - {idx}| == |filled| - 1;
      frames[idx] := null;
      count := count - 1;
      assert Filled() == filled - {idx};
    }

    /** One step of a sweep at slot `idx`: skip, clear the bit, or take the frame. */
    method Visit(idx: nat, cls: Class) returns (victim: Frame?)
      requires Valid() && idx < capacity
      modifies this`count, frames, Members()`refBit
      ensures Valid()
      ensures Cells() == old(Cells())[idx := Visited(old(Cells())[idx], cls)]
      ensures victim == if Takes(old(Cells())[idx], cls) then old(frames[idx]) else null
      ensures frames[..] == if victim == null then old(frames[..]) else old(frames[..])[idx := null]
    {
      ghost var before := Cells();
      var f := frames[idx];
      if f == null || f.IsPinned() || (cls.Only? && f.owner != cls.owner) {
        return null;
      }
      if f.refBit {
        f.refBit := false;
        assert forall k :: 0 <= k < capacity && k != idx ==> frames[k] != f;
        assert Cells() == before[idx := before[idx].(ref := false)];
        return null;
      }
      victim := Take(idx);
    }

    /** Step `i` of a sweep that started at `start` over the slots `before` and has taken `got`. */
    method SweepVisit(idx: nat, cls: Class, ghost before: seq<Cell>, ghost start: int, ghost i: int, ghost got: seq<int>)
      returns (victim: Frame?)
      requires Valid() && |before| == capacity && 0 <= start < capacity && 0 <= i < 2 * capacity
      requires idx == At(start, i, capacity)
      requires Swept(before, Cells(), start, i, cls, got)
      modifies this`count, frames, Members()`refBit
      ensures Valid()
      ensures victim == null ==>
        frames[..] == old(frames[..]) && Swept(before, Cells(), start, i + 1, cls, got)
      ensures victim != null ==>
        && victim == old(frames[idx]) && victim.slot == idx
        && frames[..] == old(frames[..])[idx := null]
        && Swept(before, Cells(), start, i + 1, cls, got + [idx])
        && (cls == Any && got == [] ==> ClockEvicted(before, Cells(), start, idx))
    {
      ghost var now := Cells();
      SweptStep(before, now, start, i, cls, got, idx);
      if Takes(now[idx], cls) && cls == Any && got == [] {
        assert SetOf(got) == {};
        FirstTakenIsClockVictim(before, now, start, i, idx);
      }
      victim := Visit(idx, cls);
    }

    lemma EmptyMeansNoCandidates()
      requires Valid() && count == 0
      ensures Unpinned(Cells()) == {}
    {
      assert Filled() == {};
      assert forall i :: 0 <= i < capacity ==> i !in Filled();
    }

    lemma EmptiedFrames(before: seq<Frame?>, cells: seq<Cell>, taken: set<int>)
      requires Valid() && |before| == |cells| == capacity
      requires forall k :: 0 <= k < capacity ==> (cells[k].Empty? <==> before[k] == null)
      requires OnlyEmptied(before, frames[..]) && EmptiedExactly(cells, Cells(), taken)
      ensures forall k :: 0 <= k < capacity ==> frames[k] == if k in taken then null else before[k]
    {
      forall k | 0 <= k < capacity ensures frames[k] == if k in taken then null else before[k] {
        assert Cells()[k] == CellOf(frames[k]) && frames[..][k] == frames[k];
      }
    }

    /** The fallback of `EvictOne`: the first unpinned frame clockwise, whatever its bit. */
    method ForceOne() returns (victim: Frame?)
      requires Valid()
      modifies this`hand, this`count, frames
      ensures Valid()
      ensures victim == null <==> Unpinned(old(Cells())) == {}
      ensures victim == null ==> Cells() == old(Cells()) && hand == old(hand) && frames[..] == old(frames[..])
      ensures victim != null ==>
        && var v := victim.slot;
        && v in Unpinned(old(Cells())) && victim == old(frames[v])
        && (forall k :: k in Unpinned(old(Cells())) ==> Turn(old(hand), v, capacity) <= Turn(old(hand), k, capacity))
        && hand == Next(v, capacity)
        && Cells() == old(Cells())[v := Empty]
    {
      var idx, found := FindUnpinned();
      if !found {
        return null;
      }
      victim := Take(idx);
      NextIsModulo(idx, capacity);
      hand := (idx + 1) % capacity;
    }

    /** The first slot clockwise from the hand whose frame is unpinned. */
    method FindUnpinned() returns (idx: nat, found: bool)
      requires Valid()
      ensures found <==> Unpinned(Cells()) != {}
      ensures found ==> idx in Unpinned(Cells())
      ensures found ==> forall k :: k in Unpinned(Cells()) ==> Turn(hand, idx, capacity) <= Turn(hand, k, capacity)
    {
      idx, found := 0, false;
      for i := 0 to capacity
        invariant forall k :: k in Unpinned(Cells()) ==> i <= Turn(hand, k, capacity)
      {
        idx := IndexFromHand(i);
        var f := frames[idx];
        assert Cells()[idx] == CellOf(f);
        if f != null && !f.IsPinned() {
          assert idx in Unpinned(Cells());
          return idx, true;
        }
        assert forall k :: 0 <= k < capacity && Turn(hand, k, capacity) == i ==> k == idx;
      }
    }

    /** The two clock rounds of `EvictOne`. */
    method ClockRounds() returns (victim: Frame?)
      requires Valid()
      modifies this`hand, this`count, frames, Members()`refBit
      ensures Valid()
      ensures victim == null ==>
        Unpinned(old(Cells())) == {} && Cells() == old(Cells()) && hand == old(hand) && frames[..] == old(frames[..])
      ensures victim != null ==>
        && ClockEvicted(old(Cells()), Cells(), old(hand), victim.slot)
        && victim == old(frames[..])[victim.slot]
        && hand == Next(victim.slot, capacity)
        && frames[..] == old(frames[..])[victim.slot := null]
    {
      ghost var before, start := Cells(), hand;
      SweptStart(before, start, Any);
      var limit := 2 * capacity;
      for i := 0 to limit
        invariant Valid() && hand == At(start, i, capacity)
        invariant Swept(before, Cells(), start, i, Any, [])
        invariant frames[..] == old(frames[..])
      {
        NextIsModulo(hand, capacity);
        var idx := hand;
        hand := (hand + 1) % capacity;
        victim := SweepVisit(idx, Any, before, start, i, []);
        if victim != null {
          return;
        }
      }
      assert SetOf([]) == {};
      NothingTakenTwice(before, Cells(), start);
      victim := null;
    }

    /** The fallback is never what finds the victim: if the clock rounds find none, nothing is unpinned. */
    method EvictOne() returns (victim: Frame?)
      requires Valid()
      modifies this`hand, this`count, frames, Members()`refBit
      ensures Valid()
      ensures victim == null <==> Unpinned(old(Cells())) == {}
      ensures victim == null ==> Cells() == old(Cells()) && hand == old(hand) && frames[..] == old(frames[..])
      ensures victim != null ==>
        && ClockEvicted(old(Cells()), Cells(), old(hand), victim.slot)
        && victim == old(frames[..])[victim.slot]
        && hand == Next(victim.slot, capacity)
        && frames[..] == old(frames[..])[victim.slot := null]
    {
      if count == 0 {
        EmptyMeansNoCandidates();
        return null;
      }
      victim := ClockRounds();
      if victim != null {
        assert victim.slot in Unpinned(old(Cells()));
        return;
      }
      victim := ForceOne();
    }

    method AdvanceHand() returns (idx: nat)
      requires Valid()
      modifies this`hand
      ensures Valid() && idx == old(hand) && hand == Next(idx, capacity)
    {
      NextIsModulo(hand, capacity);
      idx := hand;
      hand := (hand + 1) % capacity;
    }

    method IndexFromHand(i: nat) returns (idx: nat)
      requires Valid() && i <= 2 * capacity
      ensures idx == At(hand, i, capacity) && idx < capacity
    {
      AtIsModulo(hand, i, capacity);
      idx := (hand + i) % capacity;
    }

    /** `i` steps after a sweep began at `start` over the slots `before`, holding the frames
        `first`, it has brought in `got` and only emptied slots. */
    ghost predicate Amid(before: seq<Cell>, start: int, i: int, cls: Class, got: seq<Frame>, first: seq<Frame?>)
      reads this, frames, frames[..]
    {
      && Valid() && |before| == capacity && 0 <= start < capacity
      && Swept(before, Cells(), start, i, cls, Slots(got)) && StoodIn(first, got)
      && OnlyEmptied(first, frames[..])
    }

    lemma AmidStart(cls: Class)
      requires Valid()
      ensures Amid(Cells(), hand, 0, cls, [], frames[..])
    {
      SweptStart(Cells(), hand, cls);
      assert Slots([]) == [];
    }

    /** A sweep step that appends what it takes to the batch. */
    method Collect(idx: nat, cls: Class, got: seq<Frame>,
                   ghost before: seq<Cell>, ghost start: int, ghost i: int, ghost first: seq<Frame?>)
      returns (more: seq<Frame>)
      requires Amid(before, start, i, cls, got, first)
      requires 0 <= i < 2 * capacity && idx == At(start, i, capacity)
      modifies this`count, frames, Members()`refBit
      ensures Amid(before, start, i + 1, cls, more, first) && Members() <= old(Members())
      ensures |got| <= |more| <= |got| + 1
    {
      ghost var now := frames[..];
      var f := SweepVisit(idx, cls, before, start, i, Slots(got));
      OnlyEmptiedTwice(first, now, frames[..]);
      FewerMembers(now);
      if f == null {
        more := got;
      } else {
        var victim: Frame := f;
        more := got + [victim];
        SlotsAppend(got, victim);
      }
    }

    lemma FewerMembers(before: seq<Frame?>)
      requires OnlyEmptied(before, frames[..])
      ensures forall f :: f in Members() ==> f in before
    {
    }

    /** First pass of a batch: frames of `owner`, without moving the hand. */
    method PreferredPass(n: int, owner: FrameOwner) returns (got: seq<Frame>, ghost steps: int)
      requires Valid() && n > 0
      modifies this`count, frames, Members()`refBit
      ensures Amid(old(Cells()), hand, steps, Only(owner), got, old(frames[..]))
      ensures |got| == n || (steps == 2 * capacity && |got| <= n)
    {
      ghost var before, first := Cells(), frames[..];
      AmidStart(Only(owner));
      got := [];
      var i := 0;
      while i < 2 * capacity && |got| < n
        invariant 0 <= i <= 2 * capacity && |got| <= n
        invariant Amid(before, hand, i, Only(owner), got, first) && Members() <= old(Members())
      {
        var idx := IndexFromHand(i);
        got := Collect(idx, Only(owner), got, before, hand, i, first);
        i := i + 1;
      }
      steps := i;
    }

    /** Second pass of a batch: any unpinned frame, moving the hand. */
    method AnyPass(room: int) returns (got: seq<Frame>, ghost steps: int)
      requires Valid() && room > 0
      modifies this`hand, this`count, frames, Members()`refBit
      ensures 0 <= steps <= 2 * capacity && hand == At(old(hand), steps, capacity)
      ensures Amid(old(Cells()), old(hand), steps, Any, got, old(frames[..]))
      ensures |got| == room || (steps == 2 * capacity && |got| <= room)
    {
      ghost var before, start, first := Cells(), hand, frames[..];
      AmidStart(Any);
      got := [];
      var i := 0;
      while i < 2 * capacity && |got| < room
        invariant 0 <= i <= 2 * capacity && |got| <= room && hand == At(start, i, capacity)
        invariant Amid(before, start, i, Any, got, first) && Members() <= old(Members())
      {
        got := CollectAtHand(got, before, start, i, first);
        i := i + 1;
      }
      steps := i;
    }

    method CollectAtHand(got: seq<Frame>, ghost before: seq<Cell>, ghost start: int, ghost i: int, ghost first: seq<Frame?>)
      returns (more: seq<Frame>)
      requires Amid(before, start, i, Any, got, first) && 0 <= i < 2 * capacity && hand == At(start, i, capacity)
      modifies this`hand, this`count, frames, Members()`refBit
      ensures Amid(before, start, i + 1, Any, more, first) && hand == At(start, i + 1, capacity)
      ensures Members() <= old(Members())
      ensures |got| <= |more| <= |got| + 1
    {
      var idx := AdvanceHand();
      more := Collect(idx, Any, got, before, start, i, first);
    }

    /** Force-evicts slot `idx` if it holds an unpinned frame. */
    method ForceVisit(idx: nat) returns (victim: Frame?)
      requires Valid() && idx < capacity
      modifies this`hand, this`count, frames
      ensures Valid()
      ensures victim == null ==>
        idx !in Unpinned(old(Cells())) && Cells() == old(Cells()) && hand == old(hand) && frames[..] == old(frames[..])
      ensures victim != null ==>
        && idx in Unpinned(old(Cells())) && victim.slot == idx && victim == old(frames[idx])
        && Cells() == old(Cells())[idx := Empty] && hand == Next(idx, capacity)
        && frames[..] == old(frames[..])[idx := null]
    {
      var f := frames[idx];
      assert Cells()[idx] == CellOf(f);
      if f == null || f.IsPinned() {
        return null;
      }
      victim := Take(idx);
      NextIsModulo(idx, capacity);
      hand := (idx + 1) % capacity;
    }

    /** After `i` steps of the fallback that began at `start`, the frames `got` have been
        force-evicted, and nothing else has changed. */
    ghost predicate Forcing(before: seq<Cell>, start: int, i: int, got: seq<Frame>, first: seq<Frame?>)
      reads this, frames, frames[..]
    {
      && Valid() && |before| == capacity && 0 <= start < capacity
      && ForcedFrom(before, Cells(), Slots(got)) && StoodIn(first, got) && OnlyEmptied(first, frames[..])
      && (got == [] ==> hand == start && forall k :: k in Unpinned(before) ==> i <= Turn(start, k, capacity))
    }

    method ForceStep(i: nat, got: seq<Frame>, ghost before: seq<Cell>, ghost start: int, ghost first: seq<Frame?>)
      returns (more: seq<Frame>)
      requires Forcing(before, start, i, got, first) && i < capacity
      modifies this`hand, this`count, frames
      ensures Forcing(before, start, i + 1, more, first) && |got| <= |more| <= |got| + 1
    {
      ghost var now := frames[..];
      var idx := IndexFromHand(i);
      if idx in Unpinned(Cells()) {
        ForcedMore(before, Cells(), Slots(got), idx);
      } else {
        NotForced(before, start, i, got, first, idx);
      }
      var f := ForceVisit(idx);
      OnlyEmptiedTwice(first, now, frames[..]);
      if f == null {
        more := got;
      } else {
        var victim: Frame := f;
        more := got + [victim];
        SlotsAppend(got, victim);
      }
    }

    lemma NotForced(before: seq<Cell>, start: int, i: nat, got: seq<Frame>, first: seq<Frame?>, idx: nat)
      requires Forcing(before, start, i, got, first) && i < capacity
      requires idx == At(hand, i, capacity) && idx !in Unpinned(Cells())
      ensures Forcing(before, start, i + 1, got, first)
    {
      if got == [] {
        assert Unpinned(before) == Unpinned(Cells());
        assert forall k :: 0 <= k < capacity && Turn(start, k, capacity) == i ==> k == idx;
      }
    }

    /** Fallback of a batch. The index is computed from a hand that itself moves, so it may
        pass frames over; but it empties exactly the slots of the distinct unpinned frames it
        returns, changes nothing else, and selects nothing exactly when nothing is unpinned. */
    method ForcePass(room: int) returns (got: seq<Frame>)
      requires Valid() && room > 0
      modifies this`hand, this`count, frames
      ensures Valid() && |got| <= room && OnlyEmptied(old(frames[..]), frames[..])
      ensures ForcedFrom(old(Cells()), Cells(), Slots(got)) && StoodIn(old(frames[..]), got)
      ensures got == [] <==> Unpinned(old(Cells())) == {}
      ensures got == [] ==> hand == old(hand)
    {
      got := [];
      assert Slots(got) == [] && SetOf([]) == {};
      var i := 0;
      while i < capacity && |got| < room
        invariant 0 <= i <= capacity && |got| <= room
        invariant Forcing(old(Cells()), old(hand), i, got, old(frames[..]))
      {
        got := ForceStep(i, got, old(Cells()), old(hand), old(frames[..]));
        i := i + 1;
      }
      assert got != [] ==> Slots(got)[0] in Unpinned(old(Cells()));
    }

    /** The two sweeps of a batch. They leave an unpinned frame behind only if the batch is full. */
    method SweepPasses(n: int, prefer: FrameOwner) returns (got: seq<Frame>)
      requires Valid() && n > 0
      modifies this`hand, this`count, frames, Members()`refBit
      ensures Valid() && OnlyEmptied(old(frames[..]), frames[..])
      ensures Batched(old(Cells()), Cells(), old(hand), hand, n, prefer, Slots(got)) && StoodIn(old(frames[..]), got)
      ensures |got| == n || (|got| < n && Unpinned(Cells()) == {})
    {
      got := [];
      ghost var i := 0;
      if prefer != OwnerFree {
        got, i := PreferredPass(n, prefer);
        if |got| == n {
          BatchedByPreferred(old(Cells()), Cells(), hand, i, prefer, n, Slots(got));
          return;
        }
      }
      ghost var mid, frames0 := Cells(), frames[..];
      var more: seq<Frame>;
      ghost var j;
      more, j := AnyPass(n - |got|);
      OnlyEmptiedTwice(old(frames[..]), frames0, frames[..]);
      StoodBefore(old(frames[..]), frames0, got, more);
      BatchedByBoth(old(Cells()), mid, Cells(), old(hand), i, j, prefer, n, Slots(got), Slots(more));
      SlotsConcat(got, more);
      got := got + more;
    }

    /** With nothing unpinned left, the fallback changes nothing. */
    method ForceNothing(room: int) returns (rest: seq<Frame>)
      requires Valid() && room > 0 && Unpinned(Cells()) == {}
      modifies this`hand, this`count, frames
      ensures Valid() && rest == []
      ensures Cells() == old(Cells()) && hand == old(hand) && frames[..] == old(frames[..])
    {
      ghost var before := frames[..];
      rest := ForcePass(room);
      forall k | 0 <= k < capacity ensures frames[k] == before[k] {
        assert Cells()[k] == CellOf(frames[k]) && old(Cells())[k] == old(CellOf(frames[k]));
        assert frames[..][k] == frames[k];
      }
    }

    /** So after the sweeps it adds nothing to the batch. */
    method ForceRest(got: seq<Frame>, n: int) returns (all: seq<Frame>, ghost forced: seq<Frame>)
      requires Valid() && (|got| == n || (|got| < n && Unpinned(Cells()) == {}))
      modifies this`hand, this`count, frames
      ensures Valid() && all == got && forced == []
      ensures Cells() == old(Cells()) && hand == old(hand) && frames[..] == old(frames[..])
    {
      all, forced := got, [];
      if |got| < n {
        var rest := ForceNothing(n - |got|);
        forced := rest;
        all := got + rest;
      }
    }

    /** The batch, and the whole new state, are those of the two sweeps; `forced` is what the
        fallback selected: always nothing. */
    method EvictBatch(n: int, prefer: FrameOwner) returns (got: seq<Frame>, ghost forced: seq<Frame>)
      requires Valid()
      modifies this`hand, this`count, frames, Members()`refBit
      ensures Valid() && forced == [] && OnlyEmptied(old(frames[..]), frames[..])
      ensures n > 0 ==> Batched(old(Cells()), Cells(), old(hand), hand, n, prefer, Slots(got))
      ensures StoodIn(old(frames[..]), got)
      ensures n <= 0 ==> got == [] && Cells() == old(Cells()) && hand == old(hand)
    {
      if count == 0 || n <= 0 {
        if n > 0 {
          EmptyMeansNoCandidates();
          BatchedIdle(Cells(), hand, n, prefer);
          assert Slots([]) == [];
        }
        return [], [];
      }
      got := SweepPasses(n, prefer);
      got, forced := ForceRest(got, n);
    }

    /** Exactly the slots of the returned frames are emptied. */
    lemma BatchedFrames(before: seq<Frame?>, cells: seq<Cell>, start: int, n: int, prefer: FrameOwner, got: seq<Frame>)
      requires Valid() && |before| == |cells| == capacity
      requires forall k :: 0 <= k < capacity ==> (cells[k].Empty? <==> before[k] == null)
      requires OnlyEmptied(before, frames[..]) && Batched(cells, Cells(), start, hand, n, prefer, Slots(got))
      ensures forall k :: 0 <= k < capacity ==> frames[k] == if k in Slots(got) then null else before[k]
    {
      BatchedMeans(cells, Cells(), start, hand, n, prefer, Slots(got));
      EmptiedFrames(before, cells, SetOf(Slots(got)));
    }
  }
}
