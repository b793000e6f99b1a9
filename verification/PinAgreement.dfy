/** Left alone by the other threads, the stepwise eviction calls of the pin protocol do what
    the sequential queue does: same frames, same order, same slots and bits, same hand. */
module PinAgreement {
  import opened Eviction
  import opened Ring
  import opened PinProtocol

  /** No frame stands in two slots. */
  ghost predicate OnePlace(slots: seq<Slot>)
  {
    forall j, k :: 0 <= j < k < |slots| && slots[j].Holds? ==> slots[k] != slots[j]
  }

  /** A slot as the sequential sweep sees it. */
  function CellAt(frames: map<FrameId, FrameState>, slot: Slot): Cell
  {
    if slot.Holds? && slot.f in frames
    then Full(frames[slot.f].pins > 0, frames[slot.f].ref, frames[slot.f].owner)
    else Empty
  }

  function CellsOf(s: State): seq<Cell>
  {
    seq(|s.slots|, k requires 0 <= k < |s.slots| => CellAt(s.frames, s.slots[k]))
  }

  /** `ids` are the frames in the slots `got`. */
  ghost predicate Lists(slots: seq<Slot>, got: seq<int>, ids: seq<FrameId>)
  {
    |got| == |ids| && forall k :: 0 <= k < |got| ==> 0 <= got[k] < |slots| && slots[got[k]] == Holds(ids[k])
  }

  // ----- Every frame keeps to one place -----

  lemma StepKeepsOnePlace(s: State, e: Event)
    requires WellFormed(s) && Enabled(s, e) && OnePlace(s.slots)
    ensures OnePlace(Apply(s, e).slots)
  {
    if e.Enqueue? {
      assert forall k :: 0 <= k < |s.slots| ==> s.slots[k] != Holds(e.f);
    }
  }

  lemma {:induction false} RunKeepsOnePlace(states: seq<State>, events: seq<Event>, k: nat)
    requires IsRun(states, events) && OnePlace(states[0].slots) && k < |states|
    ensures OnePlace(states[k].slots)
    decreases k
  {
    if k > 0 {
      RunKeepsOnePlace(states, events, k - 1);
      StepKeepsOnePlace(states[k - 1], events[k - 1]);
    }
  }

  // ----- One visit -----

  ghost predicate Emptying(before: seq<Slot>, now: seq<Slot>)
  {
    |now| == |before| && forall k :: 0 <= k < |now| ==> now[k] == before[k] || now[k] == Nil
  }

  /** `i` steps into a sweep from `start` over `before`, which has taken the slots `got`. */
  ghost predicate Amid(s: State, first: seq<Slot>, before: seq<Cell>, start: int, i: int, cls: Class, got: seq<int>)
  {
    && |before| == |s.slots| && 0 <= start < |before| && 0 <= i <= 2 * |before|
    && Swept(before, CellsOf(s), start, i, cls, got)
    && Emptying(first, s.slots) && OnePlace(s.slots)
  }

  lemma SameCells(s: State, t: State)
    requires t.frames == s.frames && t.slots == s.slots
    ensures CellsOf(t) == CellsOf(s)
  {
  }

  lemma AmidMoves(s: State, t: State, first: seq<Slot>, before: seq<Cell>, start: int, i: int, cls: Class, got: seq<int>)
    requires Amid(s, first, before, start, i, cls, got) && t.frames == s.frames && t.slots == s.slots
    ensures Amid(t, first, before, start, i, cls, got)
  {
    SameCells(s, t);
  }

  /** A slot that fails the test is passed. */
  lemma AmidSkips(s: State, t: State, first: seq<Slot>, before: seq<Cell>, start: int, i: int, cls: Class, got: seq<int>, idx: int)
    requires Amid(s, first, before, start, i, cls, got) && t.frames == s.frames && t.slots == s.slots
    requires i < 2 * |before| && idx == At(start, i, |before|)
    requires !Candidate(CellsOf(s)[idx], cls)
    ensures Amid(t, first, before, start, i + 1, cls, got)
  {
    SameCells(s, t);
    SweptStep(before, CellsOf(s), start, i, cls, got, idx);
    assert CellsOf(s)[idx := CellsOf(s)[idx]] == CellsOf(s);
  }

  /** A frame that passes it loses its bit or its slot. */
  lemma DecideVisits(s: State, cls: Class)
    requires WellFormed(s) && s.ev.Tested? && Sweeping(s.ev.phase) && OnePlace(s.slots)
    requires Candidate(CellsOf(s)[s.ev.idx], cls)
    ensures var idx, t := s.ev.idx, Decide(s);
            && CellsOf(t) == CellsOf(s)[idx := Visited(CellsOf(s)[idx], cls)]
            && t.slots == (if Takes(CellsOf(s)[idx], cls) then s.slots[idx := Nil] else s.slots)
            && t.hand == s.hand
  {
    var idx, t := s.ev.idx, Decide(s);
    forall k | 0 <= k < |s.slots| && k != idx ensures CellsOf(t)[k] == CellsOf(s)[k] {
      assert s.slots[k] != s.slots[idx];
    }
  }

  lemma AmidClears(s: State, first: seq<Slot>, before: seq<Cell>, start: int, i: int, cls: Class, got: seq<int>)
    requires WellFormed(s) && s.ev.Tested? && Sweeping(s.ev.phase)
    requires Amid(s, first, before, start, i, cls, got)
    requires i < 2 * |before| && s.ev.idx == At(start, i, |before|)
    requires Candidate(CellsOf(s)[s.ev.idx], cls) && !Takes(CellsOf(s)[s.ev.idx], cls)
    ensures Amid(Decide(s), first, before, start, i + 1, cls, got)
  {
    DecideVisits(s, cls);
    SweptStep(before, CellsOf(s), start, i, cls, got, s.ev.idx);
  }

  lemma AmidTakes(s: State, first: seq<Slot>, before: seq<Cell>, start: int, i: int, cls: Class, got: seq<int>)
    requires WellFormed(s) && s.ev.Tested? && Sweeping(s.ev.phase)
    requires Amid(s, first, before, start, i, cls, got)
    requires i < 2 * |before| && s.ev.idx == At(start, i, |before|) && Takes(CellsOf(s)[s.ev.idx], cls)
    ensures Amid(Decide(s), first, before, start, i + 1, cls, got + [s.ev.idx])
    ensures first[s.ev.idx] == s.slots[s.ev.idx]
  {
    DecideVisits(s, cls);
    SweptStep(before, CellsOf(s), start, i, cls, got, s.ev.idx);
  }

  /** The class of frames a phase is after. */
  function Wanted(call: Call, phase: Phase): Class
  {
    if phase.Preferred? && call.Batch? then Only(call.prefer) else Any
  }

  predicate Filled(ev: Evictor)
    requires ev.Scanning?
  {
    ev.call.Batch? && |ev.got| >= ev.call.n
  }

  /** A visit tests its slot: it goes on to decide exactly if the slot holds a frame it may take. */
  lemma ScanTests(s: State, idx: int)
    requires WellFormed(s) && s.ev.Scanning? && Sweeping(s.ev.phase) && s.ev.i < 2 * |s.slots| && !Filled(s.ev)
    requires idx == if Circling(s.ev.phase) then s.hand else (s.hand + s.ev.i) % |s.slots|
    ensures var ev, t := s.ev, Scan(s);
            && t.frames == s.frames && t.slots == s.slots
            && t.hand == (if Circling(ev.phase) then (s.hand + 1) % |s.slots| else s.hand)
            && t.ev == (if Candidate(CellsOf(s)[idx], Wanted(ev.call, ev.phase))
                        then Tested(ev.call, ev.phase, ev.i, idx, ev.got, ev.forced)
                        else Scanning(ev.call, ev.phase, ev.i + 1, ev.got, ev.forced))
  {
  }

  lemma ClearingGoesOn(s: State, cls: Class)
    requires WellFormed(s) && s.ev.Tested? && Sweeping(s.ev.phase) && OnePlace(s.slots)
    requires Candidate(CellsOf(s)[s.ev.idx], cls) && !Takes(CellsOf(s)[s.ev.idx], cls)
    ensures Decide(s).ev == Scanning(s.ev.call, s.ev.phase, s.ev.i + 1, s.ev.got, s.ev.forced) && Decide(s).hand == s.hand
  {
  }

  lemma TakingGoesOn(s: State, cls: Class)
    requires WellFormed(s) && s.ev.Tested? && Sweeping(s.ev.phase) && s.ev.call.Batch? && Takes(CellsOf(s)[s.ev.idx], cls)
    ensures Decide(s).ev == Scanning(s.ev.call, s.ev.phase, s.ev.i + 1, s.ev.got + [s.slots[s.ev.idx].f], s.ev.forced)
    ensures Decide(s).hand == s.hand
  {
  }

  lemma ListsMore(slots: seq<Slot>, got: seq<int>, ids: seq<FrameId>, idx: int, f: FrameId)
    requires Lists(slots, got, ids) && 0 <= idx < |slots| && slots[idx] == Holds(f)
    ensures Lists(slots, got + [idx], ids + [f])
  {
  }

  // ----- evictOne -----

  /** What evictOne, called in `s0`, has returned: the clock's victim, or nothing exactly when
      nothing is unpinned. */
  ghost predicate OneDone(s0: State, s: State, ids: seq<FrameId>)
  {
    if Unpinned(CellsOf(s0)) == {} then ids == [] && CellsOf(s) == CellsOf(s0) && s.hand == s0.hand
    else exists v ::
      && ClockEvicted(CellsOf(s0), CellsOf(s), s0.hand, v) && Lists(s0.slots, [v], ids)
      && s.hand == Next(v, |s0.slots|)
  }

  /** The call in progress. */
  ghost predicate OneAmid(s0: State, s: State)
  {
    var n := |s0.slots|;
    match s.ev
    case Scanning(call, phase, i, ids, forced) =>
      && call == One && ids == forced == []
      && if phase.Clock? then Amid(s, s0.slots, CellsOf(s0), s0.hand, i, Any, []) && s.hand == At(s0.hand, i, n)
         else phase.ForceFirst? && Unpinned(CellsOf(s0)) == {} && CellsOf(s) == CellsOf(s0) && s.hand == s0.hand
    case Tested(call, phase, i, idx, ids, forced) =>
      && call == One && phase == Clock && ids == forced == [] && i < 2 * n
      && Amid(s, s0.slots, CellsOf(s0), s0.hand, i, Any, []) && idx == At(s0.hand, i, n) && s.hand == At(s0.hand, i + 1, n)
      && idx < |s.slots| && Candidate(CellsOf(s)[idx], Any)
    case Returned(ids, forced) => forced == [] && OneDone(s0, s, ids)
    case Quiet => false
  }

  lemma NextAt(start: int, i: int, n: int)
    requires 0 <= start < n && 0 <= i < 2 * n
    ensures 0 <= At(start, i, n) < n && (At(start, i, n) + 1) % n == At(start, i + 1, n)
  {
    NextIsModulo(At(start, i, n), n);
  }

  lemma OneStarts(s: State)
    requires WellFormed(s) && s.ev.Quiet? && OnePlace(s.slots)
    ensures OneAmid(s, Apply(s, Start(One)))
  {
    var t := Apply(s, Start(One));
    SameCells(s, t);
    SweptStart(CellsOf(s), s.hand, Any);
  }

  /** A visit of the hand that started at `start`. */
  lemma CircleTests(s: State, start: int)
    requires WellFormed(s) && s.ev.Scanning? && Circling(s.ev.phase) && s.ev.i < 2 * |s.slots| && !Filled(s.ev)
    requires 0 <= start < |s.slots| && s.hand == At(start, s.ev.i, |s.slots|)
    ensures var ev, t := s.ev, Scan(s);
            && t.frames == s.frames && t.slots == s.slots && t.hand == At(start, ev.i + 1, |s.slots|)
            && t.ev == (if Candidate(CellsOf(s)[s.hand], Any)
                        then Tested(ev.call, ev.phase, ev.i, s.hand, ev.got, ev.forced)
                        else Scanning(ev.call, ev.phase, ev.i + 1, ev.got, ev.forced))
  {
    NextAt(start, s.ev.i, |s.slots|);
    ScanTests(s, s.hand);
  }

  lemma ClockSkips(s0: State, s: State)
    requires WellFormed(s) && s.ev.Scanning? && s.ev.phase.Clock? && OneAmid(s0, s) && s.ev.i < 2 * |s.slots|
    requires !Candidate(CellsOf(s)[s.hand], Any)
    ensures OneAmid(s0, Scan(s))
  {
    CircleTests(s, s0.hand);
    AmidSkips(s, Scan(s), s0.slots, CellsOf(s0), s0.hand, s.ev.i, Any, [], s.hand);
    ClockGoesOn(s0, Scan(s), s.ev.i + 1);
  }

  lemma ClockScans(s0: State, s: State)
    requires WellFormed(s) && s.ev.Scanning? && s.ev.phase.Clock? && OneAmid(s0, s) && s.ev.i < 2 * |s.slots|
    requires Candidate(CellsOf(s)[s.hand], Any)
    ensures OneAmid(s0, Scan(s))
  {
    CircleTests(s, s0.hand);
    AmidMoves(s, Scan(s), s0.slots, CellsOf(s0), s0.hand, s.ev.i, Any, []);
    SameCells(s, Scan(s));
    ClockTests(s0, Scan(s), s.ev.i);
  }

  lemma ClockGoesOn(s0: State, t: State, i: nat)
    requires Amid(t, s0.slots, CellsOf(s0), s0.hand, i, Any, []) && t.hand == At(s0.hand, i, |s0.slots|)
    requires t.ev == Scanning(One, Clock, i, [], [])
    ensures OneAmid(s0, t)
  {
  }

  lemma ClockTests(s0: State, t: State, i: nat)
    requires Amid(t, s0.slots, CellsOf(s0), s0.hand, i, Any, []) && t.hand == At(s0.hand, i + 1, |s0.slots|)
    requires i < 2 * |s0.slots| && t.ev.Tested? && t.ev == Tested(One, Clock, i, t.ev.idx, [], [])
    requires t.ev.idx < |t.slots| && t.ev.idx == At(s0.hand, i, |s0.slots|) && Candidate(CellsOf(t)[t.ev.idx], Any)
    ensures OneAmid(s0, t)
  {
  }

  lemma ClockEnds(s0: State, s: State)
    requires WellFormed(s) && s.ev.Scanning? && s.ev.phase.Clock? && OneAmid(s0, s) && s.ev.i >= 2 * |s.slots|
    ensures OneAmid(s0, Scan(s))
  {
    SameCells(s, Scan(s));
    assert SetOf([]) == {};
    NothingTakenTwice(CellsOf(s0), CellsOf(s), s0.hand);
  }

  lemma OneScans(s0: State, s: State)
    requires WellFormed(s) && s.ev.Scanning? && OneAmid(s0, s)
    ensures OneAmid(s0, Scan(s))
  {
    if s.ev.phase.ForceFirst? {
      SameCells(s, Scan(s));
      NobodyTested(s);
    } else if s.ev.i < 2 * |s.slots| {
      if Candidate(CellsOf(s)[s.hand], Any) { ClockScans(s0, s); } else { ClockSkips(s0, s); }
    } else {
      ClockEnds(s0, s);
    }
  }

  /** The fallback passes every slot if nothing is unpinned. */
  lemma NobodyTested(s: State)
    requires WellFormed(s) && s.ev.Scanning? && (s.ev.phase.ForceFirst? || s.ev.phase.ForceRest?)
    requires Unpinned(CellsOf(s)) == {}
    ensures !Scan(s).ev.Tested? && Scan(s).hand == s.hand
    ensures Scan(s).ev.Scanning? ==> Scan(s).ev == Scanning(s.ev.call, s.ev.phase, s.ev.i + 1, s.ev.got, s.ev.forced)
    ensures Scan(s).ev.Returned? ==> Scan(s).ev == Returned(s.ev.got, s.ev.forced)
  {
    var idx := (s.hand + s.ev.i) % |s.slots|;
    assert idx !in Unpinned(CellsOf(s));
  }

  lemma OneClears(s0: State, s: State)
    requires WellFormed(s) && s.ev.Tested? && OneAmid(s0, s) && !Takes(CellsOf(s)[s.ev.idx], Any)
    ensures OneAmid(s0, Decide(s))
  {
    AmidClears(s, s0.slots, CellsOf(s0), s0.hand, s.ev.i, Any, []);
    ClearingGoesOn(s, Any);
    ClockGoesOn(s0, Decide(s), s.ev.i + 1);
  }

  lemma OneTakes(s0: State, s: State)
    requires WellFormed(s) && s.ev.Tested? && OneAmid(s0, s) && Takes(CellsOf(s)[s.ev.idx], Any)
    ensures OneAmid(s0, Decide(s))
  {
    var idx: int, t := s.ev.idx, Decide(s);
    DecideVisits(s, Any);
    assert SetOf([]) == {};
    FirstTakenIsClockVictim(CellsOf(s0), CellsOf(s), s0.hand, s.ev.i, idx);
    assert idx in Unpinned(CellsOf(s0)) && s0.slots[idx] == s.slots[idx];
    assert t.ev == Returned([s.slots[idx].f], []);
    assert Lists(s0.slots, [idx], [s.slots[idx].f]);
  }

  /** A call and the steps of its run up to `m`, in which no other thread takes a step. */
  ghost predicate Alone(states: seq<State>, events: seq<Event>, c: nat, m: nat, call: Call)
  {
    && IsRun(states, events) && c < m < |states| && OnePlace(states[c].slots)
    && events[c] == Start(call) && forall j :: c < j < m ==> events[j] == Evict
  }

  lemma {:induction false} OneKeepsAmid(states: seq<State>, events: seq<Event>, c: nat, m: nat)
    requires Alone(states, events, c, m, One)
    ensures WellFormed(states[m]) && OneAmid(states[c], states[m])
    decreases m
  {
    StepKeepsWellFormed(states[m - 1], events[m - 1]);
    if m == c + 1 {
      OneStarts(states[c]);
    } else {
      OneKeepsAmid(states, events, c, m - 1);
      assert events[m - 1] == Evict;
      if states[m - 1].ev.Scanning? {
        OneScans(states[c], states[m - 1]);
      } else if Takes(CellsOf(states[m - 1])[states[m - 1].ev.idx], Any) {
        OneTakes(states[c], states[m - 1]);
      } else {
        OneClears(states[c], states[m - 1]);
      }
    }
  }

  /** evictOne, undisturbed, returns the clock's victim and leaves the bits and the hand as the
      sequential queue does; it returns nothing exactly when nothing is unpinned. */
  lemma OneAgrees(states: seq<State>, events: seq<Event>, c: nat, m: nat)
    requires Alone(states, events, c, m, One) && states[m].ev.Returned?
    ensures states[m].ev.forced == [] && OneDone(states[c], states[m], states[m].ev.got)
  {
    OneKeepsAmid(states, events, c, m);
  }

  // ----- evictBatch -----

  /** The sequential queue's batch, from the slots and the hand of `s0`. */
  ghost predicate BatchDone(s0: State, n: int, prefer: FrameOwner, cells: seq<Cell>, hand: int, ids: seq<FrameId>)
  {
    if n <= 0 then ids == [] && cells == CellsOf(s0) && hand == s0.hand
    else exists got :: Batched(CellsOf(s0), cells, s0.hand, hand, n, prefer, got) && Lists(s0.slots, got, ids)
  }

  /** What its first pass leaves: `mid`, without the slots `first`. */
  ghost predicate FirstDone(s0: State, prefer: FrameOwner, mid: seq<Cell>, first: seq<int>)
  {
    if prefer == OwnerFree then mid == CellsOf(s0) && first == []
    else Swept(CellsOf(s0), mid, s0.hand, 2 * |s0.slots|, Only(prefer), first)
  }

  datatype Halfway = Halfway(mid: seq<Cell>, first: seq<int>)

  datatype Outcome = Outcome(cells: seq<Cell>, hand: int, ids: seq<FrameId>)

  /** A batch: where its first pass may leave it, and what may come of it. */
  datatype Plan = Plan(n: int, prefer: FrameOwner, halfway: iset<Halfway>, outcomes: iset<Outcome>)

  ghost function PlanOf(s0: State, n: int, prefer: FrameOwner): Plan
  {
    Plan(n, prefer, iset h: Halfway | FirstDone(s0, prefer, h.mid, h.first),
         iset o: Outcome | BatchDone(s0, n, prefer, o.cells, o.hand, o.ids))
  }

  ghost predicate FirstAmid(s0: State, s: State, prefer: FrameOwner, i: int, ids: seq<FrameId>, got: seq<int>)
  {
    && prefer != OwnerFree && s.hand == s0.hand
    && Amid(s, s0.slots, CellsOf(s0), s0.hand, i, Only(prefer), got) && Lists(s0.slots, got, ids)
  }

  ghost predicate SecondAmid(s0: State, s: State, p: Plan, i: int, ids: seq<FrameId>, h: Halfway, second: seq<int>)
  {
    && h in p.halfway && |h.first| < p.n
    && Amid(s, s0.slots, h.mid, s0.hand, i, Any, second) && Lists(s0.slots, h.first + second, ids)
  }

  ghost predicate BatchScans(s0: State, s: State, p: Plan, phase: Phase, i: int, ids: seq<FrameId>, hand: int)
  {
    match phase
    case Preferred => exists got :: FirstAmid(s0, s, p.prefer, i, ids, got)
    case AnyOwner => s.hand == hand && exists h, second :: SecondAmid(s0, s, p, i, ids, h, second)
    case ForceRest => Outcome(CellsOf(s), s.hand, ids) in p.outcomes && Unpinned(CellsOf(s)) == {}
    case _ => false
  }

  /** The call in progress follows the plan. */
  ghost predicate BatchAmid(s0: State, s: State, p: Plan)
  {
    match s.ev
    case Scanning(call, phase, i, ids, forced) =>
      && call == Batch(p.n, p.prefer) && p.n > 0 && forced == [] && |ids| <= p.n
      && BatchScans(s0, s, p, phase, i, ids, At(s0.hand, i, |s0.slots|))
    case Tested(call, phase, i, idx, ids, forced) =>
      && call == Batch(p.n, p.prefer) && p.n > 0 && forced == [] && |ids| < p.n && i < 2 * |s0.slots|
      && (phase.Preferred? || phase.AnyOwner?)
      && BatchScans(s0, s, p, phase, i, ids, At(s0.hand, i + 1, |s0.slots|))
      && idx == At(s0.hand, i, |s0.slots|) && idx < |s.slots| && Candidate(CellsOf(s)[idx], Wanted(call, phase))
    case Returned(ids, forced) => forced == [] && Outcome(CellsOf(s), s.hand, ids) in p.outcomes
    case Quiet => false
  }

  lemma GoesOn(s0: State, t: State, p: Plan, phase: Phase, i: nat, ids: seq<FrameId>)
    requires p.n > 0 && |ids| <= p.n && t.ev == Scanning(Batch(p.n, p.prefer), phase, i, ids, [])
    requires BatchScans(s0, t, p, phase, i, ids, At(s0.hand, i, |s0.slots|))
    ensures BatchAmid(s0, t, p)
  {
  }

  lemma Tests(s0: State, t: State, p: Plan, phase: Phase, i: nat, idx: nat, ids: seq<FrameId>)
    requires p.n > 0 && |ids| < p.n && t.ev == Tested(Batch(p.n, p.prefer), phase, i, idx, ids, []) && i < 2 * |s0.slots|
    requires (phase.Preferred? || phase.AnyOwner?) && BatchScans(s0, t, p, phase, i, ids, At(s0.hand, i + 1, |s0.slots|))
    requires idx == At(s0.hand, i, |s0.slots|) && idx < |t.slots| && Candidate(CellsOf(t)[idx], Wanted(Batch(p.n, p.prefer), phase))
    ensures BatchAmid(s0, t, p)
  {
  }

  lemma BatchStarts(s: State, n: int, prefer: FrameOwner)
    requires WellFormed(s) && s.ev.Quiet? && OnePlace(s.slots)
    ensures BatchAmid(s, Apply(s, Start(Batch(n, prefer))), PlanOf(s, n, prefer))
  {
    var t, cells, p := Apply(s, Start(Batch(n, prefer))), CellsOf(s), PlanOf(s, n, prefer);
    SameCells(s, t);
    if n > 0 {
      assert Lists(s.slots, [], []);
      if t.ev.Returned? {
        assert Unpinned(cells) == {};
        BatchedIdle(cells, s.hand, n, prefer);
      } else if prefer == OwnerFree {
        SweptStart(cells, s.hand, Any);
        var none: seq<int> := [];
        assert none + none == none;
        assert SecondAmid(s, t, p, 0, [], Halfway(cells, none), none);
        GoesOn(s, t, p, AnyOwner, 0, []);
      } else {
        SweptStart(cells, s.hand, Only(prefer));
        assert FirstAmid(s, t, prefer, 0, [], []);
        GoesOn(s, t, p, Preferred, 0, []);
      }
    }
  }

  /** The first pass has filled the batch ... */
  lemma PreferredFills(s0: State, s: State, n: int, prefer: FrameOwner)
    requires WellFormed(s) && s.ev.Scanning? && s.ev.phase.Preferred? && BatchAmid(s0, s, PlanOf(s0, n, prefer))
    requires |s.ev.got| >= n
    ensures BatchAmid(s0, Scan(s), PlanOf(s0, n, prefer))
  {
    var i, ids := s.ev.i, s.ev.got;
    SameCells(s, Scan(s));
    var got :| FirstAmid(s0, s, prefer, i, ids, got);
    BatchedByPreferred(CellsOf(s0), CellsOf(s), s0.hand, i, prefer, n, got);
    assert BatchDone(s0, n, prefer, CellsOf(s), s.hand, ids);
  }

  /** ... or the second begins. */
  lemma PreferredEnds(s0: State, s: State, n: int, prefer: FrameOwner)
    requires WellFormed(s) && s.ev.Scanning? && s.ev.phase.Preferred? && BatchAmid(s0, s, PlanOf(s0, n, prefer))
    requires s.ev.i >= 2 * |s.slots| && |s.ev.got| < n
    ensures BatchAmid(s0, Scan(s), PlanOf(s0, n, prefer))
  {
    var t, ids, p := Scan(s), s.ev.got, PlanOf(s0, n, prefer);
    SameCells(s, t);
    var got :| FirstAmid(s0, s, prefer, s.ev.i, ids, got);
    SweptStart(CellsOf(s), s0.hand, Any);
    assert FirstDone(s0, prefer, CellsOf(s), got);
    assert got + [] == got;
    assert SecondAmid(s0, t, p, 0, ids, Halfway(CellsOf(s), got), []);
    GoesOn(s0, t, p, AnyOwner, 0, ids);
  }

  lemma PreferredScans(s0: State, s: State, p: Plan)
    requires WellFormed(s) && s.ev.Scanning? && s.ev.phase.Preferred? && BatchAmid(s0, s, p)
    requires s.ev.i < 2 * |s.slots| && |s.ev.got| < p.n
    ensures BatchAmid(s0, Scan(s), p)
  {
    var t, i, ids := Scan(s), s.ev.i, s.ev.got;
    var got :| FirstAmid(s0, s, p.prefer, i, ids, got);
    AtIsModulo(s0.hand, i, |s.slots|);
    var idx := At(s0.hand, i, |s.slots|);
    ScanTests(s, idx);
    if Candidate(CellsOf(s)[idx], Only(p.prefer)) {
      SameCells(s, t);
      AmidMoves(s, t, s0.slots, CellsOf(s0), s0.hand, i, Only(p.prefer), got);
      assert FirstAmid(s0, t, p.prefer, i, ids, got);
      Tests(s0, t, p, Preferred, i, idx, ids);
    } else {
      AmidSkips(s, t, s0.slots, CellsOf(s0), s0.hand, i, Only(p.prefer), got, idx);
      assert FirstAmid(s0, t, p.prefer, i + 1, ids, got);
      GoesOn(s0, t, p, Preferred, i + 1, ids);
    }
  }

  lemma PreferredClears(s0: State, s: State, p: Plan)
    requires WellFormed(s) && s.ev.Tested? && s.ev.phase.Preferred? && BatchAmid(s0, s, p)
    requires !Takes(CellsOf(s)[s.ev.idx], Only(p.prefer))
    ensures BatchAmid(s0, Decide(s), p)
  {
    var t, i, ids := Decide(s), s.ev.i, s.ev.got;
    var got :| FirstAmid(s0, s, p.prefer, i, ids, got);
    AmidClears(s, s0.slots, CellsOf(s0), s0.hand, i, Only(p.prefer), got);
    ClearingGoesOn(s, Only(p.prefer));
    assert FirstAmid(s0, t, p.prefer, i + 1, ids, got);
    GoesOn(s0, t, p, Preferred, i + 1, ids);
  }

  lemma PreferredTakes(s0: State, s: State, p: Plan)
    requires WellFormed(s) && s.ev.Tested? && s.ev.phase.Preferred? && BatchAmid(s0, s, p)
    requires Takes(CellsOf(s)[s.ev.idx], Only(p.prefer))
    ensures BatchAmid(s0, Decide(s), p)
  {
    var t, i, ids := Decide(s), s.ev.i, s.ev.got;
    var idx: int, f := s.ev.idx, s.slots[s.ev.idx].f;
    var got :| FirstAmid(s0, s, p.prefer, i, ids, got);
    AmidTakes(s, s0.slots, CellsOf(s0), s0.hand, i, Only(p.prefer), got);
    TakingGoesOn(s, Only(p.prefer));
    ListsMore(s0.slots, got, ids, idx, f);
    assert FirstAmid(s0, t, p.prefer, i + 1, ids + [f], got + [idx]);
    GoesOn(s0, t, p, Preferred, i + 1, ids + [f]);
  }

  /** The second pass is over: the batch is full, or nothing unpinned is left for the fallback. */
  lemma AnyEnds(s0: State, s: State, n: int, prefer: FrameOwner)
    requires WellFormed(s) && s.ev.Scanning? && s.ev.phase.AnyOwner? && BatchAmid(s0, s, PlanOf(s0, n, prefer))
    requires s.ev.i >= 2 * |s.slots| || |s.ev.got| >= n
    ensures BatchAmid(s0, Scan(s), PlanOf(s0, n, prefer))
  {
    var t, ids, p := Scan(s), s.ev.got, PlanOf(s0, n, prefer);
    SameCells(s, t);
    SecondDone(s0, s, n, prefer);
    if |ids| < n { GoesOn(s0, t, p, ForceRest, 0, ids); }
  }

  lemma SecondDone(s0: State, s: State, n: int, prefer: FrameOwner)
    requires WellFormed(s) && s.ev.Scanning? && s.ev.phase.AnyOwner? && BatchAmid(s0, s, PlanOf(s0, n, prefer))
    requires s.ev.i >= 2 * |s.slots| || |s.ev.got| >= n
    ensures Outcome(CellsOf(s), s.hand, s.ev.got) in PlanOf(s0, n, prefer).outcomes
    ensures |s.ev.got| < n ==> s.hand == s0.hand && Unpinned(CellsOf(s)) == {}
  {
    var i, ids := s.ev.i, s.ev.got;
    var h, second :| SecondAmid(s0, s, PlanOf(s0, n, prefer), i, ids, h, second);
    assert FirstDone(s0, prefer, h.mid, h.first);
    BatchedByBoth(CellsOf(s0), h.mid, CellsOf(s), s0.hand, 2 * |s0.slots|, i, prefer, n, h.first, second);
    assert BatchDone(s0, n, prefer, CellsOf(s), s.hand, ids);
  }

  lemma AnyScans(s0: State, s: State, p: Plan)
    requires WellFormed(s) && s.ev.Scanning? && s.ev.phase.AnyOwner? && BatchAmid(s0, s, p)
    requires s.ev.i < 2 * |s.slots| && |s.ev.got| < p.n
    ensures BatchAmid(s0, Scan(s), p)
  {
    var t, i, ids := Scan(s), s.ev.i, s.ev.got;
    var h, second :| SecondAmid(s0, s, p, i, ids, h, second);
    CircleTests(s, s0.hand);
    if Candidate(CellsOf(s)[s.hand], Any) {
      SameCells(s, t);
      AmidMoves(s, t, s0.slots, h.mid, s0.hand, i, Any, second);
      assert SecondAmid(s0, t, p, i, ids, h, second);
      Tests(s0, t, p, AnyOwner, i, s.hand, ids);
    } else {
      AmidSkips(s, t, s0.slots, h.mid, s0.hand, i, Any, second, s.hand);
      assert SecondAmid(s0, t, p, i + 1, ids, h, second);
      GoesOn(s0, t, p, AnyOwner, i + 1, ids);
    }
  }

  lemma AnyClears(s0: State, s: State, p: Plan)
    requires WellFormed(s) && s.ev.Tested? && s.ev.phase.AnyOwner? && BatchAmid(s0, s, p)
    requires !Takes(CellsOf(s)[s.ev.idx], Any)
    ensures BatchAmid(s0, Decide(s), p)
  {
    var t, i, ids := Decide(s), s.ev.i, s.ev.got;
    var h, second :| SecondAmid(s0, s, p, i, ids, h, second);
    AmidClears(s, s0.slots, h.mid, s0.hand, i, Any, second);
    ClearingGoesOn(s, Any);
    assert SecondAmid(s0, t, p, i + 1, ids, h, second);
    GoesOn(s0, t, p, AnyOwner, i + 1, ids);
  }

  lemma AnyTakes(s0: State, s: State, p: Plan)
    requires WellFormed(s) && s.ev.Tested? && s.ev.phase.AnyOwner? && BatchAmid(s0, s, p)
    requires Takes(CellsOf(s)[s.ev.idx], Any)
    ensures BatchAmid(s0, Decide(s), p)
  {
    var t, i, ids := Decide(s), s.ev.i, s.ev.got;
    var idx: int, f := s.ev.idx, s.slots[s.ev.idx].f;
    var h, second :| SecondAmid(s0, s, p, i, ids, h, second);
    AmidTakes(s, s0.slots, h.mid, s0.hand, i, Any, second);
    TakingGoesOn(s, Any);
    ListsMore(s0.slots, h.first + second, ids, idx, f);
    assert h.first + second + [idx] == h.first + (second + [idx]);
    assert SecondAmid(s0, t, p, i + 1, ids + [f], h, second + [idx]);
    GoesOn(s0, t, p, AnyOwner, i + 1, ids + [f]);
  }

  lemma SweepDecides(s0: State, s: State, p: Plan)
    requires WellFormed(s) && s.ev.Tested? && BatchAmid(s0, s, p)
    ensures BatchAmid(s0, Decide(s), p)
  {
    var cell := CellsOf(s)[s.ev.idx];
    if s.ev.phase.Preferred? {
      if Takes(cell, Only(p.prefer)) { PreferredTakes(s0, s, p); } else { PreferredClears(s0, s, p); }
    } else {
      if Takes(cell, Any) { AnyTakes(s0, s, p); } else { AnyClears(s0, s, p); }
    }
  }

  lemma RestScans(s0: State, s: State, p: Plan)
    requires WellFormed(s) && s.ev.Scanning? && s.ev.phase.ForceRest? && BatchAmid(s0, s, p)
    ensures BatchAmid(s0, Scan(s), p)
  {
    var t := Scan(s);
    SameCells(s, t);
    NobodyTested(s);
    if t.ev.Scanning? { GoesOn(s0, t, p, ForceRest, t.ev.i, t.ev.got); }
  }

  lemma BatchScansOn(s0: State, s: State, n: int, prefer: FrameOwner)
    requires WellFormed(s) && s.ev.Scanning? && BatchAmid(s0, s, PlanOf(s0, n, prefer))
    ensures BatchAmid(s0, Scan(s), PlanOf(s0, n, prefer))
  {
    var p := PlanOf(s0, n, prefer);
    if s.ev.phase.ForceRest? {
      RestScans(s0, s, p);
    } else if s.ev.phase.Preferred? {
      if |s.ev.got| >= n { PreferredFills(s0, s, n, prefer); }
      else if s.ev.i >= 2 * |s.slots| { PreferredEnds(s0, s, n, prefer); }
      else { PreferredScans(s0, s, p); }
    } else {
      if s.ev.i >= 2 * |s.slots| || |s.ev.got| >= n { AnyEnds(s0, s, n, prefer); } else { AnyScans(s0, s, p); }
    }
  }

  lemma {:induction false} BatchKeepsAmid(states: seq<State>, events: seq<Event>, c: nat, m: nat, n: int, prefer: FrameOwner)
    requires Alone(states, events, c, m, Batch(n, prefer))
    ensures WellFormed(states[m]) && BatchAmid(states[c], states[m], PlanOf(states[c], n, prefer))
    decreases m
  {
    StepKeepsWellFormed(states[m - 1], events[m - 1]);
    if m == c + 1 {
      BatchStarts(states[c], n, prefer);
    } else {
      BatchKeepsAmid(states, events, c, m - 1, n, prefer);
      assert events[m - 1] == Evict;
      if states[m - 1].ev.Scanning? {
        BatchScansOn(states[c], states[m - 1], n, prefer);
      } else {
        SweepDecides(states[c], states[m - 1], PlanOf(states[c], n, prefer));
      }
    }
  }

  /** evictBatch, undisturbed, returns the frames of the sequential queue's batch, in its order,
      and leaves slots, bits and hand as its sweeps do; the fallback adds nothing. */
  lemma BatchAgrees(states: seq<State>, events: seq<Event>, c: nat, m: nat, n: int, prefer: FrameOwner)
    requires Alone(states, events, c, m, Batch(n, prefer)) && states[m].ev.Returned?
    ensures states[m].ev.forced == []
    ensures BatchDone(states[c], n, prefer, CellsOf(states[m]), states[m].hand, states[m].ev.got)
  {
    BatchKeepsAmid(states, events, c, m, n, prefer);
  }

  // ----- Every call ends -----

  /** How many steps of its own a call can still take once it has left phase `p`. */
  function StepsAfter(p: Phase, n: nat): nat
  {
    match p
    case Preferred => 6 * n + 2
    case Clock | AnyOwner => 2 * n + 1
    case ForceFirst | ForceRest => 0
  }

  function Rest(limit: nat, i: nat): nat { if i < limit then limit - i else 0 }

  function StepsLeft(s: State): nat
  {
    match s.ev
    case Quiet | Returned(_, _) => 0
    case Scanning(_, p, i, _, _) => 2 * Rest(Limit(s, p), i) + 1 + StepsAfter(p, |s.slots|)
    case Tested(_, p, i, _, _, _) => 2 * Rest(Limit(s, p), i + 1) + 2 + StepsAfter(p, |s.slots|)
  }

  lemma ScanProgresses(s: State)
    requires WellFormed(s) && s.ev.Scanning?
    ensures Scan(s).slots == s.slots && StepsLeft(Scan(s)) < StepsLeft(s)
  {
    if s.ev.i >= Limit(s, s.ev.phase) || Filled(s.ev) {
      assert Scan(s).ev == NextPhase(s.ev);
    } else {
      assert Scan(s).ev.phase == s.ev.phase;
    }
  }

  lemma DecideProgresses(s: State)
    requires WellFormed(s) && s.ev.Tested?
    ensures |Decide(s).slots| == |s.slots| && StepsLeft(Decide(s)) < StepsLeft(s)
  {
  }

  lemma EvictProgresses(s: State, e: Event)
    requires WellFormed(s) && Enabled(s, e) && !e.Start?
    ensures |Apply(s, e).slots| == |s.slots|
    ensures StepsLeft(Apply(s, e)) <= StepsLeft(s) - if e.Evict? then 1 else 0
  {
    if e.Evict? {
      if s.ev.Scanning? { ScanProgresses(s); } else { DecideProgresses(s); }
    }
  }

  lemma StartSteps(s: State, call: Call)
    requires WellFormed(s) && s.ev.Quiet?
    ensures StepsLeft(Apply(s, Start(call))) <= 10 * |s.slots| + 3
  {
  }

  /** The evictor's own steps among `events[a..b]`. */
  ghost function OwnSteps(events: seq<Event>, a: nat, b: nat): nat
    requires a <= b <= |events|
    decreases b
  {
    if a == b then 0 else OwnSteps(events, a, b - 1) + if events[b - 1].Evict? then 1 else 0
  }

  lemma {:induction false} StepsRunOut(states: seq<State>, events: seq<Event>, a: nat, b: nat)
    requires IsRun(states, events) && a <= b <= |events|
    requires forall j :: a <= j < b ==> !events[j].Start?
    ensures OwnSteps(events, a, b) + StepsLeft(states[b]) <= StepsLeft(states[a])
    decreases b
  {
    if a < b {
      StepsRunOut(states, events, a, b - 1);
      EvictProgresses(states[b - 1], events[b - 1]);
    }
  }

  /** Whatever the other threads do meanwhile, a call takes at most `10 n + 3` steps of its own on
      `n` slots, and until it has returned it can always take the next one. */
  lemma CallEnds(states: seq<State>, events: seq<Event>, c: nat, m: nat)
    requires IsRun(states, events) && c < m <= |events| && events[c].Start?
    requires forall j :: c < j < m ==> !events[j].Start? && !events[j].Finish?
    ensures OwnSteps(events, c + 1, m) <= 10 * |states[c].slots| + 3
    ensures OwnSteps(events, c + 1, m) == 10 * |states[c].slots| + 3 ==> states[m].ev.Returned?
    ensures states[m].ev.Returned? || Enabled(states[m], Evict)
  {
    CallSteps(states, events, c, m);
    StaysInCall(states, events, c, m);
    NotOver(states[m]);
  }

  lemma NotOver(s: State)
    requires !s.ev.Quiet?
    ensures s.ev.Returned? || (Enabled(s, Evict) && StepsLeft(s) > 0)
  {
  }

  lemma CallSteps(states: seq<State>, events: seq<Event>, c: nat, m: nat)
    requires IsRun(states, events) && c < m <= |events| && events[c].Start?
    requires forall j :: c < j < m ==> !events[j].Start?
    ensures OwnSteps(events, c + 1, m) + StepsLeft(states[m]) <= 10 * |states[c].slots| + 3
  {
    StartSteps(states[c], events[c].call);
    StepsRunOut(states, events, c + 1, m);
  }

  lemma {:induction false} StaysInCall(states: seq<State>, events: seq<Event>, c: nat, m: nat)
    requires IsRun(states, events) && c < m <= |events| && events[c].Start?
    requires forall j :: c < j < m ==> !events[j].Start? && !events[j].Finish?
    ensures !states[m].ev.Quiet?
    decreases m
  {
    if c + 1 < m { StaysInCall(states, events, c, m - 1); }
  }
}
