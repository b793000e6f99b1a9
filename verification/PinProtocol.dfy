/** Pins taken and released by many threads while one thread, holding the manager's lock,
    runs an eviction call. Every atomic operation of the source is one step:
    `PinCount.Add(1)`, `RefBit.Store(true)`, `PinCount.Add(-1)`, the clamp's `Store(0)`,
    the evictor's load of the pin count, its compare-and-swap of the reference bit, and the
    stores with which `reset` prepares a frame that is evicted or allocated. */
module PinProtocol {
  import opened Eviction
  import opened Ring

  type FrameId = nat
  type HandleId = nat

  datatype FrameState = FrameState(pins: int, ref: bool, owner: FrameOwner)

  /** One use of Pin and Unpin by some thread. */
  datatype Handle =
    | Pinning(f: FrameId)   // added 1, reference bit not yet stored
    | Held(f: FrameId)      // Pin returned
    | Clamping(f: FrameId)  // Unpin saw a negative count and is about to store 0

  datatype Slot = Nil | Holds(f: FrameId)

  datatype Call = One | Batch(n: int, prefer: FrameOwner)

  datatype Phase = Clock | ForceFirst | Preferred | AnyOwner | ForceRest

  /** The eviction call in progress. `forced` are the frames selected by a fallback phase. */
  datatype Evictor =
    | Quiet
    | Scanning(call: Call, phase: Phase, i: nat, got: seq<FrameId>, forced: seq<FrameId>)
    | Tested(call: Call, phase: Phase, i: nat, idx: nat, got: seq<FrameId>, forced: seq<FrameId>)
    | Returned(got: seq<FrameId>, forced: seq<FrameId>)

  datatype State = State(frames: map<FrameId, FrameState>, handles: map<HandleId, Handle>,
                         slots: seq<Slot>, hand: nat, ev: Evictor)

  datatype Event =
    | PinAdd(h: HandleId, f: FrameId)
    | PinRef(h: HandleId)
    | UnpinAdd(h: HandleId)
    | UnpinClamp(h: HandleId)
    | StrayUnpin(h: HandleId, f: FrameId)  // an Unpin without a Pin of its own
    | Start(call: Call)
    | Evict
    | ResetPins(f: FrameId)  // reset of a selected or free frame: PinCount.Store(0)
    | ResetRef(f: FrameId)   // reset of a selected or free frame: RefBit.Store(false)
    | Enqueue(k: nat, f: FrameId)  // an allocated frame returns to its slot
    | Finish

  // ----- Steps -----

  predicate WellFormed(s: State)
  {
    && s.hand < |s.slots|
    && (forall k :: 0 <= k < |s.slots| && s.slots[k].Holds? ==> s.slots[k].f in s.frames)
    && (forall h :: h in s.handles ==> s.handles[h].f in s.frames)
    && (s.ev.Tested? ==> s.ev.idx < |s.slots| && s.slots[s.ev.idx].Holds?)
  }

  predicate Queued(s: State, f: FrameId) { Holds(f) in s.slots }

  /** The holder of the lock resets the frames of a batch it has evicted, or a frame outside
      the queue that it allocates. */
  predicate Recycles(s: State, f: FrameId)
  {
    (s.ev.Returned? && f in s.ev.got) || (s.ev.Quiet? && !Queued(s, f))
  }

  predicate Enabled(s: State, e: Event)
  {
    match e
    case PinAdd(h, f) => h !in s.handles && f in s.frames
    case PinRef(h) => h in s.handles && s.handles[h].Pinning?
    case UnpinAdd(h) => h in s.handles && s.handles[h].Held?
    case UnpinClamp(h) => h in s.handles && s.handles[h].Clamping?
    case StrayUnpin(h, f) => h !in s.handles && f in s.frames
    case Start(_) => s.ev.Quiet?
    case Evict => s.ev.Scanning? || s.ev.Tested?
    case ResetPins(f) => f in s.frames && Recycles(s, f)
    case ResetRef(f) => f in s.frames && Recycles(s, f)
    case Enqueue(k, f) => f in s.frames && s.ev.Quiet? && k < |s.slots| && s.slots[k] == Nil && !Queued(s, f)
    case Finish => s.ev.Returned?
  }

  /** The discipline under which the count is exact: each Unpin follows its own Pin. */
  predicate Disciplined(e: Event) { !e.StrayUnpin? }

  function AddPins(s: State, f: FrameId, d: int): State
    requires f in s.frames
  {
    s.(frames := s.frames[f := s.frames[f].(pins := s.frames[f].pins + d)])
  }

  function SetRef(s: State, f: FrameId, ref: bool): State
    requires f in s.frames
  {
    s.(frames := s.frames[f := s.frames[f].(ref := ref)])
  }

  function Released(s: State, h: HandleId, f: FrameId): State
    requires f in s.frames
  {
    var t := AddPins(s, f, -1);
    if t.frames[f].pins < 0 then t.(handles := t.handles[h := Clamping(f)])
    else t.(handles := t.handles - {h})
  }

  function Apply(s: State, e: Event): State
    requires WellFormed(s) && Enabled(s, e)
  {
    match e
    case PinAdd(h, f) => AddPins(s, f, 1).(handles := s.handles[h := Pinning(f)])
    case PinRef(h) => SetRef(s, s.handles[h].f, true).(handles := s.handles[h := Held(s.handles[h].f)])
    case UnpinAdd(h) => Released(s, h, s.handles[h].f)
    case UnpinClamp(h) =>
      var f := s.handles[h].f;
      s.(frames := s.frames[f := s.frames[f].(pins := 0)], handles := s.handles - {h})
    case StrayUnpin(h, f) => Released(s, h, f)
    case Start(call) => s.(ev := Begin(s, call))
    case Evict => if s.ev.Scanning? then Scan(s) else Decide(s)
    case ResetPins(f) => s.(frames := s.frames[f := s.frames[f].(pins := 0)])
    case ResetRef(f) => SetRef(s, f, false)
    case Enqueue(k, f) => SetRef(s, f, true).(slots := s.slots[k := Holds(f)])
    case Finish => s.(ev := Quiet)
  }

  function Begin(s: State, call: Call): Evictor
  {
    if (forall k :: 0 <= k < |s.slots| ==> s.slots[k] == Nil) || (call.Batch? && call.n <= 0) then Returned([], [])
    else Scanning(call, if call.One? then Clock else if call.prefer == OwnerFree then AnyOwner else Preferred, 0, [], [])
  }

  predicate Sweeping(p: Phase) { p.Clock? || p.Preferred? || p.AnyOwner? }

  function Limit(s: State, p: Phase): nat { if Sweeping(p) then 2 * |s.slots| else |s.slots| }

  function NextPhase(ev: Evictor): Evictor
    requires ev.Scanning?
  {
    if ev.call.Batch? && |ev.got| >= ev.call.n then Returned(ev.got, ev.forced)
    else match ev.phase
      case Clock => Scanning(ev.call, ForceFirst, 0, ev.got, ev.forced)
      case Preferred => Scanning(ev.call, AnyOwner, 0, ev.got, ev.forced)
      case AnyOwner => Scanning(ev.call, ForceRest, 0, ev.got, ev.forced)
      case _ => Returned(ev.got, ev.forced)
  }

  /** One iteration up to and including the load of the pin count. */
  function Scan(s: State): State
    requires WellFormed(s) && s.ev.Scanning?
  {
    var ev := s.ev;
    if ev.i >= Limit(s, ev.phase) || (ev.call.Batch? && |ev.got| >= ev.call.n) then s.(ev := NextPhase(ev))
    else
      var advances := ev.phase.Clock? || ev.phase.AnyOwner?;
      var idx := if advances then s.hand else (s.hand + ev.i) % |s.slots|;
      var t := if advances then s.(hand := (s.hand + 1) % |s.slots|) else s;
      var slot := s.slots[idx];
      if slot.Nil? || s.frames[slot.f].pins > 0
         || (ev.phase.Preferred? && ev.call.Batch? && s.frames[slot.f].owner != ev.call.prefer)
      then t.(ev := Scanning(ev.call, ev.phase, ev.i + 1, ev.got, ev.forced))
      else t.(ev := Tested(ev.call, ev.phase, ev.i, idx, ev.got, ev.forced))
  }

  /** The rest of the iteration: compare-and-swap, or take. */
  function Decide(s: State): State
    requires WellFormed(s) && s.ev.Tested?
  {
    var ev := s.ev;
    var f := s.slots[ev.idx].f;
    if Sweeping(ev.phase) && s.frames[f].ref then
      SetRef(s, f, false).(ev := Scanning(ev.call, ev.phase, ev.i + 1, ev.got, ev.forced))
    else
      var got := ev.got + [f];
      var forced := if Sweeping(ev.phase) then ev.forced else ev.forced + [f];
      s.(slots := s.slots[ev.idx := Nil],
         hand := if Sweeping(ev.phase) then s.hand else (ev.idx + 1) % |s.slots|,
         ev := if ev.call.One? then Returned(got, forced)
               else Scanning(ev.call, ev.phase, ev.i + 1, got, forced))
  }

  /** `states[k + 1]` follows `states[k]` by `events[k]`. */
  ghost predicate IsRun(states: seq<State>, events: seq<Event>)
  {
    && |states| == |events| + 1
    && WellFormed(states[0])
    && forall k :: 0 <= k < |events| ==>
         WellFormed(states[k]) && Enabled(states[k], events[k]) && states[k + 1] == Apply(states[k], events[k])
  }

  // ----- The pin count is the number of holders -----

  /** Handles whose Pin has counted and whose Unpin has not. */
  function Holders(s: State, f: FrameId): set<HandleId>
  {
    set h | h in s.handles && !s.handles[h].Clamping? && s.handles[h].f == f
  }

  /** The pin count of `f` is its number of holders, and no thread is about to clamp it. */
  predicate Exact(s: State, f: FrameId)
  {
    && (f in s.frames ==> s.frames[f].pins == |Holders(s, f)|)
    && (forall h :: h in s.handles && s.handles[h].f == f ==> !s.handles[h].Clamping?)
  }

  lemma ScanKeepsPins(s: State)
    requires WellFormed(s) && s.ev.Scanning?
    ensures WellFormed(Scan(s)) && Scan(s).handles == s.handles && Scan(s).frames == s.frames
  {
  }

  lemma DecideKeepsPins(s: State)
    requires WellFormed(s) && s.ev.Tested?
    ensures WellFormed(Decide(s)) && Decide(s).handles == s.handles && Decide(s).frames.Keys == s.frames.Keys
    ensures forall f :: f in s.frames ==> Decide(s).frames[f].pins == s.frames[f].pins
  {
  }

  lemma EvictKeepsPins(s: State)
    requires WellFormed(s) && (s.ev.Scanning? || s.ev.Tested?)
    ensures var t := Apply(s, Evict);
            WellFormed(t) && t.handles == s.handles && t.frames.Keys == s.frames.Keys
            && forall f :: f in s.frames ==> t.frames[f].pins == s.frames[f].pins
  {
    if s.ev.Scanning? { ScanKeepsPins(s); } else { DecideKeepsPins(s); }
  }

  lemma StepKeepsWellFormed(s: State, e: Event)
    requires WellFormed(s) && Enabled(s, e)
    ensures WellFormed(Apply(s, e)) && Apply(s, e).frames.Keys == s.frames.Keys
  {
    if e.Evict? { EvictKeepsPins(s); }
  }

  lemma PinAddKeeps(s: State, h: HandleId, g: FrameId, f: FrameId)
    requires WellFormed(s) && Exact(s, f) && h !in s.handles && g in s.frames
    ensures Exact(Apply(s, PinAdd(h, g)), f)
  {
    var t := Apply(s, PinAdd(h, g));
    assert h !in Holders(s, f);
    if g == f {
      assert Holders(t, f) == Holders(s, f) + {h};
      assert t.frames[f].pins == s.frames[f].pins + 1;
    } else {
      assert Holders(t, f) == Holders(s, f);
    }
  }

  lemma UnpinAddKeeps(s: State, h: HandleId, f: FrameId)
    requires WellFormed(s) && Exact(s, f) && h in s.handles && s.handles[h].Held?
    ensures Exact(Apply(s, UnpinAdd(h)), f)
  {
    var g := s.handles[h].f;
    var t := Apply(s, UnpinAdd(h));
    if g == f {
      assert h in Holders(s, f);
      assert |Holders(s, f)| >= 1;
      assert Holders(t, f) == Holders(s, f) - {h};
    } else {
      assert Holders(t, f) == Holders(s, f);
    }
  }

  /** A disciplined step keeps the count of `f` exact, unless it is a reset of `f` with a holder. */
  lemma StepKeepsExactIff(s: State, e: Event, f: FrameId)
    requires WellFormed(s) && Enabled(s, e) && Disciplined(e) && Exact(s, f)
    ensures Exact(Apply(s, e), f) <==> (e == ResetPins(f) ==> Holders(s, f) == {})
  {
    var t := Apply(s, e);
    match e
    case PinAdd(h, g) => PinAddKeeps(s, h, g, f);
    case UnpinAdd(h) => UnpinAddKeeps(s, h, f);
    case PinRef(h) => assert Holders(t, f) == Holders(s, f);
    case UnpinClamp(h) => assert Holders(t, f) == Holders(s, f);
    case Evict =>
      EvictKeepsPins(s);
      assert Holders(t, f) == Holders(s, f);
    case ResetPins(g) =>
      assert Holders(t, f) == Holders(s, f);
      assert |Holders(s, f)| == 0 <==> Holders(s, f) == {};
    case StrayUnpin(_, _) => assert false;
    case ResetRef(_) => assert Holders(t, f) == Holders(s, f);
    case Enqueue(_, _) => assert Holders(t, f) == Holders(s, f);
    case Start(_) => assert Holders(t, f) == Holders(s, f);
    case Finish => assert Holders(t, f) == Holders(s, f);
  }

  /** Over every disciplined run: the pin count of a frame is its number of holders at every
      point, and no thread ever clamps it, exactly if no reset of the frame finds a holder. */
  lemma {:induction false} RunExactIff(states: seq<State>, events: seq<Event>, f: FrameId, n: nat)
    requires IsRun(states, events) && Exact(states[0], f) && n <= |events|
    requires forall j :: 0 <= j < n ==> Disciplined(events[j])
    ensures (forall k :: 0 <= k <= n ==> Exact(states[k], f)) <==>
            (forall j :: 0 <= j < n ==> events[j] == ResetPins(f) ==> Holders(states[j], f) == {})
    decreases n
  {
    if n > 0 {
      RunExactIff(states, events, f, n - 1);
      assert states[n] == Apply(states[n - 1], events[n - 1]);
      if forall k :: 0 <= k < n ==> Exact(states[k], f) {
        StepKeepsExactIff(states[n - 1], events[n - 1], f);
      } else {
        assert exists k :: 0 <= k <= n - 1 && !Exact(states[k], f);
      }
    }
  }

  /** What a reset that finds a holder leads to: the holder's own Unpin arms the clamp. */
  lemma ErasedPinClamps(s: State, f: FrameId, h: HandleId)
    requires WellFormed(s) && Enabled(s, ResetPins(f)) && h in s.handles && s.handles[h] == Held(f)
    ensures var t := Apply(s, ResetPins(f));
            WellFormed(t) && Enabled(t, UnpinAdd(h)) && Apply(t, UnpinAdd(h)).handles[h] == Clamping(f)
  {
  }

  /** Without the discipline: the store of a clamp erases every pin taken since. */
  lemma ClampErasesPins(s: State, h: HandleId)
    requires WellFormed(s) && h in s.handles && s.handles[h].Clamping? && Holders(s, s.handles[h].f) != {}
    ensures var f, t := s.handles[h].f, Apply(s, UnpinClamp(h));
            t.frames[f].pins == 0 < |Holders(t, f)|
  {
    var f, t := s.handles[h].f, Apply(s, UnpinClamp(h));
    assert Holders(t, f) == Holders(s, f);
  }

  // ----- A frame held throughout a call is not selected by it -----

  function Got(ev: Evictor): seq<FrameId> { if ev.Quiet? then [] else ev.got }

  /** Neither selected nor past its pin test. */
  predicate Untouched(s: State, f: FrameId)
    requires WellFormed(s)
  {
    f !in Got(s.ev) && (s.ev.Tested? ==> s.slots[s.ev.idx].f != f)
  }

  /** In the queue the frame's count is exact, so that a holder protects it. */
  predicate Protected(s: State, f: FrameId)
    requires WellFormed(s)
  {
    Untouched(s, f) && Exact(s, f)
  }

  lemma HeldStepUntouched(s: State, e: Event, f: FrameId)
    requires WellFormed(s) && Enabled(s, e) && Exact(s, f)
    requires f in s.frames && Holders(s, f) != {} && Untouched(s, f)
    ensures WellFormed(Apply(s, e)) ==> Untouched(Apply(s, e), f)
    ensures Queued(s, f) ==> e != ResetPins(f)
  {
    assert |Holders(s, f)| > 0;
  }

  lemma HeldStepQueued(s: State, e: Event, f: FrameId)
    requires WellFormed(s) && Enabled(s, e) && Exact(s, f)
    requires f in s.frames && Holders(s, f) != {} && Untouched(s, f) && Queued(s, f)
    ensures Queued(Apply(s, e), f)
  {
    assert |Holders(s, f)| > 0;
    var k :| 0 <= k < |s.slots| && s.slots[k] == Holds(f);
    assert Apply(s, e).slots[k] == Holds(f);
  }

  /** For any interleaving of other threads' steps with eviction calls, resets and allocations:
      a frame that has some holder at every moment, and is queued or at least not reset, is
      never selected, and its count stays exact. */
  lemma {:induction false} HeldThroughoutNotSelected(states: seq<State>, events: seq<Event>, f: FrameId, k: nat)
    requires IsRun(states, events) && Exact(states[0], f)
    requires forall j :: 0 <= j < |events| ==> Disciplined(events[j])
    requires states[0].ev.Quiet? && f in states[0].frames
    requires forall j :: 0 <= j < |states| ==> Holders(states[j], f) != {}
    requires Queued(states[0], f) || forall j :: 0 <= j < |events| ==> events[j] != ResetPins(f)
    requires k < |states|
    ensures f in states[k].frames && WellFormed(states[k]) && Protected(states[k], f)
    ensures Queued(states[0], f) ==> Queued(states[k], f)
    decreases k
  {
    if k > 0 {
      HeldThroughoutNotSelected(states, events, f, k - 1);
      StepKeepsWellFormed(states[k - 1], events[k - 1]);
      HeldStepUntouched(states[k - 1], events[k - 1], f);
      if Queued(states[0], f) { HeldStepQueued(states[k - 1], events[k - 1], f); }
      StepKeepsExactIff(states[k - 1], events[k - 1], f);
    }
  }

  /** "Throughout" cannot be weakened: once the test is passed and the bit is clear, the frame
      is selected even if it is pinned now. */
  lemma LateHolderIsSelected(s: State, h: HandleId)
    requires WellFormed(s) && s.ev.Tested? && h !in s.handles
    requires Sweeping(s.ev.phase) ==> !s.frames[s.slots[s.ev.idx].f].ref
    ensures var f := s.slots[s.ev.idx].f;
            var t := Apply(s, PinAdd(h, f));
            && WellFormed(t) && Enabled(t, Evict)
            && f in Got(Apply(t, Evict).ev) && h in Holders(Apply(t, Evict), f)
  {
  }

  // ----- The fallback selects only frames that were unpinned during the call -----

  function Forced(ev: Evictor): seq<FrameId> { if ev.Quiet? then [] else ev.forced }

  /** The event is an Unpin of `f`. */
  predicate Unpins(s: State, e: Event, f: FrameId) { e.UnpinAdd? && e.h in s.handles && s.handles[e.h].f == f }

  /** How many steps of the hand ago slot `k` was under it, between 1 and `n`. */
  function Since(hand: nat, k: nat, n: nat): int { if k < hand then hand - k else hand + n - k }

  lemma SinceNext(hand: nat, k: nat, n: nat)
    requires hand < n && k < n
    ensures (hand + 1) % n < n && Since((hand + 1) % n, k, n) == if k == hand then 1 else Since(hand, k, n) + 1
  {
    NextIsModulo(hand, n);
  }

  predicate Circling(p: Phase) { p.Clock? || p.AnyOwner? }

  /** What `i` steps of the phase say about an undisturbed frame whose slot was last visited
      `since` steps ago: passed once it is pinned or unmarked, passed twice it is pinned. */
  predicate Passed(fs: FrameState, phase: Phase, since: int, i: int, n: int)
  {
    if phase.Preferred? then true
    else if Circling(phase) then (since <= i ==> fs.pins > 0 || !fs.ref) && (since + n <= i ==> fs.pins > 0)
    else fs.pins > 0
  }

  predicate AllPassed(s: State, f: FrameId, phase: Phase, i: int, but: int)
  {
    f in s.frames ==> forall k :: 0 <= k < |s.slots| && k != but && s.slots[k] == Holds(f) ==>
      Passed(s.frames[f], phase, Since(s.hand, k, |s.slots|), i, |s.slots|)
  }

  predicate Undisturbed(s: State, f: FrameId)
    requires WellFormed(s)
  {
    match s.ev
    case Quiet => true
    case Returned(_, forced) => f !in forced
    case Scanning(_, phase, i, _, forced) => f !in forced && AllPassed(s, f, phase, i, -1)
    case Tested(_, phase, i, idx, _, forced) =>
      && f !in forced && AllPassed(s, f, phase, i + 1, idx)
      && (s.slots[idx] == Holds(f) ==>
            Sweeping(phase) && (Circling(phase) && |s.slots| <= i ==> s.frames[f].pins > 0 || !s.frames[f].ref))
  }

  /** The hand moves on from its slot, which is left out. */
  lemma HandMoves(s: State, f: FrameId, phase: Phase, i: nat)
    requires WellFormed(s) && Circling(phase) && AllPassed(s, f, phase, i, -1)
    ensures AllPassed(s.(hand := (s.hand + 1) % |s.slots|), f, phase, i + 1, s.hand)
  {
    var n := |s.slots|;
    forall k: nat | k < n && k != s.hand && f in s.frames && s.slots[k] == Holds(f)
      ensures Passed(s.frames[f], phase, Since((s.hand + 1) % n, k, n), i + 1, n)
    {
      SinceNext(s.hand, k, n);
    }
  }

  lemma CirclingKeepsUndisturbed(s: State, f: FrameId)
    requires WellFormed(s) && s.ev.Scanning? && Undisturbed(s, f) && Circling(s.ev.phase)
    requires s.ev.i < 2 * |s.slots| && !(s.ev.call.Batch? && |s.ev.got| >= s.ev.call.n)
    ensures Undisturbed(Scan(s), f)
  {
    HandMoves(s, f, s.ev.phase, s.ev.i);
    SinceNext(s.hand, s.hand, |s.slots|);
    assert Since(s.hand, s.hand, |s.slots|) == |s.slots|;
  }

  lemma ScanKeepsUndisturbed(s: State, f: FrameId)
    requires WellFormed(s) && s.ev.Scanning? && Undisturbed(s, f)
    ensures Undisturbed(Scan(s), f)
  {
    if s.ev.i >= Limit(s, s.ev.phase) || (s.ev.call.Batch? && |s.ev.got| >= s.ev.call.n) {
      assert forall k :: 0 <= k < |s.slots| ==> Since(s.hand, k, |s.slots|) <= |s.slots|;
    } else if Circling(s.ev.phase) {
      CirclingKeepsUndisturbed(s, f);
    }
  }

  lemma DecideKeepsUndisturbed(s: State, f: FrameId)
    requires WellFormed(s) && s.ev.Tested? && Undisturbed(s, f)
    ensures WellFormed(Decide(s)) && Undisturbed(Decide(s), f)
  {
  }

  predicate InCall(ev: Evictor) { ev.Scanning? || ev.Tested? }

  /** Other threads: the frame's pins do not decrease, and its bit is set only while it is pinned. */
  lemma ThreadStep(s: State, e: Event, f: FrameId)
    requires WellFormed(s) && Enabled(s, e) && Disciplined(e) && Exact(s, f) && InCall(s.ev)
    requires !Unpins(s, e, f) && !e.Evict?
    ensures var t := Apply(s, e);
            && t.slots == s.slots && t.hand == s.hand && t.ev == s.ev
            && (f in t.frames <==> f in s.frames)
            && (f in s.frames ==> t.frames[f].pins >= s.frames[f].pins)
            && (f in s.frames && t.frames[f].ref && !s.frames[f].ref ==> t.frames[f].pins > 0)
  {
    if e.PinRef? && s.handles[e.h].f == f {
      assert e.h in Holders(s, f);
      assert |Holders(s, f)| > 0;
    }
  }

  lemma ThreadKeepsUndisturbed(s: State, e: Event, f: FrameId)
    requires WellFormed(s) && Enabled(s, e) && Disciplined(e) && Undisturbed(s, f) && (InCall(s.ev) ==> Exact(s, f))
    requires !Unpins(s, e, f) && !e.Start? && !e.Evict?
    requires WellFormed(Apply(s, e))
    ensures Undisturbed(Apply(s, e), f)
  {
    if InCall(s.ev) { ThreadStep(s, e, f); }
  }

  lemma StartKeepsUndisturbed(s: State, call: Call, f: FrameId)
    requires WellFormed(s) && s.ev.Quiet?
    ensures Undisturbed(Apply(s, Start(call)), f)
  {
  }

  lemma StepKeepsUndisturbed(s: State, e: Event, f: FrameId)
    requires WellFormed(s) && Enabled(s, e) && Disciplined(e) && Undisturbed(s, f) && (InCall(s.ev) ==> Exact(s, f))
    requires !Unpins(s, e, f) && !e.Start?
    ensures WellFormed(Apply(s, e)) && Undisturbed(Apply(s, e), f) && (InCall(Apply(s, e).ev) ==> Exact(Apply(s, e), f))
  {
    StepKeepsWellFormed(s, e);
    if InCall(s.ev) { StepKeepsExactIff(s, e, f); }
    if !e.Evict? {
      ThreadKeepsUndisturbed(s, e, f);
    } else if s.ev.Scanning? {
      ScanKeepsUndisturbed(s, f);
    } else {
      DecideKeepsUndisturbed(s, f);
    }
  }

  lemma {:induction false} CallKeepsUndisturbed(states: seq<State>, events: seq<Event>, c: nat, m: nat, f: FrameId)
    requires IsRun(states, events) && c < m < |states|
    requires events[c].Start? && Exact(states[c], f)
    requires forall j :: c < j < m ==> Disciplined(events[j]) && !events[j].Start? && !Unpins(states[j], events[j], f)
    ensures WellFormed(states[m]) && Undisturbed(states[m], f) && (InCall(states[m].ev) ==> Exact(states[m], f))
    decreases m
  {
    if m == c + 1 {
      StepKeepsWellFormed(states[c], events[c]);
      StepKeepsExactIff(states[c], events[c], f);
      StartKeepsUndisturbed(states[c], events[c].call, f);
    } else {
      CallKeepsUndisturbed(states, events, c, m - 1, f);
      StepKeepsUndisturbed(states[m - 1], events[m - 1], f);
    }
  }

  /** In any interleaving with one call, started by event `c` with an exact count: a frame that
      the fallback has selected by event `m` was unpinned during the call. */
  lemma ForcedWasUnpinned(states: seq<State>, events: seq<Event>, c: nat, m: nat, f: FrameId)
    requires IsRun(states, events) && c < m < |states|
    requires events[c].Start? && Exact(states[c], f)
    requires forall j :: c < j < m ==> Disciplined(events[j]) && !events[j].Start?
    requires f in Forced(states[m].ev)
    ensures exists j :: c < j < m && Unpins(states[j], events[j], f)
  {
    if forall j :: c < j < m ==> !Unpins(states[j], events[j], f) {
      CallKeepsUndisturbed(states, events, c, m, f);
    }
  }

  /** So the fallback is dead when nobody unpins during the call, whoever pins. */
  lemma QuietCallForcesNothing(states: seq<State>, events: seq<Event>, c: nat, m: nat)
    requires IsRun(states, events) && c < m < |states|
    requires events[c].Start? && forall f :: Exact(states[c], f)
    requires forall j :: c < j < m ==> Disciplined(events[j]) && !events[j].Start? && !events[j].UnpinAdd?
    ensures Forced(states[m].ev) == []
  {
    if Forced(states[m].ev) != [] {
      ForcedWasUnpinned(states, events, c, m, Forced(states[m].ev)[0]);
    }
  }

  // ----- And such frames it can select -----

  /** Some disciplined run leads from `s` to `t`. */
  ghost predicate Reaches(s: State, t: State)
  {
    exists states, events ::
      IsRun(states, events) && states[0] == s && states[|events|] == t && forall j :: 0 <= j < |events| ==> Disciplined(events[j])
  }

  lemma ReachSelf(s: State)
    requires WellFormed(s)
    ensures Reaches(s, s)
  {
    var states, events: seq<Event> := [s], [];
    assert IsRun(states, events) && states[|events|] == s;
  }

  predicate Leads(t: State, e: Event, u: State) { WellFormed(t) && Enabled(t, e) && Disciplined(e) && Apply(t, e) == u }

  lemma Reach(s: State, t: State, e: Event, u: State)
    requires Reaches(s, t) && Leads(t, e, u)
    ensures Reaches(s, u)
  {
    var states, events :| IsRun(states, events) && states[0] == s && states[|events|] == t
      && forall j :: 0 <= j < |events| ==> Disciplined(events[j]);
    var more, steps := states + [u], events + [e];
    forall k | 0 <= k < |steps|
      ensures WellFormed(more[k]) && Enabled(more[k], steps[k]) && more[k + 1] == Apply(more[k], steps[k])
    {
      if k < |events| { assert more[k] == states[k] && more[k + 1] == states[k + 1] && steps[k] == events[k]; }
    }
    assert IsRun(more, steps) && more[|steps|] == u;
  }

  /** One frame, number 7, alone in a queue of one slot. */
  function Solo(pins: int, ref: bool, handles: map<HandleId, Handle>, slot: Slot, ev: Evictor): State
  {
    State(map[7 := FrameState(pins, ref, OwnerQuery)], handles, [slot], 0, ev)
  }

  const SoloStart := Solo(0, true, map[], Holds(7), Quiet)

  lemma SoloFrame(a: FrameState, b: FrameState)
    ensures map[7 := a][7 := b] == map[7 := b]
  {
  }

  lemma SoloStarts()
    ensures Reaches(SoloStart, Solo(0, true, map[], Holds(7), Scanning(One, Clock, 0, [], [])))
  {
    ReachSelf(SoloStart);
    var t := Solo(0, true, map[], Holds(7), Scanning(One, Clock, 0, [], []));
    assert SoloStart.slots[0] != Nil;
    assert Begin(SoloStart, One) == t.ev;
    Reach(SoloStart, SoloStart, Start(One), t);
  }

  /** A visit of the clock to the marked frame clears its bit. */
  lemma SoloVisit(i: nat)
    requires i < 2 && Reaches(SoloStart, Solo(0, true, map[], Holds(7), Scanning(One, Clock, i, [], [])))
    ensures Reaches(SoloStart, Solo(0, false, map[], Holds(7), Scanning(One, Clock, i + 1, [], [])))
  {
    var s := Solo(0, true, map[], Holds(7), Scanning(One, Clock, i, [], []));
    var t := Solo(0, true, map[], Holds(7), Tested(One, Clock, i, 0, [], []));
    SoloTested(true, Clock, i);
    Reach(SoloStart, s, Evict, t);
    SoloCleared(i);
    Reach(SoloStart, t, Evict, Solo(0, false, map[], Holds(7), Scanning(One, Clock, i + 1, [], [])));
  }

  lemma SoloTested(ref: bool, phase: Phase, i: nat)
    requires (phase.Clock? && i < 2) || (phase.ForceFirst? && i < 1)
    ensures Leads(Solo(0, ref, map[], Holds(7), Scanning(One, phase, i, [], [])), Evict,
                  Solo(0, ref, map[], Holds(7), Tested(One, phase, i, 0, [], [])))
  {
  }

  lemma SoloCleared(i: nat)
    ensures Leads(Solo(0, true, map[], Holds(7), Tested(One, Clock, i, 0, [], [])), Evict,
                  Solo(0, false, map[], Holds(7), Scanning(One, Clock, i + 1, [], [])))
  {
    SoloFrame(FrameState(0, true, OwnerQuery), FrameState(0, false, OwnerQuery));
  }

  /** Pinning and unpinning marks it again. */
  lemma SoloPinCycle(ev: Evictor)
    requires ev.Scanning? && Reaches(SoloStart, Solo(0, false, map[], Holds(7), ev))
    ensures Reaches(SoloStart, Solo(0, true, map[], Holds(7), ev))
  {
    var s := Solo(0, false, map[], Holds(7), ev);
    var t := Solo(1, false, map[1 := Pinning(7)], Holds(7), ev);
    SoloFrame(FrameState(0, false, OwnerQuery), FrameState(1, false, OwnerQuery));
    Reach(SoloStart, s, PinAdd(1, 7), t);
    var u := Solo(1, true, map[1 := Held(7)], Holds(7), ev);
    SoloFrame(FrameState(1, false, OwnerQuery), FrameState(1, true, OwnerQuery));
    assert map[1 := Pinning(7)][1 := Held(7)] == map[1 := Held(7)];
    Reach(SoloStart, t, PinRef(1), u);
    SoloFrame(FrameState(1, true, OwnerQuery), FrameState(0, true, OwnerQuery));
    assert map[1 := Held(7)] - {1} == map[];
    Reach(SoloStart, u, UnpinAdd(1), Solo(0, true, map[], Holds(7), ev));
  }

  lemma SoloFallback()
    requires Reaches(SoloStart, Solo(0, false, map[], Holds(7), Scanning(One, Clock, 2, [], [])))
    ensures Reaches(SoloStart, Solo(0, false, map[], Nil, Returned([7], [7])))
  {
    var s := Solo(0, false, map[], Holds(7), Scanning(One, Clock, 2, [], []));
    var t := Solo(0, false, map[], Holds(7), Scanning(One, ForceFirst, 0, [], []));
    Reach(SoloStart, s, Evict, t);
    var u := Solo(0, false, map[], Holds(7), Tested(One, ForceFirst, 0, 0, [], []));
    SoloTested(false, ForceFirst, 0);
    Reach(SoloStart, t, Evict, u);
    SoloForced();
    Reach(SoloStart, u, Evict, Solo(0, false, map[], Nil, Returned([7], [7])));
  }

  lemma SoloForced()
    ensures Leads(Solo(0, false, map[], Holds(7), Tested(One, ForceFirst, 0, 0, [], [])), Evict,
                  Solo(0, false, map[], Nil, Returned([7], [7])))
  {
    assert [Holds(7)][0 := Nil] == [Nil] && [] + [7] == [7];
  }

  /** The sequential dead code is live here: a frame that is pinned and unpinned again
      between the two clock visits has its bit set both times, and the fallback takes it. */
  lemma FallbackCanSelect()
    ensures Reaches(SoloStart, Solo(0, false, map[], Nil, Returned([7], [7])))
  {
    SoloStarts();
    SoloVisit(0);
    var ev := Scanning(One, Clock, 1, [], []);
    SoloPinCycle(ev);
    SoloVisit(1);
    SoloFallback();
  }
}
