/** The life of one frame between its users, the background writeback scheduler, and the
    allocations and evictions done under the manager's lock. Every load and store of the
    frame's pin count and state is a step of its own. The lock keeps its holders apart, but
    `Manager.PinFrame` pins without it, so a pin may land in the middle of an eviction.
    Contents are versions: `version` is what the frame holds, `saved` the last one that a
    writeback callback stored. */
module FrameLifecycle {
  import opened Options

  type User = nat

  datatype FrameState = Free | Loading | Clean | Dirty | Writeback | Evicting

  /** A user that has pinned the frame and not unpinned it. */
  datatype Phase =
    | Holding
    | Copied   // has changed the data and not yet marked the frame dirty
    | Marking  // MarkDirty has seen the frame clean and is about to store Dirty

  /** What the scheduler, which then holds a pin of its own, is doing with the frame. */
  datatype Work =
    | Idle
    | Picked                       // in Writeback, the callback not yet run
    | Persisted(ok: bool)          // the callback has returned
    | Checked(target: FrameState)  // TransitionTo has found its transition valid, and not yet stored it
    | Settled                      // about to unpin

  /** What eviction did with the contents: nothing, because it saw the frame clean or no
      callback is configured, or it offered a version to a callback. */
  datatype Offer = NotDirty | NoCallback | Offered(v: nat, ok: bool)

  datatype Callback = Missing | Fails | Succeeds

  /** How far the holder of the manager's lock is with this frame. */
  datatype Section =
    | Open
    | Picking              // scheduler: saw it dirty and unpinned
    | PickStored           // scheduler: stored Writeback, about to pin
    | Tested               // eviction: saw it unpinned and took it from the queue
    | Loaded(dirty: bool)  // eviction: has loaded whether it is dirty
    | Writing              // eviction: stored Evicting, about to call back
    | Evicted(offer: Offer)
    | Zeroed(offer: Offer) // reset: stored a zero pin count
    | Taken(u: User)       // allocation: reset has stored a zero pin count
    | Emptied(u: User)     // allocation: stored Free
    | Filling(u: User)     // allocation: stored Loading
    | Pinned(u: User)      // allocation: pinned for its caller, about to store Clean
    | Closed               // the manager is closed and the data gone

  datatype Frame = Frame(state: FrameState, free: bool, pins: nat, users: map<User, Phase>,
                         work: Work, lock: Section, version: nat, saved: nat)

  datatype Step =
    | Pin(u: User)
    | Unpin(u: User)
    | Copy(u: User)
    | StoreDirty(u: User)  // end of WriteAt
    | MarkLoad(u: User)    // MarkDirty: load
    | MarkStore(u: User)   // MarkDirty: store
    | Pick
    | Persist(ok: bool)
    | Check
    | Settle
    | Release
    | Choose
    | TakeFree(u: User)
    | Advance(callback: Callback)  // next operation under the lock; eviction may find this callback
    | Close                // drops the data of every frame

  predicate ValidTransition(from: FrameState, to: FrameState)
  {
    match from
    case Free => to == Loading
    case Loading => to == Clean
    case Clean => to == Dirty || to == Evicting
    case Dirty => to == Writeback || to == Evicting
    case Writeback => to == Clean || to == Dirty
    case Evicting => to == Free
  }

  predicate In(s: Frame, u: User, p: Phase) { u in s.users && s.users[u] == p }

  predicate InEviction(lock: Section) { lock.Tested? || lock.Loaded? || lock.Writing? || lock.Evicted? || lock.Zeroed? }

  predicate InAllocation(lock: Section) { lock.Taken? || lock.Emptied? || lock.Filling? || lock.Pinned? }

  predicate Enabled(s: Frame, e: Step)
  {
    s.lock != Closed && match e
    case Pin(u) => u !in s.users && !(InAllocation(s.lock) && s.lock.u == u)
    case Unpin(u) => In(s, u, Holding)
    case Copy(u) => In(s, u, Holding) || In(s, u, Copied)
    case StoreDirty(u) => In(s, u, Copied)
    case MarkLoad(u) => In(s, u, Copied)
    case MarkStore(u) => In(s, u, Marking)
    case Pick => s.lock == Open && s.work == Idle && s.state == Dirty && s.pins == 0
    case Persist(_) => s.work == Picked
    case Check => s.work.Persisted?
    case Settle => s.work.Checked?
    case Release => s.work == Settled
    case Choose => s.lock == Open && !s.free && s.pins == 0
    case TakeFree(u) => s.lock == Open && s.free && u !in s.users
    case Advance(_) => s.lock != Open
    case Close => s.lock == Open
  }

  /** The state a step stores, if any. */
  function Stored(s: Frame, e: Step): Option<FrameState>
    requires Enabled(s, e)
  {
    match e
    case StoreDirty(_) => Some(Dirty)
    case MarkStore(_) => Some(Dirty)
    case Settle => Some(s.work.target)
    case Advance(_) =>
      (match s.lock
       case Picking => Some(Writeback)
       case Loaded(_) => Some(Evicting)
       case Zeroed(_) => Some(Free)
       case Taken(_) => Some(Free)
       case Emptied(_) => Some(Loading)
       case Pinned(_) => Some(Clean)
       case _ => None)
    case _ => None
  }

  function Decreased(n: nat): nat { if n == 0 then 0 else n - 1 }

  function NextPins(s: Frame, e: Step): nat
    requires Enabled(s, e)
  {
    match e
    case Pin(_) => s.pins + 1
    case Unpin(_) => Decreased(s.pins)
    case Release => Decreased(s.pins)
    case TakeFree(_) => 0
    case Advance(_) =>
      if s.lock.PickStored? || s.lock.Filling? then s.pins + 1 else if s.lock.Evicted? then 0 else s.pins
    case _ => s.pins
  }

  function NextUsers(s: Frame, e: Step): map<User, Phase>
    requires Enabled(s, e)
  {
    match e
    case Pin(u) => s.users[u := Holding]
    case Unpin(u) => s.users - {u}
    case Copy(u) => s.users[u := Copied]
    case StoreDirty(u) => s.users[u := Holding]
    case MarkLoad(u) => s.users[u := if s.state == Clean then Marking else Holding]
    case MarkStore(u) => s.users[u := Holding]
    case Advance(_) => if s.lock.Pinned? then s.users[s.lock.u := Holding] else s.users
    case _ => s.users
  }

  function Target(ok: bool): FrameState { if ok then Clean else Dirty }

  function NextWork(s: Frame, e: Step): Work
    requires Enabled(s, e)
  {
    match e
    case Persist(ok) => Persisted(ok)
    case Check => if ValidTransition(s.state, Target(s.work.ok)) then Checked(Target(s.work.ok)) else Settled
    case Settle => Settled
    case Release => Idle
    case Advance(_) => if s.lock.PickStored? then Picked else s.work
    case _ => s.work
  }

  function NextLock(s: Frame, e: Step): Section
    requires Enabled(s, e)
  {
    match e
    case Pick => Picking
    case Choose => Tested
    case TakeFree(u) => Taken(u)
    case Close => Closed
    case Advance(callback) =>
      (match s.lock
       case Picking => PickStored
       case Tested => Loaded(s.state == Dirty)
       case Loaded(dirty) => if dirty then Writing else Evicted(NotDirty)
       case Writing => Evicted(if callback == Missing then NoCallback else Offered(s.version, callback == Succeeds))
       case Evicted(offer) => Zeroed(offer)
       case Taken(u) => Emptied(u)
       case Emptied(u) => Filling(u)
       case Filling(u) => Pinned(u)
       case _ => Open)
    case _ => s.lock
  }

  /** A freed frame has nothing left to save. */
  function NextSaved(s: Frame, e: Step): nat
    requires Enabled(s, e)
  {
    match e
    case Persist(ok) => if ok then s.version else s.saved
    case Advance(callback) => if (s.lock.Writing? && callback == Succeeds) || s.lock.Zeroed? then s.version else s.saved
    case Close => s.version
    case _ => s.saved
  }

  function NextFree(s: Frame, e: Step): bool
  {
    if e.Advance? && s.lock.Zeroed? then true else if e.Advance? && s.lock.Pinned? then false else s.free
  }

  function Next(s: Frame, e: Step): Frame
    requires Enabled(s, e)
  {
    var stored := Stored(s, e);
    Frame(if stored.Some? then stored.value else s.state, NextFree(s, e), NextPins(s, e), NextUsers(s, e),
          NextWork(s, e), NextLock(s, e), if e.Copy? then s.version + 1 else s.version, NextSaved(s, e))
  }

  // ----- Runs -----

  predicate CanRun(s: Frame, run: seq<Step>)
    decreases |run|
  {
    run == [] || (Enabled(s, run[0]) && CanRun(Next(s, run[0]), run[1..]))
  }

  function After(s: Frame, run: seq<Step>): Frame
    requires CanRun(s, run)
    decreases |run|
  {
    if run == [] then s else After(Next(s, run[0]), run[1..])
  }

  /** What may go wrong in a step. */
  datatype Mishap = ALatePin | AStaleSettle | AnOffPath | ASilentLoss | APeril

  predicate Happens(s: Frame, e: Step, bad: Mishap)
  {
    match bad
    case ALatePin => LatePin(s, e)
    case AStaleSettle => StaleSettle(s, e)
    case AnOffPath => OffPath(s, e)
    case ASilentLoss => SilentLoss(s, e)
    case APeril => Perilous(s, e)
  }

  /** Something `bad` happens in some step of the run. */
  predicate Meets(s: Frame, run: seq<Step>, bad: Mishap)
    requires CanRun(s, run)
    decreases |run|
  {
    run != [] && (Happens(s, run[0], bad) || Meets(Next(s, run[0]), run[1..], bad))
  }

  // ----- The invariant -----

  predicate Vacant(s: Frame) { s.users == map[] && s.work == Idle }

  predicate NoMarking(s: Frame) { forall u :: u in s.users ==> s.users[u] != Marking }

  /** What the holder of the lock may rely on. */
  predicate LockInv(s: Frame)
  {
    match s.lock
    case Open =>
      if s.free then s.state == Free && Vacant(s) && s.version == s.saved
      else s.state in {Clean, Dirty, Writeback}
    case Picking => !s.free && s.work == Idle && s.state == Dirty && NoMarking(s)
    case PickStored => !s.free && s.work == Idle && s.state in {Writeback, Dirty} && NoMarking(s)
    case Tested => !s.free && Vacant(s) && s.state in {Clean, Dirty}
    case Loaded(dirty) => !s.free && Vacant(s) && s.state == if dirty then Dirty else Clean
    case Writing => !s.free && Vacant(s) && s.state == Evicting
    case Evicted(offer) => !s.free && Vacant(s) && s.state == Evicting && Truthful(s, offer)
    case Zeroed(offer) => !s.free && Vacant(s) && s.state == Evicting && Truthful(s, offer)
    case Taken(_) => s.free && Vacant(s) && s.version == s.saved && s.state == Free
    case Emptied(_) => s.free && Vacant(s) && s.version == s.saved && s.state == Free
    case Filling(_) => s.free && Vacant(s) && s.version == s.saved && s.state == Loading
    case Pinned(_) => s.free && Vacant(s) && s.version == s.saved && s.state == Loading
    case Closed => s.version == s.saved
  }

  predicate Truthful(s: Frame, offer: Offer)
  {
    offer.Offered? ==> offer.v == s.version && (offer.ok ==> s.version == s.saved)
  }

  predicate InWriteback(w: Work) { w == Picked || w.Persisted? || w.Checked? }

  predicate WorkInv(s: Frame)
  {
    && (s.work != Idle ==> (s.lock == Open || s.lock == Closed) && !s.free)
    && (s.state == Writeback ==> s.lock == PickStored || InWriteback(s.work))
    && (InWriteback(s.work) ==> s.state == Writeback || s.state == Dirty)
    && (s.work.Checked? ==> s.work.target == Clean || s.work.target == Dirty)
    && (!NoMarking(s) ==> s.state == Clean || s.state == Dirty)
  }

  /** The pin count counts the users, the scheduler and the allocation under way. */
  predicate PinsExact(s: Frame)
  {
    s.pins == |s.users| + (if s.work != Idle then 1 else 0) + (if s.lock.Pinned? then 1 else 0)
  }

  predicate Inv(s: Frame) { PinsExact(s) && s.saved <= s.version && LockInv(s) && WorkInv(s) }

  /** A pin that lands on a free frame or on one already chosen for eviction. */
  predicate LatePin(s: Frame, e: Step) { e.Pin? && (s.free || InEviction(s.lock)) }

  lemma MapSizes(m: map<User, Phase>, u: User, p: Phase)
    ensures |m[u := p]| == |m| + if u in m then 0 else 1
    ensures u in m ==> |m - {u}| == |m| - 1
    ensures |m| == 0 <==> m == map[]
  {
    assert m[u := p].Keys == m.Keys + {u} && (m - {u}).Keys == m.Keys - {u};
    assert |m[u := p]| == |m[u := p].Keys| && |m| == |m.Keys| && |m - {u}| == |(m - {u}).Keys|;
    assert u in m ==> m.Keys + {u} == m.Keys;
  }

  predicate ByUser(e: Step) { e.Pin? || e.Unpin? || e.Copy? || e.StoreDirty? || e.MarkLoad? || e.MarkStore? }

  lemma UserStepPins(s: Frame, e: Step)
    requires PinsExact(s) && ByUser(e) && Enabled(s, e)
    ensures PinsExact(Next(s, e))
  {
    MapSizes(s.users, e.u, NextPhase(s, e));
  }

  function NextPhase(s: Frame, e: Step): Phase
  {
    if e.Copy? then Copied else if e.MarkLoad? && s.state == Clean then Marking else Holding
  }

  lemma OtherStepPins(s: Frame, e: Step)
    requires PinsExact(s) && LockInv(s) && !ByUser(e) && Enabled(s, e) && (s.work != Idle ==> s.lock == Open)
    ensures PinsExact(Next(s, e))
  {
    if e.Advance? && s.lock.Pinned? {
      MapSizes(s.users, s.lock.u, Holding);
    }
  }

  lemma UserStepLock(s: Frame, e: Step)
    requires LockInv(s) && ByUser(e) && Enabled(s, e) && !LatePin(s, e)
    ensures LockInv(Next(s, e))
  {
    assert NoMarking(s) && s.state != Clean ==> NoMarking(Next(s, e));
  }

  lemma OtherStepLock(s: Frame, e: Step)
    requires PinsExact(s) && LockInv(s) && WorkInv(s) && !ByUser(e) && Enabled(s, e)
    ensures LockInv(Next(s, e))
  {
    MapSizes(s.users, 0, Holding);
    assert s.users == map[] ==> NoMarking(s);
  }

  lemma UserStepWork(s: Frame, e: Step)
    requires Inv(s) && ByUser(e) && Enabled(s, e) && !LatePin(s, e)
    ensures WorkInv(Next(s, e))
  {
    assert NoMarking(s) && s.state != Clean ==> NoMarking(Next(s, e));
  }

  lemma OtherStepWork(s: Frame, e: Step)
    requires Inv(s) && !ByUser(e) && Enabled(s, e)
    ensures WorkInv(Next(s, e))
  {
    assert NoMarking(s) ==> NoMarking(Next(s, e));
  }

  /** Every step except a late pin keeps a pinned frame resident, a frame in writeback pinned
      by the scheduler, and the pin count exact. */
  lemma StepKeepsInv(s: Frame, e: Step)
    requires Inv(s) && Enabled(s, e) && !LatePin(s, e)
    ensures Inv(Next(s, e))
  {
    if ByUser(e) {
      UserStepPins(s, e);
      UserStepLock(s, e);
      UserStepWork(s, e);
    } else {
      OtherStepPins(s, e);
      OtherStepLock(s, e);
      OtherStepWork(s, e);
    }
  }

  /** So at every point of a run without late pins: eviction finds a frame clean or dirty, never
      in the middle of a writeback, and nobody uses it until it is free (`LockInv`). */
  lemma {:induction false} RunKeepsInv(s: Frame, run: seq<Step>)
    requires Inv(s) && CanRun(s, run) && !Meets(s, run, ALatePin)
    ensures Inv(After(s, run))
    decreases |run|
  {
    if run != [] {
      StepKeepsInv(s, run[0]);
      RunKeepsInv(Next(s, run[0]), run[1..]);
    }
  }

  /** How many operations are left under the lock, and of a writeback after its callback. */
  function LockLeft(lock: Section): nat
  {
    match lock
    case Tested => 4
    case Loaded(_) => 3
    case Writing => 2
    case Evicted(_) => 1
    case Taken(_) => 3
    case Emptied(_) => 2
    case Filling(_) => 1
    case _ => 0
  }

  function WorkLeft(w: Work): nat
  {
    match w
    case Persisted(_) => 3
    case Checked(_) => 2
    case Settled => 1
    case _ => 0
  }

  // ----- Slips -----

  /** The scheduler stores the clean state it had checked although a user has stored Dirty meanwhile. */
  predicate StaleSettle(s: Frame, e: Step) { e.Settle? && s.work == Checked(Clean) && s.state == Dirty }

  /** MarkDirty does nothing for a frame in Writeback. */
  predicate IgnoredMark(s: Frame, e: Step) { e.MarkLoad? && s.state == Writeback }

  /** Eviction finds the frame dirty, but neither the frame nor the manager has a callback. */
  predicate Unoffered(s: Frame, e: Step) { e.Advance? && s.lock.Writing? && e.callback == Missing }

  /** Close drops the data without any writeback. */
  predicate Dropped(s: Frame, e: Step) { e.Close? && s.version != s.saved }

  predicate Slip(s: Frame, e: Step)
  {
    LatePin(s, e) || StaleSettle(s, e) || IgnoredMark(s, e) || Unoffered(s, e) || Dropped(s, e)
  }

  /** Within `n` steps something bad can happen, with nobody slipping before it. */
  ghost predicate CanMeetIn(s: Frame, bad: Mishap, n: nat)
    decreases n
  {
    n > 0 && exists e :: Enabled(s, e) && !Slip(s, e) && (Happens(s, e, bad) || CanMeetIn(Next(s, e), bad, n - 1))
  }

  ghost predicate CanMeet(s: Frame, bad: Mishap) { exists n: nat :: CanMeetIn(s, bad, n) }

  lemma Then(s: Frame, e: Step, bad: Mishap)
    requires Enabled(s, e) && !Slip(s, e) && (Happens(s, e, bad) || CanMeet(Next(s, e), bad))
    ensures CanMeet(s, bad)
  {
    var n: nat := 0;
    if !Happens(s, e, bad) {
      n :| CanMeetIn(Next(s, e), bad, n);
    }
    assert CanMeetIn(s, bad, n + 1);
  }

  // ----- The documented life cycle -----

  /** The step stores a state that is neither the current one nor a valid transition from it. */
  predicate OffPath(s: Frame, e: Step)
  {
    Enabled(s, e) && Stored(s, e).Some? && Stored(s, e).value != s.state && !ValidTransition(s.state, Stored(s, e).value)
  }

  lemma StepOffPathIff(s: Frame, e: Step)
    requires Inv(s) && Enabled(s, e)
    ensures OffPath(s, e) <==> StaleSettle(s, e)
  {
  }

  /** Although most stores are unguarded, a run without late pins follows the documented
      transitions, unless the check and the store of a TransitionTo are separated by a user's store. */
  lemma {:induction false} RunOffPathIff(s: Frame, run: seq<Step>)
    requires Inv(s) && CanRun(s, run) && !Meets(s, run, ALatePin)
    ensures Meets(s, run, AnOffPath) <==> Meets(s, run, AStaleSettle)
    decreases |run|
  {
    if run != [] {
      StepOffPathIff(s, run[0]);
      StepKeepsInv(s, run[0]);
      RunOffPathIff(Next(s, run[0]), run[1..]);
    }
  }

  /** After a late pin the life cycle can be left without anybody slipping again. */
  lemma LatePinLeavesPath(s: Frame, u: User)
    requires In(s, u, Holding) && s.lock != Closed
    requires (s.state == Free || s.state == Loading || s.state == Evicting || s.lock.Tested? || s.lock.Loaded?)
    ensures CanMeet(s, AnOffPath)
    decreases LockLeft(s.lock)
  {
    if s.lock.Tested? || s.lock.Loaded? {
      LatePinLeavesPath(Next(s, Advance(Succeeds)), u);
      Then(s, Advance(Succeeds), AnOffPath);
    } else {
      var t := Next(s, Copy(u));
      Then(t, StoreDirty(u), AnOffPath);
      Then(s, Copy(u), AnOffPath);
    }
  }

  lemma {:induction false} NoSlipStaysOnPath(s: Frame, n: nat)
    requires Inv(s)
    ensures !CanMeetIn(s, AnOffPath, n)
    decreases n
  {
    if n > 0 {
      forall e | Enabled(s, e) && !Slip(s, e)
        ensures !OffPath(s, e) && !CanMeetIn(Next(s, e), AnOffPath, n - 1)
      {
        StepOffPathIff(s, e);
        StepKeepsInv(s, e);
        NoSlipStaysOnPath(Next(s, e), n - 1);
      }
    }
  }

  /** The documented life cycle is left, at once or later with nobody slipping any more,
      exactly because of a stale store or a late pin. */
  lemma LeavesPathIff(s: Frame, e: Step)
    requires Inv(s) && Enabled(s, e)
    ensures OffPath(s, e) || CanMeet(Next(s, e), AnOffPath) <==> StaleSettle(s, e) || LatePin(s, e)
  {
    StepOffPathIff(s, e);
    if LatePin(s, e) {
      LatePinLeavesPath(Next(s, e), e.u);
    } else {
      StepKeepsInv(s, e);
      forall n: nat ensures !CanMeetIn(Next(s, e), AnOffPath, n) {
        NoSlipStaysOnPath(Next(s, e), n);
      }
    }
  }

  // ----- Unsaved contents -----

  /** A frame is freed, or the manager closed, whose contents were neither saved nor offered to a callback. */
  predicate SilentLoss(s: Frame, e: Step)
  {
    && s.version != s.saved
    && (e.Close? || (e.Advance? && s.lock.Zeroed? && !(s.lock.offer.Offered? && s.lock.offer.v == s.version)))
  }

  /** Some user has still to mark its change. */
  predicate Pending(s: Frame) { exists u :: u in s.users && s.users[u] != Holding }

  predicate PendingOther(s: Frame, u: User) { exists v :: v in s.users && v != u && s.users[v] != Holding }

  /** The scheduler or an eviction will save the current version, has tried to, or leaves it marked. */
  predicate InHand(s: Frame)
  {
    || s.work == Picked || s.work == Persisted(false) || s.work == Checked(Dirty)
    || s.lock.PickStored? || s.lock.Writing?
    || ((s.lock.Evicted? || s.lock.Zeroed?) && s.lock.offer.Offered? && s.lock.offer.v == s.version)
  }

  /** Unsaved contents are marked, or somebody has yet to see to them. */
  predicate Covered(s: Frame) { s.version != s.saved ==> s.state == Dirty || Pending(s) || InHand(s) }

  predicate Safe(s: Frame) { Inv(s) && Covered(s) }

  /** The slip comes after the callback, concerns a later change, and nobody else will mark it; or
      eviction has no callback for unsaved contents. */
  predicate Exposes(s: Frame, e: Step)
  {
    && s.version != s.saved
    && match e
       case Settle => StaleSettle(s, e) && !Pending(s)
       case MarkLoad(u) => IgnoredMark(s, e) && !InHand(s) && !PendingOther(s, u)
       case Advance(_) => Unoffered(s, e)
       case _ => false
  }

  /** Only user `u`, if anyone, has moved. */
  lemma SameOthers(s: Frame, t: Frame, u: User)
    requires forall v :: v != u ==> (v in s.users <==> v in t.users)
    requires forall v :: v != u && v in s.users ==> t.users[v] == s.users[v]
    ensures PendingOther(t, u) <==> PendingOther(s, u)
    ensures Pending(s) <==> PendingOther(s, u) || (u in s.users && s.users[u] != Holding)
    ensures Pending(t) <==> PendingOther(t, u) || (u in t.users && t.users[u] != Holding)
  {
    assert PendingOther(s, u) ==> PendingOther(t, u) by {
      if PendingOther(s, u) {
        var v :| v in s.users && v != u && s.users[v] != Holding;
        assert v in t.users;
      }
    }
  }

  lemma UserStepExposes(s: Frame, e: Step)
    requires Safe(s) && ByUser(e) && Enabled(s, e) && !LatePin(s, e)
    ensures !Covered(Next(s, e)) <==> Exposes(s, e)
  {
    var t := Next(s, e);
    SameOthers(s, t, e.u);
    if e.Copy? || (e.MarkLoad? && s.state == Clean) {
      assert t.users[e.u] != Holding;
    }
  }

  lemma OtherStepExposes(s: Frame, e: Step)
    requires Safe(s) && !ByUser(e) && Enabled(s, e)
    ensures !Covered(Next(s, e)) <==> Exposes(s, e)
  {
    var t := Next(s, e);
    if !(e.Advance? && s.lock.Pinned?) {
      assert t.users == s.users;
      assert Pending(t) <==> Pending(s);
    }
  }

  /** Contents become exposed exactly by such a slip. */
  lemma StepExposesIff(s: Frame, e: Step)
    requires Safe(s) && Enabled(s, e) && !LatePin(s, e)
    ensures !Covered(Next(s, e)) <==> Exposes(s, e)
  {
    if ByUser(e) { UserStepExposes(s, e); } else { OtherStepExposes(s, e); }
  }

  predicate Perilous(s: Frame, e: Step) { LatePin(s, e) || Exposes(s, e) || Dropped(s, e) }

  /** A run in which contents are never exposed or dropped and no pin is late loses nothing silently. */
  lemma {:induction false} NoPerilNoSilentLoss(s: Frame, run: seq<Step>)
    requires Safe(s) && CanRun(s, run) && !Meets(s, run, APeril)
    ensures !Meets(s, run, ASilentLoss) && Safe(After(s, run))
    decreases |run|
  {
    if run != [] {
      StepExposesIff(s, run[0]);
      StepKeepsInv(s, run[0]);
      NoPerilNoSilentLoss(Next(s, run[0]), run[1..]);
    }
  }

  /** Without such steps a frame is freed with unsaved contents only if a callback was offered
      these very contents and failed; and never if it succeeded. */
  lemma {:induction false} DiscardsOnlyAfterFailure(s: Frame, run: seq<Step>)
    requires Safe(s) && CanRun(s, run) && !Meets(s, run, APeril) && After(s, run).lock.Zeroed?
    ensures var t := After(s, run);
            && (t.version != t.saved ==> t.lock.offer == Offered(t.version, false))
            && (t.lock.offer.Offered? && t.lock.offer.ok ==> t.version == t.saved)
  {
    NoPerilNoSilentLoss(s, run);
  }

  // ----- Exposed contents can be lost without any further slip -----

  lemma EvictionFinishes(s: Frame)
    requires InEviction(s.lock) && s.version != s.saved && !InHand(s)
    requires (s.lock.Tested? ==> s.state != Dirty) && (s.lock.Loaded? ==> !s.lock.dirty)
    ensures CanMeet(s, ASilentLoss)
    decreases LockLeft(s.lock)
  {
    if !s.lock.Zeroed? {
      EvictionFinishes(Next(s, Advance(Succeeds)));
    }
    Then(s, Advance(Succeeds), ASilentLoss);
  }

  lemma ChosenUnsaved(s: Frame)
    requires s.state == Clean && s.work == Idle && s.lock == Open && !s.free && s.pins == 0 && s.version != s.saved
    ensures CanMeet(s, ASilentLoss)
  {
    EvictionFinishes(Next(s, Choose));
    Then(s, Choose, ASilentLoss);
  }

  lemma {:induction false} UsersLeave(s: Frame)
    requires s.state == Clean && s.work == Idle && s.lock == Open && !s.free && s.pins <= |s.users|
    requires s.version != s.saved && forall u :: u in s.users ==> s.users[u] == Holding
    ensures CanMeet(s, ASilentLoss)
    decreases |s.users|
  {
    if s.users == map[] {
      ChosenUnsaved(s);
    } else {
      var u :| u in s.users;
      MapSizes(s.users, u, Holding);
      UsersLeave(Next(s, Unpin(u)));
      Then(s, Unpin(u), ASilentLoss);
    }
  }

  lemma SchedulerFinishes(s: Frame)
    requires Inv(s) && !Covered(s) && s.lock == Open
    ensures CanMeet(s, ASilentLoss)
    decreases WorkLeft(s.work)
  {
    if s.work == Idle {
      UsersLeave(s);
    } else {
      var e := if s.work.Persisted? then Check else if s.work.Checked? then Settle else Release;
      StepKeepsInv(s, e);
      assert Next(s, e).users == s.users;
      SchedulerFinishes(Next(s, e));
      Then(s, e, ASilentLoss);
    }
  }

  lemma ExposedCanBeLost(s: Frame)
    requires Inv(s) && !Covered(s)
    ensures CanMeet(s, ASilentLoss)
  {
    if s.lock == Open { SchedulerFinishes(s); } else { EvictionFinishes(s); }
  }

  // ----- So can what a late user writes -----

  lemma LateInEviction(s: Frame, u: User)
    requires InEviction(s.lock) && In(s, u, Holding) && s.work == Idle && s.saved <= s.version
    requires (s.lock.Evicted? || s.lock.Zeroed?) && s.lock.offer.Offered? ==> s.lock.offer.v <= s.version
    ensures CanMeet(s, ASilentLoss)
    decreases LockLeft(s.lock)
  {
    if s.lock.Zeroed? {
      EvictionFinishes(Next(s, Copy(u)));
      Then(s, Copy(u), ASilentLoss);
    } else {
      LateInEviction(Next(s, Advance(Succeeds)), u);
      Then(s, Advance(Succeeds), ASilentLoss);
    }
  }

  /** A mark stored just before the allocation stores Clean. */
  lemma MarkOverwritten(s: Frame, u: User)
    requires s.lock.Pinned? && s.lock.u != u && s.users == map[u := Holding] && s.work == Idle
    requires s.version != s.saved && s.pins <= 2
    ensures CanMeet(s, ASilentLoss)
  {
    var t := Next(s, Advance(Succeeds));
    MapSizes(s.users, s.lock.u, Holding);
    MapSizes(map[], u, Holding);
    assert s.users == map[][u := Holding];
    UsersLeave(t);
    Then(s, Advance(Succeeds), ASilentLoss);
  }

  lemma LateInAllocation(s: Frame, u: User)
    requires InAllocation(s.lock) && s.lock.u != u && s.users == map[u := Holding] && s.work == Idle && s.saved <= s.version
    requires s.pins <= if s.lock.Pinned? then 2 else 1
    ensures CanMeet(s, ASilentLoss)
    decreases LockLeft(s.lock)
  {
    if s.lock.Pinned? {
      var t := Next(s, Copy(u));
      var v := Next(t, StoreDirty(u));
      assert v.users == map[u := Holding];
      MarkOverwritten(v, u);
      Then(t, StoreDirty(u), ASilentLoss);
      Then(s, Copy(u), ASilentLoss);
    } else {
      LateInAllocation(Next(s, Advance(Succeeds)), u);
      Then(s, Advance(Succeeds), ASilentLoss);
    }
  }

  lemma LatePinCanLose(s: Frame, u: User)
    requires Inv(s) && Enabled(s, Pin(u)) && LatePin(s, Pin(u))
    ensures CanMeet(Next(s, Pin(u)), ASilentLoss)
  {
    var t := Next(s, Pin(u));
    MapSizes(s.users, u, Holding);
    if InEviction(s.lock) {
      LateInEviction(t, u);
    } else if InAllocation(s.lock) {
      LateInAllocation(t, u);
    } else {
      LateInAllocation(Next(t, TakeFree(u + 1)), u);
      Then(t, TakeFree(u + 1), ASilentLoss);
    }
  }

  // ----- Exactly these -----

  lemma {:induction false} NoSlipLosesNothing(s: Frame, n: nat)
    requires Safe(s)
    ensures !CanMeetIn(s, ASilentLoss, n)
    decreases n
  {
    if n > 0 {
      forall e | Enabled(s, e) && !Slip(s, e)
        ensures !SilentLoss(s, e) && !CanMeetIn(Next(s, e), ASilentLoss, n - 1)
      {
        StepKeepsInv(s, e);
        StepExposesIff(s, e);
        NoSlipLosesNothing(Next(s, e), n - 1);
      }
    }
  }

  lemma SafeCannotLose(s: Frame)
    requires Safe(s)
    ensures !CanMeet(s, ASilentLoss)
  {
    forall n: nat ensures !CanMeetIn(s, ASilentLoss, n) {
      NoSlipLosesNothing(s, n);
    }
  }

  /** A step of a safe frame loses contents silently, or makes that possible with nobody
      slipping any more, exactly if it is a late pin, exposes contents or closes over them. */
  lemma PerilIff(s: Frame, e: Step)
    requires Safe(s) && Enabled(s, e)
    ensures SilentLoss(s, e) || CanMeet(Next(s, e), ASilentLoss) <==> Perilous(s, e)
  {
    if LatePin(s, e) {
      LatePinCanLose(s, e.u);
    } else {
      StepKeepsInv(s, e);
      StepExposesIff(s, e);
      if Exposes(s, e) { ExposedCanBeLost(Next(s, e)); } else { SafeCannotLose(Next(s, e)); }
    }
  }

  /** Over a whole run: it loses contents silently, or some point of it can be continued to such
      a loss with nobody slipping any more, exactly if it has such a step. */
  lemma {:induction false} RunPerilIff(s: Frame, run: seq<Step>)
    requires Safe(s) && CanRun(s, run)
    ensures Meets(s, run, APeril) <==> LosableWithin(s, run)
    decreases |run|
  {
    SafeCannotLose(s);
    if run != [] {
      PerilIff(s, run[0]);
      if !Perilous(s, run[0]) {
        StepKeepsInv(s, run[0]);
        StepExposesIff(s, run[0]);
        RunPerilIff(Next(s, run[0]), run[1..]);
      }
    }
  }

  ghost predicate LosableWithin(s: Frame, run: seq<Step>)
    requires CanRun(s, run)
    decreases |run|
  {
    CanMeet(s, ASilentLoss) || (run != [] && (SilentLoss(s, run[0]) || LosableWithin(Next(s, run[0]), run[1..])))
  }

  // ----- All of them happen -----

  /** A frame as the pool creates it. */
  const NewFrame := Frame(Free, true, 0, map[], Idle, Open, 0, 0)

  ghost predicate Reaches(s: Frame, t: Frame) { exists run :: CanRun(s, run) && After(s, run) == t }

  lemma {:induction false} Append(s: Frame, run: seq<Step>, e: Step)
    requires CanRun(s, run) && Enabled(After(s, run), e)
    ensures CanRun(s, run + [e]) && After(s, run + [e]) == Next(After(s, run), e)
    decreases |run|
  {
    if run == [] {
      assert [] + [e] == [e] && [e][0] == e && [e][1..] == [];
    } else {
      assert (run + [e])[1..] == run[1..] + [e];
      Append(Next(s, run[0]), run[1..], e);
    }
  }

  lemma Reach(s: Frame, t: Frame, e: Step, u: Frame)
    requires Reaches(s, t) && Enabled(t, e) && Next(t, e) == u
    ensures Reaches(s, u)
  {
    var run :| CanRun(s, run) && After(s, run) == t;
    Append(s, run, e);
  }

  lemma ReachSelf(s: Frame)
    ensures Reaches(s, s)
  {
    assert CanRun(s, []) && After(s, []) == s;
  }

  const Taking := NewFrame.(lock := Taken(0))
  const Loads := NewFrame.(lock := Filling(0), state := Loading)
  const Held := Frame(Clean, false, 1, map[0 := Holding], Idle, Open, 0, 0)
  const Written := Frame(Dirty, false, 0, map[], Idle, Open, 1, 0)
  const SavedOnce := Frame(Writeback, false, 1, map[], Persisted(true), Open, 1, 1)
  const Rewritten := Frame(Writeback, false, 2, map[0 := Copied], Persisted(true), Open, 2, 1)

  lemma AllocationBegun()
    ensures Reaches(NewFrame, Loads)
  {
    ReachSelf(NewFrame);
    Reach(NewFrame, NewFrame, TakeFree(0), Taking);
    Reach(NewFrame, Taking, Advance(Succeeds), NewFrame.(lock := Emptied(0)));
    Reach(NewFrame, NewFrame.(lock := Emptied(0)), Advance(Succeeds), Loads);
  }

  lemma Allocated()
    ensures Reaches(NewFrame, Held)
  {
    AllocationBegun();
    var v := Loads.(lock := Pinned(0), pins := 1);
    Reach(NewFrame, Loads, Advance(Succeeds), v);
    assert map[][0 := Holding] == map[0 := Holding];
    Reach(NewFrame, v, Advance(Succeeds), Held);
  }

  lemma Marked()
    ensures Reaches(NewFrame, Held.(version := 1, state := Dirty))
  {
    Allocated();
    var v := Held.(users := map[0 := Copied], version := 1);
    assert map[0 := Holding][0 := Copied] == map[0 := Copied] && map[0 := Copied][0 := Holding] == map[0 := Holding];
    Reach(NewFrame, Held, Copy(0), v);
    Reach(NewFrame, v, StoreDirty(0), Held.(version := 1, state := Dirty));
  }

  lemma WrittenOnce()
    ensures Reaches(NewFrame, Written)
  {
    Marked();
    assert map[0 := Holding] - {0} == map[];
    Reach(NewFrame, Held.(version := 1, state := Dirty), Unpin(0), Written);
  }

  lemma PickedUp()
    ensures Reaches(NewFrame, Written.(lock := PickStored, state := Writeback))
  {
    WrittenOnce();
    Reach(NewFrame, Written, Pick, Written.(lock := Picking));
    Reach(NewFrame, Written.(lock := Picking), Advance(Succeeds), Written.(lock := PickStored, state := Writeback));
  }

  lemma Saved()
    ensures Reaches(NewFrame, SavedOnce)
  {
    PickedUp();
    var t := Written.(state := Writeback, pins := 1, work := Picked);
    Reach(NewFrame, Written.(lock := PickStored, state := Writeback), Advance(Succeeds), t);
    Reach(NewFrame, t, Persist(true), SavedOnce);
  }

  /** A user has written again before the scheduler settles. */
  lemma WrittenTwice()
    ensures Reaches(NewFrame, Rewritten)
  {
    Saved();
    var v := SavedOnce.(users := map[0 := Holding], pins := 2);
    assert map[][0 := Holding] == map[0 := Holding] && map[0 := Holding][0 := Copied] == map[0 := Copied];
    Reach(NewFrame, SavedOnce, Pin(0), v);
    Reach(NewFrame, v, Copy(0), Rewritten);
  }

  lemma RewrittenIsSafe()
    ensures Safe(Rewritten) && !PendingOther(Rewritten, 0)
  {
    assert Rewritten.users[0] != Holding;
  }

  /** MarkDirty is called after the scheduler has saved and before it settles. */
  lemma IgnoredMarkLoses() returns (s: Frame)
    ensures Reaches(NewFrame, s) && Enabled(s, MarkLoad(0)) && IgnoredMark(s, MarkLoad(0))
    ensures CanMeet(Next(s, MarkLoad(0)), ASilentLoss)
  {
    WrittenTwice();
    RewrittenIsSafe();
    s := Rewritten;
    PerilIff(s, MarkLoad(0));
  }

  const Overtaken := Rewritten.(work := Checked(Clean), state := Dirty, users := map[0 := Holding])

  lemma MarkedAfterCheck()
    ensures Reaches(NewFrame, Overtaken)
  {
    WrittenTwice();
    var v := Rewritten.(work := Checked(Clean));
    Reach(NewFrame, Rewritten, Check, v);
    assert map[0 := Copied][0 := Holding] == map[0 := Holding];
    Reach(NewFrame, v, StoreDirty(0), Overtaken);
  }

  /** Dirty is stored between the check and the store of TransitionTo(Clean). */
  lemma StaleSettleLoses() returns (s: Frame)
    ensures Reaches(NewFrame, s) && Enabled(s, Settle) && StaleSettle(s, Settle)
    ensures CanMeet(Next(s, Settle), ASilentLoss)
  {
    MarkedAfterCheck();
    s := Overtaken;
    PerilIff(s, Settle);
  }

  lemma Chosen()
    ensures Reaches(NewFrame, Written.(lock := Tested))
  {
    WrittenOnce();
    Reach(NewFrame, Written, Choose, Written.(lock := Tested));
  }

  /** PinFrame pins a frame that eviction has just chosen. */
  lemma LatePinLoses() returns (s: Frame)
    ensures Reaches(NewFrame, s) && Enabled(s, Pin(0)) && s.lock == Tested && LatePin(s, Pin(0))
    ensures CanMeet(Next(s, Pin(0)), ASilentLoss)
  {
    Chosen();
    s := Written.(lock := Tested);
    PerilIff(s, Pin(0));
  }

  lemma SeenDirty()
    ensures Reaches(NewFrame, Written.(lock := Writing, state := Evicting))
  {
    Chosen();
    Reach(NewFrame, Written.(lock := Tested), Advance(Succeeds), Written.(lock := Loaded(true)));
    Reach(NewFrame, Written.(lock := Loaded(true)), Advance(Succeeds), Written.(lock := Writing, state := Evicting));
  }

  /** The evicted frame is dirty, and nothing is configured to write it back. */
  lemma MissingCallbackLoses() returns (s: Frame)
    ensures Reaches(NewFrame, s) && Enabled(s, Advance(Missing)) && Unoffered(s, Advance(Missing))
    ensures CanMeet(Next(s, Advance(Missing)), ASilentLoss)
  {
    SeenDirty();
    s := Written.(lock := Writing, state := Evicting);
    PerilIff(s, Advance(Missing));
  }

  /** The manager is closed over a dirty frame. */
  lemma CloseLoses() returns (s: Frame)
    ensures Reaches(NewFrame, s) && Enabled(s, Close) && SilentLoss(s, Close)
  {
    WrittenOnce();
    s := Written;
  }
}
