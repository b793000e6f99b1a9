/** The residency index: an open-addressing hash table with linear probing and tombstones.
    Its table is a sequence of slots; the hash is an arbitrary function of the key. */
module Residency {
  import opened Options
  import opened Ring
  import opened Bits

  datatype Key = Key(owner: int, tag: string)

  type Hash = Key -> nat

  datatype Slot = Slot(occupied: bool, deleted: bool, owner: int, tag: string, id: nat, hash: nat)

  predicate Live(s: Slot) { s.occupied && !s.deleted }

  predicate Tombstone(s: Slot) { s.occupied && s.deleted }

  function KeyOf(s: Slot): Key { Key(s.owner, s.tag) }

  /** The probe's test for a live entry of `k` with hash `h`. */
  predicate Hit(s: Slot, h: nat, k: Key) { Live(s) && s.hash == h && s.owner == k.owner && s.tag == k.tag }

  function Home(h: nat, n: int): int
    requires n > 0
  {
    h % n
  }

  /** The slot `i` probes after the home slot of `h`. */
  function Probe(s: seq<Slot>, h: nat, i: nat): Slot
    requires i < |s|
  {
    s[At(Home(h, |s|), i, |s|)]
  }

  /** How many probes after its home slot a key with hash `h` meets slot `p`. */
  function Distance(s: seq<Slot>, h: nat, p: nat): int
    requires p < |s|
  {
    Turn(Home(h, |s|), p, |s|)
  }

  // ----- The table invariant -----

  /** Slot `p` carries its key's hash and is reached from its home slot without crossing
      a never-used slot. */
  ghost predicate Reachable(s: seq<Slot>, hash: Hash, p: nat)
    requires p < |s|
  {
    && s[p].hash == hash(KeyOf(s[p]))
    && forall i :: 0 <= i < Distance(s, s[p].hash, p) ==> Probe(s, s[p].hash, i).occupied
  }

  ghost predicate TableOk(s: seq<Slot>, hash: Hash)
  {
    |s| > 0 && forall p :: 0 <= p < |s| && Live(s[p]) ==> Reachable(s, hash, p)
  }

  ghost predicate LiveKey(s: seq<Slot>, k: Key)
  {
    exists p :: 0 <= p < |s| && Live(s[p]) && KeyOf(s[p]) == k
  }

  ghost function LiveSlots(s: seq<Slot>): set<int> { set p | 0 <= p < |s| && Live(s[p]) }

  // ----- Lookup -----

  /** What the probing loop answers from probe `i` on. */
  function FindFrom(s: seq<Slot>, k: Key, h: nat, i: nat): Option<nat>
    decreases |s| - i
  {
    if i >= |s| then None
    else if !Probe(s, h, i).occupied then None
    else if Hit(Probe(s, h, i), h, k) then Some(Probe(s, h, i).id)
    else FindFrom(s, k, h, i + 1)
  }

  function Find(s: seq<Slot>, hash: Hash, k: Key): Option<nat> { FindFrom(s, k, hash(k), 0) }

  /** `p` is the live slot of `k` that its probe sequence meets first. */
  ghost predicate Nearest(s: seq<Slot>, hash: Hash, k: Key, p: nat)
  {
    && p < |s| && Live(s[p]) && KeyOf(s[p]) == k
    && forall q :: 0 <= q < |s| && Live(s[q]) && KeyOf(s[q]) == k ==>
         Distance(s, hash(k), p) <= Distance(s, hash(k), q)
  }

  lemma {:induction false} NearestExists(s: seq<Slot>, hash: Hash, k: Key, q: nat) returns (p: nat)
    requires q < |s| && Live(s[q]) && KeyOf(s[q]) == k
    ensures Nearest(s, hash, k, p)
    decreases Distance(s, hash(k), q)
  {
    if r: nat :| r < |s| && Live(s[r]) && KeyOf(s[r]) == k && Distance(s, hash(k), r) < Distance(s, hash(k), q) {
      p := NearestExists(s, hash, k, r);
    } else {
      p := q;
    }
  }

  /** Where each slot is met. */
  lemma ProbeDistance(s: seq<Slot>, h: nat, p: nat)
    requires p < |s|
    ensures 0 <= Distance(s, h, p) < |s| && Probe(s, h, Distance(s, h, p)) == s[p]
    ensures At(Home(h, |s|), Distance(s, h, p), |s|) == p
  {
  }

  lemma {:induction false} FindReaches(s: seq<Slot>, hash: Hash, k: Key, p: nat, i: nat)
    requires TableOk(s, hash) && Nearest(s, hash, k, p) && i <= Distance(s, hash(k), p)
    ensures FindFrom(s, k, hash(k), i) == Some(s[p].id)
    decreases Distance(s, hash(k), p) - i
  {
    var h := hash(k);
    ProbeDistance(s, h, p);
    assert Reachable(s, hash, p);
    if i < Distance(s, h, p) {
      var q := At(Home(h, |s|), i, |s|);
      assert Probe(s, h, i) == s[q] && Distance(s, h, q) == i;
      assert Probe(s, h, i).occupied;
      assert !Hit(s[q], h, k);
      FindReaches(s, hash, k, p, i + 1);
    }
  }

  lemma {:induction false} FindMisses(s: seq<Slot>, k: Key, h: nat, i: nat)
    requires forall q :: 0 <= q < |s| && Live(s[q]) ==> KeyOf(s[q]) != k
    ensures FindFrom(s, k, h, i) == None
    decreases |s| - i
  {
    if i < |s| {
      assert KeyOf(Probe(s, h, i)) == k ==> !Live(Probe(s, h, i));
      FindMisses(s, k, h, i + 1);
    }
  }

  /** Lookup finds the nearest live entry, and fails only if there is none. */
  lemma FindIsNearest(s: seq<Slot>, hash: Hash, k: Key)
    requires TableOk(s, hash)
    ensures Find(s, hash, k) == None <==> !LiveKey(s, k)
    ensures forall p: nat :: Nearest(s, hash, k, p) ==> Find(s, hash, k) == Some(s[p].id)
  {
    forall p: nat | Nearest(s, hash, k, p) ensures Find(s, hash, k) == Some(s[p].id) {
      FindReaches(s, hash, k, p, 0);
    }
    if LiveKey(s, k) {
      var q: nat :| q < |s| && Live(s[q]) && KeyOf(s[q]) == k;
      var p := NearestExists(s, hash, k, q);
    } else {
      FindMisses(s, k, hash(k), 0);
    }
  }

  // ----- Insert -----

  /** The slot an insertion writes: the first, in probe order, that is not live or is a live entry of `k`. */
  ghost predicate Chosen(s: seq<Slot>, k: Key, h: nat, p: nat)
  {
    && p < |s|
    && (!Live(s[p]) || Hit(s[p], h, k))
    && forall i :: 0 <= i < Distance(s, h, p) ==> Live(Probe(s, h, i)) && !Hit(Probe(s, h, i), h, k)
  }

  function Entry(k: Key, id: nat, h: nat): Slot { Slot(true, false, k.owner, k.tag, id, h) }

  function Written(s: seq<Slot>, k: Key, id: nat, h: nat, p: nat): seq<Slot>
    requires p < |s|
  {
    s[p := Entry(k, id, h)]
  }

  /** The table invariant survives, whatever the history. */
  lemma InsertKeepsTable(s: seq<Slot>, hash: Hash, k: Key, id: nat, p: nat)
    requires TableOk(s, hash) && Chosen(s, k, hash(k), p)
    ensures TableOk(Written(s, k, id, hash(k), p), hash)
  {
    var t := Written(s, k, id, hash(k), p);
    forall q | 0 <= q < |t| && Live(t[q]) ensures Reachable(t, hash, q) {
      if q != p {
        assert Reachable(s, hash, q);
        forall i | 0 <= i < Distance(t, t[q].hash, q) ensures Probe(t, t[q].hash, i).occupied {
          assert Probe(s, s[q].hash, i).occupied;
        }
      } else {
        forall i | 0 <= i < Distance(t, t[q].hash, q) ensures Probe(t, t[q].hash, i).occupied {
          assert Live(Probe(s, hash(k), i));
        }
      }
    }
  }

  /** A successful insertion is a map update as seen by Lookup: `k` now answers `id`. */
  lemma InsertIsSeen(s: seq<Slot>, hash: Hash, k: Key, id: nat, p: nat)
    requires TableOk(s, hash) && Chosen(s, k, hash(k), p)
    ensures Find(Written(s, k, id, hash(k), p), hash, k) == Some(id)
  {
    var t, h := Written(s, k, id, hash(k), p), hash(k);
    InsertKeepsTable(s, hash, k, id, p);
    forall q | 0 <= q < |t| && Live(t[q]) && KeyOf(t[q]) == k
      ensures Distance(t, h, p) <= Distance(t, h, q)
    {
      ProbeDistance(s, h, q);
      assert q == p || Reachable(s, hash, q);
    }
    assert Nearest(t, hash, k, p);
    FindIsNearest(t, hash, k);
  }

  /** Two tables with the same live entries of `k`, in the same slots, answer `k` alike. */
  lemma SameEntriesSameAnswer(s: seq<Slot>, t: seq<Slot>, hash: Hash, k: Key)
    requires TableOk(s, hash) && TableOk(t, hash) && |s| == |t|
    requires forall q :: 0 <= q < |s| ==>
      ((Live(s[q]) && KeyOf(s[q]) == k) <==> (Live(t[q]) && KeyOf(t[q]) == k))
    requires forall q :: 0 <= q < |s| && Live(s[q]) && KeyOf(s[q]) == k ==> s[q].id == t[q].id
    ensures Find(s, hash, k) == Find(t, hash, k)
  {
    FindIsNearest(s, hash, k);
    FindIsNearest(t, hash, k);
    if LiveKey(s, k) {
      var q: nat :| q < |s| && Live(s[q]) && KeyOf(s[q]) == k;
      var p := NearestExists(s, hash, k, q);
      assert Nearest(t, hash, k, p);
    } else {
      assert !LiveKey(t, k);
    }
  }

  /** ... and no other key changes its answer. */
  lemma InsertKeepsOthers(s: seq<Slot>, hash: Hash, k: Key, id: nat, p: nat, other: Key)
    requires TableOk(s, hash) && Chosen(s, k, hash(k), p) && other != k
    ensures Find(Written(s, k, id, hash(k), p), hash, other) == Find(s, hash, other)
  {
    InsertKeepsTable(s, hash, k, id, p);
    SameEntriesSameAnswer(s, Written(s, k, id, hash(k), p), hash, other);
  }

  // ----- Remove -----

  function Buried(s: seq<Slot>, p: nat): seq<Slot>
    requires p < |s|
  {
    s[p := s[p].(deleted := true, tag := "")]
  }

  lemma RemoveKeepsTable(s: seq<Slot>, hash: Hash, p: nat)
    requires TableOk(s, hash) && p < |s| && s[p].occupied
    ensures TableOk(Buried(s, p), hash)
  {
    var t := Buried(s, p);
    forall q | 0 <= q < |t| && Live(t[q]) ensures Reachable(t, hash, q) {
      assert Reachable(s, hash, q);
      forall i | 0 <= i < Distance(t, t[q].hash, q) ensures Probe(t, t[q].hash, i).occupied {
        assert Probe(s, s[q].hash, i).occupied;
      }
    }
  }

  lemma RemoveKeepsOthers(s: seq<Slot>, hash: Hash, k: Key, p: nat, other: Key)
    requires TableOk(s, hash) && Nearest(s, hash, k, p) && other != k
    ensures Find(Buried(s, p), hash, other) == Find(s, hash, other)
  {
    RemoveKeepsTable(s, hash, p);
    SameEntriesSameAnswer(s, Buried(s, p), hash, other);
  }

  /** At most one live slot per key. */
  ghost predicate Single(s: seq<Slot>, k: Key)
  {
    forall p, q :: 0 <= p < |s| && 0 <= q < |s| && Live(s[p]) && Live(s[q]) && KeyOf(s[p]) == k == KeyOf(s[q]) ==> p == q
  }

  /** Removal is map deletion exactly when the key has a single live slot. */
  lemma RemoveIsDeletionIff(s: seq<Slot>, hash: Hash, k: Key, p: nat)
    requires TableOk(s, hash) && Nearest(s, hash, k, p)
    ensures Find(Buried(s, p), hash, k) == None <==> Single(s, k)
  {
    var t := Buried(s, p);
    RemoveKeepsTable(s, hash, p);
    FindIsNearest(t, hash, k);
    if !Single(s, k) {
      var q :| 0 <= q < |s| && Live(s[q]) && KeyOf(s[q]) == k && q != p;
      assert Live(t[q]) && KeyOf(t[q]) == k;
    } else {
      forall q | 0 <= q < |t| && Live(t[q]) ensures KeyOf(t[q]) != k {
        if q == p { assert false; }
      }
    }
  }

  // ----- When an insertion duplicates a key -----

  /** A tombstone lies on the probe path of the live key `k` before its slot. */
  ghost predicate Shadowed(s: seq<Slot>, hash: Hash, k: Key)
  {
    exists q: nat, i: nat :: Nearest(s, hash, k, q) && i < Distance(s, hash(k), q) && Tombstone(Probe(s, hash(k), i))
  }

  /** The insertion writes a second entry for a live key exactly when the key is shadowed. */
  lemma DuplicatesIffShadowed(s: seq<Slot>, hash: Hash, k: Key, p: nat)
    requires TableOk(s, hash) && Chosen(s, k, hash(k), p)
    ensures (LiveKey(s, k) && !Live(s[p])) <==> Shadowed(s, hash, k)
  {
    var h := hash(k);
    ProbeDistance(s, h, p);
    if LiveKey(s, k) {
      var r: nat :| r < |s| && Live(s[r]) && KeyOf(s[r]) == k;
      var q := NearestExists(s, hash, k, r);
      ProbeDistance(s, h, q);
      assert Reachable(s, hash, q) && Hit(s[q], h, k);
      if !Live(s[p]) {
        assert Distance(s, h, p) < Distance(s, h, q);
        assert Tombstone(Probe(s, h, Distance(s, h, p)));
      }
    }
    if Shadowed(s, hash, k) {
      var q: nat, i: nat :| Nearest(s, hash, k, q) && i < Distance(s, h, q) && Tombstone(Probe(s, h, i));
      ProbeDistance(s, h, q);
      assert Distance(s, h, p) <= i;
      assert LiveKey(s, k);
      assert !Hit(s[p], h, k);
    }
  }

  ghost predicate AllSingle(s: seq<Slot>)
  {
    forall p, q :: 0 <= p < |s| && 0 <= q < |s| && Live(s[p]) && Live(s[q]) && KeyOf(s[p]) == KeyOf(s[q]) ==> p == q
  }

  lemma InsertKeepsSingleIff(s: seq<Slot>, hash: Hash, k: Key, id: nat, p: nat)
    requires TableOk(s, hash) && Chosen(s, k, hash(k), p) && AllSingle(s)
    ensures AllSingle(Written(s, k, id, hash(k), p)) <==> !Shadowed(s, hash, k)
  {
    var t := Written(s, k, id, hash(k), p);
    DuplicatesIffShadowed(s, hash, k, p);
    if LiveKey(s, k) && !Live(s[p]) {
      var q :| 0 <= q < |s| && Live(s[q]) && KeyOf(s[q]) == k;
      assert Live(t[q]) && Live(t[p]) && KeyOf(t[q]) == KeyOf(t[p]);
    }
  }

  lemma FirstHitIsNearest(s: seq<Slot>, hash: Hash, k: Key, p: nat)
    requires TableOk(s, hash) && p < |s| && Hit(s[p], hash(k), k)
    requires forall i :: 0 <= i < Distance(s, hash(k), p) ==> !Hit(Probe(s, hash(k), i), hash(k), k)
    ensures Nearest(s, hash, k, p)
  {
    forall q | 0 <= q < |s| && Live(s[q]) && KeyOf(s[q]) == k
      ensures Distance(s, hash(k), p) <= Distance(s, hash(k), q)
    {
      ProbeDistance(s, hash(k), q);
      assert Reachable(s, hash, q);
    }
  }

  /** A probe that meets a never-used slot, or goes all the way round, without a hit: the key is not live. */
  lemma NoHitNotLive(s: seq<Slot>, hash: Hash, k: Key, d: nat)
    requires TableOk(s, hash) && d <= |s|
    requires forall i :: 0 <= i < d ==> !Hit(Probe(s, hash(k), i), hash(k), k)
    requires d == |s| || !Probe(s, hash(k), d).occupied
    ensures !LiveKey(s, k)
  {
    forall q | 0 <= q < |s| && Live(s[q]) ensures KeyOf(s[q]) != k {
      ProbeDistance(s, hash(k), q);
      assert Reachable(s, hash, q);
    }
  }

  // ----- Counting -----

  lemma WrittenCount(s: seq<Slot>, k: Key, id: nat, h: nat, p: nat)
    requires p < |s|
    ensures |LiveSlots(Written(s, k, id, h, p))| == |LiveSlots(s)| + if Live(s[p]) then 0 else 1
  {
    assert LiveSlots(Written(s, k, id, h, p)) == LiveSlots(s) + {p};
    if Live(s[p]) {
      assert LiveSlots(s) + {p} == LiveSlots(s);
    }
  }

  lemma BuriedCount(s: seq<Slot>, p: nat)
    requires p < |s| && Live(s[p])
    ensures |LiveSlots(Buried(s, p))| == |LiveSlots(s)| - 1
  {
    assert LiveSlots(Buried(s, p)) == LiveSlots(s) - {p};
  }

  ghost function KeysAt(s: seq<Slot>, ps: set<int>): set<Key>
    requires ps <= LiveSlots(s)
  {
    set p | p in ps :: KeyOf(s[p])
  }

  ghost predicate DistinctKeys(s: seq<Slot>, ps: set<int>)
    requires ps <= LiveSlots(s)
  {
    forall p, q :: p in ps && q in ps && KeyOf(s[p]) == KeyOf(s[q]) ==> p == q
  }

  lemma KeysAtInsert(s: seq<Slot>, rest: set<int>, x: int)
    requires rest + {x} <= LiveSlots(s) && x !in rest
    ensures |KeysAt(s, rest + {x})| == |KeysAt(s, rest)| + if KeyOf(s[x]) in KeysAt(s, rest) then 0 else 1
    ensures DistinctKeys(s, rest + {x}) <==> DistinctKeys(s, rest) && KeyOf(s[x]) !in KeysAt(s, rest)
  {
    var ks := KeysAt(s, rest);
    assert KeysAt(s, rest + {x}) == ks + {KeyOf(s[x])};
    if KeyOf(s[x]) in ks {
      assert ks + {KeyOf(s[x])} == ks;
    }
  }

  lemma {:induction false} KeysOfSlots(s: seq<Slot>, ps: set<int>)
    requires ps <= LiveSlots(s)
    ensures |KeysAt(s, ps)| <= |ps|
    ensures |KeysAt(s, ps)| == |ps| <==> DistinctKeys(s, ps)
    decreases ps
  {
    if x :| x in ps {
      KeysOfSlots(s, ps - {x});
      assert ps - {x} + {x} == ps;
      KeysAtInsert(s, ps - {x}, x);
    }
  }

  ghost function LiveKeys(s: seq<Slot>): set<Key> { KeysAt(s, LiveSlots(s)) }

  /** The number of live slots is the number of keys exactly when no key is duplicated. */
  lemma CountIsSizeIff(s: seq<Slot>)
    ensures |LiveSlots(s)| == |LiveKeys(s)| <==> AllSingle(s)
  {
    KeysOfSlots(s, LiveSlots(s));
    assert AllSingle(s) <==> DistinctKeys(s, LiveSlots(s));
  }

  lemma {:induction false} FullTable(s: seq<Slot>)
    requires forall p :: 0 <= p < |s| ==> Live(s[p])
    ensures |LiveSlots(s)| == |s|
  {
    if s == [] {
      assert LiveSlots(s) == {};
    } else {
      var n := |s| - 1;
      FullTable(s[..n]);
      assert LiveSlots(s) == LiveSlots(s[..n]) + {n};
    }
  }

  /** A probe sequence visits every slot: if every probe is live, the table is full. */
  lemma AllProbesLive(s: seq<Slot>, h: nat)
    requires |s| > 0 && forall i :: 0 <= i < |s| ==> Live(Probe(s, h, i))
    ensures |LiveSlots(s)| == |s|
  {
    forall p | 0 <= p < |s| ensures Live(s[p]) {
      ProbeDistance(s, h, p);
    }
    FullTable(s);
  }

  // ----- Runs -----

  datatype Table = Table(slots: seq<Slot>, count: int)

  datatype Op = Insert(k: Key, id: nat) | Remove(k: Key)

  /** The load-factor test: an insertion is refused at three quarters. */
  predicate Refused(t: Table) { t.count * 4 >= |t.slots| * 3 }

  /** The insertion writes slot `p`. */
  ghost predicate InsertedAt(hash: Hash, t: Table, k: Key, id: nat, t': Table, p: nat)
  {
    && Chosen(t.slots, k, hash(k), p)
    && t' == Table(Written(t.slots, k, id, hash(k), p), t.count + if Live(t.slots[p]) then 0 else 1)
  }

  ghost predicate InsertStep(hash: Hash, t: Table, k: Key, id: nat, t': Table, ok: bool)
  {
    && ok == !Refused(t)
    && if !ok then t' == t
       else exists p: nat :: InsertedAt(hash, t, k, id, t', p)
  }

  ghost predicate RemoveStep(hash: Hash, t: Table, k: Key, t': Table)
  {
    if !LiveKey(t.slots, k) then t' == t
    else exists p: nat :: Nearest(t.slots, hash, k, p) && t' == Table(Buried(t.slots, p), t.count - 1)
  }

  ghost predicate Step(hash: Hash, t: Table, op: Op, t': Table)
  {
    match op
    case Insert(k, id) => InsertStep(hash, t, k, id, t', !Refused(t))
    case Remove(k) => RemoveStep(hash, t, k, t')
  }

  ghost predicate TableInv(hash: Hash, t: Table)
  {
    TableOk(t.slots, hash) && t.count == |LiveSlots(t.slots)|
  }

  function EmptySlot(): Slot { Slot(false, false, 0, "", 0, 0) }

  ghost predicate Fresh(t: Table)
  {
    |t.slots| > 0 && t.count == 0 && forall p :: 0 <= p < |t.slots| ==> t.slots[p] == EmptySlot()
  }

  lemma FreshInv(hash: Hash, t: Table)
    requires Fresh(t)
    ensures TableInv(hash, t) && AllSingle(t.slots)
  {
    assert LiveSlots(t.slots) == {};
  }

  /** Every step keeps the invariant, duplicates or not. */
  lemma StepKeepsInv(hash: Hash, t: Table, op: Op, t': Table)
    requires TableInv(hash, t) && Step(hash, t, op, t')
    ensures TableInv(hash, t') && |t'.slots| == |t.slots|
  {
    match op
    case Insert(k, id) =>
      if !Refused(t) {
        var p: nat :| InsertedAt(hash, t, k, id, t', p);
        InsertKeepsTable(t.slots, hash, k, id, p);
        WrittenCount(t.slots, k, id, hash(k), p);
      }
    case Remove(k) =>
      if LiveKey(t.slots, k) {
        var p: nat :| Nearest(t.slots, hash, k, p) && t' == Table(Buried(t.slots, p), t.count - 1);
        RemoveKeepsTable(t.slots, hash, p);
        BuriedCount(t.slots, p);
      }
  }

  /** The operation inserts a shadowed key. */
  ghost predicate ShadowedInsert(hash: Hash, t: Table, op: Op)
  {
    op.Insert? && !Refused(t) && Shadowed(t.slots, hash, op.k)
  }

  lemma StepKeepsSingleIff(hash: Hash, t: Table, op: Op, t': Table)
    requires TableInv(hash, t) && AllSingle(t.slots) && Step(hash, t, op, t')
    ensures AllSingle(t'.slots) <==> !ShadowedInsert(hash, t, op)
  {
    match op
    case Insert(k, id) =>
      if !Refused(t) {
        var p: nat :| InsertedAt(hash, t, k, id, t', p);
        InsertKeepsSingleIff(t.slots, hash, k, id, p);
      }
    case Remove(k) =>
  }

  ghost predicate IsRun(hash: Hash, tables: seq<Table>, ops: seq<Op>)
  {
    && |tables| == |ops| + 1
    && Fresh(tables[0])
    && forall i :: 0 <= i < |ops| ==> Step(hash, tables[i], ops[i], tables[i + 1])
  }

  lemma {:induction false} RunKeepsInv(hash: Hash, tables: seq<Table>, ops: seq<Op>, i: nat)
    requires IsRun(hash, tables, ops) && i < |tables|
    ensures TableInv(hash, tables[i]) && |tables[i].slots| == |tables[0].slots|
    decreases i
  {
    if i == 0 {
      FreshInv(hash, tables[0]);
    } else {
      RunKeepsInv(hash, tables, ops, i - 1);
      StepKeepsInv(hash, tables[i - 1], ops[i - 1], tables[i]);
    }
  }

  /** On every run, at every insertion that is not refused: the key answers the new frame
      and every other key answers as before. */
  lemma RunInsertIsUpdate(hash: Hash, tables: seq<Table>, ops: seq<Op>, i: nat)
    requires IsRun(hash, tables, ops) && i < |ops| && ops[i].Insert? && !Refused(tables[i])
    ensures Find(tables[i + 1].slots, hash, ops[i].k) == Some(ops[i].id)
    ensures forall other :: other != ops[i].k ==>
      Find(tables[i + 1].slots, hash, other) == Find(tables[i].slots, hash, other)
  {
    var t, k, id := tables[i], ops[i].k, ops[i].id;
    RunKeepsInv(hash, tables, ops, i);
    assert Step(hash, t, ops[i], tables[i + 1]);
    var p: nat :| InsertedAt(hash, t, k, id, tables[i + 1], p);
    InsertIsSeen(t.slots, hash, k, id, p);
    forall other | other != k
      ensures Find(tables[i + 1].slots, hash, other) == Find(t.slots, hash, other)
    {
      InsertKeepsOthers(t.slots, hash, k, id, p, other);
    }
  }

  /** A run never duplicates a key exactly when it contains no shadowed insertion. */
  lemma {:induction false} RunSingleIff(hash: Hash, tables: seq<Table>, ops: seq<Op>, n: nat)
    requires IsRun(hash, tables, ops) && n <= |ops|
    ensures (forall i :: 0 <= i <= n ==> AllSingle(tables[i].slots)) <==>
            (forall i :: 0 <= i < n ==> !ShadowedInsert(hash, tables[i], ops[i]))
    decreases n
  {
    if n == 0 {
      FreshInv(hash, tables[0]);
    } else {
      RunSingleIff(hash, tables, ops, n - 1);
      RunKeepsInv(hash, tables, ops, n - 1);
      if AllSingle(tables[n - 1].slots) {
        StepKeepsSingleIff(hash, tables[n - 1], ops[n - 1], tables[n]);
      }
    }
  }

  // ----- Refinement of a finite map -----

  function MapStep(m: map<Key, nat>, op: Op, capacity: nat): map<Key, nat>
  {
    match op
    case Insert(k, id) => if |m| * 4 >= capacity * 3 then m else m[k := id]
    case Remove(k) => m - {k}
  }

  function MapRun(ops: seq<Op>, capacity: nat): map<Key, nat>
  {
    if ops == [] then map[] else MapStep(MapRun(ops[..|ops| - 1], capacity), ops[|ops| - 1], capacity)
  }

  ghost predicate Answers(hash: Hash, s: seq<Slot>, m: map<Key, nat>)
  {
    forall k :: Find(s, hash, k) == if k in m then Some(m[k]) else None
  }

  ghost predicate Refines(hash: Hash, t: Table, m: map<Key, nat>)
  {
    TableInv(hash, t) && AllSingle(t.slots) && t.count == |m| && Answers(hash, t.slots, m)
  }

  lemma InsertAnswers(hash: Hash, s: seq<Slot>, k: Key, id: nat, p: nat, m: map<Key, nat>)
    requires TableOk(s, hash) && Chosen(s, k, hash(k), p) && Answers(hash, s, m)
    ensures Answers(hash, Written(s, k, id, hash(k), p), m[k := id])
  {
    InsertIsSeen(s, hash, k, id, p);
    forall other | other != k ensures Find(Written(s, k, id, hash(k), p), hash, other) == Find(s, hash, other) {
      InsertKeepsOthers(s, hash, k, id, p, other);
    }
  }

  lemma UpdateSize(m: map<Key, nat>, k: Key, id: nat)
    ensures |m[k := id]| == |m| + if k in m then 0 else 1
  {
    assert m[k := id].Keys == m.Keys + {k};
    assert k in m ==> m.Keys + {k} == m.Keys;
    assert |m[k := id]| == |m[k := id].Keys| && |m| == |m.Keys|;
  }

  lemma InsertSize(hash: Hash, s: seq<Slot>, k: Key, id: nat, p: nat, m: map<Key, nat>)
    requires TableOk(s, hash) && Chosen(s, k, hash(k), p) && Answers(hash, s, m) && !Shadowed(s, hash, k)
    ensures |m[k := id]| == |m| + if Live(s[p]) then 0 else 1
  {
    DuplicatesIffShadowed(s, hash, k, p);
    FindIsNearest(s, hash, k);
    assert k in m <==> LiveKey(s, k);
    UpdateSize(m, k, id);
  }

  lemma InsertRefines(hash: Hash, t: Table, k: Key, id: nat, t': Table, m: map<Key, nat>)
    requires Refines(hash, t, m) && !Refused(t) && !Shadowed(t.slots, hash, k)
    requires InsertStep(hash, t, k, id, t', true)
    ensures Refines(hash, t', m[k := id])
  {
    var p: nat :| InsertedAt(hash, t, k, id, t', p);
    StepKeepsInv(hash, t, Insert(k, id), t');
    InsertKeepsSingleIff(t.slots, hash, k, id, p);
    InsertAnswers(hash, t.slots, k, id, p, m);
    InsertSize(hash, t.slots, k, id, p, m);
  }

  lemma RemovePresent(hash: Hash, t: Table, k: Key, p: nat, m: map<Key, nat>)
    requires Refines(hash, t, m) && Nearest(t.slots, hash, k, p) && k in m
    ensures Refines(hash, Table(Buried(t.slots, p), t.count - 1), m - {k})
  {
    RemoveKeepsTable(t.slots, hash, p);
    BuriedCount(t.slots, p);
    RemoveAnswers(hash, t.slots, k, p, m);
    DeleteSize(m, k);
    BuriedSingle(t.slots, p);
  }

  lemma BuriedSingle(s: seq<Slot>, p: nat)
    requires p < |s| && AllSingle(s)
    ensures AllSingle(Buried(s, p))
  {
    var t := Buried(s, p);
    assert forall q :: 0 <= q < |t| && Live(t[q]) ==> q != p && t[q] == s[q];
  }

  lemma RemoveRefines(hash: Hash, t: Table, k: Key, t': Table, m: map<Key, nat>)
    requires Refines(hash, t, m) && RemoveStep(hash, t, k, t')
    ensures Refines(hash, t', m - {k})
  {
    FindIsNearest(t.slots, hash, k);
    assert Find(t.slots, hash, k) == if k in m then Some(m[k]) else None;
    if k !in m {
      assert m - {k} == m;
    } else {
      var p: nat :| Nearest(t.slots, hash, k, p) && t' == Table(Buried(t.slots, p), t.count - 1);
      RemovePresent(hash, t, k, p, m);
    }
  }

  lemma DeleteSize(m: map<Key, nat>, k: Key)
    requires k in m
    ensures |m - {k}| == |m| - 1
  {
    assert (m - {k}).Keys == m.Keys - {k};
    assert |m - {k}| == |(m - {k}).Keys| && |m| == |m.Keys|;
  }

  lemma RemoveAnswers(hash: Hash, s: seq<Slot>, k: Key, p: nat, m: map<Key, nat>)
    requires TableOk(s, hash) && Nearest(s, hash, k, p) && AllSingle(s) && Answers(hash, s, m)
    ensures Answers(hash, Buried(s, p), m - {k})
  {
    RemoveIsDeletionIff(s, hash, k, p);
    assert Single(s, k);
    forall other ensures Find(Buried(s, p), hash, other) == if other in m - {k} then Some((m - {k})[other]) else None {
      if other != k { RemoveKeepsOthers(s, hash, k, p, other); }
    }
  }

  lemma StepRefines(hash: Hash, t: Table, op: Op, t': Table, m: map<Key, nat>)
    requires Refines(hash, t, m) && Step(hash, t, op, t') && !ShadowedInsert(hash, t, op)
    ensures Refines(hash, t', MapStep(m, op, |t.slots|))
  {
    match op
    case Insert(k, id) => if !Refused(t) { InsertRefines(hash, t, k, id, t', m); }
    case Remove(k) => RemoveRefines(hash, t, k, t', m);
  }

  lemma FreshRefines(hash: Hash, t: Table)
    requires Fresh(t)
    ensures Refines(hash, t, map[])
  {
    FreshInv(hash, t);
    forall k ensures Find(t.slots, hash, k) == None {
      FindMisses(t.slots, k, hash(k), 0);
    }
  }

  /** Without shadowed insertions the table is, as seen by Lookup and Count, the map that
      the same operations build. */
  lemma {:induction false} RunRefinesMap(hash: Hash, tables: seq<Table>, ops: seq<Op>, n: nat)
    requires IsRun(hash, tables, ops) && n <= |ops|
    requires forall i :: 0 <= i < n ==> !ShadowedInsert(hash, tables[i], ops[i])
    ensures Refines(hash, tables[n], MapRun(ops[..n], |tables[0].slots|))
    decreases n
  {
    var cap := |tables[0].slots|;
    if n == 0 {
      FreshRefines(hash, tables[0]);
    } else {
      RunRefinesMap(hash, tables, ops, n - 1);
      RunKeepsInv(hash, tables, ops, n - 1);
      assert ops[..n][..n - 1] == ops[..n - 1];
      assert Step(hash, tables[n - 1], ops[n - 1], tables[n]);
      StepRefines(hash, tables[n - 1], ops[n - 1], tables[n], MapRun(ops[..n - 1], cap));
    }
  }

  lemma InsertDone(hash: Hash, t: Table, k: Key, id: nat, p: nat)
    requires TableInv(hash, t) && !Refused(t) && Chosen(t.slots, k, hash(k), p)
    ensures var t' := Table(Written(t.slots, k, id, hash(k), p), t.count + if Live(t.slots[p]) then 0 else 1);
            && InsertStep(hash, t, k, id, t', true) && TableInv(hash, t')
            && Find(t'.slots, hash, k) == Some(id)
  {
    var t' := Table(Written(t.slots, k, id, hash(k), p), t.count + if Live(t.slots[p]) then 0 else 1);
    assert InsertedAt(hash, t, k, id, t', p);
    StepKeepsInv(hash, t, Op.Insert(k, id), t');
    InsertIsSeen(t.slots, hash, k, id, p);
  }

  lemma RemoveNothing(hash: Hash, t: Table, k: Key, d: nat)
    requires TableInv(hash, t) && d <= |t.slots|
    requires forall i :: 0 <= i < d ==> !Hit(Probe(t.slots, hash(k), i), hash(k), k)
    requires d == |t.slots| || !Probe(t.slots, hash(k), d).occupied
    ensures RemoveStep(hash, t, k, t)
    ensures Find(t.slots, hash, k) == None && Single(t.slots, k)
  {
    NoHitNotLive(t.slots, hash, k, d);
    FindIsNearest(t.slots, hash, k);
  }

  lemma RemoveSomething(hash: Hash, t: Table, k: Key, p: nat)
    requires TableInv(hash, t) && p < |t.slots| && Hit(t.slots[p], hash(k), k)
    requires forall i :: 0 <= i < Distance(t.slots, hash(k), p) ==> !Hit(Probe(t.slots, hash(k), i), hash(k), k)
    ensures var t' := Table(Buried(t.slots, p), t.count - 1);
            && RemoveStep(hash, t, k, t') && TableInv(hash, t')
            && (Find(t'.slots, hash, k) == None <==> Single(t.slots, k))
  {
    FirstHitIsNearest(t.slots, hash, k, p);
    assert LiveKey(t.slots, k);
    StepKeepsInv(hash, t, Op.Remove(k), Table(Buried(t.slots, p), t.count - 1));
    RemoveIsDeletionIff(t.slots, hash, k, p);
  }

  // ----- A run that breaks without the condition -----

  function Blank(n: nat): seq<Slot> { seq(n, _ => EmptySlot()) }

  /** The slot an entry of `b` lands in if only its home slot `p`, shared with `a`, is taken. */
  lemma SecondProbe(s: seq<Slot>, h: nat, p: nat)
    requires |s| >= 2 && Home(h, |s|) == p
    ensures var q := At(p, 1, |s|);
            && p < |s| && 0 <= q < |s| && q != p
            && Distance(s, h, p) == 0 && Distance(s, h, q) == 1 && Probe(s, h, 0) == s[p] && Probe(s, h, 1) == s[q]
  {
  }

  /** Insert `a`, insert `b`, remove `a`: `b` is shadowed by the tombstone in its home slot. */
  lemma ShadowedByTombstone(hash: Hash, n: nat, a: Key, b: Key) returns (t1: Table, t2: Table, t3: Table, p: nat)
    requires n >= 16 && a != b && Home(hash(a), n) == Home(hash(b), n)
    ensures Step(hash, Table(Blank(n), 0), Insert(a, 1), t1) && Step(hash, t1, Insert(b, 2), t2) && Step(hash, t2, Remove(a), t3)
    ensures t3.count == 1 && |t3.slots| == n && p == Home(hash(b), n) && Tombstone(t3.slots[p])
    ensures t3.slots[At(p, 1, n)] == Entry(b, 2, hash(b)) && Shadowed(t3.slots, hash, b)
    ensures forall k :: 0 <= k < n && Live(t3.slots[k]) ==> k == At(p, 1, n)
  {
    var s0 := Blank(n);
    p := Home(hash(a), n);
    var q := At(p, 1, n);
    SecondProbe(s0, hash(b), p);
    var s1 := Written(s0, a, 1, hash(a), p);
    t1 := Table(s1, 1);
    assert InsertedAt(hash, Table(s0, 0), a, 1, t1, p);
    SecondProbe(s1, hash(b), p);
    var s2 := Written(s1, b, 2, hash(b), q);
    t2 := Table(s2, 2);
    assert InsertedAt(hash, t1, b, 2, t2, q);
    assert Nearest(s2, hash, a, p);
    var s3 := Buried(s2, p);
    t3 := Table(s3, 1);
    SecondProbe(s3, hash(b), p);
    assert Nearest(s3, hash, b, q) && Tombstone(Probe(s3, hash(b), 0));
  }

  /** Insert `b` again, into the tombstone, and remove it: its first entry is uncovered. */
  lemma UncoveredByRemove(hash: Hash, t3: Table, b: Key, p: nat) returns (t4: Table, t5: Table)
    requires t3.count == 1 && |t3.slots| >= 16 && p == Home(hash(b), |t3.slots|) && Tombstone(t3.slots[p])
    requires t3.slots[At(p, 1, |t3.slots|)] == Entry(b, 2, hash(b))
    requires forall k :: 0 <= k < |t3.slots| && Live(t3.slots[k]) ==> k == At(p, 1, |t3.slots|)
    ensures Step(hash, t3, Insert(b, 9), t4) && Step(hash, t4, Remove(b), t5)
    ensures Find(t5.slots, hash, b) == Some(2) && t5.count == 1
  {
    var s3 := t3.slots;
    var q := At(p, 1, |s3|);
    SecondProbe(s3, hash(b), p);
    var s4 := Written(s3, b, 9, hash(b), p);
    t4 := Table(s4, 2);
    assert InsertedAt(hash, t3, b, 9, t4, p);
    SecondProbe(s4, hash(b), p);
    assert Nearest(s4, hash, b, p);
    var s5 := Buried(s4, p);
    t5 := Table(s5, 1);
    SecondProbe(s5, hash(b), p);
    assert Tombstone(Probe(s5, hash(b), 0)) && Hit(Probe(s5, hash(b), 1), hash(b), b);
    assert FindFrom(s5, b, hash(b), 1) == Some(2);
  }

  /** For every hash, every capacity from 16 and any two keys with the same home slot: after
      this run Lookup answers an entry of `b` although `b` was removed, and the count is not
      the map's size. */
  lemma StaleEntryAfterRemove(hash: Hash, n: nat, a: Key, b: Key) returns (tables: seq<Table>, ops: seq<Op>)
    requires n >= 16 && a != b && Home(hash(a), n) == Home(hash(b), n)
    ensures ops == [Insert(a, 1), Insert(b, 2), Remove(a), Insert(b, 9), Remove(b)]
    ensures IsRun(hash, tables, ops) && |tables[0].slots| == n && ShadowedInsert(hash, tables[3], ops[3])
    ensures Find(tables[5].slots, hash, b) == Some(2) && tables[5].count == 1
    ensures b !in MapRun(ops, n)
  {
    var t0 := Table(Blank(n), 0);
    var t1, t2, t3, p := ShadowedByTombstone(hash, n, a, b);
    var t4, t5 := UncoveredByRemove(hash, t3, b, p);
    tables := [t0, t1, t2, t3, t4, t5];
    ops := [Insert(a, 1), Insert(b, 2), Remove(a), Insert(b, 9), Remove(b)];
    StepsAreRun(hash, tables, ops);
    RemovedLast(ops, b, n);
  }

  lemma StepsAreRun(hash: Hash, tables: seq<Table>, ops: seq<Op>)
    requires |tables| == 6 && |ops| == 5 && Fresh(tables[0])
    requires Step(hash, tables[0], ops[0], tables[1]) && Step(hash, tables[1], ops[1], tables[2])
    requires Step(hash, tables[2], ops[2], tables[3]) && Step(hash, tables[3], ops[3], tables[4])
    requires Step(hash, tables[4], ops[4], tables[5])
    ensures IsRun(hash, tables, ops)
  {
    forall i | 0 <= i < |ops| ensures Step(hash, tables[i], ops[i], tables[i + 1]) {
      assert i in {0, 1, 2, 3, 4};
    }
  }

  lemma RemovedLast(ops: seq<Op>, k: Key, n: nat)
    requires ops != [] && ops[|ops| - 1] == Remove(k)
    ensures k !in MapRun(ops, n)
  {
  }

  // ----- The program -----

  class OpenAddressIndex {
    const hashKey: Hash
    const slots: array<Slot>
    const capacity: nat
    const mask: nat
    var count: int
    ghost const bits: nat

    ghost function Contents(): Table
      reads this, slots
    {
      Table(slots[..], count)
    }

    ghost predicate Valid()
      reads this, slots
    {
      slots.Length == capacity == Pow2(bits) && mask == capacity - 1 && TableInv(hashKey, Contents())
    }

    /** The capacity is the least power of two at least the requested one, and at least 16. */
    constructor (requested: int, hash: Hash)
      requires MIN_INT <= requested <= Pow2(62)
      ensures Valid() && Fresh(Contents()) && hashKey == hash && fresh(slots)
      ensures IsLeastPow2(capacity, if requested < 16 then 16 else requested)
    {
      var size := if requested < 16 then 16 else requested;
      BitLength63(1);
      size := NextPow2(size);
      ghost var k: nat :| size == Pow2(k);
      hashKey := hash;
      slots := new Slot[size](_ => EmptySlot());
      capacity := size;
      mask := size - 1;
      count := 0;
      bits := k;
      new;
      FreshInv(hashKey, Contents());
    }

    /** Masking keeps the probe position on the ring. */
    lemma Masks(h: nat, i: nat)
      requires Valid() && i < capacity
      ensures And(h, mask) == Home(h, capacity) == At(Home(h, capacity), 0, capacity)
      ensures And(At(Home(h, capacity), i, capacity) + 1, mask) == At(Home(h, capacity), i + 1, capacity)
    {
      MaskIsModulo(h, bits);
      var pos := At(Home(h, capacity), i, capacity);
      MaskIsModulo(pos + 1, bits);
      NextIsModulo(pos, capacity);
    }

    /** The probe with number `i` looks at slot `pos`, and the next one at the masked successor. */
    lemma AtProbe(h: nat, i: nat, pos: nat)
      requires Valid() && i < capacity && pos == At(Home(h, capacity), i, capacity)
      ensures pos < capacity && slots[pos] == Probe(slots[..], h, i) && Distance(slots[..], h, pos) == i
      ensures And(pos + 1, mask) == At(Home(h, capacity), i + 1, capacity)
    {
      Masks(h, i);
    }

    method Lookup(owner: int, tag: string) returns (id: nat, found: bool)
      requires Valid()
      ensures var r := Find(slots[..], hashKey, Key(owner, tag));
              found == r.Some? && id == if r.Some? then r.value else 0
      ensures found <==> LiveKey(slots[..], Key(owner, tag))
    {
      ghost var k := Key(owner, tag);
      FindIsNearest(slots[..], hashKey, k);
      var h := hashKey(Key(owner, tag));
      Masks(h, 0);
      var pos := And(h, mask);
      for i := 0 to capacity
        invariant pos == At(Home(h, capacity), i, capacity)
        invariant FindFrom(slots[..], k, h, i) == Find(slots[..], hashKey, k)
      {
        AtProbe(h, i, pos);
        var slot := slots[pos];
        if !slot.occupied {
          return 0, false;
        }
        if !slot.deleted && slot.hash == h && slot.owner == owner && slot.tag == tag {
          return slot.id, true;
        }
        pos := And(pos + 1, mask);
      }
      return 0, false;
    }

    /** Below the load limit every probe sequence meets a slot that is not live. */
    lemma SomeProbeFree(h: nat)
      requires Valid() && count * 4 < capacity * 3
      ensures exists e :: 0 <= e < capacity && !Live(Probe(slots[..], h, e))
    {
      if forall e :: 0 <= e < capacity ==> Live(Probe(slots[..], h, e)) {
        AllProbesLive(slots[..], h);
      }
    }

    /** Writes the chosen slot: a new entry, or the identifier of the entry that is there. */
    method Place(pos: nat, owner: int, tag: string, id: nat, h: nat)
      requires Valid() && !Refused(Contents()) && h == hashKey(Key(owner, tag))
      requires Chosen(slots[..], Key(owner, tag), h, pos)
      modifies this`count, slots
      ensures Valid() && InsertStep(hashKey, old(Contents()), Key(owner, tag), id, Contents(), true)
      ensures Find(slots[..], hashKey, Key(owner, tag)) == Some(id)
    {
      ghost var k, t := Key(owner, tag), Contents();
      InsertDone(hashKey, t, k, id, pos);
      if !slots[pos].occupied || slots[pos].deleted {
        slots[pos] := Slot(true, false, owner, tag, id, h);
        count := count + 1;
        assert Contents() == Table(Written(t.slots, k, id, h, pos), t.count + 1);
      } else {
        slots[pos] := slots[pos].(id := id);
        assert Contents() == Table(Written(t.slots, k, id, h, pos), t.count);
      }
    }

    /** The probing loop of an insertion. */
    method ChooseSlot(owner: int, tag: string, h: nat) returns (pos: nat)
      requires Valid() && count * 4 < capacity * 3
      ensures Chosen(slots[..], Key(owner, tag), h, pos)
    {
      ghost var k := Key(owner, tag);
      Masks(h, 0);
      pos := And(h, mask);
      for i := 0 to capacity
        invariant pos == At(Home(h, capacity), i, capacity)
        invariant forall e :: 0 <= e < i ==> Live(Probe(slots[..], h, e)) && !Hit(Probe(slots[..], h, e), h, k)
      {
        AtProbe(h, i, pos);
        var slot := slots[pos];
        if !slot.occupied || slot.deleted || (slot.hash == h && slot.owner == owner && slot.tag == tag) {
          return pos;
        }
        pos := And(pos + 1, mask);
      }
      SomeProbeFree(h);
      assert false;
    }

    method Insert(owner: int, tag: string, id: nat) returns (ok: bool)
      requires Valid()
      modifies this`count, slots
      ensures Valid()
      ensures InsertStep(hashKey, old(Contents()), Key(owner, tag), id, Contents(), ok)
      ensures ok ==> Find(slots[..], hashKey, Key(owner, tag)) == Some(id)
    {
      if count * 4 >= capacity * 3 {
        return false;
      }
      var h := hashKey(Key(owner, tag));
      var pos := ChooseSlot(owner, tag, h);
      Place(pos, owner, tag, id, h);
      return true;
    }

    /** Turns the entry that was found into a tombstone. */
    method Bury(pos: nat, owner: int, tag: string, h: nat)
      requires Valid() && h == hashKey(Key(owner, tag))
      requires pos < capacity && Hit(slots[pos], h, Key(owner, tag))
      requires forall e :: 0 <= e < Distance(slots[..], h, pos) ==> !Hit(Probe(slots[..], h, e), h, Key(owner, tag))
      modifies this`count, slots
      ensures Valid() && RemoveStep(hashKey, old(Contents()), Key(owner, tag), Contents())
      ensures Find(slots[..], hashKey, Key(owner, tag)) == None <==> Single(old(slots[..]), Key(owner, tag))
    {
      ghost var t := Contents();
      RemoveSomething(hashKey, t, Key(owner, tag), pos);
      slots[pos] := slots[pos].(deleted := true, tag := "");
      count := count - 1;
      assert Contents() == Table(Buried(t.slots, pos), t.count - 1);
    }

    method Remove(owner: int, tag: string)
      requires Valid()
      modifies this`count, slots
      ensures Valid()
      ensures RemoveStep(hashKey, old(Contents()), Key(owner, tag), Contents())
      ensures Find(slots[..], hashKey, Key(owner, tag)) == None <==> Single(old(slots[..]), Key(owner, tag))
    {
      ghost var k := Key(owner, tag);
      var h := hashKey(Key(owner, tag));
      Masks(h, 0);
      var pos := And(h, mask);
      for i := 0 to capacity
        invariant pos == At(Home(h, capacity), i, capacity)
        invariant Contents() == old(Contents())
        invariant forall e :: 0 <= e < i ==> !Hit(Probe(slots[..], h, e), h, k)
      {
        AtProbe(h, i, pos);
        var slot := slots[pos];
        if !slot.occupied {
          RemoveNothing(hashKey, Contents(), k, i);
          return;
        }
        if !slot.deleted && slot.hash == h && slot.owner == owner && slot.tag == tag {
          Bury(pos, owner, tag, h);
          return;
        }
        pos := And(pos + 1, mask);
      }
      RemoveNothing(hashKey, Contents(), k, capacity);
    }

    method Count() returns (n: int)
      requires Valid()
      ensures n == |LiveSlots(slots[..])|
      ensures n == |LiveKeys(slots[..])| <==> AllSingle(slots[..])
    {
      CountIsSizeIff(slots[..]);
      n := count;
    }
  }
}
