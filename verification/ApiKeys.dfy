/** The API key store: keys in memory, a file on disk replaced atomically, saves that may
    fail, and restarts that reload the file. Hashing is an arbitrary relation between
    tokens and stored hashes; randomness, clocks and save outcomes are inputs. */
module ApiKeys {
  import opened Options
  import opened Sequences

  datatype ApiKey = ApiKey(id: string, prefix: string, hash: string, name: string, scope: string,
                           description: string, expiresAt: int, createdAt: int, lastUsedAt: int, isRoot: bool)

  type Keys = seq<ApiKey>

  type Matches = (string, string) -> bool

  /** Memory of the running process, and the contents of keys.json if it exists. */
  datatype Store = Store(mem: Keys, disk: Option<Keys>)

  datatype Error = NotFound | LastRootKey | NotRoot | SaveFailed

  datatype Result<+T> = Ok(value: T) | Err(error: Error)

  // ----- What each operation does -----

  /** First position of `id`, or -1. */
  function IndexOf(keys: Keys, id: string): (i: int)
    ensures -1 <= i < |keys|
    ensures i >= 0 ==> keys[i].id == id
    ensures forall j :: 0 <= j < |keys| && (i < 0 || j < i) ==> keys[j].id != id
  {
    if keys == [] then -1
    else if keys[0].id == id then 0
    else
      var i := IndexOf(keys[1..], id);
      if i < 0 then -1 else i + 1
  }

  function RootCount(keys: Keys): nat
  {
    if keys == [] then 0
    else RootCount(keys[..|keys| - 1]) + if keys[|keys| - 1].isRoot then 1 else 0
  }

  function Without(keys: Keys, i: int): Keys
    requires 0 <= i < |keys|
  {
    keys[..i] + keys[i + 1..]
  }

  /** The file after a save of `keys` that succeeds or not. */
  function Saved(disk: Option<Keys>, keys: Keys, saved: bool): Option<Keys> { if saved then Some(keys) else disk }

  /** A failed save is rolled back. */
  function Create(st: Store, key: ApiKey, saved: bool): (Store, Result<ApiKey>)
  {
    if saved then (Store(st.mem + [key], Some(st.mem + [key])), Ok(key)) else (st, Err(SaveFailed))
  }

  /** A failed save is not rolled back: the key is gone from memory but not from disk. */
  function Revoke(st: Store, id: string, saved: bool): (Store, Result<()>)
  {
    var i := IndexOf(st.mem, id);
    if i < 0 then (st, Err(NotFound))
    else if st.mem[i].isRoot && RootCount(st.mem) <= 1 then (st, Err(LastRootKey))
    else
      var keys := Without(st.mem, i);
      (Store(keys, Saved(st.disk, keys, saved)), if saved then Ok(()) else Err(SaveFailed))
  }

  function RootKey(id: string, prefix: string, hash: string, now: int): ApiKey
  {
    ApiKey(id, prefix, hash, "root", "full", "", 0, now, 0, true)
  }

  /** Neither is a failed rotation rolled back. */
  function Rotate(st: Store, oldId: string, key: ApiKey, saved: bool): (Store, Result<ApiKey>)
  {
    var i := IndexOf(st.mem, oldId);
    if i < 0 then (st, Err(NotFound))
    else if !st.mem[i].isRoot then (st, Err(NotRoot))
    else
      var keys := Without(st.mem + [key], i);
      (Store(keys, Saved(st.disk, keys, saved)), if saved then Ok(key) else Err(SaveFailed))
  }

  predicate Expired(key: ApiKey, now: int) { key.expiresAt != 0 && now > key.expiresAt }

  predicate Accepts(matches: Matches, key: ApiKey, token: string, now: int)
  {
    !Expired(key, now) && matches(token, key.hash)
  }

  /** First position whose key accepts the token, or -1. */
  function Acceptor(matches: Matches, keys: Keys, token: string, now: int): (i: int)
    ensures -1 <= i < |keys|
    ensures i >= 0 ==> Accepts(matches, keys[i], token, now)
    ensures forall j :: 0 <= j < |keys| && (i < 0 || j < i) ==> !Accepts(matches, keys[j], token, now)
  {
    if keys == [] then -1
    else if Accepts(matches, keys[0], token, now) then 0
    else
      var i := Acceptor(matches, keys[1..], token, now);
      if i < 0 then -1 else i + 1
  }

  /** Marks key `i` as used and saves on a best-effort basis. */
  function Touch(st: Store, i: int, now: int, saved: bool): Store
    requires 0 <= i < |st.mem|
  {
    var keys := st.mem[i := st.mem[i].(lastUsedAt := now)];
    Store(keys, Saved(st.disk, keys, saved))
  }

  function Verify(matches: Matches, st: Store, token: string, now: int, saved: bool): (Store, Option<ApiKey>)
  {
    var i := Acceptor(matches, st.mem, token, now);
    if i < 0 then (st, None)
    else
      var st' := Touch(st, i, now, saved);
      (st', Some(st'.mem[i]))
  }

  function VerifyById(matches: Matches, st: Store, id: string, token: string, now: int, saved: bool): (Store, Option<ApiKey>)
  {
    var i := IndexOf(st.mem, id);
    if i < 0 || !Accepts(matches, st.mem[i], token, now) then (st, None)
    else
      var st' := Touch(st, i, now, saved);
      (st', Some(st'.mem[i]))
  }

  /** A restart loads the file; a missing file is an empty store. */
  function Reopen(st: Store): Store { Store(if st.disk.Some? then st.disk.value else [], st.disk) }

  // ----- What a verification answers -----

  /** The first unexpired key that matches the token, marked as used; nobody else. */
  lemma VerifyMeans(matches: Matches, st: Store, token: string, now: int, saved: bool, i: int)
    requires 0 <= i < |st.mem| && (st.mem[i].expiresAt == 0 || now <= st.mem[i].expiresAt) && matches(token, st.mem[i].hash)
    requires forall j :: 0 <= j < i ==> !((st.mem[j].expiresAt == 0 || now <= st.mem[j].expiresAt) && matches(token, st.mem[j].hash))
    ensures var (st', info) := Verify(matches, st, token, now, saved);
            && info == Some(st.mem[i].(lastUsedAt := now)) && st'.mem == st.mem[i := info.value]
            && st'.disk == if saved then Some(st'.mem) else st.disk
  {
    assert Acceptor(matches, st.mem, token, now) == i;
  }

  /** No such key, no answer. */
  lemma VerifyNobody(matches: Matches, st: Store, token: string, now: int, saved: bool)
    requires forall j :: 0 <= j < |st.mem| ==>
      !((st.mem[j].expiresAt == 0 || now <= st.mem[j].expiresAt) && matches(token, st.mem[j].hash))
    ensures Verify(matches, st, token, now, saved) == (st, None)
  {
    assert Acceptor(matches, st.mem, token, now) < 0;
  }

  // ----- Runs -----

  datatype Event =
    | DoCreate(key: ApiKey, saved: bool)
    | DoRevoke(id: string, saved: bool)
    | DoRotate(oldId: string, newId: string, prefix: string, hash: string, now: int, saved: bool)
    | DoVerify(token: string, now: int, saved: bool)
    | DoVerifyById(id: string, token: string, now: int, saved: bool)
    | DoReopen

  function Step(matches: Matches, st: Store, e: Event): Store
  {
    match e
    case DoCreate(key, saved) => Create(st, key, saved).0
    case DoRevoke(id, saved) => Revoke(st, id, saved).0
    case DoRotate(oldId, newId, prefix, hash, now, saved) => Rotate(st, oldId, RootKey(newId, prefix, hash, now), saved).0
    case DoVerify(token, now, saved) => Verify(matches, st, token, now, saved).0
    case DoVerifyById(id, token, now, saved) => VerifyById(matches, st, id, token, now, saved).0
    case DoReopen => Reopen(st)
  }

  /** The key, if any, that the event authenticates. */
  function Authenticated(matches: Matches, st: Store, e: Event): Option<ApiKey>
  {
    match e
    case DoVerify(token, now, saved) => Verify(matches, st, token, now, saved).1
    case DoVerifyById(id, token, now, saved) => VerifyById(matches, st, id, token, now, saved).1
    case _ => None
  }

  /** The event revokes `id` and reports success. */
  predicate Revokes(st: Store, e: Event, id: string)
  {
    match e
    case DoRevoke(i, saved) => i == id && Revoke(st, i, saved).1.Ok?
    case DoRotate(oldId, newId, prefix, hash, now, saved) =>
      oldId == id && Rotate(st, oldId, RootKey(newId, prefix, hash, now), saved).1.Ok?
    case _ => false
  }

  function CreatedId(e: Event): Option<string>
  {
    match e
    case DoCreate(key, _) => Some(key.id)
    case DoRotate(_, newId, _, _, _, _) => Some(newId)
    case _ => None
  }

  const Blank: Store := Store([], None)

  /** `states` is the run of `events` from an empty directory. */
  ghost predicate IsRun(matches: Matches, states: seq<Store>, events: seq<Event>)
  {
    && |states| == |events| + 1 && states[0] == Blank
    && forall k :: 0 <= k < |events| ==> states[k + 1] == Step(matches, states[k], events[k])
  }

  /** Random key identifiers do not repeat. */
  ghost predicate FreshIds(events: seq<Event>)
  {
    forall i, j :: 0 <= i < j < |events| && CreatedId(events[i]).Some? ==> CreatedId(events[i]) != CreatedId(events[j])
  }

  // ----- Root safety -----

  ghost predicate HasRoot(keys: Keys) { exists i :: 0 <= i < |keys| && keys[i].isRoot }

  ghost predicate DiskHasRoot(st: Store) { st.disk.Some? && HasRoot(st.disk.value) }

  lemma {:induction false} RootCountPositive(keys: Keys)
    ensures RootCount(keys) > 0 <==> HasRoot(keys)
  {
    if keys != [] {
      var n := |keys| - 1;
      RootCountPositive(keys[..n]);
      if HasRoot(keys) && !keys[n].isRoot {
        var i :| 0 <= i < |keys| && keys[i].isRoot;
        assert keys[..n][i].isRoot;
      }
      if HasRoot(keys[..n]) {
        var i :| 0 <= i < n && keys[..n][i].isRoot;
        assert keys[i].isRoot;
      }
    }
  }

  lemma {:induction false} RootCountWithout(keys: Keys, i: int)
    requires 0 <= i < |keys|
    ensures RootCount(Without(keys, i)) == RootCount(keys) - if keys[i].isRoot then 1 else 0
  {
    var n := |keys| - 1;
    var rest := Without(keys, i);
    if i == n {
      assert rest == keys[..n];
    } else {
      assert rest[..|rest| - 1] == Without(keys[..n], i);
      assert rest[|rest| - 1] == keys[n];
      RootCountWithout(keys[..n], i);
    }
  }

  /** The guard of Revoke keeps a root key in memory. */
  lemma RevokeKeepsRoot(st: Store, id: string, saved: bool)
    requires HasRoot(st.mem)
    ensures HasRoot(Revoke(st, id, saved).0.mem)
  {
    var i := IndexOf(st.mem, id);
    RootCountPositive(st.mem);
    if i >= 0 {
      RootCountWithout(st.mem, i);
      RootCountPositive(Without(st.mem, i));
    }
  }

  lemma RotateKeepsRoot(st: Store, oldId: string, key: ApiKey, saved: bool)
    requires HasRoot(st.mem) && key.isRoot
    ensures HasRoot(Rotate(st, oldId, key, saved).0.mem)
  {
    var i := IndexOf(st.mem, oldId);
    if i >= 0 && st.mem[i].isRoot {
      var keys := Without(st.mem + [key], i);
      assert keys[|keys| - 1] == key;
    }
  }

  lemma TouchKeepsRoot(st: Store, i: int, now: int, saved: bool)
    requires 0 <= i < |st.mem| && HasRoot(st.mem)
    ensures HasRoot(Touch(st, i, now, saved).mem)
  {
    var j :| 0 <= j < |st.mem| && st.mem[j].isRoot;
    assert Touch(st, i, now, saved).mem[j].isRoot;
  }

  /** Once memory has a root key, no event but a restart can take it away. */
  lemma StepKeepsRoot(matches: Matches, st: Store, e: Event)
    requires HasRoot(st.mem) && !e.DoReopen?
    ensures HasRoot(Step(matches, st, e).mem)
    ensures DiskHasRoot(st) ==> DiskHasRoot(Step(matches, st, e))
  {
    match e
    case DoCreate(key, saved) =>
      var i :| 0 <= i < |st.mem| && st.mem[i].isRoot;
      assert (st.mem + [key])[i].isRoot;
    case DoRevoke(id, saved) => RevokeKeepsRoot(st, id, saved);
    case DoRotate(oldId, newId, prefix, hash, now, saved) => RotateKeepsRoot(st, oldId, RootKey(newId, prefix, hash, now), saved);
    case DoVerify(token, now, saved) =>
      var i := Acceptor(matches, st.mem, token, now);
      if i >= 0 { TouchKeepsRoot(st, i, now, saved); }
    case DoVerifyById(id, token, now, saved) =>
      var i := IndexOf(st.mem, id);
      if i >= 0 { TouchKeepsRoot(st, i, now, saved); }
  }

  lemma DiskRootStep(matches: Matches, st: Store, e: Event)
    requires DiskHasRoot(st) ==> HasRoot(st.mem)
    ensures DiskHasRoot(Step(matches, st, e)) ==> HasRoot(Step(matches, st, e).mem)
  {
    DiskKeptOrReplaced(matches, st, e);
    if DiskHasRoot(st) && !e.DoReopen? {
      StepKeepsRoot(matches, st, e);
    }
  }

  /** A root key on disk is always matched by one in memory. */
  lemma {:induction false} DiskRootMeansMemoryRoot(matches: Matches, states: seq<Store>, events: seq<Event>, k: nat)
    requires IsRun(matches, states, events) && k < |states|
    ensures DiskHasRoot(states[k]) ==> HasRoot(states[k].mem)
    decreases k
  {
    if k > 0 {
      DiskRootMeansMemoryRoot(matches, states, events, k - 1);
      DiskRootStep(matches, states[k - 1], events[k - 1]);
    }
  }

  /** Root safety: once a root key has been persisted, every later memory (restarts
      included) and every later file has one, whatever saves fail. */
  lemma {:induction false} RootSafety(matches: Matches, states: seq<Store>, events: seq<Event>, k: nat, j: nat)
    requires IsRun(matches, states, events) && k <= j < |states|
    requires DiskHasRoot(states[k])
    ensures HasRoot(states[j].mem) && DiskHasRoot(states[j]) && HasRoot(Reopen(states[j]).mem)
    decreases j
  {
    if j == k {
      DiskRootMeansMemoryRoot(matches, states, events, k);
    } else {
      RootSafety(matches, states, events, k, j - 1);
      if !events[j - 1].DoReopen? {
        StepKeepsRoot(matches, states[j - 1], events[j - 1]);
      }
    }
  }

  // ----- Revocation -----

  function Ids(keys: Keys): set<string> { set key | key in keys :: key.id }

  function DiskIds(st: Store): set<string> { if st.disk.Some? then Ids(st.disk.value) else {} }

  ghost predicate Distinct(keys: Keys) { forall i, j :: 0 <= i < j < |keys| ==> keys[i].id != keys[j].id }

  ghost predicate DistinctStore(st: Store) { Distinct(st.mem) && (st.disk.Some? ==> Distinct(st.disk.value)) }

  lemma WithoutIds(keys: Keys, i: int)
    requires 0 <= i < |keys| && Distinct(keys)
    ensures Ids(Without(keys, i)) == Ids(keys) - {keys[i].id} && Distinct(Without(keys, i))
  {
    var rest := Without(keys, i);
    assert forall j :: 0 <= j < |rest| ==> rest[j] == keys[if j < i then j else j + 1];
    forall id ensures id in Ids(rest) <==> id in Ids(keys) - {keys[i].id} {
      WithoutId(keys, i, id);
    }
  }

  lemma WithoutId(keys: Keys, i: int, id: string)
    requires 0 <= i < |keys| && Distinct(keys)
    ensures id in Ids(Without(keys, i)) <==> id in Ids(keys) && id != keys[i].id
  {
    var rest := Without(keys, i);
    if id in Ids(keys) && id != keys[i].id {
      var j := ListedAt(keys, id);
      assert rest[if j < i then j else j - 1] == keys[j];
    }
    if id in Ids(rest) {
      var j := ListedAt(rest, id);
      var m := if j < i then j else j + 1;
      assert rest[j] == keys[m] && keys[m] in keys && m != i;
    }
  }

  lemma ListedAt(keys: Keys, id: string) returns (j: int)
    requires id in Ids(keys)
    ensures 0 <= j < |keys| && keys[j].id == id
  {
    var key :| key in keys && key.id == id;
    j :| 0 <= j < |keys| && keys[j] == key;
  }

  lemma AppendIds(keys: Keys, key: ApiKey)
    ensures Ids(keys + [key]) == Ids(keys) + {key.id}
    ensures Distinct(keys) && key.id !in Ids(keys) ==> Distinct(keys + [key])
  {
    assert forall k :: k in keys + [key] <==> k in keys || k == key;
    assert key in keys + [key];
    forall i | 0 <= i < |keys| ensures keys[i].id in Ids(keys) {
      assert keys[i] in keys;
    }
  }

  lemma TouchIds(st: Store, i: int, now: int, saved: bool)
    requires 0 <= i < |st.mem|
    ensures Ids(Touch(st, i, now, saved).mem) == Ids(st.mem)
    ensures Distinct(st.mem) ==> Distinct(Touch(st, i, now, saved).mem)
  {
    var keys := Touch(st, i, now, saved).mem;
    forall id ensures id in Ids(keys) <==> id in Ids(st.mem) {
      if key :| key in keys && key.id == id {
        var j :| 0 <= j < |keys| && keys[j] == key;
        assert st.mem[j] in st.mem && st.mem[j].id == id;
      }
      if key :| key in st.mem && key.id == id {
        var j :| 0 <= j < |keys| && st.mem[j] == key;
        assert keys[j] in keys && keys[j].id == id;
      }
    }
  }

  lemma IndexOfIds(keys: Keys, id: string)
    ensures IndexOf(keys, id) >= 0 <==> id in Ids(keys)
  {
    var i := IndexOf(keys, id);
    if i >= 0 {
      assert keys[i] in keys;
    } else {
      assert forall key :: key in keys ==> key.id != id;
    }
  }

  function NewIds(e: Event): set<string> { if CreatedId(e).Some? then {CreatedId(e).value} else {} }

  lemma RotateIds(st: Store, oldId: string, key: ApiKey, saved: bool)
    requires Distinct(st.mem) && key.id !in Ids(st.mem)
    ensures var keys := Rotate(st, oldId, key, saved).0.mem; Distinct(keys) && Ids(keys) <= Ids(st.mem) + {key.id}
  {
    var i := IndexOf(st.mem, oldId);
    AppendIds(st.mem, key);
    if i >= 0 { WithoutIds(st.mem + [key], i); }
  }

  lemma RevokeIds(st: Store, id: string, saved: bool)
    requires Distinct(st.mem)
    ensures var keys := Revoke(st, id, saved).0.mem; Distinct(keys) && Ids(keys) <= Ids(st.mem)
  {
    var i := IndexOf(st.mem, id);
    if i >= 0 { WithoutIds(st.mem, i); }
  }

  /** What a step other than a restart does to the identifiers in memory. */
  lemma MemoryIds(matches: Matches, st: Store, e: Event)
    requires Distinct(st.mem) && !e.DoReopen? && NewIds(e) !! Ids(st.mem)
    ensures Distinct(Step(matches, st, e).mem) && Ids(Step(matches, st, e).mem) <= Ids(st.mem) + NewIds(e)
  {
    match e
    case DoCreate(key, saved) => AppendIds(st.mem, key);
    case DoRevoke(id, saved) => RevokeIds(st, id, saved);
    case DoRotate(oldId, newId, prefix, hash, now, saved) => RotateIds(st, oldId, RootKey(newId, prefix, hash, now), saved);
    case DoVerify(token, now, saved) =>
      var i := Acceptor(matches, st.mem, token, now);
      if i >= 0 { TouchIds(st, i, now, saved); }
    case DoVerifyById(id, token, now, saved) =>
      var i := IndexOf(st.mem, id);
      if i >= 0 { TouchIds(st, i, now, saved); }
  }

  lemma DiskKeptOrReplaced(matches: Matches, st: Store, e: Event)
    ensures Step(matches, st, e).disk == st.disk || Step(matches, st, e).disk == Some(Step(matches, st, e).mem)
  {
  }

  /** What a step does to the sets of identifiers in memory and on disk. */
  lemma StepIds(matches: Matches, st: Store, e: Event)
    requires DistinctStore(st) && NewIds(e) !! Ids(st.mem) + DiskIds(st)
    ensures var st' := Step(matches, st, e);
            && DistinctStore(st')
            && Ids(st'.mem) <= Ids(st.mem) + DiskIds(st) + NewIds(e)
            && (st'.disk == st.disk || st'.disk == Some(st'.mem))
            && (!e.DoReopen? ==> Ids(st'.mem) <= Ids(st.mem) + NewIds(e))
  {
    DiskKeptOrReplaced(matches, st, e);
    if !e.DoReopen? { MemoryIds(matches, st, e); }
  }

  ghost function CreatedBefore(events: seq<Event>, k: nat): set<string>
    requires k <= |events|
  {
    set i | 0 <= i < k && CreatedId(events[i]).Some? :: CreatedId(events[i]).value
  }

  /** Every identifier around was created earlier in the run, and no list repeats one. */
  lemma {:induction false} RunIds(matches: Matches, states: seq<Store>, events: seq<Event>, k: nat)
    requires IsRun(matches, states, events) && FreshIds(events) && k < |states|
    ensures DistinctStore(states[k]) && Ids(states[k].mem) + DiskIds(states[k]) <= CreatedBefore(events, k)
    decreases k
  {
    if k > 0 {
      RunIds(matches, states, events, k - 1);
      NewIdIsNew(matches, states, events, k - 1);
      StepIds(matches, states[k - 1], events[k - 1]);
      assert CreatedBefore(events, k - 1) <= CreatedBefore(events, k);
      if CreatedId(events[k - 1]).Some? {
        assert CreatedId(events[k - 1]).value in CreatedBefore(events, k);
      }
    }
  }

  lemma NewIdIsNew(matches: Matches, states: seq<Store>, events: seq<Event>, k: nat)
    requires FreshIds(events) && k < |events|
    ensures CreatedId(events[k]).Some? ==> CreatedId(events[k]).value !in CreatedBefore(events, k)
  {
  }

  /** Present neither in memory nor on disk. */
  predicate Gone(st: Store, id: string) { id !in Ids(st.mem) && id !in DiskIds(st) }

  /** A successful revocation leaves memory and disk equal, without the key. */
  lemma RevokeMakesGone(matches: Matches, st: Store, e: Event, id: string)
    requires DistinctStore(st) && Revokes(st, e, id)
    requires CreatedId(e).Some? ==> CreatedId(e).value !in Ids(st.mem) + DiskIds(st)
    ensures var st' := Step(matches, st, e); st'.disk == Some(st'.mem) && Gone(st', id) && id in Ids(st.mem)
  {
    var i := IndexOf(st.mem, id);
    IndexOfIds(st.mem, id);
    match e
    case DoRevoke(_, saved) => WithoutIds(st.mem, i);
    case DoRotate(_, newId, prefix, hash, now, saved) =>
      AppendIds(st.mem, RootKey(newId, prefix, hash, now));
      WithoutIds(st.mem + [RootKey(newId, prefix, hash, now)], i);
  }

  lemma AuthenticatedIsInMemory(matches: Matches, st: Store, e: Event)
    ensures Authenticated(matches, st, e).Some? ==> Authenticated(matches, st, e).value.id in Ids(st.mem)
  {
    match e
    case DoVerify(token, now, saved) =>
      var i := Acceptor(matches, st.mem, token, now);
      if i >= 0 { assert st.mem[i] in st.mem; }
    case DoVerifyById(id, token, now, saved) =>
      var i := IndexOf(st.mem, id);
      if i >= 0 { assert st.mem[i] in st.mem; }
    case _ =>
  }

  lemma {:induction false} GoneStays(matches: Matches, states: seq<Store>, events: seq<Event>, id: string, k: nat, j: nat)
    requires IsRun(matches, states, events) && FreshIds(events)
    requires 0 < k <= j < |states| && Gone(states[k], id) && id in CreatedBefore(events, k)
    ensures Gone(states[j], id)
    decreases j
  {
    if k < j {
      GoneStays(matches, states, events, id, k, j - 1);
      RunIds(matches, states, events, j - 1);
      NewIdIsNew(matches, states, events, j - 1);
      StepIds(matches, states[j - 1], events[j - 1]);
      assert CreatedBefore(events, k) <= CreatedBefore(events, j - 1);
    }
  }

  /** Revocation is permanent: after a reported success at event `k`, memory and disk
      agree, and no later event of any run authenticates that key. */
  lemma RevocationIsPermanent(matches: Matches, states: seq<Store>, events: seq<Event>, k: nat, id: string, j: nat)
    requires IsRun(matches, states, events) && FreshIds(events)
    requires k < |events| && Revokes(states[k], events[k], id)
    requires k < j < |events|
    ensures states[k + 1].disk == Some(states[k + 1].mem)
    ensures Gone(states[j], id)
    ensures Authenticated(matches, states[j], events[j]).Some? ==> Authenticated(matches, states[j], events[j]).value.id != id
  {
    RunIds(matches, states, events, k);
    NewIdIsNew(matches, states, events, k);
    RevokeMakesGone(matches, states[k], events[k], id);
    assert CreatedBefore(events, k) <= CreatedBefore(events, k + 1);
    GoneStays(matches, states, events, id, k + 1, j);
    AuthenticatedIsInMemory(matches, states[j], events[j]);
  }

  // ----- A removal whose save fails -----

  /** The event replaces the file. */
  predicate Writes(matches: Matches, st: Store, e: Event)
  {
    match e
    case DoCreate(key, saved) => saved
    case DoRevoke(id, saved) => Revoke(st, id, saved).1.Ok?
    case DoRotate(oldId, newId, prefix, hash, now, saved) => Rotate(st, oldId, RootKey(newId, prefix, hash, now), saved).1.Ok?
    case DoVerify(token, now, saved) => saved && Authenticated(matches, st, e).Some?
    case DoVerifyById(id, token, now, saved) => saved && Authenticated(matches, st, e).Some?
    case DoReopen => false
  }

  /** The file is either kept or replaced by the new memory. */
  lemma StepDisk(matches: Matches, st: Store, e: Event)
    ensures var st' := Step(matches, st, e);
            if Writes(matches, st, e) then st'.disk == Some(st'.mem) else st'.disk == st.disk
  {
  }

  ghost predicate NoWrites(matches: Matches, states: seq<Store>, events: seq<Event>, lo: int, hi: int)
    requires |states| > |events| && 0 <= lo && hi <= |events|
  {
    forall q :: lo <= q < hi ==> !Writes(matches, states[q], events[q])
  }

  /** A restart loads what the last write stored; before any write, an empty store. */
  lemma RestartRestoresLastWrite(matches: Matches, states: seq<Store>, events: seq<Event>, n: nat)
    requires IsRun(matches, states, events) && n <= |events|
    ensures forall w :: 0 <= w < n && Writes(matches, states[w], events[w]) && NoWrites(matches, states, events, w + 1, n) ==>
      Reopen(states[n]).mem == states[w + 1].mem
    ensures NoWrites(matches, states, events, 0, n) ==> Reopen(states[n]).mem == []
  {
    forall w | 0 <= w < n && Writes(matches, states[w], events[w]) && NoWrites(matches, states, events, w + 1, n)
      ensures Reopen(states[n]).mem == states[w + 1].mem
    {
      StepDisk(matches, states[w], events[w]);
      FileKept(matches, states, events, w + 1, n);
    }
    if NoWrites(matches, states, events, 0, n) {
      FileKept(matches, states, events, 0, n);
    }
  }

  /** After event `k` and before event `n`, a restart comes before any write. */
  ghost predicate RestartsFirst(matches: Matches, states: seq<Store>, events: seq<Event>, k: nat, n: nat)
    requires |states| > |events| && n <= |events|
  {
    exists i :: k < i < n && events[i].DoReopen? && NoWrites(matches, states, events, k, i)
  }

  /** ... and the file still lists the key. */
  ghost predicate Resurrected(matches: Matches, states: seq<Store>, events: seq<Event>, k: nat, id: string, n: nat)
    requires |states| > |events| && k < n <= |events|
  {
    id in DiskIds(states[k]) && RestartsFirst(matches, states, events, k, n)
  }

  /** A revocation of `id`, or a rotation that replaces it, fails to save. */
  ghost predicate FailedRemoval(states: seq<Store>, events: seq<Event>, k: nat, id: string)
    requires k < |events| < |states|
  {
    match events[k]
    case DoRevoke(i, saved) => i == id && Revoke(states[k], i, saved).1 == Err(SaveFailed)
    case DoRotate(oldId, newId, prefix, hash, now, saved) =>
      oldId == id && Rotate(states[k], oldId, RootKey(newId, prefix, hash, now), saved).1 == Err(SaveFailed)
    case _ => false
  }

  /** A key absent from memory can come back only by a restart from a file that lists it;
      any write makes it gone for good. */
  lemma AbsentStep(matches: Matches, st: Store, e: Event, id: string)
    requires DistinctStore(st) && id !in Ids(st.mem)
    requires CreatedId(e).Some? ==> CreatedId(e).value !in Ids(st.mem) + DiskIds(st) && CreatedId(e).value != id
    requires e.DoReopen? ==> id !in DiskIds(st)
    ensures var st' := Step(matches, st, e);
            && id !in Ids(st'.mem)
            && (Gone(st, id) || Writes(matches, st, e) ==> Gone(st', id))
            && (!Writes(matches, st, e) ==> st'.disk == st.disk)
  {
    StepIds(matches, st, e);
    StepDisk(matches, st, e);
  }

  lemma AbsentAtOnce(matches: Matches, states: seq<Store>, events: seq<Event>, k: nat, id: string)
    requires IsRun(matches, states, events) && FreshIds(events)
    requires k < |events| && FailedRemoval(states, events, k, id)
    ensures id !in Ids(states[k + 1].mem) && states[k + 1].disk == states[k].disk
    ensures id in CreatedBefore(events, k) && !Writes(matches, states[k], events[k])
  {
    var st := states[k];
    RunIds(matches, states, events, k);
    NewIdIsNew(matches, states, events, k);
    IndexOfIds(st.mem, id);
    match events[k]
    case DoRevoke(_, _) => WithoutIds(st.mem, IndexOf(st.mem, id));
    case DoRotate(_, newId, prefix, hash, now, _) =>
      var key := RootKey(newId, prefix, hash, now);
      AppendIds(st.mem, key);
      WithoutIds(st.mem + [key], IndexOf(st.mem, id));
  }

  lemma NoWritesStep(matches: Matches, states: seq<Store>, events: seq<Event>, k: nat, n: nat)
    requires k <= n < |events| < |states|
    ensures NoWrites(matches, states, events, k, n + 1) <==>
            NoWrites(matches, states, events, k, n) && !Writes(matches, states[n], events[n])
  {
  }

  /** Out of memory; and gone for good, or nothing was written since. */
  ghost predicate StillAbsent(matches: Matches, states: seq<Store>, events: seq<Event>, k: nat, id: string, n: nat)
    requires k < n <= |events| < |states|
  {
    && id !in Ids(states[n].mem)
    && (Gone(states[n], id) || (states[n].disk == states[k].disk && NoWrites(matches, states, events, k, n)))
  }

  lemma StepKeepsAbsent(matches: Matches, states: seq<Store>, events: seq<Event>, k: nat, id: string, n: nat)
    requires IsRun(matches, states, events) && FreshIds(events) && k < n < |events|
    requires StillAbsent(matches, states, events, k, id, n) && id in CreatedBefore(events, k)
    requires !(events[n].DoReopen? && id in DiskIds(states[k]) && NoWrites(matches, states, events, k, n))
    ensures StillAbsent(matches, states, events, k, id, n + 1)
  {
    RunIds(matches, states, events, n);
    NewIdIsNew(matches, states, events, n);
    assert CreatedBefore(events, k) <= CreatedBefore(events, n);
    AbsentStep(matches, states[n], events[n], id);
    NoWritesStep(matches, states, events, k, n);
  }

  lemma {:induction false} AbsentUntilRestart(matches: Matches, states: seq<Store>, events: seq<Event>, k: nat, id: string, n: nat)
    requires IsRun(matches, states, events) && FreshIds(events)
    requires k < n <= |events| && FailedRemoval(states, events, k, id)
    requires id in DiskIds(states[k]) ==>
      forall i :: k < i < n && events[i].DoReopen? ==> !NoWrites(matches, states, events, k, i)
    ensures StillAbsent(matches, states, events, k, id, n)
    decreases n
  {
    AbsentAtOnce(matches, states, events, k, id);
    if n > k + 1 {
      AbsentUntilRestart(matches, states, events, k, id, n - 1);
      StepKeepsAbsent(matches, states, events, k, id, n - 1);
    } else {
      NoWritesStep(matches, states, events, k, k);
    }
  }

  /** A key whose revocation or rotation failed to save comes back exactly when the process
      restarts before anything else is saved. */
  lemma FailedRemovalReturnsIff(matches: Matches, states: seq<Store>, events: seq<Event>, k: nat, id: string, n: nat)
    requires IsRun(matches, states, events) && FreshIds(events)
    requires k < n <= |events| && FailedRemoval(states, events, k, id)
    ensures (exists j :: k < j <= n && id in Ids(states[j].mem)) <==> Resurrected(matches, states, events, k, id, n)
  {
    if Resurrected(matches, states, events, k, id, n) {
      var i :| k < i < n && events[i].DoReopen? && NoWrites(matches, states, events, k, i);
      FileKept(matches, states, events, k, i);
      assert states[i + 1] == Step(matches, states[i], events[i]);
      assert id in Ids(states[i + 1].mem);
    } else {
      forall j | k < j <= n ensures id !in Ids(states[j].mem) {
        AbsentUntilRestart(matches, states, events, k, id, j);
      }
    }
  }

  lemma {:induction false} FileKept(matches: Matches, states: seq<Store>, events: seq<Event>, k: nat, i: nat)
    requires IsRun(matches, states, events) && k <= i <= |events| && NoWrites(matches, states, events, k, i)
    ensures states[i].disk == states[k].disk
    decreases i
  {
    if k < i {
      FileKept(matches, states, events, k, i - 1);
      StepDisk(matches, states[i - 1], events[i - 1]);
    }
  }

  // ----- A rotation whose save fails -----

  /** Some root key whose token was handed out. */
  ghost predicate UsableRoot(keys: Keys, issued: set<string>)
  {
    exists i :: 0 <= i < |keys| && keys[i].isRoot && keys[i].id in issued
  }

  /** The new key's token is returned only if the save succeeds; the old key is dropped
      either way. So memory keeps a root key that somebody can use exactly when the save
      succeeds or another such key exists. */
  lemma RotateKeepsUsableRootIff(st: Store, oldId: string, key: ApiKey, saved: bool, issued: set<string>)
    requires Distinct(st.mem) && key.isRoot && key.id !in issued && key.id !in Ids(st.mem)
    requires Rotate(st, oldId, key, saved).1 in {Ok(key), Err(SaveFailed)}
    ensures UsableRoot(Rotate(st, oldId, key, saved).0.mem, if saved then issued + {key.id} else issued) <==>
            saved || exists i :: 0 <= i < |st.mem| && st.mem[i].isRoot && st.mem[i].id in issued && st.mem[i].id != oldId
  {
    var i := IndexOf(st.mem, oldId);
    var all := st.mem + [key];
    var keys := Without(all, i);
    assert keys[|keys| - 1] == key;
    if !saved {
      assert forall j :: 0 <= j < |keys| - 1 ==> keys[j] == st.mem[if j < i then j else j + 1];
      if j :| 0 <= j < |st.mem| && st.mem[j].isRoot && st.mem[j].id in issued && st.mem[j].id != oldId {
        assert keys[if j < i then j else j - 1] == st.mem[j];
      }
    }
  }

  /** The event returns a token to its caller. */
  predicate Issues(st: Store, e: Event)
  {
    match e
    case DoCreate(_, saved) => saved
    case DoRotate(oldId, newId, prefix, hash, now, saved) => Rotate(st, oldId, RootKey(newId, prefix, hash, now), saved).1.Ok?
    case _ => false
  }

  /** ... that of a root key. */
  predicate IssuesRoot(st: Store, e: Event) { Issues(st, e) && (e.DoCreate? ==> e.key.isRoot) }

  ghost function IssuedBefore(states: seq<Store>, events: seq<Event>, n: nat): set<string>
    requires n <= |events| < |states|
  {
    set i | 0 <= i < n && Issues(states[i], events[i]) :: CreatedId(events[i]).value
  }

  lemma IssuedStep(states: seq<Store>, events: seq<Event>, n: nat)
    requires n < |events| < |states|
    ensures IssuedBefore(states, events, n + 1) ==
            IssuedBefore(states, events, n) + if Issues(states[n], events[n]) then {CreatedId(events[n]).value} else {}
    ensures IssuedBefore(states, events, n) <= CreatedBefore(events, n)
  {
  }

  lemma UsableIsListed(keys: Keys, issued: set<string>, more: set<string>)
    requires more !! Ids(keys)
    ensures UsableRoot(keys, issued + more) <==> UsableRoot(keys, issued)
  {
    assert forall i :: 0 <= i < |keys| ==> keys[i] in keys && keys[i].id in Ids(keys);
  }

  lemma RemovalKeepsLocked(keys: Keys, i: int, issued: set<string>)
    requires 0 <= i < |keys| && !UsableRoot(keys, issued)
    ensures !UsableRoot(Without(keys, i), issued)
  {
    var rest := Without(keys, i);
    assert forall j :: 0 <= j < |rest| ==> rest[j] == keys[if j < i then j else j + 1];
  }

  /** Without a restart or a new root token, memory without a usable root key stays so. */
  lemma StepKeepsLocked(matches: Matches, st: Store, e: Event, issued: set<string>)
    requires !UsableRoot(st.mem, issued) && !e.DoReopen? && !IssuesRoot(st, e)
    requires CreatedId(e).Some? ==> CreatedId(e).value !in Ids(st.mem) && CreatedId(e).value !in issued
    ensures !UsableRoot(Step(matches, st, e).mem, issued + if Issues(st, e) then {CreatedId(e).value} else {})
  {
    match e
    case DoCreate(key, saved) => if saved { UsableIsListed(st.mem, issued, {key.id}); }
    case DoRevoke(id, saved) =>
      if IndexOf(st.mem, id) >= 0 { RemovalKeepsLocked(st.mem, IndexOf(st.mem, id), issued); }
    case DoRotate(oldId, newId, prefix, hash, now, saved) =>
      if IndexOf(st.mem, oldId) >= 0 {
        RemovalKeepsLocked(st.mem + [RootKey(newId, prefix, hash, now)], IndexOf(st.mem, oldId), issued);
      }
    case _ =>
  }

  ghost predicate UsableOnDisk(st: Store, issued: set<string>) { st.disk.Some? && UsableRoot(st.disk.value, issued) }

  /** At `n` nobody holds the token of a root key in memory, nor, once anything is written
      after `k`, of one on disk. */
  ghost predicate LockedOut(matches: Matches, states: seq<Store>, events: seq<Event>, k: nat, n: nat)
    requires k < n <= |events| < |states|
  {
    var issued := IssuedBefore(states, events, n);
    && !UsableRoot(states[n].mem, issued)
    && (UsableOnDisk(states[n], issued) ==>
          NoWrites(matches, states, events, k, n) && UsableOnDisk(states[k], IssuedBefore(states, events, k)))
  }

  lemma DiskKeepsLocked(st: Store, issued: set<string>, more: set<string>)
    requires more !! DiskIds(st)
    ensures UsableOnDisk(st, issued + more) <==> UsableOnDisk(st, issued)
  {
    if st.disk.Some? { UsableIsListed(st.disk.value, issued, more); }
  }

  lemma {:induction false} StepKeepsLockedOut(matches: Matches, states: seq<Store>, events: seq<Event>, k: nat, n: nat)
    requires IsRun(matches, states, events) && FreshIds(events) && k < n < |events|
    requires LockedOut(matches, states, events, k, n) && !IssuesRoot(states[n], events[n])
    requires events[n].DoReopen? ==>
      !(NoWrites(matches, states, events, k, n) && UsableOnDisk(states[k], IssuedBefore(states, events, k)))
    ensures LockedOut(matches, states, events, k, n + 1)
  {
    var st, e := states[n], events[n];
    var issued := IssuedBefore(states, events, n);
    var more := if Issues(st, e) then {CreatedId(e).value} else {};
    IssuedStep(states, events, n);
    RunIds(matches, states, events, n);
    NewIdIsNew(matches, states, events, n);
    StepDisk(matches, st, e);
    NoWritesStep(matches, states, events, k, n);
    DiskKeepsLocked(st, issued, more);
    if !e.DoReopen? {
      StepKeepsLocked(matches, st, e, issued);
    }
  }

  lemma StaysLockedOut(matches: Matches, states: seq<Store>, events: seq<Event>, k: nat, usable: bool, n: nat)
    requires IsRun(matches, states, events) && FreshIds(events) && k < n <= |events|
    requires LockedOut(matches, states, events, k, k + 1)
    requires forall i :: k < i < n ==> !IssuesRoot(states[i], events[i])
    requires usable == UsableOnDisk(states[k], IssuedBefore(states, events, k))
    requires usable ==> forall i :: k < i < n && events[i].DoReopen? ==> !NoWrites(matches, states, events, k, i)
    ensures LockedOut(matches, states, events, k, n)
  {
    var p := seq(n + 1, j requires 0 <= j <= n => k < j && LockedOut(matches, states, events, k, j));
    forall j | k < j < n && p[j] ensures p[j + 1] {
      StepKeepsLockedOut(matches, states, events, k, j);
    }
    FromThenOn(p, k + 1, n);
  }

  lemma LockedOutAtOnce(matches: Matches, states: seq<Store>, events: seq<Event>, k: nat, id: string)
    requires IsRun(matches, states, events) && FreshIds(events) && k < |events|
    requires events[k].DoRotate? && FailedRemoval(states, events, k, id)
    requires !UsableRoot(states[k + 1].mem, IssuedBefore(states, events, k + 1))
    ensures LockedOut(matches, states, events, k, k + 1)
    ensures IssuedBefore(states, events, k + 1) == IssuedBefore(states, events, k)
  {
    IssuedStep(states, events, k);
    StepDisk(matches, states[k], events[k]);
    assert !Writes(matches, states[k], events[k]);
  }

  lemma {:induction false} IssuedGrows(states: seq<Store>, events: seq<Event>, k: nat, n: nat)
    requires k <= n <= |events| < |states|
    ensures IssuedBefore(states, events, k) <= IssuedBefore(states, events, n)
  {
  }

  lemma RestartUnlocks(matches: Matches, states: seq<Store>, events: seq<Event>, k: nat, n: nat) returns (j: nat)
    requires IsRun(matches, states, events) && k < n <= |events|
    requires UsableOnDisk(states[k], IssuedBefore(states, events, k)) && RestartsFirst(matches, states, events, k, n)
    ensures k < j <= n && UsableRoot(states[j].mem, IssuedBefore(states, events, j))
  {
    var i :| k < i < n && events[i].DoReopen? && NoWrites(matches, states, events, k, i);
    FileKept(matches, states, events, k, i);
    IssuedGrows(states, events, k, i + 1);
    j := i + 1;
    assert states[j] == Step(matches, states[i], events[i]);
  }

  /** After a rotation that failed to save and left no usable root key in memory, and while no
      new root token is issued: a usable root key is in memory again exactly if the file had
      one and a restart precedes every write. And after a write that precedes every restart,
      there is none on disk either. */
  lemma FailedRotationLocksOutIff(matches: Matches, states: seq<Store>, events: seq<Event>, k: nat, id: string, n: nat)
    requires IsRun(matches, states, events) && FreshIds(events) && k < n <= |events|
    requires events[k].DoRotate? && FailedRemoval(states, events, k, id)
    requires !UsableRoot(states[k + 1].mem, IssuedBefore(states, events, k + 1))
    requires forall i :: k < i < n ==> !IssuesRoot(states[i], events[i])
    ensures (exists j :: k < j <= n && UsableRoot(states[j].mem, IssuedBefore(states, events, j))) <==>
            UsableOnDisk(states[k], IssuedBefore(states, events, k)) && RestartsFirst(matches, states, events, k, n)
    ensures !RestartsFirst(matches, states, events, k, n) && !NoWrites(matches, states, events, k, n) ==>
            !UsableOnDisk(states[n], IssuedBefore(states, events, n))
  {
    LockedOutAtOnce(matches, states, events, k, id);
    var usable := UsableOnDisk(states[k], IssuedBefore(states, events, k));
    if usable && RestartsFirst(matches, states, events, k, n) {
      var i := RestartUnlocks(matches, states, events, k, n);
    } else {
      forall j | k < j <= n ensures !UsableRoot(states[j].mem, IssuedBefore(states, events, j)) {
        StaysLockedOut(matches, states, events, k, usable, j);
      }
      StaysLockedOut(matches, states, events, k, usable, n);
    }
  }

  // ----- What a revocation does, key by key -----

  lemma RootElsewhere(keys: Keys, i: int)
    requires 0 <= i < |keys|
    ensures HasRoot(Without(keys, i)) <==> exists j :: 0 <= j < |keys| && j != i && keys[j].isRoot
  {
    var rest := Without(keys, i);
    if j :| 0 <= j < |keys| && j != i && keys[j].isRoot {
      assert rest[if j < i then j else j - 1] == keys[j];
    }
    if k :| 0 <= k < |rest| && rest[k].isRoot {
      assert rest[k] == keys[if k < i then k else k + 1];
    }
  }

  lemma OtherRoot(keys: Keys, i: int)
    requires 0 <= i < |keys| && keys[i].isRoot
    ensures RootCount(keys) <= 1 <==> forall j :: 0 <= j < |keys| && j != i ==> !keys[j].isRoot
  {
    RootCountWithout(keys, i);
    RootCountPositive(Without(keys, i));
    RootElsewhere(keys, i);
  }

  /** Of the first key with the identifier: it is refused exactly if it is a root key and no
      other key is; otherwise it alone is removed, and the save decides what is reported. */
  lemma RevokeMeans(st: Store, id: string, saved: bool, i: int)
    requires 0 <= i < |st.mem| && st.mem[i].id == id && forall j :: 0 <= j < i ==> st.mem[j].id != id
    ensures var (st', r) := Revoke(st, id, saved);
            if st.mem[i].isRoot && forall j :: 0 <= j < |st.mem| && j != i ==> !st.mem[j].isRoot
            then r == Err(LastRootKey) && st' == st
            else st'.mem == st.mem[..i] + st.mem[i + 1..]
                 && (if saved then r == Ok(()) && st'.disk == Some(st'.mem) else r == Err(SaveFailed) && st'.disk == st.disk)
  {
    assert IndexOf(st.mem, id) == i;
    if st.mem[i].isRoot { OtherRoot(st.mem, i); }
  }

  /** Nothing happens if there is no such key. */
  lemma RevokeMissing(st: Store, id: string, saved: bool)
    requires forall j :: 0 <= j < |st.mem| ==> st.mem[j].id != id
    ensures Revoke(st, id, saved) == (st, Err(NotFound))
  {
    assert IndexOf(st.mem, id) < 0;
  }

  /** Of the first key with the identifier: it is refused unless it is a root key; otherwise the
      new key is appended and the old one alone removed. */
  lemma RotateMeans(st: Store, oldId: string, key: ApiKey, saved: bool, i: int)
    requires 0 <= i < |st.mem| && st.mem[i].id == oldId && forall j :: 0 <= j < i ==> st.mem[j].id != oldId
    ensures var (st', r) := Rotate(st, oldId, key, saved);
            if !st.mem[i].isRoot then r == Err(NotRoot) && st' == st
            else st'.mem == st.mem[..i] + st.mem[i + 1..] + [key]
                 && (if saved then r == Ok(key) && st'.disk == Some(st'.mem) else r == Err(SaveFailed) && st'.disk == st.disk)
  {
    assert IndexOf(st.mem, oldId) == i;
    assert Without(st.mem + [key], i) == st.mem[..i] + st.mem[i + 1..] + [key];
  }

  // ----- Both outcomes happen -----

  /** The only root key is saved, and its rotation to `newId` fails to save. */
  function FailedRotation(root: ApiKey, newId: string): seq<Event>
  {
    [DoCreate(root, true), DoRotate(root.id, newId, "", "", 0, false)]
  }

  lemma FailedRotationSteps(matches: Matches, root: ApiKey, newId: string) returns (s1: Store, s2: Store)
    requires root.isRoot && newId != root.id
    ensures s1 == Step(matches, Blank, FailedRotation(root, newId)[0]) == Store([root], Some([root]))
    ensures s2 == Step(matches, s1, FailedRotation(root, newId)[1]) == Store([RootKey(newId, "", "", 0)], Some([root]))
    ensures Rotate(s1, root.id, RootKey(newId, "", "", 0), false).1 == Err(SaveFailed)
  {
    var key := RootKey(newId, "", "", 0);
    assert Blank.mem + [root] == [root];
    assert IndexOf([root], root.id) == 0;
    assert Without([root] + [key], 0) == [key];
    s1, s2 := Store([root], Some([root])), Store([key], Some([root]));
  }

  lemma IssuedInRotation(states: seq<Store>, events: seq<Event>, root: ApiKey, newId: string)
    requires |events| >= 2 && |states| > |events| && events[0] == DoCreate(root, true)
    requires events[1] == DoRotate(root.id, newId, "", "", 0, false)
    ensures IssuedBefore(states, events, 1) == IssuedBefore(states, events, 2) == {root.id}
  {
    IssuedStep(states, events, 0);
    IssuedStep(states, events, 1);
  }

  /** A key is then created and saved, and the process restarts. */
  lemma LockoutRun(matches: Matches, root: ApiKey, newId: string, other: ApiKey) returns (states: seq<Store>, events: seq<Event>)
    requires root.isRoot && newId != root.id && root.id != other.id && other.id != newId
    ensures events == FailedRotation(root, newId) + [DoCreate(other, true), DoReopen]
    ensures IsRun(matches, states, events) && FreshIds(events) && FailedRemoval(states, events, 1, root.id)
    ensures states[1].disk == Some([root]) && states[2].mem == [RootKey(newId, "", "", 0)]
    ensures states[4].mem == [RootKey(newId, "", "", 0), other] && states[4].disk == Some(states[4].mem)
  {
    var key := RootKey(newId, "", "", 0);
    var s1, s2 := FailedRotationSteps(matches, root, newId);
    assert [key] + [other] == [key, other];
    var s3 := Store([key, other], Some([key, other]));
    assert Step(matches, s2, DoCreate(other, true)) == s3 && Step(matches, s3, DoReopen) == s3;
    states := [Blank, s1, s2, s3, s3];
    events := FailedRotation(root, newId) + [DoCreate(other, true), DoReopen];
    LockoutIds(root, newId, other);
  }

  lemma LockoutIds(root: ApiKey, newId: string, other: ApiKey)
    requires newId != root.id && root.id != other.id && other.id != newId
    ensures FreshIds(FailedRotation(root, newId) + [DoCreate(other, true), DoReopen])
  {
  }

  lemma IssuedInLockout(states: seq<Store>, events: seq<Event>, root: ApiKey, newId: string, other: ApiKey)
    requires events == FailedRotation(root, newId) + [DoCreate(other, true), DoReopen] && |states| == 5
    ensures IssuedBefore(states, events, 1) == IssuedBefore(states, events, 2) == {root.id}
    ensures IssuedBefore(states, events, 4) == {root.id, other.id}
  {
    IssuedInRotation(states, events, root, newId);
    IssuedStep(states, events, 2);
    IssuedStep(states, events, 3);
  }

  /** Nobody can use a root key any more, in memory or on disk. */
  lemma LockoutHappens(matches: Matches, root: ApiKey, newId: string, other: ApiKey) returns (states: seq<Store>, events: seq<Event>)
    requires root.isRoot && !other.isRoot && newId != root.id && root.id != other.id && other.id != newId
    ensures events == FailedRotation(root, newId) + [DoCreate(other, true), DoReopen]
    ensures IsRun(matches, states, events) && FreshIds(events) && FailedRemoval(states, events, 1, root.id)
    ensures !UsableRoot(states[2].mem, IssuedBefore(states, events, 2)) && UsableOnDisk(states[1], IssuedBefore(states, events, 1))
    ensures Writes(matches, states[2], events[2]) && forall i :: 1 < i < 4 ==> !IssuesRoot(states[i], events[i])
    ensures HasRoot(states[4].mem) && !UsableRoot(states[4].mem, IssuedBefore(states, events, 4))
    ensures !UsableOnDisk(states[4], IssuedBefore(states, events, 4)) && root.id !in Ids(states[4].mem)
  {
    states, events := LockoutRun(matches, root, newId, other);
    IssuedInLockout(states, events, root, newId, other);
    LockedKeys(root, newId, other);
  }

  lemma LockedKeys(root: ApiKey, newId: string, other: ApiKey)
    requires root.isRoot && !other.isRoot && newId != root.id && root.id != other.id && other.id != newId
    ensures UsableRoot([root], {root.id}) && !UsableRoot([RootKey(newId, "", "", 0)], {root.id})
    ensures var keys := [RootKey(newId, "", "", 0), other];
            HasRoot(keys) && !UsableRoot(keys, {root.id, other.id}) && root.id !in Ids(keys)
  {
    var keys := [RootKey(newId, "", "", 0), other];
    assert [root][0].isRoot && keys[0].isRoot;
    assert Ids(keys) == {newId, other.id} by {
      assert keys[0] in keys && keys[1] in keys;
    }
  }

  /** The process restarts first: the rotated key is back. */
  lemma RestartUndoesRotation(matches: Matches, root: ApiKey, newId: string) returns (states: seq<Store>, events: seq<Event>)
    requires root.isRoot && newId != root.id
    ensures events == FailedRotation(root, newId) + [DoReopen]
    ensures IsRun(matches, states, events) && FreshIds(events) && FailedRemoval(states, events, 1, root.id)
    ensures !UsableRoot(states[2].mem, IssuedBefore(states, events, 2)) && RestartsFirst(matches, states, events, 1, 3)
    ensures root.id !in Ids(states[2].mem) && root.id in Ids(states[3].mem)
    ensures UsableRoot(states[3].mem, IssuedBefore(states, events, 3))
  {
    var s1, s2 := FailedRotationSteps(matches, root, newId);
    var s3 := Store([root], Some([root]));
    states := [Blank, s1, s2, s3];
    events := FailedRotation(root, newId) + [DoReopen];
    IssuedInRotation(states, events, root, newId);
    IssuedStep(states, events, 2);
    assert root in s3.mem && s3.mem[0].isRoot;
    assert events[2].DoReopen? && NoWrites(matches, states, events, 1, 2);
  }

  // ----- The program -----

  const KEYS_JSON := "keys.json"

  /** A file that was written to its end, or one that was not. */
  datatype Content = Whole(keys: Keys) | Truncated

  type Files = map<string, Content>

  /** keys.json is missing or whole. */
  predicate Readable(files: Files) { KEYS_JSON in files ==> files[KEYS_JSON].Whole? }

  function OnDisk(files: Files): Option<Keys>
    requires Readable(files)
  {
    if KEYS_JSON in files then Some(files[KEYS_JSON].keys) else None
  }

  /** The operations of a save that can fail. */
  datatype Stage = Marshal | CreateTemp | Write | Close | Chmod | Rename

  /** Where a save fails, and whether the temporary file can then be removed: an error of the
      removal is ignored. */
  datatype Failure = Failure(stage: Stage, removed: bool)

  predicate LeavesTemp(fails: Option<Failure>)
  {
    fails.Some? && !fails.value.removed && fails.value.stage !in {Marshal, CreateTemp}
  }

  /** What a crash may leave of a save of `keys` through `tmp`: keys.json as before or with
      exactly these keys, and every other file but `tmp` as before. */
  ghost predicate CrashSafe(before: Files, files: Files, keys: Keys, tmp: string)
  {
    && Readable(files)
    && (OnDisk(files) == Some(keys) || (KEYS_JSON in files <==> KEYS_JSON in before))
    && (OnDisk(files) == Some(keys) || (KEYS_JSON in before ==> files[KEYS_JSON] == before[KEYS_JSON]))
    && files - {KEYS_JSON, tmp} == before - {KEYS_JSON, tmp}
  }

  lemma OnlyTempDiffers(before: Files, files: Files, keys: Keys, tmp: string)
    requires Readable(before) && tmp != KEYS_JSON && files - {tmp} == before
    ensures CrashSafe(before, files, keys, tmp)
  {
    assert KEYS_JSON in files <==> KEYS_JSON in files - {tmp};
    assert files - {KEYS_JSON, tmp} == (files - {tmp}) - {KEYS_JSON, tmp};
  }

  /** The directory of the key store. */
  class Directory {
    var files: Files
    constructor () ensures files == map[] { files := map[]; }
  }

  /** Fails exactly if keys.json exists and cannot be read or parsed; otherwise the store starts
      with its keys. */
  method OpenKeyStore(dir: Directory, matches: Matches, readFails: bool) returns (ks: KeyStore?)
    ensures ks == null <==> (KEYS_JSON in dir.files && readFails) || !Readable(dir.files)
    ensures ks != null ==> fresh(ks) && ks.dir == dir && ks.matches == matches
    ensures ks != null ==> ks.State() == Reopen(Store([], OnDisk(dir.files)))
  {
    if KEYS_JSON !in dir.files {
      ks := new KeyStore(dir, matches, []);
    } else if readFails {
      ks := null;
    } else {
      match dir.files[KEYS_JSON]
      case Truncated => ks := null;
      case Whole(keys) => ks := new KeyStore(dir, matches, keys);
    }
  }

  class KeyStore {
    const dir: Directory
    const matches: Matches
    var keys: Keys

    ghost function State(): Store
      reads this, dir
      requires Readable(dir.files)
    {
      Store(keys, OnDisk(dir.files))
    }

    constructor (dir: Directory, matches: Matches, keys: Keys)
      ensures this.dir == dir && this.matches == matches && this.keys == keys
    {
      this.dir, this.matches, this.keys := dir, matches, keys;
    }

    /** Write to a temporary file, then rename. A failed save leaves the directory as it was,
        unless the temporary file cannot be removed either; a successful one only replaces
        keys.json. `trace` lists the directory after every operation: a crash at any point leaves
        keys.json whole, old or new. */
    method SaveLocked(tmp: string, fails: Option<Failure>) returns (ok: bool, ghost trace: seq<Files>)
      requires Readable(dir.files) && tmp != KEYS_JSON && tmp !in dir.files
      modifies dir
      ensures ok == fails.None?
      ensures ok ==> dir.files == old(dir.files)[KEYS_JSON := Whole(keys)]
      ensures !ok ==> dir.files - {tmp} == old(dir.files) && (tmp in dir.files <==> LeavesTemp(fails))
      ensures forall i :: 0 <= i < |trace| ==> CrashSafe(old(dir.files), trace[i], keys, tmp)
    {
      ghost var before := dir.files;
      trace := [];
      if fails.Some? && (fails.value.stage == Marshal || fails.value.stage == CreateTemp) {
        assert before - {tmp} == before;
        return false, trace;
      }
      dir.files := dir.files[tmp := Truncated];
      trace := Logged(trace, before, tmp);
      if fails.Some? && fails.value.stage == Write {
        Cleanup(tmp, fails.value.removed);
        trace := Logged(trace, before, tmp);
        return false, trace;
      }
      dir.files := dir.files[tmp := Whole(keys)];
      trace := Logged(trace, before, tmp);
      if fails.Some? {  // Close, Chmod or Rename
        Cleanup(tmp, fails.value.removed);
        trace := Logged(trace, before, tmp);
        return false, trace;
      }
      dir.files := (dir.files - {tmp})[KEYS_JSON := dir.files[tmp]];
      trace := trace + [dir.files];
      return true, trace;
    }

    /** So far only the temporary file differs. */
    ghost method Logged(trace: seq<Files>, before: Files, tmp: string) returns (more: seq<Files>)
      requires Readable(before) && tmp != KEYS_JSON && tmp !in before && dir.files - {tmp} == before
      requires forall i :: 0 <= i < |trace| ==> CrashSafe(before, trace[i], keys, tmp)
      ensures more == trace + [dir.files] && forall i :: 0 <= i < |more| ==> CrashSafe(before, more[i], keys, tmp)
    {
      OnlyTempDiffers(before, dir.files, keys, tmp);
      more := trace + [dir.files];
    }

    /** Removes the temporary file, if that succeeds. */
    method Cleanup(tmp: string, removed: bool)
      modifies dir
      ensures dir.files == if removed then old(dir.files) - {tmp} else old(dir.files)
    {
      if removed {
        dir.files := dir.files - {tmp};
      }
    }

    /** Saves and reports as the callers see it. */
    method Save(tmp: string, fails: Option<Failure>) returns (ok: bool)
      requires Readable(dir.files) && tmp != KEYS_JSON && tmp !in dir.files
      modifies dir
      ensures ok == fails.None? && Readable(dir.files)
      ensures OnDisk(dir.files) == Saved(old(OnDisk(dir.files)), keys, ok)
    {
      ghost var trace;
      ok, trace := SaveLocked(tmp, fails);
    }

    method CreateKey(key: ApiKey, tmp: string, fails: Option<Failure>) returns (r: Result<ApiKey>)
      requires Readable(dir.files) && tmp != KEYS_JSON && tmp !in dir.files
      modifies this, dir
      ensures Readable(dir.files)
      ensures (State(), r) == Create(old(State()), key, fails.None?)
      ensures r == (if fails.None? then Ok(key) else Err(SaveFailed))
      ensures keys == old(keys) + if fails.None? then [key] else []
    {
      keys := keys + [key];
      var ok := Save(tmp, fails);
      if !ok {
        keys := keys[..|keys| - 1];
        assert keys == old(keys);
        return Err(SaveFailed);
      }
      return Ok(key);
    }

    method FindKey(id: string) returns (idx: int)
      ensures idx == IndexOf(keys, id)
    {
      for i := 0 to |keys|
        invariant forall j :: 0 <= j < i ==> keys[j].id != id
      {
        if keys[i].id == id {
          return i;
        }
      }
      return -1;
    }

    method CountRoots() returns (n: nat)
      ensures n == RootCount(keys)
    {
      n := 0;
      for i := 0 to |keys|
        invariant n == RootCount(keys[..i])
      {
        assert keys[..i + 1][..i] == keys[..i];
        if keys[i].isRoot {
          n := n + 1;
        }
      }
      assert keys[..|keys|] == keys;
    }

    method RevokeKey(id: string, tmp: string, fails: Option<Failure>) returns (r: Result<()>)
      requires Readable(dir.files) && tmp != KEYS_JSON && tmp !in dir.files
      modifies this, dir
      ensures Readable(dir.files)
      ensures (State(), r) == Revoke(old(State()), id, fails.None?)
    {
      var idx := FindKey(id);
      if idx < 0 {
        return Err(NotFound);
      }
      if keys[idx].isRoot {
        var rootCount := CountRoots();
        if rootCount <= 1 {
          return Err(LastRootKey);
        }
      }
      keys := keys[..idx] + keys[idx + 1..];
      var ok := Save(tmp, fails);
      if !ok {
        return Err(SaveFailed);
      }
      return Ok(());
    }

    method RotateRoot(oldId: string, newId: string, prefix: string, hash: string, now: int, tmp: string, fails: Option<Failure>)
      returns (r: Result<ApiKey>)
      requires Readable(dir.files) && tmp != KEYS_JSON && tmp !in dir.files
      modifies this, dir
      ensures Readable(dir.files)
      ensures (State(), r) == Rotate(old(State()), oldId, RootKey(newId, prefix, hash, now), fails.None?)
      ensures r.Ok? ==>
        && r.value.id == newId && r.value.prefix == prefix && r.value.hash == hash && r.value.isRoot
        && r.value.name == "root" && r.value.scope == "full" && r.value.createdAt == now && r.value.expiresAt == 0
    {
      var oldIdx := FindKey(oldId);
      if oldIdx < 0 {
        return Err(NotFound);
      }
      if !keys[oldIdx].isRoot {
        return Err(NotRoot);
      }
      var newKey := RootKey(newId, prefix, hash, now);
      keys := keys + [newKey];
      keys := keys[..oldIdx] + keys[oldIdx + 1..];
      var ok := Save(tmp, fails);
      if !ok {
        return Err(SaveFailed);
      }
      return Ok(newKey);
    }

    method TouchKey(i: nat, now: int, tmp: string, fails: Option<Failure>) returns (info: ApiKey)
      requires i < |keys|
      requires Readable(dir.files) && tmp != KEYS_JSON && tmp !in dir.files
      modifies this, dir
      ensures Readable(dir.files)
      ensures State() == Touch(old(State()), i, now, fails.None?) && info == keys[i]
    {
      keys := keys[i := keys[i].(lastUsedAt := now)];
      var _ := Save(tmp, fails);
      info := keys[i];
    }

    method VerifyToken(token: string, now: int, tmp: string, fails: Option<Failure>) returns (info: Option<ApiKey>)
      requires Readable(dir.files) && tmp != KEYS_JSON && tmp !in dir.files
      modifies this, dir
      ensures Readable(dir.files)
      ensures (State(), info) == Verify(matches, old(State()), token, now, fails.None?)
      ensures info == None <==> forall i :: 0 <= i < |old(keys)| ==>
        !((old(keys)[i].expiresAt == 0 || now <= old(keys)[i].expiresAt) && matches(token, old(keys)[i].hash))
      ensures info == None ==> keys == old(keys)
      ensures info != None ==> exists i ::
        && 0 <= i < |old(keys)|
        && (old(keys)[i].expiresAt == 0 || now <= old(keys)[i].expiresAt) && matches(token, old(keys)[i].hash)
        && (forall j :: 0 <= j < i ==>
              !((old(keys)[j].expiresAt == 0 || now <= old(keys)[j].expiresAt) && matches(token, old(keys)[j].hash)))
        && info == Some(old(keys)[i].(lastUsedAt := now)) && keys == old(keys)[i := info.value]
    {
      for i := 0 to |keys|
        invariant State() == old(State())
        invariant forall j :: 0 <= j < i ==> !Accepts(matches, keys[j], token, now)
      {
        if keys[i].expiresAt != 0 && now > keys[i].expiresAt {
          continue;
        }
        if matches(token, keys[i].hash) {
          assert i == Acceptor(matches, keys, token, now);
          var key := TouchKey(i, now, tmp, fails);
          return Some(key);
        }
      }
      return None;
    }

    method VerifyTokenById(id: string, token: string, now: int, tmp: string, fails: Option<Failure>) returns (info: Option<ApiKey>)
      requires Readable(dir.files) && tmp != KEYS_JSON && tmp !in dir.files
      modifies this, dir
      ensures Readable(dir.files)
      ensures (State(), info) == VerifyById(matches, old(State()), id, token, now, fails.None?)
      ensures info == None ==> keys == old(keys) && forall i :: 0 <= i < |old(keys)| && old(keys)[i].id == id ==>
        || (exists j :: 0 <= j < i && old(keys)[j].id == id)
        || !((old(keys)[i].expiresAt == 0 || now <= old(keys)[i].expiresAt) && matches(token, old(keys)[i].hash))
      ensures info != None ==> exists i ::
        && 0 <= i < |old(keys)| && old(keys)[i].id == id
        && (forall j :: 0 <= j < i ==> old(keys)[j].id != id)
        && (old(keys)[i].expiresAt == 0 || now <= old(keys)[i].expiresAt) && matches(token, old(keys)[i].hash)
        && info == Some(old(keys)[i].(lastUsedAt := now)) && keys == old(keys)[i := info.value]
    {
      var i := FindKey(id);
      if i < 0 {
        return None;
      }
      if keys[i].expiresAt != 0 && now > keys[i].expiresAt {
        return None;
      }
      if matches(token, keys[i].hash) {
        var key := TouchKey(i, now, tmp, fails);
        return Some(key);
      }
      return None;
    }
  }
}
