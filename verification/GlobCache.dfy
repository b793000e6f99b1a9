/** The process-wide cache of compiled globs under concurrent lookups. Each step is one
    critical section of the source: the lookup under the read lock, the compilation outside
    any lock, and the check-and-store under the write lock. The compiler is any function of
    the pattern and the case flag; a pattern it rejects makes the caller panic. */
module GlobCache {
  import opened Options

  datatype Regex = Regex(text: string)

  type Compiler = (string, bool) -> Option<Regex>

  type Matcher = (Regex, string) -> bool

  const MAX_ENTRIES: nat := 4096

  function CacheKey(pattern: string, fold: bool): string { (if fold then "i:" else "s:") + pattern }

  /** Different patterns or case flags never share an entry. */
  lemma CacheKeyInjective(p: string, f: bool, q: string, g: bool)
    requires CacheKey(p, f) == CacheKey(q, g)
    ensures p == q && f == g
  {
    assert CacheKey(p, f)[2..] == p && CacheKey(q, g)[2..] == q;
    assert CacheKey(p, f)[0] == if f then 'i' else 's';
    assert CacheKey(q, g)[0] == if g then 'i' else 's';
  }

  datatype Thread =
    | Idle
    | Missed(pattern: string, fold: bool)
    | Compiled(pattern: string, fold: bool, re: Regex)
    | Returned(pattern: string, fold: bool, re: Regex)
    | Panicked(pattern: string, fold: bool)

  datatype State = State(cache: map<string, Regex>, threads: map<nat, Thread>)

  datatype Event = Lookup(tid: nat, pattern: string, fold: bool) | Compile(tid: nat) | Store(tid: nat) | Done(tid: nat)

  predicate Enabled(s: State, e: Event)
  {
    e.tid in s.threads && match e
      case Lookup(_, _, _) => s.threads[e.tid].Idle?
      case Compile(_) => s.threads[e.tid].Missed?
      case Store(_) => s.threads[e.tid].Compiled?
      case Done(_) => s.threads[e.tid].Returned?
  }

  function Apply(compile: Compiler, s: State, e: Event): State
    requires Enabled(s, e)
  {
    match e
    case Lookup(tid, p, f) =>
      var key := CacheKey(p, f);
      s.(threads := s.threads[tid := if key in s.cache then Returned(p, f, s.cache[key]) else Missed(p, f)])
    case Compile(tid) =>
      var th := s.threads[tid];
      var re := compile(th.pattern, th.fold);
      s.(threads := s.threads[tid :=
        if re.Some? then Compiled(th.pattern, th.fold, re.value) else Panicked(th.pattern, th.fold)])
    case Store(tid) =>
      var th := s.threads[tid];
      var key := CacheKey(th.pattern, th.fold);
      if key in s.cache then s.(threads := s.threads[tid := Returned(th.pattern, th.fold, s.cache[key])])
      else State(if |s.cache| < MAX_ENTRIES then s.cache[key := th.re] else s.cache,
                 s.threads[tid := Returned(th.pattern, th.fold, th.re)])
    case Done(tid) => s.(threads := s.threads[tid := Idle])
  }

  // ----- Invariant -----

  /** Every entry is the fresh compilation of its pattern and case flag. */
  ghost predicate EntriesFresh(compile: Compiler, cache: map<string, Regex>)
  {
    && (forall p, f :: CacheKey(p, f) in cache ==> compile(p, f) == Some(cache[CacheKey(p, f)]))
    && (forall key :: key in cache ==> exists p, f :: key == CacheKey(p, f))
  }

  predicate ThreadSound(compile: Compiler, th: Thread)
  {
    match th
    case Compiled(p, f, re) => compile(p, f) == Some(re)
    case Returned(p, f, re) => compile(p, f) == Some(re)
    case Panicked(p, f) => compile(p, f) == None
    case _ => true
  }

  ghost predicate Inv(compile: Compiler, s: State)
  {
    && |s.cache| <= MAX_ENTRIES
    && EntriesFresh(compile, s.cache)
    && forall tid :: tid in s.threads ==> ThreadSound(compile, s.threads[tid])
  }

  lemma StoreKeepsFresh(compile: Compiler, cache: map<string, Regex>, p: string, f: bool, re: Regex)
    requires EntriesFresh(compile, cache) && compile(p, f) == Some(re)
    ensures EntriesFresh(compile, cache[CacheKey(p, f) := re])
  {
    var now := cache[CacheKey(p, f) := re];
    forall q, g | CacheKey(q, g) in now ensures compile(q, g) == Some(now[CacheKey(q, g)]) {
      if CacheKey(q, g) == CacheKey(p, f) { CacheKeyInjective(q, g, p, f); }
    }
  }

  lemma StepKeepsInv(compile: Compiler, s: State, e: Event)
    requires Enabled(s, e) && Inv(compile, s)
    ensures Inv(compile, Apply(compile, s, e))
    ensures forall key :: key in s.cache ==>
      key in Apply(compile, s, e).cache && Apply(compile, s, e).cache[key] == s.cache[key]
  {
    if e.Store? {
      var th := s.threads[e.tid];
      if CacheKey(th.pattern, th.fold) !in s.cache {
        StoreKeepsFresh(compile, s.cache, th.pattern, th.fold, th.re);
      }
    }
  }

  ghost predicate IsRun(compile: Compiler, states: seq<State>, events: seq<Event>)
  {
    && |states| == |events| + 1 && states[0].cache == map[]
    && (forall tid :: tid in states[0].threads ==> states[0].threads[tid] == Idle)
    && forall k :: 0 <= k < |events| ==> Enabled(states[k], events[k]) && states[k + 1] == Apply(compile, states[k], events[k])
  }

  lemma {:induction false} RunKeepsInv(compile: Compiler, states: seq<State>, events: seq<Event>, k: nat)
    requires IsRun(compile, states, events) && k < |states|
    ensures Inv(compile, states[k])
    decreases k
  {
    if k > 0 {
      RunKeepsInv(compile, states, events, k - 1);
      StepKeepsInv(compile, states[k - 1], events[k - 1]);
    }
  }

  /** Match: compile afresh, then match; a pattern that does not compile panics. */
  function Match(compile: Compiler, matches: Matcher, pattern: string, text: string, fold: bool): Option<bool>
  {
    var re := compile(pattern, fold);
    if re.Some? then Some(matches(re.value, text)) else None
  }

  /** What MatchCached answers in a thread whose lookup has come to an end. */
  function Answer(matches: Matcher, th: Thread, text: string): Option<bool>
    requires th.Returned? || th.Panicked?
  {
    if th.Returned? then Some(matches(th.re, text)) else None
  }

  /** Under every interleaving: the cache is within its cap, and a cached match answers, or
      panics, exactly as an uncached one. */
  lemma CachedEqualsUncached(compile: Compiler, matches: Matcher, states: seq<State>, events: seq<Event>,
                             k: nat, tid: nat, text: string)
    requires IsRun(compile, states, events) && k < |states| && tid in states[k].threads
    requires states[k].threads[tid].Returned? || states[k].threads[tid].Panicked?
    ensures |states[k].cache| <= MAX_ENTRIES
    ensures var th := states[k].threads[tid];
            Answer(matches, th, text) == Match(compile, matches, th.pattern, text, th.fold)
  {
    RunKeepsInv(compile, states, events, k);
  }

  /** Entries are never replaced or evicted. */
  lemma {:induction false} EntriesArePermanent(compile: Compiler, states: seq<State>, events: seq<Event>, j: nat, k: nat, key: string)
    requires IsRun(compile, states, events) && j <= k < |states| && key in states[j].cache
    ensures key in states[k].cache && states[k].cache[key] == states[j].cache[key]
    decreases k
  {
    if j < k {
      EntriesArePermanent(compile, states, events, j, k - 1, key);
      RunKeepsInv(compile, states, events, k - 1);
      StepKeepsInv(compile, states[k - 1], events[k - 1]);
    }
  }
}
