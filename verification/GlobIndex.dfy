/** Searching the term dictionary with a glob: the scan is bounded to the byte range of the
    pattern's literal prefix, and must still find every term the compiled glob matches. */
module GlobIndex {
  import opened Options
  import opened Strings
  import opened GlobCompile
  import opened GlobAlternatives
  import opened GlobPrefix
  import R = GoRegexp

  const LAST_BYTE: char := '\U{00FF}'

  /** Every character is a byte. */
  predicate IsBytes(s: string) { forall i :: 0 <= i < |s| ==> s[i] <= LAST_BYTE }

  function Increment(c: char): char
    requires c < LAST_BYTE
  {
    (c as int + 1) as char
  }

  /** The least byte string above every extension of `p`, if there is one. */
  function Successor(p: string): Option<string>
    requires IsBytes(p)
  {
    if p == "" then None
    else
      var tail := Successor(p[1..]);
      if tail.Some? then Some([p[0]] + tail.value)
      else if p[0] < LAST_BYTE then Some([Increment(p[0])])
      else None
  }

  predicate AllLast(s: string) { forall i :: 0 <= i < |s| ==> s[i] == LAST_BYTE }

  lemma {:induction false} NoSuccessor(p: string)
    requires IsBytes(p) && AllLast(p)
    ensures Successor(p) == None
  {
    if p != "" { NoSuccessor(p[1..]); }
  }

  lemma {:induction false} SuccessorAt(p: string, i: nat)
    requires IsBytes(p) && i < |p| && p[i] < LAST_BYTE && AllLast(p[i + 1..])
    ensures Successor(p) == Some(p[..i] + [Increment(p[i])])
    decreases i
  {
    if i == 0 {
      NoSuccessor(p[1..]);
      assert p[..0] + [Increment(p[0])] == [Increment(p[0])];
    } else {
      assert p[1..][i..] == p[i + 1..] && p[1..][..i - 1] == p[..i][1..];
      SuccessorAt(p[1..], i - 1);
      assert [p[0]] + (p[1..][..i - 1] + [Increment(p[i])]) == p[..i] + [Increment(p[i])];
    }
  }

  /** prefixSuccessor: increments the last byte that can be, and drops the rest. */
  method PrefixSuccessor(prefix: string) returns (end: Option<string>)
    requires IsBytes(prefix)
    ensures end == Successor(prefix)
  {
    var i := |prefix| - 1;
    while i >= 0
      invariant -1 <= i < |prefix| && AllLast(prefix[i + 1..])
    {
      if prefix[i] != LAST_BYTE {
        SuccessorAt(prefix, i);
        return Some(prefix[..i] + [Increment(prefix[i])]);
      }
      assert prefix[i..] == [prefix[i]] + prefix[i + 1..];
      i := i - 1;
    }
    assert prefix[0..] == prefix;
    NoSuccessor(prefix);
    return None;
  }

  /** From `start` inclusive to `end` exclusive, in byte order. */
  predicate InRange(key: string, start: string, end: Option<string>)
  {
    CompareText(start, key) <= 0 && (end.Some? ==> CompareText(key, end.value) < 0)
  }

  /** The scanned range is exactly the keys that extend the prefix. */
  lemma {:induction false} RangeIsPrefix(prefix: string, key: string)
    requires IsBytes(prefix) && IsBytes(key)
    ensures InRange(key, prefix, Successor(prefix)) <==> prefix <= key
    decreases |prefix|
  {
    if prefix != "" && key != "" {
      var p, k := prefix[1..], key[1..];
      RangeIsPrefix(p, k);
      PrefixTail(prefix, key);
      var tail := Successor(p);
      if tail.Some? {
        assert ([prefix[0]] + tail.value)[1..] == tail.value;
      } else if prefix[0] < LAST_BYTE {
        assert [Increment(prefix[0])][1..] == "";
        BelowIncrement(key, prefix[0]);
      }
    }
  }

  lemma BelowIncrement(key: string, c: char)
    requires key != "" && c < LAST_BYTE
    ensures CompareText(key, [Increment(c)]) < 0 <==> key[0] <= c
  {
    assert [Increment(c)][1..] == "";
    assert CompareText(key[1..], "") >= 0;
  }

  lemma PrefixTail(a: string, b: string)
    requires a != "" && b != ""
    ensures a <= b <==> a[0] == b[0] && a[1..] <= b[1..]
  {
    if a <= b {
      assert a == b[..|a|];
      assert a[1..] == b[1..][..|a| - 1];
    }
    if a[0] == b[0] && a[1..] <= b[1..] {
      assert a[1..] == b[1..][..|a| - 1];
      assert a == [a[0]] + a[1..] && b == [b[0]] + b[1..];
    }
  }

  /** It is the least upper bound: nothing smaller is above every extension, and without a
      successor nothing is. */
  lemma {:induction false} SuccessorIsLeast(prefix: string, end: string)
    requires IsBytes(prefix) && IsBytes(end)
    requires forall x :: IsBytes(x) ==> CompareText(prefix + x, end) < 0
    ensures Successor(prefix).Some? && CompareText(Successor(prefix).value, end) <= 0
  {
    var next := Successor(prefix);
    assert prefix + "" == prefix;
    if prefix <= end {
      var x := end[|prefix|..];
      assert prefix + x == end && IsBytes(x);
      TextOrder(end, end, end);
      assert false;
    }
    RangeIsPrefix(prefix, end);
    assert CompareText(prefix, end) <= 0;
    TextOrder(end, next.value, "");
  }

  lemma {:induction false} PrefixIsBytes(p: string, i: nat)
    requires IsBytes(p)
    ensures IsBytes(PrefixFrom(p, i))
    decreases |p| - i
  {
    if i < |p| {
      PrefixIsBytes(p, i + 1);
      PrefixIsBytes(p, i + 2);
    }
  }

  /** Composite keys, which contain a zero byte, are not tokens. */
  predicate IsToken(key: string) { '\0' !in key }

  /** Terms of the dictionary that a search over the whole of it would match. */
  ghost function AllMatches(terms: set<string>, pattern: string): set<string>
  {
    set t | t in terms && IsToken(t) && R.MatchString(RegexText(pattern), t)
  }

  /** Terms the bounded scan finds. */
  ghost function BoundedMatches(terms: set<string>, pattern: string): set<string>
    requires IsBytes(pattern)
  {
    PrefixIsBytes(pattern, 0);
    var prefix := PrefixFrom(pattern, 0);
    set t | t in AllMatches(terms, pattern) && InRange(t, prefix, Successor(prefix))
  }

  /** The first alternative of the compiled pattern matches the term. */
  ghost predicate ByFirst(pattern: string, t: string)
    requires R.Parse(RegexText(pattern)).Some?
  {
    exists i :: 0 <= i <= |t| && R.MatchesAt(Alternatives(pattern)[0], t, i)
  }

  /** For every pattern: the bounded scan finds every match exactly when the pattern is clean
      or its first alternative matches no term, and the terms that only an injected alternative
      matches happen to start with the prefix. */
  lemma {:induction false} BoundedScanExactly(terms: set<string>, pattern: string)
    requires R.Parse(RegexText(pattern)).Some? && IsBytes(pattern) && forall t :: t in terms ==> IsBytes(t)
    ensures BoundedMatches(terms, pattern) == AllMatches(terms, pattern) <==>
            && (CleanFrom(pattern, 0) || forall t :: t in AllMatches(terms, pattern) ==> !ByFirst(pattern, t))
            && (forall t :: t in AllMatches(terms, pattern) && !ByFirst(pattern, t) ==> PrefixFrom(pattern, 0) <= t)
  {
    var prefix := PrefixFrom(pattern, 0);
    PrefixIsBytes(pattern, 0);
    forall t | t in AllMatches(terms, pattern)
      ensures t in BoundedMatches(terms, pattern) <==> prefix <= t
      ensures ByFirst(pattern, t) ==> (prefix <= t <==> CleanFrom(pattern, 0))
    {
      RangeIsPrefix(prefix, t);
      if ByFirst(pattern, t) {
        var i :| 0 <= i <= |t| && R.MatchesAt(Alternatives(pattern)[0], t, i);
        FirstAlternativeIff(pattern, t, i);
      }
    }
    assert BoundedMatches(terms, pattern) == AllMatches(terms, pattern) <==>
           forall t :: t in AllMatches(terms, pattern) ==> t in BoundedMatches(terms, pattern);
  }

  /** If no class lists a `]` before a `|`: it finds every match exactly when the pattern is
      clean or nothing matches, and for any other pattern it finds nothing at all. */
  lemma {:induction false} BoundedScanCompleteIff(terms: set<string>, pattern: string)
    requires NoInjection(pattern) && IsBytes(pattern) && forall t :: t in terms ==> IsBytes(t)
    ensures BoundedMatches(terms, pattern) == AllMatches(terms, pattern) <==>
            CleanFrom(pattern, 0) || AllMatches(terms, pattern) == {}
    ensures !CleanFrom(pattern, 0) ==> BoundedMatches(terms, pattern) == {}
  {
    var prefix := PrefixFrom(pattern, 0);
    PrefixIsBytes(pattern, 0);
    forall t | t in AllMatches(terms, pattern)
      ensures t in BoundedMatches(terms, pattern) <==> CleanFrom(pattern, 0)
    {
      PrefixSoundIff(pattern, t);
      RangeIsPrefix(prefix, t);
    }
  }
}
