/** The class validator, which must agree with the translator without sharing its code. */
module GlobScanners {
  import opened Options
  import opened GlobPattern

  // ----- Escaped positions -----

  /** A backslash that is not itself escaped escapes the next position. */
  predicate Escaped(p: string, i: nat)
    requires i <= |p|
  {
    i > 0 && p[i - 1] == '\\' && !Escaped(p, i - 1)
  }

  predicate Opens(p: string, i: nat) { i < |p| && p[i] == '[' && !Escaped(p, i) }

  predicate Closes(p: string, i: nat) { i < |p| && p[i] == ']' && !Escaped(p, i) }

  /** Every opening bracket has a closing one somewhere after it. */
  ghost predicate AllClosed(p: string)
  {
    forall i: nat :: Opens(p, i) ==> exists j: nat :: i < j && Closes(p, j)
  }

  /** The scan for a closing bracket finds the first one. */
  lemma {:induction false} CloseIsFirst(p: string, i: nat)
    requires i < |p| ==> !Escaped(p, i)
    ensures Close(p, i) >= 0 ==> Closes(p, Close(p, i)) && forall j: nat :: i <= j < Close(p, i) ==> !Closes(p, j)
    ensures Close(p, i) < 0 ==> forall j: nat :: i <= j ==> !Closes(p, j)
    decreases |p| - i
  {
    if i < |p| && p[i] == '\\' {
      assert i + 1 < |p| ==> Escaped(p, i + 1);
      assert i + 2 < |p| ==> !Escaped(p, i + 2);
      CloseIsFirst(p, i + 2);
    } else if i < |p| && p[i] != ']' {
      CloseIsFirst(p, i + 1);
    }
  }

  lemma ClassCloseIff(p: string, i: nat)
    requires Opens(p, i)
    ensures ClassClose(p, i) >= 0 <==> exists j: nat :: i < j && Closes(p, j)
    ensures ClassClose(p, i) >= 0 ==> Closes(p, ClassClose(p, i))
  {
    var b := BodyStart(p, i);
    assert b < |p| ==> !Escaped(p, b);
    CloseIsFirst(p, b);
    assert forall j: nat :: i < j < b ==> !Closes(p, j);
  }

  // ----- The validator -----

  /** The inner loop: finds the end of the class that opens at `i`. */
  method ScanClass(pattern: string, i: nat) returns (j: nat, closed: bool)
    requires Opens(pattern, i)
    ensures closed <==> ClassClose(pattern, i) >= 0
    ensures closed ==> j == ClassClose(pattern, i)
  {
    j := i + 1;
    if j < |pattern| && (pattern[j] == '!' || pattern[j] == '^') {
      j := j + 1;
    }
    closed := false;
    while j < |pattern|
      invariant Close(pattern, j) == ClassClose(pattern, i)
      decreases |pattern| - j
    {
      if pattern[j] == '\\' {
        j := j + 2;
        continue;
      }
      if pattern[j] == ']' {
        closed := true;
        break;
      }
      j := j + 1;
    }
  }

  /** Brackets opened before `i` are closed before `i`. */
  ghost predicate ClosedBefore(p: string, i: nat)
  {
    forall k: nat :: k < i && Opens(p, k) ==> exists j: nat :: k < j < i && Closes(p, j)
  }

  lemma ClosedBeforeClass(p: string, i: nat, j: nat)
    requires ClosedBefore(p, i) && i < j && Closes(p, j)
    ensures ClosedBefore(p, j + 1)
  {
    forall k: nat | k < j + 1 && Opens(p, k) ensures exists m: nat :: k < m < j + 1 && Closes(p, m) {
      if k < i {
        var m: nat :| k < m < i && Closes(p, m);
      } else {
        assert k < j;
      }
    }
  }

  lemma ClosedBeforeOther(p: string, i: nat, n: nat)
    requires ClosedBefore(p, i) && i <= n && forall k: nat :: i <= k < n ==> !Opens(p, k)
    ensures ClosedBefore(p, n)
  {
    forall k: nat | k < n && Opens(p, k) ensures exists m: nat :: k < m < n && Closes(p, m) {
      var m: nat :| k < m < i && Closes(p, m);
    }
  }

  /** The validator accepts exactly the patterns whose every unescaped `[` has an unescaped
      `]` after it, although it never looks at braces. */
  method ValidateClasses(pattern: string) returns (ok: bool)
    ensures ok <==> AllClosed(pattern)
  {
    var i := 0;
    while i < |pattern|
      invariant i < |pattern| ==> !Escaped(pattern, i)
      invariant ClosedBefore(pattern, i)
      decreases |pattern| - i
    {
      if pattern[i] == '\\' {
        assert i + 1 < |pattern| ==> Escaped(pattern, i + 1);
        ClosedBeforeOther(pattern, i, i + 2);
        ClosedBeforeOther(pattern, i, i + 1);
        if i + 1 < |pattern| {
          i := i + 1;
        }
      } else if pattern[i] == '[' {
        ClassCloseIff(pattern, i);
        var j, closed := ScanClass(pattern, i);
        if !closed {
          assert Opens(pattern, i);
          return false;
        }
        ClosedBeforeClass(pattern, i, j);
        i := j;
      } else {
        ClosedBeforeOther(pattern, i, i + 1);
      }
      i := i + 1;
    }
    assert forall k: nat :: Opens(pattern, k) ==> k < i;
    return true;
  }

  /** The translator, from position `i` on, emits a literal `\[` for an unclosed class. */
  predicate TakesFallback(p: string, i: nat)
    requires i <= |p|
    decreases |p| - i
  {
    i < |p| && ((p[i] == '[' && ClassClose(p, i) < 0) || TakesFallback(p, Head(p, i).1))
  }

  /** Tokens start at unescaped positions, except right after a backslash that escapes nothing. */
  lemma NextPosition(p: string, i: nat)
    requires i < |p| && !Escaped(p, i)
    ensures var n := Head(p, i).1;
            n < |p| && Escaped(p, n) ==> n == i + 1 && p[i] == '\\' && !Escapable(p[i + 1])
  {
    var n := Head(p, i).1;
    assert n == i + 2 && p[i] == '\\' ==> Escaped(p, i + 1);
  }

  /** The scanners run in lockstep: a validated pattern never takes the fallback. */
  lemma {:induction false} ValidatedNeverFallsBack(p: string, i: nat)
    requires AllClosed(p) && i <= |p| && (i < |p| ==> !Escaped(p, i))
    ensures !TakesFallback(p, i)
    decreases |p| - i
  {
    if i < |p| {
      if p[i] == '[' {
        assert Opens(p, i);
        ClassCloseIff(p, i);
      }
      NextPosition(p, i);
      var n := Head(p, i).1;
      if n < |p| && Escaped(p, n) {
        assert Head(p, n).1 == n + 1;
        assert n + 1 < |p| ==> !Escaped(p, n + 1);
        ValidatedNeverFallsBack(p, n + 1);
      } else {
        ValidatedNeverFallsBack(p, n);
      }
    }
  }

  // ----- Exactly when the two disagree -----

  ghost predicate Unclosed(p: string, k: nat) { Opens(p, k) && forall j: nat :: k < j ==> !Closes(p, j) }

  /** Position `k` lies inside a brace group that the translator, scanning from `i`, reads. */
  predicate InGroup(p: string, i: nat, k: nat)
    requires i <= |p|
    decreases |p| - i
  {
    i < |p| && ((Head(p, i).0.Group? && i < k < Head(p, i).1) || InGroup(p, Head(p, i).1, k))
  }

  lemma {:induction false} InGroupLater(p: string, i: nat, k: nat)
    requires i <= |p| && InGroup(p, i, k)
    ensures i < k
    decreases |p| - i
  {
    if !(Head(p, i).0.Group? && i < k < Head(p, i).1) { InGroupLater(p, Head(p, i).1, k); }
  }

  /** An unclosed bracket is inside no token but a group. */
  lemma UnclosedInside(p: string, i: nat, k: nat)
    requires i < |p| && !Escaped(p, i) && Unclosed(p, k) && i < k < Head(p, i).1
    ensures Head(p, i).0.Group?
  {
    var (tok, n) := Head(p, i);
    if tok.Class? {
      ClassCloseIff(p, i);
    } else if p[i] == '\\' {
      assert Escaped(p, i + 1);
    }
  }

  /** The first token from `i`, and the position the scan goes on from at an unescaped position. */
  lemma ScanGoesOn(p: string, i: nat) returns (n: nat)
    requires i < |p| && !Escaped(p, i)
    ensures i < n <= |p| && (n < |p| ==> !Escaped(p, n))
    ensures TakesFallback(p, i) <==> (p[i] == '[' && ClassClose(p, i) < 0) || TakesFallback(p, n)
    ensures forall k: nat :: n <= k ==> (InGroup(p, i, k) <==> InGroup(p, n, k))
    ensures forall k: nat :: i < k < n && Unclosed(p, k) ==> InGroup(p, i, k)
    ensures !InGroup(p, i, i)
  {
    var m := Head(p, i).1;
    NextPosition(p, i);
    n := m;
    if m < |p| && Escaped(p, m) {
      n := m + 1;
      assert Head(p, m) == (Literal(p[m]), n);
      assert n < |p| ==> !Escaped(p, n);
    }
    forall k: nat | i < k < n && Unclosed(p, k) ensures InGroup(p, i, k) {
      if k < m { UnclosedInside(p, i, k); }
    }
    if InGroup(p, i, i) { InGroupLater(p, i, i); }
  }

  /** The translator takes the fallback exactly at the unclosed brackets outside brace groups. */
  lemma {:induction false} FallbackFromIff(p: string, i: nat)
    requires i <= |p| && (i < |p| ==> !Escaped(p, i))
    ensures TakesFallback(p, i) <==> exists k: nat :: i <= k && Unclosed(p, k) && !InGroup(p, i, k)
    decreases |p| - i
  {
    if i < |p| {
      var n := ScanGoesOn(p, i);
      FallbackFromIff(p, n);
      if Opens(p, i) { ClassCloseIff(p, i); }
      if TakesFallback(p, n) {
        var k: nat :| n <= k && Unclosed(p, k) && !InGroup(p, n, k);
        assert i <= k && !InGroup(p, i, k);
      }
    }
  }

  lemma FallbackIff(p: string)
    ensures TakesFallback(p, 0) <==> exists k: nat :: Unclosed(p, k) && !InGroup(p, 0, k)
  {
    FallbackFromIff(p, 0);
  }

  /** The validator rejects a pattern that takes no fallback if and only if it has unclosed
      brackets and all of them lie inside brace groups. This is the only disagreement. */
  lemma DisagreeIff(p: string)
    ensures (AllClosed(p) <==> TakesFallback(p, 0)) <==> !AllClosed(p) && forall k: nat :: Unclosed(p, k) ==> InGroup(p, 0, k)
    ensures AllClosed(p) ==> !TakesFallback(p, 0)
  {
    FallbackIff(p);
    AllClosedIff(p);
  }

  lemma AllClosedIff(p: string)
    ensures AllClosed(p) <==> forall k: nat :: !Unclosed(p, k)
  {
    if AllClosed(p) {
      forall k: nat | Opens(p, k) ensures !Unclosed(p, k) {
        var j: nat :| k < j && Closes(p, j);
      }
    } else {
      var k: nat :| Opens(p, k) && !exists j: nat :: k < j && Closes(p, j);
      assert Unclosed(p, k);
    }
  }

  lemma {:induction false} NoGroups(p: string, i: nat, k: nat)
    requires i <= |p| && forall t :: t in TokensFrom(p, i) ==> !t.Group?
    ensures !InGroup(p, i, k)
    decreases |p| - i
  {
    if i < |p| {
      assert TokensFrom(p, i)[0] == Head(p, i).0;
      assert TokensFrom(p, i)[1..] == TokensFrom(p, Head(p, i).1);
      NoGroups(p, Head(p, i).1, k);
    }
  }

  /** Without brace groups the two agree on every pattern. */
  lemma AgreeWithoutGroups(p: string)
    requires forall t :: t in Tokens(p) ==> !t.Group?
    ensures AllClosed(p) <==> !TakesFallback(p, 0)
  {
    FallbackIff(p);
    AllClosedIff(p);
    forall k: nat ensures !InGroup(p, 0, k) { NoGroups(p, 0, k); }
  }

  /** An example of the disagreement: braces hide a bracket from the translator only. */
  lemma ValidatorIsStricter()
    ensures var p := "{,[}"; !AllClosed(p) && !TakesFallback(p, 0)
  {
    var p := "{,[}";
    assert Opens(p, 2);
    assert forall j: nat :: 2 < j ==> !Closes(p, j);
    assert ReadBraces(p, 3) == Some(Braces([""], 4));
    assert ReadBraces(p, 2) == Some(Braces(["["], 4)) by { assert "[" + "" == "[" && ["["] + [] == ["["]; }
    assert ReadBraces(p, 1) == Some(Braces(["", "["], 4)) by { assert [""] + ["["] == ["", "["]; }
    assert Head(p, 0).1 == 4;
  }
}
