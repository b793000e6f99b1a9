/** The "did you mean" suggestions of `lynxdb fields`: the single-row edit-distance
    loop, proved to return the least number of single-byte edits, and to be a metric. */
module EditDistance {
  import opened Options

  newtype Byte = x: int | 0 <= x < 256

  type Text = seq<Byte>

  // ----- Edit scripts -----

  /** One edit, at any position of the current text. */
  datatype Edit = Insert(at: nat, c: Byte) | Delete(at: nat) | Replace(at: nat, c: Byte)

  function Inserted(a: Text, i: nat, c: Byte): Text
    requires i <= |a|
  {
    a[..i] + [c] + a[i..]
  }

  function Deleted(a: Text, i: nat): Text
    requires i < |a|
  {
    a[..i] + a[i + 1..]
  }

  function Edited(a: Text, e: Edit): Option<Text>
  {
    match e
    case Insert(i, c) => if i <= |a| then Some(Inserted(a, i, c)) else None
    case Delete(i) => if i < |a| then Some(Deleted(a, i)) else None
    case Replace(i, c) => if i < |a| then Some(a[i := c]) else None
  }

  /** What a script makes of a text, if every edit hits it. */
  function Run(a: Text, script: seq<Edit>): Option<Text>
    decreases |script|
  {
    if script == [] then Some(a)
    else
      var m := Edited(a, script[0]);
      if m.None? then None else Run(m.value, script[1..])
  }

  /** `d` is the minimum length over all scripts that turn `a` into `b`. */
  ghost predicate IsEditDistance(a: Text, b: Text, d: int)
  {
    && (exists script :: |script| == d && Run(a, script) == Some(b))
    && (forall script :: Run(a, script) == Some(b) ==> d <= |script|)
  }

  // ----- The recurrence behind the dynamic program -----

  function Min(x: int, y: int): int { if x < y then x else y }

  function Init(a: Text): Text
    requires a != []
  {
    a[..|a| - 1]
  }

  function Last(a: Text): Byte
    requires a != []
  {
    a[|a| - 1]
  }

  function Cost(a: Text, b: Text): int
    requires a != [] && b != []
  {
    if Last(a) == Last(b) then 0 else 1
  }

  function Dist(a: Text, b: Text): nat
    decreases |a| + |b|
  {
    if a == [] then |b|
    else if b == [] then |a|
    else Min(Min(Dist(Init(a), b) + 1, Dist(a, Init(b)) + 1), Dist(Init(a), Init(b)) + Cost(a, b))
  }

  // ----- Dist is a metric -----

  lemma {:induction false} DistSelf(a: Text)
    ensures Dist(a, a) == 0
  {
    if a != [] { DistSelf(Init(a)); }
  }

  lemma {:induction false} DistZero(a: Text, b: Text)
    requires Dist(a, b) == 0
    ensures a == b
    decreases |a| + |b|
  {
    if a != [] && b != [] {
      DistZero(Init(a), Init(b));
      assert a == Init(a) + [Last(a)] && b == Init(b) + [Last(b)];
    }
  }

  lemma {:induction false} DistSymmetric(a: Text, b: Text)
    ensures Dist(a, b) == Dist(b, a)
    decreases |a| + |b|
  {
    if a != [] && b != [] {
      DistSymmetric(Init(a), b);
      DistSymmetric(a, Init(b));
      DistSymmetric(Init(a), Init(b));
    }
  }

  lemma {:induction false} DistBounds(a: Text, b: Text)
    ensures |a| - |b| <= Dist(a, b) && |b| - |a| <= Dist(a, b)
    ensures Dist(a, b) <= |a| || Dist(a, b) <= |b|
    decreases |a| + |b|
  {
    if a != [] && b != [] {
      DistBounds(Init(a), b);
      DistBounds(a, Init(b));
      DistBounds(Init(a), Init(b));
    }
  }

  lemma {:induction false} Triangle(a: Text, b: Text, c: Text)
    ensures Dist(a, c) <= Dist(a, b) + Dist(b, c)
    decreases |a| + |b| + |c|, 1
  {
    if b == [] {
      DistBounds(a, c);
    } else if a == [] {
      DistBounds(b, c);
    } else if c == [] {
      DistBounds(a, b);
    } else {
      TriangleStep(a, b, c);
    }
  }

  /** The recurrence, as bounds and as a choice. */
  lemma DistChoice(a: Text, b: Text)
    requires a != [] && b != []
    ensures Dist(a, b) <= Dist(Init(a), b) + 1 && Dist(a, b) <= Dist(a, Init(b)) + 1
    ensures Dist(a, b) <= Dist(Init(a), Init(b)) + Cost(a, b)
    ensures || Dist(a, b) == Dist(Init(a), b) + 1 || Dist(a, b) == Dist(a, Init(b)) + 1
            || Dist(a, b) == Dist(Init(a), Init(b)) + Cost(a, b)
  {
  }

  lemma {:induction false} TriangleStep(a: Text, b: Text, c: Text)
    requires a != [] && b != [] && c != []
    ensures Dist(a, c) <= Dist(a, b) + Dist(b, c)
    decreases |a| + |b| + |c|, 0
  {
    DistChoice(a, b);
    DistChoice(b, c);
    DistChoice(a, c);
    if Dist(a, b) == Dist(Init(a), b) + 1 {
      Triangle(Init(a), b, c);
    } else if Dist(b, c) == Dist(b, Init(c)) + 1 {
      Triangle(a, b, Init(c));
    } else if Dist(a, b) == Dist(a, Init(b)) + 1 {
      if Dist(b, c) == Dist(Init(b), c) + 1 {
        Triangle(a, Init(b), c);
      } else {
        Triangle(a, Init(b), Init(c));
      }
    } else if Dist(b, c) == Dist(Init(b), c) + 1 {
      Triangle(Init(a), Init(b), c);
    } else {
      Triangle(Init(a), Init(b), Init(c));
    }
  }

  /** The metric laws, together with the two length bounds. */
  lemma Metric(a: Text, b: Text, c: Text)
    ensures Dist(a, b) == 0 <==> a == b
    ensures Dist(a, b) == Dist(b, a)
    ensures Dist(a, c) <= Dist(a, b) + Dist(b, c)
    ensures |a| - |b| <= Dist(a, b) && |b| - |a| <= Dist(a, b)
    ensures Dist(a, b) <= |a| || Dist(a, b) <= |b|
  {
    if Dist(a, b) == 0 { DistZero(a, b); }
    DistSelf(a);
    DistSymmetric(a, b);
    Triangle(a, b, c);
    DistBounds(a, b);
  }

  // ----- Dist is the minimum over edit scripts -----

  lemma {:induction false} InsertedDist(a: Text, i: nat, c: Byte)
    requires i <= |a|
    ensures Dist(a, Inserted(a, i, c)) <= 1
    decreases |a|
  {
    var b := Inserted(a, i, c);
    if i == |a| {
      assert Init(b) == a;
      DistSelf(a);
    } else {
      assert Init(b) == Inserted(Init(a), i, c);
      assert Last(b) == Last(a);
      InsertedDist(Init(a), i, c);
    }
  }

  lemma {:induction false} ReplacedDist(a: Text, i: nat, c: Byte)
    requires i < |a|
    ensures Dist(a, a[i := c]) <= 1
    decreases |a|
  {
    var b := a[i := c];
    if i == |a| - 1 {
      assert Init(b) == Init(a);
      DistSelf(Init(a));
    } else {
      assert Init(b) == Init(a)[i := c];
      ReplacedDist(Init(a), i, c);
    }
  }

  lemma EditedDist(a: Text, e: Edit)
    requires Edited(a, e).Some?
    ensures Dist(a, Edited(a, e).value) <= 1
  {
    match e
    case Insert(i, c) => InsertedDist(a, i, c);
    case Replace(i, c) => ReplacedDist(a, i, c);
    case Delete(i) =>
      var b := Deleted(a, i);
      assert a == Inserted(b, i, a[i]);
      InsertedDist(b, i, a[i]);
      DistSymmetric(a, b);
  }

  /** No script is shorter than `Dist`. */
  lemma {:induction false} ScriptAtLeastDist(a: Text, b: Text, script: seq<Edit>)
    requires Run(a, script) == Some(b)
    ensures Dist(a, b) <= |script|
    decreases |script|
  {
    if script == [] {
      DistSelf(a);
    } else {
      var m := Edited(a, script[0]).value;
      ScriptAtLeastDist(m, b, script[1..]);
      EditedDist(a, script[0]);
      Triangle(a, m, b);
    }
  }

  lemma {:induction false} RunThen(a: Text, b: Text, script: seq<Edit>, e: Edit)
    requires Run(a, script) == Some(b)
    ensures Run(a, script + [e]) == Edited(b, e)
    decreases |script|
  {
    var all := script + [e];
    if script == [] {
      assert all[1..] == [];
    } else {
      assert all[1..] == script[1..] + [e];
      RunThen(Edited(a, script[0]).value, b, script[1..], e);
    }
  }

  /** A script leaves a longer text's end alone. */
  lemma {:induction false} RunWithEnd(a: Text, b: Text, script: seq<Edit>, x: Byte)
    requires Run(a, script) == Some(b)
    ensures Run(a + [x], script) == Some(b + [x])
    decreases |script|
  {
    if script != [] {
      var m := Edited(a, script[0]).value;
      assert Edited(a + [x], script[0]) == Some(m + [x]) by { EditedWithEnd(a, script[0], x); }
      RunWithEnd(m, b, script[1..], x);
    }
  }

  lemma EditedWithEnd(a: Text, e: Edit, x: Byte)
    requires Edited(a, e).Some?
    ensures Edited(a + [x], e) == Some(Edited(a, e).value + [x])
  {
    var i, t := e.at, a + [x];
    match e
    case Insert(_, c) => assert Inserted(t, i, c) == Inserted(a, i, c) + [x];
    case Delete(_) => assert Deleted(t, i) == Deleted(a, i) + [x];
    case Replace(_, c) => assert t[i := c] == a[i := c] + [x];
  }

  lemma EndEdits(a: Text, x: Byte, y: Byte)
    ensures Edited(a, Insert(|a|, x)) == Some(a + [x])
    ensures Edited(a + [x], Delete(|a|)) == Some(a)
    ensures Edited(a + [x], Replace(|a|, y)) == Some(a + [y])
  {
    assert Inserted(a, |a|, x) == a + [x];
    assert Deleted(a + [x], |a|) == a;
    assert (a + [x])[|a| := y] == a + [y];
  }

  lemma InitLast(a: Text)
    requires a != []
    ensures a == Init(a) + [Last(a)] && |Init(a)| == |a| - 1
  {
  }

  /** Some script is exactly as long as `Dist`. */
  lemma {:induction false} ScriptOfDist(a: Text, b: Text) returns (script: seq<Edit>)
    ensures |script| == Dist(a, b) && Run(a, script) == Some(b)
    decreases |a| + |b|
  {
    if a == [] && b == [] {
      script := [];
    } else if a == [] || (b != [] && Dist(a, b) == Dist(a, Init(b)) + 1) {
      var before := ScriptOfDist(a, Init(b));
      InitLast(b);
      EndEdits(Init(b), Last(b), Last(b));
      RunThen(a, Init(b), before, Insert(|b| - 1, Last(b)));
      script := before + [Insert(|b| - 1, Last(b))];
    } else if b == [] || Dist(a, b) == Dist(Init(a), b) + 1 {
      var after := ScriptOfDist(Init(a), b);
      InitLast(a);
      EndEdits(Init(a), Last(a), Last(a));
      script := [Delete(|a| - 1)] + after;
      assert script[1..] == after;
    } else {
      DistChoice(a, b);
      script := ScriptOfDist(Init(a), Init(b));
      InitLast(a);
      InitLast(b);
      RunWithEnd(Init(a), Init(b), script, Last(a));
      if Last(a) != Last(b) {
        EndEdits(Init(b), Last(a), Last(b));
        RunThen(a, Init(b) + [Last(a)], script, Replace(|b| - 1, Last(b)));
        script := script + [Replace(|b| - 1, Last(b))];
      }
    }
  }

  lemma {:induction false} DistIsEditDistance(a: Text, b: Text)
    ensures IsEditDistance(a, b, Dist(a, b))
  {
    var shortest := ScriptOfDist(a, b);
    forall script | Run(a, script) == Some(b) ensures Dist(a, b) <= |script| {
      ScriptAtLeastDist(a, b, script);
    }
  }

  // ----- The program -----

  /** `row` holds the distances from the first `i` bytes of `a` to every prefix of `b`. */
  ghost predicate IsRow(a: Text, b: Text, i: nat, row: seq<int>)
    requires i <= |a|
  {
    |row| == |b| + 1 && forall j :: 0 <= j <= |b| ==> row[j] == Dist(a[..i], b[..j])
  }

  function Best(ins: int, del: int, sub: int): int { Min(Min(ins, del), sub) }

  /** `next` is the row below `above` for one more byte `x` of the first text. */
  ghost predicate IsNextRow(above: seq<int>, next: seq<int>, x: Byte, b: Text)
  {
    && |above| == |next| == |b| + 1
    && next[0] == above[0] + 1
    && forall j :: 1 <= j <= |b| ==>
         next[j] == Best(above[j] + 1, next[j - 1] + 1, above[j - 1] + if x == b[j - 1] then 0 else 1)
  }

  lemma DistStep(a: Text, b: Text, i: nat, j: nat)
    requires i < |a| && 0 < j <= |b|
    ensures Dist(a[..i + 1], b[..j]) ==
            Best(Dist(a[..i], b[..j]) + 1, Dist(a[..i + 1], b[..j - 1]) + 1,
                 Dist(a[..i], b[..j - 1]) + if a[i] == b[j - 1] then 0 else 1)
  {
    assert Init(a[..i + 1]) == a[..i] && Init(b[..j]) == b[..j - 1];
  }

  /** The row below is determined by the row above. */
  lemma {:induction false} NextRowUnique(above: seq<int>, u: seq<int>, v: seq<int>, x: Byte, b: Text, j: nat)
    requires IsNextRow(above, u, x, b) && IsNextRow(above, v, x, b) && j <= |b|
    ensures u[j] == v[j]
    decreases j
  {
    if j > 0 { NextRowUnique(above, u, v, x, b, j - 1); }
  }

  ghost function DistRow(a: Text, b: Text, i: nat): (row: seq<int>)
    requires i <= |a|
    ensures IsRow(a, b, i, row)
  {
    seq(|b| + 1, j requires 0 <= j <= |b| => Dist(a[..i], b[..j]))
  }

  lemma DistRowIsNext(a: Text, b: Text, i: nat)
    requires i < |a|
    ensures IsNextRow(DistRow(a, b, i), DistRow(a, b, i + 1), a[i], b)
  {
    var above, next := DistRow(a, b, i), DistRow(a, b, i + 1);
    assert b[..0] == [];
    forall j | 1 <= j <= |b|
      ensures next[j] == Best(above[j] + 1, next[j - 1] + 1, above[j - 1] + if a[i] == b[j - 1] then 0 else 1)
    {
      DistStep(a, b, i, j);
    }
  }

  lemma NextRowIsRow(a: Text, b: Text, i: nat, above: seq<int>, next: seq<int>)
    requires i < |a|
    requires IsRow(a, b, i, above) && IsNextRow(above, next, a[i], b)
    ensures IsRow(a, b, i + 1, next)
  {
    var want := DistRow(a, b, i + 1);
    assert above == DistRow(a, b, i);
    DistRowIsNext(a, b, i);
    forall j | 0 <= j <= |b| ensures next[j] == want[j] {
      NextRowUnique(above, next, want, a[i], b, j);
    }
    assert next == want;
  }

  lemma FirstRow(a: Text, b: Text, row: seq<int>)
    requires |row| == |b| + 1 && forall j :: 0 <= j <= |b| ==> row[j] == j
    ensures IsRow(a, b, 0, row)
  {
  }

  lemma LastRow(a: Text, b: Text, row: seq<int>)
    requires IsRow(a, b, |a|, row)
    ensures row[|b|] == Dist(a, b) && IsEditDistance(a, b, row[|b|])
  {
    assert a[..|a|] == a && b[..|b|] == b;
    DistIsEditDistance(a, b);
  }

  /** The inner loop: overwrites the row in place, carrying the old diagonal in `prev`. */
  method UpdateRow(row: array<int>, i: nat, x: Byte, b: Text)
    requires row.Length == |b| + 1 && row[0] == i - 1
    modifies row
    ensures IsNextRow(old(row[..]), row[..], x, b)
  {
    var prev := row[0];
    row[0] := i;
    for j := 1 to |b| + 1
      invariant prev == old(row[j - 1])
      invariant row[0] == i
      invariant forall q :: 1 <= q < j ==>
        row[q] == Best(old(row[q]) + 1, row[q - 1] + 1, old(row[q - 1]) + if x == b[q - 1] then 0 else 1)
      invariant forall q :: j <= q <= |b| ==> row[q] == old(row[q])
    {
      var above := row[j];
      var cost := 1;
      if x == b[j - 1] {
        cost := 0;
      }
      var ins := row[j] + 1;
      var del := row[j - 1] + 1;
      var sub := prev + cost;
      var best := ins;
      if del < best {
        best := del;
      }
      if sub < best {
        best := sub;
      }
      row[j] := best;
      prev := above;
    }
  }

  method LevenshteinDistance(a: Text, b: Text) returns (d: int)
    ensures d == Dist(a, b)
    ensures IsEditDistance(a, b, d)
  {
    DistIsEditDistance(a, b);
    if a == [] { return |b|; }
    if b == [] { return |a|; }

    var row := new int[|b| + 1];
    for j := 0 to |b| + 1
      invariant forall q :: 0 <= q < j ==> row[q] == q
    {
      row[j] := j;
    }
    FirstRow(a, b, row[..]);
    for i := 1 to |a| + 1
      invariant row[0] == i - 1
      invariant IsRow(a, b, i - 1, row[..])
    {
      ghost var above := row[..];
      UpdateRow(row, i, a[i - 1], b);
      NextRowIsRow(a, b, i - 1, above, row[..]);
    }
    LastRow(a, b, row[..]);
    return row[|b|];
  }

  // ----- Suggestions -----

  ghost predicate WithinTwoEdits(a: Text, b: Text)
  {
    exists script :: |script| <= 2 && Run(a, script) == Some(b)
  }

  lemma WithinTwo(a: Text, b: Text)
    ensures Dist(a, b) <= 2 <==> WithinTwoEdits(a, b)
  {
    DistIsEditDistance(a, b);
  }

  /** `at` are the positions, in order, among the first `n` at which `near` holds. */
  ghost predicate Picks(near: seq<bool>, n: nat, at: seq<int>)
  {
    && n <= |near| && (forall j, k :: 0 <= j < k < |at| ==> at[j] < at[k])
    && (forall i :: i in at <==> 0 <= i < n && near[i])
  }

  lemma PicksNext(near: seq<bool>, n: nat, at: seq<int>)
    requires n < |near| && Picks(near, n, at)
    ensures Picks(near, n + 1, if near[n] then at + [n] else at)
  {
    assert forall k :: 0 <= k < |at| ==> at[k] in at;
  }

  /** The first three are left if there are more. */
  lemma PicksFirst(near: seq<bool>, at: seq<int>)
    requires Picks(near, |near|, at) && |at| > 3
    ensures forall i :: 0 <= i < |near| && near[i] ==> i in at[..3] || at[2] < i
    ensures forall k :: 0 <= k < 3 ==> 0 <= at[k] < |near| && near[at[k]]
  {
    assert forall k :: 0 <= k < |at| ==> at[k] in at;
    forall i | i in at ensures i in at[..3] || at[2] < i {
      var k :| 0 <= k < |at| && at[k] == i;
      if k < 3 { assert at[..3][k] == i; }
    }
  }

  /** Which names are within two edits of `target`. */
  ghost function Near(target: Text, names: seq<Text>, lower: Text -> Text): (r: seq<bool>)
    ensures |r| == |names|
  {
    seq(|names|, i requires 0 <= i < |names| => Dist(target, lower(names[i])) <= 2)
  }

  method CloseTo(a: Text, b: Text) returns (close: bool)
    ensures close <==> Dist(a, b) <= 2
  {
    var d := LevenshteinDistance(a, b);
    close := d <= 2;
  }

  method AllSimilar(target: Text, fields: seq<Text>, lower: Text -> Text) returns (suggestions: seq<Text>, ghost at: seq<int>)
    ensures Picks(Near(target, fields, lower), |fields|, at) && |suggestions| == |at|
    ensures forall k :: 0 <= k < |at| ==> 0 <= at[k] < |fields| && suggestions[k] == fields[at[k]]
  {
    ghost var near := Near(target, fields, lower);
    suggestions, at := [], [];
    for i := 0 to |fields|
      invariant Picks(near, i, at) && |suggestions| == |at|
      invariant forall k :: 0 <= k < |at| ==> 0 <= at[k] < i && suggestions[k] == fields[at[k]]
    {
      PicksNext(near, i, at);
      var close := CloseTo(target, lower(fields[i]));
      if close {
        suggestions, at := suggestions + [fields[i]], at + [i];
      }
    }
  }

  /** The suggestions are the names at the positions `at`: up to three similar names in order, with
      no similar name before or between them; fewer than three only if there are no more. */
  ghost predicate FirstThree(suggestions: seq<Text>, target: Text, names: seq<Text>, lower: Text -> Text, at: seq<int>)
  {
    && |suggestions| == |at| <= 3
    && (forall k :: 0 <= k < |at| ==>
          0 <= at[k] < |names| && suggestions[k] == names[at[k]] && WithinTwoEdits(target, lower(names[at[k]])))
    && (forall j, k :: 0 <= j < k < |at| ==> at[j] < at[k])
    && (forall i :: 0 <= i < |names| && WithinTwoEdits(target, lower(names[i])) ==> i in at || (|at| == 3 && at[2] < i))
  }

  method FindSimilarFields(name: Text, fields: seq<Text>, lower: Text -> Text)
    returns (suggestions: seq<Text>)
    ensures exists at :: FirstThree(suggestions, lower(name), fields, lower, at)
  {
    var lowerName := lower(name);
    ghost var near, at := Near(lowerName, fields, lower), [];
    suggestions, at := AllSimilar(lowerName, fields, lower);
    forall i | 0 <= i < |fields| ensures near[i] <==> WithinTwoEdits(lowerName, lower(fields[i])) {
      WithinTwo(lowerName, lower(fields[i]));
    }
    assert forall k :: 0 <= k < |at| ==> at[k] in at;
    if |suggestions| > 3 {
      PicksFirst(near, at);
      suggestions, at := suggestions[..3], at[..3];
    }
    assert FirstThree(suggestions, lowerName, fields, lower, at);
  }
}
