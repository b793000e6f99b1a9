/** The conventional optional value. */
module Options {
  datatype Option<+T> = None | Some(value: T)
}

/** Concatenation and byte order of texts. */
module Strings {
  lemma Assoc(a: string, b: string, c: string)
    ensures (a + b) + c == a + (b + c)
  {
  }

  /** Byte order of strings. */
  function CompareText(a: string, b: string): int
  {
    if a == "" then (if b == "" then 0 else -1)
    else if b == "" then 1
    else if a[0] < b[0] then -1
    else if a[0] > b[0] then 1
    else CompareText(a[1..], b[1..])
  }

  lemma {:induction false} TextOrder(a: string, b: string, c: string)
    ensures CompareText(a, b) == -CompareText(b, a)
    ensures CompareText(a, b) == 0 <==> a == b
    ensures CompareText(a, b) <= 0 && CompareText(b, c) <= 0 ==> CompareText(a, c) <= 0
    ensures CompareText(a, b) < 0 && CompareText(b, c) <= 0 ==> CompareText(a, c) < 0
    ensures CompareText(a, b) <= 0 && CompareText(b, c) < 0 ==> CompareText(a, c) < 0
    decreases |a| + |b| + |c|
  {
    if a != "" && b != "" {
      TextOrder(a[1..], b[1..], if c == "" then "" else c[1..]);
      assert a[0] == b[0] && a[1..] == b[1..] ==> a == b;
    }
  }
}

/** Induction along a sequence. */
module Sequences {
  /** What holds at `lo` and is kept by every step holds at `hi`. */
  lemma {:induction false} FromThenOn(p: seq<bool>, lo: nat, hi: nat)
    requires lo <= hi < |p| && p[lo] && forall j :: lo <= j < hi && p[j] ==> p[j + 1]
    ensures p[hi]
    decreases hi
  {
    if lo < hi { FromThenOn(p, lo, hi - 1); }
  }

  /** A transitive relation between neighbours relates every element to the later ones. */
  lemma {:induction false} TransitiveChain<T>(r: set<(T, T)>, s: seq<T>, i: nat, j: nat)
    requires i < j < |s| && forall a, b :: 0 <= a < |s| && 0 <= b < |s| && b == a + 1 ==> (s[a], s[b]) in r
    requires forall x, y, z :: (x, y) in r && (y, z) in r ==> (x, z) in r
    ensures (s[i], s[j]) in r
    decreases j
  {
    if i < j - 1 {
      TransitiveChain(r, s, i, j - 1);
      assert (s[j - 1], s[j]) in r;
    }
  }
}
