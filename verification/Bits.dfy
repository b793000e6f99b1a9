/** Bitwise operators on naturals, and the bit-smearing round-up to a power of two. */
module Bits {

  function Pow2(k: nat): (r: nat)
    ensures r > 0
  {
    if k == 0 then 1 else 2 * Pow2(k - 1)
  }

  /** Bit `i` of `x`. */
  predicate Bit(x: nat, i: nat) { if i == 0 then x % 2 == 1 else Bit(x / 2, i - 1) }

  function Or(a: nat, b: nat): nat
  {
    if a == 0 then b else 2 * Or(a / 2, b / 2) + if a % 2 == 1 || b % 2 == 1 then 1 else 0
  }

  function And(a: nat, b: nat): nat
  {
    if a == 0 then 0 else 2 * And(a / 2, b / 2) + if a % 2 == 1 && b % 2 == 1 then 1 else 0
  }

  function ShiftRight(x: nat, s: nat): nat
    decreases s
  {
    if s == 0 then x else ShiftRight(x / 2, s - 1)
  }

  lemma {:induction false} OrBit(a: nat, b: nat, i: nat)
    ensures Bit(Or(a, b), i) <==> Bit(a, i) || Bit(b, i)
    decreases i
  {
    if a == 0 {
      ZeroBit(i);
    } else if i > 0 {
      OrBit(a / 2, b / 2, i - 1);
    }
  }

  lemma {:induction false} ZeroBit(i: nat)
    ensures !Bit(0, i)
  {
    if i > 0 { ZeroBit(i - 1); }
  }

  lemma {:induction false} ShiftBit(x: nat, s: nat, i: nat)
    ensures Bit(ShiftRight(x, s), i) <==> Bit(x, i + s)
    decreases s
  {
    if s > 0 { ShiftBit(x / 2, s - 1, i); }
  }

  lemma {:induction false} OrBelow(a: nat, b: nat, k: nat)
    requires a < Pow2(k) && b < Pow2(k)
    ensures Or(a, b) < Pow2(k)
    decreases k
  {
    if k > 0 { OrBelow(a / 2, b / 2, k - 1); }
  }

  lemma {:induction false} ShiftBelow(x: nat, s: nat)
    ensures ShiftRight(x, s) <= x
    decreases s
  {
    if s > 0 { ShiftBelow(x / 2, s - 1); }
  }

  lemma {:induction false} TopBit(x: nat, k: nat)
    requires k > 0 && Pow2(k - 1) <= x < Pow2(k)
    ensures Bit(x, k - 1)
    decreases k
  {
    if k > 1 { TopBit(x / 2, k - 1); }
  }

  lemma {:induction false} AllOnes(x: nat, k: nat)
    requires x < Pow2(k) && forall i :: 0 <= i < k ==> Bit(x, i)
    ensures x == Pow2(k) - 1
    decreases k
  {
    if k > 0 {
      assert Bit(x, 0);
      forall i | 0 <= i < k - 1 ensures Bit(x / 2, i) {
        assert Bit(x, i + 1);
      }
      AllOnes(x / 2, k - 1);
    }
  }

  lemma AndOdd(h: nat, m: nat)
    requires m > 0
    ensures And(h, 2 * m - 1) == 2 * And(h / 2, m - 1) + h % 2
  {
    assert (2 * m - 1) / 2 == m - 1 && (2 * m - 1) % 2 == 1;
  }

  /** Masking with `2^k - 1` is reduction modulo `2^k`. */
  lemma {:induction false} MaskIsModulo(h: nat, k: nat)
    ensures And(h, Pow2(k) - 1) == h % Pow2(k)
    decreases k
  {
    if k == 0 {
      AndZero(h);
    } else {
      AndOdd(h, Pow2(k - 1));
      MaskIsModulo(h / 2, k - 1);
      HalfModulo(h, Pow2(k - 1));
    }
  }

  lemma {:induction false} AndZero(h: nat)
    ensures And(h, 0) == 0
  {
    if h > 0 { AndZero(h / 2); }
  }

  lemma HalfModulo(h: nat, m: nat)
    requires m > 0
    ensures h % (2 * m) == 2 * ((h / 2) % m) + h % 2
  {
    var q, r := (h / 2) / m, (h / 2) % m;
    assert h / 2 == q * m + r;
    assert h == q * (2 * m) + (2 * r + h % 2);
    var d := h / (2 * m) - q;
    assert h == (h / (2 * m)) * (2 * m) + h % (2 * m);
    assert d * (2 * m) == (2 * r + h % 2) - h % (2 * m);
    assert d >= 1 ==> d * (2 * m) >= 2 * m;
    assert d <= -1 ==> d * (2 * m) <= -(2 * m);
  }

  lemma {:induction false} Pow2Monotone(i: nat, j: nat)
    requires i <= j
    ensures Pow2(i) <= Pow2(j)
    decreases j
  {
    if i < j { Pow2Monotone(i, j - 1); }
  }

  /** The number of bits of a positive `x`. */
  function BitLength(x: nat): (k: nat)
    requires x > 0
    ensures k > 0 && Pow2(k - 1) <= x < Pow2(k)
  {
    if x == 1 then 1 else 1 + BitLength(x / 2)
  }

  // ----- nextPow2 -----

  /** The top `s` of the `k` bits of `x` are ones. */
  ghost predicate Smeared(x: nat, k: nat, s: nat)
  {
    x < Pow2(k) && forall i :: 0 <= i < k && k - s <= i ==> Bit(x, i)
  }

  /** `x |= x >> s` doubles the run of ones. */
  lemma SmearStep(x: nat, k: nat, s: nat)
    requires Smeared(x, k, s)
    ensures Smeared(Or(x, ShiftRight(x, s)), k, 2 * s)
  {
    ShiftBelow(x, s);
    OrBelow(x, ShiftRight(x, s), k);
    forall i | 0 <= i < k && k - 2 * s <= i ensures Bit(Or(x, ShiftRight(x, s)), i) {
      OrBit(x, ShiftRight(x, s), i);
      ShiftBit(x, s, i);
      assert i < k - s ==> Bit(x, i + s);
    }
  }

  /** `r` is the smallest power of two that is at least `n`. */
  ghost predicate IsLeastPow2(r: int, n: int)
  {
    && n <= r
    && (exists k :: r == Pow2(k))
    && forall j :: n <= Pow2(j) ==> r <= Pow2(j)
  }

  lemma LeastPow2(k: nat, n: int)
    requires n <= Pow2(k) && (k == 0 || Pow2(k - 1) < n)
    ensures IsLeastPow2(Pow2(k), n)
  {
    forall j: nat | n <= Pow2(j) ensures Pow2(k) <= Pow2(j) {
      if j >= k {
        Pow2Monotone(k, j);
      } else {
        Pow2Monotone(j, k - 1);
      }
    }
  }

  const MIN_INT: int := -0x8000_0000_0000_0000
  const MAX_INT: int := 0x7FFF_FFFF_FFFF_FFFF

  /** 64-bit two's-complement addition of one. */
  function Increment(x: int): int { if x == MAX_INT then MIN_INT else x + 1 }

  lemma BitLength63(x: nat)
    requires 0 < x <= MAX_INT
    ensures BitLength(x) <= 63 && (BitLength(x) == 63 <==> x >= 0x4000_0000_0000_0000)
    ensures Pow2(62) == 0x4000_0000_0000_0000 && Pow2(63) == MAX_INT + 1
  {
    assert Pow2(8) == 0x100;
    assert Pow2(16) == 0x1_0000;
    assert Pow2(24) == 0x100_0000;
    assert Pow2(32) == 0x1_0000_0000;
    assert Pow2(40) == 0x100_0000_0000;
    assert Pow2(48) == 0x1_0000_0000_0000;
    assert Pow2(56) == 0x100_0000_0000_0000;
    assert Pow2(62) == 0x4000_0000_0000_0000;
    if BitLength(x) > 63 {
      Pow2Monotone(63, BitLength(x) - 1);
    }
    if BitLength(x) < 63 {
      Pow2Monotone(BitLength(x), 62);
    }
  }

  /** For every 64-bit `n`: the least power of two at least `n` exactly when that power is
      representable, that is for `n <= 2^62`; otherwise the increment wraps around. */
  method NextPow2(n: int) returns (r: int)
    requires MIN_INT <= n <= MAX_INT
    ensures IsLeastPow2(r, n) <==> n <= Pow2(62)
    ensures n > Pow2(62) ==> r == MIN_INT
  {
    if n <= 1 {
      BitLength63(1);
      LeastPow2(0, n);
      return 1;
    }
    BitLength63(n - 1);
    ghost var k := BitLength(n - 1);
    var x: nat := n - 1;
    TopBit(x, k);
    SmearStep(x, k, 1);
    x := Or(x, ShiftRight(x, 1));
    SmearStep(x, k, 2);
    x := Or(x, ShiftRight(x, 2));
    SmearStep(x, k, 4);
    x := Or(x, ShiftRight(x, 4));
    SmearStep(x, k, 8);
    x := Or(x, ShiftRight(x, 8));
    SmearStep(x, k, 16);
    x := Or(x, ShiftRight(x, 16));
    SmearStep(x, k, 32);
    x := Or(x, ShiftRight(x, 32));
    AllOnes(x, k);
    r := Increment(x);
    if k < 63 {
      Pow2Monotone(k, 62);
      LeastPow2(k, n);
    }
  }
}
