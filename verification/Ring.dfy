/** Index arithmetic on a ring of `n` slots, as the clock hand and the hash probe use it. */
module Ring {

  /** How many steps clockwise from `start` slot `idx` lies on a ring of `n` slots. */
  function Turn(start: int, idx: int, n: int): int
  {
    if idx >= start then idx - start else idx - start + n
  }

  lemma Remainder(x: int, n: int, q: int)
    requires 0 <= x - q * n < n
    ensures x % n == x - q * n
  {
    var d := x / n - q;
    assert x == (x / n) * n + x % n;
    assert d * n == (x - q * n) - x % n;
    assert d >= 1 ==> d * n >= n;
    assert d <= -1 ==> d * n <= -n;
  }

  /** The slot `i` steps clockwise from `start`, for at most two rounds. */
  function At(start: int, i: int, n: int): int
  {
    var x := start + i;
    if x < n then x else if x < 2 * n then x - n else x - 2 * n
  }

  /** The code's index arithmetic. */
  lemma AtIsModulo(start: int, i: int, n: int)
    requires 0 <= start < n && 0 <= i <= 2 * n
    ensures (start + i) % n == At(start, i, n)
  {
    Remainder(start + i, n, if start + i < n then 0 else if start + i < 2 * n then 1 else 2);
  }

  lemma NextIsModulo(hand: int, n: int)
    requires 0 <= hand < n
    ensures (hand + 1) % n == Next(hand, n)
  {
    Remainder(hand + 1, n, if hand + 1 == n then 1 else 0);
  }

  function Next(hand: int, n: int): int { if hand + 1 == n then 0 else hand + 1 }
}
