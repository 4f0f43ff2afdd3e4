/**
 Arithmetic of a circular buffer. Position `x` of an unbounded stream is kept in slot
 `Slot(x, n)` of a ring of `n` slots and belongs to pass `Pass(x, n)`.
 */
module Ring {

  function Slot(x: int, n: nat): (r: nat)
    requires 0 < n
    ensures r < n
  {
    x % n
  }

  function Pass(x: int, n: nat): int
    requires 0 < n
  {
    x / n
  }

  lemma {:induction false} Multiple(d: int, n: int)
    requires 0 < n
    ensures d >= 1 ==> d * n >= n
    ensures d <= -1 ==> d * n <= -n
  {
    if d >= 1 {
      assert (d - 1) * n >= 0;
    } else if d <= -1 {
      assert (-1 - d) * n >= 0;
    }
  }

  lemma {:induction false} DivModUnique(x: int, n: int, q: int, r: int)
    requires 0 < n && 0 <= r < n && x == q * n + r
    ensures x / n == q && x % n == r
  {
    var d := x / n - q;
    assert d * n == r - x % n by {
      assert x == (x / n) * n + x % n;
      assert (x / n) * n == (d + q) * n == d * n + q * n;
    }
    Multiple(d, n);
  }

  /** Going forward less than a whole pass wraps at most once. */
  lemma {:induction false} Forward(x: int, k: nat, n: nat)
    requires 0 < n && k <= n
    ensures Slot(x, n) + k < n ==> Slot(x + k, n) == Slot(x, n) + k && Pass(x + k, n) == Pass(x, n)
    ensures Slot(x, n) + k >= n ==> Slot(x + k, n) == Slot(x, n) + k - n && Pass(x + k, n) == Pass(x, n) + 1
  {
    assert x == (x / n) * n + x % n;
    if x % n + k < n {
      DivModUnique(x + k, n, x / n, x % n + k);
    } else {
      assert (x / n + 1) * n == (x / n) * n + n;
      DivModUnique(x + k, n, x / n + 1, x % n + k - n);
    }
  }

  /** A whole pass back is the same slot of the previous pass. */
  lemma {:induction false} PassBack(x: int, n: nat)
    requires 0 < n
    ensures Slot(x - n, n) == Slot(x, n) && Pass(x - n, n) == Pass(x, n) - 1
  {
    Forward(x - n, n, n);
  }

  /** Positions less than a pass apart occupy different slots. */
  lemma {:induction false} SlotsDiffer(i: int, j: int, n: nat)
    requires 0 < n && i < j < i + n
    ensures Slot(i, n) != Slot(j, n)
  {
    Forward(i, j - i, n);
  }

  /** The first two passes, and the one before the start. */
  lemma {:induction false} SmallSlot(x: int, n: nat)
    requires 0 < n && 0 <= x + n < 3 * n
    ensures Slot(x, n) == if x < 0 then x + n else if x < n then x else x - n
    ensures Pass(x, n) == if x < 0 then -1 else if x < n then 0 else 1
  {
    if x < 0 {
      DivModUnique(x, n, -1, x + n);
    } else if x < n {
      DivModUnique(x, n, 0, x);
    } else {
      DivModUnique(x, n, 1, x - n);
    }
  }
}
