/**
  The active-dial selector: one index into a list of `n` dials that LEFT
  moves down and RIGHT moves up, wrapping around at both ends.
 */
module Selector {

  /** LEFT: index 0 goes to the last index, any other index goes down by one. */
  function Prev(i: nat, n: nat): (r: nat)
    requires i < n
    ensures r < n
    ensures i == 0 ==> r == n - 1
    ensures i > 0 ==> r == i - 1
  {
    if i == 0 then n - 1 else i - 1
  }

  /** RIGHT: the last index goes to 0, any other index goes up by one. */
  function Next(i: nat, n: nat): (r: nat)
    requires i < n
    ensures r < n
    ensures i == n - 1 ==> r == 0
    ensures i < n - 1 ==> r == i + 1
  {
    if i < n - 1 then i + 1 else 0
  }

  /** The two moves are each other's inverse. */
  lemma PrevNextInverse(i: nat, n: nat)
    requires i < n
    ensures Next(Prev(i, n), n) == i
    ensures Prev(Next(i, n), n) == i
  {
  }

  /** An independent description of the wrap: the moves are steps modulo `n`. */
  lemma MovesAreModular(i: nat, n: nat)
    requires i < n
    ensures Next(i, n) == (i + 1) % n
    ensures Prev(i, n) == (i + n - 1) % n
  {
    if i < n - 1 {
      ModSmall(i + 1, n);
    } else {
      ModSub(n, n);
      ModSmall(0, n);
    }
    if i == 0 {
      ModSmall(n - 1, n);
    } else {
      ModSub(i + n - 1, n);
      ModSmall(i - 1, n);
    }
  }

  /** `k` presses of RIGHT. */
  function NextTimes(i: nat, n: nat, k: nat): (r: nat)
    requires i < n
    ensures r < n
  {
    if k == 0 then i else Next(NextTimes(i, n, k - 1), n)
  }

  /** `k` presses of RIGHT move the selector `k` places round the circle. */
  lemma {:induction false} NextTimesIsModular(i: nat, n: nat, k: nat)
    requires i < n
    ensures NextTimes(i, n, k) == (i + k) % n
  {
    if k == 0 {
      ModSmall(i, n);
    } else {
      var j := NextTimes(i, n, k - 1);
      NextTimesIsModular(i, n, k - 1);
      MovesAreModular(j, n);
      ModSucc(i + (k - 1), n);
      assert NextTimes(i, n, k) == Next(j, n) == (j + 1) % n;
    }
  }

  lemma {:induction false} ModSucc(a: nat, n: nat)
    requires n > 0
    ensures ((a % n) + 1) % n == (a + 1) % n
    decreases a
  {
    if a >= n {
      ModSub(a, n);
      ModSub(a + 1, n);
      ModSucc(a - n, n);
    }
  }

  lemma ModSmall(a: nat, n: nat)
    requires a < n
    ensures a % n == a
  {
  }

  /** Taking `n` away does not change the remainder modulo `n`. */
  lemma ModSub(a: nat, n: nat)
    requires a >= n > 0
    ensures a % n == (a - n) % n
  {
    var q, r := (a - n) / n, (a - n) % n;
    assert a - n == q * n + r;
    var q', r' := a / n, a % n;
    assert a == q' * n + r';
    assert (q + 1 - q') * n == r' - r;
    MulSmallIsZero(q + 1 - q', n, r' - r);
  }

  lemma MulSmallIsZero(x: int, n: int, d: int)
    requires n > 0 && x * n == d && -n < d < n
    ensures x == 0
  {
    if x >= 1 {
      assert x * n == (x - 1) * n + n;
      MulNonNeg(x - 1, n);
    } else if x <= -1 {
      assert x * n == (x + 1) * n - n;
      MulNonNeg(-(x + 1), n);
    }
  }

  lemma MulNonNeg(a: int, b: int)
    requires a >= 0 && b >= 0
    ensures a * b >= 0
  {
  }

  /** Pressing RIGHT once per dial brings the selector back where it started. */
  lemma FullTurn(i: nat, n: nat)
    requires i < n
    ensures NextTimes(i, n, n) == i
  {
    NextTimesIsModular(i, n, n);
    ModSub(i + n, n);
    ModSmall(i, n);
  }

}
