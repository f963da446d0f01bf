/** Cursor arithmetic of the Next and Previous buttons: wrap-around, not clamping. */
module Navigation {

  /** JavaScript's `%` on numbers: the remainder of truncating division, whose sign
      follows the dividend (Dafny's own `%` is Euclidean and never negative).
      Written as repeated subtraction so that its properties stay linear. */
  function JsRem(a: int, n: int): (r: int)
    requires n > 0
    ensures a >= 0 ==> 0 <= r < n
    ensures a < 0 ==> -n < r <= 0
    ensures -n < a < n ==> r == a
    decreases if a >= 0 then a else -a
  {
    if a >= n then JsRem(a - n, n)
    else if a <= -n then JsRem(a + n, n)
    else a
  }

  /** For a non-negative dividend JavaScript's `%` agrees with Dafny's. For a negative one it
      does not: without the added list length, Previous from the first card would give -1. */
  lemma {:induction false} JsRemEuclidean(a: int, n: int)
    requires n > 0
    ensures a >= 0 ==> JsRem(a, n) == a % n
    ensures n > 1 ==> JsRem(-1, n) == -1 != (-1) % n
    decreases if a >= 0 then a else 0
  {
    if a >= n {
      JsRemEuclidean(a - n, n);
      ModUnique(a - n, n, (a - n) / n, (a - n) % n);
      ModUnique(a, n, (a - n) / n + 1, (a - n) % n);
    } else if a >= 0 {
      ModUnique(a, n, 0, a);
    }
    if n > 1 {
      ModUnique(-1, n, -1, n - 1);
    }
  }

  /** Dafny's `%` is determined by the quotient-remainder decomposition. */
  lemma ModUnique(a: int, n: int, q: int, r: int)
    requires n > 0 && 0 <= r < n && a == n * q + r
    ensures a % n == r
  {
    var q0, r0 := a / n, a % n;
    assert a == n * q0 + r0;
    if q > q0 {
      assert n * q >= n * (q0 + 1) by { MulMonotone(n, q0 + 1, q); }
    } else if q < q0 {
      assert n * q0 >= n * (q + 1) by { MulMonotone(n, q + 1, q0); }
    }
  }

  /** Quotient and remainder of Dafny's Euclidean division, as one fact to hand to a proof. */
  lemma DivMod(a: int, n: int)
    requires n > 0
    ensures a == n * (a / n) + a % n && 0 <= a % n < n
  {
  }

  lemma MulMonotone(n: int, x: int, y: int)
    requires n > 0 && x <= y
    ensures n * x <= n * y
  {
    assert n * y - n * x == n * (y - x);
  }

  /** The card after `i` in a list of `n` cards: one forward, and from the last card back to the first. */
  function NextIndex(i: int, n: int): (r: int)
    requires 0 <= i < n
    ensures 0 <= r < n
    ensures r == if i == n - 1 then 0 else i + 1
  {
    JsRem(i + 1, n)
  }

  /** The card before `i` in a list of `n` cards: one back, and from the first card to the last. */
  function PrevIndex(i: int, n: int): (r: int)
    requires 0 <= i < n
    ensures 0 <= r < n
    ensures r == if i == 0 then n - 1 else i - 1
  {
    JsRem(i - 1 + n, n)
  }

  /** Previous undoes Next. */
  lemma PrevAfterNext(i: int, n: int)
    requires 0 <= i < n
    ensures PrevIndex(NextIndex(i, n), n) == i
  {
  }

  /** Next undoes Previous. */
  lemma NextAfterPrev(i: int, n: int)
    requires 0 <= i < n
    ensures NextIndex(PrevIndex(i, n), n) == i
  {
  }

  /** The cursor after `k` presses of Next from card `i`. */
  function Forward(i: int, n: int, k: nat): (r: int)
    requires 0 <= i < n
    ensures 0 <= r < n
    decreases k
  {
    if k == 0 then i else NextIndex(Forward(i, n, k - 1), n)
  }

  /** The cursor after `k` presses of Previous from card `i`. */
  function Backward(i: int, n: int, k: nat): (r: int)
    requires 0 <= i < n
    ensures 0 <= r < n
    decreases k
  {
    if k == 0 then i else PrevIndex(Backward(i, n, k - 1), n)
  }

  /** `k` presses of Next move the cursor `k` cards forward round the circle. */
  lemma {:induction false} ForwardIsModular(i: int, n: int, k: nat)
    requires 0 <= i < n
    ensures Forward(i, n, k) == (i + k) % n
  {
    if k == 0 {
      ModUnique(i, n, 0, i);
    } else {
      ForwardIsModular(i, n, k - 1);
      NextOfMod(i + k - 1, n);
    }
  }

  /** `k` presses of Previous move the cursor `k` cards backward round the circle. */
  lemma {:induction false} BackwardIsModular(i: int, n: int, k: nat)
    requires 0 <= i < n
    ensures Backward(i, n, k) == (i - k) % n
  {
    if k == 0 {
      ModUnique(i, n, 0, i);
    } else {
      BackwardIsModular(i, n, k - 1);
      PrevOfMod(i - k + 1, n);
    }
  }

  lemma NextOfMod(a: int, n: int)
    requires n > 0
    ensures 0 <= a % n < n && NextIndex(a % n, n) == (a + 1) % n
  {
    var q, j := a / n, a % n;
    DivMod(a, n);
    if j == n - 1 {
      ModUnique(a + 1, n, q + 1, 0);
    } else {
      ModUnique(a + 1, n, q, j + 1);
    }
  }

  lemma PrevOfMod(a: int, n: int)
    requires n > 0
    ensures 0 <= a % n < n && PrevIndex(a % n, n) == (a - 1) % n
  {
    var q, j := a / n, a % n;
    DivMod(a, n);
    if j == 0 {
      ModUnique(a - 1, n, q - 1, n - 1);
    } else {
      ModUnique(a - 1, n, q, j - 1);
    }
  }

  /** A full lap of Next presses, one per card, returns to the starting card. */
  lemma FullLapForward(i: int, n: int)
    requires 0 <= i < n
    ensures Forward(i, n, n) == i
  {
    ForwardIsModular(i, n, n);
    ModUnique(i + n, n, 1, i);
  }

  /** A full lap of Previous presses, one per card, returns to the starting card. */
  lemma FullLapBackward(i: int, n: int)
    requires 0 <= i < n
    ensures Backward(i, n, n) == i
  {
    BackwardIsModular(i, n, n);
    ModUnique(i - n, n, -1, i);
  }

  /** Next is never clamped: from any card, pressing Next reaches every card of the list. */
  lemma ForwardReachesEvery(i: int, n: int, j: int)
    requires 0 <= i < n && 0 <= j < n
    ensures Forward(i, n, if i <= j then j - i else n - i + j) == j
  {
    var k := if i <= j then j - i else n - i + j;
    ForwardIsModular(i, n, k);
    ModUnique(i + k, n, if i <= j then 0 else 1, j);
  }
}
