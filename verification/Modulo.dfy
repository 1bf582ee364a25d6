/** Division: facts behind the ring buffers and the timing wheel, and Go's own quotient. */
module Modulo {

  lemma {:induction false} ProductGap(a: nat, b: nat, n: nat)
    requires a < b
    ensures a * n + n <= b * n
    decreases b
  {
    assert b * n == (b - 1) * n + n;
    if a < b - 1 {
      ProductGap(a, b - 1, n);
    }
  }

  /** Quotient and remainder are determined by `a == q * n + r` with `r < n`. */
  lemma DivModUnique(a: nat, q: nat, r: nat, n: nat)
    requires n > 0 && a == q * n + r && r < n
    ensures a / n == q && a % n == r
  {
    var q' := a / n;
    assert a == q' * n + a % n;
    if q' < q {
      ProductGap(q', q, n);
    } else if q < q' {
      ProductGap(q, q', n);
    }
  }

  lemma ModShift(a: nat, q: nat, n: nat)
    requires n > 0
    ensures (a + q * n) % n == a % n
  {
    assert a == (a / n) * n + a % n;
    assert (a / n + q) * n == (a / n) * n + q * n;
    DivModUnique(a + q * n, a / n + q, a % n, n);
  }

  /** A sum of two offsets below `n` wraps around at most once. */
  lemma WrapOnce(a: nat, n: nat)
    requires n > 0 && a < 2 * n
    ensures a % n == if a < n then a else a - n
  {
    if a < n {
      DivModUnique(a, 0, a, n);
    } else {
      DivModUnique(a, 1, a - n, n);
    }
  }

  lemma ProductUnique(a: int, b: int, n: int)
    requires n > 0 && a * n == b * n
    ensures a == b
  {
    if a < b {
      ProductGap(0, b - a, n);
    } else if b < a {
      ProductGap(0, a - b, n);
    }
  }

  /** `DivModUnique` for dividends of either sign. */
  lemma QuotientUnique(a: int, q: int, r: int, n: int)
    requires n > 0 && a == q * n + r && 0 <= r < n
    ensures a / n == q && a % n == r
  {
    var q' := a / n;
    assert a == q' * n + a % n;
    if q' < q {
      ProductGap(0, q - q', n);
    } else if q < q' {
      ProductGap(0, q' - q, n);
    }
  }

  lemma QuotientMonotone(a: int, b: int, n: int)
    requires n > 0 && a <= b
    ensures a / n <= b / n
  {
    var p, q := a / n, b / n;
    if q < p {
      ProductGap(0, p - q, n);
    }
  }

  /** Go's integer division truncates toward zero. */
  function Truncated(a: int, b: int): (q: int)
    requires b > 0
    ensures a >= 0 ==> q * b <= a < q * b + b
    ensures a <= 0 ==> q * b - b < a <= q * b
  {
    if a >= 0 then a / b else -((-a) / b)
  }
}
