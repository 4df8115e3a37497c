/**
  Java's `int` division. Java rounds the quotient toward zero, whereas Dafny's
  `/` on `int` is Euclidean (its remainder is never negative), so the two differ
  whenever the dividend and divisor have different signs or the dividend is
  negative. Arithmetic is unbounded: 32-bit wrap-around is not modelled.
 */
module JavaInt {

  function Abs(a: int): nat {
    if a < 0 then -a else a
  }

  /** The remainder that Java's `%` leaves: it is zero or has the sign of the dividend,
      and is smaller in magnitude than the divisor. */
  predicate IsTruncRemainder(a: int, b: int, r: int) {
    Abs(r) < Abs(b) && (r == 0 || (r < 0 <==> a < 0))
  }

  /** Java's `a / b` on `int`: the quotient rounded toward zero. */
  function TruncDiv(a: int, b: int): (q: int)
    requires b != 0
    ensures IsTruncRemainder(a, b, a - q * b)
  {
    var n, d := Abs(a), Abs(b);
    var q := if (a < 0) == (b < 0) then n / d else -(n / d);
    TruncRemainderOf(a, b, n / d);
    q
  }

  /** The case analysis behind `TruncDiv`'s contract: Euclidean division of the
      magnitudes, with the sign put back on the quotient. */
  lemma TruncRemainderOf(a: int, b: int, u: int)
    requires b != 0 && u == Abs(a) / Abs(b)
    ensures IsTruncRemainder(a, b, a - (if (a < 0) == (b < 0) then u else -u) * b)
  {
    var n, d := Abs(a), Abs(b);
    assert n == d * u + n % d && 0 <= n % d < d;
    SignedProduct(a, b, u);
  }

  /** The quotient with the sign put back, times the divisor, is the product of the
      magnitudes with the sign of the dividend. */
  lemma SignedProduct(a: int, b: int, u: int)
    requires b != 0
    ensures (if (a < 0) == (b < 0) then u else -u) * b == (if a < 0 then -(Abs(b) * u) else Abs(b) * u)
  {
    var d := Abs(b);
    if b < 0 {
      assert u * b == -(d * u);
    } else {
      assert u * b == d * u;
    }
  }

  lemma MulNonZeroAtLeast(k: int, b: int)
    requires k != 0
    ensures Abs(k * b) >= Abs(b)
    decreases Abs(k), if k < 0 then 1 else 0
  {
    if k > 1 {
      MulNonZeroAtLeast(k - 1, b);
      assert k * b == (k - 1) * b + b;
    } else if k < 0 {
      assert k * b == -((-k) * b);
      MulNonZeroAtLeast(-k, b);
    }
  }

  lemma SubtractMultiples(q: int, t: int, b: int)
    ensures q * b - t * b == (q - t) * b
  {
  }

  /** Truncating division is the ONLY quotient whose remainder behaves like Java's:
      the characterisation of `TruncDiv` above determines it uniquely. */
  lemma TruncDivUnique(a: int, b: int, q: int)
    requires b != 0
    requires IsTruncRemainder(a, b, a - q * b)
    ensures q == TruncDiv(a, b)
  {
    var t := TruncDiv(a, b);
    var r, s := a - q * b, a - t * b;
    if q != t {
      assert Abs(s - r) < Abs(b);
      SubtractMultiples(q, t, b);
      MulNonZeroAtLeast(q - t, b);
    }
  }

  /** On a non-negative dividend and a positive divisor the two divisions agree;
      on a negative dividend they need not (`TruncDiv(-1, 2) == 0` but `-1 / 2 == -1`). */
  lemma TruncDivAgreesOnNaturals(a: int, b: int)
    requires b != 0
    ensures a >= 0 && b > 0 ==> TruncDiv(a, b) == a / b
    ensures TruncDiv(-1, 2) == 0 && -1 / 2 == -1
  {
  }
}
