/** Non-negative integer powers of reals, the `Math.pow(x, n)` calls of the
    library for whole exponents, and the facts about them that the
    discounting proofs use. */
module Powers {

  /** x raised to the whole power n; Pow(x, 0) == 1 even for x == 0, as in
      `Math.pow(0, 0)`. */
  function Pow(x: real, n: nat): (r: real)
    ensures x != 0.0 ==> r != 0.0
    ensures x > 0.0 ==> r > 0.0
    ensures x >= 0.0 ==> r >= 0.0
  {
    if n == 0 then 1.0 else x * Pow(x, n - 1)
  }

  lemma {:induction false} PowOfOne(n: nat)
    ensures Pow(1.0, n) == 1.0
  {
    if n > 0 {
      PowOfOne(n - 1);
    }
  }

  /** Exponents add: x^(m+n) == x^m * x^n. */
  lemma {:induction false} PowAdd(x: real, m: nat, n: nat)
    ensures Pow(x, m + n) == Pow(x, m) * Pow(x, n)
    decreases n
  {
    if n == 0 {
      assert Pow(x, n) == 1.0;
    } else {
      PowAdd(x, m, n - 1);
      var a, b := Pow(x, m), Pow(x, n - 1);
      assert Pow(x, m + n) == x * Pow(x, m + n - 1);
      MulRearrange(x, a, b);
    }
  }

  /** On non-negative bases the power is monotone in the base. */
  lemma {:induction false} PowMonotone(x: real, y: real, n: nat)
    requires 0.0 <= x <= y
    ensures Pow(x, n) <= Pow(y, n)
  {
    if n > 0 {
      PowMonotone(x, y, n - 1);
      var px, py := Pow(x, n - 1), Pow(y, n - 1);
      MulMonotone(x, px, py);
      MulMonotone(py, x, y);
      calc {
        Pow(x, n);
        x * px;
      <= x * py;
      <= y * py;
        Pow(y, n);
      }
    }
  }

  /** On non-negative bases a positive power is strictly monotone in the base. */
  lemma {:induction false} PowStrictlyMonotone(x: real, y: real, n: nat)
    requires 0.0 <= x < y && n > 0
    ensures Pow(x, n) < Pow(y, n)
  {
    if n == 1 {
      assert Pow(x, 0) == 1.0 && Pow(y, 0) == 1.0;
    } else {
      PowStrictlyMonotone(x, y, n - 1);
      var px, py := Pow(x, n - 1), Pow(y, n - 1);
      MulMonotone(x, px, py);
      MulStrictlyMonotone(py, x, y);
      calc {
        Pow(x, n);
        x * px;
      <= x * py;
      <  y * py;
        Pow(y, n);
      }
    }
  }

  /** A base above one stays above one at every positive power. */
  lemma {:induction false} PowAboveOne(x: real, n: nat)
    requires x > 1.0 && n > 0
    ensures Pow(x, n) > 1.0
  {
    if n > 1 {
      PowAboveOne(x, n - 1);
      var p := Pow(x, n - 1);
      assert x * p - p == (x - 1.0) * p;
      assert (x - 1.0) * p > 0.0;
    }
  }

  /** A base strictly between zero and one stays below one at every positive power. */
  lemma {:induction false} PowBelowOne(x: real, n: nat)
    requires 0.0 < x < 1.0 && n > 0
    ensures Pow(x, n) < 1.0
  {
    if n > 1 {
      PowBelowOne(x, n - 1);
      var p := Pow(x, n - 1);
      assert p - x * p == (1.0 - x) * p;
      assert (1.0 - x) * p > 0.0;
    }
  }

  /** A positive base other than one never reaches one at a positive power. */
  lemma {:induction false} PowIsNotOne(x: real, n: nat)
    requires x > 0.0 && x != 1.0 && n > 0
    ensures Pow(x, n) != 1.0
  {
    if x > 1.0 {
      PowAboveOne(x, n);
    } else {
      PowBelowOne(x, n);
    }
  }

  /** Scaling by r / b and then by b gives back the scale r. */
  lemma ScaleCancel(r: real, b: real, c: real)
    requires b != 0.0
    ensures (r / b * c) * b == r * c
  {
  }

  lemma MulMonotone(c: real, a: real, b: real)
    requires c >= 0.0 && a <= b
    ensures c * a <= c * b && a * c <= b * c
  {
  }

  lemma MulStrictlyMonotone(c: real, a: real, b: real)
    requires c > 0.0 && a < b
    ensures c * a < c * b && a * c < b * c
  {
  }

  lemma MulRearrange(x: real, a: real, b: real)
    ensures x * (a * b) == a * (x * b)
  {
  }

  /** A power splits at any exponent k below it. */
  lemma {:induction false} PowSplit(x: real, total: nat, k: nat)
    requires k <= total
    ensures Pow(x, total) == Pow(x, total - k) * Pow(x, k)
  {
    PowAdd(x, total - k, k);
  }

  /** On non-negative bases a positive power orders like its base. */
  lemma {:induction false} PowOrdersLikeBase(x: real, y: real, n: nat)
    requires 0.0 <= x && 0.0 <= y && n > 0
    ensures x < y <==> Pow(x, n) < Pow(y, n)
  {
    if x < y {
      PowStrictlyMonotone(x, y, n);
    } else {
      PowMonotone(y, x, n);
    }
  }
}
