/** Integer powers as real numbers. */
module RealPowers {
  import opened Powers

  /** b^z for any integer z. */
  function RPow(b: nat, z: int): real
    requires b > 0
  {
    PowPositive(b, if z >= 0 then z else -z);
    if z >= 0 then Pow(b, z) as real else 1.0 / Pow(b, -z) as real
  }

  lemma RPowStep(b: nat, z: int)
    requires b > 0
    ensures RPow(b, z + 1) == b as real * RPow(b, z)
    ensures RPow(b, z) > 0.0
  {
    if z >= 0 {
      PowPositive(b, z);
      AsReal(b, Pow(b, z));
    } else {
      RPowStepDown(b, -z - 1);
    }
  }

  lemma RPowStepDown(b: nat, k: nat)
    requires b > 0
    ensures RPow(b, 0 - k) == b as real * RPow(b, 0 - k - 1) && RPow(b, 0 - k - 1) > 0.0
  {
    PowPositive(b, k);
    PowPositive(b, k + 1);
    PowReal(b, k);
    PowReal(b, 0);
    var p, q := Pow(b, k) as real, Pow(b, k + 1) as real;
    assert RPow(b, 0 - k) == 1.0 / p && RPow(b, 0 - k - 1) == 1.0 / q;
    hide *;
    Reciprocal(b as real, p);
  }

  lemma Reciprocal(b: real, p: real)
    requires b > 0.0 && p > 0.0
    ensures b * p != 0.0 && 1.0 / p == b * (1.0 / (b * p))
    ensures 1.0 / p > 0.0 && 1.0 / (b * p) > 0.0
  {
  }

  lemma PowReal(b: nat, k: nat)
    ensures Pow(b, 0) as real == 1.0
    ensures Pow(b, k + 1) as real == b as real * Pow(b, k) as real
  {
  }

  lemma {:induction false} RPowTimes(b: nat, z: int, k: nat)
    requires b > 0
    ensures RPow(b, z) * Pow(b, k) as real == RPow(b, z + k)
  {
    hide *;
    PowReal(b, 0);
    if k > 0 {
      RPowTimes(b, z, k - 1);
      RPowStep(b, z + k - 1);
      PowReal(b, k - 1);
      StepUp(RPow(b, z), b as real, Pow(b, k - 1) as real, RPow(b, z + (k - 1)));
    }
  }

  lemma {:induction false} RPowMonotone(b: nat, x: int, y: int)
    requires b > 0 && x <= y
    ensures RPow(b, x) <= RPow(b, y)
    decreases y - x
  {
    hide RPow;
    if x < y {
      RPowMonotone(b, x, y - 1);
      RPowStep(b, y - 1);
      AtLeastOnce(b as real, RPow(b, y - 1));
    }
  }

  lemma AtLeastOnce(b: real, p: real)
    requires b >= 1.0 && p > 0.0
    ensures b * p >= p
  {
  }

  lemma RPowNat(b: nat, k: nat)
    requires b > 0
    ensures RPow(b, k) == Pow(b, k) as real
  {
  }

  lemma RPowNegative(b: nat, n: nat)
    requires b > 0 && n > 0
    ensures Pow(b, n) as real > 0.0 && RPow(b, 0 - n) == 1.0 / Pow(b, n) as real
  {
    PowPositive(b, n);
  }

  /** Exponents of either sign add up. */
  lemma RPowSum(b: nat, x: int, y: int)
    requires b > 0
    ensures RPow(b, x + y) == RPow(b, x) * RPow(b, y)
  {
    hide *;
    if y >= 0 {
      RPowTimes(b, x, y);
      RPowNat(b, y);
    } else {
      RPowTimes(b, x + y, -y);
      RPowNegative(b, -y);
      assert x + y + (-y) == x && 0 - (-y) == y;
      DivideBack(RPow(b, x + y), Pow(b, -y) as real, RPow(b, x));
    }
  }

  lemma DivideBack(a: real, m: real, b: real)
    requires m > 0.0 && a * m == b
    ensures a == b * (1.0 / m)
  {
    assert m * (1.0 / m) == 1.0;
    assert a == a * (m * (1.0 / m));
  }

  lemma StepUp(x: real, b: real, p: real, y: real)
    requires x * p == y
    ensures x * (b * p) == b * y
  {
  }

  lemma Regroup3(x: real, y: real, z: real)
    ensures x * (y * z) == y * (x * z)
  {
  }

  lemma PositiveProduct(x: real, y: real)
    requires x > 0.0 && y > 0.0
    ensures x * y > 0.0
  {
  }

  lemma TimesNonNegative(x: real, y: real, z: real)
    requires x <= y && z >= 0.0
    ensures x * z <= y * z && z * x <= z * y
  {
  }

  lemma SwapFactors(x: real, y: real, z: real)
    ensures (x * y) * z == (x * z) * y
  {
  }

  lemma CancelReal(x: real, y: real, z: real)
    requires z > 0.0
    ensures x <= y <==> x * z <= y * z
    ensures x < y <==> x * z < y * z
  {
    if x < y {
      assert (y - x) * z > 0.0;
    } else if y < x {
      assert (x - y) * z > 0.0;
    }
  }

  /** w units of 10^z, or w * 10^z. */
  function Decimal(w: int, z: int): real
  {
    w as real * RPow(10, z)
  }

  lemma AsReal(x: int, y: int)
    ensures (x * y) as real == x as real * y as real
  {
  }

  // ---------- Rounding ----------

  /** w units are v rounded to a multiple of the unit, halves to an even one. */
  ghost predicate NearestEven(v: real, w: int, unit: real)
  {
    && 2.0 * (v - w as real * unit) <= unit && 2.0 * (w as real * unit - v) <= unit
    && (2.0 * (v - w as real * unit) == unit || 2.0 * (w as real * unit - v) == unit ==> w % 2 == 0)
  }

  /** There is only one such number of units. */
  lemma NearestEvenUnique(v: real, a: int, b: int, unit: real)
    requires unit > 0.0 && NearestEven(v, a, unit) && NearestEven(v, b, unit)
    ensures a == b
  {
    if a < b {
      NextTie(v, a, b, unit);
    } else if b < a {
      NextTie(v, b, a, unit);
    }
  }

  lemma NextTie(v: real, a: int, b: int, unit: real)
    requires unit > 0.0 && a < b
    ensures !NearestEven(v, a, unit) || !NearestEven(v, b, unit)
  {
    CancelReal(a as real + 1.0, b as real, unit);
    assert (a as real + 1.0) * unit == a as real * unit + unit;
    CancelReal(b as real, a as real + 1.0, unit);
  }
}
