/** No double has more than 767 significant digits. */
module DoubleDigits {
  import opened Powers
  import opened RealPowers
  import DragonMeaning

  const IMPLICIT_BIT: nat := 0x10_0000_0000_0000
  const MAX_DOUBLE_DIGITS: int := 767

  /** The significand and binary exponent of a positive double. */
  ghost predicate IsDouble(f: nat, e: int)
  {
    0 < f < 2 * IMPLICIT_BIT && -1074 <= e <= 971
  }

  /** 5^307 < 2^713: the comparison behind the number 767. */
  lemma FiveBelowTwo()
    ensures Pow(5, 307) <= Pow(2, 713)
  {
    hide Pow;
    var a, b, c, d := Pow(5, 59), Pow(2, 137), Pow(5, 12), Pow(2, 28);
    Fives();
    Twos();
    PowPow(5, 59, 5);
    PowPow(2, 137, 5);
    PowAdd(5, 295, 12);
    PowAdd(2, 685, 28);
    PowBase(a, b, 5);
    MulMonotone(Pow(a, 5), Pow(b, 5), c);
    MulMonotone(c, d, Pow(b, 5));
    assert Pow(b, 5) * c == c * Pow(b, 5) && Pow(b, 5) * d == d * Pow(b, 5);
  }

  lemma Fives()
    ensures Pow(5, 12) == 244140625
    ensures Pow(5, 59) == 173472347597680709441192448139190673828125
  {
    assert Pow(5, 6) == 15625;
    PowAdd(5, 6, 6);
    assert Pow(5, 12) == 244140625;
    assert Pow(5, 5) == 3125;
    PowAdd(5, 12, 12);
    PowAdd(5, 24, 24);
    PowAdd(5, 48, 6);
    PowAdd(5, 54, 5);
  }

  lemma Twos()
    ensures Pow(2, 28) == 268435456
    ensures Pow(2, 137) == 174224571863520493293247799005065324265472
  {
    assert Pow(2, 7) == 128;
    assert Pow(2, 4) == 16;
    assert Pow(2, 2) == 4 && Pow(2, 1) == 2;
    PowAdd(2, 7, 7);
    PowAdd(2, 14, 14);
    PowAdd(2, 28, 4);
    PowAdd(2, 32, 32);
    PowAdd(2, 64, 4);
    PowAdd(2, 68, 68);
    PowAdd(2, 136, 1);
  }

  /** 2^(54 + e) <= 10^(767 + e) from the smallest exponent on: at e = -1074 this is the
      comparison above, and each further step multiplies by 2 and by 10. */
  lemma {:induction false} BinaryBelowDecimal(t: nat)
    ensures RPow(2, t - 1020) <= RPow(10, t - 307)
  {
    if t == 0 {
      SmallestExponent();
    } else {
      BinaryBelowDecimal(t - 1);
      RPowStep(2, t - 1 - 1020);
      RPowStep(10, t - 1 - 307);
      hide RPow;
    }
  }

  lemma SmallestExponent()
    ensures RPow(2, -1020) <= RPow(10, -307)
  {
    hide *;
    FiveBelowTwo();
    PowProduct(2, 5, 307);
    PowAdd(2, 307, 713);
    PowPositive(2, 307);
    PowPositive(10, 307);
    PowPositive(2, 1020);
    MulMonotone(Pow(5, 307), Pow(2, 713), Pow(2, 307));
    assert 2 * 5 == 10 && 307 + 713 == 1020;
    assert Pow(10, 307) <= Pow(2, 1020) by {
      assert Pow(2, 307) * Pow(5, 307) == Pow(5, 307) * Pow(2, 307);
      assert Pow(2, 307) * Pow(2, 713) == Pow(2, 713) * Pow(2, 307);
    }
    RPowNegative(2, 1020);
    RPowNegative(10, 307);
    Inverses(Pow(10, 307), Pow(2, 1020));
  }

  lemma Inverses(a: nat, b: nat)
    requires 0 < a <= b
    ensures 1.0 / b as real <= 1.0 / a as real
  {
    var x, y := a as real, b as real;
    assert x <= y && x > 0.0;
    InversesReal(x, y);
  }

  lemma InversesReal(x: real, y: real)
    requires 0.0 < x <= y
    ensures 1.0 / y <= 1.0 / x
  {
  }

  /** A double below 2^(53 + e) has its leading digit below 10^(767 + e). */
  lemma TopBounded(f: nat, e: int, top: int)
    requires IsDouble(f, e) && RPow(10, top - 1) < 2.0 * DragonMeaning.Exact(f, e)
    ensures top <= 767 + e
  {
    if top > 767 + e {
      BinaryBelowDecimal(e + 1074);
      RPowMonotone(10, 767 + e, top - 1);
      assert e + 1074 - 1020 == 54 + e && e + 1074 - 307 == 767 + e;
      DoubleBelow(f, e);
      assert false;
    }
  }

  lemma DoubleBelow(f: nat, e: int)
    requires f < 2 * IMPLICIT_BIT
    ensures 2.0 * DragonMeaning.Exact(f, e) < RPow(2, 54 + e)
  {
    TwoTo54(54);
    ExactIs(f, e);
    hide *;
    Below(f, e, 54);
  }

  lemma ExactIs(f: nat, e: int)
    ensures DragonMeaning.Exact(f, e) == f as real * RPow(2, e)
  {
    hide RPow;
  }

  lemma Below(f: nat, e: int, t: nat)
    requires DragonMeaning.Exact(f, e) == f as real * RPow(2, e) && 2 * f < Pow(2, t)
    ensures 2.0 * DragonMeaning.Exact(f, e) < RPow(2, t + e)
  {
    hide *;
    RPowTimes(2, e, t);
    RPowStep(2, e);
    BelowProduct(f as real, RPow(2, e), Pow(2, t) as real);
    assert e + t == t + e;
  }

  lemma BelowProduct(f: real, p: real, limit: real)
    requires 2.0 * f < limit && p > 0.0
    ensures 2.0 * (f * p) < p * limit
  {
    CancelReal(2.0 * f, limit, p);
    assert 2.0 * (f * p) == (2.0 * f) * p;
  }

  lemma TwoTo54(t: nat)
    requires t == 54
    ensures Pow(2, t) == 4 * IMPLICIT_BIT
  {
    assert Pow(2, 6) == 64;
    assert Pow(2, 12) == 4096;
    PowAdd(2, 12, 12);
    PowAdd(2, 24, 24);
    PowAdd(2, 48, 6);
  }

  /** The integer the double is in units of 10^-m. */
  function InUnits(f: nat, e: int, m: int): nat
    requires m >= 0 && m + e >= 0
  {
    if e >= 0 then f * Pow(2, e) * Pow(10, m) else f * Pow(5, -e) * Pow(10, m + e)
  }

  /** 767 digits from the leading one on hold the whole of a double. */
  lemma DigitsSuffice(f: nat, e: int, top: int)
    requires IsDouble(f, e) && RPow(10, top - 1) < 2.0 * DragonMeaning.Exact(f, e) && top <= MAX_DOUBLE_DIGITS
    ensures top <= MAX_DOUBLE_DIGITS + e
    ensures DragonMeaning.Exact(f, e) * RPow(10, MAX_DOUBLE_DIGITS - top) ==
            InUnits(f, e, MAX_DOUBLE_DIGITS - top) as real
  {
    hide RPow, Pow, InUnits, IsDouble, DragonMeaning.Exact;
    TopBounded(f, e, top);
    var m := MAX_DOUBLE_DIGITS - top;
    if e >= 0 {
      ScaledLarge(f, e, m);
    } else {
      ScaledSmall(f, -e, m);
      assert 0 - (-e) == e;
    }
  }

  lemma ScaledLarge(f: nat, e: nat, m: nat)
    ensures DragonMeaning.Exact(f, e) * RPow(10, m) == InUnits(f, e, m) as real
  {
    RPowNat(2, e);
    RPowNat(10, m);
    var p, t := Pow(2, e), Pow(10, m);
    assert DragonMeaning.Exact(f, e) == f as real * p as real;
    assert InUnits(f, e, m) == f * p * t;
    hide *;
    AsReal(f, p);
    AsReal(f * p, t);
  }

  lemma ScaledSmall(f: nat, k: nat, m: nat)
    requires 0 < k <= m
    ensures DragonMeaning.Exact(f, 0 - k) * RPow(10, m) == InUnits(f, 0 - k, m) as real
  {
    hide *;
    ExactIs(f, 0 - k);
    ScaledIs(f, k, m);
    PowPositive(2, k);
    RPowNegative(2, k);
    RPowNat(10, m);
    PowAdd(10, k, m - k);
    PowProduct(2, 5, k);
    assert k + (m - k) == m && 2 * 5 == 10;
    SmallProduct(f, Pow(2, k), Pow(5, k), Pow(10, m - k), InUnits(f, 0 - k, m), Pow(10, m));
  }

  lemma ScaledIs(f: nat, k: nat, m: nat)
    requires 0 < k <= m
    ensures InUnits(f, 0 - k, m) == f * Pow(5, k) * Pow(10, m - k)
  {
    hide Pow;
  }

  lemma SmallProduct(f: nat, a: nat, five: nat, t: nat, w: nat, p: nat)
    requires a > 0 && w == f * five * t && p == (a * five) * t
    ensures (f as real * (1.0 / a as real)) * p as real == w as real
  {
    AsReal(a, five);
    AsReal(a * five, t);
    AsReal(f, five);
    AsReal(f * five, t);
    hide *;
    CancelTwos(f as real, a as real, five as real, t as real);
  }

  lemma CancelTwos(f: real, a: real, five: real, t: real)
    requires a > 0.0
    ensures (f * (1.0 / a)) * ((a * five) * t) == f * five * t
  {
    var i := 1.0 / a;
    assert i * a == 1.0;
    assert (f * i) * ((a * five) * t) == (f * (i * a)) * (five * t);
  }
}
