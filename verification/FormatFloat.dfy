/** format_float for a given precision: Grisu where it is certain, format_dragon where not.
    Both print the number rounded at the last place asked for, halves to even. */
module FormatFloat {
  import opened MachineInts
  import opened Powers
  import opened RealPowers
  import opened Decimals
  import DigitGeneration
  import opened DoubleDigits
  import opened TenPowers
  import Dragon
  import DragonMeaning
  import opened Grisu
  import opened WideMultiply
  import opened CachedPowers
  import opened DoubleGaps

  // ---------- Scaling by a cached power of ten ----------

  /** Moves the top bit of a double's significand to bit 63. */
  method Normalize(f: nat) returns (x: Word, s: nat)
    requires 0 < f < 2 * IMPLICIT_BIT
    ensures x == f * Pow(2, s) && x >= UINT64 / 2
  {
    var g: nat := f;
    s := 0;
    assert Pow(2, 0) == 1;
    while g < IMPLICIT_BIT  // the implicit bit is clear
      invariant 0 < g < 2 * IMPLICIT_BIT && g == f * Pow(2, s)
      decreases IMPLICIT_BIT - g
    {
      MulAssoc(f, 2, Pow(2, s));
      MulAssoc(2, f, Pow(2, s));
      g := g * 2;
      s := s + 1;
    }
    PowAdd(2, s, 11);
    assert Pow(2, 11) == 2048;
    MulAssoc(f, Pow(2, s), 2048);
    x := g * 2048;
    s := s + 11;
  }

  /** The rounded product of two significands is closer than one to the scaled number. */
  lemma ProductApproximates(x: Word, ex: int, y: Word, ey: int, c: int, k: nat, v: real)
    requires CachedPower(y, ey, c) && k == -(ex + ey + 64) && v == x as real * RPow(2, ex)
    ensures Approximates(Multiply(x, y), k, c, v)
  {
    hide *;
    OneIsPower(k);
    PowersCancel(ex, ey, k);
    RPowStep(2, ex);
    SixtyFour();
    MultiplyInReals(x, y);
    assert Nearest(RPow(10, c), y as real, RPow(2, ey)) by { NearestOf(y, ey, c); }
    ProductError(x as real, y as real, Multiply(x, y) as real, RPow(2, ex), RPow(2, ey), One(k) as real, RPow(10, c),
                 RPow(2, -64), v);
    ApproximatesIs(Multiply(x, y), k, c, v);
  }

  lemma ApproximatesIs(g: nat, k: nat, c: int, v: real)
    requires WithinOne(v, RPow(10, c), One(k) as real, g as real)
    ensures Approximates(g, k, c, v)
  {
  }

  lemma NearestOf(y: Word, ey: int, c: int)
    requires CachedPower(y, ey, c)
    ensures Nearest(RPow(10, c), y as real, RPow(2, ey))
  {
  }

  lemma PowersCancel(ex: int, ey: int, k: nat)
    requires k == -(ex + ey + 64)
    ensures RPow(2, -64) == (RPow(2, ex) * RPow(2, ey)) * RPow(2, k)
  {
    hide *;
    RPowSum(2, ex + ey, k);
    assert ex + ey + k == -64;
    ReplaceFactor(ex, ey, RPow(2, -64), RPow(2, k));
  }

  lemma ReplaceFactor(ex: int, ey: int, a: real, q: real)
    requires a == RPow(2, ex + ey) * q
    ensures a == (RPow(2, ex) * RPow(2, ey)) * q
  {
    hide *;
    RPowSum(2, ex, ey);
  }

  lemma OneIsPower(k: nat)
    ensures One(k) as real == RPow(2, k) > 0.0
  {
    RPowNat(2, k);
  }

  ghost predicate RoundedProduct(x: real, y: real, f: real)
  {
    f * UINT64 as real <= x * y + UINT64 as real / 2.0 <= (f + 1.0) * UINT64 as real
  }

  lemma MultiplyInReals(x: Word, y: Word)
    ensures RoundedProduct(x as real, y as real, Multiply(x, y) as real)
  {
    var f, p := Multiply(x, y), x * y;
    AsReal(x, y);
    assert f == (p + UINT64 / 2) / UINT64;
    hide Multiply;
    assert f * UINT64 <= p + UINT64 / 2 < (f + 1) * UINT64;
  }

  lemma SixtyFour()
    ensures RPow(2, -64) * UINT64 as real == 1.0
  {
    PowAdd(2, 32, 32);
    PowAdd(2, 16, 16);
    PowAdd(2, 8, 8);
    assert Pow(2, 8) == 256;
    RPowNegative(2, 64);
  }

  lemma ProductError(x: real, y: real, f: real, m: real, e: real, q: real, p: real, t: real,
                     v: real)
    requires v == x * m && Nearest(p, y, e) && t == (m * e) * q && m > 0.0 && q > 0.0
    requires RoundedProduct(x, y, f) && 0.0 <= x < UINT64 as real && t * UINT64 as real == 1.0
    ensures WithinOne(v, p, q, f)
  {
    var a := x * m * q;
    assert a >= 0.0;
    assert v * p * q == a * p;
    assert a * e == x * t by { assert a * e == x * (m * e * q); }
    assert a * (y * e) == (x * y) * t;
    assert x * t < 1.0;
    TimesNonNegative(2.0 * (p - y * e), e, a);
    TimesNonNegative(2.0 * (y * e - p), e, a);
    assert a * (p - y * e) == a * p - (x * y) * t;
    assert -0.5 <= (x * y) * t - f <= 0.5;
  }

  // ---------- The decimal exponent of the leading digit ----------

  lemma ProductScalable(x: Word, y: Word, k: nat)
    requires x >= UINT64 / 2 && y >= UINT64 / 2 && 32 <= k <= 60
    ensures Scalable(Multiply(x, y), k) && Multiply(x, y) >= CLOSE
  {
    ShiftLimits(k);
    hide Multiply, One;
    SquareAtLeast(x, y, UINT64 / 2);
    Quarter(Multiply(x, y), x * y);
  }

  lemma Quarter(f: int, p: int)
    requires f == (p + UINT64 / 2) / UINT64 && p >= (UINT64 / 2) * (UINT64 / 2)
    ensures f >= CLOSE
  {
  }

  lemma SquareAtLeast(x: int, y: int, m: int)
    requires x >= m >= 0 && y >= m
    ensures x * y >= m * m
  {
    MulMonotone(m, x, y);
    MulMonotone(m, y, m);
    assert m * y == y * m;
  }

  /** The scaled number stays below the power of ten above the integral part's digits. */
  lemma BelowTop(g: nat, k: nat, c: int, v: real)
    requires Approximates(g, k, c, v)
    ensures v < RPow(10, NumDigits(g / One(k)) - c)
  {
    var count := NumDigits(g / One(k));
    BelowUnit(g, k);
    UnitReal(k, count);
    SplitPower(count, c);
    OneIsPower(k);
    assert Factor(count) as real == 1.0 && (g + 1) as real <= Unit(k, count) as real;
    hide *;
    BelowReal(v, RPow(10, c), One(k) as real, g as real, RPow(10, count), RPow(10, count - c), Unit(k, count) as real);
  }

  /** And it reaches the power of ten of its first digit. */
  lemma AboveTop(g: nat, k: nat, c: int, v: real)
    requires Approximates(g, k, c, v) && Scalable(g, k) && g >= CLOSE
    ensures Reaches(v, RPow(10, NumDigits(g / One(k)) - c - 1))
  {
    var count := NumDigits(g / One(k));
    UnitAtMost(g, k);
    UnitReal(k, count - 1);
    SplitPower(count - 1, c);
    OneIsPower(k);
    var u := Unit(k, count - 1);
    assert Factor(count - 1) as real == 1.0 && (u == g || u + 1 <= g);
    assert count - 1 - c == count - c - 1;
    hide Pow, RPow, Unit, One, NumDigits, Factor, Scalable;
    AboveReal(v, RPow(10, c), One(k) as real, g as real, RPow(10, count - 1), RPow(10, count - c - 1), u as real,
              CLOSE as real);
  }

  lemma UnitAtMost(g: nat, k: nat)
    requires Scalable(g, k)
    ensures 0 < Unit(k, NumDigits(g / One(k)) - 1) <= g
  {
    var i, q := g / One(k), One(k);
    var count := NumDigits(i);
    NumDigitsBracket(i);
    DivisorFits(g, k, count - 1);
    QuotientPositive(g, q);
    QuotientRemainder(g, q);
    var p := Pow(10, count - 1);
    assert p <= i;
    hide *;
    MulMonotone(p, i, q);
  }

  lemma AboveReal(v: real, s: real, q: real, g: real, e: real, h: real, u: real, z: real)
    requires WithinOne(v, s, q, g) && Product2(e, h, s) && Product3(u, e, 1.0, q)
    requires (u == g || u + 1.0 <= g) && g >= z >= 1.0
    ensures h * (z - 1.0) < v * z
  {
    var a, m := v * s * q, s * q;
    assert a > g - 1.0 && m > 0.0;
    assert u == h * m && a == v * m;
    hide *;
    AboveScaled(v, h, m, a, u, g, z);
  }

  lemma AboveScaled(v: real, h: real, m: real, a: real, u: real, g: real, z: real)
    requires a > g - 1.0 && m > 0.0 && u == h * m && a == v * m
    requires (u == g || u + 1.0 <= g) && g >= z >= 1.0
    ensures h * (z - 1.0) < v * z
  {
    UnitShare(u, g, z);
    CancelReal(g - 1.0, a, z);
    assert (h * (z - 1.0)) * m == u * (z - 1.0) by { SwapFactors(h, z - 1.0, m); }
    assert (v * z) * m == a * z by { SwapFactors(v, z, m); }
    CancelReal(h * (z - 1.0), v * z, m);
  }

  lemma UnitShare(u: real, g: real, z: real)
    requires (u == g || u + 1.0 <= g) && g >= z >= 1.0
    ensures u * (z - 1.0) <= (g - 1.0) * z
  {
    assert (g - 1.0) * z - u * (z - 1.0) == (g - u) * z + u - z;
    if u + 1.0 <= g {
      assert (g - u) * z + u - z == (g - u - 1.0) * (z - 1.0) + (g - 1.0);
      TimesNonNegative(0.0, g - u - 1.0, z - 1.0);
    }
  }

  lemma BelowReal(v: real, s: real, q: real, g: real, e: real, h: real, u: real)
    requires WithinOne(v, s, q, g) && Product2(e, h, s) && Product3(u, e, 1.0, q) && g + 1.0 <= u
    ensures v < h
  {
    assert v * s * q < u;
    assert u == (h * s) * q;
    CancelReal(v * s, h * s, q);
    CancelReal(v, h, s);
  }

  lemma PositiveExponent(z: int)
    requires RPow(10, z) > 1.0
    ensures z > 0
  {
    assert RPow(10, 0) == 1.0;
    if z <= 0 {
      RPowMonotone(10, z, 0);
    }
  }

  // ---------- Falling back to format_dragon ----------

  /** The decimal exponent Grisu leaves when it gives up is a right estimate for
      format_dragon. */
  lemma EstimateAcceptable(f: nat, e: int, closer: bool, top: int)
    requires IsDouble(f, e) && DragonMeaning.Exact(f, e) < RPow(10, top) && -400 <= top <= 500
    ensures Dragon.Acceptable(f, e, closer, top - 1)
  {
    if e >= 0 {
      DoubleAtLeastOne(f, e);
      PositiveExponent(top);
    }
    EstimateBounds(f, e, closer, top - 1);
  }

  /** And a double never meets the case that format_dragon's division gets wrong. */
  lemma DoubleNeverMistaken(f: nat, e: int, closer: bool, exp10: int, count: nat)
    requires IsDouble(f, e) && Dragon.Acceptable(f, e, closer, exp10)
    ensures !Dragon.Overrun(Dragon.Start(f, e, closer, exp10).f, count)
  {
    hide Dragon.Start, Dragon.Acceptable, Dragon.MistakenAt, Pow;
    FiveTo30();
    EstimateSign(f, e, closer, exp10);
    forall j: nat ensures !Dragon.MistakenAt(Dragon.Start(f, e, closer, exp10).f, j) {
      Dragon.StartMistaken(f, e, closer, exp10, j);
      if e >= 30 {
        NotAPower(f, e, j, exp10);
      }
    }
  }

  lemma DoubleAtLeastOne(f: nat, e: nat)
    requires f > 0
    ensures DragonMeaning.Exact(f, e) >= 1.0
  {
    PowPositive(2, e);
    RPowNat(2, e);
    AsReal(f, Pow(2, e));
    MulPositive(f, Pow(2, e));
  }

  lemma EstimateBounds(f: nat, e: int, closer: bool, exp10: int)
    requires (e >= 0 ==> exp10 >= 0) && f > 0 && DragonMeaning.Exact(f, e) < RPow(10, exp10 + 1)
    ensures var s := Dragon.Start(f, e, closer, exp10).f; s.n < 10 * s.d
  {
    hide Dragon.Start, DragonMeaning.Exact, DragonMeaning.GapBelow, DragonMeaning.GapAbove, RPow, Pow;
    DragonMeaning.StartStands(f, e, closer, exp10);
    RPowStep(10, exp10);
    DenominatorPositive(f, e, closer, exp10);
    var s := Dragon.Start(f, e, closer, exp10).f;
    BelowTenTimes(s.n, s.d, DragonMeaning.Exact(f, e), RPow(10, exp10));
  }

  lemma DenominatorPositive(f: nat, e: int, closer: bool, exp10: int)
    requires e >= 0 ==> exp10 >= 0
    ensures Dragon.Start(f, e, closer, exp10).f.d > 0
  {
    var s := Dragon.Shift(closer);
    PowPositive(10, if exp10 >= 0 then exp10 else 0);
    PowPositive(2, s);
    if e >= 0 {
      MulPositive(Pow(10, exp10), Pow(2, s));
    } else {
      PowPositive(2, s - e);
      if exp10 >= 0 {
        MulPositive(Pow(10, exp10), Pow(2, s - e));
      }
    }
  }

  lemma BelowTenTimes(n: nat, d: nat, v: real, a: real)
    requires n as real * a == v * d as real && d > 0 && a > 0.0 && v < 10.0 * a
    ensures n < 10 * d
  {
    CancelReal(v, 10.0 * a, d as real);
    assert (10.0 * a) * d as real == (10.0 * d as real) * a;
    CancelReal(n as real, 10.0 * d as real, a);
  }

  // ---------- The two paths together ----------

  datatype Printed = Printed(digits: string, exp: int) | Failed

  /** The number of digits asked for when the number is below 10^top. */
  function Asked(precision: int, fixed: bool, top: int): int
  {
    if fixed then precision + top else precision
  }

  /** Where the digits of an n-digit rendering below 10^top stand: from the leading place on,
      or one above it after a carry, down to the last place asked for at most. Without
      trailing zeros the last digit is not zero; with them there are as many as asked for,
      or all that a double can have. */
  predicate Laid(n: nat, top: int, fixed: bool, zeros: bool, digits: string, exp: int)
  {
    if n == 0 then |digits| == 1 && exp == top
    else
      && digits != "" && exp >= top - n && top <= exp + |digits| <= top + 1
      && |digits| <= (if fixed then n + 1 else n)
      && if zeros then |digits| >= n || |digits| >= MAX_DOUBLE_DIGITS else digits[|digits| - 1] != '0'
  }

  /** r is v rounded to a multiple of 10^place, halves to an even one. */
  ghost predicate RoundedEven(v: real, r: real, place: int)
  {
    exists w: nat :: r == Decimal(w, place) && NearestEven(v, w, RPow(10, place))
  }

  /** The digits denote v rounded at the last place asked for, n digits below 10^top, and
      start with the leading digit. */
  ghost predicate CorrectTo(v: real, n: int, top: int, fixed: bool, zeros: bool, digits: string, exp: int)
  {
    if n < 0 then digits == "" && exp == top && RoundedEven(v, 0.0, top - n)
    else
      && IsDecimal(digits) && Laid(n, top, fixed, zeros, digits, exp) && (n >= 1 ==> digits[0] != '0')
      && RoundedEven(v, Decimal(Read(digits), exp), top - n)
  }

  /** The leading digit of v is the one below 10^top. */
  ghost predicate Leading(v: real, top: int)
  {
    RPow(10, top - 1) <= v < RPow(10, top)
  }

  /** format_float's result: an overflowing fixed precision fails, and otherwise the digits
      are correct from the leading digit of v on. */
  ghost predicate Correct(v: real, precision: int, fixed: bool, zeros: bool, result: Printed)
  {
    exists top :: Leading(v, top) && CorrectBelow(v, precision, fixed, zeros, top, result)
  }

  ghost predicate CorrectBelow(v: real, precision: int, fixed: bool, zeros: bool, top: int, result: Printed)
  {
    if fixed && top > 0 && precision + top > INT_MAX then result == Failed
    else result.Printed? && CorrectTo(v, Asked(precision, fixed, top), top, fixed, zeros, result.digits, result.exp)
  }

  lemma LeadingUnique(v: real, a: int, b: int)
    requires Leading(v, a) && Leading(v, b)
    ensures a == b
  {
    if a < b {
      RPowMonotone(10, a, b - 1);
    } else if b < a {
      RPowMonotone(10, b, a - 1);
    }
  }

  lemma RoundedEvenUnique(v: real, r: real, s: real, place: int)
    requires RoundedEven(v, r, place) && RoundedEven(v, s, place)
    ensures r == s
  {
    var a: nat :| r == Decimal(a, place) && NearestEven(v, a, RPow(10, place));
    var b: nat :| s == Decimal(b, place) && NearestEven(v, b, RPow(10, place));
    RPowStep(10, place);
    hide RPow, NearestEven;
    NearestEvenUnique(v, a, b, RPow(10, place));
  }

  /** The number printed. */
  function Number(result: Printed): real
    requires result.Printed? && IsDecimal(result.digits)
  {
    Decimal(Read(result.digits), result.exp)
  }

  /** Nothing but the number of trailing zeros is left open: two correct results fail together
      and print the same number, for no digits zero with the same exponent. */
  lemma CorrectUnique(v: real, precision: int, fixed: bool, zeros: bool, a: Printed, b: Printed)
    requires Correct(v, precision, fixed, zeros, a) && Correct(v, precision, fixed, zeros, b)
    ensures a.Failed? <==> b.Failed?
    ensures a.Printed? ==> IsDecimal(a.digits) && IsDecimal(b.digits) && Number(a) == Number(b)
    ensures a.Printed? && a.digits == "" ==> a == b
  {
    hide Leading, CorrectBelow;
    var top :| Leading(v, top) && CorrectBelow(v, precision, fixed, zeros, top, a);
    var other :| Leading(v, other) && CorrectBelow(v, precision, fixed, zeros, other, b);
    LeadingUnique(v, top, other);
    UniqueBelow(v, precision, fixed, zeros, top, a, b);
  }

  lemma UniqueBelow(v: real, precision: int, fixed: bool, zeros: bool, top: int, a: Printed, b: Printed)
    requires CorrectBelow(v, precision, fixed, zeros, top, a) && CorrectBelow(v, precision, fixed, zeros, top, b)
    ensures a.Failed? <==> b.Failed?
    ensures a.Printed? ==> IsDecimal(a.digits) && IsDecimal(b.digits) && Number(a) == Number(b)
    ensures a.Printed? && a.digits == "" ==> a == b
  {
    hide RPow, RoundedEven, Read, Decimal;
    if a.Printed? {
      var n := Asked(precision, fixed, top);
      if n >= 0 {
        RoundedEvenUnique(v, Number(a), Number(b), top - n);
      } else {
        NothingIsZero(a.exp);
        NothingIsZero(b.exp);
      }
    }
  }

  lemma NothingIsZero(exp: int)
    ensures Decimal(Read(""), exp) == 0.0
  {
    hide RPow;
  }

  /** 2^63 <= f * 2^s < 2^64 for a double's significand. */
  lemma NormalizedExponent(f: nat, s: nat, x: Word)
    requires 0 < f < 2 * IMPLICIT_BIT && x == f * Pow(2, s) && x >= UINT64 / 2
    ensures 11 <= s <= 63
  {
    WordPowers();
    hide Pow;
    if s <= 10 {
      PowMonotone(2, s, 10);
      MulMonotone(f, 2 * IMPLICIT_BIT - 1, Pow(2, s));
    } else if s >= 64 {
      PowMonotone(2, 64, s);
      MulMonotone(1, f, Pow(2, s));
    }
  }

  lemma WordPowers()
    ensures Pow(2, 10) == 1024 && Pow(2, 64) == UINT64
  {
    assert Pow(2, 10) == 1024;
    assert Pow(2, 4) == 16;
    PowAdd(2, 10, 10);
    PowAdd(2, 20, 20);
    PowAdd(2, 40, 20);
    PowAdd(2, 60, 4);
  }

  lemma NormalizedValue(f: nat, e: int, s: nat, x: Word)
    requires x == f * Pow(2, s)
    ensures DragonMeaning.Exact(f, e) == x as real * RPow(2, e - s)
  {
    hide Pow, RPow;
    RPowTimes(2, e - s, s);
    AsReal(f, Pow(2, s));
    Regroup3(f as real, RPow(2, e - s), Pow(2, s) as real);
  }

  /** n digits that hold w in units of 10^place, or 10^n after a carry. */
  ghost predicate HoldsUnits(digits: string, exp: int, w: nat, n: nat, place: int)
  {
    && IsDecimal(digits)
    && if w < Pow(10, n) then |digits| == n && exp == place && Read(digits) == w
       else w == Pow(10, n) && digits != "" && n <= |digits| <= n + 1 && exp + |digits| == place + n + 1
            && Read(digits) == Pow(10, |digits| - 1)
  }

  /** The nearest number of units to v reaches the leading place, and goes past it only to
      the next power of ten. */
  lemma UnitsBracket(v: real, w: nat, n: nat, top: int)
    requires n >= 1 && Leading(v, top) && NearestEven(v, w, RPow(10, top - n))
    ensures Pow(10, n - 1) <= w <= Pow(10, n)
  {
    hide Pow, RPow, NearestEven;
    RPowTimes(10, top - n, n);
    RPowTimes(10, top - n, n - 1);
    RPowStep(10, top - n);
    assert top - n + n == top && top - n + (n - 1) == top - 1;
    UnitsAtMost(v, w, Pow(10, n), RPow(10, top - n));
    UnitsAtLeast(v, w, Pow(10, n - 1), RPow(10, top - n));
  }

  lemma UnitsAtMost(v: real, w: nat, p: nat, unit: real)
    requires unit > 0.0 && v < unit * p as real && NearestEven(v, w, unit)
    ensures w <= p
  {
    assert (p as real + 1.0) * unit == unit * p as real + unit;
    if w >= p + 1 {
      CancelReal(p as real + 1.0, w as real, unit);
    }
  }

  lemma UnitsAtLeast(v: real, w: nat, p: nat, unit: real)
    requires unit > 0.0 && unit * p as real <= v && NearestEven(v, w, unit)
    ensures w >= p
  {
    assert (w as real + 1.0) * unit == w as real * unit + unit;
    if w + 1 <= p {
      CancelReal(w as real + 1.0, p as real, unit);
    }
  }

  lemma NoLeadingZero(digits: string)
    requires IsDecimal(digits) && digits != "" && Read(digits) >= Pow(10, |digits| - 1)
    ensures digits[0] != '0'
  {
    var ds := DigitsOf(digits);
    DecBound(ds[1..]);
  }

  lemma HeldValue(digits: string, exp: int, w: nat, n: nat, place: int)
    requires n >= 1 && HoldsUnits(digits, exp, w, n, place)
    ensures Decimal(Read(digits), exp) == Decimal(w, place)
  {
    assert Pow(10, n) == 10 * Pow(10, n - 1);
    hide Pow, RPow, Decimal, Read, IsDecimal;
    ShiftedDecimal(w, Read(digits), place, exp - place);
  }

  /** Such digits are correct if they hold the nearest number of units. */
  lemma HeldIsCorrect(v: real, w: nat, n: nat, top: int, fixed: bool, digits: string, exp: int)
    requires n >= 1 && Leading(v, top) && NearestEven(v, w, RPow(10, top - n))
    requires HoldsUnits(digits, exp, w, n, top - n) && (fixed || |digits| == n)
    ensures CorrectTo(v, n, top, fixed, true, digits, exp)
  {
    hide NearestEven, Leading, RPow, Decimal, Read, IsDecimal;
    HeldValue(digits, exp, w, n, top - n);
    UnitsBracket(v, w, n, top);
    PowPositive(10, n - 1);
    NoLeadingZero(digits);
  }

  lemma BelowHalfNearest(v: real, w: nat, unit: real)
    requires BelowHalf(v, w as real * unit, unit)
    ensures NearestEven(v, w, unit)
  {
  }

  /** What Grisu is certain of. */
  lemma GrisuCorrect(g: nat, k: nat, count: nat, exp: int, buf: string, shift: int, n: int, fixed: bool, c: int, v: real)
    requires Leaves(g, k, count, Done, exp, buf, shift, n, fixed) && (!fixed ==> n >= 1)
    requires Approximates(g, k, c, v) && Leading(v, count - c)
    ensures CorrectTo(v, n, count - c, fixed, true, buf, exp - c + shift)
  {
    hide Leading, RPow, Rounds, Finished, WithinOne, Approximates, Read, IsDecimal, One, Pow, NearestEven;
    if n < 0 {
      NothingIsCorrect(g, k, count, n, c, v);
    } else if n == 0 {
      SingleMeans(g, k, exp, buf, shift, fixed, c, v);
    } else {
      FinishedHolds(g, k, exp, buf, shift, n, fixed, c, v);
    }
  }

  lemma NothingIsCorrect(g: nat, k: nat, count: nat, n: int, c: int, v: real)
    requires n < 0 && Rounds(g, k, 0, count - n) && Approximates(g, k, c, v)
    ensures RoundedEven(v, 0.0, count - c - n)
  {
    hide RPow, Rounds, Approximates, NearestEven;
    RoundsMeans(g, k, 0, count - n, c, v);
    assert count - n - c == count - c - n;
    BelowHalfNearest(v, 0, RPow(10, count - c - n));
    assert Decimal(0, count - c - n) == 0.0;
  }

  lemma SingleMeans(g: nat, k: nat, exp: int, buf: string, shift: int, fixed: bool, c: int, v: real)
    requires Finished(g, k, exp, buf, shift, 1, fixed) && fixed && Approximates(g, k, c, v) && Leading(v, exp - c)
    ensures IsDecimal(buf) && |buf| == 1 && shift == 0 && RoundedEven(v, Decimal(Read(buf), exp - c), exp - c)
  {
    hide Rounds, Approximates, RPow, Read, IsDecimal, NearestEven;
    var w :| Rounds(g, k, w, exp) && Denotes(buf, shift, w, 1, fixed);
    RoundsMeans(g, k, w, exp, c, v);
    RPowStep(10, exp - c);
    BelowHalfNearest(v, w, RPow(10, exp - c));
    UnitsAtMost(v, w, 1, RPow(10, exp - c));
    hide Denotes;
    SingleSize(buf, shift, w, fixed);
  }

  lemma SingleSize(buf: string, shift: int, w: nat, fixed: bool)
    requires w < 10 && Denotes(buf, shift, w, 1, fixed)
    ensures IsDecimal(buf) && |buf| == 1 && shift == 0 && Read(buf) == w
  {
    assert Pow(10, 1) == 10;
  }

  lemma FinishedHolds(g: nat, k: nat, exp: int, buf: string, shift: int, n: nat, fixed: bool, c: int, v: real)
    requires Finished(g, k, exp, buf, shift, n, fixed) && Approximates(g, k, c, v)
    requires n >= 1 && Leading(v, exp - c + n)
    ensures CorrectTo(v, n, exp - c + n, fixed, true, buf, exp - c + shift)
  {
    hide Denotes, Rounds, Approximates, RPow, Read, CorrectTo, Leading, NearestEven;
    var w :| Rounds(g, k, w, exp) && Denotes(buf, shift, w, n, fixed);
    var top := exp - c + n;
    assert top - n == exp - c;
    RoundsMeans(g, k, w, exp, c, v);
    BelowHalfNearest(v, w, RPow(10, exp - c));
    UnitsBracket(v, w, n, top);
    DenotesHolds(buf, shift, w, n, fixed, exp - c);
    HeldIsCorrect(v, w, n, top, fixed, buf, exp - c + shift);
  }

  lemma DenotesHolds(buf: string, shift: int, w: nat, n: nat, fixed: bool, place: int)
    requires Denotes(buf, shift, w, n, fixed) && n >= 1 && w <= Pow(10, n)
    ensures HoldsUnits(buf, place + shift, w, n, place) && (fixed || |buf| == n)
  {
    assert Pow(10, n) == 10 * Pow(10, n - 1);
    hide Read, IsDecimal;
  }

  /** The fallback with the precision as Grisu has adjusted it, but not more digits than a
      double can have. */
  method UseDragon(f: nat, e: int, closer: bool, fixed: bool, precision: int, exp: int) returns (result: Printed)
    requires IsDouble(f, e) && precision >= 0 && Leading(DragonMeaning.Exact(f, e), exp + 1)
    ensures result.Printed?
    ensures CorrectTo(DragonMeaning.Exact(f, e), precision, exp + 1, fixed, true, result.digits, result.exp)
  {
    hide DragonMeaning.Exact, Dragon.Start, Dragon.Acceptable, RPow, CorrectTo, IsDouble, Leading;
    LeadingPlaces(f, e, exp + 1);
    EstimateAcceptable(f, e, closer, exp + 1);
    EstimateSign(f, e, closer, exp);
    var digits := if precision > MAX_DOUBLE_DIGITS then MAX_DOUBLE_DIGITS else precision;
    var outcome := Dragon.FormatDragon(f, e, closer, false, fixed, digits, exp);
    DoubleNeverMistaken(f, e, closer, exp, digits);
    DragonCorrect(f, e, closer, exp, digits, outcome.digits, outcome.exp10, fixed);
    if precision > MAX_DOUBLE_DIGITS {
      DragonExact(f, e, closer, exp, digits, outcome.digits, outcome.exp10);
      ExactIsCorrect(DragonMeaning.Exact(f, e), precision, exp + 1, fixed, outcome.digits, outcome.exp10);
    }
    return Printed(outcome.digits, outcome.exp10);
  }

  /** The leading digit of a double is between the places -324 and 308. */
  lemma LeadingPlaces(f: nat, e: int, top: int)
    requires IsDouble(f, e) && Leading(DragonMeaning.Exact(f, e), top)
    ensures DragonMeaning.Exact(f, e) < RPow(10, top) && -324 < top <= 309
  {
    hide DragonMeaning.Exact, RPow, IsDouble;
    DoubleRange(f, e);
    if top > 309 {
      RPowMonotone(10, 309, top - 1);
    } else if top <= -324 {
      RPowMonotone(10, top, -324);
    }
  }

  /** With 767 digits nothing is rounded: the digits denote the double itself. */
  lemma DragonExact(f: nat, e: int, closer: bool, exp: int, count: nat, buf: string, last: int)
    requires Dragon.Acceptable(f, e, closer, exp) && count == MAX_DOUBLE_DIGITS
    requires IsDouble(f, e) && Leading(DragonMeaning.Exact(f, e), exp + 1) && exp < MAX_DOUBLE_DIGITS
    requires var s := Dragon.Start(f, e, closer, exp);
             s.f.d > 0 && Dragon.RoundedTo(s.f.n, s.f.d, count, exp, buf, last)
    ensures IsDecimal(buf) && Decimal(Read(buf), last) == DragonMeaning.Exact(f, e)
  {
    hide *;
    EstimateSign(f, e, closer, exp);
    var s, v := Dragon.Start(f, e, closer, exp).f, DragonMeaning.Exact(f, e);
    var m := count - 1 - exp;
    StartRatio(f, e, closer, exp);
    LeadingHalf(v, exp + 1);
    DigitsSuffice(f, e, exp + 1);
    var w := InUnits(f, e, m);
    ExactQuotient(s.n, s.d, v, exp, m, w, count - 1);
    ExactDigits(s.n, s.d, exp, count, buf, last, w);
    UnscaledValue(v, m, w);
  }

  lemma EstimateSign(f: nat, e: int, closer: bool, exp: int)
    requires Dragon.Acceptable(f, e, closer, exp)
    ensures (e >= 0 ==> exp >= 0) && MAX_DOUBLE_DIGITS >= 1
  {
  }

  lemma LeadingHalf(v: real, top: int)
    requires Leading(v, top)
    ensures RPow(10, top - 1) < 2.0 * v
  {
    RPowStep(10, top - 1);
  }

  /** Exact digits are correct for every higher precision. */
  lemma ExactIsCorrect(v: real, n: nat, top: int, fixed: bool, digits: string, exp: int)
    requires n > MAX_DOUBLE_DIGITS && CorrectTo(v, MAX_DOUBLE_DIGITS, top, fixed, true, digits, exp)
    requires IsDecimal(digits) && Decimal(Read(digits), exp) == v
    ensures CorrectTo(v, n, top, fixed, true, digits, exp)
  {
    var m := MAX_DOUBLE_DIGITS;
    hide RPow, Read, IsDecimal, NearestEven;
    var w: nat :| v == Decimal(w, top - m) && NearestEven(v, w, RPow(10, top - m));
    ExactAtPlace(v, w, top - m, n - m);
    assert top - m - (n - m) == top - n;
  }

  lemma ExactAtPlace(v: real, w: nat, place: int, k: nat)
    requires v == Decimal(w, place)
    ensures RoundedEven(v, v, place - k)
  {
    hide RPow, Pow;
    RPowTimes(10, place - k, k);
    RPowStep(10, place - k);
    assert place - k + k == place;
    AsReal(w, Pow(10, k));
    Regroup3(w as real, RPow(10, place - k), Pow(10, k) as real);
    assert v == Decimal(w * Pow(10, k), place - k);
  }

  lemma StartRatio(f: nat, e: int, closer: bool, exp: int)
    requires e >= 0 ==> exp >= 0
    ensures var s := Dragon.Start(f, e, closer, exp).f;
            s.n as real * RPow(10, exp) == DragonMeaning.Exact(f, e) * s.d as real
  {
    hide Dragon.Start, DragonMeaning.Exact, RPow;
    DragonMeaning.StartStands(f, e, closer, exp);
  }

  lemma ExactDigits(n: nat, d: nat, exp: int, count: nat, buf: string, last: int, w: nat)
    requires d > 0 && count >= 1 && Dragon.RoundedTo(n, d, count, exp, buf, last) && n * Pow(10, count - 1) == w * d
    ensures IsDecimal(buf) && |buf| == count && Decimal(Read(buf), last) == Decimal(w, exp - (count - 1))
  {
    ExactRounding(n * Pow(10, count - 1), d, w);
    hide Pow, DigitGeneration.RoundHalfEven, Read;
    DragonMeaning.CarriedValue(w, count, exp - (count - 1), Read(buf), last);
  }

  /** n * 10^t is w times d, w being v in units of 10^-m. */
  lemma ExactQuotient(n: nat, d: nat, v: real, exp: int, m: int, w: nat, t: nat)
    requires d > 0 && n as real * RPow(10, exp) == v * d as real && v * RPow(10, m) == w as real && m + exp == t
    ensures n * Pow(10, t) == w * d
  {
    hide *;
    RPowNat(10, t);
    RPowSum(10, exp, m);
    assert exp + m == t;
    ScaleBoth(n as real, RPow(10, exp), v, d as real, RPow(10, m), w as real);
    SameProduct(n, Pow(10, t), w, d);
  }

  lemma SameProduct(a: nat, b: nat, c: nat, d: nat)
    requires a as real * b as real == c as real * d as real
    ensures a * b == c * d
  {
    AsReal(a, b);
    AsReal(c, d);
    assert (a * b) as real == (c * d) as real;
  }

  lemma ScaleBoth(n: real, a: real, v: real, d: real, b: real, w: real)
    requires n * a == v * d && v * b == w
    ensures n * (a * b) == w * d
  {
    assert n * (a * b) == (n * a) * b;
    assert (v * d) * b == (v * b) * d;
  }

  lemma ExactRounding(x: nat, d: nat, w: nat)
    requires d > 0 && x == w * d
    ensures DigitGeneration.RoundHalfEven(x, d) == w
  {
    DigitGeneration.RoundHalfEvenNearest(x, d);
    var q := DigitGeneration.RoundHalfEven(x, d);
    hide DigitGeneration.RoundHalfEven;
    NearestIsExact(q, w, d);
  }

  lemma NearestIsExact(q: int, w: int, d: int)
    requires d > 0 && 2 * (q * d - w * d) <= d && 2 * (w * d - q * d) <= d
    ensures q == w
  {
    MultiplesApart(w, q, d);
    MultiplesApart(q, w, d);
  }

  lemma MultiplesApart(x: int, y: int, d: int)
    requires d > 0
    ensures x < y ==> x * d + d <= y * d
  {
    if x < y {
      MulMonotone(x + 1, y, d);
    }
  }

  lemma UnscaledValue(v: real, m: int, w: nat)
    requires v * RPow(10, m) == w as real
    ensures Decimal(w, -m) == v
  {
    assert Decimal(w, -m) == w as real * RPow(10, -m) && RPow(10, 0) == 1.0;
    hide *;
    RPowSum(10, m, -m);
    assert m + (-m) == 0;
    MulRegroup(v, RPow(10, m), RPow(10, -m));
  }

  lemma DragonCorrect(f: nat, e: int, closer: bool, exp: int, n: int, buf: string, last: int, fixed: bool)
    requires Dragon.Acceptable(f, e, closer, exp) && n >= 0 && Leading(DragonMeaning.Exact(f, e), exp + 1)
    requires var s := Dragon.Start(f, e, closer, exp);
             s.f.d > 0
             && if n == 0 then
                  |buf| == 1 && IsDecimal(buf) && Read(buf) == DigitGeneration.RoundHalfEven(s.f.n, 10 * s.f.d)
                  && last == exp + 1
                else
                  Dragon.RoundedTo(s.f.n, s.f.d, n, exp, buf, last)
    ensures CorrectTo(DragonMeaning.Exact(f, e), n, exp + 1, fixed, true, buf, last)
  {
    var s := Dragon.Start(f, e, closer, exp);
    var v, below, above := DragonMeaning.Exact(f, e), DragonMeaning.GapBelow(e, closer), DragonMeaning.GapAbove(e);
    DragonMeaning.StartStands(f, e, closer, exp);
    hide Dragon.Start, DragonMeaning.Exact, DragonMeaning.GapBelow, DragonMeaning.GapAbove, DragonMeaning.Stands;
    hide RPow, Read, Leading, NearestEven;
    if n == 0 {
      NoneIsNearest(s, exp, v, below, above, Read(buf));
    } else {
      hide Dragon.RoundedTo;
      RoundedHolds(s, exp, v, below, above, n, buf, last, fixed);
    }
  }

  lemma RoundedHolds(s: DigitGeneration.Scaled, x: int, v: real, below: real, above: real, n: nat, buf: string,
                     last: int, fixed: bool)
    requires s.f.d > 0 && n >= 1 && DragonMeaning.Stands(s, x, v, below, above) && Leading(v, x + 1)
    requires Dragon.RoundedTo(s.f.n, s.f.d, n, x, buf, last)
    ensures CorrectTo(v, n, x + 1, fixed, true, buf, last)
  {
    hide DigitGeneration.RoundHalfEven, Pow, RPow, Read, DragonMeaning.Stands, CorrectTo, Leading, NearestEven;
    var q := DigitGeneration.RoundHalfEven(s.f.n * Pow(10, n - 1), s.f.d);
    assert x - (n - 1) == x + 1 - n;
    assert HoldsUnits(buf, last, q, n, x + 1 - n) && |buf| == n;
    hide Dragon.RoundedTo, HoldsUnits;
    DragonMeaning.QuotientNearestEven(s, x, v, below, above, n - 1, q);
    HeldIsCorrect(v, q, n, x + 1, fixed, buf, last);
  }

  /** No digits: zero or one unit above the leading digit. */
  lemma NoneIsNearest(s: DigitGeneration.Scaled, x: int, v: real, below: real, above: real, q: nat)
    requires s.f.d > 0 && DragonMeaning.Stands(s, x, v, below, above)
    requires q == DigitGeneration.RoundHalfEven(s.f.n, 10 * s.f.d)
    ensures RoundedEven(v, Decimal(q, x + 1), x + 1)
  {
    var t := s.(f := s.f.(d := 10 * s.f.d));
    TenthStands(s, t, x, v, below, above);
    assert Pow(10, 0) == 1;
    hide DragonMeaning.Stands, RPow, NearestEven, DigitGeneration.RoundHalfEven;
    DragonMeaning.QuotientNearestEven(t, x + 1, v, below, above, 0, q);
  }

  lemma TenthStands(s: DigitGeneration.Scaled, t: DigitGeneration.Scaled, x: int, v: real, below: real, above: real)
    requires DragonMeaning.Stands(s, x, v, below, above) && t == s.(f := s.f.(d := 10 * s.f.d))
    ensures DragonMeaning.Stands(t, x + 1, v, below, above)
  {
    RPowStep(10, x);
    var a, d := RPow(10, x), s.f.d as real;
    assert t.f.d as real == 10.0 * d;
    hide RPow;
    TenTimes(s.f.n as real, a, v, d);
    TenTimes(s.l as real, a, below, d);
    TenTimes(s.u as real, a, above, d);
  }

  lemma TenTimes(n: real, a: real, v: real, d: real)
    requires n * a == v * d
    ensures n * (10.0 * a) == v * (10.0 * d)
  {
  }

  /** The double times 10^c as a 64-bit significand with k fractional bits. */
  method ScaleByCachedPower(f: nat, e: int) returns (g: Word, k: nat, c: int)
    requires IsDouble(f, e)
    ensures Scalable(g, k) && g >= CLOSE && -350 <= c <= 350
    ensures Approximates(g, k, c, DragonMeaning.Exact(f, e))
  {
    hide DragonMeaning.Exact, Pow, RPow, One, Multiply, Nearest, Scalable, WithinOne, GetCachedPower, CachedIndex, Entry;
    var x, s := Normalize(f);
    NormalizedExponent(f, s, x);
    NormalizedValue(f, e, s, x);
    var ex := e - s;
    var m := -60 - (ex + 64);
    TableEnds();
    CachedPowerServes(m);
    var entry := GetCachedPower(m);
    c, k := entry.c, -(ex + entry.ey + 64);
    g := Multiply(x, entry.y);
    ProductApproximates(x, ex, entry.y, entry.ey, c, k, DragonMeaning.Exact(f, e));
    ProductScalable(x, entry.y, k);
  }

  lemma TableEnds()
    ensures Entry(0).ey == -1220 && Entry(86).ey == 1066
  {
  }

  /** Zeros at the end are taken off and go into the exponent. */
  method RemoveTrailingZeros(buf: string, exponent: int) returns (digits: string, exp: int)
    requires IsDecimal(buf)
    ensures digits <= buf && IsDecimal(digits) && exp + |digits| == exponent + |buf|
    ensures digits == "" || digits[|digits| - 1] != '0'
    ensures Decimal(Read(digits), exp) == Decimal(Read(buf), exponent)
  {
    var numDigits := |buf|;
    exp := exponent;
    assert buf[..numDigits] == buf;
    hide Decimal, Read;
    while numDigits > 0 && buf[numDigits - 1] == '0'
      invariant numDigits <= |buf| && exp + numDigits == exponent + |buf|
      invariant Decimal(Read(buf[..numDigits]), exp) == Decimal(Read(buf), exponent)
    {
      ZeroOff(buf[..numDigits], exp);
      assert buf[..numDigits][..numDigits - 1] == buf[..numDigits - 1];
      numDigits := numDigits - 1;
      exp := exp + 1;
    }
    digits := buf[..numDigits];
  }

  lemma ZeroOff(buf: string, exp: int)
    requires IsDecimal(buf) && buf != "" && buf[|buf| - 1] == '0'
    ensures Decimal(Read(buf[..|buf| - 1]), exp + 1) == Decimal(Read(buf), exp)
  {
    var head := buf[..|buf| - 1];
    assert DigitsOf(buf) == DigitsOf(head) + [0];
    DecSnoc(DigitsOf(head), 0);
    hide Read, Decimal;
    ShiftedDecimal(Read(buf), Read(head), exp, 1);
  }

  /** Grisu, or format_dragon where it is not certain. */
  method PrintDigits(f: nat, e: int, closer: bool, precision: int, fixed: bool, g: nat, k: nat, c: int,
                     ghost v: real, ghost count: nat)
    returns (result: Printed)
    requires IsDouble(f, e) && v == DragonMeaning.Exact(f, e) && Leading(v, count - c)
    requires Scalable(g, k) && Approximates(g, k, c, v) && count == NumDigits(g / One(k))
    requires 0 <= precision <= INT_MAX && (!fixed ==> precision >= 1)
    ensures CorrectBelow(v, precision, fixed, true, count - c, result)
  {
    hide DragonMeaning.Exact, Pow, RPow, One, Approximates, NumDigits, Leaves, CorrectTo, Scalable, Leading, IsDouble;
    var handler := new GenDigitsHandler(precision, -c, fixed);
    var generated := GrisuGenDigits(g, k, handler);
    if generated.NumberTooBig? {
      result := Failed;
    } else if generated.status == Done {
      GrisuCorrect(g, k, count, generated.exp, handler.buf, handler.exp10 + c, handler.precision, fixed, c, v);
      result := Printed(handler.buf, generated.exp + handler.exp10);
    } else {
      var exp := generated.exp + |handler.buf| - c - 1;
      NotDone(g, k, count, generated.status, generated.exp, handler.buf, handler.exp10 + c, handler.precision, fixed);
      result := UseDragon(f, e, closer, fixed, handler.precision, exp);
    }
  }

  /** format_float for a positive double and a precision that is given. */
  method FormatFloat(f: nat, e: int, closer: bool, precision: int, fixed: bool, showpoint: bool)
    returns (result: Printed)
    requires IsDouble(f, e) && 0 <= precision <= INT_MAX && (!fixed ==> precision >= 1)
    ensures Correct(DragonMeaning.Exact(f, e), precision, fixed, fixed || showpoint, result)
  {
    var g, k, c := ScaleByCachedPower(f, e);
    hide *;
    ghost var v, count := DragonMeaning.Exact(f, e), NumDigits(g / One(k));
    FoundTop(f, e, g, k, c);
    result := PrintDigits(f, e, closer, precision, fixed, g, k, c, v, count);
    if !fixed && !showpoint {
      result := WithoutZeros(result, v, precision, count - c);
    }
    Concluded(v, precision, fixed, fixed || showpoint, count - c, result);
  }

  /** The digits of the scaled number's integral part give the leading place exactly. */
  lemma FoundTop(f: nat, e: int, g: nat, k: nat, c: int)
    requires IsDouble(f, e) && Scalable(g, k) && g >= CLOSE && Approximates(g, k, c, DragonMeaning.Exact(f, e))
    ensures Leading(DragonMeaning.Exact(f, e), NumDigits(g / One(k)) - c)
  {
    hide DragonMeaning.Exact, Pow, RPow, One, WithinOne, NumDigits, Scalable, Reaches, IsDouble;
    var v, top := DragonMeaning.Exact(f, e), NumDigits(g / One(k)) - c;
    BelowTop(g, k, c, v);
    AboveTop(g, k, c, v);
    if v < RPow(10, top - 1) {
      NoDoubleReaches(f, e, top - 1);
    }
  }

  lemma Concluded(v: real, precision: int, fixed: bool, zeros: bool, top: int, result: Printed)
    requires Leading(v, top) && CorrectBelow(v, precision, fixed, zeros, top, result)
    ensures Correct(v, precision, fixed, zeros, result)
  {
  }

  method WithoutZeros(printed: Printed, ghost v: real, ghost precision: int, ghost top: int) returns (result: Printed)
    requires Leading(v, top) && CorrectBelow(v, precision, false, true, top, printed) && precision >= 1
    ensures CorrectBelow(v, precision, false, false, top, result)
  {
    var digits, exp := RemoveTrailingZeros(printed.digits, printed.exp);
    NotZero(v, precision, top, digits, exp);
    hide Decimal, Read, RPow, RoundedEven, Leading;
    result := Printed(digits, exp);
  }

  /** What rounds v at its leading place or below is not zero. */
  lemma NotZero(v: real, n: nat, top: int, digits: string, exp: int)
    requires n >= 1 && Leading(v, top) && IsDecimal(digits)
    requires RoundedEven(v, Decimal(Read(digits), exp), top - n)
    ensures digits != ""
  {
    hide RPow, NearestEven, Leading;
    var w: nat :| Decimal(Read(digits), exp) == Decimal(w, top - n) && NearestEven(v, w, RPow(10, top - n));
    UnitsBracket(v, w, n, top);
    PowPositive(10, n - 1);
    RPowStep(10, top - n);
    PositiveProduct(w as real, RPow(10, top - n));
    assert Decimal(0, exp) == 0.0;
  }

  lemma NotDone(g: nat, k: nat, count: nat, status: Status, exp: int, buf: string, shift: int, n: int, fixed: bool)
    requires Leaves(g, k, count, status, exp, buf, shift, n, fixed) && status != Done
    ensures exp + |buf| == count && (fixed ==> n >= 0)
  {
  }
}
