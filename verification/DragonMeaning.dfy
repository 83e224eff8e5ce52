/** What format_dragon's digits mean for the real number f * 2^e. */
module DragonMeaning {
  import opened MachineInts
  import opened Powers
  import opened RealPowers
  import opened Limbs
  import opened Bigints
  import opened Decimals
  import opened DigitGeneration
  import opened ShortestExact
  import opened Dragon

  /** The number f * 2^e and the distances to the two ends of its rounding interval. */
  function Exact(f: nat, e: int): real
  {
    f as real * RPow(2, e)
  }

  function GapBelow(e: int, closer: bool): real
  {
    if closer then RPow(2, e) / 4.0 else RPow(2, e) / 2.0
  }

  function GapAbove(e: int): real
  {
    RPow(2, e) / 2.0
  }

  /** n, l and u in units of d / 10^x are v, below and above. */
  ghost predicate Stands(s: Scaled, x: int, v: real, below: real, above: real)
  {
    var a, d := RPow(10, x), s.f.d as real;
    s.f.n as real * a == v * d && s.l as real * a == below * d && s.u as real * a == above * d
  }

  /** Lowering the estimate by one scales numerator and gaps by ten. */
  lemma LoweredStands(s: Scaled, x: int, v: real, below: real, above: real)
    requires Stands(s, x, v, below, above)
    ensures Stands(Lowered(s, true), x - 1, v, below, above)
  {
    RPowStep(10, x - 1);
    hide RPow;
    var a, b := RPow(10, x), RPow(10, x - 1);
    TenBack(s.f.n as real, a, b);
    TenBack(s.l as real, a, b);
    TenBack(s.u as real, a, b);
    assert (10 * s.f.n) as real == 10.0 * s.f.n as real;
    assert (10 * s.l) as real == 10.0 * s.l as real;
    assert (10 * s.u) as real == 10.0 * s.u as real;
  }

  lemma TenBack(n: real, a: real, b: real)
    requires a == 10.0 * b
    ensures (10.0 * n) * b == n * a
  {
  }

  /** The lower gap l, the denominator d and the factor k = 2^shift of f * k * l == n
      are in the relation that makes l a k-th of 2^e, in each of the three cases. */
  lemma GapLarge(e: nat, x: nat, k: nat)
    ensures (RPow(2, e) * k as real) * RPow(10, x) == RPow(2, e) * (Pow(10, x) * k) as real
  {
    RPowNat(10, x);
    hide *;
    AsReal(Pow(10, x), k);
    LargeProduct(RPow(2, e), k as real, RPow(10, x), (Pow(10, x) * k) as real);
  }

  lemma LargeProduct(p: real, k: real, a: real, c: real)
    requires c == a * k
    ensures (p * k) * a == p * c
  {
  }

  lemma GapSmall(e: int, m: int, s: nat)
    requires e < 0 < m
    ensures (Pow(10, m) as real * Pow(2, s) as real) * RPow(10, -m) == RPow(2, e) * Pow(2, s - e) as real
  {
    hide *;
    RPowTimes(2, e, s - e);
    RPowTimes(10, -m, m);
    PowReal(10, 0);
    RPowNat(10, 0);
    RPowNat(2, s);
    assert e + (s - e) == s && -m + m == 0;
    OneFactor(Pow(10, m) as real, Pow(2, s) as real, RPow(10, -m));
  }

  lemma OneFactor(b: real, k: real, a: real)
    requires a * b == 1.0
    ensures (b * k) * a == k
  {
    SwapFactors(b, k, a);
  }

  lemma GapMiddle(e: int, x: nat, s: nat)
    requires e < 0
    ensures (1.0 * Pow(2, s) as real) * RPow(10, x) == RPow(2, e) * (Pow(10, x) * Pow(2, s - e)) as real
  {
    hide *;
    RPowTimes(2, e, s - e);
    RPowNat(10, x);
    RPowNat(2, s);
    assert e + (s - e) == s;
    var k, a, t := Pow(2, s), Pow(10, x), Pow(2, s - e);
    MiddleProduct(k as real, a, t, RPow(2, e));
  }

  lemma MiddleProduct(k: real, a: nat, t: nat, p: real)
    requires p * t as real == k
    ensures (1.0 * k) * a as real == p * (a * t) as real
  {
    assert (a * t) as real == a as real * t as real;
    Regroup3(p, a as real, t as real);
  }

  lemma Regroup4(x: real, y: real, z: real)
    ensures (x * y) * z == x * (z * y)
  {
  }

  /** The numerator is f * k lower gaps. */
  lemma NumeratorLarge(f: nat, e: nat, s: nat)
    ensures f * Pow(2, e + s) == (f * Pow(2, s)) * Pow(2, e)
    ensures Pow(2, e + 1) == 2 * Pow(2, e)
  {
    PowAdd(2, s, e);
    MulAssoc(f, Pow(2, s), Pow(2, e));
  }

  lemma NumeratorSmall(l: int, f: int, k: int)
    ensures (l * f) * k == (f * k) * l
  {
    MulAssoc(l, f, k);
  }

  /** The numerator is f * k lower gaps and the lower gap a k-th of p, both in units of d / a. */
  ghost predicate InGaps(start: Scaled, f: nat, k: nat, a: real, p: real, closer: bool)
  {
    && (start.l as real * k as real) * a == p * start.f.d as real
    && start.f.n == (f * k) * start.l && start.u == if closer then 2 * start.l else start.l
  }

  lemma StartInGaps(f: nat, e: int, closer: bool, exp10: int)
    requires e >= 0 ==> exp10 >= 0
    ensures InGaps(Start(f, e, closer, exp10), f, Pow(2, Shift(closer)), RPow(10, exp10), RPow(2, e), closer)
  {
    hide InGaps;
    if e >= 0 {
      StartLarge(f, e, closer, exp10);
    } else if exp10 < 0 {
      StartSmall(f, e, closer, exp10);
    } else {
      StartMiddle(f, e, closer, exp10);
    }
  }

  lemma StartLarge(f: nat, e: int, closer: bool, exp10: int)
    requires e >= 0 && exp10 >= 0
    ensures InGaps(Start(f, e, closer, exp10), f, Pow(2, Shift(closer)), RPow(10, exp10), RPow(2, e), closer)
  {
    hide Pow, RPow;
    GapLarge(e, exp10, Pow(2, Shift(closer)));
    RPowNat(2, e);
    NumeratorLarge(f, e, Shift(closer));
  }

  lemma StartMiddle(f: nat, e: int, closer: bool, exp10: int)
    requires e < 0 <= exp10
    ensures InGaps(Start(f, e, closer, exp10), f, Pow(2, Shift(closer)), RPow(10, exp10), RPow(2, e), closer)
  {
    hide Pow, RPow;
    GapMiddle(e, exp10, Shift(closer));
  }

  lemma StartSmall(f: nat, e: int, closer: bool, exp10: int)
    requires e < 0 && exp10 < 0
    ensures InGaps(Start(f, e, closer, exp10), f, Pow(2, Shift(closer)), RPow(10, exp10), RPow(2, e), closer)
  {
    hide Pow, RPow;
    GapSmall(e, -exp10, Shift(closer));
    NumeratorSmall(Pow(10, -exp10), f, Pow(2, Shift(closer)));
  }

  lemma Conclude(start: Scaled, f: nat, x: int, e: int, closer: bool)
    requires InGaps(start, f, if closer then 4 else 2, RPow(10, x), RPow(2, e), closer)
    ensures Stands(start, x, Exact(f, e), GapBelow(e, closer), GapAbove(e))
  {
    hide Pow, RPow;
    var k := if closer then 4 else 2;
    var l := start.l as real;
    assert start.f.n as real == (f as real * k as real) * l;
    FromGap(l, RPow(10, x), k as real, RPow(2, e), start.f.d as real, f as real);
  }

  /** The setup represents f * 2^e exactly, with its two half-gaps, in all three cases. */
  lemma StartStands(f: nat, e: int, closer: bool, exp10: int)
    requires e >= 0 ==> exp10 >= 0
    ensures Stands(Start(f, e, closer, exp10), exp10, Exact(f, e), GapBelow(e, closer), GapAbove(e))
  {
    StartInGaps(f, e, closer, exp10);
    SmallShifts();
    assert Pow(2, Shift(closer)) == if closer then 4 else 2;
    hide *;
    Conclude(Start(f, e, closer, exp10), f, exp10, e, closer);
  }

  lemma FromGap(l: real, a: real, k: real, p: real, d: real, f: real)
    requires (l * k) * a == p * d && k > 0.0
    ensures l * a == (p / k) * d
    ensures ((f * k) * l) * a == (f * p) * d
    ensures (2.0 * l) * a == (2.0 * (p / k)) * d
  {
  }

  // ---------- The interval on the real line ----------

  /** x * p against w * d is y against w * t once both sides are scaled. */
  lemma CompareScaled(x: real, p: real, w: real, d: real, t: real, a: real, y: real)
    requires t > 0.0 && d > 0.0 && t * p == a && x * a == y * d
    ensures x * p <= w * d <==> y <= w * t
    ensures x * p < w * d <==> y < w * t
    ensures x * p >= w * d <==> y >= w * t
    ensures x * p > w * d <==> y > w * t
  {
    assert (x * p) * t == x * a;
    assert (w * d) * t == (w * t) * d;
    CancelReal(x * p, w * d, t);
    CancelReal(w * d, x * p, t);
    CancelReal(y, w * t, d);
    CancelReal(w * t, y, d);
  }

  ghost predicate Within(r: real, v: real, below: real, above: real, closed: bool)
  {
    if closed then v - below <= r <= v + above else v - below < r < v + above
  }

  ghost predicate SameOrder(a: int, b: int, x: real, y: real)
  {
    (a < b <==> x < y) && (b < a <==> y < x)
  }

  lemma EndsMean(s: Scaled, x: int, v: real, below: real, above: real, w: int, k: nat)
    requires s.f.d > 0 && Stands(s, x, v, below, above)
    ensures SameOrder((s.f.n as int - s.l) * Pow(10, k), w * s.f.d, v - below, w as real * RPow(10, x - k))
    ensures SameOrder((s.f.n + s.u) * Pow(10, k), w * s.f.d, v + above, w as real * RPow(10, x - k))
  {
    hide Stands, Pow, RPow;
    RPowTimes(10, x - k, k);
    RPowStep(10, x - k);
    EndsStand(s, x, v, below, above);
    EndMeans(s.f.n as int - s.l, Pow(10, k), w, s.f.d, RPow(10, x - k), RPow(10, x), v - below);
    EndMeans(s.f.n + s.u, Pow(10, k), w, s.f.d, RPow(10, x - k), RPow(10, x), v + above);
  }

  /** The interval around n / d is the interval around the number it stands for. */
  lemma InsideMeans(s: Scaled, x: int, v: real, below: real, above: real, w: int, k: nat, closed: bool)
    requires s.f.d > 0 && Stands(s, x, v, below, above)
    ensures s.Inside(w, Pow(10, k), closed) <==> Within(Decimal(w, x - k), v, below, above, closed)
  {
    hide Stands, Pow, RPow;
    EndsMean(s, x, v, below, above, w, k);
  }

  lemma EndsStand(s: Scaled, x: int, v: real, below: real, above: real)
    requires Stands(s, x, v, below, above)
    ensures (s.f.n as int - s.l) as real * RPow(10, x) == (v - below) * s.f.d as real
    ensures (s.f.n + s.u) as real * RPow(10, x) == (v + above) * s.f.d as real
  {
    assert (s.f.n as int - s.l) as real == s.f.n as real - s.l as real;
    assert (s.f.n + s.u) as real == s.f.n as real + s.u as real;
  }

  /** m against w is y against w * t, when m stands for y. */
  lemma EndMeans(m: int, p: nat, w: int, d: nat, t: real, a: real, y: real)
    requires t > 0.0 && d > 0 && t * p as real == a && m as real * a == y * d as real
    ensures SameOrder(m * p, w * d, y, w as real * t)
  {
    AsReal(m, p);
    AsReal(w, d);
    CompareScaled(m as real, p as real, w as real, d as real, t, a, y);
  }

  // ---------- Main results ----------

  /** Shortest mode. The digits with their exponent denote a number between the ends of
      the rounding interval of v, ends included; for an odd significand, which does not own
      them, strictly between exactly unless the lower end is mistaken for inside. */
  lemma ShortestRoundTrips(s: Scaled, x: int, v: real, below: real, above: real)
    requires s.Ready() && Stands(s, x, v, below, above)
    ensures var ds := Shortest(s);
            var r := Decimal(Dec(ds), x - (|ds| - 1));
            && Within(r, v, below, above, true)
            && (!s.even ==> (Within(r, v, below, above, false) <==> !EndMistaken(s))
                            && (EndMistaken(s) ==> r == v - below))
  {
    hide Shortest, Dec, Pow, RPow, Stands, EndMistaken;
    var ds := Shortest(s);
    ShortestSound(s);
    InsideMeans(s, x, v, below, above, Dec(ds), |ds| - 1, true);
    InsideMeans(s, x, v, below, above, Dec(ds), |ds| - 1, false);
    if !s.even {
      ShortestStrict(s);
      EndsMean(s, x, v, below, above, Dec(ds), |ds| - 1);
    }
  }

  /** w with m digits after the leading place x lies in the interval. */
  ghost predicate ShortDecimal(w: int, m: nat, x: int, v: real, below: real, above: real, closed: bool)
  {
    Within(Decimal(w, x - m), v, below, above, closed)
  }

  /** No decimal with fewer digits, counted from the same leading place, lies in the interval. */
  ghost predicate NoneShorter(size: nat, x: int, v: real, below: real, above: real, closed: bool)
  {
    forall m: nat, w: int :: m < size - 1 ==> !ShortDecimal(w, m, x, v, below, above, closed)
  }

  lemma NothingInsideMeans(s: Scaled, x: int, v: real, below: real, above: real, size: nat, closed: bool)
    requires s.f.d > 0 && Stands(s, x, v, below, above) && size >= 1
    ensures NothingInside(s, size - 1, closed) <==> NoneShorter(size, x, v, below, above, closed)
  {
    hide Stands, Within, Pow, RPow;
    forall m: nat, w: int
      ensures s.Inside(w, Pow(10, m), closed) <==> ShortDecimal(w, m, x, v, below, above, closed)
    {
      InsideMeans(s, x, v, below, above, w, m, closed);
    }
    if NothingInside(s, size - 1, closed) {
      forall m: nat, w: int | m < size - 1 ensures !ShortDecimal(w, m, x, v, below, above, closed) {
        assert !s.Inside(w, Pow(10, m), closed);
      }
    }
  }

  /** The digits are the fewest exactly if the digit loop misses no number that should have
      ended it. */
  lemma ShortestIsShortest(s: Scaled, x: int, v: real, below: real, above: real)
    requires s.Ready() && Stands(s, x, v, below, above)
    ensures NoneShorter(|Shortest(s)|, x, v, below, above, s.even) <==> !DigitMissed(s)
  {
    ShortestMinimal(s);
    NothingInsideMeans(s, x, v, below, above, |Shortest(s)|, s.even);
  }

  /** Fixed-count mode: count digits denote v rounded to a multiple of one unit in the last
      place, halves to an even one. */
  lemma RoundedIsNearest(s: Scaled, x: int, v: real, below: real, above: real, count: nat, buf: string, exp: int)
    requires s.f.d > 0 && count >= 1 && Stands(s, x, v, below, above)
    requires RoundedTo(s.f.n, s.f.d, count, x, buf, exp)
    ensures var q, place := RoundHalfEven(s.f.n * Pow(10, count - 1), s.f.d), x - (count - 1);
            Decimal(Read(buf), exp) == Decimal(q, place) && NearestEven(v, q, RPow(10, place))
  {
    var q := RoundHalfEven(s.f.n * Pow(10, count - 1), s.f.d);
    CarriedValue(q, count, x - (count - 1), Read(buf), exp);
    hide RoundedTo, RoundHalfEven, Pow, RPow, Read;
    QuotientNearestEven(s, x, v, below, above, count - 1, q);
  }

  /** The quotient rounded half to even is the number rounded half to even at its place. */
  lemma QuotientNearestEven(s: Scaled, x: int, v: real, below: real, above: real, k: nat, q: nat)
    requires s.f.d > 0 && Stands(s, x, v, below, above) && q == RoundHalfEven(s.f.n * Pow(10, k), s.f.d)
    ensures NearestEven(v, q, RPow(10, x - k))
  {
    hide Pow, RPow, RoundHalfEven, NearestEven;
    RPowTimes(10, x - k, k);
    RPowStep(10, x - k);
    assert x - k + k == x;
    RoundedReal(s.f.n, Pow(10, k), q, s.f.d, RPow(10, x - k), RPow(10, x), v);
  }

  lemma RoundedReal(n: nat, p: nat, q: nat, d: nat, t: real, a: real, v: real)
    requires t > 0.0 && d > 0 && t * p as real == a && n as real * a == v * d as real
    requires q == RoundHalfEven(n * p, d)
    ensures NearestEven(v, q, t)
  {
    hide RoundHalfEven;
    RoundHalfEvenNearest(n * p, d);
    HalfUnit(n, p, q, d, t, a, v);
    TieIsTie(n, p, q, d, t, a, v);
  }

  /** Half a unit off on the real line is half the denominator off. */
  lemma TieIsTie(n: nat, p: nat, q: nat, d: nat, t: real, a: real, v: real)
    requires t > 0.0 && d > 0 && t * p as real == a && n as real * a == v * d as real
    ensures 2.0 * (v - q as real * t) == t ==> 2 * (n * p - q * d) == d
    ensures 2.0 * (q as real * t - v) == t ==> 2 * (q * d - n * p) == d
  {
    AsReal(n, p);
    AsReal(q, d);
    TieReal(n as real, p as real, q as real, d as real, t, a, v);
    assert (n * p - q * d) as real == n as real * p as real - q as real * d as real;
  }

  lemma TieReal(n: real, p: real, q: real, d: real, t: real, a: real, v: real)
    requires t > 0.0 && d > 0.0 && t * p == a && n * a == v * d
    ensures 2.0 * (v - q * t) == t ==> 2.0 * (n * p - q * d) == d
    ensures 2.0 * (q * t - v) == t ==> 2.0 * (q * d - n * p) == d
  {
    var diff := n * p - q * d;
    assert diff * t == (v - q * t) * d by {
      assert (q * d) * t == (q * t) * d;
      assert (n * p) * t == n * a;
    }
    EqualFactor(2.0 * diff, d, v - q * t, t);
    EqualFactor(0.0 - 2.0 * diff, d, q * t - v, t);
  }

  lemma EqualFactor(x: real, d: real, y: real, t: real)
    requires t > 0.0 && x * t == (2.0 * y) * d
    ensures 2.0 * y == t ==> x == d
  {
    if 2.0 * y == t {
      CancelReal(x, d, t);
      CancelReal(d, x, t);
      assert t * d == d * t;
    }
  }

  lemma QuotientNear(s: Scaled, x: int, v: real, below: real, above: real, k: nat, q: nat)
    requires s.f.d > 0 && Stands(s, x, v, below, above)
    requires 2 * (q * s.f.d - s.f.n * Pow(10, k)) <= s.f.d && 2 * (s.f.n * Pow(10, k) - q * s.f.d) <= s.f.d
    ensures v - RPow(10, x - k) / 2.0 <= Decimal(q, x - k) <= v + RPow(10, x - k) / 2.0
  {
    hide Pow, RPow;
    RPowTimes(10, x - k, k);
    RPowStep(10, x - k);
    assert x - k + k == x;
    HalfUnit(s.f.n, Pow(10, k), q, s.f.d, RPow(10, x - k), RPow(10, x), v);
  }

  /** "10...0" with the raised exponent is the same number as 10^count at the old one. */
  lemma CarriedValue(q: nat, count: nat, z: int, read: nat, exp: int)
    requires count >= 1
    requires if q < Pow(10, count) then read == q && exp == z
             else q == Pow(10, count) && read == Pow(10, count - 1) && exp == z + 1
    ensures Decimal(read, exp) == Decimal(q, z)
  {
    RPowStep(10, z);
    PowReal(10, count - 1);
    hide Pow, RPow;
    if q >= Pow(10, count) {
      Regroup4(Pow(10, count - 1) as real, 10.0, RPow(10, z));
      Regroup3(Pow(10, count - 1) as real, 10.0, RPow(10, z));
    }
  }

  lemma HalfUnit(n: nat, p: nat, q: nat, d: nat, t: real, a: real, v: real)
    requires t > 0.0 && d > 0 && t * p as real == a && n as real * a == v * d as real
    requires 2 * (q * d - n * p) <= d && 2 * (n * p - q * d) <= d
    ensures v - t / 2.0 <= q as real * t <= v + t / 2.0
  {
    AsReal(n, p);
    AsReal(q, d);
    var diff := q as real * d as real - n as real * p as real;
    assert diff == (q * d - n * p) as real;
    NearReal(n as real, p as real, q as real, d as real, t, a, v, diff);
  }

  lemma NearReal(n: real, p: real, q: real, d: real, t: real, a: real, v: real, diff: real)
    requires t > 0.0 && d > 0.0 && t * p == a && n * a == v * d && diff == q * d - n * p
    requires -d <= 2.0 * diff <= d
    ensures v - t / 2.0 <= q * t <= v + t / 2.0
  {
    assert diff * t == (q * t - v) * d by {
      assert (q * d) * t == (q * t) * d;
      assert (n * p) * t == n * a;
    }
    CancelReal(2.0 * diff, d, t);
    CancelReal(-d, 2.0 * diff, t);
    assert (2.0 * (q * t - v)) * d == 2.0 * diff * t;
    CancelReal(2.0 * (q * t - v), t, d);
    CancelReal(-t, 2.0 * (q * t - v), d);
  }

  // ---------- The same about format_dragon's arguments ----------

  /** What the digit loop starts from in shortest mode, and the place of the first digit. */
  function Prepared(f: nat, e: int, closer: bool, estimate: int, fixup: bool): Scaled
    requires e >= 0 ==> estimate >= 0
  {
    FixedUp(Start(f, e, closer, estimate), fixup, true)
  }

  function LeadingPlace(f: nat, e: int, closer: bool, estimate: int, fixup: bool): int
    requires e >= 0 ==> estimate >= 0
  {
    if fixup && TooLarge(Start(f, e, closer, estimate)) then estimate - 1 else estimate
  }

  /** The extra bits do not move the numerator a bigit above the gap, or the power of ten
      does not stand above the gap. */
  predicate ExponentsAgree(e: int, closer: bool, estimate: int)
  {
    e < 0 || (e + Shift(closer)) / 32 == e / 32 || estimate / 32 <= e / 32
  }

  /** The bigint exponents in terms of the arguments. */
  lemma ExponentsOf(f: nat, e: int, closer: bool, exp10: int)
    requires Acceptable(f, e, closer, exp10)
    ensures var s := Start(f, e, closer, exp10);
            && s.l >= Weight(s.le) && s.f.n > s.l && s.le <= s.f.ne
            && (GapNotLowest(s) <==> ExponentsAgree(e, closer, exp10))
            && (s.le <= s.f.de <==> e < 0 || e / 32 <= exp10 / 32)
  {
    var s := Start(f, e, closer, exp10);
    assert Weight(0) == 1;
    TwoTo32();
    AboveGap(f, e, closer, exp10);
    if e >= 0 {
      LowerGapTop(e);
    } else if exp10 < 0 {
      NegativeEstimate(f, -exp10, Shift(closer), Shift(closer) - e);
      LowerGapTop(-exp10);
      PowBase(2, 10, -exp10);
    }
  }

  lemma AboveGap(f: nat, e: int, closer: bool, exp10: int)
    requires Acceptable(f, e, closer, exp10)
    ensures var s := Start(f, e, closer, exp10); s.f.n > s.l
  {
    var s := Start(f, e, closer, exp10);
    StartInGaps(f, e, closer, exp10);
    StartNumbers(f, e, closer, exp10);
    SmallShifts();
    MulMonotone(1, f, Pow(2, Shift(closer)));
    MulMonotone(2, f * Pow(2, Shift(closer)), s.l);
  }

  /** The denominator fills its lowest place in all three cases. */
  lemma StartGrounded(f: nat, e: int, closer: bool, exp10: int)
    requires Acceptable(f, e, closer, exp10)
    ensures Grounded(Start(f, e, closer, exp10).f)
  {
    var t := Shift(closer);
    hide Pow, Weight;
    StartNumbers(f, e, closer, exp10);
    PowPositive(2, t);
    if exp10 >= 0 {
      LowerGapTop(exp10);
      PowBase(2, 10, exp10);
    }
    if e >= 0 {
      TimesPositive(Pow(10, exp10), Pow(2, t), Weight(exp10 / 32));
    } else {
      LowerGapTop(t - e);
      if exp10 >= 0 {
        WeightAdd(exp10 / 32, (t - e) / 32);
        MulMonotone(Weight(exp10 / 32), Pow(10, exp10), Weight((t - e) / 32));
        MulMonotone(Weight((t - e) / 32), Pow(2, t - e), Pow(10, exp10));
      }
    }
  }

  lemma TimesPositive(x: nat, y: nat, z: nat)
    requires z <= x && y > 0
    ensures z <= x * y
  {
    MulMonotone(1, y, x);
  }

  /** Whether or not the estimate had to be lowered, what the loop starts from stands for
      f * 2^e and its rounding interval. */
  lemma PreparedStands(f: nat, e: int, closer: bool, estimate: int, fixup: bool)
    requires Acceptable(f, e, closer, estimate) && Start(f, e, closer, estimate).Ready()
    ensures var s, start := Prepared(f, e, closer, estimate, fixup), Start(f, e, closer, estimate);
            && s.Ready() && s.even == (f % 2 == 0) && s.f.n > s.l >= Weight(s.le)
            && (s.f.ne, s.f.de, s.le) == (start.f.ne, start.f.de, start.le) && Grounded(s.f)
            && (!closer ==> s.u == s.l)
            && Stands(s, LeadingPlace(f, e, closer, estimate, fixup), Exact(f, e), GapBelow(e, closer), GapAbove(e))
  {
    hide Stands, Weight, Pow;
    var start := Start(f, e, closer, estimate);
    StartStands(f, e, closer, estimate);
    StartNumbers(f, e, closer, estimate);
    StartGrounded(f, e, closer, estimate);
    ExponentsOf(f, e, closer, estimate);
    if fixup && TooLarge(start) {
      LoweredFits(start, true);
      LoweredStands(start, estimate, Exact(f, e), GapBelow(e, closer), GapAbove(e));
    }
  }

  /** Any text format_dragon produces in shortest mode reads back into the rounding
      interval of f * 2^e; for an odd significand strictly into it exactly unless the lower
      end is mistaken for inside. */
  lemma DragonRoundTrips(f: nat, e: int, closer: bool, estimate: int, fixup: bool)
    requires Acceptable(f, e, closer, estimate) && Start(f, e, closer, estimate).Ready()
    ensures var s, x := Prepared(f, e, closer, estimate, fixup), LeadingPlace(f, e, closer, estimate, fixup);
            && s.Ready()
            && var r := Decimal(Dec(Shortest(s)), x - (|Shortest(s)| - 1));
            && Within(r, Exact(f, e), GapBelow(e, closer), GapAbove(e), true)
            && (f % 2 != 0 ==>
                  (Within(r, Exact(f, e), GapBelow(e, closer), GapAbove(e), false) <==> !EndMistaken(s))
                  && (EndMistaken(s) ==> r == Exact(f, e) - GapBelow(e, closer)))
  {
    var s, x := Prepared(f, e, closer, estimate, fixup), LeadingPlace(f, e, closer, estimate, fixup);
    hide *;
    PreparedStands(f, e, closer, estimate, fixup);
    ShortestRoundTrips(s, x, Exact(f, e), GapBelow(e, closer), GapAbove(e));
  }

  /** The text has the fewest digits exactly if no number that should have ended it is
      missed. */
  lemma DragonIsShortest(f: nat, e: int, closer: bool, estimate: int, fixup: bool)
    requires Acceptable(f, e, closer, estimate) && Start(f, e, closer, estimate).Ready()
    ensures var s, x := Prepared(f, e, closer, estimate, fixup), LeadingPlace(f, e, closer, estimate, fixup);
            && s.Ready()
            && (NoneShorter(|Shortest(s)|, x, Exact(f, e), GapBelow(e, closer), GapAbove(e), f % 2 == 0)
                <==> !DigitMissed(s))
  {
    var s, x := Prepared(f, e, closer, estimate, fixup), LeadingPlace(f, e, closer, estimate, fixup);
    hide *;
    PreparedStands(f, e, closer, estimate, fixup);
    ShortestIsShortest(s, x, Exact(f, e), GapBelow(e, closer), GapAbove(e));
  }

  /** The first digit of the text is zero exactly if even the upper end of the interval is
      below one unit of its place; the fixup prevents that for an estimate that is not more
      than one too large. */
  lemma LeadingDigit(f: nat, e: int, closer: bool, estimate: int, fixup: bool)
    requires Acceptable(f, e, closer, estimate) && Start(f, e, closer, estimate).Ready()
    ensures var s, x := Prepared(f, e, closer, estimate, fixup), LeadingPlace(f, e, closer, estimate, fixup);
            && s.Ready() && 0 <= Shortest(s)[0] <= 9
            && (Shortest(s)[0] == 0 <==> EndsBelow(Exact(f, e) + GapAbove(e), RPow(10, x), f % 2 == 0))
            && (fixup && RPow(10, estimate - 1) <= Exact(f, e) ==> Shortest(s)[0] != 0)
  {
    var s, x := Prepared(f, e, closer, estimate, fixup), LeadingPlace(f, e, closer, estimate, fixup);
    var v, above := Exact(f, e), GapAbove(e);
    hide *;
    PreparedStands(f, e, closer, estimate, fixup);
    PositiveGaps(e, closer);
    FirstNotZero(s);
    UpperEnd(s, x, v, GapBelow(e, closer), above);
    PlaceKept(f, e, closer, estimate, fixup);
    StartStands(f, e, closer, estimate);
    StartEven(f, e, closer, estimate);
    StartNumbers(f, e, closer, estimate);
    UpperEnd(Start(f, e, closer, estimate), estimate, v, GapBelow(e, closer), above);
    BelowUnit(v + above, RPow(10, x), f % 2 == 0);
  }

  /** end is below unit or, if it does not belong to its interval, not above it. */
  ghost predicate EndsBelow(end: real, unit: real, closed: bool)
  {
    end < unit || (end == unit && !closed)
  }

  lemma BelowUnit(end: real, unit: real, closed: bool)
    ensures end > unit ==> !EndsBelow(end, unit, closed)
  {
  }

  lemma StartEven(f: nat, e: int, closer: bool, exp10: int)
    requires e >= 0 ==> exp10 >= 0
    ensures Start(f, e, closer, exp10).even == (f % 2 == 0)
  {
    hide Pow;
  }

  lemma PlaceKept(f: nat, e: int, closer: bool, estimate: int, fixup: bool)
    requires e >= 0 ==> estimate >= 0
    ensures var start := Start(f, e, closer, estimate);
            LeadingPlace(f, e, closer, estimate, fixup) == (if fixup && TooLarge(start) then estimate - 1 else estimate)
            && (!(fixup && TooLarge(start)) ==> Prepared(f, e, closer, estimate, fixup) == start)
  {
  }

  lemma UpperEnd(s: Scaled, x: int, v: real, below: real, above: real)
    requires s.f.d > 0 && Stands(s, x, v, below, above)
    ensures TooLarge(s) <==> EndsBelow(v + above, RPow(10, x), s.even)
  {
    hide Stands, RPow, Pow;
    EndsMean(s, x, v, below, above, 1, 0);
    ScaleOne(s);
    assert x - 0 == x;
  }

  lemma FirstNotZero(s: Scaled)
    requires s.Ready() && s.f.n > s.l
    ensures 0 <= Shortest(s)[0] <= 9 && (Shortest(s)[0] == 0 <==> TooLarge(s))
  {
    FirstDigitBound(s);
    DivRemMeans(s.f.n, s.f.d);
  }

  /** A fixed number of digits: unless a dividend is mistaken they are f * 2^e rounded to a
      multiple of one unit in the last place, halves to even; no digits at all stand for a
      multiple of one unit in the place above the leading one. */
  lemma DragonRounds(f: nat, e: int, closer: bool, estimate: int, fixup: bool, count: nat, buf: string, exp: int)
    requires Acceptable(f, e, closer, estimate)
    requires var s, x := FixedUp(Start(f, e, closer, estimate), fixup, false), LeadingPlace(f, e, closer, estimate, fixup);
             && s.f.d > 0 && IsDecimal(buf)
             && if count == 0 then Read(buf) == RoundHalfEven(s.f.n, 10 * s.f.d) && exp == x + 1
                else FixedText(s.f, count, x, buf, exp) && !Overrun(s.f, count)
    ensures var z := LeadingPlace(f, e, closer, estimate, fixup) - (count - 1);
            (exp == z || exp == z + 1) && NearestEven(Exact(f, e), Read(buf) * (if exp == z then 1 else 10), RPow(10, z))
  {
    var start, x := Start(f, e, closer, estimate), LeadingPlace(f, e, closer, estimate, fixup);
    var s := FixedUp(start, fixup, false);
    var v, below, above := Exact(f, e), GapBelow(e, closer), GapAbove(e);
    StartStands(f, e, closer, estimate);
    if fixup && TooLarge(start) {
      UnscaledStands(start, estimate, v, below, above);
      Rounds(s, x, v, below / 10.0, above / 10.0, count, buf, exp);
    } else {
      Rounds(s, x, v, below, above, count, buf, exp);
    }
  }

  lemma Rounds(s: Scaled, x: int, v: real, below: real, above: real, count: nat, buf: string, exp: int)
    requires s.f.d > 0 && IsDecimal(buf) && Stands(s, x, v, below, above)
    requires if count == 0 then Read(buf) == RoundHalfEven(s.f.n, 10 * s.f.d) && exp == x + 1
             else FixedText(s.f, count, x, buf, exp) && !Overrun(s.f, count)
    ensures var z := x - (count - 1);
            (exp == z || exp == z + 1) && NearestEven(v, Read(buf) * (if exp == z then 1 else 10), RPow(10, z))
  {
    hide Stands, RoundHalfEven, Pow, RPow, Read, NearestEven, Overrun, RoundedTo;
    if count == 0 {
      NoDigits(s, x, v, below, above, Read(buf));
    } else {
      assert RoundedTo(s.f.n, s.f.d, count, x, buf, exp);
      SomeDigits(s, x, v, below, above, count, buf, exp);
    }
  }

  lemma NoDigits(s: Scaled, x: int, v: real, below: real, above: real, q: nat)
    requires s.f.d > 0 && Stands(s, x, v, below, above) && q == RoundHalfEven(s.f.n, 10 * s.f.d)
    ensures NearestEven(v, q, RPow(10, x + 1))
  {
    hide RoundHalfEven, Pow, RPow, NearestEven, Stands;
    RPowStep(10, x);
    PlaceAbove(s, x, v, below, above, RPow(10, x + 1));
    RoundedReal(s.f.n, 1, q, 10 * s.f.d, RPow(10, x + 1), RPow(10, x + 1), v);
  }

  lemma SomeDigits(s: Scaled, x: int, v: real, below: real, above: real, count: nat, buf: string, exp: int)
    requires s.f.d > 0 && count >= 1 && Stands(s, x, v, below, above)
    requires RoundedTo(s.f.n, s.f.d, count, x, buf, exp)
    ensures var z := x - (count - 1);
            && IsDecimal(buf) && (exp == z || exp == z + 1)
            && NearestEven(v, Read(buf) * (if exp == z then 1 else 10), RPow(10, z))
  {
    TenthDigit(count);
    hide RoundHalfEven, Pow, RPow, Read, NearestEven, Stands;
    QuotientNearestEven(s, x, v, below, above, count - 1, RoundHalfEven(s.f.n * Pow(10, count - 1), s.f.d));
  }

  lemma TenthDigit(count: nat)
    requires count >= 1
    ensures Pow(10, count) == 10 * Pow(10, count - 1)
  {
  }

  lemma PlaceAbove(s: Scaled, x: int, v: real, below: real, above: real, unit: real)
    requires Stands(s, x, v, below, above) && unit == 10.0 * RPow(10, x)
    ensures s.f.n as real * unit == v * (10 * s.f.d) as real
  {
    hide RPow;
    assert (10 * s.f.d) as real == 10.0 * s.f.d as real;
    assert s.f.n as real * unit == 10.0 * (s.f.n as real * RPow(10, x));
    assert v * (10.0 * s.f.d as real) == 10.0 * (v * s.f.d as real);
  }

  lemma ReadyPositive(s: Scaled)
    requires s.Ready()
    ensures s.f.d > 0
  {
  }

  /** Where the exponents agree nothing is mistaken and nothing strictly inside is missed; an
      end of an even significand's interval may be missed only if the gap's exponent is above
      the power of ten's. */
  lemma DragonRight(f: nat, e: int, closer: bool, estimate: int, fixup: bool)
    requires Acceptable(f, e, closer, estimate) && Start(f, e, closer, estimate).Ready()
    requires ExponentsAgree(e, closer, estimate)
    ensures var s, x := Prepared(f, e, closer, estimate, fixup), LeadingPlace(f, e, closer, estimate, fixup);
            && s.Ready() && !EndMistaken(s)
            && NoneShorter(|Shortest(s)|, x, Exact(f, e), GapBelow(e, closer), GapAbove(e), false)
            && (f % 2 != 0 || e < 0 || e / 32 <= estimate / 32 ==> !DigitMissed(s))
  {
    var s, x := Prepared(f, e, closer, estimate, fixup), LeadingPlace(f, e, closer, estimate, fixup);
    var start := Start(f, e, closer, estimate);
    hide *;
    PreparedStands(f, e, closer, estimate, fixup);
    ExponentsOf(f, e, closer, estimate);
    SameExponents(start, s);
    ReadyPositive(s);
    ExponentsSuffice(s);
    NothingInsideMeans(s, x, Exact(f, e), GapBelow(e, closer), GapAbove(e), |Shortest(s)|, false);
  }

  lemma SameExponents(start: Scaled, s: Scaled)
    requires GapNotLowest(start) && (s.f.ne, s.f.de, s.le) == (start.f.ne, start.f.de, start.le) && s.l >= Weight(s.le)
    ensures GapNotLowest(s)
  {
  }

  /** For a significand of 64 bits they always agree, as long as the estimate is not more
      than one too large. */
  lemma SixtyFourBitsAgree(f: nat, e: int, closer: bool, estimate: int)
    requires f < UINT64 && (e >= 0 ==> estimate >= 0 && Pow(10, estimate) <= 10 * (f * Pow(2, e)))
    ensures ExponentsAgree(e, closer, estimate)
  {
    if !ExponentsAgree(e, closer, estimate) {
      var m := estimate - 1;
      assert m >= e && m >= 31;
      assert Pow(10, m + 1) == 10 * Pow(10, m);
      PowProduct(2, 5, m);
      PowMonotone(2, e, m);
      PowPositive(2, e);
      FivePower(m);
      hide *;
      MulMonotone(Pow(2, e), Pow(2, m), Pow(5, m));
      MulCancel(f, Pow(5, m), Pow(2, e));
    }
  }

  lemma FivePower(m: nat)
    requires m >= 31
    ensures Pow(5, m) > UINT64
  {
    assert Pow(5, 1) == 5 && Pow(5, 5) == 3125;
    PowAdd(5, 5, 5);
    PowAdd(5, 10, 10);
    PowAdd(5, 20, 10);
    PowAdd(5, 30, 1);
    PowMonotone(5, 31, m);
  }

  // ---------- A fixed precision that becomes negative ----------

  /** All places asked for are above the leading digit by more than one, so that nothing
      should be printed; but the shortest mode is taken with gaps that may not have been
      scaled, and prints a number that is not zero, somewhere in the rounding interval. */
  lemma NegativePrecision(f: nat, e: int, closer: bool, estimate: int, precision: int)
    requires Acceptable(f, e, closer, estimate) && Start(f, e, closer, estimate).Ready()
    requires var place := LeadingPlace(f, e, closer, estimate, true);
             precision >= 0 && precision + place + 1 < 0
    ensures NearestEven(Exact(f, e), 0, RPow(10, -precision))
    ensures var s := FixedUp(Start(f, e, closer, estimate), true, false);
            && s.Ready() && |Shortest(s)| >= 1
            && var r := Decimal(Dec(Shortest(s)), LeadingPlace(f, e, closer, estimate, true) - (|Shortest(s)| - 1));
            r > 0.0 && Within(r, Exact(f, e), GapBelow(e, closer), GapAbove(e), true)
  {
    var start := Start(f, e, closer, estimate);
    StartStands(f, e, closer, estimate);
    StartNumbers(f, e, closer, estimate);
    ExponentsOf(f, e, closer, estimate);
    PositiveGaps(e, closer);
    hide Start, Exact, GapBelow, GapAbove, Stands, RPow, Pow, Shortest, Dec, Within, NearestEven;
    UnscaledPrints(start, estimate, Exact(f, e), GapBelow(e, closer), GapAbove(e));
    NothingLeft(start, estimate, Exact(f, e), GapBelow(e, closer), GapAbove(e), -precision);
  }

  lemma UnscaledPrints(start: Scaled, estimate: int, v: real, below: real, above: real)
    requires start.Ready() && start.f.n > start.l && Stands(start, estimate, v, below, above) && below > 0.0 && above > 0.0
    ensures var s, x := FixedUp(start, true, false), if TooLarge(start) then estimate - 1 else estimate;
            && s.Ready()
            && var r := Decimal(Dec(Shortest(s)), x - (|Shortest(s)| - 1)); r > 0.0 && Within(r, v, below, above, true)
  {
    hide Stands, RPow, Pow, Shortest, Dec, Within;
    if TooLarge(start) {
      LoweredFits(start, false);
      UnscaledStands(start, estimate, v, below, above);
      var s := Lowered(start, false);
      PrintedPositive(s, estimate - 1, v, below / 10.0, above / 10.0);
      WiderInterval(Decimal(Dec(Shortest(s)), estimate - 1 - (|Shortest(s)| - 1)), v, below, above);
    } else {
      PrintedPositive(start, estimate, v, below, above);
    }
  }

  lemma PositiveGaps(e: int, closer: bool)
    ensures GapBelow(e, closer) > 0.0 && GapAbove(e) > 0.0
  {
    RPowStep(2, e);
    hide RPow;
  }

  lemma WiderInterval(r: real, v: real, below: real, above: real)
    requires Within(r, v, below / 10.0, above / 10.0, true) && below > 0.0 && above > 0.0
    ensures Within(r, v, below, above, true)
  {
  }

  /** Lowering without scaling the gaps leaves them at a tenth. */
  lemma UnscaledStands(s: Scaled, x: int, v: real, below: real, above: real)
    requires Stands(s, x, v, below, above)
    ensures Stands(Lowered(s, false), x - 1, v, below / 10.0, above / 10.0)
  {
    hide RPow;
    RPowStep(10, x - 1);
    var a, b := RPow(10, x), RPow(10, x - 1);
    TenBack(s.f.n as real, a, b);
    AsReal(10, s.f.n);
    Tenth(s.l as real, a, b, below, s.f.d as real);
    Tenth(s.u as real, a, b, above, s.f.d as real);
  }

  lemma Tenth(l: real, a: real, b: real, gap: real, d: real)
    requires l * a == gap * d && a == 10.0 * b
    ensures l * b == (gap / 10.0) * d
  {
  }

  lemma PrintedPositive(s: Scaled, x: int, v: real, below: real, above: real)
    requires s.Ready() && s.f.n > s.l && Stands(s, x, v, below, above)
    ensures var r := Decimal(Dec(Shortest(s)), x - (|Shortest(s)| - 1));
            r > 0.0 && Within(r, v, below, above, true)
  {
    hide Shortest, Dec, Pow, RPow, Stands, Within;
    var ds := Shortest(s);
    ShortestSound(s);
    InsideMeans(s, x, v, below, above, Dec(ds), |ds| - 1, true);
    PowPositive(10, |ds| - 1);
    MulPositive(s.f.n - s.l, Pow(10, |ds| - 1));
    PositiveFactor(Dec(ds), s.f.d);
    RPowStep(10, x - (|ds| - 1));
    PositiveProduct(Dec(ds) as real, RPow(10, x - (|ds| - 1)));
  }

  lemma PositiveFactor(x: nat, d: nat)
    requires x * d > 0
    ensures x > 0
  {
  }

  /** The number is below half a unit of the last place asked for. */
  lemma NothingLeft(s: Scaled, x: int, v: real, below: real, above: real, last: int)
    requires s.Ready() && Stands(s, x, v, below, above)
    requires last >= (if TooLarge(s) then x - 1 else x) + 2
    ensures NearestEven(v, 0, RPow(10, last))
  {
    hide RPow;
    RPowStep(10, x - 1);
    RPowStep(10, x);
    RPowStep(10, x + 1);
    BelowTen(s.f.n, s.f.d, v, RPow(10, x));
    if TooLarge(s) {
      RPowMonotone(10, x + 1, last);
      BelowOne(s.f.n, s.f.d, v, RPow(10, x));
    } else {
      RPowMonotone(10, x + 2, last);
    }
  }

  lemma BelowOne(n: nat, d: nat, v: real, a: real)
    requires d > 0 && a > 0.0 && n < d && n as real * a == v * d as real
    ensures v < a
  {
    CancelReal(d as real, n as real, a);
    CancelReal(a, v, d as real);
    assert d as real * a == a * d as real;
  }

  lemma BelowTen(n: nat, d: nat, v: real, a: real)
    requires d > 0 && a > 0.0 && n < 10 * d && n as real * a == v * d as real
    ensures 0.0 <= v < 10.0 * a
  {
    assert n as real < 10.0 * d as real;
    BelowTenReal(n as real, d as real, v, a);
  }

  lemma BelowTenReal(n: real, d: real, v: real, a: real)
    requires d > 0.0 && a > 0.0 && 0.0 <= n < 10.0 * d && n * a == v * d
    ensures 0.0 <= v < 10.0 * a
  {
    TimesNonNegative(0.0, n, a);
    CancelReal(n, 10.0 * d, a);
    SwapFactors(10.0, d, a);
    CancelReal(v, 10.0 * a, d);
    CancelReal(0.0, v, d);
  }
}
