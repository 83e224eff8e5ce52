/** The shortest mode of format_dragon prints a number nearest to f * 2^e among those of its
    length in the rounding interval, whether or not the predecessor is closer. */
module DragonNearest {
  import opened MachineInts
  import opened Powers
  import opened RealPowers
  import opened Limbs
  import opened Decimals
  import opened DigitGeneration
  import opened ShortestExact
  import opened NearestInside
  import opened Dragon
  import opened DragonMeaning
  import opened TenPowers

  function Far(w: int, place: int, v: real): real
  {
    var r := Decimal(w, place);
    if r < v then v - r else r - v
  }

  /** Of all numbers with that last place in the interval w is nearest to v; of two that are
      equally near it is the even one. */
  ghost predicate NearestWithin(w: int, place: int, v: real, below: real, above: real, closed: bool)
  {
    forall m: int :: Within(Decimal(m, place), v, below, above, closed) ==> NotFarther(w, m, place, v)
  }

  ghost predicate NotFarther(w: int, m: int, place: int, v: real)
  {
    Far(w, place, v) < Far(m, place, v) || m == w || (Far(w, place, v) == Far(m, place, v) && w % 2 == 0)
  }

  // ---------- Distances on the real line ----------

  lemma FarMeans(s: Scaled, x: int, v: real, below: real, above: real, k: nat, w: int)
    requires s.f.d > 0 && Stands(s, x, v, below, above)
    ensures Distance(s, w, Pow(10, k)) as real * RPow(10, x - k) == Far(w, x - k, v) * s.f.d as real
  {
    hide Pow, RPow;
    RPowTimes(10, x - k, k);
    RPowStep(10, x - k);
    assert x - k + k == x;
    OffMeans(s.f.n, Pow(10, k), w, s.f.d, RPow(10, x - k), RPow(10, x), v);
  }

  lemma OffMeans(n: nat, p: nat, w: int, d: nat, t: real, a: real, v: real)
    requires t > 0.0 && d > 0 && t * p as real == a && n as real * a == v * d as real
    ensures Off(w * d - n * p) as real * t
            == (if w as real * t < v then v - w as real * t else w as real * t - v) * d as real
  {
    AsReal(n, p);
    AsReal(w, d);
    var diff := w * d - n * p;
    assert diff as real == w as real * d as real - n as real * p as real;
    Differences(n as real, p as real, w as real, d as real, t, a, v, diff as real);
    SignedOff(diff, w as real * t - v, t, d as real);
  }

  lemma Differences(n: real, p: real, w: real, d: real, t: real, a: real, v: real, diff: real)
    requires t * p == a && n * a == v * d && diff == w * d - n * p
    ensures diff * t == (w * t - v) * d
  {
    assert (w * d) * t == (w * t) * d;
    assert (n * p) * t == n * a;
  }

  lemma SignedOff(diff: int, y: real, t: real, d: real)
    requires t > 0.0 && d > 0.0 && diff as real * t == y * d
    ensures Off(diff) as real * t == (if y < 0.0 then 0.0 - y else y) * d
  {
    CancelReal(diff as real, 0.0, t);
    CancelReal(y, 0.0, d);
    if diff < 0 {
      assert (0.0 - diff as real) * t == 0.0 - diff as real * t;
      assert (0.0 - y) * d == 0.0 - y * d;
    }
  }

  lemma SameOrderFar(x: nat, y: nat, t: real, d: nat, a: real, b: real)
    requires t > 0.0 && d > 0 && x as real * t == a * d as real && y as real * t == b * d as real
    ensures (x < y <==> a < b) && (x == y <==> a == b)
  {
    CancelReal(x as real, y as real, t);
    CancelReal(y as real, x as real, t);
    CancelReal(a, b, d as real);
    CancelReal(b, a, d as real);
  }

  lemma NearerMeans(s: Scaled, x: int, v: real, below: real, above: real, k: nat, w: int, m: int)
    requires s.f.d > 0 && Stands(s, x, v, below, above)
    ensures !Better(s, m, w, Pow(10, k)) <==> NotFarther(w, m, x - k, v)
  {
    hide *;
    FarMeans(s, x, v, below, above, k, w);
    FarMeans(s, x, v, below, above, k, m);
    RPowStep(10, x - k);
    BetterOrder(s, m, w, Pow(10, k), x - k, v);
    SameOrderFar(Distance(s, m, Pow(10, k)), Distance(s, w, Pow(10, k)), RPow(10, x - k), s.f.d,
                 Far(m, x - k, v), Far(w, x - k, v));
  }

  lemma BetterOrder(s: Scaled, m: int, w: int, p: int, place: int, v: real)
    ensures (Distance(s, m, p) < Distance(s, w, p) <==> Far(m, place, v) < Far(w, place, v))
            && (Distance(s, m, p) == Distance(s, w, p) <==> Far(m, place, v) == Far(w, place, v))
            ==> (!Better(s, m, w, p) <==> NotFarther(w, m, place, v))
  {
    hide Distance, Far;
  }

  lemma NearestMeans(s: Scaled, x: int, v: real, below: real, above: real, k: nat, w: int)
    requires s.f.d > 0 && Stands(s, x, v, below, above)
    ensures NoneNearer(s, w, Pow(10, k)) <==> NearestWithin(w, x - k, v, below, above, s.even)
  {
    hide Better, NotFarther, Within, Scaled.Inside, Stands, Pow;
    var place := x - k;
    if NoneNearer(s, w, Pow(10, k)) {
      forall m: int | Within(Decimal(m, place), v, below, above, s.even) ensures NotFarther(w, m, place, v) {
        NearerMeans(s, x, v, below, above, k, w, m);
        InsideMeans(s, x, v, below, above, m, k, s.even);
        assert s.Inside(m, Pow(10, k), s.even);
      }
    }
    if NearestWithin(w, x - k, v, below, above, s.even) {
      forall m: int | s.Inside(m, Pow(10, k), s.even) ensures !Better(s, m, w, Pow(10, k)) {
        NearerMeans(s, x, v, below, above, k, w, m);
        InsideMeans(s, x, v, below, above, m, k, s.even);
        assert Within(Decimal(m, x - k), v, below, above, s.even);
      }
    }
  }

  // ---------- In terms of format_dragon's arguments ----------

  /** The text is a nearest number of its length in the rounding interval exactly if none is
      missed at the last place; with equal half-gaps it is a nearest number of its length. */
  lemma DragonIsNearest(f: nat, e: int, closer: bool, estimate: int, fixup: bool)
    requires Acceptable(f, e, closer, estimate) && Start(f, e, closer, estimate).Ready()
    ensures var s, x := Prepared(f, e, closer, estimate, fixup), LeadingPlace(f, e, closer, estimate, fixup);
            && s.Ready()
            && var w, z := Dec(Shortest(s)), x - (|Shortest(s)| - 1);
            && (NearestWithin(w, z, Exact(f, e), GapBelow(e, closer), GapAbove(e), f % 2 == 0) <==> !NearestMissed(s))
            && (!closer ==> Exact(f, e) - RPow(10, z) / 2.0 <= Decimal(w, z) <= Exact(f, e) + RPow(10, z) / 2.0)
  {
    var s, x := Prepared(f, e, closer, estimate, fixup), LeadingPlace(f, e, closer, estimate, fixup);
    hide *;
    PreparedStands(f, e, closer, estimate, fixup);
    ReadyPositive(s);
    ShortestNearestInside(s);
    var k := |Shortest(s)| - 1;
    NearestMeans(s, x, Exact(f, e), GapBelow(e, closer), GapAbove(e), k, Dec(Shortest(s)));
    if !closer {
      ShortestNearest(s);
      QuotientNear(s, x, Exact(f, e), GapBelow(e, closer), GapAbove(e), k, Dec(Shortest(s)));
    }
  }

  /** Nothing is missed where the exponents agree. */
  lemma AgreeingNearest(f: nat, e: int, closer: bool, estimate: int, fixup: bool)
    requires Acceptable(f, e, closer, estimate) && Start(f, e, closer, estimate).Ready()
    requires ExponentsAgree(e, closer, estimate) && (e < 0 || e / 32 <= estimate / 32)
    ensures var s := Prepared(f, e, closer, estimate, fixup); s.Ready() && !NearestMissed(s)
  {
    var s, start := Prepared(f, e, closer, estimate, fixup), Start(f, e, closer, estimate);
    hide *;
    PreparedStands(f, e, closer, estimate, fixup);
    ExponentsOf(f, e, closer, estimate);
    SameExponents(start, s);
    NoneMissed(s);
  }

  /** Nor for the significands of any binary format, where only a power of two has a closer
      predecessor. */
  lemma FormatsNearest(f: nat, e: int, closer: bool, a: nat, estimate: int, fixup: bool)
    requires Acceptable(f, e, closer, estimate) && Start(f, e, closer, estimate).Ready()
    requires closer ==> f == Pow(2, a)
    ensures var s := Prepared(f, e, closer, estimate, fixup); s.Ready() && !NearestMissed(s)
  {
    var s := Prepared(f, e, closer, estimate, fixup);
    hide *;
    PreparedStands(f, e, closer, estimate, fixup);
    if ExponentsAgree(e, closer, estimate) && (e < 0 || e / 32 <= estimate / 32) {
      AgreeingNearest(f, e, closer, estimate, fixup);
    } else {
      ArgumentsOf(f, e, closer, estimate);
      LargeExponent(e, closer, estimate);
      if closer {
        PowerNearest(f, a, e, estimate, fixup);
      } else {
        EqualNearest(f, e, estimate, fixup);
      }
    }
  }

  lemma LargeExponent(e: int, closer: bool, estimate: int)
    requires !(ExponentsAgree(e, closer, estimate) && (e < 0 || e / 32 <= estimate / 32))
    requires e >= 0 ==> estimate >= 0
    ensures e >= 1
  {
  }

  /** What the digit loop starts from for e >= 0: lowering the estimate multiplies by ten. */
  ghost predicate Numbers(s: Scaled, f: nat, e: nat, closer: bool, estimate: nat, c: nat)
  {
    && s.f.n == Pow(10, c) * (f * Pow(2, e + Shift(closer))) && s.l == Pow(10, c) * Pow(2, e)
    && s.f.d == Pow(10, estimate) * Pow(2, Shift(closer)) && s.le == e / 32
    && s.f.ne == (e + Shift(closer)) / 32 && s.f.de == estimate / 32
  }

  lemma PreparedNumbers(f: nat, e: nat, closer: bool, estimate: nat, fixup: bool) returns (c: nat)
    ensures Numbers(Prepared(f, e, closer, estimate, fixup), f, e, closer, estimate, c)
  {
    hide Pow;
    assert Pow(10, 0) == 1 && Pow(10, 1) == 10 by { PowOne(); }
    c := if fixup && TooLarge(Start(f, e, closer, estimate)) then 1 else 0;
  }

  lemma PowOne()
    ensures Pow(10, 0) == 1 && Pow(10, 1) == 10
  {
  }

  // ---------- Equal half-gaps ----------

  lemma EqualNearest(f: nat, e: nat, estimate: int, fixup: bool)
    requires Acceptable(f, e, false, estimate) && Start(f, e, false, estimate).Ready() && e >= 1
    ensures var s := Prepared(f, e, false, estimate, fixup); s.Ready() && !NearestMissed(s)
  {
    var s := Prepared(f, e, false, estimate, fixup);
    hide *;
    PreparedStands(f, e, false, estimate, fixup);
    ArgumentsOf(f, e, false, estimate);
    var c := PreparedNumbers(f, e, false, estimate, fixup);
    forall j: nat ensures !HalfGap(s, j) {
      NoHalfGap(s, f, c, e, estimate, j);
    }
    EqualGaps(s);
  }

  lemma NoHalfGap(s: Scaled, f: nat, c: nat, e: nat, x: nat, j: nat)
    requires Numbers(s, f, e, false, x, c) && e >= 1
    ensures !HalfGap(s, j)
  {
    SmallShifts();
    PowAdd(10, c, j);
    hide Pow;
    ProductOfThree(Pow(10, c), Pow(2, e), Pow(10, j));
    if Pow(2, e) * Pow(10, c + j) == Pow(10, x) {
      TwosTimesTens(e, c + j, x);
    }
  }

  lemma ProductOfThree(a: int, b: int, c: int)
    ensures (a * b) * c == b * (a * c)
  {
  }

  lemma TwosTimesTens(e: nat, j: nat, x: nat)
    requires e >= 1
    ensures Pow(2, e) * Pow(10, j) != Pow(10, x)
  {
    PowStrict(2, 0, e);
    assert Pow(2, 0) == 1;
    PowPositive(10, j);
    hide Pow;
    if x <= j {
      PowMonotone(10, x, j);
      MulStrict(1, Pow(2, e), Pow(10, j));
    } else {
      PowAdd(10, x - j, j);
      assert x - j + j == x;
      MulCancel(Pow(2, e), Pow(10, x - j), Pow(10, j));
      NoTwosAreTens(e, x - j);
    }
  }

  // ---------- A power of two ----------

  lemma PowerNearest(f: nat, a: nat, e: nat, estimate: int, fixup: bool)
    requires f == Pow(2, a) && Acceptable(f, e, true, estimate) && Start(f, e, true, estimate).Ready()
    requires !(ExponentsAgree(e, true, estimate) && e / 32 <= estimate / 32)
    ensures var s := Prepared(f, e, true, estimate, fixup); s.Ready() && !NearestMissed(s)
  {
    var s, start := Prepared(f, e, true, estimate, fixup), Start(f, e, true, estimate);
    hide *;
    PreparedStands(f, e, true, estimate, fixup);
    ArgumentsOf(f, e, true, estimate);
    ExponentsOf(f, e, true, estimate);
    var c := PreparedNumbers(f, e, true, estimate, fixup);
    AgreeParts(e, estimate);
    if GapNotLowest(start) {
      SameExponents(start, s);
    }
    var k := |Shortest(s)| - 1;
    MissedIs(s);
    if OverlooksAt(s, k) {
      var w := OverlookedAt(s, k);
      PowerPlace(s, f, a, e, estimate, c, k, w);
    }
  }

  lemma MissedIs(s: Scaled)
    requires s.Ready()
    ensures NearestMissed(s) <==> OverlooksAt(s, |Shortest(s)| - 1)
  {
  }

  lemma PowerPlace(s: Scaled, f: nat, a: nat, e: nat, x: nat, c: nat, k: nat, w: int)
    requires s.Ready() && s.f.n > s.l && f == Pow(2, a) < UINT128 && Numbers(s, f, e, true, x, c)
    requires if e / 32 > x / 32 then GapNotLowest(s) else x / 32 > e / 32
    ensures !Overlooked(s, k, w)
  {
    hide Pow, Weight, GapNotLowest, Overlooked, Numbers;
    if Overlooked(s, k, w) {
      NumbersExponents(s, f, e, x, c);
      if e / 32 > x / 32 {
        OverlookedEnd(s, k, w);
        NotTheEnd(s, f, a, e, x, c, k, w);
      } else {
        OverlookedZero(s, k, w);
        NotTheNumber(s, f, a, e, x, c, k, w);
      }
    }
  }

  lemma NumbersExponents(s: Scaled, f: nat, e: nat, x: nat, c: nat)
    requires Numbers(s, f, e, true, x, c)
    ensures s.le == e / 32 <= s.f.ne && s.f.de == x / 32
  {
    hide Pow;
  }

  lemma OverlookedAt(s: Scaled, k: nat) returns (w: int)
    requires OverlooksAt(s, k)
    ensures Overlooked(s, k, w)
  {
    w :| Overlooked(s, k, w);
  }

  lemma AgreeParts(e: nat, estimate: int)
    requires !(ExponentsAgree(e, true, estimate) && e / 32 <= estimate / 32)
    ensures if e / 32 > estimate / 32 then ExponentsAgree(e, true, estimate) else estimate / 32 > e / 32
  {
  }

  lemma OverlookedEnd(s: Scaled, k: nat, w: int)
    requires s.Ready() && s.f.n > s.l && GapNotLowest(s) && s.le <= s.f.ne && Overlooked(s, k, w)
    ensures (s.f.n - s.l) * Pow(10, k) == w * s.f.d && 2 * (s.l * Pow(10, k)) <= s.f.d
  {
    hide Pow;
    if s.f.n * Pow(10, k) == w * s.f.d && s.l * Pow(10, k) < Weight(ExpAt(s, k)) {
      NotMissedNumber(s, k, w);
    }
    hide ExpAt, Weight;
    assert (s.f.n - s.l) * Pow(10, k) == s.f.n * Pow(10, k) - s.l * Pow(10, k);
  }

  lemma NotMissedNumber(s: Scaled, k: nat, w: int)
    requires s.Ready() && s.f.n > s.l && GapNotLowest(s) && s.f.n * Pow(10, k) == w * s.f.d
    ensures s.l * Pow(10, k) >= Weight(ExpAt(s, k))
  {
    PowPositive(10, k);
    MulMonotone(1, Pow(10, k), s.l);
    if ExpAt(s, k) > s.le {
      ExpBelowGap(s, k);
      hide Pow, ExpAt, Weight;
      NoMultiple(s.f.n, s.f.n, Pow(10, k), w, s.f.d);
    } else {
      WeightMonotone(ExpAt(s, k), s.le);
    }
  }

  lemma OverlookedZero(s: Scaled, k: nat, w: int)
    requires s.le <= s.f.ne && s.le <= s.f.de && Overlooked(s, k, w)
    ensures s.f.n * Pow(10, k) == w * s.f.d
    ensures s.l * Pow(10, k) < Weight(s.f.ne) || s.l * Pow(10, k) < Weight(s.f.de)
  {
    hide Pow, Weight;
  }

  // ---------- The number itself ----------

  /** 2^(a + e) with its last digit at the place: then the gap is not below a bigit there. */
  lemma NotTheNumber(s: Scaled, f: nat, a: nat, e: nat, x: nat, c: nat, k: nat, w: int)
    requires Numbers(s, f, e, true, x, c) && f == Pow(2, a) && x / 32 > e / 32
    requires s.f.n * Pow(10, k) == w * s.f.d
    ensures s.l * Pow(10, k) >= Weight(s.f.ne) && s.l * Pow(10, k) >= Weight(s.f.de)
  {
    PowAdd(10, c, k);
    PowAdd(2, a, e + 2);
    PowAdd(2, a + e, 2);
    PowAdd(2, e, 2);
    SmallShifts();
    hide Pow, Weight;
    var j := c + k;
    WithoutFour(Pow(10, c), Pow(2, a + e), Pow(10, k), w, Pow(10, x));
    ProductOfThree(Pow(10, c), Pow(2, e), Pow(10, k));
    if j < x {
      TensDivide(a + e, j, x, w);
    } else {
      LowerGapTop(e + 2);
      LowerGapTop(x);
      PowBase(2, 10, x);
      PowMonotone(10, x, j);
      PowMonotone(10, 1, x);
      PowOne();
      PowPositive(2, e);
      MulMonotone(10, Pow(10, j), Pow(2, e));
      MulMonotone(1, Pow(2, e), Pow(10, j));
    }
  }

  lemma WithoutFour(p: int, t: int, q: int, w: int, x: int)
    requires (p * (t * 4)) * q == w * (x * 4)
    ensures t * (p * q) == w * x
  {
    assert (p * (t * 4)) * q == (t * (p * q)) * 4;
    assert w * (x * 4) == (w * x) * 4;
  }

  lemma TensDivide(n: nat, j: nat, x: nat, w: int)
    requires j < x
    ensures Pow(2, n) * Pow(10, j) != w * Pow(10, x)
  {
    TwosByFive(n);
    PowAdd(10, x - j, j);
    PowPositive(10, j);
    var p := Pow(10, x - j - 1);
    assert Pow(10, x - j) == 10 * p;
    hide Pow;
    assert x - j + j == x;
    MulAssoc(w, 10 * p, Pow(10, j));
    MulCancel(Pow(2, n), w * (10 * p), Pow(10, j));
    ByFive(w, p);
  }

  lemma ByFive(w: int, p: int)
    ensures (w * (10 * p)) % 5 == 0
  {
    assert w * (10 * p) == 5 * (w * (2 * p));
  }

  // ---------- The lower end ----------

  /** The lower end (2^(a + 2) - 1) * 2^(e - 2) has no zero at the ten places and more that a
      gap below half a unit would take. */
  lemma NotTheEnd(s: Scaled, f: nat, a: nat, e: nat, x: nat, c: nat, k: nat, w: int)
    requires Numbers(s, f, e, true, x, c) && f == Pow(2, a) < UINT128 && e >= 32
    requires (s.f.n - s.l) * Pow(10, k) == w * s.f.d
    ensures 2 * (s.l * Pow(10, k)) > s.f.d
  {
    hide Pow;
    PowAdd(10, c, k);
    PowAdd(2, a, e + 2);
    PowAdd(2, a + 2, e);
    SmallShifts();
    var j, y := c + k, Pow(2, a + 2) - 1;
    ProductOfThree(Pow(10, c), Pow(2, e), Pow(10, k));
    EndProduct(Pow(10, c), Pow(2, a + 2), Pow(2, e), Pow(10, k), w, Pow(10, x));
    if 2 * (s.l * Pow(10, k)) <= s.f.d {
      PlacesBelow(e, j, x);
      EndZeros(y, e, j, x, 4 * w);
      SmallPower(a);
      NoFives(a + 2);
    }
  }

  lemma EndZeros(y: int, e: nat, j: nat, x: nat, w: int)
    requires (y * Pow(2, e)) * Pow(10, j) == w * Pow(10, x) && x >= j + 4
    ensures y % 625 == 0
  {
    hide *;
    PowAdd(10, x - j, j);
    assert x - j + j == x;
    MulAssoc(w, Pow(10, x - j), Pow(10, j));
    PowPositive(10, j);
    MulCancel(y * Pow(2, e), w * Pow(10, x - j), Pow(10, j));
    ByFives(w, x - j);
    StripTwos(y, e);
  }

  lemma EndProduct(p: int, f: int, t: int, q: int, w: int, x: int)
    requires (p * (f * t) - p * t) * q == w * (x * 4)
    ensures ((f - 1) * t) * (p * q) == (4 * w) * x
  {
    assert p * (f * t) - p * t == p * ((f - 1) * t);
    assert (p * ((f - 1) * t)) * q == ((f - 1) * t) * (p * q);
    assert w * (x * 4) == (4 * w) * x;
  }

  lemma PlacesBelow(e: nat, j: nat, x: nat)
    requires e >= 32 && 2 * (Pow(2, e) * Pow(10, j)) <= Pow(10, x) * 4
    ensures x >= j + 4
  {
    PowMonotone(2, 32, e);
    TwoTo32();
    PowPositive(10, j);
    PowThree();
    PowAdd(10, j, 3);
    hide Pow;
    MuchBelow(Pow(2, e), Pow(10, j), Pow(10, x));
    if x < j + 4 {
      PowMonotone(10, x, j + 3);
    }
  }

  lemma MuchBelow(a: int, p: int, x: int)
    requires a >= 0x1_0000_0000 && p > 0 && 2 * (a * p) <= x * 4
    ensures x > p * 1000
  {
    MulMonotone(0x1_0000_0000, a, p);
  }

  lemma PowThree()
    ensures Pow(10, 3) == 1000
  {
    assert Pow(10, 1) == 10 && Pow(10, 2) == 100;
  }

  lemma ByFives(w: int, m: nat)
    requires m >= 4
    ensures (w * Pow(10, m)) % 625 == 0
  {
    PowAdd(10, 4, m - 4);
    PowThree();
    assert Pow(10, 4) == 10 * Pow(10, 3);
    hide Pow;
    assert 4 + (m - 4) == m;
    var p := Pow(10, m - 4);
    ManyFives(w, p);
  }

  lemma ManyFives(w: int, p: int)
    ensures (w * (10000 * p)) % 625 == 0
  {
    assert w * (10000 * p) == 10000 * (w * p);
    InFives(w * p);
  }

  lemma InFives(z: int)
    ensures (10000 * z) % 625 == 0
  {
  }

  lemma {:induction false} StripTwos(y: int, e: nat)
    requires (y * Pow(2, e)) % 625 == 0
    ensures y % 625 == 0
  {
    if e > 0 {
      assert y * Pow(2, e) == 2 * (y * Pow(2, e - 1));
      StripTwos(y, e - 1);
    }
  }

  lemma SmallPower(a: nat)
    requires Pow(2, a) < UINT128
    ensures a < 128
  {
    if a >= 128 {
      PowMonotone(2, 128, a);
      TwoTo32();
      PowAdd(2, 32, 32);
      PowAdd(2, 64, 64);
    }
  }

  /** 5^4 divides 2^n - 1 for no n from 1 to 199, in fact for none below 500. */
  lemma NoFives(n: nat)
    requires 1 <= n < 200
    ensures (Pow(2, n) - 1) % 625 != 0
  {
    hide *;
    if (Pow(2, n) - 1) % 625 == 0 {
      Remainders(Pow(2, n) - 1);
      var i := FourDivides(n);
      SixteenToFive();
      PowPow(2, 4, i);
      var t := FiveDivides(i);
      PowPow(2, 20, t);
      var h := FiveDividesAgain(t);
      assert n == 100 * h;
      TwoTo100();
    }
  }

  lemma Remainders(p: int)
    requires p % 625 == 0
    ensures p % 5 == 0 && p % 25 == 0 && p % 125 == 0
  {
    assert p == 625 * (p / 625);
  }

  lemma FiveDivides(i: nat) returns (t: nat)
    requires (Pow(16, i) - 1) % 25 == 0
    ensures i == 5 * t
  {
    ModTwentyFive(i);
    Fives((Pow(16, i) - 1) / 25, i, (Pow(16, i) - 1 - 15 * i) / 25);
    t := i / 5;
  }

  lemma FiveDividesAgain(t: nat) returns (h: nat)
    requires (Pow(1048576, t) - 1) % 125 == 0
    ensures t == 5 * h
  {
    ModHundredTwentyFive(t);
    Fives((Pow(1048576, t) - 1) / 125, t, (Pow(1048576, t) - 1 - 75 * t) / 125);
    h := t / 5;
  }

  lemma Fives(k: int, i: int, a: int)
    ensures 3 * i == 5 * (k - a) ==> i % 5 == 0
  {
    if 3 * i == 5 * (k - a) {
      assert i == 5 * (2 * (k - a) - i);
    }
  }

  lemma SixteenToFive()
    ensures Pow(2, 4) == 16 && Pow(2, 20) == 1048576
  {
    assert Pow(2, 4) == 16;
    PowAdd(2, 4, 4);
    PowAdd(2, 8, 8);
    PowAdd(2, 16, 4);
  }

  lemma {:induction false} FourDivides(n: nat) returns (i: nat)
    requires (Pow(2, n) - 1) % 5 == 0
    ensures n == 4 * i
  {
    SixteenToFive();
    if n < 4 {
      assert Pow(2, 0) == 1 && Pow(2, 1) == 2 && Pow(2, 2) == 4 && Pow(2, 3) == 8;
      i := 0;
    } else {
      PowAdd(2, 4, n - 4);
      assert 4 + (n - 4) == n;
      hide Pow;
      LessSixteen(Pow(2, n - 4));
      i := FourDivides(n - 4);
      i := i + 1;
    }
  }

  lemma LessSixteen(p: int)
    ensures (16 * p - 1) % 5 == 0 ==> (p - 1) % 5 == 0
  {
    assert 16 * p - 1 == 5 * (3 * p) + (p - 1);
  }

  lemma {:induction false} ModTwentyFive(i: nat)
    ensures (Pow(16, i) - 1 - 15 * i) % 25 == 0
  {
    if i > 0 {
      ModTwentyFive(i - 1);
      NextTwentyFive(Pow(16, i - 1), i - 1);
    }
  }

  lemma NextTwentyFive(p: int, i: int)
    requires (p - 1 - 15 * i) % 25 == 0
    ensures (16 * p - 1 - 15 * (i + 1)) % 25 == 0
  {
    var k := (p - 1 - 15 * i) / 25;
    assert 16 * p - 1 - 15 * (i + 1) == 25 * (16 * k + 9 * i);
  }

  lemma {:induction false} ModHundredTwentyFive(t: nat)
    ensures (Pow(1048576, t) - 1 - 75 * t) % 125 == 0
  {
    if t > 0 {
      ModHundredTwentyFive(t - 1);
      NextHundredTwentyFive(Pow(1048576, t - 1), t - 1);
    }
  }

  lemma NextHundredTwentyFive(p: int, t: int)
    requires (p - 1 - 75 * t) % 125 == 0
    ensures (1048576 * p - 1 - 75 * (t + 1)) % 125 == 0
  {
    var k := (p - 1 - 75 * t) / 125;
    assert 1048576 * p - 1 - 75 * (t + 1) == 125 * (1048576 * k + 629145 * t + 8388);
  }

  lemma TwoTo100()
    ensures (Pow(2, 100) - 1) % 625 == 375
  {
    TwoTo32();
    SixteenToFive();
    hide Pow;
    PowAdd(2, 32, 32);
    PowAdd(2, 64, 32);
    PowAdd(2, 96, 4);
  }
}
