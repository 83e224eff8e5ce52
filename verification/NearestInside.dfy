/** Which of the numbers of its length in the rounding interval the shortest mode of
    format_dragon prints, whether or not the two half-gaps are equal. */
module NearestInside {
  import opened Powers
  import opened Limbs
  import opened Decimals
  import opened DigitGeneration
  import opened ShortestExact

  function Off(x: int): nat
  {
    if x < 0 then -x else x
  }

  /** How far w / p is from n / d, in units of 1 / (p * d). */
  function Distance(s: Scaled, w: int, p: int): nat
  {
    Off(w * s.f.d - s.f.n * p)
  }

  /** w is nearer than v, or as near while v is odd. */
  predicate Better(s: Scaled, w: int, v: int, p: int)
  {
    Distance(s, w, p) < Distance(s, v, p) || (Distance(s, w, p) == Distance(s, v, p) && w != v && v % 2 != 0)
  }

  /** No number of its length in the interval, to which an even significand's ends belong,
      is nearer than v, and of two that are equally near v is the even one. */
  ghost predicate NoneNearer(s: Scaled, v: int, p: int)
  {
    forall w: int :: s.Inside(w, p, s.even) ==> !Better(s, w, v, p)
  }

  /** w at k + 1 digits is in the interval, below the number by less than half a unit or, if
      it is even, by half a unit, and the comparison with the gap misses it: it is the number
      itself, with the zero remainder placed above the gap, or the lower end of an even
      significand, with the gap's exponent the larger one. */
  ghost predicate Overlooked(s: Scaled, k: nat, w: int)
  {
    var p, d := Pow(10, k), s.f.d;
    && (|| (s.f.n * p == w * d && s.l * p < Weight(ExpAt(s, k)))
        || (s.even && (s.f.n - s.l) * p == w * d && ExpAt(s, k) < s.le))
    && (2 * (s.f.n * p - w * d) < d || (2 * (s.f.n * p - w * d) == d && w % 2 == 0))
  }

  ghost predicate OverlooksAt(s: Scaled, k: nat)
  {
    exists w: int :: Overlooked(s, k, w)
  }

  /** That happens at the place of the last digit. */
  ghost predicate NearestMissed(s: Scaled)
    requires s.Ready()
  {
    OverlooksAt(s, |Shortest(s)| - 1)
  }

  // ---------- The last digit ----------

  lemma OverlookedFirst(s: Scaled, w: int)
    requires s.Ready()
    ensures Overlooked(s, 0, w) <==>
            w == s.f.Digit() && !s.Low() && !RoundsUp(w, s.f.Rest(), s.f.d) && s.Inside(w, 1, s.even)
  {
    ScaleOne(s);
    DivRemMeans(s.f.n, s.f.d);
    hide Pow, ExpAt, Weight, DivRem;
    if Overlooked(s, 0, w) {
      OverlookedQuotient(s.f.n, s.f.d, w, s.f.n - w * s.f.d);
    }
  }

  lemma OverlookedQuotient(n: nat, d: nat, w: int, r: int)
    requires d > 0 && n == w * d + r && 0 <= r < d
    ensures DivRem(n, d) == (w, r)
  {
    MissedQuotient(n, d, w, r);
  }

  /** The neighbours of the number are the digit and the next one. */
  lemma BesideDigit(s: Scaled, w: int)
    requires s.Ready()
    ensures var q, r, d := s.f.Digit(), s.f.Rest(), s.f.d;
            && s.f.n == q * d + r && (q + 1) * d == q * d + d
            && (w <= q ==> Distance(s, w, 1) >= r) && (w > q ==> Distance(s, w, 1) >= d - r)
            && (w < q ==> Distance(s, w, 1) >= d + r) && (w > q + 1 ==> Distance(s, w, 1) >= d + d - r)
            && (w > q && s.Inside(w, 1, s.even) ==> s.High())
            && Distance(s, q, 1) == r && Distance(s, q + 1, 1) == d - r && (r == 0 ==> s.Inside(q, 1, s.even))
  {
    hide DivRem;
    var q: int, d := s.f.Digit(), s.f.d;
    DivRemMeans(s.f.n, d);
    NextMultiple(q, d);
    NextMultiple(q - 1, d);
    if w < q {
      MulMonotone(w, q - 1, d);
    } else if w > q {
      MulMonotone(q + 1, w, d);
      if w > q + 1 {
        NextMultiple(q + 1, d);
        MulMonotone(q + 2, w, d);
      }
    }
  }

  lemma LastNearest(s: Scaled)
    requires s.Ready() && s.Stops()
    ensures NoneNearer(s, s.LastDigit(), 1) <==> !OverlooksAt(s, 0)
  {
    var q := s.f.Digit();
    OverlookedFirst(s, q);
    hide Overlooked, Scaled.Inside, Scaled.Low, Scaled.High, Scaled.LastDigit, Better, DivRem;
    if Overlooked(s, 0, q) {
      BetterMissed(s);
    } else {
      forall w: int ensures !Overlooked(s, 0, w) {
        OverlookedFirst(s, w);
      }
      forall w: int | s.Inside(w, 1, s.even) ensures !Better(s, w, s.LastDigit(), 1) {
        NotBetter(s, w);
      }
    }
  }

  lemma BetterMissed(s: Scaled)
    requires s.Ready() && s.Stops() && !s.Low() && !RoundsUp(s.f.Digit(), s.f.Rest(), s.f.d)
    ensures Better(s, s.f.Digit(), s.LastDigit(), 1)
  {
    hide Scaled.Inside, Scaled.Low, Scaled.High, Distance, DivRem;
    BesideDigit(s, s.f.Digit());
  }

  lemma NotBetter(s: Scaled, w: int)
    requires s.Ready() && s.Stops() && s.Inside(w, 1, s.even)
    requires s.Low() || RoundsUp(s.f.Digit(), s.f.Rest(), s.f.d) || !s.Inside(s.f.Digit(), 1, s.even)
    ensures !Better(s, w, s.LastDigit(), 1)
  {
    hide Scaled.Inside, Scaled.Low, Scaled.High, Distance, DivRem;
    BesideDigit(s, w);
  }

  // ---------- All digits ----------

  /** The first digit changes neither the distances nor what is inside or overlooked. */
  lemma NextDistance(s: Scaled, k: nat, w: int)
    requires s.f.d > 0 && k >= 1
    ensures var t, p, r := s.Next(), Pow(10, k - 1), w - s.f.Digit() * Pow(10, k);
            && Distance(s, w, Pow(10, k)) == Distance(t, r, p) && (w % 2 == 0 <==> r % 2 == 0)
            && (s.Inside(w, Pow(10, k), s.even) <==> t.Inside(r, p, s.even))
            && (Overlooked(s, k, w) <==> Overlooked(t, k - 1, r))
  {
    Tail(s, k, w);
    TailExp(s, k);
    TailInside(s, k, w, s.even);
    hide Pow, DivRem, ExpAt, Weight, Scaled.Inside;
  }

  lemma NextNearest(s: Scaled, k: nat, v: int)
    requires s.f.d > 0 && k >= 1
    ensures NoneNearer(s, v, Pow(10, k)) <==> NoneNearer(s.Next(), v - s.f.Digit() * Pow(10, k), Pow(10, k - 1))
    ensures OverlooksAt(s, k) <==> OverlooksAt(s.Next(), k - 1)
  {
    var t, c := s.Next(), s.f.Digit() * Pow(10, k);
    hide Overlooked, Distance, Scaled.Inside, Pow;
    NextDistance(s, k, v);
    forall w: int
      ensures Distance(s, w, Pow(10, k)) == Distance(t, w - c, Pow(10, k - 1))
      ensures s.Inside(w, Pow(10, k), s.even) <==> t.Inside(w - c, Pow(10, k - 1), s.even)
      ensures Overlooked(s, k, w) <==> Overlooked(t, k - 1, w - c)
    {
      NextDistance(s, k, w);
    }
    ShiftedNearest(s, t, c, v, Pow(10, k), Pow(10, k - 1));
    if OverlooksAt(t, k - 1) {
      var r: int :| Overlooked(t, k - 1, r);
      assert Overlooked(s, k, r + c) <==> Overlooked(t, k - 1, r + c - c);
    }
  }

  lemma ShiftedNearest(s: Scaled, t: Scaled, c: int, v: int, p: int, p1: int)
    requires t.even == s.even && (v % 2 == 0 <==> (v - c) % 2 == 0)
    requires forall w: int :: Distance(s, w, p) == Distance(t, w - c, p1)
    requires forall w: int :: s.Inside(w, p, s.even) <==> t.Inside(w - c, p1, s.even)
    ensures NoneNearer(s, v, p) <==> NoneNearer(t, v - c, p1)
  {
    hide Distance, Scaled.Inside;
    if NoneNearer(s, v, p) {
      forall r: int | t.Inside(r, p1, t.even) ensures !Better(t, r, v - c, p1) {
        assert r + c - c == r;
        assert s.Inside(r + c, p, s.even);
      }
    }
    if NoneNearer(t, v - c, p1) {
      forall w: int | s.Inside(w, p, s.even) ensures !Better(s, w, v, p) {
        assert t.Inside(w - c, p1, t.even);
      }
    }
  }

  /** The digits denote a nearest of the numbers of their length in the interval exactly if
      none is missed at the last place. */
  lemma {:induction false} ShortestNearestInside(s: Scaled)
    requires s.Ready()
    ensures var ds := Shortest(s); NoneNearer(s, Dec(ds), Pow(10, |ds| - 1)) <==> !NearestMissed(s)
    decreases 10 * s.f.d - s.u
  {
    if s.Stops() {
      hide NoneNearer, Overlooked;
      StopsParts(s);
      LastNearest(s);
      Single(Shortest(s));
    } else {
      hide NoneNearer, Overlooked, Shortest, Pow, Dec;
      PrintsEndNext(s);
      ShortestNearestInside(s.Next());
      NextNearest(s, |Shortest(s)| - 1, Dec(Shortest(s)));
    }
  }

  // ---------- When nothing is missed ----------

  /** Exponents that agree mislead nowhere. */
  lemma NoneMissed(s: Scaled)
    requires s.Ready() && s.f.n > s.l && GapNotLowest(s) && s.le <= s.f.ne && s.le <= s.f.de
    ensures !NearestMissed(s)
  {
    var k := |Shortest(s)| - 1;
    PowPositive(10, k);
    forall w: int ensures !Overlooked(s, k, w) {
      if Overlooked(s, k, w) {
        NotOverlooked(s, k, w);
      }
    }
  }

  lemma NotOverlooked(s: Scaled, k: nat, w: int)
    requires s.Ready() && s.f.n > s.l && GapNotLowest(s) && s.le <= s.f.ne && s.le <= s.f.de && Pow(10, k) > 0
    ensures !Overlooked(s, k, w)
  {
    MulMonotone(1, Pow(10, k), s.l);
    if ExpAt(s, k) > s.le {
      ExpBelowGap(s, k);
      hide Pow, ExpAt, Weight;
      NoMultiple(s.f.n, s.f.n, Pow(10, k), w, s.f.d);
    } else {
      WeightMonotone(ExpAt(s, k), s.le);
    }
  }

  /** The lower gap, scaled for j more digits, is half a unit. */
  predicate HalfGap(s: Scaled, j: nat)
  {
    2 * (s.l * Pow(10, j)) == s.f.d
  }

  lemma HalfGapNext(s: Scaled, j: nat)
    requires s.f.d > 0
    ensures HalfGap(s.Next(), j) <==> HalfGap(s, j + 1)
  {
    MulAssoc(s.l, 10, Pow(10, j));
    MulAssoc(10, s.l, Pow(10, j));
  }

  /** With equal half-gaps, none of half a unit, a missed number would be farther off. */
  lemma {:induction false} EqualGaps(s: Scaled)
    requires s.Ready() && s.u == s.l && Grounded(s.f) && forall j: nat :: !HalfGap(s, j)
    ensures !NearestMissed(s)
    decreases 10 * s.f.d - s.u
  {
    if s.Stops() {
      hide Overlooked;
      StopsParts(s);
      forall w: int ensures !Overlooked(s, 0, w) {
        OverlookedFirst(s, w);
        ScaleOne(s);
        assert !HalfGap(s, 0);
        EqualGapsLast(s);
      }
    } else {
      FirstDigit(s);
      forall j: nat ensures !HalfGap(s.Next(), j) {
        HalfGapNext(s, j);
      }
      EqualGaps(s.Next());
      hide NoneNearer, Overlooked, Shortest, Pow, Dec;
      PrintsEndNext(s);
      NextNearest(s, |Shortest(s)| - 1, Dec(Shortest(s)));
    }
  }

  lemma EqualGapsLast(s: Scaled)
    requires s.Ready() && s.u == s.l && Grounded(s.f) && s.Stops() && 2 * s.l != s.f.d
    ensures s.Low() || RoundsUp(s.f.Digit(), s.f.Rest(), s.f.d) || !s.Inside(s.f.Digit(), 1, s.even)
  {
    DivRemMeans(s.f.n, s.f.d);
    hide DivRem, Weight;
    if s.f.RestExp() <= s.f.de {
      WeightMonotone(s.f.RestExp(), s.f.de);
    }
  }
}
