/** When exactly the shortest mode of format_dragon keeps to the rounding interval and to
    the fewest digits, in terms of the numbers it starts from. */
module ShortestExact {
  import opened Powers
  import opened Limbs
  import opened Decimals
  import opened DigitGeneration

  /** The exponent of the remainder after digit k: the first non-zero digit aligns the
      numerator to the denominator. */
  function ExpAt(s: Scaled, k: nat): nat
  {
    if s.f.ne <= s.f.de || s.f.n * Pow(10, k) < s.f.d then s.f.ne else s.f.de
  }

  /** No number of at most k digits, counted from the leading place, is in the interval. */
  ghost predicate NothingInside(s: Scaled, k: nat, closed: bool)
  {
    forall j: nat, v: int :: j < k ==> !s.Inside(v, Pow(10, j), closed)
  }

  /** With the next number still below the upper end by above, and the remainder given,
      digit w is rounded up. */
  predicate RoundsOver(above: int, remainder: int, d: int, odd: bool)
  {
    above > 0 && (2 * remainder > d || (2 * remainder == d && odd))
  }

  /** The lower end is the number w of k + 1 digits, the comparison with the gap takes it
      for inside because the remainder has the larger exponent, and nothing else comes first. */
  ghost predicate EndAt(s: Scaled, k: nat, w: int)
  {
    var p, d := Pow(10, k), s.f.d;
    && (s.f.n - s.l) * p == w * d && ExpAt(s, k) > s.le && NothingInside(s, k, false)
    && !RoundsOver((s.f.n + s.u) * p - (w + 1) * d, s.f.n * p - w * d, d, w % 2 != 0)
  }

  /** w is in the interval at k + 1 digits and the comparison with the gap misses it: it is
      the number itself, with the zero remainder placed above the gap, or the lower end of
      an even significand, with the gap's exponent the larger one. */
  ghost predicate Missed(s: Scaled, k: nat, w: int)
  {
    var p, d := Pow(10, k), s.f.d;
    && (|| (s.f.n * p == w * d && s.l * p < Weight(ExpAt(s, k)))
        || (s.even && (s.f.n - s.l) * p == w * d && ExpAt(s, k) < s.le))
    && (if s.even then (s.f.n + s.u) * p < (w + 1) * d else (s.f.n + s.u) * p <= (w + 1) * d)
  }

  /** The first number that should have ended the digits is missed. */
  ghost predicate EarlierAt(s: Scaled, k: nat, w: int)
  {
    Missed(s, k, w) && NothingInside(s, k, s.even) && (s.even || NoEnd(s, k))
  }

  /** The two ways in which the exponents mislead the digit loop. */
  ghost predicate EndMistaken(s: Scaled)
  {
    exists k: nat, w: int :: EndAt(s, k, w)
  }

  ghost predicate DigitMissed(s: Scaled)
  {
    exists k: nat, w: int :: EarlierAt(s, k, w)
  }

  ghost predicate NoEnd(s: Scaled, k: nat)
  {
    forall j: nat, v: int :: j < k ==> !EndAt(s, j, v)
  }

  /** The printed digits are the lower end of the interval. */
  predicate PrintsEnd(s: Scaled)
    requires s.Ready()
  {
    var ds := Shortest(s);
    Dec(ds) * s.f.d == (s.f.n - s.l) * Pow(10, |ds| - 1)
  }

  /** No decimal with fewer digits is in the interval, to which an even significand's ends
      belong. */
  ghost predicate Minimal(s: Scaled)
    requires s.Ready()
  {
    NothingInside(s, |Shortest(s)| - 1, s.even)
  }

  // ---------- One digit ----------

  /** Differences at a digit are differences at the next digit's smaller scale. */
  lemma TailDifference(n: int, d: int, q: int, r: int, c: int, p: int, w: int)
    requires n == q * d + r
    ensures (n + c) * (10 * p) - w * d == (10 * r + 10 * c) * p - (w - q * (10 * p)) * d
  {
    var t := 10 * p;
    assert (n + c) * t == (q * d) * t + (r + c) * t;
    MulAssoc(q, d, t);
    MulAssoc(q, t, d);
    assert d * t == t * d;
    assert (w - q * t) * d == w * d - (q * t) * d;
    assert (r + c) * t == (10 * r + 10 * c) * p by { MulAssoc(r + c, 10, p); }
  }

  /** What the digit after the first one means for the numbers at k + 1 digits. */
  lemma Tail(s: Scaled, k: nat, w: int)
    requires s.f.d > 0 && k >= 1
    ensures var t, p, r := s.Next(), Pow(10, k - 1), w - s.f.Digit() * Pow(10, k);
            && Pow(10, k) == 10 * p
            && s.f.n * Pow(10, k) - w * s.f.d == t.f.n * p - r * s.f.d
            && (s.f.n - s.l) * Pow(10, k) - w * s.f.d == (t.f.n - t.l) * p - r * s.f.d
            && (s.f.n + s.u) * Pow(10, k) - (w + 1) * s.f.d == (t.f.n + t.u) * p - (r + 1) * s.f.d
            && s.l * Pow(10, k) == t.l * p && (w - r) % 2 == 0
  {
    DivRemMeans(s.f.n, s.f.d);
    var q, rest, p := s.f.Digit(), s.f.Rest(), Pow(10, k - 1);
    assert Pow(10, k) == 10 * p;
    hide Pow, DivRem;
    TailDifference(s.f.n, s.f.d, q, rest, 0, p, w);
    TailDifference(s.f.n, s.f.d, q, rest, 0 - s.l, p, w);
    TailDifference(s.f.n, s.f.d, q, rest, s.u, p, w + 1);
    MulAssoc(s.l, 10, p);
    MulAssoc(10, s.l, p);
    EvenMultiple(q, p);
  }

  lemma EvenMultiple(q: int, p: int)
    ensures (q * (10 * p)) % 2 == 0
  {
    assert q * (10 * p) == 2 * (5 * (q * p));
  }

  lemma TailExp(s: Scaled, k: nat)
    requires s.f.d > 0 && k >= 1
    ensures ExpAt(s, k) == ExpAt(s.Next(), k - 1)
  {
    assert Pow(10, k) == 10 * Pow(10, k - 1);
    PowPositive(10, k - 1);
    DivRemMeans(s.f.n, s.f.d);
    if s.f.n < s.f.d {
      MulAssoc(s.f.n, 10, Pow(10, k - 1));
      MulAssoc(10, s.f.n, Pow(10, k - 1));
    } else {
      MulMonotone(1, Pow(10, k), s.f.n);
    }
  }

  lemma TailInside(s: Scaled, j: nat, v: int, closed: bool)
    requires s.f.d > 0 && j >= 1
    ensures s.Inside(v, Pow(10, j), closed)
            <==> s.Next().Inside(v - s.f.Digit() * Pow(10, j), Pow(10, j - 1), closed)
  {
    var p := Pow(10, j - 1);
    assert Pow(10, j) == 10 * p;
    hide Pow;
    InsideNext(s, v, v - s.f.Digit() * (10 * p), p, closed);
  }

  /** Nothing inside up to k + 1 digits: not at the first, and nothing in the rest. */
  lemma NothingNext(s: Scaled, k: nat, closed: bool)
    requires s.f.d > 0 && k >= 1
    ensures NothingInside(s, k, closed) <==> NothingInside(s, 1, closed) && NothingInside(s.Next(), k - 1, closed)
  {
    var t, q := s.Next(), s.f.Digit();
    if NothingInside(s, k, closed) {
      forall j: nat, v: int | j < k - 1 ensures !t.Inside(v, Pow(10, j), closed) {
        var w := v + q * Pow(10, j + 1);
        TailInside(s, j + 1, w, closed);
        assert !s.Inside(w, Pow(10, j + 1), closed);
      }
    }
    if NothingInside(s, 1, closed) && NothingInside(t, k - 1, closed) {
      forall j: nat, v: int | j < k ensures !s.Inside(v, Pow(10, j), closed) {
        if j >= 1 {
          TailInside(s, j, v, closed);
          assert !t.Inside(v - q * Pow(10, j), Pow(10, j - 1), closed);
        }
      }
    }
  }

  lemma EndNext(s: Scaled, k: nat, w: int)
    requires s.f.d > 0 && k >= 1
    ensures EndAt(s, k, w) <==> NothingInside(s, 1, false) && EndAt(s.Next(), k - 1, w - s.f.Digit() * Pow(10, k))
  {
    Tail(s, k, w);
    TailExp(s, k);
    NothingNext(s, k, false);
    EndParts(s, k, w);
    EndParts(s.Next(), k - 1, w - s.f.Digit() * Pow(10, k));
    hide EndAt, EndOf, NothingInside, ExpAt, Pow, DivRem;
    SameParity(w, w - s.f.Digit() * Pow(10, k));
  }

  /** EndAt in terms of the three differences that the first digit does not change. */
  ghost predicate EndOf(lower: int, above: int, remainder: int, d: int, odd: bool, exp: nat, le: nat)
  {
    lower == 0 && exp > le && !RoundsOver(above, remainder, d, odd)
  }

  lemma EndParts(s: Scaled, k: nat, w: int)
    ensures var p, d := Pow(10, k), s.f.d;
            EndAt(s, k, w) <==>
              NothingInside(s, k, false)
              && EndOf((s.f.n - s.l) * p - w * d, (s.f.n + s.u) * p - (w + 1) * d, s.f.n * p - w * d, d,
                       w % 2 != 0, ExpAt(s, k), s.le)
  {
    hide NothingInside, ExpAt, Pow, RoundsOver;
  }

  lemma SameParity(w: int, r: int)
    requires (w - r) % 2 == 0
    ensures w % 2 != 0 <==> r % 2 != 0
  {
  }

  /** Missed in terms of the same differences and the gap at that digit. */
  ghost predicate MissedOf(lower: int, above: int, remainder: int, gap: int, even: bool, exp: nat, le: nat)
  {
    && ((remainder == 0 && gap < Weight(exp)) || (even && lower == 0 && exp < le))
    && (if even then above < 0 else above <= 0)
  }

  lemma MissedParts(s: Scaled, k: nat, w: int)
    ensures var p, d := Pow(10, k), s.f.d;
            Missed(s, k, w) <==>
              MissedOf((s.f.n - s.l) * p - w * d, (s.f.n + s.u) * p - (w + 1) * d, s.f.n * p - w * d, s.l * p, s.even,
                       ExpAt(s, k), s.le)
  {
    hide ExpAt, Pow, Weight;
  }

  lemma MissedNext(s: Scaled, k: nat, w: int)
    requires s.f.d > 0 && k >= 1
    ensures Missed(s, k, w) <==> Missed(s.Next(), k - 1, w - s.f.Digit() * Pow(10, k))
  {
    Tail(s, k, w);
    TailExp(s, k);
    MissedParts(s, k, w);
    MissedParts(s.Next(), k - 1, w - s.f.Digit() * Pow(10, k));
    hide Missed, MissedOf, ExpAt, Pow, DivRem;
  }

  // ---------- The first digit ----------

  /** Where the digits stop, the digit is strictly inside or, for an odd significand, on the
      lower end, taken for inside by its exponent. */
  lemma StopsWhere(s: Scaled)
    requires s.Ready() && s.Stops() && !s.even
    ensures var w := s.LastDigit();
            if s.Inside(w, 1, false) then (s.f.n - s.l) != w * s.f.d
            else (s.f.n - s.l) == w * s.f.d && w == s.f.Digit() && s.f.Rest() == s.l
                 && s.f.RestExp() > s.le && !(s.High() && RoundsUp(w, s.l, s.f.d))
  {
    DivRemMeans(s.f.n, s.f.d);
    NextMultiple(s.f.Digit(), s.f.d);
  }

  lemma ScaleOne(s: Scaled)
    ensures Pow(10, 0) == 1 && (s.f.n - s.l) * 1 == s.f.n - s.l && (s.f.n + s.u) * 1 == s.f.n + s.u
    ensures s.f.d > 0 ==> ExpAt(s, 0) == s.f.RestExp()
  {
  }

  /** A lower end at the first digit ends the digits there. */
  lemma EndAtFirst(s: Scaled, w: int)
    requires s.Ready() && !s.even && EndAt(s, 0, w)
    ensures s.Stops() && s.LastDigit() == w
  {
    ScaleOne(s);
    hide Pow, ExpAt, NothingInside;
    FirstEnd(s.f.n, s.f.d, s.l, s.u, w);
    DivRemUnique(s.f.n, s.f.d, w, s.l);
    assert (w + 1) * s.f.d == w * s.f.d + s.f.d;
  }

  /** If the gap reached a whole unit, the digit would be rounded up. */
  lemma FirstEnd(n: nat, d: nat, l: nat, u: nat, w: int)
    requires d > 0 && u > 0 && n - l == w * d && !RoundsOver(n + u - (w + 1) * d, n - w * d, d, w % 2 != 0)
    ensures l < d && w >= 0
  {
    assert (w + 1) * d == w * d + d;
    if w < 0 {
      MulMonotone(w, -1, d);
    }
  }

  /** Where the digits go on, no end and no missed number means that nothing is inside. */
  lemma GoesOn(s: Scaled)
    requires s.Ready() && !s.Stops() && (forall w :: !Missed(s, 0, w))
    ensures NothingInside(s, 1, s.even)
  {
    MissedFirst(s);
    ScaleOne(s);
    forall v: int ensures !s.Inside(v, 1, s.even) {
      NoNeighbourFor(s, v);
    }
    assert NothingInside(s, 1, s.even) by {
      forall j: nat, v: int | j < 1 ensures !s.Inside(v, Pow(10, j), s.even) {
        assert j == 0;
      }
    }
  }

  /** The missed number at the first digit is that digit. */
  lemma MissedFirst(s: Scaled)
    requires s.Ready() && !s.High()
    ensures Missed(s, 0, s.f.Digit())
            <==> (s.f.Rest() == 0 && s.l < Weight(s.f.RestExp()))
                 || (s.even && s.f.Rest() == s.l && s.f.RestExp() < s.le)
  {
    ScaleOne(s);
    DivRemMeans(s.f.n, s.f.d);
    NextMultiple(s.f.Digit(), s.f.d);
    hide Pow, ExpAt, Weight, DivRem;
  }

  lemma NoNeighbourFor(s: Scaled, w: int)
    requires s.Ready() && !s.High() && s.f.Rest() >= s.l && (s.even ==> s.f.Rest() > s.l)
    ensures !s.Inside(w, 1, s.even)
  {
    NoNeighbour(s, w);
  }

  /** A missed number at the first digit does not end the digits, and is that digit. */
  lemma MissedGoesOn(s: Scaled, w: int)
    requires s.Ready() && Missed(s, 0, w)
    ensures !s.Stops() && w == s.f.Digit()
  {
    ScaleOne(s);
    hide Pow, ExpAt, Weight;
    var r := s.f.n - w * s.f.d;
    assert (w + 1) * s.f.d == w * s.f.d + s.f.d;
    assert 0 <= r < s.f.d;
    MissedQuotient(s.f.n, s.f.d, w, r);
  }

  lemma MissedQuotient(n: nat, d: nat, w: int, r: int)
    requires d > 0 && n == w * d + r && 0 <= r < d
    ensures w >= 0 && DivRem(n, d) == (w, r)
  {
    if w < 0 {
      MulMonotone(w, -1, d);
    }
    DivRemUnique(n, d, w, r);
  }

  // ---------- All digits ----------

  lemma FirstDigit(s: Scaled)
    requires s.Ready() && !s.Stops()
    ensures s.Next().Ready() && Shortest(s) == [s.f.Digit()] + Shortest(s.Next()) && |Shortest(s.Next())| >= 1
  {
    hide Pow, DivRem, Weight;
  }

  lemma PrintsEndNext(s: Scaled)
    requires s.Ready() && !s.Stops()
    ensures s.Next().Ready() && Shortest(s) == [s.f.Digit()] + Shortest(s.Next())
    ensures var k, v := |Shortest(s)| - 1, Dec(Shortest(s));
            && k >= 1 && k - 1 == |Shortest(s.Next())| - 1
            && v - s.f.Digit() * Pow(10, k) == Dec(Shortest(s.Next()))
    ensures PrintsEnd(s) <==> PrintsEnd(s.Next())
  {
    hide Shortest, Pow, Dec, DivRem;
    FirstDigit(s);
    var ds, rest := Shortest(s), Shortest(s.Next());
    DecCons(ds, s.f.Digit(), rest);
    Tail(s, |rest|, Dec(ds));
    assert Pow(10, |rest|) == 10 * Pow(10, |rest| - 1);
  }

  lemma StopsParts(s: Scaled)
    requires s.Ready() && s.Stops()
    ensures Shortest(s) == [s.LastDigit()] && Dec(Shortest(s)) == s.LastDigit()
    ensures PrintsEnd(s) <==> s.f.n - s.l == s.LastDigit() * s.f.d
  {
    Single(Shortest(s));
    ScaleOne(s);
  }

  /** An end found by the arithmetic is what is printed. */
  lemma {:induction false} EndIsPrinted(s: Scaled, k: nat, w: int)
    requires s.Ready() && !s.even && EndAt(s, k, w)
    ensures PrintsEnd(s)
    decreases k
  {
    if s.Stops() {
      StopsParts(s);
      if k == 0 {
        ScaleOne(s);
        EndAtFirst(s, w);
      } else {
        StopsWhere(s);
        FirstInside(s, k, s.LastDigit(), false);
      }
    } else {
      if k == 0 {
        EndAtFirst(s, w);
      } else {
        PrintsEndNext(s);
        EndNext(s, k, w);
        EndIsPrinted(s.Next(), k - 1, w - s.f.Digit() * Pow(10, k));
      }
    }
  }

  lemma FirstInside(s: Scaled, k: nat, v: int, closed: bool)
    requires k >= 1 && NothingInside(s, k, closed)
    ensures !s.Inside(v, 1, closed)
  {
    assert !s.Inside(v, Pow(10, 0), closed);
  }

  /** And a printed end is found by it. */
  lemma {:induction false} PrintedIsEnd(s: Scaled)
    requires s.Ready() && !s.even && PrintsEnd(s)
    ensures EndAt(s, |Shortest(s)| - 1, Dec(Shortest(s)))
    decreases 10 * s.f.d - s.u
  {
    if s.Stops() {
      StopsParts(s);
      ScaleOne(s);
      StopsWhere(s);
      EndFirst(s);
    } else {
      PrintsEndNext(s);
      PrintedIsEnd(s.Next());
      NotZeroRest(s);
      OpenOdd(s);
      EndNext(s, |Shortest(s)| - 1, Dec(Shortest(s)));
    }
  }

  lemma EndFirst(s: Scaled)
    requires s.Ready() && s.Stops() && !s.even && s.f.n - s.l == s.LastDigit() * s.f.d
    ensures EndAt(s, 0, s.LastDigit())
  {
    StopsWhere(s);
    ScaleOne(s);
    DivRemMeans(s.f.n, s.f.d);
    NextMultiple(s.f.Digit(), s.f.d);
    assert NothingInside(s, 0, false);
    hide Pow, ExpAt, NothingInside, DivRem;
  }

  /** After a zero remainder the rest of the digits cannot be on the lower end. */
  lemma NotZeroRest(s: Scaled)
    requires s.Ready() && !s.Stops() && PrintsEnd(s.Next())
    ensures s.f.Rest() > 0
  {
    var t, rest := s.Next(), Shortest(s.Next());
    PowPositive(10, |rest| - 1);
    NotNegative(t.f.n, t.l, Pow(10, |rest| - 1), Dec(rest), t.f.d);
  }

  lemma NotNegative(n: nat, l: nat, p: nat, w: nat, d: nat)
    requires (n - l) * p == w * d && l > 0 && p > 0
    ensures n > 0
  {
    MulPositive(l, p);
    MulMonotone(0, w, d);
  }

  lemma OpenOdd(s: Scaled)
    requires s.Ready() && !s.Stops() && !s.even && s.f.Rest() > 0
    ensures NothingInside(s, 1, false)
  {
    forall j: nat, v: int | j < 1 ensures !s.Inside(v, Pow(10, j), false) {
      ScaleOne(s);
      NoNeighbourFor(s, v);
    }
  }

  /** The digits of an odd significand, which does not own the ends of its interval, lie
      strictly inside exactly unless the lower end is mistaken for inside, and then they
      are that end. */
  lemma ShortestStrict(s: Scaled)
    requires s.Ready() && !s.even
    ensures var ds := Shortest(s);
            && (s.Inside(Dec(ds), Pow(10, |ds| - 1), false) <==> !EndMistaken(s))
            && (EndMistaken(s) <==> PrintsEnd(s))
  {
    hide Pow, Dec, Shortest, EndAt;
    if k: nat, w: int :| EndAt(s, k, w) {
      EndIsPrinted(s, k, w);
    }
    if PrintsEnd(s) {
      PrintedIsEnd(s);
    }
    BelowUpper(s);
  }

  lemma {:induction false} BelowUpper(s: Scaled)
    requires s.Ready() && !s.even
    ensures var ds := Shortest(s);
            (s.f.n - s.l) * Pow(10, |ds| - 1) <= Dec(ds) * s.f.d < (s.f.n + s.u) * Pow(10, |ds| - 1)
    decreases 10 * s.f.d - s.u
  {
    if s.Stops() {
      StopsParts(s);
      ScaleOne(s);
      DivRemMeans(s.f.n, s.f.d);
      NextMultiple(s.f.Digit(), s.f.d);
    } else {
      PrintsEndNext(s);
      BelowUpper(s.Next());
      BelowNext(s, |Shortest(s)| - 1, Dec(Shortest(s)));
    }
  }

  lemma BelowNext(s: Scaled, k: nat, w: int)
    requires s.f.d > 0 && k >= 1
    requires var t, p, r := s.Next(), Pow(10, k - 1), w - s.f.Digit() * Pow(10, k);
             (t.f.n - t.l) * p <= r * s.f.d < (t.f.n + t.u) * p
    ensures (s.f.n - s.l) * Pow(10, k) <= w * s.f.d < (s.f.n + s.u) * Pow(10, k)
  {
    hide Pow, DivRem;
    Tail(s, k, w);
    NextMultiple(w, s.f.d);
    NextMultiple(w - s.f.Digit() * Pow(10, k), s.f.d);
  }

  // ---------- The fewest digits ----------

  /** A missed number is passed over: more digits follow. */
  lemma {:induction false} MissedIsPassed(s: Scaled, k: nat, w: int)
    requires s.Ready() && EarlierAt(s, k, w)
    ensures k + 1 < |Shortest(s)| && s.Inside(w, Pow(10, k), s.even)
    decreases k
  {
    MissedInside(s, k, w);
    MissedNotLast(s, k, w);
    PrintsEndNext(s);
    if k >= 1 {
      EarlierNext(s, k, w);
      MissedIsPassed(s.Next(), k - 1, w - s.f.Digit() * Pow(10, k));
    }
  }

  lemma MissedInside(s: Scaled, k: nat, w: int)
    requires s.Ready() && Missed(s, k, w)
    ensures s.Inside(w, Pow(10, k), s.even)
  {
    hide Pow, ExpAt, Weight;
    PowPositive(10, k);
    NextMultiple(w, s.f.d);
    AroundNumber(s.f.n, s.l, s.u, Pow(10, k));
  }

  lemma AroundNumber(n: nat, l: nat, u: nat, p: nat)
    requires l > 0 && u > 0 && p > 0
    ensures (n - l) * p < n * p < (n + u) * p
  {
    MulStrict(n - l, n, p);
    MulStrict(n, n + u, p);
  }

  lemma MissedNotLast(s: Scaled, k: nat, w: int)
    requires s.Ready() && EarlierAt(s, k, w)
    ensures !s.Stops()
  {
    if k == 0 {
      MissedGoesOn(s, w);
    } else if s.Stops() {
      FirstInside(s, k, s.LastDigit(), s.even);
      if s.even {
        LastDigitInside(s);
      } else {
        StopsWhere(s);
        EndFirst(s);
      }
    }
  }

  lemma EarlierNext(s: Scaled, k: nat, w: int)
    requires s.Ready() && k >= 1 && !s.Stops()
    ensures EarlierAt(s, k, w) <==>
            NothingInside(s, 1, s.even) && EarlierAt(s.Next(), k - 1, w - s.f.Digit() * Pow(10, k))
  {
    MissedNext(s, k, w);
    NothingNext(s, k, s.even);
    if !s.even && NothingInside(s, 1, false) {
      NoEndNext(s, k);
    }
    hide Missed, NothingInside, NoEnd, Pow;
  }

  lemma NoEndNext(s: Scaled, k: nat)
    requires s.Ready() && k >= 1 && !s.Stops() && !s.even && NothingInside(s, 1, false)
    ensures NoEnd(s, k) <==> NoEnd(s.Next(), k - 1)
  {
    var t, q := s.Next(), s.f.Digit();
    if NoEnd(s, k) {
      forall j: nat, v: int | j < k - 1 ensures !EndAt(t, j, v) {
        var w := v + q * Pow(10, j + 1);
        EndNext(s, j + 1, w);
        assert !EndAt(s, j + 1, w);
      }
    }
    if NoEnd(t, k - 1) {
      forall j: nat, v: int | j < k ensures !EndAt(s, j, v) {
        if j >= 1 {
          EndNext(s, j, v);
          assert !EndAt(t, j - 1, v - q * Pow(10, j));
        } else if EndAt(s, j, v) {
          EndAtFirst(s, v);
        }
      }
    }
  }

  /** A shorter number in the interval means that the first one was missed. */
  lemma {:induction false} ShorterWasMissed(s: Scaled, j: nat, v: int) returns (k: nat, w: int)
    requires s.Ready() && j + 1 < |Shortest(s)| && s.Inside(v, Pow(10, j), s.even)
    ensures EarlierAt(s, k, w)
    decreases j
  {
    if m :| Missed(s, 0, m) {
      k, w := 0, m;
      assert NothingInside(s, 0, s.even) && NoEnd(s, 0);
    } else {
      assert !s.Stops() by {
        if s.Stops() { StopsParts(s); }
      }
      GoesOn(s);
      PrintsEndNext(s);
      FirstInside(s, 1, v, s.even);
      if j >= 1 {
        TailInside(s, j, v, s.even);
        k, w := ShorterWasMissed(s.Next(), j - 1, v - s.f.Digit() * Pow(10, j));
        var w1 := w + s.f.Digit() * Pow(10, k + 1);
        EarlierNext(s, k + 1, w1);
        k, w := k + 1, w1;
      }
    }
  }

  /** The digits are the fewest exactly if no number that should have ended them is missed. */
  lemma ShortestMinimal(s: Scaled)
    requires s.Ready()
    ensures Minimal(s) <==> !DigitMissed(s)
  {
    if k: nat, w: int :| EarlierAt(s, k, w) {
      MissedIsPassed(s, k, w);
    }
    if !Minimal(s) {
      var j: nat, v: int :| j < |Shortest(s)| - 1 && s.Inside(v, Pow(10, j), s.even);
      var k, w := ShorterWasMissed(s, j, v);
    }
  }

  // ---------- Exponents that mislead nowhere ----------

  /** The gap's exponent is not below both others, and the gap fills its lowest place. */
  predicate GapNotLowest(s: Scaled)
  {
    s.l >= Weight(s.le) && (s.f.ne <= s.le || s.f.de <= s.le)
  }

  /** Then a remainder has the larger exponent only while all digits are zero. */
  lemma ExpBelowGap(s: Scaled, k: nat)
    requires GapNotLowest(s) && ExpAt(s, k) > s.le
    ensures s.f.n * Pow(10, k) < s.f.d
  {
    hide Pow, Weight;
  }

  /** No end is mistaken, nothing strictly inside is missed, and at most an end is, if the
      gap's exponent is above another one. */
  lemma ExponentsSuffice(s: Scaled)
    requires s.Ready() && s.f.n > s.l && GapNotLowest(s)
    ensures !EndMistaken(s) && NothingInside(s, |Shortest(s)| - 1, false)
    ensures !s.even || (s.le <= s.f.ne && s.le <= s.f.de) ==> !DigitMissed(s)
  {
    forall k: nat, w: int ensures !EndAt(s, k, w) {
      PowPositive(10, k);
      NotAnEnd(s, k, w);
    }
    forall k: nat, w: int | EarlierAt(s, k, w) ensures s.even && (s.f.ne < s.le || s.f.de < s.le) {
      PowPositive(10, k);
      OnlyEndsMissed(s, k, w);
    }
    forall j: nat, v: int | j < |Shortest(s)| - 1 ensures !s.Inside(v, Pow(10, j), false) {
      NothingShorter(s, j, v);
    }
  }

  lemma NotAnEnd(s: Scaled, k: nat, w: int)
    requires s.Ready() && s.f.n > s.l && GapNotLowest(s) && Pow(10, k) > 0
    ensures !EndAt(s, k, w)
  {
    if EndAt(s, k, w) {
      ExpBelowGap(s, k);
      hide Pow, ExpAt, NothingInside, RoundsOver;
      NoMultiple(s.f.n - s.l, s.f.n, Pow(10, k), w, s.f.d);
    }
  }

  lemma NoMultiple(m: nat, n: nat, p: nat, w: int, d: nat)
    requires 0 < m <= n && p > 0 && n * p < d
    ensures m * p != w * d
  {
    MulPositive(m, p);
    MulMonotone(m, n, p);
    if w >= 1 {
      MulMonotone(1, w, d);
    } else {
      MulMonotone(w, 0, d);
    }
  }

  lemma OnlyEndsMissed(s: Scaled, k: nat, w: int)
    requires s.Ready() && s.f.n > s.l && GapNotLowest(s) && Pow(10, k) > 0 && Missed(s, k, w)
    ensures s.even && ExpAt(s, k) < s.le
  {
    MulMonotone(1, Pow(10, k), s.l);
    if ExpAt(s, k) > s.le {
      ExpBelowGap(s, k);
      hide Pow, ExpAt, Weight;
      NoMultiple(s.f.n, s.f.n, Pow(10, k), w, s.f.d);
    } else {
      WeightMonotone(ExpAt(s, k), s.le);
    }
  }

  /** No number of fewer digits lies strictly inside the interval. */
  lemma {:induction false} NothingShorter(s: Scaled, j: nat, v: int)
    requires s.Ready() && s.f.n > 0 && GapNotLowest(s) && j < |Shortest(s)| - 1
    ensures !s.Inside(v, Pow(10, j), false)
    decreases j
  {
    assert !s.Stops();
    RestNotMissed(s);
    if j == 0 {
      NoNeighbour(s, v);
      assert Pow(10, 0) == 1;
    } else {
      TailInside(s, j, v, false);
      NothingShorter(s.Next(), j - 1, v - s.f.Digit() * Pow(10, j));
    }
  }

  lemma RestNotMissed(s: Scaled)
    requires s.Ready() && s.f.n > 0 && GapNotLowest(s) && !s.Stops()
    ensures s.f.Rest() > 0 && s.f.Rest() >= s.l && GapNotLowest(s.Next())
  {
    DivRemMeans(s.f.n, s.f.d);
    if s.f.n >= s.f.d {
      WeightMonotone(s.f.RestExp(), s.le);
    }
  }

  /** If w at k + 1 digits is the lower end and the next number is not inside, then nothing
      at fewer digits is strictly inside. */
  lemma NothingBefore(s: Scaled, k: nat, w: int)
    requires s.f.d > 0 && (s.f.n - s.l) * Pow(10, k) == w * s.f.d && (s.f.n + s.u) * Pow(10, k) <= (w + 1) * s.f.d
    ensures NothingInside(s, k, false)
  {
    forall j: nat, v: int | j < k ensures !s.Inside(v, Pow(10, j), false) {
      var c := Pow(10, k - j);
      PowPositive(10, k - j);
      PowAdd(10, j, k - j);
      hide Pow;
      Refine(s.f.n - s.l, s.f.n + s.u, Pow(10, j), c, w, v, s.f.d);
    }
  }

  lemma Refine(low: int, high: int, p: int, c: int, w: int, v: int, d: int)
    requires d > 0 && c > 0 && low * (p * c) == w * d && high * (p * c) <= (w + 1) * d
    ensures !(low * p < v * d < high * p)
  {
    if low * p < v * d < high * p {
      MulStrict(low * p, v * d, c);
      MulStrict(v * d, high * p, c);
      MulAssoc(low, p, c);
      MulAssoc(high, p, c);
      assert (v * d) * c == (v * c) * d;
      MulCancel(w, v * c, d);
      MulCancel(v * c, w + 1, d);
    }
  }
}
