/** Inputs of format_dragon at which the shortest mode does not give what it is for. */
module Misled {
  import opened MachineInts
  import opened Powers
  import opened RealPowers
  import opened Limbs
  import opened Bigints
  import opened Decimals
  import opened DigitGeneration
  import opened ShortestExact
  import opened Dragon
  import opened DragonMeaning
  import opened NearestInside
  import opened DragonNearest

  lemma PowersOfTen()
    ensures Pow(10, 1) == 10 && Pow(10, 13) == 10000000000000
    ensures Pow(10, 29) == 100000000000000000000000000000
    ensures Pow(10, 32) == 100000000000000000000000000000000
    ensures Pow(10, 44) == 100000000000000000000000000000000000000000000
  {
    assert Pow(10, 1) == 10 && Pow(10, 2) == 100 && Pow(10, 3) == 1000 && Pow(10, 4) == 10000;
    PowAdd(10, 4, 4);
    PowAdd(10, 8, 2);
    PowAdd(10, 10, 3);
    PowAdd(10, 10, 10);
    PowAdd(10, 20, 8);
    PowAdd(10, 28, 1);
    PowAdd(10, 28, 4);
    PowAdd(10, 32, 10);
    PowAdd(10, 42, 2);
  }

  lemma TwoTo31()
    ensures Pow(2, 31) == 0x8000_0000 && Pow(2, 32) == 0x1_0000_0000 && Pow(2, 33) == 0x2_0000_0000
    ensures Pow(2, 1) == 2 && Weight(1) == 0x1_0000_0000 && Weight(0) == 1
  {
    TwoTo32();
    assert Pow(2, 32) == 2 * Pow(2, 31) && Pow(2, 33) == 2 * Pow(2, 32);
    assert Pow(2, 1) == 2;
    assert Weight(0) == 1 && Weight(1) == BASE * Weight(0);
  }

  lemma EndSetup()
    ensures var f, e := 5192296858536545187234878540039063, 31;
            && Acceptable(f, e, false, 44) && Start(f, e, false, 44).Ready() && TooLarge(Start(f, e, false, 44))
            && Prepared(f, e, false, 44, true)
               == Scaled(Ratio(10 * f * 0x1_0000_0000, 1, 200000000000000000000000000000000000000000000, 1),
                         0x5_0000_0000, 0, 0x5_0000_0000, false)
  {
    PowersOfTen();
    TwoTo31();
    hide Pow, Weight;
  }

  lemma EndHere(s: Scaled)
    requires s == Scaled(Ratio(10 * 5192296858536545187234878540039063 * 0x1_0000_0000, 1,
                               200000000000000000000000000000000000000000000, 1), 0x5_0000_0000, 0, 0x5_0000_0000, false)
    ensures EndAt(s, 13, 11150372599269) && (s.f.n - s.l) * Pow(10, 13) == 11150372599269 * s.f.d
  {
    PowersOfTen();
    hide Pow, NothingInside;
    NothingBefore(s, 13, 11150372599269);
  }

  /** The lower end of an odd significand's interval, which does not belong to it, is
      printed: 113 bits as in a binary128 number, and the estimate computed for it. */
  lemma EndPrinted()
    ensures var f, e := 5192296858536545187234878540039063, 31;
            && Acceptable(f, e, false, 44) && Start(f, e, false, 44).Ready()
            && var s, x := Prepared(f, e, false, 44, true), LeadingPlace(f, e, false, 44, true);
            && s.Ready() && !s.even && EndMistaken(s)
            && Decimal(Dec(Shortest(s)), x - (|Shortest(s)| - 1)) == Exact(f, e) - GapBelow(e, false)
                 == Decimal(11150372599269, 30)
  {
    var f, e, w := 5192296858536545187234878540039063, 31, 11150372599269;
    EndSetup();
    hide Pow, RPow, Weight, Start, EndAt, Stands, TooLarge, Shortest, Dec, Acceptable, Exact, GapBelow, GapAbove;
    var s := Prepared(f, e, false, 44, true);
    EndHere(s);
    DragonRoundTrips(f, e, false, 44, true);
    PreparedStands(f, e, false, 44, true);
    hide Prepared;
    EndsMean(s, 43, Exact(f, e), GapBelow(e, false), GapAbove(e), w, 13);
  }

  /** A needless zero is printed: the number is 10^32 itself, and the remainder zero is
      placed above the gap by its exponent. */
  lemma ZeroMissed()
    ensures var f, e := 46566128730773925781250, 31;  // 2 * 5^32
            && Acceptable(f, e, false, 32) && Start(f, e, false, 32).Ready()
            && var s := Prepared(f, e, false, 32, true);
            && s.Ready() && Shortest(s) == [1, 0] && s.Inside(1, 1, false) && DigitMissed(s)
  {
    var f, e := 46566128730773925781250, 31;
    PowersOfTen();
    TwoTo31();
    assert Pow(10, 0) == 1;
    hide Pow, Weight;
    var start := Start(f, e, false, 32);
    assert !TooLarge(start) && start.Ready();
    var s := Prepared(f, e, false, 32, true);
    assert s == start;
    DivRemUnique(s.f.n, s.f.d, 1, 0);
    assert !s.Stops();
    DivRemUnique(0, s.f.d, 0, 0);
    assert s.Next().Stops() && Shortest(s.Next()) == [0];
    assert NothingInside(s, 0, s.even) && Missed(s, 0, 1) && EarlierAt(s, 0, 1);
  }

  /** The end 48 * 10^27 of an even significand's interval, which belongs to it, is missed
      and more digits are printed: 64 bits as in an extended-precision number. */
  lemma EndMissed()
    ensures var f, e := 11175870895385742188, 32;
            && f < UINT64 && Acceptable(f, e, false, 29) && Start(f, e, false, 29).Ready()
            && var s, x := Prepared(f, e, false, 29, true), LeadingPlace(f, e, false, 29, true);
            && s.Ready() && DigitMissed(s) && |Shortest(s)| > 2
            && ShortDecimal(48, 1, x, Exact(f, e), GapBelow(e, false), GapAbove(e), true)
  {
    var f, e := 11175870895385742188, 32;
    PowersOfTen();
    TwoTo31();
    assert Pow(10, 0) == 1;
    hide Pow, Weight, RPow;
    var start := Start(f, e, false, 29);
    assert TooLarge(start) && start.Ready();
    var s := Prepared(f, e, false, 29, true);
    NothingAtFirst(s);
    assert EarlierAt(s, 1, 48);
    MissedIsPassed(s, 1, 48);
    PreparedStands(f, e, false, 29, true);
    InsideMeans(s, 28, Exact(f, e), GapBelow(e, false), GapAbove(e), 48, 1, true);
  }

  lemma NothingAtFirst(s: Scaled)
    requires s.f.d > 0 && 4 * s.f.d < s.f.n - s.l && s.f.n + s.u < 5 * s.f.d
    ensures NothingInside(s, 1, true)
  {
    forall j: nat, v: int | j < 1 ensures !s.Inside(v, Pow(10, j), true) {
      assert Pow(10, j) == 1;
      if v <= 4 {
        MulMonotone(v, 4, s.f.d);
      } else {
        MulMonotone(5, v, s.f.d);
      }
    }
  }

  // ---------- A nearer number passed over ----------

  /** 17089844 * 2^34 with a closer predecessor, on the way through its digits. */
  function Nearer(n: nat, gap: nat, ne: nat): Scaled
  {
    Scaled(Ratio(n, ne, 400000000000000000, 0), gap, 1, 2 * gap, true)
  }

  lemma NearerGoesOn(n: nat, gap: nat, ne: nat, q: nat, r: nat)
    requires n == q * 400000000000000000 + r && q <= 9 && gap < r && r + 2 * gap < 400000000000000000
    requires gap > 0 && (q > 0 || ne == 0)
    ensures var s := Nearer(n, gap, ne);
            s.Ready() && Nearer(10 * r, 10 * gap, 0).Ready()
            && Shortest(s) == [q] + Shortest(Nearer(10 * r, 10 * gap, 0))
  {
    DivRemUnique(n, 400000000000000000, q, r);
    hide DivRem, Weight;
    assert !Nearer(n, gap, ne).Stops();
    assert Nearer(n, gap, ne).Next() == Nearer(10 * r, 10 * gap, 0);
  }

  lemma NearerDigits()
    ensures Nearer(1174405137179869184, 17179869184, 1).Ready()
    ensures Shortest(Nearer(1174405137179869184, 17179869184, 1)) == [2, 9, 3, 6, 0, 1, 2, 9]
  {
    NearerGoesOn(1174405137179869184, 17179869184, 1, 2, 374405137179869184);
    NearerGoesOn(3744051371798691840, 171798691840, 0, 9, 144051371798691840);
    NearerGoesOn(1440513717986918400, 1717986918400, 0, 3, 240513717986918400);
    NearerGoesOn(2405137179869184000, 17179869184000, 0, 6, 5137179869184000);
    NearerGoesOn(51371798691840000, 171798691840000, 0, 0, 51371798691840000);
    NearerGoesOn(513717986918400000, 1717986918400000, 0, 1, 113717986918400000);
    NearerGoesOn(1137179869184000000, 17179869184000000, 0, 2, 337179869184000000);
    var last := Nearer(3371798691840000000, 171798691840000000, 0);
    DivRemUnique(3371798691840000000, 400000000000000000, 8, 171798691840000000);
    assert Shortest(last) == [9] by {
      hide DivRem, Weight;
      assert !last.Low() && last.High();
    }
    hide Shortest;
  }

  /** 29360129 * 10^10 is printed although the lower end 29360128 * 10^10 is nearer and
      belongs to the interval of the even significand. It is no significand of a binary
      format, where only powers of two have a closer predecessor. */
  lemma NearerPassed()
    ensures var f, e := 17089844, 34;
            && Acceptable(f, e, true, 17) && Start(f, e, true, 17).Ready()
            && var s := Prepared(f, e, true, 17, true);
            && s.Ready() && Dec(Shortest(s)) == 29360129 && |Shortest(s)| == 8 && NearestMissed(s)
            && Overlooked(s, 7, 29360128)
  {
    NearerSetup();
    hide Start, Pow, Weight, Shortest, TooLarge, Acceptable, Prepared;
    NearerDigits();
    var s := Nearer(1174405137179869184, 17179869184, 1);
    EightDigits();
    SevenPlaces(s);
    assert OverlooksAt(s, 7);
  }

  lemma NearerSetup()
    ensures Acceptable(17089844, 34, true, 17) && Start(17089844, 34, true, 17).Ready()
    ensures Prepared(17089844, 34, true, 17, true) == Nearer(1174405137179869184, 17179869184, 1)
  {
    TwoTo31();
    assert Pow(2, 2) == 4 && Pow(2, 4) == 16;
    PowAdd(2, 32, 4);
    PowAdd(2, 32, 2);
    PowAdd(2, 32, 3);
    assert Pow(2, 3) == 8;
    PowersOfTen();
    assert Pow(10, 4) == 10000;
    PowAdd(10, 13, 4);
    hide Pow, Weight;
  }

  lemma EightDigits()
    ensures Dec([2, 9, 3, 6, 0, 1, 2, 9]) == 29360129
  {
  }

  lemma SevenPlaces(s: Scaled)
    requires s == Nearer(1174405137179869184, 17179869184, 1)
    ensures Overlooked(s, 7, 29360128)
  {
    assert Pow(10, 3) == 1000 && Pow(10, 4) == 10000;
    PowAdd(10, 3, 4);
    hide Pow, Weight;
  }

  // ---------- A fixed precision that becomes negative ----------

  /** The number nearest to 0.009 with 64 bits, from the place 10^-3 on. */
  function Nearly9(gap: nat): Scaled
  {
    Scaled(Ratio(21250649172913403462000, 0, 2361183241434822606848, 2), gap, 0, gap, false)
  }

  /** With its gaps scaled like the number it is 9, and with a tenth of them it is not yet. */
  lemma DigitNine()
    ensures Nearly9(1000).Ready() && Shortest(Nearly9(1000)) == [9]
    ensures var s := Nearly9(100);
            s.Ready() && !s.Stops() && s.Next().Ready() && Shortest(s) == [9] + Shortest(s.Next())
  {
    DivRemUnique(21250649172913403462000, 2361183241434822606848, 9, 368);
    hide DivRem, Weight;
  }

  lemma StartNearly9()
    ensures Start(10625324586456701731, -70, false, -2)
            == Scaled(Ratio(2125064917291340346200, 0, 2361183241434822606848, 2), 100, 0, 100, false)
  {
    SmallShifts();
    assert Pow(10, 2) == 100 && Pow(2, 7) == 128;
    TwoTo32();
    PowAdd(2, 32, 32);
    PowAdd(2, 64, 7);
    hide Pow;
  }

  /** That number with one place after the point: the digits asked for become -1, so that
      none is wanted, the shortest mode is taken, and it prints more than the shortest 9. */
  method NearlyNine() returns (result: Outcome)
    ensures result.Formatted? && |result.digits| > 1 && result.digits[0] == '9'
    ensures AdjustPrecision(1, -2) == Some(-1)
    ensures var s := Prepared(10625324586456701731, -70, false, -2, true); s.Ready() && Shortest(s) == [9]
  {
    StartNearly9();
    hide Pow, Start;
    DigitNine();
    hide Shortest, Weight;
    result := FormatDragon(10625324586456701731, -70, false, true, true, 1, -2);
  }
}