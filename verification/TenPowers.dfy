/** Numbers f * 2^e that are powers of ten, and where format_dragon mistakes them. */
module TenPowers {
  import opened MachineInts
  import opened Powers
  import opened Limbs
  import opened Decimals
  import opened DigitGeneration
  import opened Dragon

  /** A power of ten with a significand below 5^30 has a binary exponent below 30, so for
      doubles no power of ten ever meets a denominator with a smaller bigint exponent. */
  lemma PowersOfTenAreSmall(f: nat, e: nat, m: nat)
    requires 0 < f < Pow(5, 30) && f * Pow(2, e) == Pow(10, m)
    ensures e < 30
  {
    PowProduct(2, 5, m);
    if e > m {
      TooManyTwos(f, e, m);
    } else if m >= 30 {
      TooManyFives(f, e, m);
    }
  }

  lemma TooManyTwos(f: nat, e: nat, m: nat)
    requires e > m
    ensures f * Pow(2, e) != Pow(2, m) * Pow(5, m)
  {
    PowPositive(2, m);
    PowAdd(2, e - m, m);
    var a, p, five := Pow(2, e - m - 1), Pow(2, m), Pow(5, m);
    assert Pow(2, e) == (2 * a) * p;
    FiveIsOdd(m);
    hide *;
    EvenProduct(f, a);
    MulAssoc(f, 2 * a, p);
    MulCancel(f * (2 * a), five, p);
    assert p * five == five * p;
  }

  lemma TooManyFives(f: nat, e: nat, m: nat)
    requires 30 <= m && e <= m && f < Pow(5, 30)
    ensures f * Pow(2, e) != Pow(2, m) * Pow(5, m)
  {
    hide *;
    PowPositive(2, e);
    PowPositive(2, m - e);
    PowAdd(2, e, m - e);
    PowMonotone(5, 30, m);
    assert e + (m - e) == m;
    SmallFactor(f, Pow(2, m - e), Pow(2, e), Pow(5, m));
  }

  lemma SmallFactor(f: int, a: int, p: int, five: int)
    requires 0 <= f < five && a > 0 && p > 0
    ensures f * p != (p * a) * five
  {
    MulMonotone(1, a, five);
    MulAssoc(p, a, five);
    MulCancel(f, a * five, p);
  }

  lemma EvenProduct(f: nat, p: nat)
    ensures (f * (2 * p)) % 2 == 0
  {
    assert f * (2 * p) == 2 * (f * p);
  }

  lemma {:induction false} FiveIsOdd(m: nat)
    ensures Pow(5, m) % 2 == 1
  {
    if m > 0 {
      FiveIsOdd(m - 1);
    }
  }

  lemma FiveTo30()
    ensures Pow(5, 30) > 0x20_0000_0000_0000
  {
    assert Pow(5, 5) == 3125;
    PowAdd(5, 5, 5);
    PowAdd(5, 10, 10);
    PowAdd(5, 20, 10);
  }

  lemma NotAPower(f: nat, e: nat, j: nat, x: nat)
    requires 0 < f < Pow(5, 30) && e >= 30
    ensures (f * Pow(2, e)) * Pow(10, j) != Pow(10, x)
  {
    hide *;
    var n := f * Pow(2, e);
    PowPositive(2, e);
    PowPositive(10, j);
    MulPositive(f, Pow(2, e));
    if n * Pow(10, j) == Pow(10, x) {
      if j > x {
        PowStrict(10, x, j);
        MulMonotone(1, n, Pow(10, j));
      } else {
        PowAdd(10, x - j, j);
        assert x - j + j == x;
        MulCancel(n, Pow(10, x - j), Pow(10, j));
        PowersOfTenAreSmall(f, e, x - j);
      }
    }
  }

  // ---------- The mistaken division ----------

  /** A mistaken dividend is f * 2^e == 10^m for an m from e to the estimate. */
  lemma MistakenPower(f: nat, e: int, closer: bool, exp10: int, j: nat)
    requires Acceptable(f, e, closer, exp10) && MistakenAt(Start(f, e, closer, exp10).f, j)
    ensures e >= 30 && e <= exp10 - j && f * Pow(2, e) == Pow(10, exp10 - j)
    ensures (e + Shift(closer)) / 32 > exp10 / 32
  {
    hide Start, MistakenAt, Acceptable;
    StartMistaken(f, e, closer, exp10, j);
    ArgumentsOf(f, e, closer, exp10);
    PowPositive(2, e);
    PowPositive(10, j);
    MulPositive(f, Pow(2, e));
    hide Pow;
    if j > exp10 {
      PowStrict(10, exp10, j);
      MulMonotone(1, f * Pow(2, e), Pow(10, j));
    } else {
      var m := exp10 - j;
      PowAdd(10, m, j);
      assert m + j == exp10;
      MulCancel(f * Pow(2, e), Pow(10, m), Pow(10, j));
      if e > m {
        PowProduct(2, 5, m);
        assert 2 * 5 == 10;
        TooManyTwos(f, e, m);
      }
    }
  }

  lemma ArgumentsOf(f: nat, e: int, closer: bool, exp10: int)
    requires Acceptable(f, e, closer, exp10)
    ensures 0 < f < UINT128 && (e >= 0 ==> exp10 >= 0)
  {
  }

  /** With equal half-gaps the division is mistaken for one number and estimate only. */
  lemma OnlyMistaken(f: nat, e: int, exp10: int, j: nat)
    requires Acceptable(f, e, false, exp10)
    ensures MistakenAt(Start(f, e, false, exp10).f, j) <==>
            f == 4656612873077392578125 && e == 31 && exp10 == 31 && j == 0  // f == 5^31
  {
    ArgumentsOf(f, e, false, exp10);
    hide Start, MistakenAt, Acceptable, Pow;
    FiveTo31();
    if MistakenAt(Start(f, e, false, exp10).f, j) {
      MistakenPower(f, e, false, exp10, j);
      assert e == exp10 && j == 0;
      FiveToE(f, e);
    }
    if f == 4656612873077392578125 && e == 31 && exp10 == 31 && j == 0 {
      TenTo31Mistaken();
    }
  }

  lemma TenTo31Mistaken()
    ensures MistakenAt(Start(4656612873077392578125, 31, false, 31).f, 0)
  {
    assert Pow(10, 0) == 1;
    hide Start, Pow;
    SetupTenTo31();
  }

  /** Where the last place of a bigit is odd the significand is the power of five. */
  lemma FiveToE(f: nat, e: nat)
    requires f * Pow(2, e) == Pow(10, e) && f < UINT128 && e % 32 == 31
    ensures f == Pow(5, e) && e == 31
  {
    hide Pow;
    PowProduct(2, 5, e);
    assert 2 * 5 == 10;
    PowPositive(2, e);
    assert Pow(2, e) * Pow(5, e) == Pow(5, e) * Pow(2, e);
    MulCancel(f, Pow(5, e), Pow(2, e));
    if e > 31 {
      PowMonotone(5, 63, e);
      FiveTo31();
      PowAdd(5, 31, 31);
      PowAdd(5, 62, 1);
      FiveTo63(Pow(5, 63));
    }
  }

  lemma FiveTo63(p: nat)
    requires p == Pow(5, 62) * Pow(5, 1) && Pow(5, 62) == Pow(5, 31) * Pow(5, 31)
    ensures p > UINT128
  {
    FiveTo31();
    assert Pow(5, 1) == 5;
    hide Pow;
  }

  lemma FiveTo31()
    ensures Pow(5, 31) == 4656612873077392578125
  {
    assert Pow(5, 1) == 5 && Pow(5, 5) == 3125;
    hide Pow;
    PowAdd(5, 5, 5);
    PowAdd(5, 10, 10);
    PowAdd(5, 20, 10);
    PowAdd(5, 30, 1);
  }

  /** With the predecessor closer the significand would have to be a multiple of five, and
      the one with a closer predecessor is a power of two. */
  lemma CloserNeverMistaken(f: nat, k: nat, e: int, exp10: int, j: nat)
    requires f == Pow(2, k) && Acceptable(f, e, true, exp10)
    ensures !MistakenAt(Start(f, e, true, exp10).f, j)
  {
    ArgumentsOf(f, e, true, exp10);
    hide Start, MistakenAt, Acceptable, Pow;
    if MistakenAt(Start(f, e, true, exp10).f, j) {
      MistakenPower(f, e, true, exp10, j);
      var n, m := k + e, exp10 - j;
      PowAdd(2, k, e);
      assert Pow(2, n) == Pow(10, m);
      NoTwosAreTens(n, m);
    }
  }

  lemma NoTwosAreTens(n: nat, m: nat)
    requires m >= 1
    ensures Pow(2, n) != Pow(10, m)
  {
    TwosByFive(n);
    var p := Pow(10, m - 1);
    assert Pow(10, m) == 10 * p;
    hide Pow;
    assert (10 * p) % 5 == 0;
  }

  lemma {:induction false} TwosByFive(n: nat)
    ensures Pow(2, n) % 5 != 0
  {
    if n > 0 {
      TwosByFive(n - 1);
    }
  }

  // ---------- The one mistaken number ----------

  lemma SetupTenTo31()
    ensures var f, s := 4656612873077392578125, Start(4656612873077392578125, 31, false, 31);
            && Acceptable(f, 31, false, 31) && s.Ready()
            && s == Scaled(Ratio(20000000000000000000000000000000, 1, 20000000000000000000000000000000, 0),
                           0x8000_0000, 0, 0x8000_0000, false)
  {
    TwosAndTens();
    hide Pow;
  }

  lemma TwosAndTens()
    ensures Pow(2, 1) == 2 && Pow(2, 31) == 0x8000_0000 && Pow(2, 32) == 0x1_0000_0000
    ensures Pow(10, 31) == 10000000000000000000000000000000
  {
    assert Pow(2, 1) == 2 && Pow(2, 8) == 256 && Pow(2, 32) == 2 * Pow(2, 31);
    assert Pow(10, 1) == 10 && Pow(10, 5) == 100000;
    hide Pow;
    PowAdd(2, 8, 8);
    PowAdd(2, 16, 16);
    PowAdd(10, 5, 5);
    PowAdd(10, 10, 10);
    PowAdd(10, 20, 10);
    PowAdd(10, 30, 1);
  }

  lemma ShortestOne(s: Scaled)
    requires s.Ready() && s.f.n == s.f.d && s.f.ne > s.f.de && GapReaches(s)
    ensures Shortest(s) == [1]
  {
    MistakenRounds(s, true);
  }

  lemma OverrunTwo(f: Ratio, exp10: int, buf: string, exp: int)
    requires f.d > 0 && MistakenAt(f, 0) && FixedText(f, 2, exp10, buf, exp)
    ensures buf == "0:" && exp == exp10 - 1
  {
    assert Overrun(f, 2);
    assert Zeros(1) == [0] && Zeros(0) == [];
    assert Text([0]) == "0" && Text([]) == "";
    hide MistakenAt;
  }

  /** 10^31 with the estimate 31: with two digits it comes out as "0:", and in shortest mode
      it is right. */
  method TenTo31() returns (fixed: Outcome, shortest: Outcome)
    ensures fixed == Formatted("0:", 30) && shortest == Formatted("1", 31)
  {
    var f := 4656612873077392578125;
    SetupTenTo31();
    OnlyMistaken(f, 31, 31, 0);
    StartReaches(f, 31, false, 31);
    ghost var s := Start(f, 31, false, 31);
    assert s.f.n == s.f.d && s.f.ne > s.f.de;
    hide Start, MistakenAt, Acceptable, Pow, FixedText, GapReaches, Shortest;
    ShortestOne(s);
    fixed := FormatDragon(f, 31, false, false, false, 2, 31);
    OverrunTwo(s.f, 31, fixed.digits, fixed.exp10);
    shortest := FormatDragon(f, 31, false, false, false, -1, 31);
    assert Text([1]) == "1";
  }
}
