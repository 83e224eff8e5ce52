/** format_dragon: exact decimal digits of f * 2^e by bigint arithmetic. */
module Dragon {
  import opened MachineInts
  import opened Powers
  import opened Limbs
  import opened Bigints
  import opened Decimals
  import opened DigitGeneration

  /** The dividend that divmod_assign takes for smaller: equal, with the larger exponent. */
  predicate Mistaken(f: Ratio)
  {
    f.n == f.d && f.ne > f.de
  }

  /** What the division yields and leaves, the mistake included. */
  function CodeDigit(f: Ratio): nat
    requires f.d > 0
  {
    if Mistaken(f) then 0 else f.Digit()
  }

  function CodeRest(f: Ratio): nat
    requires f.d > 0
  {
    if Mistaken(f) then f.n else f.Rest()
  }

  function CodeNext(f: Ratio): Ratio
    requires f.d > 0
  {
    Ratio(10 * CodeRest(f), if Mistaken(f) then f.ne else f.RestExp(), f.d, f.de)
  }

  /** The loop state of both digit loops: the ratio is at most ten. */
  ghost predicate Holds(numerator: Bigint, denominator: Bigint, f: Ratio)
    reads numerator, denominator
  {
    && numerator != denominator && numerator.Valid() && denominator.Valid() && f.d > 0
    && numerator.Number() == f.n <= 10 * f.d && numerator.exp == f.ne
    && denominator.Number() == f.d && denominator.exp == f.de
    && (f.n == 0 ==> numerator.NumBigits() <= denominator.NumBigits())
  }

  /** The state after the division: the numerator holds the remainder. */
  ghost predicate HoldsRest(numerator: Bigint, denominator: Bigint, f: Ratio)
    reads numerator, denominator
  {
    && numerator != denominator && numerator.Valid() && denominator.Valid() && f.d > 0
    && numerator.Number() == CodeRest(f) <= f.d && numerator.exp == CodeNext(f).ne
    && denominator.Number() == f.d && denominator.exp == f.de
    && (CodeRest(f) == 0 ==> numerator.NumBigits() <= denominator.NumBigits())
  }

  ghost predicate HoldsGaps(lower: Bigint, upper: Bigint, s: Scaled)
    reads lower, upper
  {
    && lower.Valid() && upper.Valid()
    && lower.Number() == s.l && lower.exp == s.le && upper.Number() == s.u
  }

  lemma TenTimesFits(s: seq<Bigit>, e: nat, t: seq<Bigit>, f: nat)
    requires Canonical(s) && Canonical(t) && Value(s, e) <= 10 * Value(t, f)
    requires Value(s, e) == 0 ==> Places(s, e) <= Places(t, f)
    ensures Places(s, e) <= Places(t, f) + 1
  {
    ValueZero(s, e);
    if Value(s, e) > 0 && Places(s, e) > Places(t, f) + 1 {
      PlacesBracket(s, e);
      ValueBound(t, f);
      WeightStep(Places(t, f));
      WeightMonotone(Places(t, f) + 1, Places(s, e) - 1);
    }
  }

  /** One division step. */
  method DivideDigit(numerator: Bigint, denominator: Bigint, ghost f: Ratio) returns (digit: nat)
    requires Holds(numerator, denominator, f)
    modifies numerator
    ensures HoldsRest(numerator, denominator, f)
    ensures digit == CodeDigit(f) <= 10 && (f.n < 10 * f.d ==> digit <= 9)
  {
    TenTimesFits(numerator.bigits, numerator.exp, denominator.bigits, denominator.exp);
    digit := numerator.DivmodAssign(denominator);
    DigitOf(f, digit, numerator.Number());
  }

  /** The quotient and remainder of a division that may have been mistaken. */
  lemma DigitOf(f: Ratio, digit: nat, rest: nat)
    requires f.d > 0 && Divided(f.n, digit, f.d, rest) && (rest < f.d <==> !Mistaken(f)) && f.n <= 10 * f.d
    ensures digit == CodeDigit(f) <= 10 && rest == CodeRest(f) <= f.d && (f.n < 10 * f.d ==> digit <= 9)
  {
    if Mistaken(f) {
      NotEvenOnce(digit, f.d, rest);
    } else {
      DivRemUnique(f.n, f.d, digit, rest);
      if digit >= 10 {
        MulMonotone(10, digit, f.d);
      }
      if digit >= 11 {
        MulMonotone(11, digit, f.d);
      }
    }
  }

  /** The multiplication by ten between two digits. */
  method NextDigit(numerator: Bigint, denominator: Bigint, ghost f: Ratio)
    requires HoldsRest(numerator, denominator, f)
    modifies numerator`bigits
    ensures Holds(numerator, denominator, CodeNext(f))
  {
    ValueZero(numerator.bigits, numerator.exp);
    ValZero(numerator.bigits);
    numerator.Multiply(10);
    ValueZero(numerator.bigits, numerator.exp);
    ValZero(numerator.bigits);
  }

  /** compare(numerator, lower) - even < 0 is the exponent-sensitive LowTest. */
  lemma LowTestMeans(s: seq<Bigit>, e: nat, t: seq<Bigit>, f: nat, even: bool)
    requires Canonical(s) && Canonical(t) && Value(t, f) > 0
    ensures Verdict(s, e, t, f) - (if even then 1 else 0) < 0 <==> LowTest(Value(s, e), e, Value(t, f), f, even)
  {
    ValueZero(s, e);
    ValueZero(t, f);
    ValZero(s);
    if Val(s) == 0 {
      PlacesBracket(t, f);
      if Places(t, f) <= e {
        WeightMonotone(Places(t, f), e);
      } else {
        WeightMonotone(e, Places(t, f) - 1);
      }
    }
  }

  // ---------- Shortest representation ----------

  /** Whether the remainder is within the lower, or within the upper, half-gap. */
  method Boundaries(numerator: Bigint, denominator: Bigint, lower: Bigint, upper: Bigint, even: bool, ghost s: Scaled)
    returns (low: bool, high: bool)
    requires HoldsRest(numerator, denominator, s.f) && HoldsGaps(lower, upper, s)
    requires s.l > 0 && s.u > 0 && even == s.even
    ensures low == LowTest(CodeRest(s.f), CodeNext(s.f).ne, s.l, s.le, even)
    ensures high == (CodeRest(s.f) + s.u > s.f.d || (CodeRest(s.f) + s.u == s.f.d && even))
  {
    var c := Bigint.Compare(numerator, lower);
    LowTestMeans(numerator.bigits, numerator.exp, lower.bigits, lower.exp, even);
    low := c - (if even then 1 else 0) < 0;
    c := Bigint.AddCompare(numerator, upper, denominator);
    high := c + (if even then 1 else 0) > 0;
  }

  method LastShortest(numerator: Bigint, denominator: Bigint, digit: nat, low: bool, high: bool, ghost f: Ratio)
    returns (last: nat)
    requires HoldsRest(numerator, denominator, f) && digit == CodeDigit(f)
    ensures last == if !low || (high && RoundsUp(digit, CodeRest(f), f.d)) then digit + 1 else digit
  {
    last := digit;
    if !low {
      last := last + 1;
    } else if high {
      var result := Bigint.AddCompare(numerator, numerator, denominator);
      // Round half to even.
      if result > 0 || (result == 0 && digit % 2 != 0) {
        last := last + 1;
      }
    }
  }

  /** Where the numerator stands above the denominator, the lower gap reaches up to the
      denominator's lowest place. */
  predicate GapReaches(s: Scaled)
  {
    s.f.ne > s.f.de ==> s.l >= Weight(s.f.de)
  }

  /** A mistaken digit is rounded up: the shortest mode ends with the digit it should end with. */
  lemma MistakenRounds(s: Scaled, low: bool)
    requires s.Ready() && GapReaches(s) && Mistaken(s.f)
    ensures s.Stops() && s.LastDigit() == 1 && CodeDigit(s.f) == 0 && RoundsUp(0, CodeRest(s.f), s.f.d)
  {
    DivRemUnique(s.f.n, s.f.d, 1, 0);
  }

  /** The next digit, and whether it is the last. */
  method ShortestDigit(numerator: Bigint, denominator: Bigint, lower: Bigint, upper: Bigint, even: bool, ghost s: Scaled)
    returns (digit: nat, last: bool)
    requires numerator !in {lower, upper}
    requires Holds(numerator, denominator, s.f) && HoldsGaps(lower, upper, s)
    requires s.Ready() && GapReaches(s) && even == s.even
    modifies numerator
    ensures HoldsRest(numerator, denominator, s.f)
    ensures last == s.Stops() && digit == (if last then s.LastDigit() else s.f.Digit()) <= 9
    ensures !last ==> !Mistaken(s.f)
  {
    FirstDigitBound(s);
    digit := DivideDigit(numerator, denominator, s.f);
    var low, high := Boundaries(numerator, denominator, lower, upper, even, s);
    if Mistaken(s.f) {
      MistakenRounds(s, low);
    }
    last := low || high;
    if last {
      digit := LastShortest(numerator, denominator, digit, low, high, s.f);
    }
  }

  /** Scales by ten; the upper gap may be the same object as the lower. */
  method Advance(numerator: Bigint, denominator: Bigint, lower: Bigint, upper: Bigint, ghost s: Scaled)
    requires numerator !in {lower, upper} && denominator !in {lower, upper}
    requires HoldsRest(numerator, denominator, s.f) && HoldsGaps(lower, upper, s) && !Mistaken(s.f)
    modifies numerator`bigits, lower`bigits, upper`bigits
    ensures Holds(numerator, denominator, s.Next().f) && HoldsGaps(lower, upper, s.Next())
  {
    NextDigit(numerator, denominator, s.f);
    lower.Multiply(10);
    if upper != lower {
      upper.Multiply(10);
    }
  }

  /** One round of the loop. */
  method ShortestRound(numerator: Bigint, denominator: Bigint, lower: Bigint, upper: Bigint, even: bool, ghost s: Scaled)
    returns (digit: nat, last: bool)
    requires Running(numerator, denominator, lower, upper, even, s) && s.Ready()
    modifies numerator, lower, upper
    ensures last == s.Stops() && digit == (if last then s.LastDigit() else s.f.Digit()) <= 9
    ensures !last ==> Running(numerator, denominator, lower, upper, even, s.Next()) && s.Next().Ready()
  {
    digit, last := ShortestDigit(numerator, denominator, lower, upper, even, s);
    if !last {
      Advance(numerator, denominator, lower, upper, s);
    }
  }

  ghost predicate Running(numerator: Bigint, denominator: Bigint, lower: Bigint, upper: Bigint, even: bool, s: Scaled)
    reads numerator, denominator, lower, upper
  {
    && numerator !in {denominator, lower, upper} && denominator !in {lower, upper}
    && Holds(numerator, denominator, s.f) && HoldsGaps(lower, upper, s)
    && s.Ready() && GapReaches(s) && even == s.even
  }

  /** Generates the shortest representation. */
  method GenerateShortest(numerator: Bigint, denominator: Bigint, lower: Bigint, upper: Bigint,
                          even: bool, exp10: int, ghost start: Scaled) returns (buf: string, exp: int)
    requires Running(numerator, denominator, lower, upper, even, start) && start.Ready()
    modifies numerator, lower, upper
    ensures var ds := Shortest(start);
            Writable(ds) && buf == Text(ds) && exp == exp10 - (|ds| - 1)
  {
    hide Running;
    ghost var s, ds := start, [];
    buf := [];
    while true
      invariant Running(numerator, denominator, lower, upper, even, s)
      invariant s.Ready() && s.f.d == start.f.d
      invariant Shortest(start) == ds + Shortest(s)
      invariant Writable(ds) && buf == Text(ds)
      decreases 10 * s.f.d - s.u
    {
      var digit, last := ShortestRound(numerator, denominator, lower, upper, even, s);
      buf := buf + [Chr(digit)];
      ds := ds + [digit];
      if last {
        exp := exp10 - (|buf| - 1);
        return;
      }
      s := s.Next();
    }
  }

  // ---------- A given number of digits ----------

  /** count digits with the final exponent denote n / d rounded to count digits, halves
      to even: either the rounded number itself or, if it has become 10^count, the
      same as 10...0 with the exponent raised by one. */
  ghost predicate RoundedTo(n: nat, d: nat, count: nat, exp10: int, buf: string, exp: int)
    requires d > 0 && count >= 1
  {
    var v := RoundHalfEven(n * Pow(10, count - 1), d);
    && |buf| == count && IsDecimal(buf)
    && if v < Pow(10, count) then Read(buf) == v && exp == exp10 - (count - 1)
       else v == Pow(10, count) && Read(buf) == Pow(10, count - 1) && exp == exp10 - (count - 1) + 1
  }

  /** ds are the leading digits of f, g what is left to generate. */
  ghost predicate LeadsTo(f: Ratio, ds: seq<nat>, g: Ratio)
  {
    g.d == f.d && f.n * Pow(10, |ds|) == Dec(ds) * (10 * f.d) + g.n
  }

  lemma LeadsToNext(f: Ratio, ds: seq<nat>, g: Ratio)
    requires f.d > 0 && LeadsTo(f, ds, g)
    ensures LeadsTo(f, ds + [CodeDigit(g)], CodeNext(g))
  {
    DecSnoc(ds, CodeDigit(g));
    TenTimesMore(f.n, |ds|);
    DivRemMeans(g.n, g.d);
    hide Pow, Dec, DivRem;
    LeadsNext(f.n * Pow(10, |ds|), Dec(ds), f.d, g.n, CodeDigit(g), CodeRest(g));
  }

  /** The ratio and the digits after i rounds. */
  function CodeAfter(f: Ratio, i: nat): (g: Ratio)
    requires f.d > 0
    ensures g.d == f.d && g.de == f.de
  {
    if i == 0 then f else CodeNext(CodeAfter(f, i - 1))
  }

  function CodeDigits(f: Ratio, i: nat): (ds: seq<nat>)
    requires f.d > 0
    ensures |ds| == i
  {
    if i == 0 then [] else CodeDigits(f, i - 1) + [CodeDigit(CodeAfter(f, i - 1))]
  }

  /** Digit j, counted from zero, meets the dividend that is mistaken. */
  predicate MistakenAt(f: Ratio, j: nat)
  {
    f.ne > f.de && f.n * Pow(10, j) == f.d
  }

  /** Before that the digits are right. */
  lemma {:induction false} RightDigits(f: Ratio, i: nat)
    requires f.d > 0 && f.n < 10 * f.d && forall j: nat :: j < i ==> !MistakenAt(f, j)
    ensures var g := CodeAfter(f, i);
            && AllDigits(CodeDigits(f, i)) && g.n < 10 * g.d
            && (g.ne > g.de ==> f.ne > f.de && g.n == f.n * Pow(10, i))
            && (Mistaken(g) ==> MistakenAt(f, i))
  {
    if i == 0 {
      assert Pow(10, 0) == 1;
    } else {
      RightDigits(f, i - 1);
      var g := CodeAfter(f, i - 1);
      DivRemMeans(g.n, g.d);
      TenTimesMore(f.n, i - 1);
      hide Pow, DivRem;
      RightDigit(g);
    }
  }

  lemma RightDigit(g: Ratio)
    requires g.d > 0 && g.n < 10 * g.d && !Mistaken(g)
    ensures CodeDigit(g) <= 9 && CodeNext(g).n < 10 * g.d
    ensures CodeNext(g).ne > g.de ==> g.ne > g.de && CodeNext(g).n == 10 * g.n
  {
    DivRemMeans(g.n, g.d);
    if g.Digit() >= 10 {
      MulMonotone(10, g.Digit(), g.d);
    }
  }

  function Zeros(k: nat): (ds: seq<nat>)
    ensures |ds| == k
  {
    seq(k, i => 0)
  }

  /** Up to it they are zeros. */
  lemma {:induction false} ZerosBefore(f: Ratio, j: nat, i: nat)
    requires f.d > 0 && MistakenAt(f, j) && i <= j
    ensures CodeAfter(f, i) == Ratio(f.n * Pow(10, i), f.ne, f.d, f.de) && CodeDigits(f, i) == Zeros(i)
  {
    if i == 0 {
      assert Pow(10, 0) == 1;
    } else {
      ZerosBefore(f, j, i - 1);
      TenTimesMore(f.n, i - 1);
      BelowMistake(f, i - 1, j);
      hide Pow, DivRem;
      assert CodeAfter(f, i - 1).n < f.d;
      assert Zeros(i) == Zeros(i - 1) + [0];
    }
  }

  lemma BelowMistake(f: Ratio, i: nat, j: nat)
    requires f.d > 0 && f.n * Pow(10, j) == f.d && i < j
    ensures f.n * Pow(10, i) < f.d
  {
    PowStrict(10, i, j);
    if f.n > 0 {
      MulStrict(Pow(10, i), Pow(10, j), f.n);
    }
  }

  /** From it on they are a zero, a ten and zeros. */
  function MistakenDigits(j: nat, i: nat): seq<nat>
    requires i > j
  {
    if i == j + 1 then Zeros(i) else Zeros(j + 1) + [10] + Zeros(i - j - 2)
  }

  lemma {:induction false} DigitsAfter(f: Ratio, j: nat, i: nat)
    requires f.d > 0 && MistakenAt(f, j) && i > j
    ensures CodeDigits(f, i) == MistakenDigits(j, i)
    ensures CodeAfter(f, i).n == if i == j + 1 then 10 * f.d else 0
  {
    if i == j + 1 {
      ZerosBefore(f, j, j);
      assert Zeros(i) == Zeros(j) + [0];
    } else {
      hide MistakenAt, DivRem;
      DigitsAfter(f, j, i - 1);
      MistakenDigitsSnoc(j, i);
      DivRemUnique(10 * f.d, f.d, 10, 0);
    }
  }

  lemma MistakenDigitsSnoc(j: nat, i: nat)
    requires i >= j + 2
    ensures MistakenDigits(j, i) == MistakenDigits(j, i - 1) + [if i == j + 2 then 10 else 0]
  {
    if i == j + 2 {
      assert Zeros(0) == [];
    } else {
      assert Zeros(i - j - 2) == Zeros(i - j - 3) + [0];
    }
  }

  lemma LeadsToQuotient(f: Ratio, ds: seq<nat>, g: Ratio)
    requires f.d > 0 && LeadsTo(f, ds, g)
    ensures DivRem(f.n * Pow(10, |ds|), f.d) == (Dec(ds + [g.Digit()]), g.Rest())
  {
    hide Pow, Dec, DivRem;
    DecSnoc(ds, g.Digit());
    DivRemMeans(g.n, g.d);
    QuotientOf(f.n * Pow(10, |ds|), Dec(ds), f.d, g.n, g.Digit(), g.Rest());
  }

  lemma QuotientOf(x: nat, v: nat, d: nat, n: nat, q: nat, r: nat)
    requires r < d && x == v * (10 * d) + n && n == q * d + r
    ensures DivRem(x, d) == (10 * v + q, r)
  {
    LeadsNext(x, v, d, n, q, r);
    hide *;
    DivRemUnique(x, d, 10 * v + q, r);
  }

  lemma LeadsNext(x: int, v: int, d: int, n: int, q: int, r: int)
    requires x == v * (10 * d) + n && n == q * d + r
    ensures x == (10 * v + q) * d + r
    ensures 10 * x == (10 * v + q) * (10 * d) + 10 * r
  {
    MulAssoc(v, 10, d);
    assert (10 * v + q) * d == (10 * v) * d + q * d;
    MulAssoc(10 * v + q, 10, d);
  }

  lemma TenTimesMore(n: nat, k: nat)
    ensures n * Pow(10, k + 1) == 10 * (n * Pow(10, k))
    ensures n * Pow(10, k + 1) == (10 * n) * Pow(10, k)
  {
    var p := Pow(10, k);
    assert Pow(10, k + 1) == 10 * p;
    MulAssoc(n, 10, p);
    MulAssoc(10, n, p);
  }

  /** Rounding the last digit rounds the whole number, a mistaken one too. */
  lemma RoundedLast(f: Ratio, ds: seq<nat>, g: Ratio, up: bool)
    requires f.d > 0 && LeadsTo(f, ds, g) && up == RoundsUp(CodeDigit(g), CodeRest(g), g.d)
    ensures RoundHalfEven(f.n * Pow(10, |ds|), f.d) == Dec(ds + [CodeDigit(g)]) + (if up then 1 else 0)
  {
    LeadsToQuotient(f, ds, g);
    DecSnoc(ds, g.Digit());
    DecSnoc(ds, CodeDigit(g));
    if Mistaken(g) {
      DivRemUnique(g.n, g.d, 1, 0);
    }
    hide Pow, Dec, DivRem;
    RoundedDigit(f.n * Pow(10, |ds|), f.d, Dec(ds), g);
  }

  lemma RoundedDigit(x: nat, d: nat, v: nat, g: Ratio)
    requires d > 0 && g.d == d && DivRem(x, d) == (10 * v + g.Digit(), g.Rest())
    requires Mistaken(g) ==> g.Digit() == 1 && g.Rest() == 0
    ensures RoundHalfEven(x, d) == 10 * v + CodeDigit(g) + (if RoundsUp(CodeDigit(g), CodeRest(g), d) then 1 else 0)
  {
    RoundsUpParity(v, g.Digit(), g.Rest(), d);
    RoundHalfEvenIs(x, d, 10 * v + g.Digit(), g.Rest());
    hide DivRem;
  }

  lemma RoundsUpParity(x: nat, q: nat, r: nat, d: nat)
    ensures RoundsUp(10 * x + q, r, d) <==> RoundsUp(q, r, d)
  {
  }

  lemma RoundHalfEvenIs(n: nat, d: nat, q: nat, r: nat)
    requires d > 0 && DivRem(n, d) == (q, r)
    ensures RoundHalfEven(n, d) == if RoundsUp(q, r, d) then q + 1 else q
  {
  }

  /** The digits before the last one. */
  method LeadingDigits(numerator: Bigint, denominator: Bigint, numDigits: nat, ghost f: Ratio)
    returns (buf: string, ghost ds: seq<nat>, ghost g: Ratio)
    requires numDigits >= 1 && Holds(numerator, denominator, f)
    modifies numerator
    ensures Holds(numerator, denominator, g) && LeadsTo(f, ds, g)
    ensures ds == CodeDigits(f, numDigits - 1) && g == CodeAfter(f, numDigits - 1)
    ensures Writable(ds) && buf == Text(ds)
  {
    buf, ds, g := [], [], f;
    for i := 0 to numDigits - 1
      invariant Holds(numerator, denominator, g) && LeadsTo(f, ds, g)
      invariant ds == CodeDigits(f, i) && g == CodeAfter(f, i) && Writable(ds) && buf == Text(ds)
    {
      var digit := DivideDigit(numerator, denominator, g);
      buf := buf + [Chr(digit)];
      NextDigit(numerator, denominator, g);
      LeadsToNext(f, ds, g);
      ds, g := ds + [digit], CodeNext(g);
    }
  }

  /** Turns a last '9' + 1 into a carry through the nines before it. */
  method CarryNine(digits: string, exp10: int, ghost before: seq<nat>) returns (buf: string, exp: int)
    requires |before| >= 1 && AllDigits(before[..|before| - 1]) && Writable(before) && digits == Text(before)
    ensures |buf| == |before| && IsDecimal(buf)
    ensures if Dec(before) < Pow(10, |before|) then Read(buf) == Dec(before) && exp == exp10
            else Dec(before) == Pow(10, |before|) && Read(buf) == Pow(10, |before| - 1) && exp == exp10 + 1
  {
    ghost var ds;
    buf, ds := PropagateCarry(digits, before);
    exp := exp10;
    if buf[0] == Chr(10) {
      LeadingTen(ds);
      buf := buf[0 := '1'];
      ds := ds[0 := 1];
      exp := exp + 1;
    } else {
      DecBound(ds);
    }
    ReadText(ds);
    assert buf == Text(ds);
  }

  /** Appends the rounded last digit. */
  method RoundLast(leading: string, last: nat, up: bool, exp10: int, ghost ds: seq<nat>) returns (buf: string, exp: int)
    requires Writable(ds) && leading == Text(ds) && last <= 10 && (up ==> AllDigits(ds) && last <= 9)
    ensures !up ==> buf == Text(ds + [last]) && exp == exp10
    ensures AllDigits(ds) && last <= 9 ==> |buf| == |ds| + 1 && IsDecimal(buf)
    ensures AllDigits(ds) && last <= 9 ==>
            var v := Dec(ds + [last]) + (if up then 1 else 0);
            if v < Pow(10, |buf|) then Read(buf) == v && exp == exp10
            else v == Pow(10, |buf|) && Read(buf) == Pow(10, |buf| - 1) && exp == exp10 + 1
  {
    var digit := last;
    exp := exp10;
    DecSnoc(ds, last);
    DecSnoc(ds, last + 1);
    if up {
      if digit == 9 {
        assert (ds + [10])[..|ds|] == ds;
        buf, exp := CarryNine(leading + [Chr(10)], exp, ds + [10]);
        return;
      }
      digit := digit + 1;
    }
    buf := leading + [Chr(digit)];
    assert buf == Text(ds + [digit]);
    if AllDigits(ds) && digit <= 9 {
      ReadText(ds + [digit]);
      DecBound(ds + [digit]);
    }
  }

  /** A mistaken dividend before the last digit puts the character after '9' behind it. */
  ghost predicate Overrun(f: Ratio, count: nat)
  {
    exists j: nat :: j + 1 < count && MistakenAt(f, j)
  }

  ghost predicate OverrunText(f: Ratio, count: nat, buf: string)
  {
    exists j: nat :: j + 1 < count && MistakenAt(f, j)
                     && buf == Text(Zeros(j + 1)) + ":" + Text(Zeros(count - j - 2))
  }

  /** What a fixed number of digits comes out as. */
  ghost predicate FixedText(f: Ratio, count: nat, exp10: int, buf: string, exp: int)
    requires f.d > 0 && count >= 1
  {
    if Overrun(f, count) then OverrunText(f, count, buf) && exp == exp10 - (count - 1)
    else RoundedTo(f.n, f.d, count, exp10, buf, exp)
  }

  lemma OverrunLast(f: Ratio, count: nat, ds: seq<nat>, g: Ratio)
    requires f.d > 0 && count >= 1 && Overrun(f, count)
    requires ds == CodeDigits(f, count - 1) && g == CodeAfter(f, count - 1)
    ensures Writable(ds) && CodeDigit(g) <= 10 && !RoundsUp(CodeDigit(g), CodeRest(g), g.d)
    ensures OverrunText(f, count, Text(ds + [CodeDigit(g)]))
  {
    var j: nat :| j + 1 < count && MistakenAt(f, j);
    DigitsAfter(f, j, count - 1);
    DigitsAfter(f, j, count);
    hide DivRem, Pow;
    if count == j + 2 {
      DivRemUnique(10 * f.d, f.d, 10, 0);
    }
    TextMistaken(j, count);
  }

  lemma TextMistaken(j: nat, i: nat)
    requires i > j + 1
    ensures Writable(MistakenDigits(j, i))
    ensures Text(MistakenDigits(j, i)) == Text(Zeros(j + 1)) + ":" + Text(Zeros(i - j - 2))
  {
    var ds := MistakenDigits(j, i);
    assert forall k :: 0 <= k < i ==> ds[k] == if k == j + 1 then 10 else 0;
  }

  /** Generates exactly numDigits digits. */
  method GenerateFixed(numerator: Bigint, denominator: Bigint, numDigits: nat, exp10: int, ghost f: Ratio)
    returns (buf: string, exp: int)
    requires numDigits >= 1 && Holds(numerator, denominator, f) && f.n < 10 * f.d
    modifies numerator
    ensures f.d > 0 && FixedText(f, numDigits, exp10, buf, exp)
  {
    exp := exp10 - (numDigits - 1);
    ghost var ds, g;
    buf, ds, g := LeadingDigits(numerator, denominator, numDigits, f);
    var digit := DivideDigit(numerator, denominator, g);
    var result := Bigint.AddCompare(numerator, numerator, denominator);
    var up := result > 0 || (result == 0 && digit % 2 != 0);
    hide Pow, Dec, CodeDigits, CodeAfter, LeadsTo, RoundHalfEven, MistakenAt, Overrun, OverrunText;
    RoundedLast(f, ds, g, up);
    if Overrun(f, numDigits) {
      OverrunLast(f, numDigits, ds, g);
    } else {
      NoOverrun(f, numDigits);
    }
    buf, exp := RoundLast(buf, digit, up, exp, ds);
  }

  lemma NoOverrun(f: Ratio, count: nat)
    requires f.d > 0 && f.n < 10 * f.d && count >= 1 && !Overrun(f, count)
    ensures AllDigits(CodeDigits(f, count - 1)) && CodeAfter(f, count - 1).n < 10 * f.d
  {
    assert forall j: nat :: j < count - 1 ==> !MistakenAt(f, j);
    RightDigits(f, count - 1);
  }

  /** With no digits asked for, the result is one digit telling to which side of half
      a unit the value lies. */
  method GenerateNone(numerator: Bigint, denominator: Bigint, exp10: int, ghost f: Ratio) returns (buf: string, exp: int)
    requires Holds(numerator, denominator, f) && f.n < 10 * f.d
    modifies denominator
    ensures f.d > 0 && |buf| == 1 && IsDecimal(buf)
    ensures Read(buf) == RoundHalfEven(f.n, 10 * f.d) && exp == exp10 + 1
  {
    exp := exp10 + 1;
    ghost var places := denominator.NumBigits();
    ValueZero(denominator.bigits, denominator.exp);
    PlacesBracket(denominator.bigits, denominator.exp);
    denominator.Multiply(10);
    TenTimesPlaces(denominator.bigits, denominator.exp, f.d, places);
    var result := Bigint.AddCompare(numerator, numerator, denominator);
    var digit := if result > 0 then 1 else 0;
    buf := [Chr(digit)];
    assert buf == Text([digit]);
    ReadText([digit]);
    Single([digit]);
    assert DivRem(f.n, 10 * f.d) == (0, f.n);
  }

  lemma TenTimesPlaces(s: seq<Bigit>, e: nat, d: nat, places: nat)
    requires Canonical(s) && d > 0 && Value(s, e) == d * 10 && places >= 1 && Weight(places - 1) <= d
    ensures places <= Places(s, e)
  {
    ValueBound(s, e);
    if Places(s, e) < places {
      WeightMonotone(Places(s, e), places - 1);
    }
  }

  // ---------- Setting up and choosing the mode ----------

  /** The extra bits that make the half-gaps integers. */
  function Shift(closer: bool): nat
  {
    if closer then 2 else 1
  }

  /** The bigints format_dragon starts from for f * 2^e and the estimate exp10; closer
      tells that the predecessor is only half as far away as the successor. */
  function Start(f: nat, e: int, closer: bool, exp10: int): Scaled
    requires e >= 0 ==> exp10 >= 0
  {
    var s := Shift(closer);
    var even := f % 2 == 0;
    if e >= 0 then
      Scaled(Ratio(f * Pow(2, e + s), (e + s) / 32, Pow(10, exp10) * Pow(2, s), exp10 / 32),
             Pow(2, e), e / 32, if closer then Pow(2, e + 1) else Pow(2, e), even)
    else if exp10 < 0 then
      var l := Pow(10, -exp10);
      Scaled(Ratio((l * f) * Pow(2, s), (-exp10) / 32, Pow(2, s - e), (s - e) / 32),
             l, (-exp10) / 32, if closer then l * 2 else l, even)
    else
      Scaled(Ratio(f * Pow(2, s), 0, Pow(10, exp10) * Pow(2, s - e), exp10 / 32 + (s - e) / 32),
             1, 0, if closer then 2 else 1, even)
  }

  /** What format_dragon demands of its caller: a non-zero 128-bit significand and an
      estimate exp10 with f * 2^e < 10^(exp10 + 1). */
  ghost predicate Acceptable(f: nat, e: int, closer: bool, exp10: int)
  {
    && 0 < f < UINT128 && exp10 < MAX_BIGITS && -exp10 < MAX_BIGITS && (e >= 0 ==> exp10 >= 0)
    && Start(f, e, closer, exp10).f.n < 10 * Start(f, e, closer, exp10).f.d
  }

  lemma SmallShifts()
    ensures Pow(2, 0) == 1 && Pow(2, 1) == 2 && Pow(2, 2) == 4
  {
  }

  lemma StartNumbers(f: nat, e: int, closer: bool, exp10: int)
    requires Acceptable(f, e, closer, exp10)
    ensures var s := Start(f, e, closer, exp10); s.f.n > 0 && s.f.d > 0 && s.l > 0 && s.u > 0
  {
    var s := Shift(closer);
    if e >= 0 {
      PowPositive(2, e + s);
      PowPositive(2, e);
      PowPositive(2, e + 1);
      MulPositive(f, Pow(2, e + s));
      PowPositive(10, exp10);
      PowPositive(2, s);
      MulPositive(Pow(10, exp10), Pow(2, s));
    } else if exp10 < 0 {
      PowPositive(10, -exp10);
      PowPositive(2, s);
      PowPositive(2, s - e);
      MulPositive(Pow(10, -exp10), f);
      MulPositive(Pow(10, -exp10) * f, Pow(2, s));
    } else {
      PowPositive(2, s);
      PowPositive(2, s - e);
      PowPositive(10, exp10);
      MulPositive(f, Pow(2, s));
      MulPositive(Pow(10, exp10), Pow(2, s - e));
    }
  }

  /** Where the division meets a mistaken dividend, in terms of the arguments. */
  lemma StartMistaken(f: nat, e: int, closer: bool, exp10: int, j: nat)
    requires Acceptable(f, e, closer, exp10)
    ensures MistakenAt(Start(f, e, closer, exp10).f, j) <==>
            e >= 0 && (e + Shift(closer)) / 32 > exp10 / 32 && (f * Pow(2, e)) * Pow(10, j) == Pow(10, exp10)
  {
    hide Pow;
    var s := Shift(closer);
    if e >= 0 {
      PowAdd(2, e, s);
      PowPositive(2, s);
      ScaledEqual(f, Pow(2, e), Pow(2, s), Pow(10, j), Pow(10, exp10), Pow(2, e + s));
    } else if exp10 < 0 {
      NegativeEstimate(f, -exp10, s, s - e);
    }
  }

  lemma ScaledEqual(f: int, x: int, y: int, z: int, w: int, xy: int)
    requires y > 0 && xy == x * y
    ensures (f * xy) * z == w * y <==> (f * x) * z == w
  {
    MulAssoc(f, x, y);
    MulAssoc(f * x, y, z);
    MulAssoc(f * x, z, y);
    MulCancel((f * x) * z, w, y);
  }

  lemma StartReaches(f: nat, e: int, closer: bool, exp10: int)
    requires Acceptable(f, e, closer, exp10)
    ensures GapReaches(Start(f, e, closer, exp10))
  {
    hide Pow, Weight;
    if e >= 0 {
      LowerGapTop(e);
      if exp10 / 32 <= e / 32 {
        WeightMonotone(exp10 / 32, e / 32);
      }
    } else if exp10 < 0 {
      NegativeEstimate(f, -exp10, Shift(closer), Shift(closer) - e);
    }
  }

  lemma LowerGapTop(e: nat)
    ensures Weight(e / 32) <= Pow(2, e)
  {
    TwoTo32();
    PowPow(2, 32, e / 32);
    PowMonotone(2, 32 * (e / 32), e);
  }

  /** With both exponents negative the estimate bounds the power of ten by the denominator. */
  lemma NegativeEstimate(f: nat, m: nat, s: nat, t: nat)
    requires f > 0 && m > 0 && s > 0 && (Pow(10, m) * f) * Pow(2, s) < 10 * Pow(2, t)
    ensures m <= t
  {
    var x := Pow(10, m - 1);
    assert Pow(2, 1) == 2 && Pow(10, m) == 10 * x;
    hide Pow;
    PowMonotone(2, 1, s);
    TwiceAtMost(10 * x, f, Pow(2, s));
    PowBase(2, 10, m - 1);
    if t < m {
      PowMonotone(2, t, m - 1);
    }
  }

  lemma TwiceAtMost(x: nat, f: nat, y: nat)
    requires f > 0 && y >= 2
    ensures 2 * x <= (x * f) * y
  {
    MulMonotone(1, f, x);
    MulMonotone(x, x * f, y);
    MulMonotone(2, y, x);
  }

  ghost predicate Loaded(numerator: Bigint, denominator: Bigint, lower: Bigint, upper: Bigint, s: Scaled)
    reads numerator, denominator, lower, upper
  {
    && numerator !in {denominator, lower, upper} && denominator !in {lower, upper}
    && numerator.Valid() && denominator.Valid()
    && numerator.Number() == s.f.n && numerator.exp == s.f.ne
    && denominator.Number() == s.f.d && denominator.exp == s.f.de
    && HoldsGaps(lower, upper, s)
  }

  /** A bigint assigned a machine integer and shifted. */
  method Shifted(value: nat, shift: nat) returns (b: Bigint)
    ensures fresh(b) && b.Valid() && b.Number() == value * Pow(2, shift) && b.exp == shift / 32
  {
    b := new Bigint();
    b.Assign(value);
    b.ShiftLeft(shift);
  }

  /** A bigint assigned a power of ten and shifted. */
  method PowerShifted(e: nat, shift: nat) returns (b: Bigint)
    requires e < MAX_BIGITS
    ensures fresh(b) && b.Valid() && b.Number() == Pow(10, e) * Pow(2, shift) && b.exp == e / 32 + shift / 32
  {
    b := new Bigint();
    b.AssignPow10(e);
    b.ShiftLeft(shift);
  }

  /** value.e >= 0: everything but the denominator is scaled by 2^e. */
  method SetupLarge(f: nat, e: int, closer: bool, exp10: int)
    returns (numerator: Bigint, denominator: Bigint, lower: Bigint, upper: Bigint)
    requires Acceptable(f, e, closer, exp10) && e >= 0
    ensures fresh({numerator, denominator, lower, upper})
    ensures Loaded(numerator, denominator, lower, upper, Start(f, e, closer, exp10))
  {
    hide Bigint.Valid, Bigint.Number;
    var shift := if closer then 2 else 1;
    numerator := Shifted(f, e + shift);
    lower := Shifted(1, e);
    upper := lower;
    if closer {
      upper := Shifted(1, e + 1);
    }
    denominator := PowerShifted(exp10, shift);
  }

  /** value.e < 0 and exp10 < 0: the power of ten goes to the numerator and the gaps. */
  method SetupSmall(f: nat, e: int, closer: bool, exp10: int)
    returns (numerator: Bigint, denominator: Bigint, lower: Bigint, upper: Bigint)
    requires Acceptable(f, e, closer, exp10) && e < 0 && exp10 < 0
    ensures fresh({numerator, denominator, lower, upper})
    ensures Loaded(numerator, denominator, lower, upper, Start(f, e, closer, exp10))
  {
    var shift := if closer then 2 else 1;
    SmallShifts();
    numerator := new Bigint();
    numerator.AssignPow10(-exp10);
    lower := new Bigint();
    lower.AssignCopy(numerator);
    upper := lower;
    if closer {
      upper := new Bigint();
      upper.AssignCopy(numerator);
      upper.ShiftLeft(1);
    }
    numerator.MultiplyWide(f, UINT64);
    numerator.ShiftLeft(shift);
    denominator := new Bigint();
    denominator.Assign(1);
    denominator.ShiftLeft(shift - e);
  }

  /** value.e < 0 and exp10 >= 0: both powers go to the denominator. */
  method SetupMiddle(f: nat, e: int, closer: bool, exp10: int)
    returns (numerator: Bigint, denominator: Bigint, lower: Bigint, upper: Bigint)
    requires Acceptable(f, e, closer, exp10) && e < 0 <= exp10
    ensures fresh({numerator, denominator, lower, upper})
    ensures Loaded(numerator, denominator, lower, upper, Start(f, e, closer, exp10))
  {
    var shift := if closer then 2 else 1;
    numerator := new Bigint();
    numerator.Assign(f);
    numerator.ShiftLeft(shift);
    denominator := new Bigint();
    denominator.AssignPow10(exp10);
    denominator.ShiftLeft(shift - e);
    lower := new Bigint();
    lower.Assign(1);
    upper := lower;
    if closer {
      upper := new Bigint();
      upper.Assign(2);
    }
  }

  method Setup(f: nat, e: int, closer: bool, exp10: int)
    returns (numerator: Bigint, denominator: Bigint, lower: Bigint, upper: Bigint)
    requires Acceptable(f, e, closer, exp10)
    ensures fresh({numerator, denominator, lower, upper})
    ensures Loaded(numerator, denominator, lower, upper, Start(f, e, closer, exp10))
    ensures Holds(numerator, denominator, Start(f, e, closer, exp10).f)
  {
    if e >= 0 {
      numerator, denominator, lower, upper := SetupLarge(f, e, closer, exp10);
    } else if exp10 < 0 {
      numerator, denominator, lower, upper := SetupSmall(f, e, closer, exp10);
    } else {
      numerator, denominator, lower, upper := SetupMiddle(f, e, closer, exp10);
    }
    StartNumbers(f, e, closer, exp10);
  }

  // ---------- Fixing up the estimate ----------

  /** The estimate is one too large: even with the upper gap the value stays below 10^exp10. */
  predicate TooLarge(s: Scaled)
  {
    s.f.n + s.u < s.f.d || (s.f.n + s.u == s.f.d && !s.even)
  }

  /** The state after lowering exp10 by one; only the shortest mode scales the gaps too. */
  function Lowered(s: Scaled, shortest: bool): Scaled
  {
    var f := s.f.(n := 10 * s.f.n);
    if shortest then Scaled(f, 10 * s.l, s.le, 10 * s.u, s.even) else s.(f := f)
  }

  function FixedUp(s: Scaled, fixup: bool, shortest: bool): Scaled
  {
    if fixup && TooLarge(s) then Lowered(s, shortest) else s
  }

  lemma LoweredFits(s: Scaled, shortest: bool)
    requires TooLarge(s) && s.u > 0 && s.l > 0
    ensures var t := Lowered(s, shortest); t.Ready() && t.f.n < 10 * t.f.d
    ensures GapReaches(s) ==> GapReaches(Lowered(s, shortest))
  {
  }

  /** Corrects an estimate that is one too large. */
  method Fixup(numerator: Bigint, denominator: Bigint, lower: Bigint, upper: Bigint, even: bool,
               numDigits: int, estimate: int, ghost s: Scaled) returns (exp10: int)
    requires Loaded(numerator, denominator, lower, upper, s) && Holds(numerator, denominator, s.f)
    requires s.f.n > 0 && s.l > 0 && s.u > 0 && even == s.even
    modifies numerator`bigits, lower`bigits, upper`bigits
    ensures var t := FixedUp(s, true, numDigits < 0);
            Loaded(numerator, denominator, lower, upper, t) && Holds(numerator, denominator, t.f)
    ensures exp10 == if TooLarge(s) then estimate - 1 else estimate
  {
    exp10 := estimate;
    var c := Bigint.AddCompare(numerator, upper, denominator);
    if c + (if even then 1 else 0) <= 0 {
      exp10 := exp10 - 1;
      LoweredFits(s, numDigits < 0);
      numerator.Multiply(10);
      if numDigits < 0 {
        lower.Multiply(10);
        if upper != lower {
          upper.Multiply(10);
        }
      }
    }
  }

  datatype Outcome = Formatted(digits: string, exp10: int) | NumberTooBig

  /** format_dragon itself. A negative digit count asks for the shortest
      representation; a fixed precision that becomes negative falls into that mode too. */
  method FormatDragon(f: nat, e: int, closer: bool, fixup: bool, fixed: bool, precision: int, estimate: int)
    returns (result: Outcome)
    requires Acceptable(f, e, closer, estimate)
    requires precision < 0 || (fixup && fixed) ==> Start(f, e, closer, estimate).Ready()
    ensures var s := FixedUp(Start(f, e, closer, estimate), fixup, precision < 0);
            var exp10 := if fixup && TooLarge(Start(f, e, closer, estimate)) then estimate - 1 else estimate;
            var digits := if fixup && fixed then AdjustPrecision(precision, exp10 + 1) else Some(precision);
            s.f.d > 0 &&
            match digits
            case None => result == NumberTooBig
            case Some(n) =>
              result.Formatted? &&
              if n < 0 then
                && s.Ready() && AllDigits(Shortest(s)) && result.digits == Text(Shortest(s))
                && result.exp10 == exp10 - (|result.digits| - 1)
              else if n == 0 then
                && |result.digits| == 1 && IsDecimal(result.digits)
                && Read(result.digits) == RoundHalfEven(s.f.n, 10 * s.f.d) && result.exp10 == exp10 + 1
              else
                FixedText(s.f, n, exp10, result.digits, result.exp10)
  {
    var even := f % 2 == 0;
    var numerator, denominator, lower, upper := Setup(f, e, closer, estimate);
    ghost var start := Start(f, e, closer, estimate);
    StartNumbers(f, e, closer, estimate);
    var exp10 := estimate;
    var numDigits := precision;
    if fixup {
      exp10 := Fixup(numerator, denominator, lower, upper, even, numDigits, exp10, start);
      if fixed {
        var adjusted := AdjustPrecision(numDigits, exp10 + 1);
        if adjusted.None? {
          return NumberTooBig;
        }
        numDigits := adjusted.value;
      }
    }
    ghost var s := FixedUp(start, fixup, precision < 0);
    StartReaches(f, e, closer, estimate);
    if fixup && TooLarge(start) {
      LoweredFits(start, precision < 0);
    }
    var buf, exp;
    if numDigits < 0 {
      ShortestSound(s);
      buf, exp := GenerateShortest(numerator, denominator, lower, upper, even, exp10, s);
    } else if numDigits == 0 {
      buf, exp := GenerateNone(numerator, denominator, exp10, s.f);
    } else {
      buf, exp := GenerateFixed(numerator, denominator, numDigits, exp10, s.f);
    }
    result := Formatted(buf, exp);
  }
}
