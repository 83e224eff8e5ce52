/** Steele-White digit generation over the naturals: what the digit loops of
    format_dragon compute from n / d and the half-gaps l below and u above it. */
module DigitGeneration {
  import opened Powers
  import opened Limbs
  import opened Decimals

  // ---------- Shortest mode ----------

  /** The numerator and denominator of the digit loops, with their bigint exponents. */
  datatype Ratio = Ratio(n: nat, ne: nat, d: nat, de: nat)
  {
    function Digit(): nat
      requires d > 0
    {
      DivRem(n, d).0
    }

    function Rest(): nat
      requires d > 0
    {
      DivRem(n, d).1
    }

    /** The dividend is aligned to the divisor only if it is divided. */
    function RestExp(): nat
    {
      if n < d || ne <= de then ne else de
    }

    function Next(): Ratio
      requires d > 0
    {
      Ratio(10 * Rest(), RestExp(), d, de)
    }
  }

  /** A ratio with the half-gaps l below and u above its numerator; le is l's exponent. */
  datatype Scaled = Scaled(f: Ratio, l: nat, le: nat, u: nat, even: bool)
  {
    /** The digits still to come denote less than ten. */
    predicate Ready()
    {
      f.d > 0 && u > 0 && l > 0 && f.n + u <= 10 * f.d && (even ==> f.n + u < 10 * f.d)
    }

    /** The test "remainder below the lower half-gap" as made on bigints: a zero
        remainder is placed by its exponent alone, and equal values are told apart by
        their exponents. */
    predicate Low()
      requires f.d > 0
    {
      LowTest(f.Rest(), f.RestExp(), l, le, even)
    }

    predicate High()
      requires f.d > 0
    {
      f.Rest() + u > f.d || (f.Rest() + u == f.d && even)
    }

    predicate Stops()
      requires f.d > 0
    {
      Low() || High()
    }

    function LastDigit(): nat
      requires f.d > 0
    {
      if !Low() || (High() && RoundsUp(f.Digit(), f.Rest(), f.d)) then f.Digit() + 1 else f.Digit()
    }

    function Next(): Scaled
      requires f.d > 0
    {
      Scaled(f.Next(), 10 * l, le, 10 * u, even)
    }

    /** The number w / scale lies in the interval around n / d, the ends included if closed. */
    ghost predicate Inside(w: int, scale: int, closed: bool)
    {
      if closed then (f.n - l) * scale <= w * f.d <= (f.n + u) * scale
      else (f.n - l) * scale < w * f.d < (f.n + u) * scale
    }
  }

  predicate LowTest(r: nat, re: nat, l: nat, le: nat, even: bool)
  {
    if r == 0 then l >= Weight(re)
    else if r != l then r < l
    else if even then le <= re
    else le < re
  }

  /** Rounding up by the rule "to nearest, halves to even" after digit q with remainder r. */
  predicate RoundsUp(q: nat, r: nat, d: nat)
  {
    2 * r > d || (2 * r == d && q % 2 != 0)
  }

  /** Division by repeated subtraction: quotient and remainder. */
  function DivRem(n: nat, d: nat): (qr: (nat, nat))
    requires d > 0
    ensures qr.1 < d
    ensures n < d ==> qr == (0, n)
  {
    if n < d then (0, n) else
      var (q, r) := DivRem(n - d, d);
      (q + 1, r)
  }

  lemma {:induction false} DivRemMeans(n: nat, d: nat)
    requires d > 0
    ensures n == DivRem(n, d).0 * d + DivRem(n, d).1
  {
    if n >= d {
      DivRemMeans(n - d, d);
      NextMultiple(DivRem(n - d, d).0, d);
    }
  }

  function Shortest(s: Scaled): (ds: seq<nat>)
    requires s.Ready()
    ensures |ds| >= 1
    decreases 10 * s.f.d - s.u
  {
    if s.Stops() then [s.LastDigit()] else [s.f.Digit()] + Shortest(s.Next())
  }

  lemma FirstDigitBound(s: Scaled)
    requires s.Ready()
    ensures s.f.Digit() <= 9
    ensures s.Stops() ==> s.LastDigit() <= 9
  {
    var q := s.f.Digit();
    DivRemMeans(s.f.n, s.f.d);
    if q >= 10 {
      MulMonotone(10, q, s.f.d);
    } else if q == 9 {
      assert q * s.f.d == 9 * s.f.d;
    }
  }

  lemma Single(ds: seq<nat>)
    requires |ds| == 1
    ensures Dec(ds) == ds[0] && Pow(10, |ds| - 1) == 1
  {
    assert ds[1..] == [];
  }

  lemma DecCons(ds: seq<nat>, q: nat, rest: seq<nat>)
    requires ds == [q] + rest && rest != []
    ensures Pow(10, |ds| - 1) == 10 * Pow(10, |rest| - 1)
    ensures Dec(ds) == q * (10 * Pow(10, |rest| - 1)) + Dec(rest)
  {
    assert ds[1..] == rest;
  }

  /** Removing the first digit and scaling by ten keeps the interval question the same. */
  lemma InsideNext(s: Scaled, v: int, w: int, scale: int, closed: bool)
    requires s.f.d > 0 && v == s.f.Digit() * (10 * scale) + w
    ensures s.Inside(v, 10 * scale, closed) <==> s.Next().Inside(w, scale, closed)
  {
    DivRemMeans(s.f.n, s.f.d);
    ErrorTail(w, s.f.Digit(), s.f.n, s.f.d, s.f.Rest(), scale);
    assert (s.f.n - s.l) * (10 * scale) == s.f.n * (10 * scale) - s.l * (10 * scale);
    assert (s.f.n + s.u) * (10 * scale) == s.f.n * (10 * scale) + s.u * (10 * scale);
    assert (10 * s.f.Rest() - 10 * s.l) * scale == (10 * s.f.Rest()) * scale - s.l * (10 * scale);
    assert (10 * s.f.Rest() + 10 * s.u) * scale == (10 * s.f.Rest()) * scale + s.u * (10 * scale);
  }

  /** The last digit, with its remainder, stays in the interval. */
  lemma LastDigitInside(s: Scaled)
    requires s.Ready() && s.Stops()
    ensures s.Inside(s.LastDigit(), 1, true)
  {
    DivRemMeans(s.f.n, s.f.d);
    NextMultiple(s.f.Digit(), s.f.d);
  }

  lemma NextMultiple(q: int, d: int)
    ensures (q + 1) * d == q * d + d
  {
  }

  /** Every digit is at most nine, and the number lies in the rounding interval or on one
      of its ends. */
  lemma {:induction false} ShortestSound(s: Scaled)
    requires s.Ready()
    ensures var ds := Shortest(s);
            && AllDigits(ds)
            && s.Inside(Dec(ds), Pow(10, |ds| - 1), true)
    decreases 10 * s.f.d - s.u
  {
    var ds := Shortest(s);
    FirstDigitBound(s);
    if s.Stops() {
      Single(ds);
      LastDigitInside(s);
    } else {
      var rest := Shortest(s.Next());
      ShortestSound(s.Next());
      DecCons(ds, s.f.Digit(), rest);
      InsideNext(s, Dec(ds), Dec(rest), Pow(10, |rest| - 1), true);
    }
  }

  lemma NoNeighbour(s: Scaled, w: int)
    requires s.Ready() && s.f.Rest() >= s.l && s.f.Rest() + s.u <= s.f.d
    ensures !s.Inside(w, 1, false)
    ensures s.f.Rest() > s.l && s.f.Rest() + s.u < s.f.d ==> !s.Inside(w, 1, true)
  {
    var q := s.f.Digit();
    DivRemMeans(s.f.n, s.f.d);
    assert (q + 1) * s.f.d == q * s.f.d + s.f.d;
    if w <= q {
      MulMonotone(w, q, s.f.d);
    } else {
      MulMonotone(q + 1, w, s.f.d);
    }
  }

  /** The denominator fills its lowest place, and a zero numerator does not stand above it. */
  predicate Grounded(f: Ratio)
  {
    f.d >= Weight(f.de) && (f.n == 0 ==> f.ne <= f.de)
  }

  lemma LastDigitNearest(s: Scaled)
    requires s.Ready() && s.u == s.l && s.Stops() && Grounded(s.f)
    ensures 2 * (s.LastDigit() * s.f.d - s.f.n) <= s.f.d && 2 * (s.f.n - s.LastDigit() * s.f.d) <= s.f.d
  {
    DivRemMeans(s.f.n, s.f.d);
    NextMultiple(s.f.Digit(), s.f.d);
    if s.f.RestExp() <= s.f.de {
      WeightMonotone(s.f.RestExp(), s.f.de);
    }
  }

  /** With equal half-gaps the result is, at its length, a number nearest to n / d. */
  lemma {:induction false} ShortestNearest(s: Scaled)
    requires s.Ready() && s.u == s.l && Grounded(s.f)
    ensures var ds := Shortest(s);
            && 2 * (Dec(ds) * s.f.d - s.f.n * Pow(10, |ds| - 1)) <= s.f.d
            && 2 * (s.f.n * Pow(10, |ds| - 1) - Dec(ds) * s.f.d) <= s.f.d
    decreases 10 * s.f.d - s.u
  {
    var ds := Shortest(s);
    if s.Stops() {
      Single(ds);
      LastDigitNearest(s);
    } else {
      var rest := Shortest(s.Next());
      ShortestNearest(s.Next());
      DecCons(ds, s.f.Digit(), rest);
      DivRemMeans(s.f.n, s.f.d);
      ErrorTail(Dec(rest), s.f.Digit(), s.f.n, s.f.d, s.f.Rest(), Pow(10, |rest| - 1));
    }
  }

  lemma ErrorTail(w: int, q: int, n: int, d: int, r: int, scale: int)
    requires n == q * d + r
    ensures (q * (10 * scale) + w) * d - n * (10 * scale) == w * d - (10 * r) * scale
  {
    var s := 10 * scale;
    MulAssoc(q, s, d);
    MulAssoc(q, d, s);
    assert n * s == (q * d) * s + r * s;
  }

  lemma {:induction false} DivRemUnique(n: nat, d: nat, q: nat, r: nat)
    requires d > 0 && n == q * d + r && r < d
    ensures DivRem(n, d) == (q, r)
  {
    if q == 0 {
      assert n == r;
    } else {
      TakeOne(n, d, q, r);
      DivRemUnique(n - d, d, q - 1, r);
    }
  }

  lemma TakeOne(n: int, d: int, q: int, r: int)
    requires n == q * d + r && q >= 1 && d > 0 && r >= 0
    ensures n >= d && n - d == (q - 1) * d + r
  {
    MulMonotone(1, q, d);
  }

  // ---------- Fixed number of digits ----------

  /** n / d rounded to the nearest integer, halves to the even one. */
  function RoundHalfEven(n: nat, d: nat): nat
    requires d > 0
  {
    var (q, r) := DivRem(n, d);
    if RoundsUp(q, r, d) then q + 1 else q
  }

  lemma RoundHalfEvenNearest(n: nat, d: nat)
    requires d > 0
    ensures var v := RoundHalfEven(n, d);
            && 2 * (v * d - n) <= d
            && 2 * (n - v * d) <= d
            && (2 * (v * d - n) == d || 2 * (n - v * d) == d ==> v % 2 == 0)
  {
    var (q, r) := DivRem(n, d);
    DivRemMeans(n, d);
    assert (q + 1) * d == q * d + d;
  }
}
