/** fmt's arbitrary-precision integer: 32-bit bigits updated in place, scaled by 2^(32 * exp). */
module Bigints {
  import opened MachineInts
  import opened Powers
  import opened Limbs
  import opened Columns

  function Sign(x: int): int
  {
    if x > 0 then 1 else if x < 0 then -1 else 0
  }

  /** What compare answers: the order of the values, except that equal values are
      told apart by their exponents and a zero is placed by its exponent alone. */
  ghost function Verdict(s: seq<Bigit>, e: nat, t: seq<Bigit>, f: nat): int
  {
    if Val(s) == 0 || Val(t) == 0 then
      if Places(s, e) != Places(t, f) then Sign(Places(s, e) - Places(t, f))
      else if Val(s) == Val(t) then 0 else Sign(Val(s) - Val(t))
    else if Value(s, e) != Value(t, f) then Sign(Value(s, e) - Value(t, f))
    else Sign(f - e)
  }

  // ---------- Comparison ----------

  lemma ValueZero(s: seq<Bigit>, e: nat)
    ensures Value(s, e) == 0 <==> Val(s) == 0
  {
    if Val(s) > 0 {
      MulPositive(Val(s), Weight(e));
    }
  }

  lemma VerdictByPlaces(s: seq<Bigit>, e: nat, t: seq<Bigit>, f: nat)
    requires Canonical(s) && Canonical(t) && Places(s, e) != Places(t, f)
    ensures Verdict(s, e, t, f) == Sign(Places(s, e) - Places(t, f))
  {
    if Val(s) > 0 && Val(t) > 0 {
      if Places(s, e) < Places(t, f) {
        PlacesOrder(s, e, t, f);
      } else {
        PlacesOrder(t, f, s, e);
      }
    }
  }

  ghost predicate AgreeAbove(s: seq<Bigit>, e: nat, t: seq<Bigit>, f: nat, i: nat)
  {
    High(s, e, i) == High(t, f, i)
  }

  lemma AgreeAtTop(s: seq<Bigit>, e: nat, t: seq<Bigit>, f: nat, n: nat)
    requires Places(s, e) <= n && Places(t, f) <= n
    ensures AgreeAbove(s, e, t, f, n)
  {
    HighAbove(s, e, n);
    HighAbove(t, f, n);
  }

  /** The first place where two numbers of equally many places differ orders them. */
  lemma AgreeStep(s: seq<Bigit>, e: nat, t: seq<Bigit>, f: nat, i: nat, j: nat)
    requires Canonical(s) && Canonical(t) && Places(s, e) == Places(t, f)
    requires i < |s| && j < |t| && i + e == j + f && AgreeAbove(s, e, t, f, i + 1 + e)
    ensures s[i] == t[j] ==> AgreeAbove(s, e, t, f, i + e)
    ensures s[i] != t[j] ==> Verdict(s, e, t, f) == if s[i] > t[j] then 1 else -1
  {
    var p := i + e;
    assert Digit(s, e, p) == s[i] && Digit(t, f, p) == t[j];
    HighStep(s, e, p);
    HighStep(t, f, p);
    if High(s, e, p) < High(t, f, p) {
      HighOrder(s, e, t, f, p);
      VerdictOfOrder(s, e, t, f);
    } else if High(s, e, p) > High(t, f, p) {
      HighOrder(t, f, s, e, p);
      VerdictOfOrder(t, f, s, e);
    }
  }

  lemma VerdictOfOrder(s: seq<Bigit>, e: nat, t: seq<Bigit>, f: nat)
    requires Places(s, e) == Places(t, f) && Value(s, e) < Value(t, f)
    ensures Verdict(s, e, t, f) == -1 && Verdict(t, f, s, e) == 1
  {
    ValueZero(s, e);
    ValueZero(t, f);
  }

  /** When the shorter number runs out first, only the exponents are left to tell. */
  lemma VerdictOfPrefix(s: seq<Bigit>, e: nat, t: seq<Bigit>, f: nat)
    requires Canonical(s) && Canonical(t) && Places(s, e) == Places(t, f)
    requires AgreeAbove(s, e, t, f, if e < f then f else e)
    ensures Verdict(s, e, t, f) == Sign(f - e)
  {
    ValueZero(s, e);
    ValueZero(t, f);
    ValZero(s);
    ValZero(t);
    HighLow(s, e, if e < f then f else e);
    HighLow(t, f, if e < f then f else e);
    if Val(s) == 0 && Val(t) > 0 {
      HighTop(t, f, if e < f then f else e);
    } else if Val(t) == 0 && Val(s) > 0 {
      HighTop(s, e, if e < f then f else e);
    }
  }

  /** The part above i of a non-zero number is not zero if i is below its top place. */
  lemma HighTop(s: seq<Bigit>, e: nat, i: nat)
    requires Canonical(s) && Val(s) > 0 && i < Places(s, e)
    ensures High(s, e, i) > 0
  {
    HighLow(s, e, i);
    PlacesBracket(s, e);
    WeightMonotone(i, Places(s, e) - 1);
  }

  // ---------- Comparing a sum ----------

  ghost function HighGap(s: seq<Bigit>, e: nat, t: seq<Bigit>, f: nat, u: seq<Bigit>, g: nat, i: nat): int
  {
    High(u, g, i) - High(s, e, i) - High(t, f, i)
  }

  lemma GapAtTop(s: seq<Bigit>, e: nat, t: seq<Bigit>, f: nat, u: seq<Bigit>, g: nat, i: nat)
    requires Places(s, e) <= i && Places(t, f) <= i && Places(u, g) <= i
    ensures HighGap(s, e, t, f, u, g, i) == 0
  {
    HighAbove(s, e, i);
    HighAbove(t, f, i);
    HighAbove(u, g, i);
  }

  /** The gap at a place, from the digits there and the borrow from above. */
  lemma GapStep(s: seq<Bigit>, e: nat, t: seq<Bigit>, f: nat, u: seq<Bigit>, g: nat, i: nat)
    requires HighGap(s, e, t, f, u, g, i + 1) in {0, 1}
    ensures HighGap(s, e, t, f, u, g, i)
            == Digit(u, g, i) as int - Digit(s, e, i) - Digit(t, f, i)
               + (if HighGap(s, e, t, f, u, g, i + 1) == 1 then BASE else 0)
  {
    HighStep(s, e, i);
    HighStep(t, f, i);
    HighStep(u, g, i);
  }

  lemma GapBounds(x: int, y: int, z: int, w: int)
    requires w > 0
    ensures z - x - y < 0 ==> x * w + y * w >= z * w + w
    ensures z - x - y == 0 ==> x * w + y * w == z * w
    ensures z - x - y == 1 ==> x * w + y * w == z * w - w
    ensures z - x - y > 1 ==> x * w + y * w <= z * w - 2 * w
  {
    var gap := z - x - y;
    assert gap * w == z * w - x * w - y * w;
    if gap < 0 {
      MulMonotone(gap, -1, w);
    } else if gap > 1 {
      MulMonotone(2, gap, w);
    }
  }

  /** A negative gap, or one of two or more, settles the order. */
  lemma GapOrder(s: seq<Bigit>, e: nat, t: seq<Bigit>, f: nat, u: seq<Bigit>, g: nat, i: nat)
    ensures HighGap(s, e, t, f, u, g, i) < 0 ==> Value(s, e) + Value(t, f) > Value(u, g)
    ensures HighGap(s, e, t, f, u, g, i) > 1 ==> Value(s, e) + Value(t, f) < Value(u, g)
  {
    HighLow(s, e, i);
    HighLow(t, f, i);
    HighLow(u, g, i);
    GapBounds(High(s, e, i), High(t, f, i), High(u, g, i), Weight(i));
  }

  lemma GapAtBottom(s: seq<Bigit>, e: nat, t: seq<Bigit>, f: nat, u: seq<Bigit>, g: nat, i: nat)
    requires i <= e && i <= f && i <= g && HighGap(s, e, t, f, u, g, i) in {0, 1}
    ensures Sign(Value(s, e) + Value(t, f) - Value(u, g)) == Sign(-HighGap(s, e, t, f, u, g, i))
  {
    HighLow(s, e, i);
    HighLow(t, f, i);
    HighLow(u, g, i);
    GapBounds(High(s, e, i), High(t, f, i), High(u, g, i), Weight(i));
  }

  /** A zero with more than one place beyond both operands. */
  ghost predicate ZeroFarAbove(s: seq<Bigit>, e: nat, t: seq<Bigit>, f: nat, u: seq<Bigit>, g: nat)
  {
    Value(u, g) == 0 && Places(s, e) + 1 < Places(u, g) && Places(t, f) + 1 < Places(u, g)
  }

  /** A zero operand with more places than the right-hand side. */
  ghost predicate ZeroAbove(s: seq<Bigit>, e: nat, u: seq<Bigit>, g: nat)
  {
    Value(s, e) == 0 && Places(s, e) > Places(u, g)
  }

  /** What add_compare answers: the order of the sum and the right-hand side, except that
      zeros with an exponent may count as larger than they are. */
  ghost function SumVerdict(s: seq<Bigit>, e: nat, t: seq<Bigit>, f: nat, u: seq<Bigit>, g: nat): int
  {
    if ZeroFarAbove(s, e, t, f, u, g) then -1
    else if ZeroAbove(s, e, u, g) || ZeroAbove(t, f, u, g) then 1
    else Sign(Value(s, e) + Value(t, f) - Value(u, g))
  }

  /** It is wrong exactly for a right-hand zero far above the operands and for a zero operand
      above a right-hand side that the sum does not exceed. */
  lemma SumVerdictExact(s: seq<Bigit>, e: nat, t: seq<Bigit>, f: nat, u: seq<Bigit>, g: nat)
    requires Canonical(s) && Canonical(t) && Canonical(u)
    ensures var difference := Value(s, e) + Value(t, f) - Value(u, g);
            SumVerdict(s, e, t, f, u, g) == Sign(difference) <==>
              && !ZeroFarAbove(s, e, t, f, u, g)
              && (ZeroAbove(s, e, u, g) || ZeroAbove(t, f, u, g) ==> difference > 0)
    ensures (Value(s, e) == 0 ==> e == 0) && (Value(t, f) == 0 ==> f == 0) && (Value(u, g) == 0 ==> g == 0)
            ==> SumVerdict(s, e, t, f, u, g) == Sign(Value(s, e) + Value(t, f) - Value(u, g))
  {
    ValueZero(s, e);
    ValueZero(t, f);
    ValueZero(u, g);
    ValZero(s);
    ValZero(t);
    ValZero(u);
    hide Value;
  }

  /** Both errors happen: 0 + 0 against 1 with a zero at exponent 5, and against such a zero. */
  lemma SumVerdictMistaken()
    ensures SumVerdict([0], 5, [0], 0, [1], 0) == 1 && Value([0], 5) + Value([0], 0) < Value([1], 0)
    ensures SumVerdict([0], 0, [0], 0, [0], 5) == -1 && Value([0], 0) + Value([0], 0) == Value([0], 5)
  {
    ValOne(0);
    ValOne(1);
    assert Weight(0) == 1;
  }

  lemma SumTooSmall(s: seq<Bigit>, e: nat, t: seq<Bigit>, f: nat, u: seq<Bigit>, g: nat)
    requires Canonical(s) && Canonical(t) && Canonical(u)
    requires Places(s, e) + 1 < Places(u, g) && Places(t, f) + 1 < Places(u, g)
    ensures SumVerdict(s, e, t, f, u, g) == -1
  {
    ValueZero(u, g);
    var n := Places(u, g);
    if Value(u, g) > 0 {
      ValueBound(s, e);
      ValueBound(t, f);
      PlacesBracket(u, g);
      WeightMonotone(Places(s, e), n - 2);
      WeightMonotone(Places(t, f), n - 2);
      WeightStep(n - 2);
    }
  }

  lemma SumTooLarge(s: seq<Bigit>, e: nat, t: seq<Bigit>, f: nat, u: seq<Bigit>, g: nat)
    requires Canonical(s) && Canonical(t) && Canonical(u)
    requires Places(s, e) > Places(u, g) || Places(t, f) > Places(u, g)
    ensures SumVerdict(s, e, t, f, u, g) == 1
  {
    ValueZero(s, e);
    ValueZero(t, f);
    if Places(s, e) > Places(u, g) && Value(s, e) > 0 {
      PlacesOrder(u, g, s, e);
    } else if Places(t, f) > Places(u, g) && Value(t, f) > 0 {
      PlacesOrder(u, g, t, f);
    }
  }

  lemma EqualPlaces(s: seq<Bigit>, e: nat, t: seq<Bigit>, f: nat)
    requires Canonical(s) && Canonical(t) && Value(s, e) == Value(t, f) > 0
    ensures Places(s, e) == Places(t, f)
  {
    ValueZero(s, e);
    ValueZero(t, f);
    if Places(s, e) < Places(t, f) {
      PlacesOrder(s, e, t, f);
    } else if Places(t, f) < Places(s, e) {
      PlacesOrder(t, f, s, e);
    }
  }

  lemma NotEvenOnce(q: nat, d: nat, r: nat)
    requires d > 0 && Divided(d, q, d, r) && r >= d
    ensures q == 0
  {
    if q > 0 {
      MulMonotone(1, q, d);
    }
  }

  // ---------- Subtraction ----------

  /** The borrow out of the divisor's places meets a bigit that can absorb it. */
  ghost predicate BorrowFits(s: seq<Bigit>, off: nat, t: seq<Bigit>)
  {
    var top := off + |t|;
    top <= |s| && (Val(s[..top]) >= Val(t) * Weight(off) || (top < |s| && s[top] != 0))
  }

  lemma NoBorrow(s: seq<Bigit>, t: seq<Bigit>)
    requires Canonical(s) && Canonical(t) && Value(s, 0) == UINT64 && Value(t, 0) == 1
    ensures !BorrowFits(s, 0, t)
  {
    assert Weight(0) == 1 && Weight(1) == BASE;
    OnePlace(t);
    ValSplit(s, 0);
    var k := s[1..];
    assert Val(s) == s[0] + BASE * Val(k);
    assert s[0] == 0 && Val(k) == BASE;
    assert k != [] && Val(k) == k[0] + BASE * Val(k[1..]);
    assert s[1] == 0;
    assert s[..1] == [0];
    ValOne(0);
  }

  lemma OnePlace(t: seq<Bigit>)
    requires Canonical(t) && Val(t) * Weight(0) == 1
    ensures |t| == 1 && Val(t) == 1
  {
    assert Weight(0) == 1 && Weight(1) == BASE;
    ValTop(t);
  }

  /** The places of t below j have been taken off s, up to a borrow. */
  ghost predicate Subtracted(s: seq<Bigit>, before: seq<Bigit>, off: nat, t: seq<Bigit>, j: nat, borrow: nat)
  {
    && j <= |t| && off + |t| <= |s| == |before|
    && s[off + j..] == before[off + j..]
    && Val(s[..off + j]) + Val(t[..j]) * Weight(off) == Val(before[..off + j]) + borrow * Weight(off + j)
  }

  lemma SubtractedStart(s: seq<Bigit>, off: nat, t: seq<Bigit>)
    requires off + |t| <= |s|
    ensures Subtracted(s, s, off, t, 0, 0)
  {
    assert t[..0] == [];
  }

  lemma SubtractedStep(s: seq<Bigit>, before: seq<Bigit>, off: nat, t: seq<Bigit>, j: nat, borrow: nat, d: Bigit, next: nat)
    requires j < |t| && Subtracted(s, before, off, t, j, borrow)
    requires d + t[j] + borrow == s[off + j] + next * BASE
    ensures Subtracted(s[off + j := d], before, off, t, j + 1, next)
  {
    var i := off + j;
    assert s[i] == s[i..][0] == before[i..][0] == before[i];
    assert s[i := d][i + 1..] == s[i..][1..] == before[i + 1..];
    assert s[i := d][..i] == s[..i];
    ValTake(s[i := d], i);
    ValTake(before, i);
    ValTake(t, j);
    WeightAdd(j, off);
    WeightStep(i);
    BorrowUp(Val(s[..i]), Val(t[..j]), Weight(j), Weight(off), Val(before[..i]), borrow, d, t[j], before[i], next);
  }

  lemma BorrowUp(low: int, tLow: int, wj: int, wo: int, oldLow: int, borrow: int, d: int, x: int, b: int, next: int)
    requires low + tLow * wo == oldLow + borrow * (wj * wo)
    requires d + x + borrow == b + next * BASE
    ensures (low + (wj * wo) * d) + (tLow + wj * x) * wo == (oldLow + (wj * wo) * b) + next * (BASE * (wj * wo))
  {
    var w := wj * wo;
    assert (wj * x) * wo == w * x by { MulAssoc(wj, x, wo); MulAssoc(wj, wo, x); }
    assert next * (BASE * w) == w * (next * BASE) by { MulAssoc(next, BASE, w); }
    assert w * (d + x + borrow) == w * (b + next * BASE);
  }

  lemma SubtractedEnd(s: seq<Bigit>, before: seq<Bigit>, off: nat, t: seq<Bigit>, borrow: nat)
    requires Subtracted(s, before, off, t, |t|, borrow) && borrow <= 1
    requires Val(before) >= Val(t) * Weight(off)
    ensures borrow == 1 <==> Val(before[..off + |t|]) < Val(t) * Weight(off)
    ensures borrow == 1 ==> off + |t| < |s|
  {
    var top := off + |t|;
    assert t[..|t|] == t;
    ValBound(s[..top]);
    if top == |s| {
      assert before[..top] == before;
    }
  }

  /** What the last borrow does to the bigit at i: the loop revisits a zero once. */
  ghost function Absorbed(s: seq<Bigit>, i: nat, borrow: nat): seq<Bigit>
    requires borrow == 1 ==> i < |s|
  {
    if borrow != 1 then s else s[i := if s[i] == 0 then BASE - 2 else s[i] - 1]
  }

  lemma AbsorbedValue(s: seq<Bigit>, before: seq<Bigit>, off: nat, t: seq<Bigit>, borrow: nat)
    requires Subtracted(s, before, off, t, |t|, borrow) && borrow <= 1
    requires borrow == 1 ==> off + |t| < |s|
    ensures Val(Absorbed(s, off + |t|, borrow)) + Val(t) * Weight(off) == Val(before)
            <==> borrow == 0 || before[off + |t|] != 0
  {
    var top := off + |t|;
    assert t[..|t|] == t;
    ValSplit(s, top);
    ValSplit(before, top);
    if borrow == 1 {
      assert s[top] == s[top..][0] == before[top..][0];
      var d: Bigit := if s[top] == 0 then BASE - 2 else s[top] - 1;
      ReplaceBigit(s, top, d);
      var step := d as int - s[top];
      MulCancel(step, -1, Weight(top));
    }
  }

  /** Replacing one bigit moves the value by the difference at its weight. */
  lemma ReplaceBigit(s: seq<Bigit>, i: nat, d: Bigit)
    requires i < |s|
    ensures Val(s[i := d]) == Val(s) + (d as int - s[i]) * Weight(i)
  {
    ValSplit(s, i);
    ValSplit(s[i := d], i);
    assert s[i := d][..i] == s[..i];
    assert s[i := d][i..][1..] == s[i..][1..];
    MoveBy(Weight(i), Val(s[i := d][i..]), Val(s[i..]), d as int - s[i]);
  }

  lemma MoveBy(w: int, x: int, y: int, step: int)
    requires x == y + step
    ensures w * x == w * y + step * w
  {
  }

  lemma ShiftedValue(v: nat, d: nat, e: nat)
    ensures (Weight(d) * v) * Weight(e) == v * Weight(d + e)
  {
    WeightAdd(d, e);
    MulAssoc(v, Weight(d), Weight(e));
  }

  lemma DifferenceScaled(v: nat, before: nat, e: nat, d: nat, f: nat)
    requires e <= f
    ensures v * Weight(e) == before * Weight(e) - d * Weight(f) <==> v + d * Weight(f - e) == before
    ensures before * Weight(e) >= d * Weight(f) <==> before >= d * Weight(f - e)
  {
    WeightAdd(f - e, e);
    MulAssoc(d, Weight(f - e), Weight(e));
    var k := d * Weight(f - e);
    assert (v + k) * Weight(e) == v * Weight(e) + k * Weight(e);
    MulCancel(v + k, before, Weight(e));
    MulCancel(before, k, Weight(e));
  }

  lemma DivisorReach(s: seq<Bigit>, e: nat, t: seq<Bigit>, f: nat)
    requires Canonical(s) && Canonical(t) && e <= f && Value(s, e) >= Value(t, f) > 0
    ensures f - e + |t| <= |s|
    ensures Val(s) >= Val(t) * Weight(f - e)
  {
    ValueZero(t, f);
    if Places(s, e) < Places(t, f) {
      PlacesOrder(s, e, t, f);
    }
    DifferenceScaled(0, Val(s), e, Val(t), f);
  }

  /** With at most one place above the divisor's, a borrow always finds a non-zero bigit. */
  lemma OneAbove(s: seq<Bigit>, e: nat, t: seq<Bigit>, f: nat)
    requires Canonical(s) && Canonical(t) && e <= f && Value(s, e) >= Value(t, f) > 0
    requires Places(s, e) <= Places(t, f) + 1
    ensures BorrowFits(s, f - e, t)
  {
    DivisorReach(s, e, t, f);
    var top := f - e + |t|;
    if top == |s| {
      assert s[..top] == s;
    } else {
      assert s[top] != 0;
    }
  }

  /** A remainder uses no more places than what it was taken from. */
  lemma SmallerFits(s: seq<Bigit>, e: nat, t: seq<Bigit>, f: nat)
    requires Canonical(s) && Canonical(t) && e <= f && Val(t) > 0
    ensures Value(s, e) == 0 ==> Places(s, e) <= Places(t, f)
  {
    ValueZero(s, e);
    ValZero(s);
  }

  predicate Divided(dividend: nat, quotient: nat, divisor: nat, remainder: nat)
  {
    dividend == quotient * divisor + remainder
  }

  lemma DividedStep(dividend: nat, quotient: nat, divisor: nat, remainder: nat)
    requires Divided(dividend, quotient, divisor, remainder) && remainder >= divisor
    ensures Divided(dividend, quotient + 1, divisor, remainder - divisor)
  {
  }

  lemma VerdictMeans(s: seq<Bigit>, e: nat, t: seq<Bigit>, f: nat)
    requires Canonical(s) && Canonical(t) && Value(t, f) > 0
    requires Value(s, e) == 0 ==> Places(s, e) <= Places(t, f)
    ensures Verdict(s, e, t, f) < 0
            <==> Value(s, e) < Value(t, f) || (Value(s, e) == Value(t, f) && e > f)
  {
    ValueZero(s, e);
    ValueZero(t, f);
  }

  /** At equal exponents compare answers the sign of the difference, zeros included. */
  lemma VerdictAtEqualExponents(s: seq<Bigit>, t: seq<Bigit>, e: nat)
    requires Canonical(s) && Canonical(t)
    ensures Verdict(s, e, t, e) == Sign(Value(s, e) - Value(t, e))
  {
    ValZero(s);
    ValZero(t);
    ValueZero(s, e);
    ValueZero(t, e);
    if Val(s) == 0 && Val(t) > 0 && Places(s, e) == Places(t, e) {
      assert Val(s) - Val(t) < 0;
    }
  }

  /** For a non-zero right side whose exponent is not the smaller one, "not less" is exact. */
  lemma NotLessIsExact(s: seq<Bigit>, e: nat, t: seq<Bigit>, f: nat)
    requires Canonical(s) && Canonical(t) && Val(t) > 0 && e <= f
    ensures Verdict(s, e, t, f) >= 0 <==> Value(s, e) >= Value(t, f)
  {
    ValZero(s);
    VerdictMeans(s, e, t, f);
    ValueZero(t, f);
  }

  // ---------- Digit-by-digit multiplication ----------

  /** The bigits below i already hold the product of before's bigits below i, up to
      the carry; those from i on are still to be multiplied. */
  ghost predicate Multiplied(s: seq<Bigit>, before: seq<Bigit>, i: nat, carry: nat, v: nat)
  {
    && i <= |s| == |before|
    && s[i..] == before[i..]
    && Val(s[..i]) + Weight(i) * carry == Val(before[..i]) * v
  }

  lemma MultipliedStart(s: seq<Bigit>, v: nat)
    ensures Multiplied(s, s, 0, 0, v)
  {
  }

  lemma MultipliedStep(s: seq<Bigit>, before: seq<Bigit>, i: nat, carry: nat, v: nat, digit: Bigit, next: nat)
    requires i < |s| && Multiplied(s, before, i, carry, v)
    requires s[i] * v + carry == BASE * next + digit
    ensures Multiplied(s[i := digit], before, i + 1, next, v)
  {
    assert s[i] == s[i..][0] == before[i..][0] == before[i];
    assert s[i := digit][i + 1..] == s[i..][1..] == before[i + 1..];
    assert s[i := digit][..i] == s[..i];
    ValTake(s[i := digit], i);
    ValTake(before, i);
    WeightStep(i);
    CarryUp(Val(s[..i]), Val(before[..i]), Weight(i), before[i], v, carry, digit, next);
  }

  lemma CarryUp(low: int, oldLow: int, w: int, b: int, v: int, carry: int, digit: int, next: int)
    requires low + w * carry == oldLow * v
    requires b * v + carry == BASE * next + digit
    ensures (low + w * digit) + (BASE * w) * next == (oldLow + w * b) * v
  {
    MulAssoc(w, b, v);
    MulAssoc(w, BASE, next);
    assert w * (b * v + carry) == w * (BASE * next + digit);
  }

  /** A product that needs no further bigit keeps a non-zero top bigit. */
  lemma TopKept(s: seq<Bigit>, before: seq<Bigit>, v: nat)
    requires Canonical(before) && |s| == |before| && v > 0 && Val(s) == Val(before) * v
    ensures Canonical(s)
  {
    if |s| > 1 {
      ValTop(before);
      AtLeast(Val(before), v);
      TopFromSize(s);
    }
  }

  lemma AtLeast(x: nat, v: nat)
    requires v > 0
    ensures x <= x * v
  {
    MulMonotone(1, v, x);
  }

  /** Appending the bigits of the last carry completes the product. */
  lemma MultipliedEnd(s: seq<Bigit>, before: seq<Bigit>, carry: nat, v: nat, top: seq<Bigit>)
    requires Multiplied(s, before, |s|, carry, v) && Canonical(before) && v > 0
    requires Val(top) == carry && (top == [] || top[|top| - 1] != 0)
    ensures Val(s + top) == Val(before) * v
    ensures Canonical(s + top)
  {
    assert s[..|s|] == s && before[..|before|] == before;
    ValAppend(s, top);
    if top == [] {
      assert s + top == s;
      TopKept(s, before, v);
    } else {
      assert (s + top)[|s + top| - 1] == top[|top| - 1];
    }
  }

  lemma ScaledProduct(x: int, w: int, v: int)
    ensures (x * v) * w == (x * w) * v
  {
    MulAssoc(x, v, w);
    MulAssoc(x, w, v);
  }

  /** The 32-bit left shift of one bigit, with the bits that fall out kept apart. */
  lemma ShiftStep(b: int, carry: int, p: nat, q: nat)
    requires 0 <= b < BASE && p > 0 && q > 0 && p * q == BASE && 0 <= carry < p
    ensures 0 <= b / q < p
    ensures (b * p) % BASE + carry < BASE
    ensures b * p + carry == BASE * (b / q) + ((b * p) % BASE + carry)
  {
    var c, r := b / q, b % q;
    assert b == c * q + r;
    MulAssoc(c, q, p);
    assert b * p == c * BASE + r * p;
    MulMonotone(r, q - 1, p);
    if c >= p {
      MulMonotone(p, c, q);
    }
    Remainder(b * p, c, r * p);
  }

  lemma Remainder(x: int, q: int, r: int)
    requires x == q * BASE + r && 0 <= r < BASE
    ensures x % BASE == r && x / BASE == q
  {
  }

  lemma ProductBelow(b: int, v: int, carry: int, next: int, digit: int)
    requires 0 <= b < BASE && 0 <= carry < v && b * v + carry == BASE * next + digit && 0 <= digit
    ensures next < v
  {
    MulMonotone(b, BASE - 1, v);
    if next >= v {
      MulMonotone(v, next, BASE);
    }
  }

  lemma SplitDigit(x: nat)
    ensures x == BASE * (x / BASE) + x % BASE && 0 <= x % BASE < BASE && x / BASE >= 0
  {
  }

  /** One step of the one-word multiplication stays within 64 bits. */
  lemma WordFits(b: int, v: int, carry: int, result: int, next: int, digit: int)
    requires 0 <= b < BASE && 0 <= carry < v < BASE && result == b * v + carry
    requires result == BASE * next + digit && 0 <= digit < BASE
    ensures next < v && result < UINT64
  {
    ProductBelow(b, v, carry, next, digit);
  }

  /** One step of the two-word multiplication is exact and stays within 2 * half bits. */
  lemma WideParts(lower: nat, upper: nat, b: nat, k: nat)
    ensures lower * b >= 0 && (upper * b) * k >= 0
  {
    MulMonotone(0, lower, b);
    MulMonotone(0, upper, b);
    MulMonotone(0, upper * b, k);
  }

  lemma WideStep(value: nat, half: nat, lower: nat, upper: nat, b: nat, carry: nat, result: nat, high: nat, next: nat)
    requires half == BASE || half == UINT64
    requires lower < half && value == upper * half + lower && value < half * half
    requires b < BASE && carry < value
    requires result == lower * b + carry % BASE && high == (upper * b) * (half / BASE)
    requires next == high + result / BASE + carry / BASE
    ensures b * value + carry == BASE * next + result % BASE
    ensures result < half * half && high < half * half && next < value
  {
    var k := half / BASE;
    assert half == k * BASE;
    MulAssoc(upper * b, k, BASE);
    MulAssoc(upper, b, half);
    MulAssoc(upper, half, b);
    assert BASE * high == upper * half * b;
    assert b * value == upper * half * b + lower * b;
    ProductBelow(b, value, carry, next, result % BASE);
    MulMonotone(lower, half - 1, b);
    MulMonotone(b, BASE - 1, half - 1);
    assert result < half * BASE;
  }

  lemma ShiftFactors(shift: nat)
    requires shift < 32
    ensures Pow(2, shift) > 0 && Pow(2, 32 - shift) > 0
    ensures Pow(2, shift) * Pow(2, 32 - shift) == BASE
    ensures Pow(2, shift) <= BASE
  {
    PowAdd(2, shift, 32 - shift);
    PowMonotone(2, shift, 32);
    PowPositive(2, shift);
    PowPositive(2, 32 - shift);
    TwoTo32();
  }

  /** Shifting by whole places goes to the exponent, the rest to the bigits. */
  lemma ShiftSplit(v: nat, e: nat, shift: nat)
    ensures (v * Pow(2, shift % 32)) * Weight(e + shift / 32) == (v * Weight(e)) * Pow(2, shift)
  {
    var k, r := shift / 32, shift % 32;
    TwoTo32();
    PowPow(2, 32, k);
    PowAdd(2, 32 * k, r);
    WeightAdd(e, k);
    var w, m, p := Weight(e), Weight(k), Pow(2, r);
    assert Pow(2, shift) == m * p;
    assert (v * p) * (w * m) == (v * w) * (m * p) by {
      MulAssoc(v, p, w * m);
      MulAssoc(p, w, m);
      MulAssoc(v, w, m * p);
      MulAssoc(w, m, p);
      MulAssoc(w * m, p, 1);
    }
  }

  // ---------- Squaring ----------

  /** Twice this many bigits still fit a C++ int. */
  const MAX_BIGITS: nat := 0x4000_0000

  /** The places below k of s are final, and sum is what they carry upwards. */
  ghost predicate Squared(s: seq<Bigit>, n: seq<Bigit>, k: nat, sum: nat)
  {
    && k <= |s| == 2 * |n|
    && sum <= |n| * BASE
    && Val(s[..k]) + Weight(k) * sum == ColumnSum(n, n, k)
  }

  lemma SquaredStep(s: seq<Bigit>, n: seq<Bigit>, k: nat, start: nat, sum: nat)
    requires k < |s| && Squared(s, n, k, start) && sum == start + Column(n, n, k)
    ensures Squared(s[k := sum % BASE], n, k + 1, sum / BASE)
  {
    var d: Bigit, c := sum % BASE, sum / BASE;
    ValTake(s[k := d], k);
    assert s[k := d][..k] == s[..k];
    WeightStep(k);
    ColumnBound(n, n, k);
    ColumnSumStep(n, n, k);
    SplitSum(Weight(k), start, Column(n, n, k), c, d);
  }

  /** A column sum with its carry stays within 128 bits. */
  lemma ColumnFits(n: seq<Bigit>, k: nat, start: nat)
    requires |n| < MAX_BIGITS && start <= |n| * BASE
    ensures start + Column(n, n, k) < UINT128
  {
    ColumnBound(n, n, k);
  }

  lemma SplitSum(w: int, x: int, y: int, c: int, d: int)
    requires x + y == BASE * c + d
    ensures w * d + (BASE * w) * c == w * x + w * y
  {
    MulAssoc(w, BASE, c);
    assert w * (x + y) == w * (BASE * c + d);
  }

  lemma NoFinalCarry(s: seq<Bigit>, n: seq<Bigit>, sum: nat)
    requires Squared(s, n, |s|, sum)
    ensures sum == 0 && Val(s) == Val(n) * Val(n)
  {
    assert s[..|s|] == s;
    ColumnSumProduct(n, n, |s|);
    SquareBound(n);
    if sum >= 1 {
      MulMonotone(1, sum, Weight(|s|));
    }
  }

  lemma SquareBound(n: seq<Bigit>)
    ensures Val(n) * Val(n) < Weight(2 * |n|)
  {
    ValBound(n);
    WeightAdd(|n|, |n|);
    MulStrict(Val(n), Weight(|n|), Weight(|n|));
    MulMonotone(Val(n), Weight(|n|), Val(n));
  }

  // ---------- Powers of ten ----------

  predicate PowerOfTwo(m: nat)
  {
    m == 1 || (m > 0 && m % 2 == 0 && PowerOfTwo(m / 2))
  }

  lemma DoublePower(m: nat)
    requires PowerOfTwo(m)
    ensures PowerOfTwo(2 * m)
  {
  }

  /** x is what the bits of e from m upwards make. */
  ghost predicate Reached(e: nat, m: nat, x: nat)
  {
    PowerOfTwo(m) && x == e / m <= e
  }

  lemma ReachedTop(e: nat, m: nat)
    requires PowerOfTwo(m) && m <= e < 2 * m
    ensures Reached(e, m, 1)
  {
    Quotient(e, m, 1, e - m);
  }

  /** The next bit below m, if m is not the lowest, is taken in by doubling. */
  lemma ReachedStep(e: nat, m: nat, x: nat)
    requires Reached(e, m, x) && m / 2 != 0
    ensures Reached(e, m / 2, 2 * x + (e / (m / 2)) % 2)
  {
    HalfQuotient(e, m / 2, x);
  }

  lemma HalfQuotient(e: nat, h: nat, x: nat)
    requires h > 0 && x == e / (2 * h)
    ensures 2 * x <= e / h <= 2 * x + 1 && e / h <= e
  {
    var m := 2 * h;
    var r := e % m;
    assert e == m * x + r;
    assert m * x == h * (2 * x) by { MulAssoc(h, 2, x); }
    if r < h {
      Quotient(e, h, 2 * x, r);
    } else {
      assert h * (2 * x + 1) == h * (2 * x) + h;
      Quotient(e, h, 2 * x + 1, r - h);
    }
    QuotientAtMost(e, h);
  }

  lemma QuotientAtMost(e: nat, h: nat)
    requires h > 0
    ensures e / h <= e
  {
    if e / h > e {
      MulMonotone(1, h, e / h);
    }
  }

  lemma Quotient(x: int, d: int, q: int, r: int)
    requires d > 0 && x == d * q + r && 0 <= r < d
    ensures x / d == q
  {
    if x / d < q {
      MulMonotone(x / d + 1, q, d);
    } else if x / d > q {
      MulMonotone(q + 1, x / d, d);
    }
  }

  lemma FiveTwo(e: nat)
    ensures Pow(5, e) * Pow(2, e) == Pow(10, e)
  {
    PowProduct(5, 2, e);
  }

  /** The places of a number below 2^(c * x) number at most c * x / 32 + 1. */
  lemma SizeFromPower(k: nat, v: nat, c: nat, x: nat)
    requires Weight(k) <= v <= Pow(2, c * x)
    ensures 32 * k <= c * x
  {
    TwoTo32();
    PowPow(2, 32, k);
    if 32 * k > c * x {
      PowStrict(2, c * x, 32 * k);
    }
  }

  lemma PowerSize(s: seq<Bigit>, x: nat)
    requires Canonical(s) && Val(s) == Pow(5, x) && x < MAX_BIGITS
    ensures |s| < MAX_BIGITS
  {
    PowPositive(5, x);
    PlacesBracket(s, 0);
    assert Weight(0) == 1;
    PowBase(5, 8, x);
    PowPow(2, 3, x);
    SizeFromPower(|s| - 1, Val(s), 3, x);
  }

  lemma TenSize(s: seq<Bigit>, f: nat, e: nat)
    requires Canonical(s) && Value(s, f) == Pow(10, e) && e < MAX_BIGITS
    ensures Places(s, f) < MAX_BIGITS
  {
    PowPositive(10, e);
    PlacesBracket(s, f);
    PowBase(10, 16, e);
    PowPow(2, 4, e);
    SizeFromPower(Places(s, f) - 1, Value(s, f), 4, e);
  }

  // ---------- Splitting a machine integer into bigits ----------

  /** s holds the low bigits of value and n is what is left above them. */
  ghost predicate Peeled(s: seq<Bigit>, n: nat, value: nat)
  {
    && Val(s) + Weight(|s|) * n == value
    && (n == 0 ==> s == [] || s[|s| - 1] != 0 || value == 0)
  }

  lemma PeelStep(s: seq<Bigit>, n: nat, value: nat)
    requires Peeled(s, n, value) && (n > 0 || s == [])
    ensures Peeled(s + [n % BASE], n / BASE, value)
  {
    var d: Bigit := n % BASE;
    ValAppend(s, [d]);
    ValOne(d);
    WeightStep(|s|);
    MulAssoc(Weight(|s|), BASE, n / BASE);
    assert n == BASE * (n / BASE) + d;
    assert Weight(|s|) * n == Weight(|s|) * (BASE * (n / BASE)) + Weight(|s|) * d;
  }

  class Bigint {
    var bigits: seq<Bigit>
    var exp: nat

    ghost predicate Valid()
      reads this
    {
      Canonical(bigits)
    }

    ghost function Number(): nat
      reads this
    {
      Value(bigits, exp)
    }

    constructor ()
      ensures bigits == [] && exp == 0
    {
      bigits, exp := [], 0;
    }

    function NumBigits(): nat
      reads this
    {
      Places(bigits, exp)
    }

    /** Assigns an unsigned machine integer of any width. */
    method Assign(value: nat)
      modifies this
      ensures Valid() && Number() == value && exp == 0
    {
      var n: nat := value;
      PeelStep([], n, value);
      assert [] + [n % BASE] == [n % BASE];
      bigits := [n % BASE];
      n := n / BASE;
      while n != 0
        invariant |bigits| >= 1 && Peeled(bigits, n, value)
        invariant value == 0 ==> bigits == [0]
      {
        PeelStep(bigits, n, value);
        bigits := bigits + [n % BASE];
        n := n / BASE;
      }
      exp := 0;
    }

    method AssignCopy(other: Bigint)
      modifies this
      ensures bigits == other.bigits && exp == other.exp
    {
      var size := |other.bigits|;
      bigits := other.bigits[..size];
      exp := other.exp;
    }

    method RemoveLeadingZeros()
      requires |bigits| >= 1
      modifies this`bigits
      ensures Valid() && Val(bigits) == old(Val(bigits))
      ensures |bigits| <= |old(bigits)|
    {
      ghost var before := bigits;
      var last := |bigits| - 1;
      assert bigits[..last + 1] == bigits;
      while last > 0 && bigits[last] == 0
        invariant 0 <= last < |bigits|
        invariant Val(bigits[..last + 1]) == Val(before)
      {
        ValTake(bigits, last);
        last := last - 1;
      }
      bigits := bigits[..last + 1];
    }

    /** One word of the multiplication, in 64 bits. */
    static method Word(b: Bigit, value: nat, carry: nat) returns (digit: Bigit, next: nat)
      requires carry < value < BASE
      ensures b * value + carry == BASE * next + digit
      ensures next < value
    {
      var x: nat := b;
      var result := x * value + carry;
      SplitDigit(result);
      WordFits(x, value, carry, result, result / BASE, result % BASE);
      digit, next := result % BASE, result / BASE;
    }

    /** Multiplies by a 32-bit value. */
    method Multiply(value: nat)
      requires Valid() && 0 < value < BASE
      modifies this`bigits
      ensures Valid() && Val(bigits) == old(Val(bigits)) * value
      ensures Number() == old(Number()) * value
    {
      ghost var before := bigits;
      var carry: nat := 0;
      var i, n := 0, |bigits|;
      MultipliedStart(bigits, value);
      while i < n
        invariant 0 <= i <= n == |bigits|
        invariant carry < value
        invariant Multiplied(bigits, before, i, carry, value)
      {
        var digit, next := Word(bigits[i], value, carry);
        MultipliedStep(bigits, before, i, carry, value, digit, next);
        bigits := bigits[i := digit];
        carry := next;
        i := i + 1;
      }
      ValOne(carry);
      MultipliedEnd(bigits, before, carry, value, if carry == 0 then [] else [carry]);
      ScaledProduct(Val(before), Weight(exp), value);
      assert bigits + [] == bigits;
      if carry != 0 {
        bigits := bigits + [carry];
      }
    }

    /** One word of the two-word multiplication; no intermediate result outgrows its
        machine word of twice half's width. */
    static method WideWord(b: Bigit, value: nat, half: nat, carry: nat) returns (digit: Bigit, next: nat)
      requires half == BASE || half == UINT64
      requires carry < value < half * half
      ensures b * value + carry == BASE * next + digit
      ensures next < value
    {
      var shifted := half / BASE;  // 1 << shift
      var lower, upper := value % half, value / half;
      WideParts(lower, upper, b, shifted);
      var result := lower * b + carry % BASE;
      var high := (upper * b) * shifted;
      var above := high + result / BASE + carry / BASE;
      WideStep(value, half, lower, upper, b, carry, result, high, above);
      assert result < half * half && high < half * half && above < half * half;
      next, digit := above, result % BASE;
    }

    /** Appends the bigits of a left-over carry. */
    method PushCarry(carry: nat) returns (ghost top: seq<Bigit>)
      modifies this`bigits
      ensures bigits == old(bigits) + top
      ensures Val(top) == carry && (top == [] || top[|top| - 1] != 0)
    {
      var rest := carry;
      top := [];
      while rest != 0
        invariant rest >= 0 && bigits == old(bigits) + top
        invariant Peeled(top, rest, carry)
        invariant carry == 0 ==> top == []
      {
        PeelStep(top, rest, carry);
        top := top + [rest % BASE];
        bigits := bigits + [rest % BASE];
        rest := rest / BASE;
      }
    }

    /** Multiplies by a value of two 32-bit or two 64-bit halves. */
    method MultiplyWide(value: nat, half: nat)
      requires half == BASE || half == UINT64
      requires Valid() && 0 < value < half * half
      modifies this`bigits
      ensures Valid() && Val(bigits) == old(Val(bigits)) * value
      ensures Number() == old(Number()) * value
    {
      ghost var before := bigits;
      var carry := 0;
      var i, n := 0, |bigits|;
      MultipliedStart(bigits, value);
      while i < n
        invariant 0 <= i <= n == |bigits|
        invariant 0 <= carry < value
        invariant Multiplied(bigits, before, i, carry, value)
      {
        var digit, next := WideWord(bigits[i], value, half, carry);
        MultipliedStep(bigits, before, i, carry, value, digit, next);
        bigits := bigits[i := digit];
        carry := next;
        i := i + 1;
      }
      ghost var low := bigits;
      ghost var top := PushCarry(carry);
      MultipliedEnd(low, before, carry, value, top);
      ScaledProduct(Val(before), Weight(exp), value);
    }

    method ShiftLeft(shift: nat)
      requires Valid()
      modifies this
      ensures Valid() && Number() == old(Number()) * Pow(2, shift)
      ensures exp == old(exp) + shift / 32
    {
      ShiftSplit(Val(bigits), exp, shift);
      exp := exp + shift / 32;
      if shift % 32 != 0 {
        ShiftBits(shift % 32);
      } else {
        assert Pow(2, 0) == 1;
      }
    }

    /** The part of a shift that stays within a bigit. */
    method ShiftBits(shift: nat)
      requires Valid() && 0 < shift < 32
      modifies this`bigits
      ensures Valid() && Val(bigits) == old(Val(bigits)) * Pow(2, shift)
    {
      ghost var before := bigits;
      var p, q := Pow(2, shift), Pow(2, 32 - shift);
      ShiftFactors(shift);
      var carry := 0;
      var i, n := 0, |bigits|;
      MultipliedStart(bigits, p);
      while i < n
        invariant 0 <= i <= n == |bigits|
        invariant 0 <= carry < p
        invariant Multiplied(bigits, before, i, carry, p)
      {
        var b: Bigit := bigits[i];
        var c := b / q;
        ShiftStep(b, carry, p, q);
        MultipliedStep(bigits, before, i, carry, p, (b * p) % BASE + carry, c);
        bigits := bigits[i := (b * p) % BASE + carry];
        carry := c;
        i := i + 1;
      }
      ValOne(carry);
      MultipliedEnd(bigits, before, carry, p, if carry == 0 then [] else [carry]);
      assert bigits + [] == bigits;
      if carry != 0 {
        bigits := bigits + [carry];
      }
    }

    /** Adds column k of n * n, k below |n|, to a 128-bit sum. */
    static method AddLowColumn(n: seq<Bigit>, k: nat, start: nat) returns (sum: nat)
      requires k < |n| < MAX_BIGITS && start <= |n| * BASE
      ensures sum == start + Column(n, n, k)
    {
      ColumnFits(n, k, start);
      assert n[0..] == n;
      sum := start;
      var i, j := 0, k;
      while j >= 0
        invariant -1 <= j <= k && i == k - j
        invariant sum + Column(n[i..], n, j) == start + Column(n, n, k)
      {
        var x: nat, y: nat := n[i], n[j];
        ColumnPeel(n, i, j, x, y);
        sum := sum + x * y;
        assert sum < UINT128;
        i, j := i + 1, j - 1;
      }
      ColumnBelow(n[i..], n, -1);
    }

    /** The same for a column at or above |n|. */
    static method AddHighColumn(n: seq<Bigit>, k: nat, start: nat) returns (sum: nat)
      requires |n| <= k < 2 * |n| && |n| < MAX_BIGITS && start <= |n| * BASE
      ensures sum == start + Column(n, n, k)
    {
      ColumnFits(n, k, start);
      sum := start;
      var j := |n| - 1;
      var i := k - j;
      ColumnSkip(n, n, k, i);
      while i < |n|
        invariant 0 <= i <= |n| && j == k - i
        invariant sum + Column(n[i..], n, j) == start + Column(n, n, k)
      {
        var x: nat, y: nat := n[i], n[j];
        ColumnPeel(n, i, j, x, y);
        sum := sum + x * y;
        assert sum < UINT128;
        i, j := i + 1, j - 1;
      }
    }

    method Square()
      requires Valid() && |bigits| < MAX_BIGITS
      modifies this
      ensures Valid() && Val(bigits) == old(Val(bigits)) * old(Val(bigits))
      ensures exp == 2 * old(exp)
    {
      var n := bigits;
      bigits := seq(2 * |n|, _ => 0);
      var sum: nat, k := 0, 0;
      assert bigits[..0] == [];
      while k < 2 * |n|
        invariant 0 <= k <= 2 * |n| == |bigits|
        invariant Squared(bigits, n, k, sum) && exp == old(exp)
      {
        ghost var start := sum;
        if k < |n| {
          sum := AddLowColumn(n, k, sum);
        } else {
          sum := AddHighColumn(n, k, sum);
        }
        SquaredStep(bigits, n, k, start, sum);
        bigits := bigits[k := sum % BASE];
        sum := sum / BASE;
        k := k + 1;
      }
      NoFinalCarry(bigits, n, sum);
      RemoveLeadingZeros();
      exp := 2 * exp;
    }

    /** Sets this to 10^e, as 5^e by repeated squaring and a shift by e. */
    method AssignPow10(e: nat)
      requires e < 0x4000_0000
      modifies this
      ensures Valid() && Number() == Pow(10, e)
      ensures exp == e / 32
      ensures NumBigits() < MAX_BIGITS
    {
      if e == 0 {
        Assign(1);
        TenSize(bigits, exp, 0);
        return;
      }
      RaiseFive(e);
      ShiftLeft(e);
      FiveTwo(e);
      TenSize(bigits, exp, e);
    }

    /** Sets this to 5^e, taking in the bits of e from the top. */
    method RaiseFive(e: nat)
      requires 0 < e < MAX_BIGITS
      modifies this
      ensures Valid() && Number() == Pow(5, e) && exp == 0
    {
      var bitmask := TopBit(e);
      ReachedTop(e, bitmask);
      Assign(5);
      assert Weight(0) == 1 && Pow(5, 1) == 5;
      ghost var lowest: nat, x: nat := bitmask, 1;  // the lowest bit taken in and what e makes so far
      bitmask := bitmask / 2;
      while bitmask != 0
        invariant Valid() && exp == 0
        invariant Reached(e, lowest, x) && bitmask == lowest / 2
        invariant Val(bigits) == Pow(5, x)
        decreases bitmask
      {
        PowerSize(bigits, x);
        Square();
        PowAdd(5, x, x);
        ReachedStep(e, lowest, x);
        x := 2 * x;
        if (e / bitmask) % 2 != 0 {  // (e & bitmask) != 0
          Multiply(5);
          PowAdd(5, x, 1);
          x := x + 1;
        }
        lowest := bitmask;
        bitmask := bitmask / 2;
      }
    }

    /** The highest power of two that does not exceed e. */
    static method TopBit(e: nat) returns (bitmask: nat)
      requires 0 < e < 0x4000_0000
      ensures PowerOfTwo(bitmask) && bitmask <= e < 2 * bitmask
    {
      bitmask := 1;
      ghost var half: nat := 0;
      while e >= bitmask
        invariant PowerOfTwo(bitmask) && half <= e && half < bitmask < 0x8000_0000
        invariant half == 0 ==> bitmask == 1
        invariant half > 0 ==> bitmask == 2 * half && PowerOfTwo(half)
        decreases e - half
      {
        DoublePower(bitmask);
        half := bitmask;
        bitmask := bitmask * 2;
      }
      bitmask := bitmask / 2;
    }

    static method Compare(lhs: Bigint, rhs: Bigint) returns (c: int)
      requires lhs.Valid() && rhs.Valid()
      ensures c == Verdict(lhs.bigits, lhs.exp, rhs.bigits, rhs.exp)
    {
      hide Verdict, AgreeAbove, Value;
      var lhsPlaces, rhsPlaces := lhs.NumBigits(), rhs.NumBigits();
      if lhsPlaces != rhsPlaces {
        VerdictByPlaces(lhs.bigits, lhs.exp, rhs.bigits, rhs.exp);
        return if lhsPlaces > rhsPlaces then 1 else -1;
      }
      var i, j := |lhs.bigits| - 1, |rhs.bigits| - 1;
      var end := i - j;
      if end < 0 {
        end := 0;
      }
      AgreeAtTop(lhs.bigits, lhs.exp, rhs.bigits, rhs.exp, lhsPlaces);
      while i >= end
        invariant end - 1 <= i < |lhs.bigits| && -1 <= j < |rhs.bigits|
        invariant i + lhs.exp == j + rhs.exp
        invariant AgreeAbove(lhs.bigits, lhs.exp, rhs.bigits, rhs.exp, i + 1 + lhs.exp)
        decreases i
      {
        var lhsBigit, rhsBigit := lhs.bigits[i], rhs.bigits[j];
        AgreeStep(lhs.bigits, lhs.exp, rhs.bigits, rhs.exp, i, j);
        if lhsBigit != rhsBigit {
          return if lhsBigit > rhsBigit then 1 else -1;
        }
        i, j := i - 1, j - 1;
      }
      VerdictOfPrefix(lhs.bigits, lhs.exp, rhs.bigits, rhs.exp);
      if i != j {
        return if i > j then 1 else -1;
      }
      return 0;
    }

    /** Returns the order of lhs1 + lhs2 and rhs. */
    static method AddCompare(lhs1: Bigint, lhs2: Bigint, rhs: Bigint) returns (c: int)
      requires lhs1.Valid() && lhs2.Valid() && rhs.Valid()
      ensures c == SumVerdict(lhs1.bigits, lhs1.exp, lhs2.bigits, lhs2.exp, rhs.bigits, rhs.exp)
    {
      hide HighGap, Value;
      var maxLhs := if lhs1.NumBigits() < lhs2.NumBigits() then lhs2.NumBigits() else lhs1.NumBigits();
      var numRhs := rhs.NumBigits();
      if maxLhs + 1 < numRhs {
        SumTooSmall(lhs1.bigits, lhs1.exp, lhs2.bigits, lhs2.exp, rhs.bigits, rhs.exp);
        return -1;
      }
      if maxLhs > numRhs {
        SumTooLarge(lhs1.bigits, lhs1.exp, lhs2.bigits, lhs2.exp, rhs.bigits, rhs.exp);
        return 1;
      }
      var borrow := 0;
      var minExp := if lhs1.exp < lhs2.exp then lhs1.exp else lhs2.exp;
      minExp := if minExp < rhs.exp then minExp else rhs.exp;
      var i: int := numRhs - 1;
      GapAtTop(lhs1.bigits, lhs1.exp, lhs2.bigits, lhs2.exp, rhs.bigits, rhs.exp, numRhs);
      while i >= minExp
        invariant minExp - 1 <= i < numRhs
        invariant borrow in {0, BASE}
        invariant HighGap(lhs1.bigits, lhs1.exp, lhs2.bigits, lhs2.exp, rhs.bigits, rhs.exp, i + 1)
                  == if borrow == 0 then 0 else 1
        decreases i
      {
        GapStep(lhs1.bigits, lhs1.exp, lhs2.bigits, lhs2.exp, rhs.bigits, rhs.exp, i);
        GapOrder(lhs1.bigits, lhs1.exp, lhs2.bigits, lhs2.exp, rhs.bigits, rhs.exp, i);
        var sum: nat := Digit(lhs1.bigits, lhs1.exp, i) + Digit(lhs2.bigits, lhs2.exp, i);
        var rhsBigit: nat := Digit(rhs.bigits, rhs.exp, i);
        if sum > rhsBigit + borrow {
          return 1;
        }
        borrow := rhsBigit + borrow - sum;
        if borrow > 1 {
          return -1;
        }
        borrow := borrow * BASE;
        i := i - 1;
      }
      GapAtBottom(lhs1.bigits, lhs1.exp, lhs2.bigits, lhs2.exp, rhs.bigits, rhs.exp, i + 1);
      return if borrow != 0 then -1 else 0;
    }

    /** One bigit of a subtraction in wrapping 64-bit arithmetic. */
    method SubtractBigits(index: nat, other: Bigit, borrow: nat) returns (next: nat)
      requires index < |bigits| && borrow <= 1
      modifies this`bigits
      ensures next <= 1 && |bigits| == |old(bigits)|
      ensures bigits == old(bigits)[index := bigits[index]]
      ensures bigits[index] + other + borrow == old(bigits)[index] + next * BASE
    {
      var result: nat := (bigits[index] as int - other - borrow) % UINT64;
      bigits := bigits[index := result % BASE];
      next := (result / 0x8000_0000_0000_0000) % BASE;
    }

    /** Takes the last borrow off the bigit at i, again and again until none is left. */
    method HandBorrow(i: nat, first: nat)
      requires first <= 1 && (first == 1 ==> i < |bigits|)
      modifies this`bigits
      ensures bigits == Absorbed(old(bigits), i, first)
    {
      ghost var low := bigits;
      var borrow := first;
      while borrow > 0
        invariant 0 <= borrow <= 1 && |bigits| == |low|
        invariant borrow == 1 ==> first == 1
        invariant borrow == 1 ==> bigits == low || (low[i] == 0 && bigits == low[i := BASE - 1])
        invariant borrow == 0 ==> bigits == Absorbed(low, i, first)
        decreases if borrow == 0 then 0 else if bigits[i] == 0 then 2 else 1
      {
        borrow := SubtractBigits(i, 0, borrow);
      }
    }

    /** Takes other's bigits off those from place off on and returns the last borrow. */
    method SubtractLow(other: Bigint, off: nat) returns (borrow: nat)
      requires this != other && off + |other.bigits| <= |bigits|
      modifies this`bigits
      ensures borrow <= 1
      ensures Subtracted(bigits, old(bigits), off, other.bigits, |other.bigits|, borrow)
    {
      ghost var before := bigits;
      SubtractedStart(before, off, other.bigits);
      borrow := 0;
      var i: nat, j, n := off, 0, |other.bigits|;
      while j != n
        invariant 0 <= j <= n && i == off + j && borrow <= 1
        invariant Subtracted(bigits, before, off, other.bigits, j, borrow)
      {
        ghost var s := bigits;
        ghost var carried := borrow;
        borrow := SubtractBigits(i, other.bigits[j], borrow);
        SubtractedStep(s, before, off, other.bigits, j, carried, bigits[i], borrow);
        i, j := i + 1, j + 1;
      }
    }

    /** Subtracts other. The loop that hands the last borrow upwards stays at one
        bigit, so the result is right exactly when that bigit can absorb it. */
    method SubtractAligned(other: Bigint)
      requires this != other && Valid() && other.Valid() && other.exp >= exp
      requires Number() >= other.Number() > 0
      modifies this`bigits
      ensures Valid()
      ensures Number() == old(Number()) - other.Number()
              <==> BorrowFits(old(bigits), other.exp - exp, other.bigits)
      ensures |bigits| <= |old(bigits)|
    {
      hide Pow, Weight, Canonical;
      ghost var before, t := bigits, other.bigits;
      var i := other.exp - exp;
      DivisorReach(before, exp, t, other.exp);
      var borrow := SubtractLow(other, i);
      SubtractedEnd(bigits, before, i, t, borrow);
      AbsorbedValue(bigits, before, i, t, borrow);
      HandBorrow(i + |other.bigits|, borrow);
      DifferenceScaled(Val(bigits), Val(before), exp, Val(t), other.exp);
      RemoveLeadingZeros();
    }

    /** 2^64 - 1: the borrow finds a zero in the one place it looks at, and the result is wrong. */
    static method SubtractMistaken() returns (difference: Bigint)
      ensures difference.Number() != UINT64 - 1
    {
      hide Value, Val, Weight, Canonical, BorrowFits;
      difference := new Bigint();
      difference.Assign(UINT64);
      var other := new Bigint();
      other.Assign(1);
      NoBorrow(difference.bigits, other.bigits);
      difference.SubtractAligned(other);
    }

    /** Moves the bigits up by difference places. */
    method MoveUp(difference: nat)
      modifies this`bigits
      ensures |bigits| == |old(bigits)| + difference && bigits[difference..] == old(bigits)
    {
      ghost var before := bigits;
      var n := |bigits|;
      bigits := bigits + seq(difference, _ => 0);  // resize
      var i, j := n - 1, n - 1 + difference;
      while i >= 0
        invariant -1 <= i < n && j == i + difference
        invariant |bigits| == n + difference
        invariant bigits[..i + 1] == before[..i + 1]
        invariant forall k :: j < k < n + difference ==> bigits[k] == before[k - difference]
      {
        bigits := bigits[j := bigits[i]];
        i, j := i - 1, j - 1;
      }
      assert forall k :: 0 <= k < n ==> bigits[difference..][k] == bigits[difference + k] == before[k];
    }

    /** Lowers the exponent to other's by adding zero bigits at the bottom. */
    method Align(other: Bigint)
      requires Valid() && Number() > 0 && this != other
      modifies this
      ensures Valid() && Number() == old(Number())
      ensures exp == if old(exp) <= other.exp then old(exp) else other.exp
      ensures NumBigits() == old(NumBigits())
    {
      var difference := exp - other.exp;
      if difference <= 0 {
        return;
      }
      ghost var before := bigits;
      ValueZero(bigits, exp);
      ValZero(bigits);
      MoveUp(difference);
      var zeros: seq<Bigit> := seq(difference, _ => 0);
      bigits := zeros + bigits[difference..];
      ValZeros(zeros);
      ValAppend(zeros, before);
      exp := exp - difference;
      ShiftedValue(Val(before), difference, exp);
    }

    /** Divides by repeated subtraction, leaving the remainder here. A dividend equal
        to the divisor but with the larger exponent is not recognised as equal. */
    method DivmodAssign(divisor: Bigint) returns (quotient: nat)
      requires this != divisor && Valid() && divisor.Valid() && divisor.Number() > 0
      requires NumBigits() <= divisor.NumBigits() + 1
      requires Number() == 0 ==> NumBigits() <= divisor.NumBigits()
      modifies this
      ensures Valid()
      ensures Divided(old(Number()), quotient, divisor.Number(), Number())
      ensures Number() < divisor.Number() <==> !(old(Number()) == divisor.Number() && old(exp) > divisor.exp)
      ensures NumBigits() <= divisor.NumBigits() + 1
      ensures Number() == 0 ==> NumBigits() <= divisor.NumBigits()
      ensures exp == if quotient == 0 || old(exp) <= divisor.exp then old(exp) else divisor.exp
    {
      ghost var dividend, d := Number(), divisor.Number();
      var c := Compare(this, divisor);
      VerdictMeans(bigits, exp, divisor.bigits, divisor.exp);
      quotient := 0;
      if c < 0 {
        return;
      }
      Align(divisor);
      ghost var e := exp;
      while true
        invariant Valid() && exp == e && Number() >= d > 0
        invariant NumBigits() <= divisor.NumBigits() + 1
        invariant Divided(dividend, quotient, d, Number())
        decreases Number()
      {
        OneAbove(bigits, exp, divisor.bigits, divisor.exp);
        DividedStep(dividend, quotient, d, Number());
        SubtractAligned(divisor);
        quotient := quotient + 1;
        ValueZero(divisor.bigits, divisor.exp);
        SmallerFits(bigits, exp, divisor.bigits, divisor.exp);
        c := Compare(this, divisor);
        VerdictMeans(bigits, exp, divisor.bigits, divisor.exp);
        if c < 0 {
          return;
        }
      }
    }

    /** 2^32 shifted up from one, divided by 2^32 as assigned: quotient zero, and the
        remainder is the divisor. */
    static method DivideEqual() returns (quotient: nat, dividend: Bigint, divisor: Bigint)
      ensures quotient == 0 && dividend.Number() == divisor.Number() == BASE
    {
      hide Value, Val, Weight, Pow, Canonical, Divided;
      dividend := new Bigint();
      dividend.Assign(1);
      dividend.ShiftLeft(32);
      divisor := new Bigint();
      divisor.Assign(BASE);
      TwoTo32();
      EqualPlaces(dividend.bigits, dividend.exp, divisor.bigits, divisor.exp);
      quotient := dividend.DivmodAssign(divisor);
      NotEvenOnce(quotient, BASE, dividend.Number());
    }
  }
}
