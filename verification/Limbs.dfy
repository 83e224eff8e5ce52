/** Little-endian sequences of 32-bit digits ("bigits") and the naturals they denote. */
module Limbs {
  import opened Powers

  const BASE: nat := 0x1_0000_0000

  type Bigit = x: int | 0 <= x < BASE

  /** Weight of the bigit at position k. */
  function Weight(k: nat): (w: nat)
    ensures w > 0
  {
    PowPositive(BASE, k);
    Pow(BASE, k)
  }

  function Val(s: seq<Bigit>): nat
  {
    if s == [] then 0 else s[0] + BASE * Val(s[1..])
  }

  lemma WeightAdd(j: nat, k: nat)
    ensures Weight(j + k) == Weight(j) * Weight(k)
  {
    PowAdd(BASE, j, k);
  }

  lemma WeightStep(k: nat)
    ensures Weight(k + 1) == BASE * Weight(k)
  {
  }

  lemma WeightMonotone(j: nat, k: nat)
    requires j <= k
    ensures Weight(j) <= Weight(k)
  {
    PowMonotone(BASE, j, k);
  }

  lemma {:induction false} ValAppend(a: seq<Bigit>, b: seq<Bigit>)
    ensures Val(a + b) == Val(a) + Weight(|a|) * Val(b)
  {
    if a == [] {
      assert a + b == b;
    } else {
      ValAppend(a[1..], b);
      assert (a + b)[1..] == a[1..] + b;
      WeightStep(|a| - 1);
      MulAssoc(BASE, Weight(|a| - 1), Val(b));
    }
  }

  lemma ValOne(d: Bigit)
    ensures Val([d]) == d
  {
    assert [d][1..] == [];
  }

  /** Taking one more bigit adds that bigit at its weight. */
  lemma ValTake(s: seq<Bigit>, i: nat)
    requires i < |s|
    ensures Val(s[..i + 1]) == Val(s[..i]) + Weight(i) * s[i]
  {
    assert s[..i + 1] == s[..i] + [s[i]];
    ValAppend(s[..i], [s[i]]);
    ValOne(s[i]);
  }

  lemma {:induction false} ValBound(s: seq<Bigit>)
    ensures Val(s) < Weight(|s|)
  {
    if s != [] {
      ValBound(s[1..]);
      WeightStep(|s| - 1);
      MulMonotone(Val(s[1..]) + 1, Weight(|s| - 1), BASE);
    }
  }

  /** A non-zero top bigit makes the number at least that bigit's weight. */
  lemma ValTop(s: seq<Bigit>)
    requires |s| > 0 && s[|s| - 1] != 0
    ensures Weight(|s| - 1) <= Val(s)
  {
    ValTake(s, |s| - 1);
    assert s[..|s|] == s;
    MulMonotone(1, s[|s| - 1], Weight(|s| - 1));
  }

  lemma {:induction false} ValZeros(s: seq<Bigit>)
    requires forall i :: 0 <= i < |s| ==> s[i] == 0
    ensures Val(s) == 0
  {
    if s != [] {
      ValZeros(s[1..]);
    }
  }

  lemma ValSplit(s: seq<Bigit>, i: nat)
    requires i <= |s|
    ensures Val(s) == Val(s[..i]) + Weight(i) * Val(s[i..])
  {
    assert s == s[..i] + s[i..];
    ValAppend(s[..i], s[i..]);
  }

  // ---------- Numbers with an exponent: bigits s, shifted up by e places ----------

  function Value(s: seq<Bigit>, e: nat): nat
  {
    Val(s) * Weight(e)
  }

  /** Number of places, counting the e zero places below s. */
  function Places(s: seq<Bigit>, e: nat): nat
  {
    |s| + e
  }

  /** The bigit at absolute place i, zero outside s. */
  function Digit(s: seq<Bigit>, e: nat, i: nat): Bigit
  {
    if e <= i < e + |s| then s[i - e] else 0
  }

  /** The number made of the places from i upwards. */
  ghost function High(s: seq<Bigit>, e: nat, i: nat): nat
  {
    if i <= e then Val(s) * Weight(e - i)
    else if i - e <= |s| then Val(s[i - e..])
    else 0
  }

  /** The number made of the places below i. */
  ghost function Low(s: seq<Bigit>, e: nat, i: nat): nat
  {
    if i <= e then 0
    else if i - e <= |s| then Val(s[..i - e]) * Weight(e)
    else Value(s, e)
  }

  lemma HighLow(s: seq<Bigit>, e: nat, i: nat)
    ensures Value(s, e) == High(s, e, i) * Weight(i) + Low(s, e, i)
    ensures Low(s, e, i) < Weight(i)
  {
    if i <= e {
      WeightAdd(e - i, i);
      MulAssoc(Val(s), Weight(e - i), Weight(i));
    } else if i - e <= |s| {
      HighLowWithin(s, e, i - e);
    } else {
      ValueBound(s, e);
      WeightMonotone(|s| + e, i);
    }
  }

  lemma HighLowWithin(s: seq<Bigit>, e: nat, k: nat)
    requires k <= |s|
    ensures Value(s, e) == Val(s[k..]) * Weight(e + k) + Val(s[..k]) * Weight(e)
    ensures Val(s[..k]) * Weight(e) < Weight(e + k)
  {
    ValSplit(s, k);
    ValBound(s[..k]);
    WeightAdd(k, e);
    MulStrict(Val(s[..k]), Weight(k), Weight(e));
    Regroup(Val(s[..k]), Weight(k), Val(s[k..]), Weight(e));
  }

  lemma Regroup(low: int, w: int, high: int, f: int)
    ensures (low + w * high) * f == high * (w * f) + low * f
  {
    MulAssoc(high, w, f);
  }

  lemma HighStep(s: seq<Bigit>, e: nat, i: nat)
    ensures High(s, e, i) == Digit(s, e, i) + BASE * High(s, e, i + 1)
  {
    if i < e {
      WeightStep(e - i - 1);
      MulAssoc(BASE, Weight(e - i - 1), Val(s));
    } else if i - e < |s| {
      assert s[i - e..][1..] == s[i + 1 - e..];
      if i == e {
        assert s[0..] == s;
        assert Weight(0) == 1;
      }
    } else {
      assert s[|s|..] == [];
      if i == e {
        assert Weight(0) == 1;
      }
    }
  }

  lemma HighAbove(s: seq<Bigit>, e: nat, i: nat)
    requires i >= Places(s, e)
    ensures High(s, e, i) == 0
  {
    if i == e {
      assert s == [];
    } else if i - e == |s| {
      assert s[|s|..] == [];
    }
  }

  /** A canonical number uses no needless top place. */
  predicate Canonical(s: seq<Bigit>)
  {
    |s| >= 1 && (|s| == 1 || s[|s| - 1] != 0)
  }

  lemma ValZero(s: seq<Bigit>)
    requires Canonical(s)
    ensures Val(s) == 0 <==> s == [0]
    ensures Val(s) == 0 <==> s[|s| - 1] == 0
  {
    if s[|s| - 1] != 0 {
      ValTop(s);
    } else {
      assert s == [0];
      ValOne(0);
    }
  }

  /** A canonical non-zero number lies between the weights around its top place. */
  lemma PlacesBracket(s: seq<Bigit>, e: nat)
    requires Canonical(s) && Val(s) > 0
    ensures Weight(Places(s, e) - 1) <= Value(s, e) < Weight(Places(s, e))
  {
    ValZero(s);
    ValTop(s);
    ValBound(s);
    WeightAdd(|s| - 1, e);
    WeightAdd(|s|, e);
    MulMonotone(Weight(|s| - 1), Val(s), Weight(e));
    MulStrict(Val(s), Weight(|s|), Weight(e));
  }

  lemma ValueBound(s: seq<Bigit>, e: nat)
    ensures Value(s, e) < Weight(Places(s, e))
  {
    ValBound(s);
    WeightAdd(|s|, e);
    MulStrict(Val(s), Weight(|s|), Weight(e));
  }

  /** Of two canonical non-zero numbers the smaller does not use more places. */
  lemma PlacesOrder(s: seq<Bigit>, e: nat, t: seq<Bigit>, f: nat)
    requires Canonical(s) && Canonical(t) && Val(t) > 0
    requires Places(s, e) < Places(t, f)
    ensures Value(s, e) < Value(t, f)
  {
    ValueBound(s, e);
    PlacesBracket(t, f);
    WeightMonotone(Places(s, e), Places(t, f) - 1);
  }

  /** Two numbers whose high parts differ are ordered by them. */
  lemma HighOrder(s: seq<Bigit>, e: nat, t: seq<Bigit>, f: nat, i: nat)
    requires High(s, e, i) < High(t, f, i)
    ensures Value(s, e) < Value(t, f)
  {
    HighLow(s, e, i);
    HighLow(t, f, i);
    HighDecides(High(s, e, i), Low(s, e, i), High(t, f, i), Low(t, f, i), Weight(i));
  }

  lemma HighDecides(x: int, xLow: int, y: int, yLow: int, w: int)
    requires x < y && 0 <= xLow < w && 0 <= yLow < w
    ensures x * w + xLow < y * w + yLow
  {
    MulMonotone(x + 1, y, w);
    assert (x + 1) * w == x * w + w;
  }

  /** Only a non-zero top bigit reaches that bigit's weight. */
  lemma TopFromSize(s: seq<Bigit>)
    requires |s| > 0 && Weight(|s| - 1) <= Val(s)
    ensures s[|s| - 1] != 0
  {
    ValTake(s, |s| - 1);
    ValBound(s[..|s| - 1]);
    assert s[..|s| - 1 + 1] == s;
  }
}
