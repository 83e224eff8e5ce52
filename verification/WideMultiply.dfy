/** 128-bit arithmetic out of 64-bit words. */
module WideMultiply {
  import opened MachineInts
  import opened Powers

  type Half = x: int | 0 <= x < UINT32

  /** What a 64-bit operation keeps of its result. */
  function Wrap(x: int): Word
  {
    x % UINT64
  }

  datatype Uint128 = Uint128(hi: Word, lo: Word)
  {
    function Value(): nat
    {
      hi * UINT64 + lo
    }

    /** The comparison operator. */
    predicate Greater(that: Uint128)
      ensures Greater(that) <==> Value() > that.Value()
    {
      if hi != that.hi then hi > that.hi else lo > that.lo
    }

    /** operator+= with a 64-bit word: the low word overflowed if it came out below n. */
    function AddWord(n: Word): (r: Uint128)
      ensures r.Value() == (Value() + n) % UINT128
    {
      var sum := Wrap(lo + n);
      var r := Uint128(Wrap(hi + if sum < n then 1 else 0), sum);
      CarriedSum(hi, lo, 0, n, r.hi, r.lo);
      r
    }

    /** operator+= with a 128-bit number; it asserts that the high word does not overflow. */
    function Add(n: Uint128): (r: Uint128)
      requires Value() + n.Value() < UINT128
      ensures r.Value() == Value() + n.Value()
      ensures r.hi >= hi
    {
      var sum := Wrap(lo + n.lo);
      var high := Wrap(hi + n.hi + if sum < lo then 1 else 0);
      ExactSum(hi, lo, n.hi, n.lo, high, sum);
      Uint128(high, sum)
    }

    /** operator- with a 64-bit word. */
    function Minus(n: Word): (r: Uint128)
      ensures r.Value() == (Value() - n) % UINT128
    {
      var r := Uint128(Wrap(hi - if lo < n then 1 else 0), Wrap(lo - n));
      BorrowedDifference(hi, lo, n, r.hi, r.lo);
      r
    }

    /** operator* with a 32-bit factor, for numbers below 2^64. */
    function Times(n: Half): (r: Uint128)
      requires hi == 0
      ensures r.Value() == lo * n
    {
      SplitWord(lo);
      PartialProduct(lo / UINT32, n);
      PartialProduct(lo % UINT32, n);
      var high: Word := (lo / UINT32) * n;
      var low: Word := (lo % UINT32) * n;
      var newLow := Wrap(high * UINT32 + low);
      JoinPartials(lo / UINT32, lo % UINT32, n, high, low);
      Uint128(high / UINT32 + (if newLow < low then 1 else 0), newLow)
    }
  }

  /** Without a carry out of the high word nothing is lost. */
  lemma ExactSum(hi: Word, lo: Word, h: Word, n: Word, high: Word, low: Word)
    requires low == Wrap(lo + n) && high == Wrap(hi + h + if low < lo then 1 else 0)
    requires (hi * UINT64 + lo) + (h * UINT64 + n) < UINT128
    ensures high * UINT64 + low == (hi * UINT64 + lo) + (h * UINT64 + n) && high >= hi
  {
    var c := if low < lo then 1 else 0;
    assert low == lo + n - c * UINT64;
    assert hi + h + c < UINT64;
  }

  lemma CarriedSum(hi: Word, lo: Word, h: Word, n: Word, high: Word, low: Word)
    requires low == Wrap(lo + n) && high == Wrap(hi + h + if low < n then 1 else 0)
    ensures high * UINT64 + low == (hi * UINT64 + lo + h * UINT64 + n) % UINT128
  {
    var c := if low < n then 1 else 0;
    assert low == lo + n - c * UINT64;
    var d := (hi + h + c) / UINT64;
    assert high == hi + h + c - d * UINT64;
    assert hi * UINT64 + lo + h * UINT64 + n == high * UINT64 + low + d * UINT128;
  }

  lemma BorrowedDifference(hi: Word, lo: Word, n: Word, high: Word, low: Word)
    requires low == Wrap(lo - n) && high == Wrap(hi - if lo < n then 1 else 0)
    ensures high * UINT64 + low == (hi * UINT64 + lo - n) % UINT128
  {
    var b := if lo < n then 1 else 0;
    assert low == lo - n + b * UINT64;
    if hi < b {
      assert high == UINT64 - 1;
      assert (hi * UINT64 + lo - n) + UINT128 == high * UINT64 + low;
    } else {
      assert high == hi - b;
    }
  }

  lemma SplitWord(x: Word)
    ensures x == (x / UINT32) * UINT32 + x % UINT32 && 0 <= x / UINT32 < UINT32 && 0 <= x % UINT32 < UINT32
  {
  }

  /** The product of two halves leaves room for two more halves in a word. */
  lemma PartialProduct(a: Half, b: Half)
    ensures 0 <= a * b <= (UINT32 - 1) * (UINT32 - 1) == UINT64 - 2 * UINT32 + 1
  {
    ProductBound(a, b, UINT32 - 1);
  }

  lemma ProductBound(a: int, b: int, m: int)
    requires 0 <= a <= m && 0 <= b <= m
    ensures 0 <= a * b <= m * m
  {
    MulMonotone(0, a, b);
    MulMonotone(a, m, b);
    MulMonotone(b, m, m);
    assert m * b == b * m;
  }

  lemma JoinPartials(a: Half, b: Half, n: Half, high: Word, low: Word)
    requires high == a * n && low == b * n
    ensures var newLow := Wrap(high * UINT32 + low);
            var top := high / UINT32 + if newLow < low then 1 else 0;
            top < UINT64 && top * UINT64 + newLow == (a * UINT32 + b) * n
  {
    PartialProduct(a, n);
    assert (a * UINT32 + b) * n == high * UINT32 + low by { MulAssoc(a, n, UINT32); }
    CarryIntoHigh(high, low);
  }

  /** high * 2^32 + low with the carry found by comparing the wrapped sum. */
  lemma CarryIntoHigh(high: Word, low: Word)
    requires high <= UINT64 - 2 * UINT32 + 1
    ensures var newLow := Wrap(high * UINT32 + low);
            var top := high / UINT32 + if newLow < low then 1 else 0;
            top < UINT64 && top * UINT64 + newLow == high * UINT32 + low
  {
    var t := (high % UINT32) * UINT32 + low;
    assert high * UINT32 + low == (high / UINT32) * UINT64 + t;
    assert Wrap(high * UINT32 + low) == if t < UINT64 then t else t - UINT64;
  }

  // ---------- Products of two words ----------

  /** umul128 where there is neither a 128-bit integer type nor an intrinsic. */
  function Umul128(x: Word, y: Word): (r: Uint128)
    ensures r.Value() == x * y
  {
    var a: Half, b: Half, c: Half, d: Half := x / UINT32, x % UINT32, y / UINT32, y % UINT32;
    FourProducts(a, b, c, d);
    var ac: Word, bc: Word, ad: Word, bd: Word := a * c, b * c, a * d, b * d;
    var intermediate: Word := bd / UINT32 + ad % UINT32 + bc % UINT32;
    SplitWord(x);
    SplitWord(y);
    Assembled(ac, bc, ad, bd, intermediate);
    Uint128(ac + intermediate / UINT32 + ad / UINT32 + bc / UINT32, Wrap(intermediate * UINT32) + bd % UINT32)
  }

  lemma FourProducts(a: Half, b: Half, c: Half, d: Half)
    ensures (a * UINT32 + b) * (c * UINT32 + d) == (a * c) * UINT64 + (a * d + b * c) * UINT32 + b * d
    ensures 0 <= a * c <= UINT64 - 2 * UINT32 + 1 && 0 <= b * c <= UINT64 - 2 * UINT32 + 1
    ensures 0 <= a * d <= UINT64 - 2 * UINT32 + 1 && 0 <= b * d <= UINT64 - 2 * UINT32 + 1
  {
    PartialProduct(a, c);
    PartialProduct(b, c);
    PartialProduct(a, d);
    PartialProduct(b, d);
    Expand(a, b, c, d, UINT32);
  }

  lemma Expand(a: int, b: int, c: int, d: int, m: int)
    ensures (a * m + b) * (c * m + d) == (a * c) * (m * m) + (a * d + b * c) * m + b * d
  {
    calc {
      (a * m + b) * (c * m + d);
      (a * m) * (c * m) + (a * m) * d + b * (c * m) + b * d;
    ==  { MulAssoc(a, m, c * m); MulAssoc(m, c, m); MulAssoc(a, c, m * m); assert m * (c * m) == c * (m * m); }
      (a * c) * (m * m) + (a * m) * d + b * (c * m) + b * d;
    ==  { MulAssoc(a, d, m); MulAssoc(b, c, m); assert (a * m) * d == (a * d) * m; }
      (a * c) * (m * m) + (a * d) * m + (b * c) * m + b * d;
    }
  }

  lemma Assembled(ac: Word, bc: Word, ad: Word, bd: Word, mid: Word)
    requires mid == bd / UINT32 + ad % UINT32 + bc % UINT32
    requires ac <= UINT64 - 2 * UINT32 + 1 && bc <= UINT64 - 2 * UINT32 + 1 && ad <= UINT64 - 2 * UINT32 + 1
    ensures var high := ac + mid / UINT32 + ad / UINT32 + bc / UINT32;
            var low := Wrap(mid * UINT32) + bd % UINT32;
            && high < UINT64 && low < UINT64
            && high * UINT64 + low == ac * UINT64 + (ad + bc) * UINT32 + bd
  {
  }

  /** umul128_upper64. */
  function Upper64(x: Word, y: Word): (r: Word)
    ensures r == x * y / UINT64
  {
    var p := Umul128(x, y);
    assert x * y == p.hi * UINT64 + p.lo;
    p.hi
  }

  /** umul192_upper128. */
  function Umul192Upper128(x: Word, y: Uint128): (r: Uint128)
    ensures r.Value() == x * y.Value() / UINT64
  {
    UpperParts(x, y.hi, y.lo);
    Umul128(x, y.hi).AddWord(Upper64(x, y.lo))
  }

  lemma UpperParts(x: Word, hi: Word, lo: Word)
    ensures (x * hi + x * lo / UINT64) % UINT128 == x * (hi * UINT64 + lo) / UINT64
  {
    var h, l := x * hi, x * lo;
    WordProduct(x, hi);
    WordProduct(x, lo);
    assert x * (hi * UINT64 + lo) == h * UINT64 + l by { MulAssoc(x, hi, UINT64); }
    hide *;
    assert (h * UINT64 + l) / UINT64 == h + l / UINT64;
  }

  /** umul192_lower128: the product modulo 2^128. */
  function Umul192Lower128(x: Word, y: Uint128): (r: Uint128)
    ensures r.Value() == x * y.Value() % UINT128
  {
    var high := Wrap(x * y.hi);
    var p := Umul128(x, y.lo);
    LowerParts(x, y, p);
    Uint128(Wrap(high + p.hi), p.lo)
  }

  lemma LowerParts(x: Word, y: Uint128, p: Uint128)
    requires p.Value() == x * y.lo
    ensures Wrap(Wrap(x * y.hi) + p.hi) * UINT64 + p.lo == x * y.Value() % UINT128
  {
    var h := x * y.hi;
    assert x * y.Value() == h * UINT64 + p.hi * UINT64 + p.lo by { MulAssoc(x, y.hi, UINT64); }
    hide Uint128.Value;
    WrappedHigh(h, p.hi, p.lo);
  }

  lemma WrappedHigh(h: int, high: Word, low: Word)
    ensures Wrap(Wrap(h) + high) * UINT64 + low == (h * UINT64 + high * UINT64 + low) % UINT128
  {
    var s := h + high;
    assert Wrap(Wrap(h) + high) == s % UINT64;
    assert s == (s / UINT64) * UINT64 + s % UINT64;
    assert s * UINT64 + low == (s / UINT64) * UINT128 + (s % UINT64 * UINT64 + low);
  }

  // ---------- The rounded product ----------

  /** multiply with a 128-bit integer type: bit 63 of the product decides. */
  function MultiplyNative(x: Word, y: Word): (r: Word)
    ensures r == (x * y + UINT64 / 2) / UINT64
  {
    WordProduct(x, y);
    var product := x * y;
    var f := product / UINT64;
    if product % UINT64 >= UINT64 / 2 then f + 1 else f
  }

  lemma WordProduct(x: Word, y: Word)
    ensures 0 <= x * y <= (UINT64 - 1) * (UINT64 - 1) == UINT128 - 2 * UINT64 + 1
  {
    ProductBound(x, y, UINT64 - 1);
  }

  /** multiply from 32-bit parts, the rounding constant added to the middle word. */
  function Multiply(x: Word, y: Word): (r: Word)
    ensures r == (x * y + UINT64 / 2) / UINT64
  {
    var a: Half, b: Half, c: Half, d: Half := x / UINT32, x % UINT32, y / UINT32, y % UINT32;
    FourProducts(a, b, c, d);
    var ac: Word, bc: Word, ad: Word, bd: Word := a * c, b * c, a * d, b * d;
    var mid: Word := bd / UINT32 + ad % UINT32 + bc % UINT32 + UINT32 / 2;
    SplitWord(x);
    SplitWord(y);
    Rounded(ac, bc, ad, bd, mid);
    ac + ad / UINT32 + bc / UINT32 + mid / UINT32
  }

  lemma Rounded(ac: Word, bc: Word, ad: Word, bd: Word, mid: Word)
    requires mid == bd / UINT32 + ad % UINT32 + bc % UINT32 + UINT32 / 2
    requires ac <= UINT64 - 2 * UINT32 + 1 && bc <= UINT64 - 2 * UINT32 + 1 && ad <= UINT64 - 2 * UINT32 + 1
    ensures var r := ac + ad / UINT32 + bc / UINT32 + mid / UINT32;
            0 <= r < UINT64 && r == (ac * UINT64 + (ad + bc) * UINT32 + bd + UINT64 / 2) / UINT64
  {
    var r := ac + ad / UINT32 + bc / UINT32 + mid / UINT32;
    var low := (mid % UINT32) * UINT32 + bd % UINT32;
    assert ac * UINT64 + (ad + bc) * UINT32 + bd + UINT64 / 2 == r * UINT64 + low && 0 <= low < UINT64;
  }
}
