/** Grisu digit generation with an error bound: it may give up, but never rounds wrongly. */
module Grisu {
  import opened MachineInts
  import opened Powers
  import opened RealPowers
  import opened Decimals

  const UINT60: nat := 0x1000_0000_0000_0000

  datatype RoundDirection = Unknown | Up | Down

  /** Whether v may be rounded to a multiple of divisor, v being known only up to error
      and remainder being v % divisor. The parts are arranged so that no 64-bit
      operation overflows. */
  function GetRoundDirection(divisor: nat, remainder: nat, error: nat): (r: RoundDirection)
    requires divisor < UINT64 && remainder < divisor && error < divisor && error < divisor - error
    ensures r == Down <==> 2 * (remainder + error) <= divisor
    ensures r == Up <==> remainder >= error && 2 * (remainder - error) >= divisor && r != Down
  {
    if remainder <= divisor - remainder && error * 2 <= divisor - remainder * 2 then
      assert error * 2 < UINT64 && remainder * 2 < UINT64;
      Down
    else if remainder >= error && remainder - error >= divisor - (remainder - error) then Up
    else Unknown
  }

  datatype Status = More | Done | Error

  /** n * p == v * u + r: v units with remainder r. The digits of w, v or v + 1, are
      right for every number within p of n * p. */
  predicate SettlesDigits(w: nat, v: nat, u: nat, r: nat, p: nat)
  {
    (w == v && 2 * (r + p) <= u) || (w == v + 1 && r >= p && 2 * (r - p) >= u)
  }

  /** buf with the exponent moved by shift denotes w, as a carry out of the first
      digit leaves it: the first digit has become 1, followed by zeros. */
  ghost predicate Denotes(buf: string, shift: int, w: nat, size: nat, fixed: bool)
  {
    && IsDecimal(buf)
    && if w < Pow(10, size) then |buf| == size && shift == 0 && Read(buf) == w
       else if fixed then |buf| == size + 1 && shift == 0 && Read(buf) == w
       else |buf| == size && shift == 1 && 10 * Read(buf) == w
  }

  lemma LastPlusOne(ds: seq<nat>)
    requires |ds| >= 1 && AllDigits(ds)
    ensures var t := ds[|ds| - 1 := ds[|ds| - 1] + 1];
            Dec(t) == Dec(ds) + 1 && Writable(t) && AllDigits(t[..|t| - 1])
  {
    DecUpdate(ds, |ds| - 1, ds[|ds| - 1] + 1);
    assert Pow(10, 0) == 1;
  }

  /** Rewriting a first digit past nine, with or without the further zero. */
  lemma FirstDigitCarried(ds: seq<nat>)
    requires |ds| >= 1 && ds[0] == 10 && forall k :: 0 < k < |ds| ==> ds[k] == 0
    ensures Dec(ds) == Pow(10, |ds|) == 10 * Dec(ds[0 := 1])
    ensures Dec(ds[0 := 1] + [0]) == Dec(ds)
  {
    LeadingTen(ds);
    DecSnoc(ds[0 := 1], 0);
    assert Pow(10, |ds|) == 10 * Pow(10, |ds| - 1);
  }

  class GenDigitsHandler {
    var buf: string
    var precision: int
    var exp10: int
    const fixed: bool

    constructor (precision: int, exp10: int, fixed: bool)
      ensures this.buf == "" && this.precision == precision && this.exp10 == exp10 && this.fixed == fixed
    {
      this.buf, this.precision, this.exp10, this.fixed := "", precision, exp10, fixed;
    }

    /** Adds one to the last digit and propagates the carry. */
    method Increment(ghost before: seq<nat>)
      requires |before| >= 1 && AllDigits(before) && Writable(before) && buf == Text(before)
      modifies this`buf, this`exp10
      ensures Denotes(buf, exp10 - old(exp10), Dec(before) + 1, |before|, fixed)
    {
      var size := |buf|;
      ghost var ds := before[size - 1 := before[size - 1] + 1];
      LastPlusOne(before);
      buf := buf[size - 1 := (buf[size - 1] as int + 1) as char];
      assert buf == Text(ds);
      buf, ds := PropagateCarry(buf, ds);
      if buf[0] > '9' {
        FirstDigitCarried(ds);
        buf := buf[0 := '1'];
        ds := ds[0 := 1];
        if fixed {
          buf := buf + "0";
          ds := ds + [0];
        } else {
          exp10 := exp10 + 1;
        }
      } else {
        DecBound(ds);
      }
      ReadText(ds);
      assert buf == Text(ds);
    }

    /** Stores a digit and, once there are enough, decides on the last one's rounding. */
    method OnDigit(digit: nat, divisor: nat, remainder: nat, error: nat, integral: bool, ghost before: seq<nat>)
      returns (status: Status)
      requires digit <= 9 && remainder < divisor < UINT64
      requires AllDigits(before) && Writable(before) && buf == Text(before)
      requires integral ==> error == 1 && divisor > 2
      modifies this`buf, this`exp10
      ensures var ds := before + [digit];
              && Writable(ds) && AllDigits(ds)
              && (status == Done ==>
                    |ds| >= precision
                    && RoundedWithin(ds, divisor, remainder, error, buf, exp10 - old(exp10), fixed))
              && (status != Done ==> buf == Text(ds) && exp10 == old(exp10))
              && (status == More <==> |ds| < precision && (integral || error < remainder))
              && (status == Done <==>
                    |ds| >= precision && (integral || (error < remainder && 2 * error < divisor))
                    && (2 * (remainder + error) <= divisor || 2 * (remainder - error) >= divisor))
    {
      ghost var ds := before + [digit];
      DecBound(ds);
      ReadText(ds);
      buf := buf + [Chr(digit)];
      assert buf == Text(ds);
      if !integral && error >= remainder {
        return Error;
      }
      if |buf| < precision {
        return More;
      }
      if !integral && (error >= divisor || error >= divisor - error) {
        return Error;
      }
      var dir := GetRoundDirection(divisor, remainder, error);
      if dir != Up {
        assert dir == Down ==> SettlesDigits(Dec(ds), Dec(ds), divisor, remainder, error);
        return if dir == Down then Done else Error;
      }
      assert SettlesDigits(Dec(ds) + 1, Dec(ds), divisor, remainder, error);
      Increment(ds);
      return Done;
    }
  }

  // ---------- The digit loops ----------

  /** One, in units of 2^-k. */
  function One(k: nat): (q: nat)
    ensures q > 0
  {
    PowPositive(2, k);
    Pow(2, k)
  }

  /** The unit of the last digit and the factor that makes it an integer. */
  function Unit(k: nat, exp: int): nat
  {
    if exp >= 0 then Pow(10, exp) * One(k) else One(k)
  }

  function Factor(exp: int): nat
  {
    if exp >= 0 then 1 else Pow(10, -exp)
  }

  /** w units of 10^exp * 2^k are within half a unit of every real within one of f. */
  ghost predicate Rounds(f: nat, k: nat, w: nat, exp: int)
  {
    var p, u := Factor(exp), Unit(k, exp);
    && 2 * (f * p - w * u) + 2 * p <= u
    && 2 * (w * u - f * p) + 2 * p <= u
  }

  lemma SettledRounds(f: nat, k: nat, w: nat, exp: int, v: nat, r: nat)
    requires f * Factor(exp) == v * Unit(k, exp) + r && r < Unit(k, exp)
    requires SettlesDigits(w, v, Unit(k, exp), r, Factor(exp))
    ensures Rounds(f, k, w, exp)
  {
    var u := Unit(k, exp);
    assert (v + 1) * u == v * u + u;
  }

  /** The result of a finished run: size digits, before any carry, that round f. */
  ghost predicate Finished(f: nat, k: nat, exp: int, buf: string, shift: int, size: nat, fixed: bool)
  {
    exists w :: Rounds(f, k, w, exp) && Denotes(buf, shift, w, size, fixed)
  }

  /** ds are the leading digits of f / 2^k and integral what is left above the point. */
  ghost predicate IntegralState(f: nat, k: nat, ds: seq<nat>, exp: nat, integral: nat, fractional: nat)
  {
    && AllDigits(ds) && fractional < One(k) && integral < Pow(10, exp)
    && f == (Dec(ds) * Pow(10, exp) + integral) * One(k) + fractional
  }

  /** The same below the point: fractional is what is left of f * 10^t. */
  ghost predicate FractionalState(f: nat, k: nat, ds: seq<nat>, t: nat, fractional: nat)
  {
    AllDigits(ds) && fractional < One(k) && f * Pow(10, t) == Dec(ds) * One(k) + fractional
  }

  /** The switch over the number of digits left divides by 10^(exp-1). */
  lemma IntegralStep(f: nat, k: nat, ds: seq<nat>, exp: nat, integral: nat, fractional: nat)
    requires exp >= 1 && IntegralState(f, k, ds, exp, integral, fractional)
    ensures Pow(10, exp - 1) > 0
    ensures var digit, rest := integral / Pow(10, exp - 1), integral % Pow(10, exp - 1);
            var unit, remainder := Pow(10, exp - 1) * One(k), rest * One(k) + fractional;
            && 0 <= digit <= 9 && 0 <= rest && 0 <= remainder < unit
            && IntegralState(f, k, ds + [digit], exp - 1, rest, fractional)
            && f == Dec(ds + [digit]) * unit + remainder
  {
    PowPositive(10, exp - 1);
    var p, q, v := Pow(10, exp - 1), One(k), Dec(ds);
    var digit, rest := integral / p, integral % p;
    assert Pow(10, exp) == 10 * p;
    assert f == (v * (10 * p) + integral) * q + fractional && fractional < q && integral < 10 * p;
    QuotientRemainder(integral, p);
    DecSnoc(ds, digit);
    assert digit <= 9 by {
      hide *;
      if digit >= 10 {
        MulMonotone(10, digit, p);
      }
    }
    assert AllDigits(ds + [digit]);
    hide Pow, Dec, One, AllDigits;
    IntegralArithmetic(v, p, q, digit, rest);
    MulMonotone(rest + 1, p, q);
  }

  lemma IntegralArithmetic(v: int, p: int, q: int, digit: int, rest: int)
    ensures v * (10 * p) + (digit * p + rest) == (10 * v + digit) * p + rest
    ensures ((10 * v + digit) * p + rest) * q == (10 * v + digit) * (p * q) + rest * q
    ensures (rest + 1) * q == rest * q + q
  {
    MulAssoc(v, 10, p);
    MulAssoc(10 * v + digit, p, q);
  }

  lemma FractionalStep(f: nat, k: nat, ds: seq<nat>, t: nat, fractional: nat)
    requires FractionalState(f, k, ds, t, fractional)
    ensures var digit, rest := 10 * fractional / One(k), 10 * fractional % One(k);
            && 0 <= digit <= 9 && 0 <= rest < One(k) && fractional < One(k)
            && FractionalState(f, k, ds + [digit], t + 1, rest)
            && Pow(10, t + 1) == 10 * Pow(10, t)
  {
    var q, v, x := One(k), Dec(ds), Pow(10, t);
    var digit, rest := 10 * fractional / q, 10 * fractional % q;
    assert f * x == v * q + fractional;
    QuotientRemainder(10 * fractional, q);
    if digit >= 10 {
      MulMonotone(10, digit, q);
    }
    DecSnoc(ds, digit);
    hide Pow, Dec;
    FractionalArithmetic(f, x, v, q, fractional, digit, rest);
  }

  lemma QuotientRemainder(n: nat, q: nat)
    requires q > 0
    ensures n == (n / q) * q + n % q && 0 <= n % q < q && n / q >= 0
  {
  }

  lemma FractionalArithmetic(f: int, x: int, v: int, q: int, fractional: int, digit: int, rest: int)
    requires f * x == v * q + fractional && 10 * fractional == digit * q + rest
    ensures f * (10 * x) == (10 * v + digit) * q + rest
  {
    assert f * (10 * x) == 10 * (f * x);
    assert (10 * v + digit) * q == 10 * (v * q) + digit * q;
  }

  /** The scaled values the digits are generated for: a product of two 64-bit numbers with
      their top bits set, brought to a binary exponent from -60 to -32. */
  predicate Scalable(f: nat, k: nat)
  {
    32 <= k <= 60 && One(k) <= f < UINT64
  }

  lemma ShiftLimits(k: nat)
    requires 32 <= k <= 60
    ensures 0x1_0000_0000 <= One(k) <= 0x1000_0000_0000_0000
  {
    assert Pow(2, 8) == 256;
    PowAdd(2, 8, 8);
    PowAdd(2, 16, 16);
    assert Pow(2, 12) == 4096;
    PowAdd(2, 16, 12);
    PowAdd(2, 32, 28);
    PowMonotone(2, 32, k);
    PowMonotone(2, k, 60);
  }

  /** The integral part has at most ten digits, and at its first digit and every later
      one the unit shifted to the binary point stays below the 64-bit limit. */
  lemma DivisorFits(f: nat, k: nat, exp: nat)
    requires Scalable(f, k) && exp < NumDigits(f / One(k))
    ensures 0x1_0000_0000 <= Pow(10, exp) * One(k) < UINT64 && exp < 10
  {
    ShiftLimits(k);
    var q := One(k);
    var i := f / q;
    assert f == i * q + f % q;
    var count := NumDigits(i);
    NumDigitsBracket(i);
    PowMonotone(10, exp, count - 1);
    PowPositive(10, exp);
    assert Pow(10, 5) == 100000;
    PowAdd(10, 5, 5);
    if exp >= 10 {
      PowMonotone(10, 10, count - 1);
    }
    hide *;
    QuotientPositive(f, q);
    FitsArithmetic(f, i, q, Pow(10, exp));
  }

  lemma QuotientPositive(f: int, q: int)
    requires 0 < q <= f
    ensures f / q > 0
  {
    assert f == (f / q) * q + f % q;
  }

  lemma FitsArithmetic(f: int, i: int, q: int, p: int)
    requires i * q <= f < UINT64 && 0x1_0000_0000 <= q && 1 <= p <= i
    ensures 0x1_0000_0000 <= p * q < UINT64 && i < 10_000_000_000
  {
    MulMonotone(p, i, q);
    MulMonotone(1, p, q);
    if i >= 10_000_000_000 {
      MulMonotone(10_000_000_000, i, q);
    }
  }

  method IntegralDigits(f: nat, k: nat, count: nat, fractional: nat, handler: GenDigitsHandler)
    returns (status: Status, exp: nat, ghost ds: seq<nat>)
    requires Scalable(f, k) && count == NumDigits(f / One(k)) && fractional == f % One(k)
    requires handler.buf == ""
    modifies handler`buf, handler`exp10
    ensures exp + |ds| == count && AllDigits(ds) && Writable(ds)
    ensures status == Done ==>
              |ds| == Size(handler.precision)
              && Finished(f, k, exp, handler.buf, handler.exp10 - old(handler.exp10), |ds|, handler.fixed)
    ensures status != Done ==> handler.buf == Text(ds) && handler.exp10 == old(handler.exp10)
    ensures status == Error ==> |ds| == Size(handler.precision) && Unsettled(f, k, exp)
    ensures status == More ==>
              exp == 0 && |ds| < handler.precision && FractionalState(f, k, ds, 0, fractional)
  {
    var integral: nat := f / One(k);
    exp, ds, status := count, [], More;
    IntegralStart(f, k);
    hide IntegralState, FractionalState, SettlesDigits, Denotes, RoundedWithin, Finished, Writable, AllDigits, Text, Dec, Scalable;
    while exp > 0
      invariant exp + |ds| == count && Writable(ds) && AllDigits(ds) && handler.buf == Text(ds)
      invariant handler.exp10 == old(handler.exp10) && status == More
      invariant IntegralState(f, k, ds, exp, integral, fractional)
      invariant ds == [] || |ds| < handler.precision
    {
      IntegralStep(f, k, ds, exp, integral, fractional);
      DivisorFits(f, k, exp - 1);
      var digit := integral / Pow(10, exp - 1);
      integral := integral % Pow(10, exp - 1);
      exp := exp - 1;
      var remainder := integral * One(k) + fractional;
      status := handler.OnDigit(digit, Pow(10, exp) * One(k), remainder, 1, true, ds);
      ds := ds + [digit];
      if status != More {
        if status == Done {
          IntegralDone(f, k, ds, exp, remainder, handler.buf, handler.exp10 - old(handler.exp10), handler.fixed);
        } else {
          IntegralStuck(f, k, ds, exp, remainder);
        }
        return;
      }
    }
    IntegralEnd(f, k, ds, integral, fractional);
  }

  lemma IntegralStart(f: nat, k: nat)
    ensures IntegralState(f, k, [], NumDigits(f / One(k)), f / One(k), f % One(k))
    ensures AllDigits([]) && Writable([]) && Text([]) == ""
  {
    hide Pow, One, NumDigits;
    NumDigitsBracket(f / One(k));
    QuotientRemainder(f, One(k));
    assert Dec([]) == 0;
  }

  lemma IntegralEnd(f: nat, k: nat, ds: seq<nat>, integral: nat, fractional: nat)
    requires IntegralState(f, k, ds, 0, integral, fractional)
    ensures FractionalState(f, k, ds, 0, fractional)
  {
    assert Pow(10, 0) == 1;
  }

  function Size(precision: int): nat
  {
    if precision <= 1 then 1 else precision
  }

  ghost predicate RoundedWithin(ds: seq<nat>, u: nat, r: nat, p: nat, buf: string, shift: int, fixed: bool)
  {
    exists w :: SettlesDigits(w, Dec(ds), u, r, p) && Denotes(buf, shift, w, |ds|, fixed)
  }

  lemma IntegralDone(f: nat, k: nat, ds: seq<nat>, exp: nat, r: nat, buf: string, shift: int, fixed: bool)
    requires f == Dec(ds) * (Pow(10, exp) * One(k)) + r && r < Pow(10, exp) * One(k)
    requires RoundedWithin(ds, Pow(10, exp) * One(k), r, 1, buf, shift, fixed)
    ensures Finished(f, k, exp, buf, shift, |ds|, fixed)
  {
    var w :| SettlesDigits(w, Dec(ds), Pow(10, exp) * One(k), r, 1) && Denotes(buf, shift, w, |ds|, fixed);
    SettledRounds(f, k, w, exp, Dec(ds), r);
  }

  lemma IntegralStuck(f: nat, k: nat, ds: seq<nat>, exp: nat, r: nat)
    requires f == Dec(ds) * (Pow(10, exp) * One(k)) + r && r < Pow(10, exp) * One(k)
    requires 2 * (r + 1) > Pow(10, exp) * One(k) && 2 * (r - 1) < Pow(10, exp) * One(k)
    ensures Unsettled(f, k, exp)
  {
    hide Dec, Pow, One;
    NoneSettled(f, k, exp, Dec(ds), r);
  }

  lemma FractionalStuck(f: nat, k: nat, ds: seq<nat>, t: nat, r: nat, size: nat)
    requires t >= 1 && FractionalState(f, k, ds, t, r) && Writable(ds)
    requires r <= Pow(10, t)
             || (|ds| == size && (2 * Pow(10, t) >= One(k)
                                  || (2 * (r + Pow(10, t)) > One(k) && 2 * (r - Pow(10, t)) < One(k))))
    ensures IsDecimal(Text(ds)) && Stuck(f, k, 0 - t, Text(ds), size)
  {
    ReadText(ds);
    hide Dec, Pow, One, Read, Text;
    if r > Pow(10, t) {
      NoneSettled(f, k, 0 - t, Dec(ds), r);
    }
  }

  lemma FractionalDone(f: nat, k: nat, ds: seq<nat>, t: nat, r: nat, buf: string, shift: int, fixed: bool)
    requires t >= 1 && FractionalState(f, k, ds, t, r)
    requires RoundedWithin(ds, One(k), r, Pow(10, t), buf, shift, fixed)
    ensures Finished(f, k, 0 - t, buf, shift, |ds|, fixed)
  {
    var w :| SettlesDigits(w, Dec(ds), One(k), r, Pow(10, t)) && Denotes(buf, shift, w, |ds|, fixed);
    SettledRounds(f, k, w, 0 - t, Dec(ds), r);
  }

  method FractionalDigits(f: nat, k: nat, count: nat, begun: nat, handler: GenDigitsHandler, ghost whole: seq<nat>)
    returns (status: Status, exp: int, ghost ds: seq<nat>)
    requires Scalable(f, k) && FractionalState(f, k, whole, 0, begun)
    requires |whole| == count && Writable(whole) && handler.buf == Text(whole) && |whole| < handler.precision
    modifies handler`buf, handler`exp10
    ensures status != More && exp + |ds| == count && AllDigits(ds) && Writable(ds)
    ensures status == Done ==>
              |ds| == Size(handler.precision)
              && Finished(f, k, exp, handler.buf, handler.exp10 - old(handler.exp10), |ds|, handler.fixed)
    ensures status == Error ==>
              && handler.buf == Text(ds) && handler.exp10 == old(handler.exp10) && IsDecimal(handler.buf)
              && Stuck(f, k, exp, handler.buf, Size(handler.precision))
  {
    var fractional: nat, error: nat, t: nat := begun, 1, 0;
    exp, ds, status := 0, whole, More;
    ShiftLimits(k);
    assert Pow(10, 0) == 1;
    hide FractionalState, SettlesDigits, Denotes, RoundedWithin, Finished, Writable, AllDigits, Text, Pow, One, Dec;
    while status == More
      invariant exp == 0 - t && exp + |ds| == count && Writable(ds) && AllDigits(ds)
      invariant status == More ==>
          handler.buf == Text(ds) && handler.exp10 == old(handler.exp10) && |ds| < handler.precision
          && FractionalState(f, k, ds, t, fractional) && error == Pow(10, t) && error < UINT60
      invariant status == Done ==>
          |ds| == Size(handler.precision)
          && Finished(f, k, exp, handler.buf, handler.exp10 - old(handler.exp10), |ds|, handler.fixed)
      invariant status == Error ==>
          && handler.buf == Text(ds) && handler.exp10 == old(handler.exp10) && IsDecimal(handler.buf)
          && Stuck(f, k, exp, handler.buf, Size(handler.precision))
      decreases handler.precision - |ds|, status == More
    {
      FractionalStep(f, k, ds, t, fractional);
      assert fractional * 10 < UINT64 && error * 10 < UINT64;
      fractional := fractional * 10;
      error := error * 10;
      var digit := fractional / One(k);
      fractional := fractional % One(k);
      exp := exp - 1;
      t := t + 1;
      status := handler.OnDigit(digit, One(k), fractional, error, false, ds);
      ds := ds + [digit];
      if status == Done {
        FractionalDone(f, k, ds, t, fractional, handler.buf, handler.exp10 - old(handler.exp10), handler.fixed);
      } else if status == Error {
        FractionalStuck(f, k, ds, t, fractional, Size(handler.precision));
      }
    }
  }

  /** Why a run gives up: below the point what is left is not above the error, or there are
      all the digits and no number of units is within half a unit of every real within the
      error. */
  ghost predicate Stuck(f: nat, k: nat, exp: int, buf: string, size: nat)
    requires IsDecimal(buf)
  {
    || (exp < 0 && f * Factor(exp) - Read(buf) * Unit(k, exp) <= Factor(exp))
    || (|buf| == size && Unsettled(f, k, exp))
  }

  ghost predicate Unsettled(f: nat, k: nat, exp: int)
  {
    forall w: nat :: !Rounds(f, k, w, exp)
  }

  /** The same for the one digit above the number, in tenths. */
  predicate SingleStuck(f: nat, k: nat, count: nat)
  {
    count >= 1 &&
    var d := Pow(10, count - 1) * One(k);
    2 * (f / 10 + 10) > d && 2 * (f / 10 - 10) < d
  }

  lemma NoneSettled(f: nat, k: nat, exp: int, v: nat, r: nat)
    requires f * Factor(exp) == v * Unit(k, exp) + r && r < Unit(k, exp)
    requires 2 * (r + Factor(exp)) > Unit(k, exp) && 2 * (r - Factor(exp)) < Unit(k, exp)
    ensures Unsettled(f, k, exp)
  {
    var u, p := Unit(k, exp), Factor(exp);
    forall w: nat ensures !Rounds(f, k, w, exp) {
      hide Unit, Factor;
      assert (v + 1) * u == v * u + u;
      if w <= v {
        MulMonotone(w, v, u);
      } else {
        MulMonotone(v + 1, w, u);
      }
    }
  }

  datatype Generated = Generated(status: Status, exp: int) | NumberTooBig

  /** What a run that ends with the given status leaves behind: the handler's digits and,
      relative to the start, its exponent. */
  ghost predicate Leaves(f: nat, k: nat, count: nat, status: Status, exp: int, buf: string, shift: int, precision: int,
                         fixed: bool)
  {
    match status
    case More => false
    case Error =>
      && exp + |buf| == count && IsDecimal(buf) && shift == 0 && (fixed ==> precision >= 0)
      && if fixed && precision == 0 then SingleStuck(f, k, count) else Stuck(f, k, exp, buf, Size(precision))
    case Done =>
      if fixed && precision < 0 then
        buf == "" && shift == 0 && exp == count && Rounds(f, k, 0, count - precision)
      else
        && Finished(f, k, exp, buf, shift, Size(precision), fixed)
        && exp == count - (if fixed && precision == 0 then 0 else Size(precision))
  }

  /** grisu_gen_digits, always called with error one: the digits of f / 2^k as far as they
      are certain. A fixed precision is first made relative to the leading digit. */
  method GrisuGenDigits(f: nat, k: nat, handler: GenDigitsHandler) returns (result: Generated)
    requires Scalable(f, k) && handler.buf == ""
    modifies handler
    ensures var asked := if handler.fixed then
                           AdjustPrecision(old(handler.precision), NumDigits(f / One(k)) + old(handler.exp10))
                         else
                           Some(old(handler.precision));
            match asked
            case None => result == NumberTooBig
            case Some(n) =>
              && handler.precision == n && result.Generated?
              && Leaves(f, k, NumDigits(f / One(k)), result.status, result.exp, handler.buf,
                        handler.exp10 - old(handler.exp10), n, handler.fixed)
  {
    var count := NumDigits(f / One(k));
    var status, exp := Error, count;
    hide Leaves;
    if handler.fixed {
      var adjusted := AdjustPrecision(handler.precision, count + handler.exp10);
      if adjusted.None? {
        return NumberTooBig;
      }
      handler.precision := adjusted.value;
      if handler.precision <= 0 {
        status := NoDigits(f, k, count, handler);
        return Generated(status, count);
      }
    }
    status, exp := DigitLoops(f, k, count, handler);
    return Generated(status, exp);
  }

  /** A fixed precision that ends at or before the first digit. */
  method NoDigits(f: nat, k: nat, count: nat, handler: GenDigitsHandler) returns (status: Status)
    requires Scalable(f, k) && count == NumDigits(f / One(k)) && handler.buf == ""
    requires handler.fixed && handler.precision <= 0
    modifies handler`buf
    ensures Leaves(f, k, count, status, count, handler.buf, 0, handler.precision, handler.fixed)
  {
    if handler.precision < 0 {
      LeavesNone(f, k, count, handler.precision, handler.fixed);
      return Done;
    }
    DivisorFits(f, k, count - 1);
    LeadingZeros(f, k);
    hide *;
    var dir := GetRoundDirection(Pow(10, count - 1) * One(k), f / 10, 10);
    if dir == Unknown {
      LeavesStuck(f, k, count, handler.fixed);
      return Error;
    }
    handler.buf := [if dir == Up then '1' else '0'];
    LeavesSingle(f, k, count, if dir == Up then 1 else 0, handler.fixed);
    return Done;
  }

  lemma LeavesNone(f: nat, k: nat, count: nat, precision: int, fixed: bool)
    requires count == NumDigits(f / One(k)) && fixed && precision < 0 && 32 <= k <= 60
    ensures Leaves(f, k, count, Done, count, "", 0, precision, fixed)
  {
    RoundsToNothing(f, k, -precision);
  }

  lemma LeavesStuck(f: nat, k: nat, count: nat, fixed: bool)
    requires count == NumDigits(f / One(k)) && count >= 1
    requires var d := Pow(10, count - 1) * One(k); 2 * (f / 10 + 10) > d && 2 * (f / 10 - 10) < d
    ensures fixed ==> Leaves(f, k, count, Error, count, "", 0, 0, fixed)
  {
    hide Pow, One, NumDigits, Read;
  }

  lemma LeavesSingle(f: nat, k: nat, count: nat, w: nat, fixed: bool)
    requires count == NumDigits(f / One(k)) && fixed && w <= 1
    requires var d := Pow(10, count - 1) * One(k);
             if w == 0 then 2 * (f / 10 + 10) <= d else 2 * (f / 10 - 10) >= d
    ensures Leaves(f, k, count, Done, count, [if w == 1 then '1' else '0'], 0, 0, fixed)
  {
    SingleDigit(f, k, w, fixed);
    assert [if w == 1 then '1' else '0'] == if w == 1 then "1" else "0";
    hide Finished, One, NumDigits, Pow;
  }

  method DigitLoops(f: nat, k: nat, count: nat, handler: GenDigitsHandler) returns (status: Status, exp: int)
    requires Scalable(f, k) && count == NumDigits(f / One(k)) && handler.buf == ""
    requires handler.fixed ==> handler.precision > 0
    modifies handler`buf, handler`exp10
    ensures Leaves(f, k, count, status, exp, handler.buf, handler.exp10 - old(handler.exp10),
                   handler.precision, handler.fixed)
  {
    hide Finished, Rounds, FractionalState, One, Pow, Dec, NumDigits, Scalable;
    ghost var ds;
    status, exp, ds := IntegralDigits(f, k, count, f % One(k), handler);
    if status == More {
      status, exp, ds := FractionalDigits(f, k, count, f % One(k), handler, ds);
    }
    ReadText(ds);
  }

  /** f / 2^k has no more digits than counted, so it is below 10^count. */
  lemma BelowUnit(f: nat, k: nat)
    ensures f < Unit(k, NumDigits(f / One(k)))
  {
    var i, q, p := f / One(k), One(k), Pow(10, NumDigits(f / One(k)));
    NumDigitsBracket(i);
    QuotientRemainder(f, q);
    MulMonotone(i + 1, p, q);
    assert (i + 1) * q == i * q + q;
  }

  lemma LeadingZeros(f: nat, k: nat)
    ensures f / 10 < Pow(10, NumDigits(f / One(k)) - 1) * One(k)
  {
    BelowUnit(f, k);
    MulAssoc(10, Pow(10, NumDigits(f / One(k)) - 1), One(k));
  }

  lemma SingleDigit(f: nat, k: nat, w: nat, fixed: bool)
    requires w <= 1 && var d := Pow(10, NumDigits(f / One(k)) - 1) * One(k);
                       if w == 0 then 2 * (f / 10 + 10) <= d else 2 * (f / 10 - 10) >= d
    ensures Finished(f, k, NumDigits(f / One(k)), if w == 1 then "1" else "0", 0, 1, fixed)
  {
    var count := NumDigits(f / One(k));
    DenotesSingle(w, fixed);
    BelowUnit(f, k);
    MulAssoc(10, Pow(10, count - 1), One(k));
    hide Pow, One, NumDigits, Denotes;
    SingleUnit(f, Pow(10, count - 1) * One(k), Unit(k, count), w);
    assert Rounds(f, k, w, count);
  }

  lemma DenotesSingle(w: nat, fixed: bool)
    requires w <= 1
    ensures Denotes(if w == 1 then "1" else "0", 0, w, 1, fixed)
  {
    var buf := if w == 1 then "1" else "0";
    assert [] + [w] == [w] && DigitsOf(buf) == [w];
    DecSnoc([], w);
    assert Pow(10, 0) == 1 && Pow(10, 1) == 10;
  }

  lemma SingleUnit(f: nat, d: nat, u: nat, w: nat)
    requires u == 10 * d && f < u && w <= 1
    requires if w == 0 then 2 * (f / 10 + 10) <= d else 2 * (f / 10 - 10) >= d
    ensures 2 * (f * 1 - w * u) + 2 * 1 <= u && 2 * (w * u - f * 1) + 2 * 1 <= u
  {
    assert w * u == if w == 0 then 0 else u;
  }

  /** With the wanted places all left of the leading digit, zero is the rounded value. */
  lemma RoundsToNothing(f: nat, k: nat, more: nat)
    requires more >= 1 && 32 <= k <= 60
    ensures Rounds(f, k, 0, NumDigits(f / One(k)) + more)
  {
    var count := NumDigits(f / One(k));
    UnitsOf(k, count, count + more);
    assert Factor(count + more) == 1;
    assert Pow(10, count + 1) == 10 * Pow(10, count);
    hide Pow, One, NumDigits, Unit, Factor;
    BelowUnit(f, k);
    ShiftLimits(k);
    PowMonotone(10, count + 1, count + more);
    PowPositive(10, count);
    TenfoldUnit(Pow(10, count), Pow(10, count + more), One(k));
  }

  lemma UnitsOf(k: nat, a: nat, b: nat)
    ensures Unit(k, a) == Pow(10, a) * One(k) && Unit(k, b) == Pow(10, b) * One(k)
  {
    hide Pow, One;
  }

  lemma TenfoldUnit(a: int, b: int, q: int)
    requires a >= 1 && b >= 10 * a && q >= 0
    ensures b * q >= 10 * (a * q) && a * q >= q
  {
    MulMonotone(10 * a, b, q);
    MulAssoc(10, a, q);
    MulMonotone(1, a, q);
  }

  // ---------- What the digits mean ----------

  /** f / 2^k is v scaled by 10^c, up to the error of one in the last place of f. */
  ghost predicate Approximates(f: nat, k: nat, c: int, v: real)
  {
    WithinOne(v, RPow(10, c), One(k) as real, f as real)
  }

  ghost predicate WithinOne(v: real, s: real, q: real, f: real)
  {
    -1.0 < v * s * q - f < 1.0
  }

  ghost predicate BelowHalf(v: real, w: real, unit: real)
  {
    2.0 * (v - w) < unit && 2.0 * (w - v) < unit
  }

  ghost predicate RoundsReal(f: real, w: real, p: real, u: real)
  {
    2.0 * (f * p - w * u) + 2.0 * p <= u && 2.0 * (w * u - f * p) + 2.0 * p <= u
  }

  ghost predicate Product3(u: real, e: real, p: real, q: real)
  {
    u == e * p * q && p > 0.0 && q > 0.0
  }

  /** The rounding is the same for every number within the error. */
  lemma RoundsMeans(f: nat, k: nat, w: nat, exp: int, c: int, v: real)
    requires Rounds(f, k, w, exp) && Approximates(f, k, c, v)
    ensures BelowHalf(v, Decimal(w, exp - c), RPow(10, exp - c))
  {
    hide BelowHalf, RPow, Pow, One, Factor, Unit, Rounds, WithinOne, RoundsReal, Product2, Product3;
    UnitReal(k, exp);
    RoundsInReals(f, k, w, exp);
    SplitPower(exp, c);
    Halves(v, RPow(10, c), f as real, w as real, RPow(10, exp - c), Factor(exp) as real, One(k) as real,
           RPow(10, exp), Unit(k, exp) as real, Decimal(w, exp - c));
  }

  lemma RoundsInReals(f: nat, k: nat, w: nat, exp: int)
    requires Rounds(f, k, w, exp)
    ensures RoundsReal(f as real, w as real, Factor(exp) as real, Unit(k, exp) as real)
  {
    var p, u := Factor(exp), Unit(k, exp);
    var a, b := f * p, w * u;
    assert 2 * (a - b) + 2 * p <= u && 2 * (b - a) + 2 * p <= u;
    AsReal(f, p);
    AsReal(w, u);
    hide Rounds, Factor, Unit, Pow, One;
    InReals(a, b, p, u);
  }

  lemma InReals(a: int, b: int, p: int, u: int)
    requires 2 * (a - b) + 2 * p <= u && 2 * (b - a) + 2 * p <= u
    ensures 2.0 * (a as real - b as real) + 2.0 * p as real <= u as real
    ensures 2.0 * (b as real - a as real) + 2.0 * p as real <= u as real
  {
  }

  lemma UnitReal(k: nat, exp: int)
    ensures Product3(Unit(k, exp) as real, RPow(10, exp), Factor(exp) as real, One(k) as real)
  {
    PowPositive(10, if exp >= 0 then exp else -exp);
    if exp >= 0 {
      AsReal(Pow(10, exp), One(k));
    } else {
      RPowTimes(10, exp, -exp);
    }
  }

  ghost predicate Product2(e: real, h: real, s: real)
  {
    e == h * s && s > 0.0
  }

  lemma SplitPower(exp: int, c: int)
    ensures Product2(RPow(10, exp), RPow(10, exp - c), RPow(10, c))
  {
    hide RPow, Pow;
    RPowSum(10, exp - c, c);
    RPowStep(10, c);
  }

  lemma Halves(v: real, s: real, f: real, w: real, h: real, p: real, q: real, e: real, u: real,
               d: real)
    requires d == w * h && WithinOne(v, s, q, f) && RoundsReal(f, w, p, u) && Product3(u, e, p, q) && Product2(e, h, s)
    ensures BelowHalf(v, d, h)
  {
    var m := s * p * q;
    ScaledError(v, s, q, f, p, m);
    ScaledUnit(u, e, p, q, h, s, m);
    hide *;
    ScaledSides(f, w, p, u, h, m, d, v);
    OneSide(v, d, h, m);
    OneSide(d, v, h, m);
    BelowHalfOf(v, d, h);
  }

  ghost predicate Band(x: real, f: real, p: real)
  {
    f * p - p < x < f * p + p
  }

  lemma ScaledError(v: real, s: real, q: real, f: real, p: real, m: real)
    requires WithinOne(v, s, q, f) && p > 0.0 && m == s * p * q
    ensures Band(v * m, f, p)
  {
    var a := v * s * q;
    WithinIs(v, s, q, f, a);
    TripleEqual(v, s, p, q, m);
    hide *;
    Banded(a, f, p, v * m);
  }

  lemma WithinIs(v: real, s: real, q: real, f: real, a: real)
    requires WithinOne(v, s, q, f) && a == v * s * q
    ensures -1.0 < a - f < 1.0
  {
  }

  lemma TripleEqual(v: real, s: real, p: real, q: real, m: real)
    requires m == s * p * q
    ensures v * m == (v * s * q) * p
  {
    TripleProduct(v, s, p, q);
  }

  lemma Banded(a: real, f: real, p: real, x: real)
    requires -1.0 < a - f < 1.0 && p > 0.0 && x == a * p
    ensures Band(x, f, p)
  {
    var over, under := f + 1.0 - a, a - f + 1.0;
    PositiveProduct(over, p);
    PositiveProduct(under, p);
    assert over * p == f * p + p - a * p;
    assert under * p == a * p - f * p + p;
  }

  lemma ScaledUnit(u: real, e: real, p: real, q: real, h: real, s: real, m: real)
    requires Product3(u, e, p, q) && Product2(e, h, s) && m == s * p * q
    ensures u == h * m && m > 0.0
  {
    TripleProduct(h, s, p, q);
  }

  lemma ScaledSides(f: real, w: real, p: real, u: real, h: real, m: real, d: real, v: real)
    requires RoundsReal(f, w, p, u) && Band(v * m, f, p) && u == h * m && d == w * h
    ensures 2.0 * (v * m - d * m) < h * m && 2.0 * (d * m - v * m) < h * m
  {
    MulRegroup(w, h, m);
  }

  lemma BelowHalfOf(v: real, w: real, unit: real)
    requires 2.0 * (v - w) < unit && 2.0 * (w - v) < unit
    ensures BelowHalf(v, w, unit)
  {
  }

  lemma OneSide(x: real, y: real, h: real, m: real)
    requires 2.0 * (x * m - y * m) < h * m && m > 0.0
    ensures 2.0 * (x - y) < h
  {
    assert (2.0 * (x - y)) * m == 2.0 * (x * m - y * m);
    CancelReal(2.0 * (x - y), h, m);
  }

  lemma TripleProduct(x: real, s: real, p: real, q: real)
    ensures (x * s) * p * q == x * (s * p * q) == (x * s * q) * p
  {
  }

  lemma MulRegroup(x: real, y: real, z: real)
    ensures x * (y * z) == (x * y) * z
  {
  }

  /** The printed digits with their final exponent are within half a unit of the last
      place asked for of every number the scaled value stands for. */
  lemma FinishedMeans(f: nat, k: nat, exp: int, buf: string, shift: int, size: nat, fixed: bool, c: int, v: real)
    requires Finished(f, k, exp, buf, shift, size, fixed) && Approximates(f, k, c, v)
    ensures IsDecimal(buf) && size <= |buf| <= size + 1
    ensures BelowHalf(v, Decimal(Read(buf), exp - c + shift), RPow(10, exp - c))
  {
    var w :| Rounds(f, k, w, exp) && Denotes(buf, shift, w, size, fixed);
    RoundsMeans(f, k, w, exp, c, v);
    assert (shift == 0 && Read(buf) == w) || (shift == 1 && 10 * Read(buf) == w);
    hide *;
    ShiftedDecimal(w, Read(buf), exp - c, shift);
  }

  lemma ShiftedDecimal(w: nat, r: nat, z: int, shift: int)
    requires (shift == 0 && r == w) || (shift == 1 && 10 * r == w)
    ensures Decimal(w, z) == Decimal(r, z + shift)
  {
    if shift == 1 {
      RPowStep(10, z);
      var a, b := RPow(10, z), RPow(10, z + 1);
      assert w as real == 10.0 * r as real;
      hide *;
      assert (10.0 * r as real) * a == r as real * (10.0 * a);
    }
  }
}
