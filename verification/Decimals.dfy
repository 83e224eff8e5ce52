/** Decimal digit strings: the numbers they denote and the characters they are written in. */
module Decimals {
  import opened MachineInts
  import opened Powers

  /** The number a digit string denotes, most significant digit first. */
  function Dec(ds: seq<nat>): nat
  {
    if ds == [] then 0 else ds[0] * Pow(10, |ds| - 1) + Dec(ds[1..])
  }

  predicate AllDigits(ds: seq<nat>)
  {
    forall i :: 0 <= i < |ds| ==> ds[i] <= 9
  }

  lemma {:induction false} DecAppend(a: seq<nat>, b: seq<nat>)
    ensures Dec(a + b) == Dec(a) * Pow(10, |b|) + Dec(b)
  {
    if a == [] {
      assert a + b == b;
    } else {
      DecAppend(a[1..], b);
      assert (a + b)[1..] == a[1..] + b;
      PowAdd(10, |a| - 1, |b|);
      DistributeScale(a[0], Pow(10, |a| - 1), Dec(a[1..]), Pow(10, |b|));
    }
  }

  lemma DistributeScale(x: int, p: int, y: int, s: int)
    ensures (x * p + y) * s == x * (p * s) + y * s
  {
    MulAssoc(x, p, s);
  }

  lemma DecSnoc(a: seq<nat>, d: nat)
    ensures Dec(a + [d]) == 10 * Dec(a) + d
  {
    DecAppend(a, [d]);
    assert [d][1..] == [];
    assert Pow(10, 0) == 1 && Pow(10, 1) == 10;
  }

  lemma {:induction false} DecBound(ds: seq<nat>)
    requires AllDigits(ds)
    ensures Dec(ds) < Pow(10, |ds|)
  {
    if ds == [] {
    } else {
      DecBound(ds[1..]);
      MulMonotone(ds[0], 9, Pow(10, |ds| - 1));
    }
  }

  /** Changing one digit moves the number by the difference at that digit's place. */
  lemma {:induction false} DecUpdate(ds: seq<nat>, i: nat, d: nat)
    requires i < |ds|
    ensures Dec(ds[i := d]) == Dec(ds) + (d as int - ds[i]) * Pow(10, |ds| - 1 - i)
  {
    if i > 0 {
      DecUpdate(ds[1..], i - 1, d);
      assert ds[i := d][1..] == ds[1..][i - 1 := d];
    } else {
      assert ds[0 := d][1..] == ds[1..];
    }
  }

  /** A one followed by n zeros denotes 10^n. */
  lemma {:induction false} DecZeros(ds: seq<nat>)
    requires forall i :: 0 <= i < |ds| ==> ds[i] == 0
    ensures Dec(ds) == 0
  {
    if ds != [] {
      DecZeros(ds[1..]);
    }
  }

  /** The character for a digit; ten is the one past '9', used while a carry is under way. */
  function Chr(d: nat): char
    requires d <= 10
  {
    (48 + d) as char
  }

  predicate Writable(ds: seq<nat>)
  {
    forall i :: 0 <= i < |ds| ==> ds[i] <= 10
  }

  function Text(ds: seq<nat>): (s: string)
    requires Writable(ds)
    ensures |s| == |ds|
  {
    seq(|ds|, i requires 0 <= i < |ds| => Chr(ds[i]))
  }

  predicate IsDecimal(s: string)
  {
    forall i :: 0 <= i < |s| ==> '0' <= s[i] <= '9'
  }

  function DigitsOf(s: string): (ds: seq<nat>)
    requires IsDecimal(s)
    ensures |ds| == |s| && AllDigits(ds)
  {
    seq(|s|, i requires 0 <= i < |s| => s[i] as int - '0' as int)
  }

  /** The number a decimal string denotes. */
  function Read(s: string): nat
    requires IsDecimal(s)
  {
    Dec(DigitsOf(s))
  }

  lemma ReadText(ds: seq<nat>)
    requires AllDigits(ds)
    ensures Writable(ds) && IsDecimal(Text(ds)) && DigitsOf(Text(ds)) == ds && Read(Text(ds)) == Dec(ds)
  {
    assert DigitsOf(Text(ds)) == ds;
  }

  /** Moving a ten one place up as a carry keeps the number. */
  lemma CarryOne(ds: seq<nat>, i: nat)
    requires 0 < i < |ds| && ds[i] == 10
    ensures Dec(ds[i := 0][i - 1 := ds[i - 1] + 1]) == Dec(ds)
  {
    DecUpdate(ds, i, 0);
    DecUpdate(ds[i := 0], i - 1, ds[i - 1] + 1);
    CarryAmount(Pow(10, |ds| - 1 - i));
  }

  lemma CarryAmount(p: int)
    ensures (0 - 10 as int) * p + 1 * (10 * p) == 0
  {
  }

  lemma LeadingTen(ds: seq<nat>)
    requires |ds| >= 1 && ds[0] == 10 && forall k :: 0 < k < |ds| ==> ds[k] == 0
    ensures Dec(ds) == Pow(10, |ds|) && Dec(ds[0 := 1]) == Pow(10, |ds| - 1)
  {
    DecZeros(ds[1..]);
    assert ds[0 := 1][1..] == ds[1..];
  }

  /** Propagates a carry out of the last digit through the nines before it; only the
      first digit can be left past nine, and then all others are zero. */
  method PropagateCarry(digits: string, ghost before: seq<nat>) returns (buf: string, ghost ds: seq<nat>)
    requires |before| >= 1 && Writable(before) && AllDigits(before[..|before| - 1]) && digits == Text(before)
    ensures |ds| == |before| && Writable(ds) && buf == Text(ds) && Dec(ds) == Dec(before)
    ensures AllDigits(ds) || (ds[0] == 10 && forall k :: 0 < k < |ds| ==> ds[k] == 0)
  {
    buf, ds := digits, before;
    var i := |buf| - 1;
    while i > 0 && buf[i] > '9'
      invariant 0 <= i < |ds| == |before| && Writable(ds) && buf == Text(ds)
      invariant forall k :: 0 <= k < |ds| && k != i ==> ds[k] <= 9
      invariant ds[i] == 10 ==> forall k :: i < k < |ds| ==> ds[k] == 0
      invariant Dec(ds) == Dec(before)
    {
      CarryOne(ds, i);
      buf := buf[i := '0'];
      buf := buf[i - 1 := (buf[i - 1] as int + 1) as char];  // ++buf[i - 1]
      ds := ds[i := 0][i - 1 := ds[i - 1] + 1];
      i := i - 1;
    }
  }

  // ---------- Number of digits ----------

  /** The number of decimal digits of n, one for zero. */
  function NumDigits(n: nat): (c: nat)
    ensures c >= 1
  {
    if n < 10 then 1 else 1 + NumDigits(n / 10)
  }

  lemma {:induction false} NumDigitsBracket(n: nat)
    ensures n < Pow(10, NumDigits(n))
    ensures n > 0 ==> Pow(10, NumDigits(n) - 1) <= n
  {
    assert Pow(10, 0) == 1 && Pow(10, 1) == 10;
    if n >= 10 {
      NumDigitsBracket(n / 10);
      var c := NumDigits(n / 10);
      assert n == 10 * (n / 10) + n % 10;
      assert Pow(10, c + 1) == 10 * Pow(10, c) && Pow(10, c) == 10 * Pow(10, c - 1);
    }
  }

  /** The bracket determines the number of digits. */
  lemma NumDigitsUnique(n: nat, c: nat)
    requires c >= 1 && n < Pow(10, c) && (c > 1 ==> Pow(10, c - 1) <= n)
    ensures NumDigits(n) == c
  {
    NumDigitsBracket(n);
    assert Pow(10, 0) == 1;
    var d := NumDigits(n);
    if d < c {
      PowMonotone(10, d, c - 1);
    } else if c < d {
      PowMonotone(10, c, d - 1);
    }
  }

  // ---------- Precision ----------

  datatype Option = None | Some(value: int)

  /** adjust_precision makes a fixed precision relative to the decimal point. */
  function AdjustPrecision(precision: int, exp10: int): (adjusted: Option)
    ensures adjusted == None <==> exp10 > 0 && precision + exp10 > INT_MAX
  {
    if exp10 > 0 && precision > INT_MAX - exp10 then None else Some(precision + exp10)
  }
}
