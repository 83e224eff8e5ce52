/** Writing and reading decimal integers: count_digits, format_decimal and
    parse_nonnegative_int. */
module DecimalIO {
  import opened MachineInts
  import opened Powers
  import opened Decimals

  // ---------- Counting digits ----------

  lemma FourDigits(n: nat)
    requires n >= 10000
    ensures NumDigits(n) == 4 + NumDigits(n / 10000)
  {
    assert n / 10 / 10 == n / 100;
    assert n / 100 / 10 == n / 1000;
    assert n / 1000 / 10 == n / 10000;
    assert NumDigits(n / 10) == 1 + NumDigits(n / 100);
    assert NumDigits(n / 100) == 1 + NumDigits(n / 1000);
  }

  /** count_digits_fallback: four digits per division. */
  method CountDigitsFallback(number: nat) returns (result: nat)
    ensures result == NumDigits(number)
  {
    var n, count: nat := number, 1;
    while true
      invariant NumDigits(number) == count - 1 + NumDigits(n)
      decreases n
    {
      if n < 10 { return count; }
      if n < 100 { return count + 1; }
      assert NumDigits(n) == 1 + NumDigits(n / 10) && NumDigits(n / 10) == 1 + NumDigits(n / 10 / 10);
      if n < 1000 { return count + 2; }
      if n < 10000 { return count + 3; }
      FourDigits(n);
      n := n / 10000;
      count := count + 4;
    }
  }

  /** The index of the highest set bit, as count-leading-zeros gives it. */
  function FloorLog2(n: nat): nat
    requires n > 0
  {
    if n == 1 then 0 else 1 + FloorLog2(n / 2)
  }

  lemma {:induction false} FloorLog2Bracket(n: nat)
    requires n > 0
    ensures Pow(2, FloorLog2(n)) <= n < Pow(2, FloorLog2(n) + 1)
  {
    if n > 1 {
      FloorLog2Bracket(n / 2);
    } else {
      assert Pow(2, 0) == 1 && Pow(2, 1) == 2;
    }
  }

  /** n | 1 */
  function OrOne(n: nat): (r: nat)
    ensures r > 0
  {
    if n % 2 == 0 then n + 1 else n
  }

  /** The bit length of n | 1 bounds n itself. */
  lemma BitBounds(n: nat, bits: nat)
    requires n < Pow(2, bits)
    ensures var b := FloorLog2(OrOne(n));
            b < bits + 1 && (bits > 0 ==> b < bits) && n < Pow(2, b + 1) && (b > 0 ==> Pow(2, b) <= n)
  {
    var m := OrOne(n);
    var b := FloorLog2(m);
    FloorLog2Bracket(m);
    if b > 0 {
      EvenPower(b);
    }
    if bits > 0 {
      EvenPower(bits);
      if b >= bits {
        PowMonotone(2, bits, b);
      }
    } else {
      assert Pow(2, 0) == 1 && m == 1;
    }
  }

  lemma EvenPower(b: nat)
    requires b > 0
    ensures Pow(2, b) % 2 == 0
  {
    assert Pow(2, b) == 2 * Pow(2, b - 1);
  }

  /** The table bsr2log10, as its runs of equal entries. */
  function Bsr2Log10(b: nat): nat
    requires b < 64
  {
    if b <= 2 then 1 else if b <= 5 then 2 else if b <= 8 then 3 else if b <= 12 then 4 else
    if b <= 15 then 5 else if b <= 18 then 6 else if b <= 22 then 7 else if b <= 25 then 8 else
    if b <= 28 then 9 else if b <= 32 then 10 else if b <= 35 then 11 else if b <= 38 then 12 else
    if b <= 42 then 13 else if b <= 45 then 14 else if b <= 48 then 15 else if b <= 52 then 16 else
    if b <= 55 then 17 else if b <= 58 then 18 else if b <= 62 then 19 else 20
  }

  function ZeroOrPowerOf10(t: nat): nat
  {
    if t <= 1 then 0 else Pow(10, t - 1)
  }

  /** t digits are enough for b + 1 bits, and one less is not too many for b bits. */
  predicate Row(b: nat, t: nat)
  {
    t >= 1 && Pow(2, b + 1) <= Pow(10, t) && (t >= 2 ==> Pow(10, t - 2) <= Pow(2, b))
  }

  lemma RowDigits(n: nat, b: nat, t: nat)
    requires Row(b, t) && n < Pow(2, b + 1) && (b > 0 ==> Pow(2, b) <= n) && (b == 0 ==> t == 1)
    ensures NumDigits(n) == t - if n < ZeroOrPowerOf10(t) then 1 else 0
  {
    assert Pow(10, 0) == 1 && Pow(2, 0) == 1;
    if t >= 2 && n < Pow(10, t - 1) {
      NumDigitsUnique(n, t - 1);
    } else {
      NumDigitsUnique(n, t);
    }
  }

  lemma PowersOfTwo()
    ensures Pow(2, 3) == 0x8 && Pow(2, 6) == 0x40 && Pow(2, 9) == 0x200
    ensures Pow(2, 12) == 0x1000 && Pow(2, 13) == 0x2000 && Pow(2, 15) == 0x8000
    ensures Pow(2, 16) == 0x10000 && Pow(2, 18) == 0x40000 && Pow(2, 19) == 0x80000
    ensures Pow(2, 21) == 0x200000 && Pow(2, 23) == 0x800000 && Pow(2, 24) == 0x1000000
    ensures Pow(2, 26) == 0x4000000 && Pow(2, 27) == 0x8000000 && Pow(2, 29) == 0x20000000
    ensures Pow(2, 32) == 0x100000000 && Pow(2, 33) == 0x200000000 && Pow(2, 36) == 0x1000000000
    ensures Pow(2, 39) == 0x8000000000 && Pow(2, 43) == 0x80000000000 && Pow(2, 46) == 0x400000000000
    ensures Pow(2, 49) == 0x2000000000000 && Pow(2, 53) == 0x20000000000000 && Pow(2, 56) == 0x100000000000000
    ensures Pow(2, 59) == 0x800000000000000 && Pow(2, 63) == 0x8000000000000000 && Pow(2, 64) == 0x10000000000000000
  {
    assert Pow(2, 1) == 2 && Pow(2, 2) == 4 && Pow(2, 3) == 8 && Pow(2, 4) == 16;
    PowAdd(2, 3, 3);
    PowAdd(2, 6, 3);
    PowAdd(2, 9, 3);
    PowAdd(2, 12, 1);
    PowAdd(2, 13, 2);
    PowAdd(2, 15, 1);
    PowAdd(2, 16, 2);
    PowAdd(2, 18, 1);
    PowAdd(2, 19, 2);
    PowAdd(2, 21, 2);
    PowAdd(2, 23, 1);
    PowAdd(2, 24, 2);
    PowAdd(2, 26, 1);
    PowAdd(2, 27, 2);
    PowAdd(2, 29, 3);
    PowAdd(2, 32, 1);
    PowAdd(2, 33, 3);
    PowAdd(2, 36, 3);
    PowAdd(2, 39, 4);
    PowAdd(2, 43, 3);
    PowAdd(2, 46, 3);
    PowAdd(2, 49, 4);
    PowAdd(2, 53, 3);
    PowAdd(2, 56, 3);
    PowAdd(2, 59, 4);
    PowAdd(2, 63, 1);
  }

  lemma PowersOfTen()
    ensures Pow(10, 0) == 1 && Pow(10, 1) == 10 && Pow(10, 2) == 100
    ensures Pow(10, 3) == 1000 && Pow(10, 4) == 10000 && Pow(10, 5) == 100000
    ensures Pow(10, 6) == 1000000 && Pow(10, 7) == 10000000 && Pow(10, 8) == 100000000
    ensures Pow(10, 9) == 1000000000 && Pow(10, 10) == 10000000000 && Pow(10, 11) == 100000000000
    ensures Pow(10, 12) == 1000000000000 && Pow(10, 13) == 10000000000000 && Pow(10, 14) == 100000000000000
    ensures Pow(10, 15) == 1000000000000000 && Pow(10, 16) == 10000000000000000 && Pow(10, 17) == 100000000000000000
    ensures Pow(10, 18) == 1000000000000000000 && Pow(10, 19) == 10000000000000000000 && Pow(10, 20) == 100000000000000000000
  {
    assert Pow(10, 0) == 1 && Pow(10, 1) == 10 && Pow(10, 2) == 100 && Pow(10, 3) == 1000;
    assert Pow(10, 4) == 10 * Pow(10, 3);
    assert Pow(10, 5) == 10 * Pow(10, 4);
    assert Pow(10, 6) == 10 * Pow(10, 5);
    assert Pow(10, 7) == 10 * Pow(10, 6);
    assert Pow(10, 8) == 10 * Pow(10, 7);
    assert Pow(10, 9) == 10 * Pow(10, 8);
    assert Pow(10, 10) == 10 * Pow(10, 9);
    assert Pow(10, 11) == 10 * Pow(10, 10);
    assert Pow(10, 12) == 10 * Pow(10, 11);
    assert Pow(10, 13) == 10 * Pow(10, 12);
    assert Pow(10, 14) == 10 * Pow(10, 13);
    assert Pow(10, 15) == 10 * Pow(10, 14);
    assert Pow(10, 16) == 10 * Pow(10, 15);
    assert Pow(10, 17) == 10 * Pow(10, 16);
    assert Pow(10, 18) == 10 * Pow(10, 17);
    assert Pow(10, 19) == 10 * Pow(10, 18);
    assert Pow(10, 20) == 10 * Pow(10, 19);
  }

  /** A group of bit lengths with the same number of digits. */
  lemma RowFrom(b: nat, t: nat, lo: nat, hi: nat)
    requires lo <= b <= hi && t >= 1 && Pow(2, hi + 1) <= Pow(10, t) && (t >= 2 ==> Pow(10, t - 2) <= Pow(2, lo))
    ensures Row(b, t)
  {
    PowMonotone(2, b + 1, hi + 1);
    PowMonotone(2, lo, b);
  }

  lemma Rows64(b: nat)
    requires b < 64
    ensures Row(b, Bsr2Log10(b)) && (b == 0 ==> Bsr2Log10(b) == 1)
  {
    PowersOfTwo();
    PowersOfTen();
    hide Pow, Row;
    if b <= 2 {
      RowFrom(b, 1, 0, 2);
    } else if b <= 5 {
      RowFrom(b, 2, 3, 5);
    } else if b <= 8 {
      RowFrom(b, 3, 6, 8);
    } else if b <= 12 {
      RowFrom(b, 4, 9, 12);
    } else if b <= 15 {
      RowFrom(b, 5, 13, 15);
    } else if b <= 18 {
      RowFrom(b, 6, 16, 18);
    } else if b <= 22 {
      RowFrom(b, 7, 19, 22);
    } else if b <= 25 {
      RowFrom(b, 8, 23, 25);
    } else if b <= 28 {
      RowFrom(b, 9, 26, 28);
    } else if b <= 32 {
      RowFrom(b, 10, 29, 32);
    } else if b <= 35 {
      RowFrom(b, 11, 33, 35);
    } else if b <= 38 {
      RowFrom(b, 12, 36, 38);
    } else if b <= 42 {
      RowFrom(b, 13, 39, 42);
    } else if b <= 45 {
      RowFrom(b, 14, 43, 45);
    } else if b <= 48 {
      RowFrom(b, 15, 46, 48);
    } else if b <= 52 {
      RowFrom(b, 16, 49, 52);
    } else if b <= 55 {
      RowFrom(b, 17, 53, 55);
    } else if b <= 58 {
      RowFrom(b, 18, 56, 58);
    } else if b <= 62 {
      RowFrom(b, 19, 59, 62);
    } else {
      RowFrom(b, 20, 63, 63);
    }
  }

  /** The table-driven count for 64-bit numbers. */
  method DoCountDigits64(n: nat) returns (count: nat)
    requires n < UINT64
    ensures count == NumDigits(n)
  {
    PowersOfTwo();
    BitBounds(n, 64);
    var b := FloorLog2(OrOne(n));
    Rows64(b);
    var t := Bsr2Log10(b);
    RowDigits(n, b, t);
    count := t - if n < ZeroOrPowerOf10(t) then 1 else 0;
  }

  /** FMT_INC: adding it to n carries into the upper half exactly from the threshold on. */
  function Inc(digits: nat): nat
    requires 1 <= digits <= 10
  {
    PowersOfTen();
    digits * UINT32 - if digits == 1 then 0 else Pow(10, digits - 1)
  }

  /** The number of digits of the threshold each entry of the table is built from. */
  function DigitsAt(b: nat): nat
    requires b < 32
  {
    if b <= 2 then 1 else if b <= 5 then 2 else if b <= 8 then 3 else if b <= 11 then 4 else
    if b <= 14 then 5 else if b <= 17 then 6 else if b <= 20 then 7 else if b <= 23 then 8 else
    if b <= 26 then 9 else 10
  }

  lemma Rows32(b: nat)
    requires b < 32
    ensures Row(b, DigitsAt(b)) && (b == 0 ==> DigitsAt(b) == 1) && 1 <= DigitsAt(b) <= 10
  {
    PowersOfTwo();
    PowersOfTen();
    hide Pow, Row;
    if b <= 2 {
      RowFrom(b, 1, 0, 2);
    } else if b <= 5 {
      RowFrom(b, 2, 3, 5);
    } else if b <= 8 {
      RowFrom(b, 3, 6, 8);
    } else if b <= 11 {
      RowFrom(b, 4, 9, 11);
    } else if b <= 14 {
      RowFrom(b, 5, 12, 14);
    } else if b <= 17 {
      RowFrom(b, 6, 15, 17);
    } else if b <= 20 {
      RowFrom(b, 7, 18, 20);
    } else if b <= 23 {
      RowFrom(b, 8, 21, 23);
    } else if b <= 26 {
      RowFrom(b, 9, 24, 26);
    } else {
      RowFrom(b, 10, 27, 31);
    }
  }

  /** The table-driven count for 32-bit numbers. */
  method DoCountDigits32(n: nat) returns (count: nat)
    requires n < UINT32
    ensures count == NumDigits(n)
  {
    PowersOfTwo();
    BitBounds(n, 32);
    var b := FloorLog2(OrOne(n));
    Rows32(b);
    var t := DigitsAt(b);
    RowDigits(n, b, t);
    UpperHalf(n, t);
    count := (n + Inc(t)) / UINT32;
  }

  lemma UpperHalf(n: nat, t: nat)
    requires n < UINT32 && 1 <= t <= 10
    ensures n + Inc(t) < UINT64
    ensures (n + Inc(t)) / UINT32 == t - if n < ZeroOrPowerOf10(t) then 1 else 0
  {
    PowersOfTen();
    PowMonotone(10, t - 1, 9);
    PowPositive(10, t - 1);
  }

  // ---------- Writing ----------

  /** The shortest decimal text of n. */
  function DecimalText(n: nat): (s: string)
    ensures |s| == NumDigits(n) && IsDecimal(s)
  {
    if n < 10 then [Chr(n)] else DecimalText(n / 10) + [Chr(n % 10)]
  }

  lemma ReadSnoc(s: string, c: char)
    requires IsDecimal(s) && '0' <= c <= '9'
    ensures IsDecimal(s + [c]) && Read(s + [c]) == 10 * Read(s) + (c as nat - '0' as nat)
  {
    var d := c as nat - '0' as nat;
    DecSnoc(DigitsOf(s), d);
    assert DigitsOf(s + [c]) == DigitsOf(s) + [d];
  }

  /** The text reads back as n and has no leading zero. */
  lemma {:induction false} DecimalTextReads(n: nat)
    ensures Read(DecimalText(n)) == n
    ensures n > 0 ==> DecimalText(n)[0] != '0'
  {
    if n < 10 {
      ReadSnoc("", Chr(n));
      assert "" + [Chr(n)] == [Chr(n)];
    } else {
      DecimalTextReads(n / 10);
      ReadSnoc(DecimalText(n / 10), Chr(n % 10));
    }
  }

  /** It is the only decimal text without a leading zero that reads as n. */
  lemma {:induction false} DecimalTextUnique(s: string)
    requires |s| >= 1 && IsDecimal(s) && (|s| > 1 ==> s[0] != '0')
    ensures s == DecimalText(Read(s))
    decreases |s|
  {
    var last := |s| - 1;
    assert s == s[..last] + [s[last]];
    ReadSnoc(s[..last], s[last]);
    if last == 0 {
      assert s[..last] == "" && Read("") == 0;
    } else {
      DecimalTextUnique(s[..last]);
      LeadingDigit(s[..last]);
    }
  }

  lemma {:induction false} LeadingDigit(s: string)
    requires |s| >= 1 && IsDecimal(s) && s[0] != '0'
    ensures Read(s) >= Pow(10, |s| - 1)
  {
    var ds := DigitsOf(s);
    PowPositive(10, |s| - 1);
    MulMonotone(1, ds[0], Pow(10, |s| - 1));
  }

  /** digits2: the two characters of a number below one hundred. */
  function Digits2(v: nat): (s: string)
    requires v < 100
    ensures |s| == 2
  {
    [Chr(v / 10), Chr(v % 10)]
  }

  lemma TwoAtATime(v: nat)
    ensures v >= 100 ==> DecimalText(v) == DecimalText(v / 100) + Digits2(v % 100)
    ensures 10 <= v < 100 ==> DecimalText(v) == Digits2(v)
  {
    if v >= 100 {
      assert v / 10 / 10 == v / 100 && v / 10 % 10 == v % 100 / 10 && v % 10 == v % 100 % 10;
      assert DecimalText(v) == (DecimalText(v / 100) + [Chr(v / 10 % 10)]) + [Chr(v % 10)];
    } else if v >= 10 {
      assert DecimalText(v) == [Chr(v / 10)] + [Chr(v % 10)];
    }
  }

  /** The buffer with some text written over it. */
  function Spliced(s: string, at: nat, text: string): (r: string)
    requires at + |text| <= |s|
    ensures |r| == |s| && r[at..at + |text|] == text
  {
    s[..at] + text + s[at + |text|..]
  }

  lemma SplicedTwice(s: string, at: nat, text: string, before: string)
    requires |before| <= at && at + |text| <= |s|
    ensures Spliced(Spliced(s, at, text), at - |before|, before) == Spliced(s, at - |before|, before + text)
  {
  }

  /** copy2, or the store of a single character. */
  method Put(out: array<char>, at: nat, text: string)
    requires 1 <= |text| <= 2 && at + |text| <= out.Length
    modifies out
    ensures out[..] == Spliced(old(out[..]), at, text)
  {
    out[at] := text[0];
    if |text| == 2 {
      out[at + 1] := text[1];
    }
  }

  /** The loop over pairs of digits, from the right end down. */
  method PutPairs(out: array<char>, number: nat, size: nat) returns (value: nat, begin: nat, ghost written: string)
    requires NumDigits(number) <= size <= out.Length
    modifies out
    ensures value < 100 && begin + |written| == size && Remaining(number, value, written)
    ensures out[..] == Spliced(old(out[..]), begin, written)
  {
    ghost var before := out[..];
    value, begin, written := number, size, "";
    SplicedNothing(before, size);
    assert Remaining(number, value, written);
    hide *;
    while value >= 100
      invariant begin + |written| == size <= |before| == out.Length && Remaining(number, value, written)
      invariant out[..] == Spliced(before, begin, written)
    {
      NextPair(number, value, written);
      var pair := Digits2(value % 100);
      SplicedTwice(before, begin, written, pair);
      begin := begin - 2;
      Put(out, begin, pair);
      written := pair + written;
      value := value / 100;
    }
  }

  /** format_decimal writes right-aligned, two digits at a time, and returns where the
      text begins; nothing else in the buffer changes. */
  method FormatDecimal(out: array<char>, number: nat, size: nat) returns (begin: nat)
    requires NumDigits(number) <= size <= out.Length
    modifies out
    ensures begin == size - NumDigits(number)
    ensures out[..] == Spliced(old(out[..]), begin, DecimalText(number))
  {
    ghost var before, written := out[..], "";
    var value: nat;
    hide *;
    value, begin, written := PutPairs(out, number, size);
    LastDigits(number, value, written);
    var last := if value < 10 then [Chr(value)] else Digits2(value);
    SplicedTwice(before, begin, written, last);
    begin := begin - |last|;
    Put(out, begin, last);
  }

  ghost predicate Remaining(number: nat, value: nat, written: string)
  {
    DecimalText(number) == DecimalText(value) + written
  }

  lemma NextPair(number: nat, value: nat, written: string)
    requires Remaining(number, value, written) && value >= 100
    ensures Remaining(number, value / 100, Digits2(value % 100) + written) && |written| + 2 <= NumDigits(number)
  {
    TwoAtATime(value);
    hide DecimalText;
    assert (DecimalText(value / 100) + Digits2(value % 100)) + written
        == DecimalText(value / 100) + (Digits2(value % 100) + written);
  }

  lemma LastDigits(number: nat, value: nat, written: string)
    requires Remaining(number, value, written) && value < 100
    ensures var last := if value < 10 then [Chr(value)] else Digits2(value);
            DecimalText(number) == last + written && |last| + |written| == NumDigits(number)
  {
    TwoAtATime(value);
  }

  lemma SplicedNothing(s: string, at: nat)
    requires at <= |s|
    ensures Spliced(s, at, "") == s
  {
  }

  // ---------- Reading ----------

  predicate IsDigit(c: char)
  {
    '0' <= c <= '9'
  }

  /** The end of the run of digits from i on. */
  function RunEnd(s: string, i: nat): (e: nat)
    requires i <= |s|
    ensures i <= e <= |s| && IsDecimal(s[i..e]) && (e < |s| ==> !IsDigit(s[e]))
    decreases |s| - i
  {
    if i < |s| && IsDigit(s[i]) then RunEnd(s, i + 1) else i
  }

  /** The value of a run of digits as it is returned: at most ten of them and at most
      INT_MAX, or else the error value. */
  function Parsed(run: string, errorValue: int): int
    requires IsDecimal(run)
  {
    if |run| <= 10 && Read(run) <= INT_MAX then Read(run) else errorValue
  }

  lemma ReadBound(s: string)
    requires IsDecimal(s)
    ensures Read(s) < Pow(10, |s|)
  {
    DecBound(DigitsOf(s));
  }

  /** parse_nonnegative_int. Its 32-bit accumulator wraps around, yet never wrongly. */
  method ParseNonnegativeInt(s: string, begin: nat, errorValue: int) returns (result: int, end: nat)
    requires begin < |s| && IsDigit(s[begin])
    ensures end == RunEnd(s, begin) > begin
    ensures result == Parsed(s[begin..end], errorValue)
  {
    var value: nat, prev: nat, p := 0, 0, begin;
    assert Scanned(s, begin, begin, 0) by { assert s[begin..begin] == "" && Read("") == 0; }
    hide Parsed, Scanned, Accumulated, RunEnd;
    while true
      invariant begin <= p < |s| && IsDigit(s[p]) && Scanned(s, begin, p, value)
      decreases |s| - p
    {
      ScanDigit(s, begin, p, value);
      prev := value;
      value := (value * 10 % UINT32 + (s[p] as nat - '0' as nat)) % UINT32;
      p := p + 1;
      if p == |s| || !IsDigit(s[p]) {
        break;
      }
    }
    end := p;
    ScanEnd(s, begin, p, value, prev, errorValue);
    var numDigits := p - begin;
    if numDigits <= 9 {
      return value, end;
    }
    result := if numDigits == 10 && prev * 10 + (s[p - 1] as nat - '0' as nat) <= INT_MAX then value else errorValue;
  }

  ghost predicate Scanned(s: string, begin: nat, p: nat, value: nat)
    requires begin <= p <= |s|
  {
    RunEnd(s, begin) == RunEnd(s, p) && Accumulated(s[begin..p], value)
  }

  lemma ScanDigit(s: string, begin: nat, p: nat, value: nat)
    requires begin <= p < |s| && IsDigit(s[p]) && Scanned(s, begin, p, value)
    ensures Scanned(s, begin, p + 1, (value * 10 % UINT32 + (s[p] as nat - '0' as nat)) % UINT32)
  {
    AccumulateDigit(s, begin, p, value);
  }

  lemma ScanEnd(s: string, begin: nat, p: nat, value: nat, prev: nat, errorValue: int)
    requires begin < p <= |s| && Scanned(s, begin, p, value) && (p < |s| ==> !IsDigit(s[p]))
    requires Scanned(s, begin, p - 1, prev)
    ensures p == RunEnd(s, begin)
    ensures var n := p - begin;
            Parsed(s[begin..p], errorValue) ==
            if n <= 9 || (n == 10 && prev * 10 + (s[p - 1] as nat - '0' as nat) <= INT_MAX) then value else errorValue
  {
    assert s[begin..p][..p - begin - 1] == s[begin..p - 1];
    Overflows(s[begin..p], value, prev, errorValue);
  }

  ghost predicate Accumulated(run: string, value: nat)
  {
    IsDecimal(run) && value == Read(run) % UINT32
  }

  lemma AccumulateDigit(s: string, begin: nat, p: nat, value: nat)
    requires begin <= p < |s| && IsDigit(s[p]) && Accumulated(s[begin..p], value)
    ensures Accumulated(s[begin..p + 1], (value * 10 % UINT32 + (s[p] as nat - '0' as nat)) % UINT32)
    ensures s[begin..p + 1] == s[begin..p] + [s[p]]
  {
    var run := s[begin..p];
    assert s[begin..p + 1] == run + [s[p]];
    ReadSnoc(run, s[p]);
    hide Read;
    WrappedStep(Read(run), s[p] as nat - '0' as nat);
  }

  /** The overflow check in terms of the accumulator before the last digit. */
  lemma Overflows(run: string, value: nat, prev: nat, errorValue: int)
    requires |run| >= 1 && Accumulated(run, value) && Accumulated(run[..|run| - 1], prev)
    ensures Parsed(run, errorValue) ==
            if |run| <= 9 || (|run| == 10 && prev * 10 + (run[|run| - 1] as nat - '0' as nat) <= INT_MAX) then value
            else errorValue
  {
    var last := |run| - 1;
    PowersOfTen();
    ReadBound(run[..last]);
    ReadBound(run);
    ReadSnoc(run[..last], run[last]);
    assert run == run[..last] + [run[last]];
    if |run| <= 9 {
      PowMonotone(10, |run|, 9);
    }
    hide Read, Pow;
  }

  lemma WrappedStep(n: nat, d: nat)
    ensures (n % UINT32 * 10 % UINT32 + d) % UINT32 == (10 * n + d) % UINT32
  {
  }

  /** Reading what format_decimal wrote, up to INT_MAX. */
  lemma ParseInvertsFormat(n: nat, errorValue: int)
    requires n <= INT_MAX
    ensures Parsed(DecimalText(n), errorValue) == n
  {
    DecimalTextReads(n);
    NumDigitsBracket(n);
    PowersOfTen();
    if NumDigits(n) > 10 {
      PowMonotone(10, 10, NumDigits(n) - 1);
    }
  }

  /** The value returned is the number's, or the error value for numbers above INT_MAX,
      unless leading zeros make a representable number longer than ten digits. */
  lemma ParsedRight(run: string, errorValue: int)
    requires |run| >= 1 && IsDecimal(run) && errorValue < 0
    ensures Parsed(run, errorValue) == (if Read(run) <= INT_MAX then Read(run) else errorValue)
            <==> |run| <= 10 || Read(run) > INT_MAX
    ensures |run| > 10 && run[0] != '0' ==> Read(run) > INT_MAX
  {
    PowersOfTen();
    if |run| > 10 && run[0] != '0' {
      LeadingDigit(run);
      PowMonotone(10, 10, |run| - 1);
    }
  }

  /** Such texts exist: any digit after ten or more zeros. */
  lemma LeadingZerosRejected(zeros: nat, digit: char, errorValue: int)
    requires zeros >= 10 && IsDigit(digit)
    ensures var run := seq(zeros, _ => '0') + [digit];
            IsDecimal(run) && Read(run) == digit as int - '0' as int && Parsed(run, errorValue) == errorValue
  {
    var z := seq(zeros, _ => '0');
    DecZeros(DigitsOf(z));
    ReadSnoc(z, digit);
  }
}
