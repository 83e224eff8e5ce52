/** The table of cached powers of ten and the search for the one to scale a number with. */
module CachedPowers {
  import opened MachineInts
  import opened Powers
  import opened RealPowers

  /** One of the 87 powers: its 64-bit significand and binary exponent and, in units of
      2^-32 of the significand's last place, where between delta and delta + err above it the
      power of ten lies. */
  datatype Row = Row(y: nat, ey: int, delta: int, err: nat)
  {
    function Lower(): int
    {
      y * 0x1_0000_0000 + delta
    }

    function Upper(): int
    {
      Lower() + err
    }
  }

  /** The table's entry for 10^(8 * i - 348). */
  function Entry(i: nat): Row
  {
    if i < 44 then
      if i < 22 then
        if i < 11 then
          EntryTo10(i)
        else
          EntryTo21(i)
      else
        if i < 33 then
          EntryTo32(i)
        else
          EntryTo43(i)
    else
      if i < 66 then
        if i < 55 then
          EntryTo54(i)
        else
          EntryTo65(i)
      else
        if i < 77 then
          EntryTo76(i)
        else
          EntryTo86(i)
  }

  function EntryTo10(i: nat): Row
  {
    match i
    case 0 => Row(0xfa8fd5a0081c0288, -1220, 389204048, 60)
    case 1 => Row(0xbaaee17fa23ebf76, -1193, 1568259293, 44)
    case 2 => Row(0x8b16fb203055ac76, -1166, 1278987074, 32)
    case 3 => Row(0xcf42894a5dce35ea, -1140, 1376144536, 46)
    case 4 => Row(0x9a6bb0aa55653b2d, -1113, 1202860986, 34)
    case 5 => Row(0xe61acf033d1a45df, -1087, 1874404466, 48)
    case 6 => Row(0xab70fe17c79ac6ca, -1060, 1841128187, 35)
    case 7 => Row(0xff77b1fcbebcdc4f, -1034, 636020870, 50)
    case 8 => Row(0xbe5691ef416bd60c, -1007, 600610908, 36)
    case 9 => Row(0x8dd01fad907ffc3c, -980, -1371691058, 26)
    case _ => Row(0xd3515c2831559a83, -954, 224025396, 37)
  }

  function EntryTo21(i: nat): Row
  {
    match i
    case 11 => Row(0x9d71ac8fada6c9b5, -927, 1870086071, 27)
    case 12 => Row(0xea9c227723ee8bcb, -901, 1180571032, 39)
    case 13 => Row(0xaecc49914078536d, -874, 1492838891, 28)
    case 14 => Row(0x823c12795db6ce57, -847, 1992637696, 20)
    case 15 => Row(0xc21094364dfb5637, -821, -1738992145, 29)
    case 16 => Row(0x9096ea6f3848984f, -794, 1072747199, 21)
    case 17 => Row(0xd77485cb25823ac7, -768, 2103652998, 30)
    case 18 => Row(0xa086cfcd97bf97f4, -741, -2132237307, 22)
    case 19 => Row(0xef340a98172aace5, -715, -2030335645, 32)
    case 20 => Row(0xb23867fb2a35b28e, -688, -375496304, 23)
    case _ => Row(0x84c8d4dfd2c63f3b, -661, 703388141, 16)
  }

  function EntryTo32(i: nat): Row
  {
    match i
    case 22 => Row(0xc5dd44271ad3cdba, -635, 1089466840, 22)
    case 23 => Row(0x936b9fcebb25c996, -608, -894366254, 16)
    case 24 => Row(0xdbac6c247d62a584, -582, -549062851, 23)
    case 25 => Row(0xa3ab66580d5fdaf6, -555, -1052876598, 16)
    case 26 => Row(0xf3e2f893dec3f126, -529, 1518984091, 21)
    case 27 => Row(0xb5b5ada8aaff80b8, -502, 226597260, 15)
    case 28 => Row(0x87625f056c7c4a8b, -475, 289873107, 11)
    case 29 => Row(0xc9bcff6034c13053, -449, -58084466, 15)
    case 30 => Row(0x964e858c91ba2655, -422, 980027381, 10)
    case 31 => Row(0xdff9772470297ebd, -396, 1501068838, 14)
    case _ => Row(0xa6dfbd9fb8e5b88f, -369, -884159156, 10)
  }

  function EntryTo43(i: nat): Row
  {
    match i
    case 33 => Row(0xf8a95fcf88747d94, -343, 1973701726, 13)
    case 34 => Row(0xb94470938fa89bcf, -316, -133635061, 9)
    case 35 => Row(0x8a08f0f8bf0f156b, -289, 462331593, 6)
    case 36 => Row(0xcdb02555653131b6, -263, 932377616, 7)
    case 37 => Row(0x993fe2c6d07b7fac, -236, -448354302, 4)
    case 38 => Row(0xe45c10c42a2b3b06, -210, -1934058884, 5)
    case 39 => Row(0xaa242499697392d3, -183, -572191791, 3)
    case 40 => Row(0xfd87b5f28300ca0e, -157, -1949655699, 3)
    case 41 => Row(0xbce5086492111aeb, -130, -1997227236, 2)
    case 42 => Row(0x8cbccc096f5088cc, -103, -113277001, 1)
    case _ => Row(0xd1b71758e219652c, -77, -742170349, 1)
  }

  function EntryTo54(i: nat): Row
  {
    match i
    case 44 => Row(0x9c40000000000000, -50, 0, 0)
    case 45 => Row(0xe8d4a51000000000, -24, 0, 0)
    case 46 => Row(0xad78ebc5ac620000, 3, 0, 0)
    case 47 => Row(0x813f3978f8940984, 30, 1073741824, 0)
    case 48 => Row(0xc097ce7bc90715b3, 56, 1268715520, 0)
    case 49 => Row(0x8f7e32ce7bea5c70, 83, -461242333, 1)
    case 50 => Row(0xd5d238a4abe98068, 109, 1923387460, 3)
    case 51 => Row(0x9f4f2726179a2245, 136, 30892608, 4)
    case 52 => Row(0xed63a231d4c4fb27, 162, 1286056613, 7)
    case 53 => Row(0xb0de65388cc8ada8, 189, 992322908, 6)
    case _ => Row(0x83c7088e1aab65db, 216, 2032560068, 5)
  }

  function EntryTo65(i: nat): Row
  {
    match i
    case 55 => Row(0xc45d1df942711d9a, 242, 1000722616, 9)
    case 56 => Row(0x924d692ca61be758, 269, 1497114146, 8)
    case 57 => Row(0xda01ee641a708dea, 295, -401707199, 13)
    case 58 => Row(0xa26da3999aef774a, 322, -474063315, 11)
    case 59 => Row(0xf209787bb47d6b85, 348, -1066955692, 18)
    case 60 => Row(0xb454e4a179dd1877, 375, 700104254, 14)
    case 61 => Row(0x865b86925b9bc5c2, 402, 193602445, 11)
    case 62 => Row(0xc83553c5c8965d3d, 428, 1871872652, 17)
    case 63 => Row(0x952ab45cfa97a0b3, 455, -577480082, 13)
    case 64 => Row(0xde469fbd99a05fe3, 481, 1875533701, 20)
    case _ => Row(0xa59bc234db398c25, 508, 1140504956, 16)
  }

  function EntryTo76(i: nat): Row
  {
    match i
    case 66 => Row(0xf6c69a72a3989f5c, 534, -1968352109, 25)
    case 67 => Row(0xb7dcbf5354e9bece, 561, 202501476, 20)
    case 68 => Row(0x88fcf317f22241e2, 588, 1142942940, 16)
    case 69 => Row(0xcc20ce9bd35c78a5, 614, 837550978, 25)
    case 70 => Row(0x98165af37b2153df, 641, -1015907798, 20)
    case 71 => Row(0xe2a0b5dc971f303a, 667, 776253014, 31)
    case 72 => Row(0xa8d9d1535ce3b396, 694, 2132294044, 24)
    case 73 => Row(0xfb9b7cd9a4a7443c, 720, 379076830, 36)
    case 74 => Row(0xbb764c4ca7a44410, 747, -1653794105, 28)
    case 75 => Row(0x8bab8eefb6409c1a, 774, 449874348, 22)
    case _ => Row(0xd01fef10a657842c, 800, 757822809, 34)
  }

  function EntryTo86(i: nat): Row
  {
    match i
    case 77 => Row(0x9b10a4e5e9913129, 827, -897781081, 26)
    case 78 => Row(0xe7109bfba19c0c9d, 853, 214241875, 40)
    case 79 => Row(0xac2820d9623bf429, 880, 1415792107, 31)
    case 80 => Row(0x80444b5e7aa7cf85, 907, 2038485336, 24)
    case 81 => Row(0xbf21e44003acdd2d, 933, -532215214, 37)
    case 82 => Row(0x8e679c2f5e44ff8f, 960, 1460603357, 28)
    case 83 => Row(0xd433179d9c8cb841, 986, 1604716158, 43)
    case 84 => Row(0x9e19db92b4e31ba9, 1013, 1812439731, 33)
    case 85 => Row(0xeb96bf6ebadf77d9, 1039, -467903558, 50)
    case _ => Row(0xaf87023b9bf0ee6b, 1066, -342905494, 39)
  }

  // ---------- The entries are nearest ----------

  /** y * 2^ey is a 64-bit significand nearest to 10^c. */
  ghost predicate CachedPower(y: Word, ey: int, c: int)
  {
    y >= UINT64 / 2 && Nearest(RPow(10, c), y as real, RPow(2, ey))
  }

  ghost predicate Nearest(p: real, y: real, e: real)
  {
    2.0 * (p - y * e) <= e && 2.0 * (y * e - p) <= e
  }

  /** The power of ten is no further than half a place from the significand. */
  predicate RowTight(r: Row)
  {
    && 0x8000_0000_0000_0000 <= r.y < UINT64
    && -0x8000_0000 <= r.delta && r.delta + r.err <= 0x8000_0000
  }

  /** The bounds of the next power contain those of this one times 10^8. */
  predicate Widens(a: Row, b: Row)
  {
    var lo, hi := a.Lower() * 1_0000_0000, a.Upper() * 1_0000_0000;
    if b.ey == a.ey + 26 then b.Lower() * 0x400_0000 <= lo && hi <= b.Upper() * 0x400_0000
    else b.ey == a.ey + 27 && b.Lower() * 0x800_0000 <= lo && hi <= b.Upper() * 0x800_0000
  }

  /** The bounds of this power contain those of the next one divided by 10^8. */
  predicate Narrows(a: Row, b: Row)
  {
    var lo, hi := a.Lower() * 1_0000_0000, a.Upper() * 1_0000_0000;
    if b.ey == a.ey + 26 then lo <= b.Lower() * 0x400_0000 && b.Upper() * 0x400_0000 <= hi
    else b.ey == a.ey + 27 && lo <= b.Lower() * 0x800_0000 && b.Upper() * 0x800_0000 <= hi
  }

  /** The bounds spread from the exact power 10^4 in both directions. */
  predicate RowFollows(i: nat)
  {
    if i < 44 then Narrows(Entry(i), Entry(i + 1)) else Widens(Entry(i), Entry(i + 1))
  }

  /** The estimate of the decimal exponent is past the entry's just above its binary one,
      and not past the entry's before 29 below. */
  predicate RowFound(i: nat)
  {
    Estimate(Entry(i).ey + 1) > 8 * i - 348 && Estimate(Entry(i).ey - 29) <= 8 * i - 356
  }

  predicate RowOk(i: nat)
  {
    RowTight(Entry(i)) && RowFound(i) && (i == 86 || RowFollows(i))
  }

  predicate RowsOk(i: nat, n: nat)
    decreases n - i
  {
    i >= n || (RowOk(i) && RowsOk(i + 1, n))
  }

  lemma Rows0To7()
    ensures RowsOk(0, 8)
  {
  }

  lemma Rows8To15()
    ensures RowsOk(8, 16)
  {
  }

  lemma Rows16To23()
    ensures RowsOk(16, 24)
  {
  }

  lemma Rows24To31()
    ensures RowsOk(24, 32)
  {
  }

  lemma Rows32To39()
    ensures RowsOk(32, 40)
  {
  }

  lemma Rows40To47()
    ensures RowsOk(40, 48)
  {
  }

  lemma Rows48To55()
    ensures RowsOk(48, 56)
  {
  }

  lemma Rows56To63()
    ensures RowsOk(56, 64)
  {
  }

  lemma Rows64To71()
    ensures RowsOk(64, 72)
  {
  }

  lemma Rows72To79()
    ensures RowsOk(72, 80)
  {
  }

  lemma Rows80To86()
    ensures RowsOk(80, 87)
  {
  }

  lemma {:induction false} RowsMean(i: nat, n: nat, k: nat)
    requires RowsOk(i, n) && i <= k < n
    ensures RowOk(k)
    decreases n - i
  {
    if i < k {
      RowsMean(i + 1, n, k);
    }
  }

  lemma EveryRow(k: nat)
    requires k < 87
    ensures RowOk(k)
  {
    hide *;
    if k < 8 {
      Rows0To7();
      RowsMean(0, 8, k);
    } else if k < 16 {
      Rows8To15();
      RowsMean(8, 16, k);
    } else if k < 24 {
      Rows16To23();
      RowsMean(16, 24, k);
    } else if k < 32 {
      Rows24To31();
      RowsMean(24, 32, k);
    } else if k < 40 {
      Rows32To39();
      RowsMean(32, 40, k);
    } else if k < 48 {
      Rows40To47();
      RowsMean(40, 48, k);
    } else if k < 56 {
      Rows48To55();
      RowsMean(48, 56, k);
    } else if k < 64 {
      Rows56To63();
      RowsMean(56, 64, k);
    } else if k < 72 {
      Rows64To71();
      RowsMean(64, 72, k);
    } else if k < 80 {
      Rows72To79();
      RowsMean(72, 80, k);
    } else {
      Rows80To86();
      RowsMean(80, 87, k);
    }
  }

  /** 10^c lies between lo and hi units of 2^s. */
  ghost predicate Encloses(c: int, lo: int, hi: int, s: int)
  {
    lo as real * RPow(2, s) <= RPow(10, c) <= hi as real * RPow(2, s)
  }

  ghost predicate Enclosed(i: nat)
  {
    Encloses(8 * i - 348, Entry(i).Lower(), Entry(i).Upper(), Entry(i).ey - 32)
  }

  lemma EightTens(c: int)
    ensures RPow(10, c + 8) == RPow(10, c) * 1_0000_0000 as real
  {
    assert Pow(10, 4) == 10000;
    PowAdd(10, 4, 4);
    hide *;
    RPowTimes(10, c, 8);
  }

  lemma Doubled(s: int, k: nat, two: nat)
    requires (k == 26 && two == 0x400_0000) || (k == 27 && two == 0x800_0000)
    ensures RPow(2, s + k) == RPow(2, s) * two as real && RPow(2, s) > 0.0 && RPow(10, 0) > 0.0
  {
    assert Pow(2, 13) == 8192;
    PowAdd(2, 13, 13);
    assert Pow(2, 27) == 2 * Pow(2, 26);
    RPowStep(2, s);
    RPowStep(10, 0);
    hide *;
    RPowTimes(2, s, k);
  }

  /** a units of 2^s times ten against b units of 2^s * two. */
  lemma ScaledBounds(a: int, b: int, r: real, two: nat, ten: nat)
    requires r > 0.0
    ensures b * two <= a * ten ==> b as real * (r * two as real) <= (a as real * r) * ten as real
    ensures a * ten <= b * two ==> (a as real * r) * ten as real <= b as real * (r * two as real)
  {
    ProductsInReals(a, ten, b, two);
    ScaledReals(a as real, b as real, r, two as real, ten as real);
  }

  lemma ProductsInReals(a: int, x: int, b: int, y: int)
    ensures b * y <= a * x ==> b as real * y as real <= a as real * x as real
    ensures a * x <= b * y ==> a as real * x as real <= b as real * y as real
  {
    AsReal(a, x);
    AsReal(b, y);
  }

  lemma ScaledReals(a: real, b: real, r: real, two: real, ten: real)
    requires r > 0.0
    ensures b * two <= a * ten ==> b * (r * two) <= (a * r) * ten
    ensures a * ten <= b * two ==> (a * r) * ten <= b * (r * two)
  {
    CancelReal(b * two, a * ten, r);
    CancelReal(a * ten, b * two, r);
    SwapFactors(b, two, r);
    SwapFactors(a, ten, r);
    Regroup3(b, r, two);
    assert r * (b * two) == (b * two) * r;
  }

  lemma {:induction false} EnclosedFrom(i: nat)
    requires 44 <= i < 87
    ensures Enclosed(i)
  {
    if i == 44 {
      EnclosedAtFour();
    } else {
      hide Enclosed, RowOk;
      EnclosedFrom(i - 1);
      EveryRow(i - 1);
      OneUp(i - 1);
    }
  }

  lemma OneUp(i: nat)
    requires 44 <= i < 86 && RowOk(i) && Enclosed(i)
    ensures Enclosed(i + 1)
  {
    hide Entry, RPow, Widens, Encloses, RowFound, RowTight;
    assert 8 * i - 348 + 8 == 8 * (i + 1) - 348;
    StepUp8(8 * i - 348, Entry(i), Entry(i + 1));
  }

  lemma StepUp8(c: int, a: Row, b: Row)
    requires Encloses(c, a.Lower(), a.Upper(), a.ey - 32)
    requires Widens(a, b)
    ensures Encloses(c + 8, b.Lower(), b.Upper(), b.ey - 32)
  {
    var two := if b.ey == a.ey + 26 then 0x400_0000 else 0x800_0000;
    hide RPow, Row.Lower, Row.Upper;
    Doubled(a.ey - 32, b.ey - a.ey, two);
    assert a.ey - 32 + (b.ey - a.ey) == b.ey - 32;
    EightTens(c);
    ScaledBounds(a.Lower(), b.Lower(), RPow(2, a.ey - 32), two, 1_0000_0000);
    ScaledBounds(a.Upper(), b.Upper(), RPow(2, a.ey - 32), two, 1_0000_0000);
  }

  lemma {:induction false} EnclosedTo(i: nat)
    requires i <= 44
    ensures Enclosed(i)
    decreases 44 - i
  {
    if i == 44 {
      EnclosedAtFour();
    } else {
      hide Enclosed, RowOk;
      EnclosedTo(i + 1);
      EveryRow(i);
      OneDown(i);
    }
  }

  lemma OneDown(i: nat)
    requires i < 44 && RowOk(i) && Enclosed(i + 1)
    ensures Enclosed(i)
  {
    hide Entry, RPow, Narrows, Encloses, RowFound, RowTight;
    assert 8 * i - 348 + 8 == 8 * (i + 1) - 348;
    StepDown8(8 * i - 348, Entry(i), Entry(i + 1));
  }

  lemma StepDown8(c: int, a: Row, b: Row)
    requires Encloses(c + 8, b.Lower(), b.Upper(), b.ey - 32)
    requires Narrows(a, b)
    ensures Encloses(c, a.Lower(), a.Upper(), a.ey - 32)
  {
    var two := if b.ey == a.ey + 26 then 0x400_0000 else 0x800_0000;
    hide RPow, Row.Lower, Row.Upper;
    Doubled(a.ey - 32, b.ey - a.ey, two);
    assert a.ey - 32 + (b.ey - a.ey) == b.ey - 32;
    EightTens(c);
    ScaledBounds(a.Lower(), b.Lower(), RPow(2, a.ey - 32), two, 1_0000_0000);
    ScaledBounds(a.Upper(), b.Upper(), RPow(2, a.ey - 32), two, 1_0000_0000);
  }

  /** The entry for 10^4 is exact: 10000 = 0x9c40 << 48 over 2^50. */
  lemma EnclosedAtFour()
    ensures Enclosed(44)
  {
    assert Entry(44).Lower() == Entry(44).Upper() == 0x9c40_0000_0000_0000 * 0x1_0000_0000 && Entry(44).ey == -50;
    assert RPow(10, 4) == 10000.0;
    TwoTo82();
    RPowNegative(2, 82);
    hide *;
    OverItself(10000.0, Pow(2, 82) as real);
  }

  lemma TwoTo82()
    ensures 10000.0 * Pow(2, 82) as real == (0x9c40_0000_0000_0000 * 0x1_0000_0000) as real
  {
    assert Pow(2, 2) == 4;
    TwoTo32();
    PowAdd(2, 32, 32);
    assert Pow(2, 8) == 256;
    PowAdd(2, 8, 8);
    PowAdd(2, 64, 16);
    PowAdd(2, 80, 2);
    hide Pow;
    AsReal(10000, Pow(2, 82));
  }

  lemma OverItself(x: real, p: real)
    requires p > 0.0
    ensures (x * p) * (1.0 / p) == x
  {
  }

  lemma EntryEnclosed(i: nat)
    requires i < 87
    ensures Enclosed(i)
  {
    if i >= 44 {
      EnclosedFrom(i);
    } else {
      EnclosedTo(i);
    }
  }

  /** Every entry of the table is a 64-bit significand nearest to its power of ten. */
  lemma EntryNearest(i: nat)
    requires i < 87
    ensures 0 <= Entry(i).y < UINT64 && CachedPower(Entry(i).y, Entry(i).ey, 8 * i - 348)
  {
    hide Entry, RPow, Encloses, Nearest;
    EveryRow(i);
    EntryEnclosed(i);
    TightIsNearest(Entry(i), 8 * i - 348);
  }

  lemma TightIsNearest(r: Row, c: int)
    requires RowTight(r) && Encloses(c, r.Lower(), r.Upper(), r.ey - 32)
    ensures Nearest(RPow(10, c), r.y as real, RPow(2, r.ey))
  {
    hide RPow;
    Place32(r.ey);
    var u := RPow(2, r.ey - 32);
    assert r.Lower() as real == r.y as real * UINT32 as real + r.delta as real;
    assert r.Upper() as real == r.y as real * UINT32 as real + (r.delta + r.err) as real;
    NearestReals(RPow(10, c), r.y as real, u, RPow(2, r.ey), r.delta as real, (r.delta + r.err) as real);
  }

  lemma Place32(ey: int)
    ensures RPow(2, ey) == RPow(2, ey - 32) * UINT32 as real && RPow(2, ey - 32) > 0.0
  {
    TwoTo32();
    RPowStep(2, ey - 32);
    hide *;
    RPowTimes(2, ey - 32, 32);
    assert ey - 32 + 32 == ey;
  }

  lemma NearestReals(p: real, y: real, u: real, e: real, low: real, high: real)
    requires u > 0.0 && e == u * UINT32 as real && -(UINT32 as real) / 2.0 <= low && high <= UINT32 as real / 2.0
    requires (y * UINT32 as real + low) * u <= p <= (y * UINT32 as real + high) * u
    ensures Nearest(p, y, e)
  {
    assert (y * UINT32 as real + low) * u == y * e + low * u;
    assert (y * UINT32 as real + high) * u == y * e + high * u;
    CancelReal(-(UINT32 as real) / 2.0, low, u);
    CancelReal(high, UINT32 as real / 2.0, u);
  }

  // ---------- Finding an entry ----------

  /** The upper half of log10(2) times the bits above the binary exponent, rounded up. */
  function Estimate(minExponent: int): int
  {
    ((minExponent + 63) * 0x4d10_4d42 + 0xFFFF_FFFF) / 0x1_0000_0000  // arithmetic shift
  }

  /** The index computed from it; the division truncates. */
  function CachedIndex(minExponent: int): int
  {
    var x := Estimate(minExponent) + 348 - 1;
    (if x >= 0 then x / 8 else -(-x / 8)) + 1
  }

  datatype Cached = Cached(y: Word, ey: int, c: int)

  /** get_cached_power, for the exponents whose index is inside the table. */
  function GetCachedPower(minExponent: int): Cached
    requires 0 <= CachedIndex(minExponent) < 87
  {
    var index := CachedIndex(minExponent);
    EntryNearest(index);
    Cached(Entry(index).y, Entry(index).ey, -348 + index * 8)
  }

  /** An entry that serves: nearest, with a binary exponent from minExponent to minExponent + 28. */
  ghost predicate Serves(entry: Cached, minExponent: int)
  {
    CachedPower(entry.y, entry.ey, entry.c) && minExponent <= entry.ey <= minExponent + 28
  }

  lemma EstimateMonotone(a: int, b: int)
    requires a <= b
    ensures Estimate(a) <= Estimate(b)
  {
  }

  /** For every exponent that some entry serves, the entry found is nearest to its power of
      ten, and it serves the exponent exactly outside a stretch at the lower end of the
      table, where the truncating division skips the first entry. */
  lemma CachedPowerServes(minExponent: int)
    requires Entry(0).ey - 28 <= minExponent <= Entry(86).ey
    ensures 0 <= CachedIndex(minExponent) < 87
    ensures var entry := GetCachedPower(minExponent);
            && CachedPower(entry.y, entry.ey, entry.c) && -348 <= entry.c <= 340
            && (Serves(entry, minExponent) <==> minExponent < -1242 || minExponent > -1222)
  {
    assert Entry(0).ey == -1220 && Entry(1).ey == -1193 && Entry(86).ey == 1066;
    hide Entry, RPow;
    if Estimate(minExponent) >= -347 {
      FoundInside(minExponent);
    } else {
      FoundBelow(minExponent);
    }
    EntryNearest(CachedIndex(minExponent));
  }

  lemma FoundInside(m: int)
    requires Estimate(m) >= -347 && m <= 1066
    ensures 0 <= CachedIndex(m) < 87 && m > -1222
    ensures m <= Entry(CachedIndex(m)).ey <= m + 28
  {
    hide Entry;
    EstimateMonotone(m, 1066);
    assert Estimate(-1222) < -347 && Estimate(1066) <= 340;
    if m <= -1222 {
      EstimateMonotone(m, -1222);
    }
    var i := CachedIndex(m);
    assert 8 * i - 356 < Estimate(m) <= 8 * i - 348;
    EveryRow(i);
    var ey := Entry(i).ey;
    if m > ey {
      EstimateMonotone(ey + 1, m);
    } else if m < ey - 28 {
      EstimateMonotone(m, ey - 29);
    }
  }

  /** Where the truncation matters. */
  lemma FoundBelow(m: int)
    requires Estimate(m) < -347 && m >= -1248
    ensures CachedIndex(m) == if m < -1242 then 0 else 1
    ensures m <= -1193
  {
    assert Estimate(-1193) >= -347 && Estimate(-1242) == -354 && Estimate(-1243) == -355 && Estimate(-1248) == -356;
    if m > -1193 {
      EstimateMonotone(-1193, m);
    }
    if m < -1242 {
      EstimateMonotone(m, -1243);
      EstimateMonotone(-1248, m);
    } else {
      EstimateMonotone(-1242, m);
    }
  }
}
