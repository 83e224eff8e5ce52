/** Schoolbook multiplication by columns: the cross products of equal total place. */
module Columns {
  import opened Powers
  import opened Limbs

  /** The largest product of two bigits. */
  const SQUARE: nat := 0xFFFF_FFFE_0000_0001

  function At(b: seq<Bigit>, k: int): Bigit
  {
    if 0 <= k < |b| then b[k] else 0
  }

  /** The sum of a[i] * b[j] over i + j == k. */
  ghost function Column(a: seq<Bigit>, b: seq<Bigit>, k: int): nat
  {
    if a == [] then 0 else a[0] * At(b, k) + Column(a[1..], b, k - 1)
  }

  /** The first m columns at their weights. */
  ghost function ColumnSum(a: seq<Bigit>, b: seq<Bigit>, m: nat): nat
  {
    if m == 0 then 0 else ColumnSum(a, b, m - 1) + Weight(m - 1) * Column(a, b, m - 1)
  }

  lemma {:induction false} ColumnBelow(a: seq<Bigit>, b: seq<Bigit>, k: int)
    requires k < 0
    ensures Column(a, b, k) == 0
  {
    if a != [] {
      ColumnBelow(a[1..], b, k - 1);
    }
  }

  lemma {:induction false} ColumnBound(a: seq<Bigit>, b: seq<Bigit>, k: int)
    ensures Column(a, b, k) <= |a| * SQUARE
  {
    if a != [] {
      ColumnBound(a[1..], b, k - 1);
      MulMonotone(a[0], BASE - 1, At(b, k));
      MulMonotone(At(b, k), BASE - 1, BASE - 1);
    }
  }

  /** Leading rows that miss b contribute nothing to column k. */
  lemma {:induction false} ColumnSkip(a: seq<Bigit>, b: seq<Bigit>, k: int, i: nat)
    requires i <= |a| && i <= k - |b| + 1
    ensures Column(a[i..], b, k - i) == Column(a, b, k)
    decreases i
  {
    if i == 0 {
      assert a[0..] == a;
    } else {
      ColumnSkip(a, b, k, i - 1);
      assert a[i - 1..][1..] == a[i..];
      assert At(b, k - (i - 1)) == 0;
    }
  }

  /** The next cross product of a column. */
  lemma ColumnPeel(n: seq<Bigit>, i: nat, j: nat, x: nat, y: nat)
    requires i < |n| && j < |n| && x == n[i] && y == n[j]
    ensures x * y >= 0
    ensures Column(n[i..], n, j) == x * y + Column(n[i + 1..], n, j - 1)
  {
    assert n[i..][1..] == n[i + 1..];
  }

  lemma {:induction false} ColumnSumEmpty(b: seq<Bigit>, m: nat)
    ensures ColumnSum([], b, m) == 0
  {
    if m > 0 {
      ColumnSumEmpty(b, m - 1);
    }
  }

  ghost function Prefix(b: seq<Bigit>, m: nat): nat
  {
    if m <= |b| then Val(b[..m]) else Val(b)
  }

  lemma PrefixStep(b: seq<Bigit>, m: nat)
    ensures Prefix(b, m + 1) == Prefix(b, m) + Weight(m) * At(b, m)
  {
    if m < |b| {
      ValTake(b, m);
    } else {
      assert b[..|b|] == b;
    }
  }

  /** Column sums split off the first row. */
  lemma {:induction false} ColumnSumRow(a: seq<Bigit>, b: seq<Bigit>, m: nat)
    requires a != []
    ensures ColumnSum(a, b, m + 1) == a[0] * Prefix(b, m + 1) + BASE * ColumnSum(a[1..], b, m)
  {
    var rest := a[1..];
    PrefixStep(b, m);
    if m == 0 {
      ColumnBelow(rest, b, -1);
      assert b[..0] == [];
      assert ColumnSum(a, b, 1) == ColumnSum(a, b, 0) + Weight(0) * Column(a, b, 0);
    } else {
      ColumnSumRow(a, b, m - 1);
      WeightStep(m - 1);
      RowStep(a[0], Prefix(b, m), Weight(m), At(b, m), Column(rest, b, m - 1), Weight(m - 1), ColumnSum(rest, b, m - 1));
    }
  }

  lemma RowStep(x: int, p: int, w: int, d: int, c: int, u: int, s: int)
    requires w == BASE * u
    ensures (x * p + BASE * s) + w * (x * d + c) == x * (p + w * d) + BASE * (s + u * c)
  {
    MulAssoc(BASE, u, c);
    MulAssoc(w, x, d);
    MulAssoc(x, w, d);
    assert w * (x * d + c) == w * (x * d) + w * c;
    assert x * (p + w * d) == x * p + x * (w * d);
  }

  lemma ColumnSumStep(a: seq<Bigit>, b: seq<Bigit>, m: nat)
    ensures ColumnSum(a, b, m + 1) == ColumnSum(a, b, m) + Weight(m) * Column(a, b, m)
  {
  }

  lemma AddRows(x: int, y: int, b: int, s: int)
    requires s == y * b
    ensures x * b + BASE * s == (x + BASE * y) * b
  {
    MulAssoc(BASE, y, b);
  }

  /** All columns together make the product. */
  lemma {:induction false} ColumnSumProduct(a: seq<Bigit>, b: seq<Bigit>, m: nat)
    requires m >= |a| + |b|
    ensures ColumnSum(a, b, m) == Val(a) * Val(b)
  {
    if a == [] {
      ColumnSumEmpty(b, m);
    } else {
      var rest := a[1..];
      ColumnSumRow(a, b, m - 1);
      ColumnSumProduct(rest, b, m - 1);
      assert b[..|b|] == b;
      AddRows(a[0], Val(rest), Val(b), ColumnSum(rest, b, m - 1));
    }
  }
}
