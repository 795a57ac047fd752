/** The product of sc_muladd: columns of a schoolbook multiplication in base 2^21. */
module ScalarProduct {
  import opened Bytes
  import opened ScalarLimbs

  /** The columns as they are written out in the code. */
  function Columns(a: seq<int>, b: seq<int>, c: seq<int>): (s: seq<int>)
    requires |a| == 12 && |b| == 12 && |c| == 12
    ensures |s| == 24
  {
    [c[0] + a[0] * b[0],
     c[1] + a[0] * b[1] + a[1] * b[0],
     c[2] + a[0] * b[2] + a[1] * b[1] + a[2] * b[0],
     c[3] + a[0] * b[3] + a[1] * b[2] + a[2] * b[1] + a[3] * b[0],
     c[4] + a[0] * b[4] + a[1] * b[3] + a[2] * b[2] + a[3] * b[1] + a[4] * b[0],
     c[5] + a[0] * b[5] + a[1] * b[4] + a[2] * b[3] + a[3] * b[2] + a[4] * b[1] + a[5] * b[0],
     c[6] + a[0] * b[6] + a[1] * b[5] + a[2] * b[4] + a[3] * b[3] + a[4] * b[2] + a[5] * b[1] + a[6] * b[0],
     c[7] + a[0] * b[7] + a[1] * b[6] + a[2] * b[5] + a[3] * b[4] + a[4] * b[3] + a[5] * b[2] + a[6] * b[1]
       + a[7] * b[0],
     c[8] + a[0] * b[8] + a[1] * b[7] + a[2] * b[6] + a[3] * b[5] + a[4] * b[4] + a[5] * b[3] + a[6] * b[2]
       + a[7] * b[1] + a[8] * b[0],
     c[9] + a[0] * b[9] + a[1] * b[8] + a[2] * b[7] + a[3] * b[6] + a[4] * b[5] + a[5] * b[4] + a[6] * b[3]
       + a[7] * b[2] + a[8] * b[1] + a[9] * b[0],
     c[10] + a[0] * b[10] + a[1] * b[9] + a[2] * b[8] + a[3] * b[7] + a[4] * b[6] + a[5] * b[5] + a[6] * b[4]
       + a[7] * b[3] + a[8] * b[2] + a[9] * b[1] + a[10] * b[0],
     c[11] + a[0] * b[11] + a[1] * b[10] + a[2] * b[9] + a[3] * b[8] + a[4] * b[7] + a[5] * b[6] + a[6] * b[5]
       + a[7] * b[4] + a[8] * b[3] + a[9] * b[2] + a[10] * b[1] + a[11] * b[0],
     a[1] * b[11] + a[2] * b[10] + a[3] * b[9] + a[4] * b[8] + a[5] * b[7] + a[6] * b[6] + a[7] * b[5]
       + a[8] * b[4] + a[9] * b[3] + a[10] * b[2] + a[11] * b[1],
     a[2] * b[11] + a[3] * b[10] + a[4] * b[9] + a[5] * b[8] + a[6] * b[7] + a[7] * b[6] + a[8] * b[5]
       + a[9] * b[4] + a[10] * b[3] + a[11] * b[2],
     a[3] * b[11] + a[4] * b[10] + a[5] * b[9] + a[6] * b[8] + a[7] * b[7] + a[8] * b[6] + a[9] * b[5]
       + a[10] * b[4] + a[11] * b[3],
     a[4] * b[11] + a[5] * b[10] + a[6] * b[9] + a[7] * b[8] + a[8] * b[7] + a[9] * b[6] + a[10] * b[5]
       + a[11] * b[4],
     a[5] * b[11] + a[6] * b[10] + a[7] * b[9] + a[8] * b[8] + a[9] * b[7] + a[10] * b[6] + a[11] * b[5],
     a[6] * b[11] + a[7] * b[10] + a[8] * b[9] + a[9] * b[8] + a[10] * b[7] + a[11] * b[6],
     a[7] * b[11] + a[8] * b[10] + a[9] * b[9] + a[10] * b[8] + a[11] * b[7],
     a[8] * b[11] + a[9] * b[10] + a[10] * b[9] + a[11] * b[8],
     a[9] * b[11] + a[10] * b[10] + a[11] * b[9],
     a[10] * b[11] + a[11] * b[10],
     a[11] * b[11],
     0]
  }

  /** What limb i of a contributes to column k. */
  function Term(a: seq<int>, b: seq<int>, k: int, i: nat): int
    requires i < |a|
  {
    if 0 <= k - i < |b| then a[i] * b[k - i] else 0
  }

  /** What the first n limbs of a contribute to column k. */
  function Column(a: seq<int>, b: seq<int>, k: int, n: nat): int
    requires n <= |a|
    decreases n
  {
    if n == 0 then 0 else Column(a, b, k, n - 1) + Term(a, b, k, n - 1)
  }

  function Rows(a: seq<int>, b: seq<int>, n: nat): (s: seq<int>)
    requires n <= |a|
    ensures |s| == 24
  {
    seq(24, k => Column(a, b, k, n))
  }

  function Plus(s: seq<int>, t: seq<int>): seq<int>
    requires |s| == |t|
  {
    seq(|s|, k requires 0 <= k < |s| => s[k] + t[k])
  }

  function Times(x: int, s: seq<int>): (t: seq<int>)
    ensures |t| == |s|
  {
    seq(|s|, k requires 0 <= k < |s| => x * s[k])
  }

  function Zeros(n: nat): (s: seq<int>)
    ensures |s| == n && forall x :: x in s ==> x == 0
  {
    seq(n, k => 0)
  }

  lemma {:induction false} PlusValue(s: seq<int>, t: seq<int>)
    requires |s| == |t|
    ensures ValueOf(Plus(s, t)) == ValueOf(s) + ValueOf(t)
  {
    if s != [] {
      assert Plus(s, t)[1..] == Plus(s[1..], t[1..]);
      PlusValue(s[1..], t[1..]);
    }
  }

  lemma {:induction false} TimesValue(x: int, s: seq<int>)
    ensures ValueOf(Times(x, s)) == x * ValueOf(s)
  {
    if s != [] {
      assert Times(x, s)[1..] == Times(x, s[1..]);
      TimesValue(x, s[1..]);
      Swap(x, RADIX, ValueOf(s[1..]));
    }
  }

  /** One row of the multiplication. */
  lemma RowValue(x: int, b: seq<int>, i: nat)
    requires |b| == 12 && i < 12
    ensures ValueOf(Zeros(i) + Times(x, b) + Zeros(12 - i)) == x * Weight(i) * ValueOf(b)
  {
    hide ValueOf, Weight, Zeros, Times;
    var row := Times(x, b) + Zeros(12 - i);
    assert Zeros(i) + Times(x, b) + Zeros(12 - i) == Zeros(i) + row;
    ConcatValue(Zeros(i), row);
    ConcatValue(Times(x, b), Zeros(12 - i));
    ZeroValue(Zeros(i));
    ZeroValue(Zeros(12 - i));
    TimesValue(x, b);
    Scaled(Weight(i), x, ValueOf(b), Weight(12));
  }

  lemma Scaled(w: int, x: int, v: int, z: int)
    ensures w * (x * v + z * 0) == x * w * v
  {}

  lemma {:induction false} RowsValue(a: seq<int>, b: seq<int>, n: nat)
    requires n <= |a| == 12 && |b| == 12
    ensures ValueOf(Rows(a, b, n)) == ValueOf(a[..n]) * ValueOf(b)
  {
    hide ValueOf, Weight;
    if n == 0 {
      ZeroValue(Rows(a, b, 0));
      ZeroValue(a[..0]);
    } else {
      var x := a[n - 1];
      var row := Zeros(n - 1) + Times(x, b) + Zeros(12 - (n - 1));
      assert Rows(a, b, n) == Plus(Rows(a, b, n - 1), row);
      PlusValue(Rows(a, b, n - 1), row);
      RowsValue(a, b, n - 1);
      RowValue(x, b, n - 1);
      assert a[..n] == a[..n - 1] + [x];
      ConcatValue(a[..n - 1], [x]);
      OneLimb(x);
      Distributes(ValueOf(a[..n - 1]), x, Weight(n - 1), ValueOf(b));
    }
  }

  lemma OneLimb(x: int)
    ensures ValueOf([x]) == x
  {
    assert [x][1..] == [];
  }

  lemma Distributes(p: int, x: int, w: int, v: int)
    ensures p * v + x * w * v == (p + w * x) * v
  {}

  lemma ColumnUnrolled(a: seq<int>, b: seq<int>, k: int)
    requires |a| == 12 && |b| == 12
    ensures Column(a, b, k, 12) == Term(a, b, k, 0) + Term(a, b, k, 1) + Term(a, b, k, 2) + Term(a, b, k, 3)
      + Term(a, b, k, 4) + Term(a, b, k, 5) + Term(a, b, k, 6) + Term(a, b, k, 7) + Term(a, b, k, 8)
      + Term(a, b, k, 9) + Term(a, b, k, 10) + Term(a, b, k, 11)
  {
    hide Term;
    assert Column(a, b, k, 4) == Term(a, b, k, 0) + Term(a, b, k, 1) + Term(a, b, k, 2) + Term(a, b, k, 3);
    assert Column(a, b, k, 8) == Column(a, b, k, 4) + Term(a, b, k, 4) + Term(a, b, k, 5) + Term(a, b, k, 6) + Term(a, b, k, 7);
  }

  lemma ColumnsAreRows(a: seq<int>, b: seq<int>, c: seq<int>)
    requires |a| == 12 && |b| == 12 && |c| == 12
    ensures Columns(a, b, c) == Plus(c + Zeros(12), Rows(a, b, 12))
  {
    hide Column;
    forall k | 0 <= k < 24
      ensures Column(a, b, k, 12) == Columns(a, b, c)[k] - (if k < 12 then c[k] else 0)
    {
      ColumnUnrolled(a, b, k);
    }
  }

  lemma ColumnsValue(a: seq<int>, b: seq<int>, c: seq<int>)
    requires |a| == 12 && |b| == 12 && |c| == 12
    ensures ValueOf(Columns(a, b, c)) == ValueOf(a) * ValueOf(b) + ValueOf(c)
  {
    hide ValueOf, Columns, Rows, Weight, Zeros;
    ColumnsAreRows(a, b, c);
    PlusValue(c + Zeros(12), Rows(a, b, 12));
    RowsValue(a, b, 12);
    assert a[..12] == a;
    ConcatValue(c, Zeros(12));
    ZeroValue(Zeros(12));
  }

  predicate Within(s: seq<int>, m: int) { forall x :: x in s ==> 0 <= x < m }

  lemma TermBounded(a: seq<int>, b: seq<int>, k: int, i: nat)
    requires i < |a| && Within(a, 0x200_0000) && Within(b, 0x200_0000)
    ensures 0 <= Term(a, b, k, i) < 0x4_0000_0000_0000
  {
    if 0 <= k - i < |b| {
      assert a[i] in a && b[k - i] in b;
      SmallProduct(a[i], b[k - i]);
    }
  }

  lemma SmallProduct(x: int, y: int)
    requires 0 <= x < 0x200_0000 && 0 <= y < 0x200_0000
    ensures 0 <= x * y < 0x4_0000_0000_0000
  {
    Product(x, 0x1FF_FFFF, y, 0x1FF_FFFF);
  }

  lemma {:induction false} ColumnBounded(a: seq<int>, b: seq<int>, k: int, n: nat)
    requires n <= |a| && Within(a, 0x200_0000) && Within(b, 0x200_0000)
    ensures 0 <= Column(a, b, k, n) <= 0x4_0000_0000_0000 * n
  {
    if n > 0 {
      TermBounded(a, b, k, n - 1);
      ColumnBounded(a, b, k, n - 1);
    }
  }

  /** No column comes near 63 bits. */
  lemma ColumnsBounded(a: seq<int>, b: seq<int>, c: seq<int>)
    requires |a| == 12 && |b| == 12 && |c| == 12
    requires Within(a, 0x200_0000) && Within(b, 0x200_0000) && Within(c, 0x200_0000)
    ensures Within(Columns(a, b, c), 0x40_0000_0000_0000)
  {
    hide Column, Columns;
    ColumnsAreRows(a, b, c);
    var s := Columns(a, b, c);
    forall k | 0 <= k < 24
      ensures 0 <= s[k] < 0x40_0000_0000_0000
    {
      ColumnBounded(a, b, k, 12);
      assert k < 12 ==> c[k] in c;
    }
  }
}
