/** Multiplying digit sequences column by column. */
module Products {
  import opened Bits
  import opened Digits

  /** The digit at position k, zero outside. */
  function At(d: seq<bigit>, k: int): bigit {
    if 0 <= k < |d| then d[k] else 0
  }

  /** The products a[k] b[c - k] of column c with k < i, added up. */
  ghost function Column(a: seq<bigit>, b: seq<bigit>, c: nat, i: nat): int {
    if i == 0 then 0 else Column(a, b, c, i - 1) + At(a, i - 1) * At(b, c - (i - 1))
  }

  /** The first n columns, each in its place. */
  ghost function Columns(a: seq<bigit>, b: seq<bigit>, n: nat): int {
    if n == 0 then 0 else Columns(a, b, n - 1) + Column(a, b, n - 1, n) * Pow(B, n - 1)
  }

  /** The first n digits of b, each in its place. */
  ghost function Partial(b: seq<bigit>, n: int): int {
    if n <= 0 then 0 else Partial(b, n - 1) + At(b, n - 1) * Pow(B, n - 1)
  }

  lemma {:induction false} PartialIsVal(b: seq<bigit>, n: nat)
    ensures Partial(b, n) == Val(b[..if n < |b| then n else |b|])
  {
    if n > 0 {
      PartialIsVal(b, n - 1);
      if n <= |b| {
        ValSnoc(b, n - 1);
      }
    } else {
      assert b[..0] == [];
    }
  }

  /** One more digit x in front of a adds x b[c - |a|] to column c. */
  lemma {:induction false} ColumnSnoc(a: seq<bigit>, x: bigit, b: seq<bigit>, c: nat, i: nat)
    requires i <= c + 1
    ensures Column(a + [x], b, c, i) == Column(a, b, c, i) + if |a| < i then x * At(b, c - |a|) else 0
  {
    if i > 0 {
      ColumnSnoc(a, x, b, c, i - 1);
      var k := i - 1;
      assert At(a + [x], k) == if k == |a| then x else At(a, k);
      assert k == |a| ==> At(a, k) == 0;
    }
  }

  lemma {:induction false} ColumnsSnoc(a: seq<bigit>, x: bigit, b: seq<bigit>, n: nat)
    ensures Columns(a + [x], b, n) == Columns(a, b, n) + x * Pow(B, |a|) * Partial(b, n - |a|)
  {
    var y := x * Pow(B, |a|);
    if n > 0 {
      ColumnsSnoc(a, x, b, n - 1);
      ColumnSnoc(a, x, b, n - 1, n);
      var k := n - 1 - |a|;
      var p := Pow(B, n - 1);
      if k >= 0 {
        PowAdd(B, |a|, k);
        Spread(Column(a, b, n - 1, n), x * At(b, k), p);
        Shuffle(x, At(b, k), Pow(B, |a|), Pow(B, k));
        Spread(Partial(b, k), At(b, k) * Pow(B, k), y);
      }
    }
  }

  /** All columns together are the product. */
  lemma {:induction false} ColumnsAreProduct(a: seq<bigit>, b: seq<bigit>, n: nat)
    requires n >= |a| + |b|
    ensures Columns(a, b, n) == Val(a) * Val(b)
    decreases |a|
  {
    if a == [] {
      EmptyColumns(b, n);
    } else {
      var c, x := a[..|a| - 1], a[|a| - 1];
      assert a == c + [x];
      ColumnsAreProduct(c, b, n);
      ColumnsSnoc(c, x, b, n);
      PartialIsVal(b, n - |c|);
      assert b[..|b|] == b;
      Spread(Val(c), x * Pow(B, |c|), Val(b));
    }
  }

  lemma {:induction false} EmptyColumns(b: seq<bigit>, n: nat)
    ensures Columns([], b, n) == 0
  {
    if n > 0 {
      EmptyColumns(b, n - 1);
      EmptyColumn(b, n - 1, n);
    }
  }

  lemma {:induction false} EmptyColumn(b: seq<bigit>, c: nat, i: nat)
    ensures Column([], b, c, i) == 0
  {
    if i > 0 {
      EmptyColumn(b, c, i - 1);
    }
  }

  /** Below position c - |b| + 1, and from |a| on, a column has no products. */
  lemma {:induction false} ColumnStarts(a: seq<bigit>, b: seq<bigit>, c: nat, i: nat)
    requires i + |b| <= c + 1
    ensures Column(a, b, c, i) == 0
  {
    if i > 0 {
      ColumnStarts(a, b, c, i - 1);
    }
  }

  lemma {:induction false} ColumnEnds(a: seq<bigit>, b: seq<bigit>, c: nat, i: nat)
    requires i >= |a|
    ensures Column(a, b, c, i) == Column(a, b, c, |a|)
  {
    if i > |a| {
      ColumnEnds(a, b, c, i - 1);
    }
  }

  lemma SmallProduct(x: bigit, y: bigit)
    ensures 0 <= x * y <= (B - 1) * (B - 1)
  {
    MulMonotone(0, x, y);
    MulMonotone(x, B - 1, y);
    MulMonotone(y, B - 1, B - 1);
    MulCommutes(B - 1, y);
  }

  /** A finished column gives a digit and leaves the rest of the sum as the carry. */
  lemma ColumnDone(done: int, w: int, carry: int, sum: nat, column: int, p: nat)
    requires w + carry * p == done && sum == carry + column
    ensures (w + sum % B * p) + sum / B * (p * B) == done + column * p
  {
    assert sum == sum / B * B + sum % B;
    Spread(sum / B * B, sum % B, p);
    MulAssoc(sum / B, B, p);
    MulCommutes(B, p);
    Spread(carry, column, p);
  }
}
