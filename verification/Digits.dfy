/** Numbers as sequences of 32-bit digits ("bigits"), least significant first, and the
    arithmetic facts about powers that the algorithms on them need. */
module Digits {
  import opened Bits

  const B: nat := 0x1_0000_0000

  type bigit = x: int | 0 <= x < 0x1_0000_0000

  lemma MulCommutes(x: int, y: int)
    ensures x * y == y * x
  {
  }

  lemma MulMonotone(x: int, y: int, z: nat)
    requires x <= y
    ensures x * z <= y * z
  {
  }

  lemma MulStrict(x: int, y: int, z: nat)
    requires x < y && z > 0
    ensures x * z < y * z
  {
  }

  lemma Spread(x: int, y: int, z: int)
    ensures (x + y) * z == x * z + y * z
    ensures (x - y) * z == x * z - y * z
    ensures z * (x + y) == z * x + z * y
    ensures z * (x - y) == z * x - z * y
  {
  }

  /** (bc)^k = b^k c^k */
  lemma {:induction false} PowProduct(b: nat, c: nat, k: nat)
    ensures Pow(b * c, k) == Pow(b, k) * Pow(c, k)
  {
    if k > 0 {
      PowProduct(b, c, k - 1);
      var x, y := Pow(b, k - 1), Pow(c, k - 1);
      assert (x * y) * (b * c) == (x * b) * (y * c) by {
        Shuffle(x, y, b, c);
      }
    }
  }

  lemma Shuffle(x: int, y: int, b: int, c: int)
    ensures (x * y) * (b * c) == (x * b) * (y * c)
  {
    MulAssoc(x, y, b * c);
    MulAssoc(y, b, c);
    MulAssoc(b, y, c);
    MulAssoc(x, b, y * c);
    MulCommutes(y, b);
  }

  lemma {:induction false} PowPow(b: nat, i: nat, j: nat)
    ensures Pow(Pow(b, i), j) == Pow(b, i * j)
    decreases j
  {
    if j > 0 {
      PowPow(b, i, j - 1);
      Spread(j - 1, 1, i);
      assert i * j == i * (j - 1) + i;
      assert i * (j - 1) >= 0;
      PowAdd(b, i * (j - 1), i);
    }
  }

  lemma {:induction false} PowMonotone(b: nat, i: nat, j: nat)
    requires b > 0 && i <= j
    ensures Pow(b, i) <= Pow(b, j)
    decreases j
  {
    if i < j {
      PowMonotone(b, i, j - 1);
      MulMonotone(1, b, Pow(b, j - 1));
    }
  }

  // ------------------------------------------------------- values

  ghost function Val(d: seq<bigit>): nat {
    if d == [] then 0 else Val(d[..|d| - 1]) + d[|d| - 1] * Pow(B, |d| - 1)
  }

  lemma ValSnoc(d: seq<bigit>, i: nat)
    requires i < |d|
    ensures Val(d[..i + 1]) == Val(d[..i]) + d[i] * Pow(B, i)
  {
    assert d[..i + 1][..i] == d[..i];
  }

  lemma {:induction false} ValBound(d: seq<bigit>)
    ensures Val(d) < Pow(B, |d|)
  {
    if d != [] {
      var k := |d| - 1;
      ValBound(d[..k]);
      MulMonotone(d[k], B - 1, Pow(B, k));
      Spread(B - 1, 1, Pow(B, k));
    }
  }

  lemma {:induction false} ValConcat(a: seq<bigit>, b: seq<bigit>)
    ensures Val(a + b) == Val(a) + Pow(B, |a|) * Val(b)
    decreases |b|
  {
    if b == [] {
      assert a + b == a;
    } else {
      var c, k := b[..|b| - 1], |b| - 1;
      assert (a + b)[..|a| + k] == a + c;
      ValConcat(a, c);
      PowAdd(B, |a|, k);
      Spread(Val(c), b[k] * Pow(B, k), Pow(B, |a|));
      MulAssoc(b[k], Pow(B, |a|), Pow(B, k));
      MulAssoc(Pow(B, |a|), b[k], Pow(B, k));
      MulCommutes(b[k], Pow(B, |a|));
    }
  }

  lemma {:induction false} ValZeros(n: nat)
    ensures Val(seq(n, _ => 0)) == 0
  {
    if n > 0 {
      ValZeros(n - 1);
      assert seq(n, _ => 0)[..n - 1] == seq(n - 1, _ => 0);
    }
  }

  /** A leading zero adds nothing. */
  lemma ValLeadingZero(d: seq<bigit>)
    requires d != [] && d[|d| - 1] == 0
    ensures Val(d[..|d| - 1]) == Val(d)
  {
  }

  /** A nonzero leading digit bounds the value from below. */
  lemma ValAtLeast(d: seq<bigit>)
    requires d != [] && d[|d| - 1] != 0
    ensures Val(d) >= Pow(B, |d| - 1)
  {
    MulMonotone(1, d[|d| - 1], Pow(B, |d| - 1));
  }

  // ------------------------------------------------------- one digit of a loop

  /** A digit with its carry, in a multiplication by v. */
  lemma MulStep(a: nat, w: nat, carry: nat, p: nat, d: nat, v: nat)
    requires w + carry * p == a * v
    ensures var r := d * v + carry;
      (w + (r % B) * p) + (r / B) * (p * B) == (a + d * p) * v
  {
    var r := d * v + carry;
    var q, m := r / B, r % B;
    assert r == q * B + m;
    MulAssoc(q, B, p);
    MulCommutes(B, p);
    Spread(q * B, m, p);
    assert r * p == q * (p * B) + m * p;
    Spread(d * v, carry, p);
    Spread(a, d * p, v);
    assert (d * v) * p == (d * p) * v by {
      MulAssoc(d, v, p);
      MulAssoc(d, p, v);
      MulCommutes(v, p);
    }
  }

  /** The same with a multiplier of two digits and a carry of two digits. */
  lemma MulStep64(a: nat, w: nat, carry: nat, p: nat, d: bigit, v: nat)
    requires w + carry * p == a * v && carry < B * B && v < B * B
    ensures var result := d * (v % B) + carry % B;
      var carry' := d * (v / B) + result / B + carry / B;
      (w + (result % B) * p) + carry' * (p * B) == (a + d * p) * v
    ensures d * (v % B) + carry % B < B * B
    ensures d * (v / B) + (d * (v % B) + carry % B) / B + carry / B < B * B
  {
    var lower, upper := v % B, v / B;
    var result := d * lower + carry % B;
    var carry' := d * upper + result / B + carry / B;
    assert v == upper * B + lower && carry == (carry / B) * B + carry % B;
    Spread(upper * B, lower, d);
    MulAssoc(d, upper, B);
    MulCommutes(d, upper * B);
    MulCommutes(d, lower);
    assert d * v == (d * upper) * B + d * lower;
    assert carry' * B + result % B == d * v + carry by {
      Spread(d * upper, result / B + carry / B, B);
      Spread(result / B, carry / B, B);
    }
    var r := d * v + carry;
    assert r / B == carry' && r % B == result % B;
    MulStep(a, w, carry, p, d, v);
    MulMonotone(d, B - 1, lower);
    MulMonotone(lower, B - 1, B - 1);
    MulCommutes(B - 1, lower);
    MulMonotone(d, B - 1, upper);
    MulMonotone(upper, B - 1, B - 1);
    MulCommutes(B - 1, upper);
  }

  /** The leading digit of a value that needs all its digits. */
  lemma TopFromValue(d: seq<bigit>)
    requires d != [] && Val(d) >= Pow(B, |d| - 1)
    ensures d[|d| - 1] != 0
  {
    if d[|d| - 1] == 0 {
      ValLeadingZero(d);
      ValBound(d[..|d| - 1]);
    }
  }

  lemma Pow32()
    ensures Pow(2, 32) == B
  {
    assert Pow(2, 8) == 256;
    PowAdd(2, 8, 8);
    PowAdd(2, 16, 16);
  }

  /** One digit of a shift by s bits, in two parts that do not overlap. */
  lemma ShiftStep(d: bigit, s: nat, carry: nat)
    requires 0 < s < 32 && carry < Pow(2, s)
    ensures var p, q := Pow(2, s), Pow(2, 32 - s);
      && d * p >= 0
      && d * p % B + carry == (d * p + carry) % B && d / q == (d * p + carry) / B
      && 0 <= d / q < p
  {
    var p, q := Pow(2, s), Pow(2, 32 - s);
    Pow32();
    PowAdd(2, s, 32 - s);
    hide Pow;
    ShiftParts(d, p, q, carry);
  }

  lemma ShiftParts(d: bigit, p: nat, q: nat, carry: nat)
    requires p > 0 && q > 0 && p * q == B && carry < p
    ensures d * p >= 0
    ensures d * p % B + carry == (d * p + carry) % B && d / q == (d * p + carry) / B && 0 <= d / q < p
  {
    var c, m := d / q, d % q;
    assert d == c * q + m by {
      MulCommutes(c, q);
    }
    Spread(c * q, m, p);
    MulAssoc(c, q, p);
    MulCommutes(p, q);
    assert d * p == c * B + m * p;
    MulMonotone(0, m, p);
    MulMonotone(m, q - 1, p);
    Spread(q, 1, p);
    assert 0 <= m * p <= B - p;
    DivideB(d * p, c, m * p);
    DivideB(d * p + carry, c, m * p + carry);
    if c >= p {
      MulMonotone(p, c, q);
    }
    if c < 0 {
      MulMonotone(c, -1, q);
    }
  }

  lemma DivideB(x: int, c: int, m: int)
    requires x == c * B + m && 0 <= m < B
    ensures x / B == c && x % B == m
  {
  }

  // ------------------------------------------------------- digits with an exponent

  ghost function Num(d: seq<bigit>, e: nat): nat {
    Val(d) * Pow(B, e)
  }

  /** A number split at position i of its digits. */
  lemma NumSplit(d: seq<bigit>, e: nat, i: nat)
    requires i <= |d|
    ensures Num(d, e) == Num(d[..i], e) + Num(d[i..], e + i)
  {
    assert d == d[..i] + d[i..];
    ValConcat(d[..i], d[i..]);
    PowAdd(B, i, e);
    Spread(Val(d[..i]), Pow(B, i) * Val(d[i..]), Pow(B, e));
    MulCommutes(Pow(B, i), Val(d[i..]));
    MulAssoc(Val(d[i..]), Pow(B, i), Pow(B, e));
  }

  lemma NumBound(d: seq<bigit>, e: nat)
    ensures Num(d, e) < Pow(B, |d| + e)
    ensures d != [] && d[|d| - 1] != 0 ==> Num(d, e) >= Pow(B, |d| - 1 + e)
  {
    ValBound(d);
    PowAdd(B, |d|, e);
    MulStrict(Val(d), Pow(B, |d|), Pow(B, e));
    if d != [] && d[|d| - 1] != 0 {
      ValAtLeast(d);
      PowAdd(B, |d| - 1, e);
      MulMonotone(Pow(B, |d| - 1), Val(d), Pow(B, e));
    }
  }

  /** With equal digits above, the first digits that differ decide. */
  lemma FirstDifference(a: seq<bigit>, ea: nat, i: nat, b: seq<bigit>, eb: nat, j: nat)
    requires i < |a| && j < |b| && i + ea == j + eb && a[i + 1..] == b[j + 1..] && a[i] > b[j]
    ensures Num(a, ea) > Num(b, eb)
  {
    hide Num, Val, Pow;
    var m := i + ea;
    TopSplit(a, ea, i);
    TopSplit(b, eb, j);
    NumBound(b[..j], eb);
    MulMonotone(b[j] + 1, a[i], Pow(B, m));
    Spread(b[j], 1, Pow(B, m));
  }

  /** A number as the digits below position i, the digit there, and those above. */
  lemma TopSplit(a: seq<bigit>, e: nat, i: nat)
    requires i < |a|
    ensures Num(a, e) == Num(a[..i], e) + a[i] * Pow(B, i + e) + Num(a[i + 1..], i + 1 + e)
  {
    hide Num, Val, Pow;
    NumSplit(a, e, i + 1);
    NumSplit(a[..i + 1], e, i);
    assert a[..i + 1][i..] == [a[i]] && a[..i + 1][..i] == a[..i];
    NumDigit(a[i], i + e);
  }

  lemma NumDigit(x: bigit, e: nat)
    ensures Num([x], e) == x * Pow(B, e)
  {
    assert [x][..0] == [];
    assert Val([x]) == x * Pow(B, 0) == x;
  }

  /** The digits of b on top of further digits. */
  lemma LongerIsMore(a: seq<bigit>, ea: nat, b: seq<bigit>, eb: nat)
    requires |a| + ea == |b| + eb && |a| >= |b| && a[|a| - |b|..] == b
    ensures Num(a, ea) >= Num(b, eb)
  {
    NumSplit(a, ea, |a| - |b|);
  }

  // ------------------------------------------------------- digits by position

  /** The digit at position i of the number, zero outside its digits. */
  function Dig(d: seq<bigit>, e: nat, i: nat): bigit {
    if e <= i < |d| + e then d[i - e] else 0
  }

  /** The number without its digits below position i. */
  ghost function Hi(d: seq<bigit>, e: nat, i: nat): nat
    decreases |d| + e - i
  {
    if i >= |d| + e then 0 else Hi(d, e, i + 1) * B + Dig(d, e, i)
  }

  /** The digits below position i. */
  ghost function Low(d: seq<bigit>, e: nat, i: nat): seq<bigit> {
    if i <= e then [] else if i >= |d| + e then d else d[..i - e]
  }

  lemma LowBound(d: seq<bigit>, e: nat, i: nat)
    ensures Num(Low(d, e, i), e) < Pow(B, i)
    ensures i <= e ==> Num(Low(d, e, i), e) == 0
  {
    hide Num, Pow;
    if i <= e {
      NumEmpty(e);
      PowPositive(i);
    } else {
      LowShort(d, e, i);
    }
  }

  lemma LowShort(d: seq<bigit>, e: nat, i: nat)
    requires i > e
    ensures Num(Low(d, e, i), e) < Pow(B, i)
  {
    hide Num, Pow;
    var l := Low(d, e, i);
    assert |l| + e <= i;
    hide Low;
    NumBound(l, e);
    PowMonotone(B, |l| + e, i);
  }

  lemma NumEmpty(e: nat)
    ensures Num([], e) == 0
  {
  }

  lemma PowPositive(i: nat)
    ensures Pow(B, i) > 0
  {
  }

  lemma LowStep(d: seq<bigit>, e: nat, i: nat)
    ensures Num(Low(d, e, i + 1), e) == Num(Low(d, e, i), e) + Dig(d, e, i) * Pow(B, i)
  {
    if e <= i < |d| + e {
      var l := d[..i + 1 - e];
      assert Low(d, e, i + 1) == l;
      NumSplit(l, e, i - e);
      assert l[..i - e] == Low(d, e, i) && l[i - e..] == [d[i - e]];
      NumDigit(d[i - e], i);
    }
  }

  lemma {:induction false} HiLow(d: seq<bigit>, e: nat, i: nat)
    ensures Hi(d, e, i) * Pow(B, i) + Num(Low(d, e, i), e) == Num(d, e)
    decreases |d| + e - i
  {
    if i < |d| + e {
      HiLow(d, e, i + 1);
      LowStep(d, e, i);
      MulAssoc(Hi(d, e, i + 1), B, Pow(B, i));
      MulCommutes(B, Pow(B, i));
      Spread(Hi(d, e, i + 1) * B, Dig(d, e, i), Pow(B, i));
    } else if i <= e {
      assert d == [];
    }
  }

  // ------------------------------------------------------- subtraction

  function Zeros(n: nat): (z: seq<bigit>)
    ensures |z| == n
  {
    seq(n, _ => 0)
  }

  /** Trailing zeros and a larger exponent are the same thing. */
  lemma NumPadded(d: seq<bigit>, e: nat, n: nat)
    ensures Num(Zeros(n) + d, e) == Num(d, e + n)
  {
    var z := Zeros(n);
    NumSplit(z + d, e, n);
    assert (z + d)[..n] == z && (z + d)[n..] == d;
    ValZeros(n);
  }

  /** One digit of a subtraction with its borrow. */
  lemma SubStep(w: int, u: int, borrow: int, p: int, d: bigit, o: bigit)
    requires w == u + borrow * p && 0 <= borrow <= 1
    ensures var r := d - o - borrow; var borrow' := if r < 0 then 1 else 0;
      w + (r % B) * p == u + (d - o) * p + borrow' * (p * B)
      && r % B == r + borrow' * B
  {
    var r := d - o - borrow;
    var borrow' := if r < 0 then 1 else 0;
    assert r % B == r + borrow' * B;
    Spread(r, borrow' * B, p);
    Spread(d - o, borrow, p);
    MulAssoc(borrow', B, p);
    MulCommutes(B, p);
  }

  /** The digits of d after o has been taken off from position off on, as far as j digits
      of o: all below are done, the borrow is still to be taken, all above are d's. */
  ghost predicate SubDone(d: seq<bigit>, e: seq<bigit>, off: nat, o: seq<bigit>, j: nat, borrow: nat) {
    && |e| == |d| && j <= |o| && off + j <= |d| && borrow <= 1
    && e[off + j..] == d[off + j..]
    && Val(e[..off + j]) == Val(d[..off + j]) - Pow(B, off) * Val(o[..j]) + borrow * Pow(B, off + j)
  }

  lemma SubDoneStep(d: seq<bigit>, e: seq<bigit>, off: nat, o: seq<bigit>, j: nat, borrow: nat)
    requires SubDone(d, e, off, o, j, borrow) && j < |o| && off + j < |d|
    ensures var i := off + j; var r := e[i] - o[j] - borrow;
      SubDone(d, e[i := r % B], off, o, j + 1, if r < 0 then 1 else 0)
  {
    hide Val, Pow;
    var i := off + j;
    assert e[i] == d[i];
    var r: int := d[i] - o[j] - borrow;
    var f := e[i := r % B];
    var x, p := Pow(B, off) * Val(o[..j]), Pow(B, i);
    SubStep(Val(e[..i]), Val(d[..i]) - x, borrow, p, d[i], o[j]);
    Spread(d[i], o[j], p);
    ValSnoc(d, i);
    ValSnoc(f, i);
    assert f[..i] == e[..i] && f[i + 1..] == e[i + 1..] == d[i + 1..];
    SubtrahendGrows(off, o, j);
    PowSucc(i);
  }

  lemma SubtrahendGrows(off: nat, o: seq<bigit>, j: nat)
    requires j < |o|
    ensures Pow(B, off) * Val(o[..j + 1]) == Pow(B, off) * Val(o[..j]) + o[j] * Pow(B, off + j)
  {
    hide Val, Pow;
    ValSnoc(o, j);
    Spread(Val(o[..j]), o[j] * Pow(B, j), Pow(B, off));
    PowAdd(B, off, j);
    MulAssoc(o[j], Pow(B, j), Pow(B, off));
    MulCommutes(Pow(B, j), Pow(B, off));
    MulCommutes(Pow(B, off), o[j] * Pow(B, j));
  }

  lemma PowSucc(i: nat)
    ensures Pow(B, i + 1) == Pow(B, i) * B
  {
  }

  /** The borrow out of the digits of o, if any, stops at the next digit. */
  ghost predicate BorrowStops(d: seq<bigit>, off: nat, o: seq<bigit>)
    requires off + |o| <= |d|
  {
    var i := off + |o|;
    Val(d[..i]) >= Pow(B, off) * Val(o) || (i < |d| && d[i] != 0)
  }

  /** Whether there is a borrow shows in the lower digits. */
  lemma SubDoneBorrow(d: seq<bigit>, e: seq<bigit>, off: nat, o: seq<bigit>, borrow: nat)
    requires SubDone(d, e, off, o, |o|, borrow)
    ensures borrow == 0 <==> Val(d[..off + |o|]) >= Pow(B, off) * Val(o)
  {
    hide Val, Pow;
    var i := off + |o|;
    assert o[..|o|] == o;
    var w, v, x, p := Val(e[..i]), Val(d[..i]), Pow(B, off) * Val(o), Pow(B, i);
    assert w == v - x + borrow * p && borrow <= 1;
    ValBound(e[..i]);
    hide SubDone;
    BorrowShows(w, v, x, borrow, p);
  }

  lemma BorrowShows(w: nat, v: nat, x: int, borrow: nat, p: nat)
    requires w == v - x + borrow * p && w < p && borrow <= 1
    ensures borrow == 0 <==> v >= x
  {
    assert borrow == 1 ==> borrow * p == p;
  }

  lemma ValUpdate(d: seq<bigit>, i: nat, x: bigit)
    requires i < |d|
    ensures Val(d[i := x]) == Val(d) + (x - d[i]) * Pow(B, i)
  {
    var e := d[i := x];
    assert d == d[..i + 1] + d[i + 1..] && e == e[..i + 1] + d[i + 1..];
    ValConcat(d[..i + 1], d[i + 1..]);
    ValConcat(e[..i + 1], d[i + 1..]);
    assert e[..i] == d[..i];
    ValSnoc(d, i);
    ValSnoc(e, i);
    Spread(x, d[i], Pow(B, i));
  }

  /** What the last loop of the subtraction makes of the next digit. */
  function TakenFrom(x: bigit): bigit {
    if x > 0 then x - 1 else B - 2
  }

  lemma TakenTimes(x: bigit, p: nat)
    requires p > 0
    ensures x > 0 ==> (TakenFrom(x) - x) * p + p == 0
    ensures x == 0 ==> (TakenFrom(x) - x) * p + p > 0
  {
    if x == 0 {
      MulMonotone(0, B - 2, p);
    }
  }

  lemma SubWhole(d: seq<bigit>, e: seq<bigit>, off: nat, o: seq<bigit>, borrow: nat)
    requires SubDone(d, e, off, o, |o|, borrow)
    ensures Val(e) == Val(d) - Pow(B, off) * Val(o) + borrow * Pow(B, off + |o|)
  {
    var i := off + |o|;
    assert o[..|o|] == o && d == d[..i] + d[i..] && e == e[..i] + d[i..];
    ValConcat(d[..i], d[i..]);
    ValConcat(e[..i], d[i..]);
  }

  /** A borrow that is left has a digit to be taken from. */
  lemma BorrowHasDigit(d: seq<bigit>, e: seq<bigit>, off: nat, o: seq<bigit>, borrow: nat)
    requires SubDone(d, e, off, o, |o|, borrow) && Val(d) >= Pow(B, off) * Val(o)
    ensures borrow == 1 ==> off + |o| < |d| && e[off + |o|] == d[off + |o|]
  {
    hide Val, Pow;
    var i := off + |o|;
    SubDoneBorrow(d, e, off, o, borrow);
    assert i == |d| ==> d[..i] == d;
    if i < |d| {
      assert e[i] == e[i..][0] == d[i..][0] == d[i];
    }
  }

  /** The subtraction is exact if and only if the borrow stops at the next digit. */
  lemma SubExact(d: seq<bigit>, e: seq<bigit>, off: nat, o: seq<bigit>, borrow: nat)
    requires SubDone(d, e, off, o, |o|, borrow) && Val(d) >= Pow(B, off) * Val(o)
    ensures borrow == 1 ==> off + |o| < |d|
    ensures var i := off + |o|;
      var f := if borrow == 0 then e else e[i := TakenFrom(e[i])];
      Val(f) == Val(d) - Pow(B, off) * Val(o) <==> BorrowStops(d, off, o)
  {
    hide Val, Pow, TakenFrom;
    var i := off + |o|;
    SubDoneBorrow(d, e, off, o, borrow);
    SubWhole(d, e, off, o, borrow);
    BorrowHasDigit(d, e, off, o, borrow);
    assert borrow <= 1;
    hide SubDone;
    var x, p := Pow(B, off) * Val(o), Pow(B, i);
    if borrow == 1 {
      ValUpdate(e, i, TakenFrom(e[i]));
      TakenTimes(d[i], p);
      BorrowTaken(Val(e), Val(d), x, p, (TakenFrom(d[i]) - d[i]) * p, d[i] > 0);
    } else {
      assert borrow * p == 0;
    }
  }

  lemma BorrowTaken(w: int, v: int, x: int, p: nat, y: int, stops: bool)
    requires w == v - x + p && (stops ==> y + p == 0) && (!stops ==> y + p > 0)
    ensures w + y == v - x <==> stops
  {
  }

  lemma TimesOrder(x: int, y: int, p: nat)
    requires p > 0
    ensures (x * p == y * p <==> x == y) && (x * p >= y * p <==> x >= y)
  {
    if x < y {
      MulStrict(x, y, p);
    } else if y < x {
      MulStrict(y, x, p);
    }
  }

  /** The same for the numbers. */
  lemma SubNumbers(d: seq<bigit>, f: seq<bigit>, e: nat, off: nat, o: seq<bigit>)
    ensures Num(f, e) == Num(d, e) - Num(o, e + off) <==> Val(f) == Val(d) - Pow(B, off) * Val(o)
    ensures Num(d, e) >= Num(o, e + off) <==> Val(d) >= Pow(B, off) * Val(o)
  {
    PowAdd(B, off, e);
    ScaledDifference(Val(f), Val(d), Val(o), Pow(B, off), Pow(B, e));
  }

  lemma ScaledDifference(w: int, v: int, o: int, q: nat, p: nat)
    requires p > 0
    ensures w * p == v * p - o * (q * p) <==> w == v - q * o
    ensures v * p >= o * (q * p) <==> v >= q * o
  {
    MulCommutes(q, o);
    MulAssoc(o, q, p);
    Spread(v, q * o, p);
    TimesOrder(w, v - q * o, p);
    TimesOrder(v, q * o, p);
  }

  lemma SubStart(d: seq<bigit>, off: nat, o: seq<bigit>)
    requires off <= |d|
    ensures SubDone(d, d, off, o, 0, 0)
  {
    assert o[..0] == [];
  }

  /** The whole of subtract_aligned, from its two loops. */
  lemma SubFinish(d: seq<bigit>, e: seq<bigit>, exp: nat, off: nat, o: seq<bigit>, borrow: nat)
    requires SubDone(d, e, off, o, |o|, borrow) && Num(d, exp) >= Num(o, exp + off)
    ensures borrow == 1 ==> off + |o| < |d|
    ensures var f := if borrow == 0 then e else e[off + |o| := TakenFrom(e[off + |o|])];
      Num(f, exp) == Num(d, exp) - Num(o, exp + off) <==> BorrowStops(d, off, o)
  {
    SubNumbers(d, d, exp, off, o);
    SubExact(d, e, off, o, borrow);
    SubNumbers(d, if borrow == 0 then e else e[off + |o| := TakenFrom(e[off + |o|])], exp, off, o);
    hide Num, Val, Pow, BorrowStops, TakenFrom;
  }

  /** A number of at most one digit more than the subtrahend's lets the borrow stop. */
  lemma StopsIfShort(d: seq<bigit>, exp: nat, off: nat, o: seq<bigit>)
    requires off + |o| <= |d| <= off + |o| + 1 && Num(d, exp) >= Num(o, exp + off)
    ensures BorrowStops(d, off, o)
  {
    SubNumbers(d, d, exp, off, o);
    hide Num;
    var i := off + |o|;
    if i == |d| {
      assert d[..i] == d;
    } else if d[i] == 0 {
      ValLeadingZero(d);
    }
  }

  /** 2^64 - 1: the borrow meets a zero digit, and what is left is not the difference. */
  lemma SubtractionFails()
    ensures var d, e, o: seq<bigit> := [0, 0, 1], [B - 1, 0, 1], [1];
      && SubDone(d, e, 0, o, 1, 1) && !BorrowStops(d, 0, o)
      && Val(e[1 := TakenFrom(e[1])]) != Val(d) - Val(o)
  {
    var d, e, o: seq<bigit> := [0, 0, 1], [B - 1, 0, 1], [1];
    SubStart(d, 0, o);
    SubDoneStep(d, d, 0, o, 0, 0);
    assert d[0 := (d[0] - o[0] - 0) % B] == e;
    SubExact(d, e, 0, o, 1);
    assert Val(d) >= 1 && Val(o) == 1 && Pow(B, 0) == 1 && Val(d[..1]) == 0 by {
      ValAtLeast(d);
      PowMonotone(B, 0, 2);
      assert o[..0] == [] && d[..1][..0] == [];
    }
  }
}
