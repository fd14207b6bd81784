/** class bigint: the digits of a number and an exponent that counts trailing zero digits. */
module BigInts {
  import opened Digits
  import opened Products
  import opened Bits

  const M64: nat := 0x1_0000_0000_0000_0000

  function Sign(x: int): int {
    if x > 0 then 1 else if x < 0 then -1 else 0
  }

  class BigInt {
    var bigits: seq<bigit>
    var exp: nat

    ghost function Value(): nat
      reads this
    {
      Num(bigits, exp)
    }

    /** There is a leading digit and it is not zero. */
    predicate Normal()
      reads this
    {
      bigits != [] && bigits[|bigits| - 1] != 0
    }

    constructor ()
      ensures bigits == [] && exp == 0
    {
      bigits, exp := [], 0;
    }

    /** num_bigits */
    function Size(): nat
      reads this
    {
      |bigits| + exp
    }

    /** assign(uint64_t): at most two digits. */
    method Assign(n: nat)
      requires n < M64
      modifies this
      ensures Value() == n && exp == 0 && 1 <= |bigits| <= 2 && (n > 0 ==> Normal())
      ensures n < B ==> bigits == [n]
    {
      var rest := n;
      bigits, exp := [], 0;
      bigits, rest := [rest % B], rest / B;
      assert Val(bigits) == n % B by {
        assert bigits[..0] == [];
      }
      while rest != 0
        invariant 1 <= |bigits| <= 2 && rest < B && (|bigits| == 2 ==> rest == 0)
        invariant exp == 0 && n == Val(bigits) + rest * Pow(B, |bigits|)
        invariant rest == 0 && n > 0 ==> Normal()
        invariant |bigits| == 1 ==> bigits == [n % B] && rest == n / B
        invariant |bigits| == 2 ==> n >= B
        decreases rest
      {
        assert (bigits + [rest % B])[..1] == bigits;
        bigits, rest := bigits + [rest % B], rest / B;
      }
    }

    /** assign(const bigint&) */
    method AssignFrom(other: BigInt)
      modifies this
      ensures bigits == old(other.bigits) && exp == old(other.exp)
    {
      bigits, exp := other.bigits, other.exp;
    }

    /** multiply(uint32_t) */
    method Multiply32(value: bigit)
      modifies this`bigits
      ensures Value() == old(Value()) * value
      ensures |old(bigits)| <= |bigits| <= |old(bigits)| + 1
      ensures value > 0 && old(Normal()) ==> Normal()
      ensures old(bigits) == [0] ==> bigits == [0]
    {
      var n: nat, carry: nat, i: nat := |bigits|, 0, 0;
      ghost var d := bigits;
      hide Val, Pow, MulDone, DigitTimes, Num;
      MulStarts(d, value);
      while i < n
        invariant i <= n == |bigits| && carry < B && MulDone(d, bigits, i, carry, value)
      {
        MulDoneStep32(d, bigits, i, carry, value);
        var result := DigitTimes(bigits[i], value, carry);
        bigits := bigits[i := result % B];
        carry := result / B;
        i := i + 1;
      }
      MulEnds(d, bigits, carry, value);
      if carry != 0 {
        bigits := bigits + [carry];
      }
      TimesMeans(d, bigits, value, exp);
    }

    /** multiply(uint64_t): the carry takes two digits, and never more. */
    method Multiply64(value: nat)
      requires value < M64
      modifies this`bigits
      ensures Value() == old(Value()) * value
      ensures |old(bigits)| <= |bigits| <= |old(bigits)| + 2
      ensures value > 0 && old(Normal()) ==> Normal()
    {
      hide Val, Pow, MulDone, LowTimes, HighTimes, Num;
      var n: nat, carry: nat, i: nat := |bigits|, 0, 0;
      ghost var d := bigits;
      MulStarts(d, value);
      while i < n
        invariant 0 <= i <= n == |bigits| && carry < M64 && MulDone(d, bigits, i, carry, value)
      {
        MulDoneStep(d, bigits, i, carry, value);
        var digit := bigits[i];
        var result := LowTimes(digit, value % B, carry);
        carry := HighTimes(digit, value / B, result, carry);
        bigits := bigits[i := result % B];
        i := i + 1;
      }
      MulFinished(d, bigits, carry, value);
      PushCarry(carry);
      ScaledNum(d, bigits, value, exp);
    }

    /** The last loop of multiply(uint64_t). */
    method PushCarry(carry': nat)
      requires carry' < M64
      modifies this`bigits
      ensures |old(bigits)| <= |bigits| <= |old(bigits)| + 2
      ensures Val(bigits) == Val(old(bigits)) + carry' * Pow(B, |old(bigits)|)
      ensures |bigits| > |old(bigits)| ==> bigits[|bigits| - 1] != 0
    {
      var carry := carry';
      ghost var n := |bigits|;
      while carry != 0
        invariant 0 <= carry < M64 && n <= |bigits| <= n + 2
        invariant (|bigits| == n + 1 ==> carry < B) && (|bigits| == n + 2 ==> carry == 0)
        invariant |bigits| > n && carry == 0 ==> bigits[|bigits| - 1] != 0
        invariant Val(bigits) + carry * Pow(B, |bigits|) == Val(old(bigits)) + carry' * Pow(B, n)
        decreases carry
      {
        PushDigit(bigits, carry);
        bigits, carry := bigits + [carry % B], carry / B;
      }
    }

    /** operator<<= */
    method ShiftLeft(shift: nat)
      modifies this
      ensures Value() == old(Value()) * Pow(2, shift)
      ensures exp == old(exp) + shift / 32 && |old(bigits)| <= |bigits| <= |old(bigits)| + 1
      ensures old(bigits) == [1] ==> |bigits| == 1
      ensures old(Normal()) ==> Normal()
    {
      ghost var v := Val(bigits);
      ShiftValue(v, exp, shift);
      hide Val, Pow;
      exp := exp + shift / 32;
      var s := shift % 32;
      if s == 0 {
        PowZero(2);
        return;
      }
      ShiftBits(s);
      ShiftMeans(v, Val(bigits), exp, old(exp), shift);
    }

    /** The loop of operator<<=, for less than a digit. */
    method ShiftBits(s: nat)
      requires 0 < s < 32
      modifies this`bigits
      ensures Val(bigits) == Val(old(bigits)) * Pow(2, s)
      ensures |old(bigits)| <= |bigits| <= |old(bigits)| + 1
      ensures old(bigits) == [1] ==> |bigits| == 1
      ensures old(Normal()) ==> Normal()
    {
      ghost var d := bigits;
      var n: nat, carry: nat, i: nat := |bigits|, 0, 0;
      hide Val, Pow;
      ShiftStart(d, s);
      while i < n
        invariant 0 <= i <= n && ShiftDone(d, bigits, i, carry, s)
      {
        ShiftDoneStep(d, bigits, i, carry, s);
        var digit := bigits[i];
        var c := digit / Pow(2, 32 - s);
        bigits := bigits[i := digit * Pow(2, s) % B + carry];
        carry := c;
        i := i + 1;
      }
      ShiftEnd(d, bigits, carry, s);
      if carry != 0 {
        bigits := bigits + [carry];
      }
      OneShifted(d, bigits, s);
    }

    /** align: the digits move up in place, and zeros fill the space below. */
    method Align(other: BigInt)
      requires this != other
      modifies this
      ensures Value() == old(Value()) && (old(Normal()) ==> Normal())
      ensures exp == if old(exp) > other.exp then other.exp else old(exp)
      ensures Size() == old(Size())
    {
      if exp <= other.exp {
        return;
      }
      var diff := exp - other.exp;
      ghost var d := bigits;
      NumPadded(d, exp - diff, diff);
      hide Num;
      PadBelow(diff);
      exp := exp - diff;
    }

    /** The loop of align, in place from the top. */
    method PadBelow(diff: nat)
      modifies this`bigits
      ensures bigits == Zeros(diff) + old(bigits)
    {
      ghost var d := bigits;
      var n := |bigits|;
      bigits := bigits + Zeros(diff);
      var i := n - 1;
      while i >= 0
        invariant -1 <= i < n && |bigits| == n + diff
        invariant forall k :: 0 <= k <= i ==> bigits[k] == d[k]
        invariant forall k :: i < k < n ==> bigits[k + diff] == d[k]
        decreases i
      {
        bigits := bigits[i + diff := bigits[i]];
        i := i - 1;
      }
      bigits := Zeros(diff) + bigits[diff..];
    }

    /** remove_leading_zeros */
    method RemoveLeadingZeros()
      modifies this`bigits
      ensures Value() == old(Value()) && Val(bigits) == Val(old(bigits))
      ensures if old(bigits) == [] then bigits == [] else bigits != [] && (Normal() || bigits == [0])
      ensures |bigits| <= |old(bigits)|
    {
      var n := |bigits| - 1;
      ghost var d := bigits;
      assert d[..n + 1] == d;
      while n > 0 && bigits[n] == 0
        invariant bigits == d && -1 <= n < |d| && (d != [] ==> n >= 0) && Val(d[..n + 1]) == Val(d)
        decreases n
      {
        ValLeadingZero(d[..n + 1]);
        assert d[..n + 1][..n] == d[..n];
        n := n - 1;
      }
      bigits := bigits[..n + 1];
      assert n == 0 && bigits[0] == 0 ==> bigits == [0];
    }

    /** subtract_bits: the difference modulo 2^32, and the sign as the borrow. */
    method SubtractBits(index: nat, other: bigit, borrow: nat) returns (borrow': nat)
      requires index < |bigits| && borrow <= 1
      modifies this`bigits
      ensures var r := old(bigits[index]) - other - borrow;
        bigits == old(bigits)[index := r % B] && borrow' == if r < 0 then 1 else 0
    {
      var r: int := bigits[index] - other - borrow;
      Borrowed(r);
      var result := r % M64;
      bigits := bigits[index := result % B];
      borrow' := result / (M64 / 2);
    }

    /** The last loop of subtract_aligned, which stays at digit i. */
    method TakeBorrow(i: nat, borrow': nat)
      requires borrow' <= 1 && (borrow' == 1 ==> i < |bigits|)
      modifies this`bigits
      ensures bigits == if borrow' == 0 then old(bigits) else old(bigits)[i := TakenFrom(old(bigits[i]))]
    {
      var borrow := borrow';
      ghost var d := bigits;
      while borrow > 0
        invariant borrow <= 1 && (borrow == 1 ==> i < |bigits|)
        invariant borrow == 0 ==> bigits == if borrow' == 0 then d else d[i := TakenFrom(d[i])]
        invariant borrow == 1 ==> bigits == d || (d[i] == 0 && bigits == d[i := B - 1])
        decreases borrow, if borrow == 1 && bigits[i] == 0 then 1 else 0
      {
        borrow := SubtractBits(i, 0, borrow);
      }
    }

    /** subtract_aligned. The last loop does not move on to the next digit, so the result is
        the difference exactly if the borrow stops at the first digit above other's. */
    method SubtractAligned(other: BigInt)
      requires this != other && other.exp >= exp && other.bigits != []
      requires Value() >= other.Value() && Size() >= other.Size()
      modifies this`bigits
      ensures old(BorrowStops(bigits, other.exp - exp, other.bigits)) <==> Value() == old(Value()) - other.Value()
      ensures Normal() || bigits == [0]
    {
      hide Num, BorrowStops, TakenFrom;
      var off, n := other.exp - exp, |other.bigits|;
      var borrow: nat, i := 0, off;
      ghost var d := bigits;
      var j: nat := 0;
      SubStart(d, off, other.bigits);
      while j != n
        invariant j <= n && i == off + j && SubDone(d, bigits, off, other.bigits, j, borrow)
        decreases n - j
      {
        SubDoneStep(d, bigits, off, other.bigits, j, borrow);
        borrow := SubtractBits(i, other.bigits[j], borrow);
        i, j := i + 1, j + 1;
      }
      SubFinish(d, bigits, exp, off, other.bigits, borrow);
      hide SubDone;
      TakeBorrow(i, borrow);
      RemoveLeadingZeros();
    }

    /** divmod_assign. Its first comparison comes before the alignment, so a dividend that
        equals the divisor and has the larger exponent counts as smaller; apart from that,
        the quotient and the remainder are exact. */
    method DivmodAssign(divisor: BigInt) returns (quotient: nat)
      requires this != divisor && Comparable(this, divisor) && Value() < B * divisor.Value()
      modifies this
      ensures Comparable(this, divisor)
      ensures if old(Value()) == divisor.Value() && old(exp) > divisor.exp then quotient == 0 && Value() == old(Value())
              else old(Value()) == quotient * divisor.Value() + Value() && Value() < divisor.Value()
      ensures quotient == 0 ==> bigits == old(bigits) && exp == old(exp)
      ensures exp == if quotient > 0 && old(exp) > divisor.exp then divisor.exp else old(exp)
    {
      ghost var v, d := Value(), divisor.Value();
      quotient := 0;
      hide Num;
      var c := Compare(this, divisor);
      if c < 0 {
        return;
      }
      DividendIsNormal(this, divisor);
      Align(divisor);
      while true
        invariant exp == (if old(exp) > divisor.exp then divisor.exp else old(exp)) && Normal() && d <= Value() <= v
        invariant v == quotient * d + Value()
        decreases Value()
      {
        EnoughDigits(this, divisor);
        ghost var w := Value();
        SubtractAligned(divisor);
        OneMore(quotient, d, w);
        quotient := quotient + 1;
        c := Compare(this, divisor);
        if c < 0 {
          break;
        }
        DividendIsNormal(this, divisor);
      }
    }

    /** square: every column of products in turn. The sum fits into 128 bits. */
    method Square()
      requires |bigits| < 0x4000_0000
      modifies this
      ensures Value() == old(Value()) * old(Value())
      ensures |bigits| <= 2 * |old(bigits)| && (Normal() || bigits == [0] || bigits == old(bigits) == [])
      ensures exp == 2 * old(exp)
      ensures old(Normal()) ==> Normal()
    {
      ghost var e := exp;
      var r := SquareDigits(bigits);
      SquareNum(bigits, r, exp);
      hide Num, Val;
      bigits := r;
      exp := exp * 2;
      RemoveLeadingZeros();
      NonzeroIsNotZero(bigits, exp);
    }

    /** The two outer loops, for the two halves of the result. */
    method SquareDigits(n: seq<bigit>) returns (r: seq<bigit>)
      requires |n| < 0x4000_0000
      ensures |r| == 2 * |n| && Val(r) == Val(n) * Val(n)
    {
      hide Val, Pow, Column, Columns;
      var len := |n|;
      r := Zeros(2 * len);
      var sum: nat, index: nat := 0, 0;
      SquaringStarts(n, r);
      while index < len
        invariant index <= len && Squaring(n, r, index, sum)
      {
        var column := AddLowColumn(n, index, sum);
        r := FinishColumn(n, r, index, column, sum);
        sum := column / B;
        index := index + 1;
      }
      while index < 2 * len
        invariant len <= index <= 2 * len && Squaring(n, r, index, sum)
      {
        var column := AddHighColumn(n, index, sum);
        r := FinishColumn(n, r, index, column, sum);
        sum := column / B;
        index := index + 1;
      }
      SquaringEnds(n, r, sum);
    }

    /** The inner loop of the lower half: n[i] n[j] for all i + j == index. */
    method AddLowColumn(n: seq<bigit>, index: nat, sum': nat) returns (sum: nat)
      requires index < |n| < 0x4000_0000 && sum' <= |n| * B
      ensures sum == sum' + Column(n, n, index, index + 1) && sum <= |n| * B * B && sum < M64 * M64
    {
      sum := sum';
      var i, j := 0, index as int;
      while j >= 0
        invariant i + j == index && -1 <= j
        invariant sum == sum' + Column(n, n, index, i) && sum <= |n| * B + i * ((B - 1) * (B - 1))
        decreases j
      {
        SmallProduct(n[i], n[j]);
        var x: int, y: int := n[i], n[j];
        sum := sum + x * y;
        i, j := i + 1, j - 1;
      }
      assert i * ((B - 1) * (B - 1)) <= |n| * ((B - 1) * (B - 1));
    }

    /** The inner loop of the upper half starts at the last digit. */
    method AddHighColumn(n: seq<bigit>, index: nat, sum': nat) returns (sum: nat)
      requires 0 < |n| <= index < 2 * |n| && |n| < 0x4000_0000 && sum' <= |n| * B
      ensures sum == sum' + Column(n, n, index, index + 1) && sum <= |n| * B * B && sum < M64 * M64
    {
      sum := sum';
      var j := |n| - 1;
      var i := index - j;
      ColumnStarts(n, n, index, i);
      while i < |n|
        invariant i + j == index && 0 < i <= |n| && j >= -1
        invariant sum == sum' + Column(n, n, index, i) && sum <= |n| * B + i * ((B - 1) * (B - 1))
        decreases |n| - i
      {
        SmallProduct(n[i], n[j]);
        var x: int, y: int := n[i], n[j];
        sum := sum + x * y;
        i, j := i + 1, j - 1;
      }
      ColumnEnds(n, n, index, index + 1);
      assert i * ((B - 1) * (B - 1)) <= |n| * ((B - 1) * (B - 1));
    }

    /** The digit of a finished column. */
    method FinishColumn(n: seq<bigit>, r: seq<bigit>, index: nat, sum: nat, ghost carry: nat)
      returns (digits: seq<bigit>)
      requires Squaring(n, r, index, carry) && index < |r|
      requires sum == carry + Column(n, n, index, index + 1) && sum <= |n| * B * B
      ensures digits == r[index := sum % B] && Squaring(n, digits, index + 1, sum / B)
    {
      digits := r[index := sum % B];
      assert digits[..index] == r[..index];
      ValSnoc(digits, index);
      PowSucc(index);
      ColumnDone(Columns(n, n, index), Val(r[..index]), carry, sum, Column(n, n, index, index + 1), Pow(B, index));
      assert Columns(n, n, index + 1) == Columns(n, n, index) + Column(n, n, index, index + 1) * Pow(B, index);
      hide Val, Pow, Column, Columns;
      assert sum / B <= |n| * B;
    }

    /** assign_pow10: 5^e by repeated squaring from the top bit of e, then a shift by e. */
    method AssignPow10(e: nat)
      requires e < 0x4000_0000
      modifies this
      ensures Value() == Pow(10, e) && Normal() && exp == e / 32
    {
      if e == 0 {
        Assign(1);
        PowZero(10);
        return;
      }
      var bitmask: nat := 1;
      ghost var k: nat := 0;
      hide Num, Pow, And, Top;
      MaskStarts();
      while e >= bitmask
        invariant bitmask == Pow(2, k) && (k > 0 ==> Pow(2, k - 1) <= e) && (k == 0 ==> e >= bitmask)
        decreases 2 * e - bitmask
      {
        MaskDoubles(k);
        bitmask := bitmask * 2;
        k := k + 1;
      }
      MaskDoubles(k - 1);
      bitmask, k := bitmask / 2, k - 1;
      TopBit(e, k);
      Assign(5);
      FiveOnce();
      MaskHalves(k);
      bitmask := bitmask / 2;
      while bitmask != 0
        invariant bitmask == if k == 0 then 0 else Pow(2, k - 1)
        invariant Value() == Pow(5, Top(e, k)) && Normal() && exp == 0
        invariant |bigits| <= 2 * Top(e, k)
        decreases k
      {
        MaskHalves(k - 1);
        NextBit(e, bitmask, k);
        bitmask, k := bitmask / 2, k - 1;
      }
      TopAll(e);
      TenIsFiveTwos(e);
      ShiftLeft(e);
    }

    /** One turn of its loop. */
    method NextBit(e: nat, bitmask: nat, ghost k: nat)
      requires 0 < k && e < 0x4000_0000 && bitmask == Pow(2, k - 1)
      requires Value() == Pow(5, Top(e, k)) && Normal() && exp == 0 && |bigits| <= 2 * Top(e, k)
      modifies this
      ensures Value() == Pow(5, Top(e, k - 1)) && Normal() && exp == 0 && |bigits| <= 2 * Top(e, k - 1)
    {
      hide Num, Pow, And, Top;
      PowerStep(e, k);
      TopBelow(e, k - 1);
      Square();
      if And(e, bitmask) != 0 {
        Multiply32(5);
      }
    }
  }

  /** The digits e below i, with the carry, are those of d times v; the others are still d's. */
  ghost predicate MulDone(d: seq<bigit>, e: seq<bigit>, i: nat, carry: nat, v: nat) {
    && i <= |d| == |e| && carry < M64 && v < M64 && e[i..] == d[i..]
    && Val(e[..i]) + carry * Pow(B, i) == Val(d[..i]) * v
  }

  lemma MulStarts(d: seq<bigit>, v: nat)
    requires v < M64
    ensures MulDone(d, d, 0, 0, v)
  {
    assert d[..0] == [];
  }

  lemma MulEnds(d: seq<bigit>, e: seq<bigit>, carry: nat, v: nat)
    requires MulDone(d, e, |d|, carry, v) && carry < B
    ensures Val(if carry != 0 then e + [carry] else e) == Val(d) * v
  {
    assert e[..|d|] == e && d[..|d|] == d;
    if carry != 0 {
      PushDigit(e, carry);
      assert carry / B == 0 && carry % B == carry;
    }
  }

  lemma ZeroStays(d: seq<bigit>, e: seq<bigit>, v: nat)
    requires Val(e) == Val(d) * v && |d| <= |e| <= |d| + 1
    requires |e| == |d| + 1 ==> e[|d|] != 0
    ensures d == [0] ==> e == [0]
  {
    if d == [0] {
      NumDigit(0, 0);
      assert Val(d) == 0 by {
        assert d[..0] == [];
      }
      if |e| == 2 {
        ValAtLeast(e);
      } else {
        assert e == [e[0]] && e[..0] == [];
      }
    }
  }

  /** A digit times a digit plus a carry, in 64 bits. */
  function DigitTimes(d: bigit, v: bigit, carry: nat): (r: nat) {
    CarryFits(d, v, 0);
    d * v + carry
  }

  lemma ScaledNum(d: seq<bigit>, e: seq<bigit>, v: nat, exp: nat)
    requires Val(e) == Val(d) * v
    ensures Num(e, exp) == Num(d, exp) * v
    ensures |e| == |d| && v > 0 && d != [] && d[|d| - 1] != 0 ==> e[|e| - 1] != 0
  {
    Scaled(d, e, v, exp);
  }

  /** What the product means for the number. */
  lemma TimesMeans(d: seq<bigit>, e: seq<bigit>, v: bigit, exp: nat)
    requires Val(e) == Val(d) * v && |d| <= |e| <= |d| + 1 && (|e| == |d| + 1 ==> e[|d|] != 0)
    ensures Num(e, exp) == Num(d, exp) * v
    ensures v > 0 && d != [] && d[|d| - 1] != 0 ==> e[|e| - 1] != 0
    ensures d == [0] ==> e == [0]
  {
    Scaled(d, e, v, exp);
    ZeroStays(d, e, v);
  }

  lemma MulDoneStep32(d: seq<bigit>, e: seq<bigit>, i: nat, carry: nat, v: bigit)
    requires MulDone(d, e, i, carry, v) && i < |d| == |e| && carry < B
    ensures var r := DigitTimes(e[i], v, carry); r / B < B && MulDone(d, e[i := r % B], i + 1, r / B, v)
  {
    assert e[i] == d[i];
    CarryFits(e[i], v, carry);
    var r := DigitTimes(e[i], v, carry);
    MulStep(Val(d[..i]), Val(e[..i]), carry, Pow(B, i), d[i], v);
    ValSnoc(d, i);
    var f := e[i := r % B];
    assert f[..i] == e[..i] && f[i + 1..] == e[i + 1..] == d[i + 1..];
    ValSnoc(f, i);
    PowSucc(i);
  }

  /** bigits_[i] * lower + (carry & mask) */
  function LowTimes(d: bigit, lower: nat, carry: nat): (r: nat) {
    MulMonotone(0, d, lower);
    d * lower + carry % B
  }

  /** bigits_[i] * upper + (result >> 32) + (carry >> 32) */
  function HighTimes(d: bigit, upper: nat, result: nat, carry: nat): (r: nat) {
    MulMonotone(0, d, upper);
    d * upper + result / B + carry / B
  }

  lemma MulFinished(d: seq<bigit>, e: seq<bigit>, carry: nat, v: nat)
    requires MulDone(d, e, |d|, carry, v)
    ensures |e| == |d| && Val(e) + carry * Pow(B, |d|) == Val(d) * v
  {
    assert e[..|d|] == e && d[..|d|] == d;
  }

  lemma MulDoneStep(d: seq<bigit>, e: seq<bigit>, i: nat, carry: nat, v: nat)
    requires MulDone(d, e, i, carry, v) && i < |d| == |e| && v < M64
    ensures var result := LowTimes(e[i], v % B, carry);
      var carry' := HighTimes(e[i], v / B, result, carry);
      carry' < M64 && MulDone(d, e[i := result % B], i + 1, carry', v)
  {
    assert e[i] == d[i];
    var result := LowTimes(e[i], v % B, carry);
    MulStep64(Val(d[..i]), Val(e[..i]), carry, Pow(B, i), d[i], v);
    ValSnoc(d, i);
    var f := e[i := result % B];
    assert f[..i] == e[..i] && f[i + 1..] == e[i + 1..] == d[i + 1..];
    ValSnoc(f, i);
    PowSucc(i);
    hide Val, Pow;
  }

  lemma CarryFits(d: bigit, v: bigit, carry: nat)
    requires carry < B
    ensures d * v >= 0 && 0 <= (d * v + carry) / B < B
  {
    MulMonotone(d, B - 1, v);
    MulMonotone(v, B - 1, B - 1);
    MulCommutes(B - 1, v);
    MulMonotone(0, d, v);
    Quotient(d * v + carry);
  }

  lemma Quotient(x: int)
    requires 0 <= x < B * B
    ensures 0 <= x / B < B
  {
  }

  /** What an exact multiplication of the digits means for the number. */
  lemma Scaled(d: seq<bigit>, d': seq<bigit>, v: nat, exp: nat)
    requires Val(d') == Val(d) * v
    ensures Val(d') * Pow(B, exp) == Val(d) * Pow(B, exp) * v
    ensures |d'| == |d| && v > 0 && d != [] && d[|d| - 1] != 0 ==> d'[|d'| - 1] != 0
  {
    MulAssoc(Val(d), v, Pow(B, exp));
    MulCommutes(v, Pow(B, exp));
    MulAssoc(Val(d), Pow(B, exp), v);
    if |d'| == |d| && v > 0 && d != [] && d[|d| - 1] != 0 {
      ValAtLeast(d);
      MulMonotone(1, v, Val(d));
      MulCommutes(v, Val(d));
      TopFromValue(d');
    }
  }

  lemma PushDigit(d: seq<bigit>, carry: nat)
    ensures var e := d + [carry % B];
      Val(e) + carry / B * Pow(B, |e|) == Val(d) + carry * Pow(B, |d|)
  {
    var e, p := d + [carry % B], Pow(B, |d|);
    assert e[..|d|] == d;
    assert carry == (carry / B) * B + carry % B;
    Spread((carry / B) * B, carry % B, p);
    MulAssoc(carry / B, B, p);
    MulCommutes(B, p);
  }

  /** Shifting splits into whole digits and the rest. */
  lemma ShiftValue(v: nat, exp: nat, shift: nat)
    ensures (v * Pow(B, exp + shift / 32)) * Pow(2, shift % 32) == (v * Pow(B, exp)) * Pow(2, shift)
    ensures shift % 32 == 0 ==> v * Pow(B, exp + shift / 32) == (v * Pow(B, exp)) * Pow(2, shift)
  {
    var k, s := shift / 32, shift % 32;
    PowAdd(B, exp, k);
    PowAdd(2, 32 * k, s);
    PowPow(2, 32, k);
    Pow32();
    MulAssoc(v, Pow(B, exp), Pow(B, k));
    MulAssoc(v * Pow(B, exp), Pow(B, k), Pow(2, s));
    assert Pow(2, 0) == 1;
  }

  lemma PowZero(b: nat)
    ensures Pow(b, 0) == 1
  {
  }

  lemma ShiftMeans(v: nat, w: nat, exp': nat, exp: nat, shift: nat)
    requires w == v * Pow(2, shift % 32) && exp' == exp + shift / 32
    ensures w * Pow(B, exp') == (v * Pow(B, exp)) * Pow(2, shift)
  {
    ShiftValue(v, exp, shift);
    var a, b := Pow(2, shift % 32), Pow(B, exp');
    assert (v * a) * b == (v * b) * a by {
      MulAssoc(v, a, b);
      MulAssoc(v, b, a);
      MulCommutes(a, b);
    }
  }

  lemma ShiftStart(d: seq<bigit>, s: nat)
    requires 0 < s < 32
    ensures ShiftDone(d, d, 0, 0, s)
  {
    assert d[..0] == [];
  }

  /** All digits done: the carry becomes the new leading digit. */
  lemma ShiftEnd(d: seq<bigit>, e: seq<bigit>, carry: nat, s: nat)
    requires ShiftDone(d, e, |d|, carry, s)
    ensures carry < B && var f := if carry != 0 then e + [carry] else e;
      Val(f) == Val(d) * Pow(2, s) && (d != [] && d[|d| - 1] != 0 ==> f[|f| - 1] != 0)
  {
    assert e[..|d|] == e && d[..|d|] == d;
    var f := if carry != 0 then e + [carry] else e;
    if carry != 0 {
      PushDigit(e, carry);
      assert carry / B == 0 && carry % B == carry;
    }
    assert Val(f) == Val(e) + carry * Pow(B, |d|);
    hide Val, Pow;
    Scaled(d, f, Pow(2, s), 0);
  }

  /** A single bit stays within one digit. */
  lemma OneShifted(d: seq<bigit>, e: seq<bigit>, s: nat)
    requires Val(e) == Val(d) * Pow(2, s) && 0 < s < 32 && |d| <= |e| <= |d| + 1
    requires d == [1] ==> e[|e| - 1] != 0
    ensures d == [1] ==> |e| == 1
  {
    if d == [1] {
      NumDigit(1, 0);
      assert d[..0] == [];
      PowMonotone(2, s, 31);
      Pow32();
      PowSucc(0);
      assert Val(e) < Pow(B, 1);
      ValAtLeast(e);
    }
  }

  ghost predicate ShiftDone(d: seq<bigit>, e: seq<bigit>, i: nat, carry: nat, s: nat) {
    && i <= |d| == |e| && 0 < s < 32 && carry < Pow(2, s) && carry < B && e[i..] == d[i..]
    && Val(e[..i]) + carry * Pow(B, i) == Val(d[..i]) * Pow(2, s)
  }

  lemma ShiftDoneStep(d: seq<bigit>, e: seq<bigit>, i: nat, carry: nat, s: nat)
    requires ShiftDone(d, e, i, carry, s) && i < |d|
    ensures 0 <= e[i] * Pow(2, s) % B + carry < B && e[i] / Pow(2, 32 - s) >= 0
    ensures ShiftDone(d, e[i := e[i] * Pow(2, s) % B + carry], i + 1, e[i] / Pow(2, 32 - s), s)
  {
    assert e[i] == d[i];
    var p := Pow(2, s);
    Pow32();
    PowMonotone(2, s, 32);
    ShiftStep(d[i], s, carry);
    MulStep(Val(d[..i]), Val(e[..i]), carry, Pow(B, i), d[i], p);
    ValSnoc(d, i);
    var f := e[i := e[i] * p % B + carry];
    assert f[..i] == e[..i] && f[i + 1..] == e[i + 1..] == d[i + 1..];
    ValSnoc(f, i);
    PowSucc(i);
  }

  // ------------------------------------------------------- comparison

  /** The low half of a 64-bit difference, and its sign bit. */
  lemma Borrowed(r: int)
    requires 0 - B - 1 < r < B
    ensures r % M64 % B == r % B && r % M64 / (M64 / 2) == if r < 0 then 1 else 0
  {
    if r < 0 {
      Negative(r);
    }
  }

  lemma Negative(r: int)
    requires 0 - B - 1 < r < 0
    ensures r % M64 == r + M64 && (r + M64) % B == r % B && (r + M64) / (M64 / 2) == 1
  {
    Congruent(r + M64, r, B);
  }

  lemma Congruent(x: int, y: int, k: int)
    requires x == y + k * B
    ensures x % B == y % B
  {
  }

  /** No needless zeros in front; zero itself may be compared if its exponent is not the larger. */
  ghost predicate Comparable(l: BigInt, r: BigInt)
    reads l, r
  {
    r.Normal() && (l.Normal() || (l.bigits == [0] && l.exp <= r.exp))
  }

  lemma SizesDecide(a: seq<bigit>, ea: nat, b: seq<bigit>, eb: nat)
    requires a != [] && a[|a| - 1] != 0 && |a| + ea > |b| + eb
    ensures Num(a, ea) > Num(b, eb)
  {
    NumBound(a, ea);
    NumBound(b, eb);
    PowMonotone(B, |b| + eb, |a| - 1 + ea);
  }

  /** compare: exact, except that equal numbers whose exponents differ count the one with
      the smaller exponent, which has more digits, as the larger. */
  method Compare(lhs: BigInt, rhs: BigInt) returns (c: int)
    ensures Comparable(lhs, rhs) ==> c == Verdict(lhs, rhs)
    ensures c == if lhs.Size() != rhs.Size() then Sign(lhs.Size() - rhs.Size()) else Verdict(lhs, rhs)
  {
    hide Num, Comparable;
    if lhs.Size() != rhs.Size() {
      if Comparable(lhs, rhs) {
        SizesTell(lhs, rhs);
      }
      return if lhs.Size() > rhs.Size() then 1 else -1;
    }
    c := CompareDigits(lhs.bigits, lhs.exp, rhs.bigits, rhs.exp);
  }

  ghost function Verdict(lhs: BigInt, rhs: BigInt): int
    reads lhs, rhs
  {
    if lhs.Value() != rhs.Value() then Sign(lhs.Value() - rhs.Value()) else Sign(rhs.exp - lhs.exp)
  }

  /** Without needless zeros, the size decides. */
  lemma SizesTell(lhs: BigInt, rhs: BigInt)
    requires Comparable(lhs, rhs) && lhs.Size() != rhs.Size()
    ensures Verdict(lhs, rhs) == Sign(lhs.Size() - rhs.Size())
  {
    var a, b := lhs.bigits, rhs.bigits;
    hide Val, Pow;
    if !lhs.Normal() {
      ZeroIsLess(lhs, rhs);
    }
    hide Num;
    if lhs.Size() > rhs.Size() {
      SizesDecide(a, lhs.exp, b, rhs.exp);
    } else if lhs.Normal() {
      SizesDecide(b, rhs.exp, a, lhs.exp);
    }
  }

  /** With a needless zero in front, 1 counts as more than 2. */
  method LeadingZeroMisleads() returns (one: BigInt, two: BigInt, c: int)
    ensures one.Value() == 1 && two.Value() == 2 && c == 1
  {
    one := new BigInt();
    one.bigits := [1, 0];
    two := new BigInt();
    two.bigits := [2];
    assert one.Value() == 1 && two.Value() == 2 by {
      NumDigit(2, 0);
      NumDigit(1, 0);
      NumSplit([1, 0], 0, 1);
      assert [1, 0][..1] == [1] && [1, 0][1..] == [0];
      NumDigit(0, 1);
      PowZero(B);
    }
    c := Compare(one, two);
  }

  /** The loop of compare, for numbers of the same size. */
  method CompareDigits(a: seq<bigit>, ghost ea: nat, b: seq<bigit>, ghost eb: nat) returns (c: int)
    requires |a| + ea == |b| + eb
    ensures c == if Num(a, ea) != Num(b, eb) then Sign(Num(a, ea) - Num(b, eb)) else Sign(eb - ea)
  {
    hide Num;
    var i, j := |a| - 1, |b| - 1;
    var end := if i - j < 0 then 0 else i - j;
    while i >= end
      invariant -1 <= i < |a| && i - j == |a| - |b| && end - 1 <= i
      invariant a[i + 1..] == b[j + 1..]
      decreases i
    {
      if a[i] != b[j] {
        if a[i] > b[j] {
          FirstDifference(a, ea, i, b, eb, j);
          return 1;
        }
        FirstDifference(b, eb, j, a, ea, i);
        return -1;
      }
      assert a[i..] == [a[i]] + a[i + 1..] && b[j..] == [b[j]] + b[j + 1..];
      i, j := i - 1, j - 1;
    }
    if |a| >= |b| {
      LongerIsMore(a, ea, b, eb);
    }
    if |b| >= |a| {
      LongerIsMore(b, eb, a, ea);
    }
    if i != j {
      return if i > j then 1 else -1;
    }
    return 0;
  }

  lemma ZeroIsLess(l: BigInt, r: BigInt)
    requires Comparable(l, r) && !l.Normal()
    ensures l.Value() == 0 < r.Value()
  {
    NumDigit(0, l.exp);
    NumBound(r.bigits, r.exp);
  }

  /** r - (a + b) in the digits from position i on. */
  ghost function Above(a: BigInt, b: BigInt, r: BigInt, i: nat): int
    reads a, b, r
  {
    Hi(r.bigits, r.exp, i) - Hi(a.bigits, a.exp, i) - Hi(b.bigits, b.exp, i)
  }

  /** A difference of less than 0 or of more than 1 in the high digits decides; a difference
      with no digits below it is the whole difference. */
  lemma AboveDecides(a: BigInt, b: BigInt, r: BigInt, i: nat)
    ensures Above(a, b, r, i) < 0 ==> a.Value() + b.Value() > r.Value()
    ensures Above(a, b, r, i) > 1 ==> a.Value() + b.Value() < r.Value()
    ensures i <= a.exp && i <= b.exp && i <= r.exp ==>
      Sign(a.Value() + b.Value() - r.Value()) == -Sign(Above(a, b, r, i))
  {
    HiLow(a.bigits, a.exp, i);
    HiLow(b.bigits, b.exp, i);
    HiLow(r.bigits, r.exp, i);
    LowBound(a.bigits, a.exp, i);
    LowBound(b.bigits, b.exp, i);
    LowBound(r.bigits, r.exp, i);
    var ha, hb, hr := Hi(a.bigits, a.exp, i), Hi(b.bigits, b.exp, i), Hi(r.bigits, r.exp, i);
    hide Hi, Low, Pow, Num, Sign;
    HighDecides(ha, Num(Low(a.bigits, a.exp, i), a.exp), hb, Num(Low(b.bigits, b.exp, i), b.exp),
                hr, Num(Low(r.bigits, r.exp, i), r.exp), Pow(B, i));
  }

  lemma HighDecides(ha: nat, la: nat, hb: nat, lb: nat, hr: nat, lr: nat, p: nat)
    requires la < p && lb < p && lr < p
    ensures var a, b, r, x := ha * p + la, hb * p + lb, hr * p + lr, hr - ha - hb;
      && (x < 0 ==> a + b > r) && (x > 1 ==> a + b < r)
      && (la == lb == lr == 0 ==> Sign(a + b - r) == -Sign(x))
  {
    var x := hr - ha - hb;
    Spread(hr, ha, p);
    Spread(hr - ha, hb, p);
    if x < 0 {
      MulMonotone(x, -1, p);
    } else if x > 0 {
      MulMonotone(if x > 1 then 2 else 1, x, p);
    }
  }

  lemma AboveStep(a: BigInt, b: BigInt, r: BigInt, i: nat)
    requires a.Size() <= r.Size() && b.Size() <= r.Size()
    ensures Above(a, b, r, i) == Above(a, b, r, i + 1) * B
      + Dig(r.bigits, r.exp, i) - Dig(a.bigits, a.exp, i) - Dig(b.bigits, b.exp, i)
    ensures Above(a, b, r, r.Size()) == 0
  {
  }

  lemma SizesDecideSum(a: BigInt, b: BigInt, r: BigInt)
    requires Comparable(a, r) && Comparable(b, r)
    ensures a.Size() + 1 < r.Size() && b.Size() + 1 < r.Size() ==> a.Value() + b.Value() < r.Value()
    ensures a.Size() > r.Size() || b.Size() > r.Size() ==> a.Value() + b.Value() > r.Value()
  {
    hide Num, Pow, Val;
    if a.Size() > r.Size() {
      SizesDecide(a.bigits, a.exp, r.bigits, r.exp);
    } else if b.Size() > r.Size() {
      SizesDecide(b.bigits, b.exp, r.bigits, r.exp);
    } else if a.Size() + 1 < r.Size() && b.Size() + 1 < r.Size() {
      HalfAtMost(a.bigits, a.exp, r.bigits, r.exp);
      HalfAtMost(b.bigits, b.exp, r.bigits, r.exp);
    }
  }

  /** Two digits less make less than half. */
  lemma HalfAtMost(a: seq<bigit>, ea: nat, b: seq<bigit>, eb: nat)
    requires b != [] && b[|b| - 1] != 0 && |a| + ea + 1 < |b| + eb
    ensures 2 * Num(a, ea) < Num(b, eb)
  {
    hide Num, Pow, Val;
    NumBound(a, ea);
    NumBound(b, eb);
    var p := Pow(B, |a| + ea);
    PowMonotone(B, |a| + ea + 1, |b| + eb - 1);
    PowSucc(|a| + ea);
    MulMonotone(2, B, p);
    MulCommutes(p, B);
  }

  /** add_compare: the exact comparison of lhs1 + lhs2 with rhs. */
  method AddCompare(lhs1: BigInt, lhs2: BigInt, rhs: BigInt) returns (c: int)
    ensures Comparable(lhs1, rhs) && Comparable(lhs2, rhs) ==> c == Sign(lhs1.Value() + lhs2.Value() - rhs.Value())
    ensures c == if lhs1.Size() + 1 < rhs.Size() && lhs2.Size() + 1 < rhs.Size() then -1
                 else if lhs1.Size() > rhs.Size() || lhs2.Size() > rhs.Size() then 1
                 else Sign(lhs1.Value() + lhs2.Value() - rhs.Value())
  {
    hide Num, Hi, Dig, Above, Comparable;
    if Comparable(lhs1, rhs) && Comparable(lhs2, rhs) {
      SizesDecideSum(lhs1, lhs2, rhs);
    }
    var max := if lhs1.Size() > lhs2.Size() then lhs1.Size() else lhs2.Size();
    if max + 1 < rhs.Size() {
      return -1;
    }
    if max > rhs.Size() {
      return 1;
    }
    c := AddCompareDigits(lhs1, lhs2, rhs);
  }

  /** The loop of add_compare, for summands no longer than the other side. */
  method AddCompareDigits(lhs1: BigInt, lhs2: BigInt, rhs: BigInt) returns (c: int)
    requires lhs1.Size() <= rhs.Size() && lhs2.Size() <= rhs.Size()
    ensures c == Sign(lhs1.Value() + lhs2.Value() - rhs.Value())
  {
    hide Num, Hi, Dig, Above;
    var borrow := 0;
    var min := if lhs1.exp < lhs2.exp then lhs1.exp else lhs2.exp;
    min := if min < rhs.exp then min else rhs.exp;
    var i := rhs.Size() - 1;
    AboveStep(lhs1, lhs2, rhs, i + 1);
    while i >= min
      invariant min - 1 <= i < rhs.Size()
      invariant borrow == Above(lhs1, lhs2, rhs, i + 1) * B && 0 <= Above(lhs1, lhs2, rhs, i + 1) <= 1
      decreases i
    {
      AboveStep(lhs1, lhs2, rhs, i);
      AboveDecides(lhs1, lhs2, rhs, i);
      var sum := Dig(lhs1.bigits, lhs1.exp, i) + Dig(lhs2.bigits, lhs2.exp, i);
      var digit := Dig(rhs.bigits, rhs.exp, i);
      if sum > digit + borrow {
        return 1;
      }
      borrow := digit + borrow - sum;
      if borrow > 1 {
        return -1;
      }
      borrow := borrow * B;
      i := i - 1;
    }
    AboveDecides(lhs1, lhs2, rhs, i + 1);
    return if borrow != 0 then -1 else 0;
  }

  lemma DividendIsNormal(l: BigInt, d: BigInt)
    requires Comparable(l, d) && l.Value() >= d.Value()
    ensures l.Normal()
  {
    if !l.Normal() {
      ZeroIsLess(l, d);
    }
  }

  /** A quotient of one digit keeps the sizes within one. */
  lemma EnoughDigits(l: BigInt, d: BigInt)
    requires l.Normal() && d.Normal() && d.Value() <= l.Value() < B * d.Value() && l.exp <= d.exp
    ensures d.Size() <= l.Size() <= d.Size() + 1
    ensures BorrowStops(l.bigits, d.exp - l.exp, d.bigits)
  {
    NumBound(l.bigits, l.exp);
    NumBound(d.bigits, d.exp);
    PowSucc(d.Size());
    MulCommutes(B, Pow(B, d.Size()));
    MulMonotone(d.Value(), Pow(B, d.Size()), B);
    MulCommutes(B, d.Value());
    assert l.Value() < Pow(B, d.Size() + 1);
    assert l.Size() <= d.Size() + 1 by {
      if l.Size() > d.Size() + 1 {
        PowMonotone(B, d.Size() + 1, l.Size() - 1);
      }
    }
    assert d.Size() <= l.Size() by {
      if l.Size() < d.Size() {
        PowMonotone(B, l.Size(), d.Size() - 1);
      }
    }
    hide Num, Pow, Val;
    StopsIfShort(l.bigits, l.exp, d.exp - l.exp, d.bigits);
  }

  lemma OneMore(q: nat, d: nat, w: nat)
    ensures q * d + w == (q + 1) * d + (w - d)
  {
    Spread(q, 1, d);
  }

  /** The columns below index are digits of r, the rest of their sum is the carry. */
  ghost predicate Squaring(n: seq<bigit>, r: seq<bigit>, index: nat, sum: nat) {
    && |r| == 2 * |n| && index <= |r| && sum <= |n| * B
    && Val(r[..index]) + sum * Pow(B, index) == Columns(n, n, index)
  }

  lemma SquaringStarts(n: seq<bigit>, r: seq<bigit>)
    requires |r| == 2 * |n|
    ensures Squaring(n, r, 0, 0)
  {
    assert r[..0] == [];
  }

  /** At the end nothing is carried, and the digits are the square. */
  lemma SquaringEnds(n: seq<bigit>, r: seq<bigit>, sum: nat)
    requires Squaring(n, r, |r|, sum)
    ensures Val(r) == Val(n) * Val(n)
  {
    assert r[..|r|] == r;
    ColumnsAreProduct(n, n, |r|);
    ValBound(n);
    PowAdd(B, |n|, |n|);
    hide Pow, Val, Columns;
    var v, p := Val(n), Pow(B, |n|);
    SquareBelow(v, p);
    if sum > 0 {
      MulMonotone(1, sum, p * p);
    }
  }

  lemma SquareNum(n: seq<bigit>, r: seq<bigit>, exp: nat)
    requires Val(r) == Val(n) * Val(n)
    ensures Num(r, exp * 2) == Num(n, exp) * Num(n, exp)
    ensures n != [] && n[|n| - 1] != 0 ==> Num(r, exp * 2) > 0
  {
    PowAdd(B, exp, exp);
    var v, e := Val(n), Pow(B, exp);
    Shuffle(v, v, e, e);
    if n != [] && n[|n| - 1] != 0 {
      ValAtLeast(n);
      MulStrict(0, v, v);
      MulStrict(0, v * v, e * e);
    }
  }

  lemma SquareBelow(v: nat, p: nat)
    requires v < p
    ensures v * v < p * p
  {
    MulMonotone(v, p, v);
    MulCommutes(p, v);
    MulStrict(v, p, p);
  }

  lemma NonzeroIsNotZero(d: seq<bigit>, e: nat)
    ensures Num(d, e) > 0 ==> d != [0]
  {
    if d == [0] {
      NumDigit(0, e);
    }
  }

  lemma TenIsFiveTwos(e: nat)
    ensures Pow(5, e) * Pow(2, e) == Pow(10, e)
  {
    PowProduct(5, 2, e);
  }

  lemma MaskStarts()
    ensures Pow(2, 0) == 1
  {
  }

  lemma MaskDoubles(k: nat)
    ensures Pow(2, k + 1) == 2 * Pow(2, k)
  {
  }

  lemma MaskHalves(k: nat)
    ensures Pow(2, k) / 2 == if k == 0 then 0 else Pow(2, k - 1)
  {
  }

  lemma FiveOnce()
    ensures Pow(5, 1) == 5
  {
    assert Pow(5, 0) == 1;
  }

  /** One more bit of the exponent: square, and multiply if the bit is set. */
  lemma PowerStep(e: nat, k: nat)
    requires k > 0
    ensures var p := Pow(5, Top(e, k));
      Pow(5, Top(e, k - 1)) == if And(e, Pow(2, k - 1)) != 0 then p * p * 5 else p * p
    ensures Top(e, k - 1) == 2 * Top(e, k) + if And(e, Pow(2, k - 1)) != 0 then 1 else 0
    ensures Top(e, k) <= e
  {
    TopStep(e, k);
    TopBelow(e, k);
    hide Top, And, Pow;
    var h := Top(e, k);
    PowAdd(5, h, h);
    assert Pow(5, 2 * h + 1) == Pow(5, h + h) * 5;
  }

  lemma {:induction false} TopBelow(e: nat, k: nat)
    ensures Top(e, k) <= e
    decreases k
  {
    if k == 0 {
      TopAll(e);
    } else {
      TopBelow(e, k - 1);
      TopStep(e, k);
      hide Top;
    }
  }

  // ------------------------------------------------------- equal numbers, different exponents

  lemma SameNumber()
    ensures Num([0, 1], 0) == Num([1], 1) == B
  {
    NumSplit([0, 1], 0, 1);
    assert [0, 1][..1] == [0] && [0, 1][1..] == [1];
    NumDigit(0, 0);
    NumDigit(1, 1);
    PowSucc(0);
    PowZero(B);
  }

  /** 2^32 with one digit and with two: compare calls them different, and dividing one by the
      other gives the quotient 0. */
  method EqualNumbersDiffer() returns (one: BigInt, two: BigInt, c: int, quotient: nat)
    ensures one.Value() == two.Value() == B && one.exp == 1 && two.exp == 0
    ensures c == -1 && quotient == 0
  {
    SameNumber();
    one := new BigInt();
    one.bigits, one.exp := [1], 1;
    two := new BigInt();
    two.bigits := [0, 1];
    hide Num, Val, Pow;
    c := Compare(one, two);
    quotient := one.DivmodAssign(two);
  }
}
