/** fallback_format without a given number of digits: the shortest decimal between the
    boundaries of a floating-point number, and of those of its length the nearest. */
module Shortest {
  import opened Bits
  import opened Digits
  import opened BigInts
  import opened Dragon

  // ------------------------------------------------------- what is promised

  /** The numbers that are read back as n / d: from (n - l) / d to (n + u) / d, with or
      without the ends. */
  datatype Range = Range(n: nat, d: nat, l: nat, u: nat, closedBelow: bool, closedAbove: bool)

  predicate Within(y: int, l: int, u: int, closedBelow: bool, closedAbove: bool) {
    && (-y < l || (closedBelow && -y == l))
    && (y < u || (closedAbove && y == u))
  }

  /** How far x 10^-k is from n / d, in units of 1 / (d 10^k). */
  ghost function Off(r: Range, k: nat, x: int): int {
    x * r.d - r.n * Pow(10, k)
  }

  /** x 10^-k is in the range. */
  ghost predicate In(r: Range, k: nat, x: int) {
    Within(Off(r, k, x), r.l * Pow(10, k), r.u * Pow(10, k), r.closedBelow, r.closedAbove)
  }

  function Abs(x: int): int {
    if x < 0 then -x else x
  }

  /** Of the numbers with k places in the range, x is the nearest, the even one of two. */
  ghost predicate Nearest(r: Range, k: nat, x: int) {
    && In(r, k, x)
    && forall z :: In(r, k, z) ==>
         || z == x || Abs(Off(r, k, x)) < Abs(Off(r, k, z))
         || (Abs(Off(r, k, x)) == Abs(Off(r, k, z)) && x % 2 == 0)
  }

  /** Nothing with fewer places is in the range. */
  ghost predicate NoneShorter(r: Range, k: nat) {
    forall j: nat, z :: j < k ==> !In(r, j, z)
  }

  // ------------------------------------------------------- ranges

  /** One place more is a factor of ten. */
  lemma OneMorePlace(r: Range, k: nat, x: int)
    ensures In(r, k + 1, 10 * x) <==> In(r, k, x)
  {
    TenTimes(k);
    hide Pow;
    var p := Pow(10, k);
    MulAssoc(10, x, r.d);
    MulAssoc(r.n, p, 10);
    MulAssoc(r.l, p, 10);
    MulAssoc(r.u, p, 10);
  }

  /** What is left after the digits e of the value: which of e and e + 1 are in the range. */
  lemma Neighbours(r: Range, k: nat, e: int, rem: nat)
    requires r.n * Pow(10, k) == e * r.d + rem && rem < r.d && r.l > 0 && r.u > 0
    ensures Off(r, k, e) == 0 - rem && Off(r, k, e + 1) == r.d - rem
    ensures In(r, k, e) <==> rem < r.l * Pow(10, k) || (r.closedBelow && rem == r.l * Pow(10, k))
    ensures In(r, k, e + 1) <==>
      rem + r.u * Pow(10, k) > r.d || (r.closedAbove && rem + r.u * Pow(10, k) == r.d)
  {
    PowPositive(10, k);
    hide Pow;
    Spread(e, 1, r.d);
    TimesPositive(r.l, Pow(10, k));
    TimesPositive(r.u, Pow(10, k));
  }

  lemma {:induction false} PowPositive(b: nat, k: nat)
    requires b > 0
    ensures Pow(b, k) > 0
  {
    if k > 0 {
      PowPositive(b, k - 1);
      TimesPositive(Pow(b, k - 1), b);
    }
  }

  /** How far another number is. */
  lemma OthersFarther(r: Range, k: nat, e: int, rem: nat, z: int)
    requires r.n * Pow(10, k) == e * r.d + rem && rem < r.d
    ensures z < e ==> Off(r, k, z) <= 0 - rem - r.d
    ensures z > e + 1 ==> Off(r, k, z) >= (r.d - rem) + r.d
  {
    hide Pow;
    Spread(z, e, r.d);
    if z < e {
      MulMonotone(z - e, -1, r.d);
    } else if z > e + 1 {
      MulMonotone(2, z - e, r.d);
    }
  }

  /** If another number is in the range, so is the neighbour on its side. */
  lemma NeighbourIsIn(r: Range, k: nat, e: int, rem: nat, z: int)
    requires r.n * Pow(10, k) == e * r.d + rem && rem < r.d && r.l > 0 && r.u > 0 && In(r, k, z)
    ensures z <= e ==> In(r, k, e)
    ensures z > e ==> In(r, k, e + 1)
  {
    Neighbours(r, k, e, rem);
    OthersFarther(r, k, e, rem, z);
    hide Pow, Off;
  }

  /** The last digit: the only neighbour in the range, or the nearer one. */
  lemma LastDigit(r: Range, k: nat, e: int, rem: nat, up: bool)
    requires r.n * Pow(10, k) == e * r.d + rem && rem < r.d && r.l > 0 && r.u > 0
    requires In(r, k, e) || In(r, k, e + 1)
    requires up <==> !In(r, k, e) || (In(r, k, e + 1) && (2 * rem > r.d || (2 * rem == r.d && e % 2 != 0)))
    ensures Nearest(r, k, if up then e + 1 else e)
  {
    var x := if up then e + 1 else e;
    Neighbours(r, k, e, rem);
    hide Pow, Off, In;
    forall z | In(r, k, z)
      ensures z == x || Abs(Off(r, k, x)) < Abs(Off(r, k, z))
        || (Abs(Off(r, k, x)) == Abs(Off(r, k, z)) && x % 2 == 0)
    {
      NeighbourIsIn(r, k, e, rem, z);
      OthersFarther(r, k, e, rem, z);
    }
  }

  // ------------------------------------------------------- the digit loop

  /** The state of the loop: |buf| digits are out, and nothing as short is in the range. */
  ghost predicate Digging(r: Range, num: BigInt, den: BigInt, lower: BigInt, upper: BigInt, exp: nat, buf: string)
    reads num, den, lower, upper
  {
    && Comparable(num, den) && Fits(num, den) && den.Value() == r.d && Remaining(r.n, r.d, buf, num.Value())
    && lower.Normal() && lower.Value() == r.l * Pow(10, |buf|) && lower.exp == exp
    && upper.Normal() && upper.Value() == r.u * Pow(10, |buf|)
    && num.exp == (if Dec(buf) > 0 && exp > den.exp then den.exp else exp)
    && NoneShorter(r, |buf|)
  }

  /** compare(numerator, lower) - even < 0 asks whether the digits are in the range, of which
      the lower end is lost if the exponents differ. */
  lemma LowTells(r: Range, k: nat, e: int, rem: nat, c: int, even: bool, numExp: nat, denExp: nat, exp: nat)
    requires r.n * Pow(10, k) == e * r.d + rem && rem < r.d && r.n > r.l > 0 && r.u > 0
    requires c == if rem != r.l * Pow(10, k) then Sign(rem - r.l * Pow(10, k)) else Sign(exp - numExp)
    requires numExp == if e > 0 && exp > denExp then denExp else exp
    requires r.closedBelow == (even && denExp >= exp)
    ensures c - (if even then 1 else 0) < 0 <==> In(r, k, e)
  {
    Neighbours(r, k, e, rem);
    PowPositive(10, k);
    hide Pow, In, Off;
    if rem == r.l * Pow(10, k) {
      MulStrict(r.l, r.n, Pow(10, k));
      assert e * r.d > 0;
      assert e > 0 by {
        if e <= 0 {
          MulMonotone(e, 0, r.d);
        }
      }
    }
  }

  /** numerator + upper >[=] pow10, the same for the next number. */
  lemma HighTells(r: Range, k: nat, e: int, rem: nat, h: int, even: bool)
    requires r.n * Pow(10, k) == e * r.d + rem && rem < r.d && r.l > 0 && r.u > 0
    requires h == Sign(rem + r.u * Pow(10, k) - r.d) && r.closedAbove == even
    ensures h + (if even then 1 else 0) > 0 <==> In(r, k, e + 1)
  {
    Neighbours(r, k, e, rem);
    hide Pow, In, Off;
  }

  lemma BothComparable(num: BigInt, den: BigInt, other: BigInt)
    requires Comparable(num, den) && other.Normal()
    ensures Comparable(other, den) && (num.exp <= other.exp ==> Comparable(num, other))
  {
  }

  /** The two comparisons of a turn: are the digits e, or the next number, in the range? */
  method Judge(num: BigInt, den: BigInt, lower: BigInt, upper: BigInt, even: bool, ghost r: Range, ghost k: nat,
               ghost e: nat)
    returns (low: bool, high: bool)
    requires Comparable(num, den) && den.Value() == r.d && num.Value() < r.d && r.n > r.l > 0 && r.u > 0
    requires lower.Normal() && lower.Value() == r.l * Pow(10, k)
    requires upper.Normal() && upper.Value() == r.u * Pow(10, k)
    requires r.n * Pow(10, k) == e * r.d + num.Value()
    requires num.exp == if e > 0 && lower.exp > den.exp then den.exp else lower.exp
    requires r.closedAbove == even && r.closedBelow == (even && den.exp >= lower.exp)
    ensures (low <==> In(r, k, e)) && (high <==> In(r, k, e + 1))
  {
    hide Num, Pow, In, Comparable;
    BothComparable(num, den, lower);
    BothComparable(num, den, upper);
    var c := Compare(num, lower);
    low := c - (if even then 1 else 0) < 0;
    var h := AddCompare(num, upper, den);
    high := h + (if even then 1 else 0) > 0;
    LowTells(r, k, e, num.Value(), c, even, num.exp, den.exp, lower.exp);
    HighTells(r, k, e, num.Value(), h, even);
  }

  /** One digit, and whether it or the next one ends in the range. */
  method TakeDigit(num: BigInt, den: BigInt, lower: BigInt, upper: BigInt, even: bool, ghost r: Range, ghost exp: nat,
                   ghost buf: string)
    returns (digit: nat, low: bool, high: bool)
    requires num != den && num != lower && num != upper && Digging(r, num, den, lower, upper, exp, buf)
    requires r.closedAbove == even && r.closedBelow == (even && den.exp >= exp)
    requires r.n > r.l > 0 && r.u > 0
    modifies num
    ensures digit <= 9 && Dug(r, num, den, buf, digit, exp)
    ensures var e := 10 * Dec(buf) + digit; (low <==> In(r, |buf|, e)) && (high <==> In(r, |buf|, e + 1))
  {
    hide Num, Pow, Dec, Fits, In, NoneShorter, IsDecimal, Char, Comparable, Remaining;
    ghost var was := num.Value();
    DigitsAreNat(r.n, r.d, buf, was);
    ghost var tens := Dec(buf);
    digit := Divide(num, den);
    DigitTells(r.n, r.d, buf, was, digit, num.Value());
    low, high := Judge(num, den, lower, upper, even, r, |buf|, 10 * tens + digit);
  }

  /** What is known once a digit has been taken. */
  ghost predicate Dug(r: Range, num: BigInt, den: BigInt, buf: string, digit: nat, exp: nat)
    reads num, den
  {
    var e := 10 * Dec(buf) + digit;
    && Comparable(num, den) && Fits(num, den) && den.Value() == r.d && num.Value() < r.d && digit <= 9
    && IsDecimal(buf) && e >= 0 && r.n * Pow(10, |buf|) == e * r.d + num.Value()
    && Remaining(r.n, r.d, buf + [Char(digit)], num.Value() * 10)
    && num.exp == (if e > 0 && exp > den.exp then den.exp else exp)
  }

  lemma DigitsAreNat(n: nat, d: nat, digits: string, num: nat)
    requires Remaining(n, d, digits, num)
    ensures Dec(digits) >= 0 && IsDecimal(digits) && num < 10 * d
  {
    DecIsNat(digits);
  }

  lemma DigitTells(n: nat, d: nat, digits: string, num: nat, q: nat, rem: nat)
    requires Remaining(n, d, digits, num) && d > 0 && num == q * d + rem && rem < d
    ensures q <= 9 && Remaining(n, d, digits + [Char(q)], rem * 10)
    ensures n * Pow(10, |digits|) == (10 * Dec(digits) + q) * d + rem
    ensures Dec(digits + [Char(q)]) == 10 * Dec(digits) + q
  {
    hide Remaining, Dec, Pow, Char, IsDecimal;
    NextDigit(n, d, digits, num, q, rem);
    DecSnoc(digits, Char(q));
    CharIsDigit(q);
  }

  lemma CharIsDigit(q: nat)
    requires q <= 9
    ensures Digit(Char(q)) == q
  {
  }

  /** The loop of the shortest representation. A last digit of 10 is written as ':'. */
  method ShortestDigits(num: BigInt, den: BigInt, lower: BigInt, upper': BigInt?, even: bool, ghost r: Range,
                        ghost exp: nat)
    returns (buf: string)
    requires num != den && lower !in {num, den} && upper' !in {num, den, lower}
    requires Digging(r, num, den, lower, if upper' == null then lower else upper', exp, [])
    requires r.closedAbove == even && r.closedBelow == (even && den.exp >= exp)
    requires r.n > r.l > 0 && r.u > 0
    modifies num, lower, upper'
    ensures buf != [] && NoneShorter(r, |buf| - 1) && Nearest(r, |buf| - 1, Dec(buf))
    ensures IsDecimal(buf) || buf == [OVERFLOW]
  {
    var upper: BigInt := if upper' == null then lower else upper';
    buf := [];
    hide Digging, Nearest, NoneShorter, Dug, In, Dec, IsDecimal, Num;
    while true
      invariant Digging(r, num, den, lower, upper, exp, buf) && den.exp == old(den.exp)
      decreases Left(lower, r.d)
    {
      DiggingTells(r, num, den, lower, upper, exp, buf);
      var digit, low, high := TakeDigit(num, den, lower, upper, even, r, exp, buf);
      if low || high {
        buf := LastOne(num, den, buf, digit, low, high, r, exp);
        return;
      }
      ghost var before := buf;
      buf := buf + [Char(digit)];
      TimesTenAll(num, den, lower, upper, r, exp, before, digit);
    }
  }

  ghost function Left(lower: BigInt, d: nat): nat
    reads lower
  {
    if lower.Value() < d then d - lower.Value() else 0
  }

  lemma DiggingTells(r: Range, num: BigInt, den: BigInt, lower: BigInt, upper: BigInt, exp: nat, buf: string)
    requires Digging(r, num, den, lower, upper, exp, buf)
    ensures NoneShorter(r, |buf|)
  {
  }

  /** All three times ten. */
  method TimesTenAll(num: BigInt, den: BigInt, lower: BigInt, upper: BigInt, ghost r: Range, ghost exp: nat,
                     ghost buf: string, ghost digit: nat)
    requires num != den && lower !in {num, den} && upper !in {num, den}
    requires Dug(r, num, den, buf, digit, exp) && NoneShorter(r, |buf|) && r.n > r.l > 0 && r.u > 0
    requires lower.Normal() && lower.Value() == r.l * Pow(10, |buf|) && lower.exp == exp
    requires upper.Normal() && upper.Value() == r.u * Pow(10, |buf|)
    requires var e := 10 * Dec(buf) + digit; !In(r, |buf|, e) && !In(r, |buf|, e + 1)
    modifies num, lower, upper
    ensures Digging(r, num, den, lower, upper, exp, buf + [Char(digit)])
    ensures Left(lower, r.d) < old(Left(lower, r.d))
  {
    hide Num, Pow, Dec, In, NoneShorter, IsDecimal, Char, Comparable, Fits, Remaining;
    ghost var k, e := |buf|, 10 * Dec(buf) + digit;
    NothingHere(r, k, e, num.Value());
    TenMorePlaces(r, k);
    DecSnoc(buf, Char(digit));
    CharIsDigit(digit);
    TimesTen(num, den);
    lower.Multiply32(10);
    if upper != lower {
      upper.Multiply32(10);
    }
  }

  lemma TenMorePlaces(r: Range, k: nat)
    ensures r.l * Pow(10, k + 1) == r.l * Pow(10, k) * 10 && r.u * Pow(10, k + 1) == r.u * Pow(10, k) * 10
  {
    TenTimes(k);
    MulAssoc(r.l, Pow(10, k), 10);
    MulAssoc(r.u, Pow(10, k), 10);
  }

  /** If neither neighbour is in the range, no number with as many places is. */
  lemma NothingHere(r: Range, k: nat, e: int, rem: nat)
    requires r.n * Pow(10, k) == e * r.d + rem && rem < r.d && r.l > 0 && r.u > 0
    requires NoneShorter(r, k) && !In(r, k, e) && !In(r, k, e + 1)
    ensures NoneShorter(r, k + 1) && 0 < r.l * Pow(10, k) <= rem
  {
    Neighbours(r, k, e, rem);
    PowPositive(10, k);
    TimesPositive(r.l, Pow(10, k));
    hide In, Pow;
    forall j: nat, z | j < k + 1
      ensures !In(r, j, z)
    {
      if j == k && In(r, k, z) {
        NeighbourIsIn(r, k, e, rem, z);
      }
    }
  }

  /** The last digit, in the range and the nearest. */
  method LastOne(num: BigInt, den: BigInt, digits: string, digit: nat, low: bool, high: bool, ghost r: Range,
                 ghost exp: nat)
    returns (buf: string)
    requires Dug(r, num, den, digits, digit, exp) && NoneShorter(r, |digits|) && r.l > 0 && r.u > 0
    requires var e := 10 * Dec(digits) + digit; (low <==> In(r, |digits|, e)) && (high <==> In(r, |digits|, e + 1))
    requires low || high
    ensures |buf| == |digits| + 1 && Nearest(r, |digits|, Dec(buf)) && (IsDecimal(buf) || buf == [OVERFLOW])
  {
    hide Num, Pow, Dec, In, NoneShorter, IsDecimal, Char, Comparable, Fits, Remaining, Nearest, Sign;
    ghost var k, e := |digits|, 10 * Dec(digits) + digit;
    var last := digit;
    if !low {
      last := last + 1;
    } else if high {
      var result := AddCompare(num, num, den);
      RoundsUp(result, num.Value(), den.Value(), Dec(digits), digit);
      if result > 0 || (result == 0 && digit % 2 != 0) {
        last := last + 1;
      }
    }
    LastDigit(r, k, e, num.Value(), last == digit + 1);
    if last == 10 {
      OnlyAtFirst(r, digits);
    }
    buf := digits + [Char(last)];
    LastWritten(digits, last);
  }

  /** A last digit of 10 can only be the first. */
  lemma OnlyAtFirst(r: Range, digits: string)
    requires IsDecimal(digits) && NoneShorter(r, |digits|) && In(r, |digits|, 10 * Dec(digits) + 10)
    ensures digits == []
  {
    hide In;
    if digits != [] {
      OneMorePlace(r, |digits| - 1, Dec(digits) + 1);
      assert false;
    }
  }

  lemma LastWritten(digits: string, last: nat)
    requires IsDecimal(digits) && last <= 10
    ensures Dec(digits + [Char(last)]) == 10 * Dec(digits) + last
    ensures last <= 9 ==> IsDecimal(digits + [Char(last)])
    ensures last == 10 ==> Char(last) == OVERFLOW
  {
    DecSnoc(digits, Char(last));
    hide Dec;
  }

  // ------------------------------------------------------- fallback_format

  /** r is the range of f 2^e in units of 10^exp10: half the way to the neighbours, with the
      ends if f is even, but for the lower end in numbers with large exponents. */
  ghost predicate IsRange(r: Range, f: nat, e: int, closer: bool, exp10: int) {
    && Represents(r.n, r.d, f, e, exp10)
    && r.l > 0 && r.n == f * (if closer then 4 else 2) * r.l && r.u == (if closer then 2 else 1) * r.l
    && r.closedAbove == (f % 2 == 0) && r.closedBelow == (f % 2 == 0 && !LosesEnd(e, exp10))
  }

  /** The range that the code computes. */
  ghost function RangeOf(f: nat, e: int, closer: bool, exp10: int): Range {
    var l := GapOf(e, exp10);
    Range(f * (if closer then 4 else 2) * l, DenOf(e, closer, exp10), l, (if closer then 2 else 1) * l,
          f % 2 == 0 && !LosesEnd(e, exp10), f % 2 == 0)
  }

  /** The numbers that are read back as f 2^e. */
  ghost function ReadBack(f: nat, e: int, closer: bool, exp10: int): Range {
    RangeOf(f, e, closer, exp10).(closedBelow := f % 2 == 0)
  }

  /** lower then has a larger exponent than the numerator, and compare does not see that they
      are equal. */
  predicate LosesEnd(e: int, exp10: int) {
    e >= 0 && exp10 / 32 < e / 32
  }

  /** fallback_format with num_digits < 0. Nothing shorter is in the range that the code
      computes, and nothing nearer of the same length. The one digit is a colon exactly if ten
      is the nearest; and what is written is read back as the value, but shorter numbers are,
      too, exactly if the lower end is lost and is one. */
  method FallbackShortest(f: nat, e: int, closer: bool, exp10: int) returns (buf: string, exp: int)
    requires 0 < f < 0x4000_0000_0000_0000 && (e >= 0 ==> exp10 >= 0)
    requires -0x4000_0000 < exp10 < 0x4000_0000 && Below(f, e, exp10 + 1)
    ensures IsRange(RangeOf(f, e, closer, exp10), f, e, closer, exp10)
    ensures buf != [] && exp == exp10 - (|buf| - 1)
    ensures var r, k := RangeOf(f, e, closer, exp10), |buf| - 1;
      && NoneShorter(r, k) && Nearest(r, k, Dec(buf))
      && (buf == [OVERFLOW] <==> TenWins(r)) && (IsDecimal(buf) <==> !TenWins(r))
      && In(ReadBack(f, e, closer, exp10), k, Dec(buf))
      && (NoneShorter(ReadBack(f, e, closer, exp10), k) <==> !EndIsShorter(r))
  {
    hide Num, Represents, Below, Fits, Dec, Nearest, NoneShorter, IsDecimal, In, TenWins, EndIsShorter, GapOf, DenOf;
    var num, den, lower, upper := Prepare(f, e, closer, exp10);
    var even := f % 2 == 0;
    ghost var r := RangeOf(f, e, closer, exp10);
    assert r == Range(num.Value(), den.Value(), lower.Value(), if upper == null then lower.Value() else upper.Value(),
                      even && den.exp >= lower.exp, even);
    DiggingStarts(r, num, den, lower, if upper == null then lower else upper);
    RangeStarts(f, lower, if closer then 4 else 2);
    buf := ShortestDigits(num, den, lower, upper, even, r, lower.exp);
    exp := exp10 - (|buf| - 1);
    ColonExactly(r, buf);
    NearestIsIn(r, |buf| - 1, Dec(buf));
    EndExactly(r, |buf| - 1, Dec(buf));
  }

  lemma NearestIsIn(r: Range, k: nat, x: int)
    requires Nearest(r, k, x)
    ensures In(r, k, x)
  {
  }

  lemma DiggingStarts(r: Range, num: BigInt, den: BigInt, lower: BigInt, upper: BigInt)
    requires num.Normal() && den.Normal() && Fits(num, den) && num.Value() < 10 * den.Value()
    requires lower.Normal() && upper.Normal() && num.exp == lower.exp
    requires r.n == num.Value() && r.d == den.Value() && r.l == lower.Value() && r.u == upper.Value()
    ensures Digging(r, num, den, lower, upper, lower.exp, [])
  {
    RemainingStarts(r.n, r.d);
    TimesOne(r.l);
    TimesOne(r.u);
    hide Num, Pow, Fits, Remaining;
    assert Dec([]) == 0;
  }

  lemma RangeStarts(f: nat, lower: BigInt, k: nat)
    requires lower.Normal() && f > 0 && k > 1
    ensures 0 < lower.Value() < f * k * lower.Value()
  {
    NumBound(lower.bigits, lower.exp);
    PowPositive(B, |lower.bigits| - 1 + lower.exp);
    hide Num, Val, Pow;
    MulMonotone(1, f, k);
    MulStrict(1, f * k, lower.Value());
  }

  // ------------------------------------------------------- ten as a digit

  /** Ten is in the range, and nine is not or is farther from the value. */
  predicate TenWins(r: Range) {
    && Within(10 * r.d - r.n, r.l, r.u, r.closedBelow, r.closedAbove)
    && (Within(9 * r.d - r.n, r.l, r.u, r.closedBelow, r.closedAbove) ==> 2 * r.n >= 19 * r.d)
  }

  lemma WholeIn(r: Range, x: int)
    ensures Off(r, 0, x) == x * r.d - r.n
    ensures In(r, 0, x) <==> Within(x * r.d - r.n, r.l, r.u, r.closedBelow, r.closedAbove)
  {
    PowZero(10);
    hide Pow;
    TimesOne(r.n);
    TimesOne(r.l);
    TimesOne(r.u);
  }

  lemma TenIsNearest(r: Range)
    requires r.n < 10 * r.d && r.l > 0 && r.u > 0
    ensures TenWins(r) <==> Nearest(r, 0, 10)
  {
    WholeIn(r, 10);
    WholeIn(r, 9);
    hide In, Off, Pow;
    if TenWins(r) {
      forall z | In(r, 0, z)
        ensures z == 10 || Abs(Off(r, 0, 10)) <= Abs(Off(r, 0, z))
      {
        WholeIn(r, z);
        if z > 10 {
          MulMonotone(11, z, r.d);
        } else if z < 9 {
          MulMonotone(z, 8, r.d);
        }
      }
    }
  }

  /** Only one number with no places is the nearest, if ten is. */
  lemma OnlyTen(r: Range, x: int)
    requires r.n < 10 * r.d && r.l > 0 && r.u > 0 && Nearest(r, 0, 10) && Nearest(r, 0, x)
    ensures x == 10
  {
    WholeIn(r, 10);
    WholeIn(r, x);
    hide In, Off, Pow;
    if x != 10 {
      var m := (x + 10) / 2;
      WholeIn(r, m);
      assert x % 2 == 0 && x == 2 * m - 10;
      Spread(2 * m, 10, r.d);
      MulAssoc(2, m, r.d);
      assert false;
    }
  }

  lemma ColonExactly(r: Range, buf: string)
    requires r.n < 10 * r.d && r.l > 0 && r.u > 0 && buf != []
    requires NoneShorter(r, |buf| - 1) && Nearest(r, |buf| - 1, Dec(buf)) && (IsDecimal(buf) || buf == [OVERFLOW])
    ensures (buf == [OVERFLOW] <==> TenWins(r)) && (IsDecimal(buf) <==> !TenWins(r))
  {
    TenIsNearest(r);
    DecOne(OVERFLOW);
    hide Nearest, NoneShorter, TenWins, Dec, In;
    if Nearest(r, 0, 10) {
      NearestIsIn(r, 0, 10);
      AtMost(r, |buf| - 1, 0, 10);
      OnlyTen(r, Dec(buf));
      if IsDecimal(buf) {
        OneDigit(buf);
        assert false;
      }
    }
  }

  lemma AtMost(r: Range, k: nat, j: nat, z: int)
    requires NoneShorter(r, k) && In(r, j, z)
    ensures k <= j
  {
  }

  // ------------------------------------------------------- the lower end that is lost

  /** z 10^-j is the lower end of the range. */
  ghost predicate IsLowerEnd(r: Range, j: nat, z: int) {
    z * r.d == (r.n - r.l) * Pow(10, j)
  }

  /** With both ends treated alike, the digits are still in the range, and they are the
      shortest if and only if the end is not lost or is not a shorter decimal itself. */
  lemma TrulyShortest(r: Range, k: nat, x: int)
    requires r.l > 0 && (r.closedBelow ==> r.closedAbove) && NoneShorter(r, k) && In(r, k, x)
    ensures var t := r.(closedBelow := r.closedAbove);
      && In(t, k, x)
      && (NoneShorter(t, k) <==>
            r.closedBelow == r.closedAbove || forall j: nat, z :: j < k ==> !IsLowerEnd(r, j, z))
  {
    var t := r.(closedBelow := r.closedAbove);
    forall j: nat, z: int
      ensures In(t, j, z) <==> In(r, j, z) || (r.closedAbove && IsLowerEnd(r, j, z))
    {
      AtTheEnd(r, j, z);
    }
    hide In, IsLowerEnd;
  }

  lemma AtTheEnd(r: Range, j: nat, z: int)
    requires r.closedBelow ==> r.closedAbove
    ensures In(r.(closedBelow := r.closedAbove), j, z) <==>
      In(r, j, z) || (r.closedAbove && IsLowerEnd(r, j, z))
  {
    var p := Pow(10, j);
    Spread(r.n, r.l, p);
    MulMonotone(0, r.u, p);
    MulMonotone(0, r.l, p);
  }

  /** The range is narrower than one unit of the j-th place. */
  ghost predicate Narrow(r: Range, j: nat) {
    (r.l + r.u) * Pow(10, j) < r.d
  }

  /** The lower end belongs to the range and is lost, and it is a decimal with so few places
      that no other number in the range has as few. */
  ghost predicate EndIsShorter(r: Range) {
    r.closedAbove && !r.closedBelow && exists j: nat, z :: IsLowerEnd(r, j, z) && Narrow(r, j)
  }

  /** The next number behind the lower end is in the range unless that is narrow. */
  lemma NextToEnd(r: Range, j: nat, z: int)
    requires r.closedAbove && !r.closedBelow && r.d > 0 && IsLowerEnd(r, j, z)
    ensures In(r, j, z + 1) <==> !Narrow(r, j)
    ensures forall w :: In(r, j, w) && Narrow(r, j) ==> w <= z
    ensures !In(r, j, z) && forall w :: w < z ==> !In(r, j, w)
  {
    var p := Pow(10, j);
    hide Pow;
    Spread(r.n, r.l, p);
    Spread(r.l, r.u, p);
    Spread(z, 1, r.d);
    MulMonotone(0, r.l, p);
    forall w
      ensures w > z ==> Off(r, j, w) >= r.d - r.l * p
      ensures w < z ==> Off(r, j, w) < 0 - r.l * p
    {
      if w > z {
        MulMonotone(z + 1, w, r.d);
      } else if w < z {
        MulStrict(w, z, r.d);
      }
    }
  }

  /** When shorter numbers than the ones written are read back as the value. */
  lemma EndExactly(r: Range, k: nat, x: int)
    requires r.l > 0 && r.d > 0 && (r.closedBelow ==> r.closedAbove) && NoneShorter(r, k) && In(r, k, x)
    ensures var t := r.(closedBelow := r.closedAbove);
      In(t, k, x) && (NoneShorter(t, k) <==> !EndIsShorter(r))
  {
    TrulyShortest(r, k, x);
    hide In, NoneShorter;
    if r.closedAbove && !r.closedBelow {
      forall j: nat, z | IsLowerEnd(r, j, z)
        ensures j < k <==> Narrow(r, j)
      {
        NextToEnd(r, j, z);
        if !Narrow(r, j) {
          AtMost(r, k, j, z + 1);
        } else if k <= j {
          var w := InScaled(r, k, x, j);
        }
      }
    }
  }

  /** The same number with more places. */
  lemma {:induction false} InScaled(r: Range, k: nat, x: int, j: nat) returns (z: int)
    requires k <= j && In(r, k, x)
    ensures In(r, j, z)
    decreases j - k
  {
    hide In;
    z := x;
    if k < j {
      OneMorePlace(r, k, x);
      z := InScaled(r, k + 1, 10 * x, j);
    }
  }

  /** 8344650268554688 * 2^32 is 3584 * 10^22 + 2^31, and the lower end of its range is
      3584 * 10^22: four digits would do, and more are written. */
  method LongerThanNeeded() returns (buf: string, exp: int)
    ensures var r := RangeOf(8344650268554688, 32, false, 25);
      && EndIsShorter(r) && In(ReadBack(8344650268554688, 32, false, 25), 3, 3584) && |buf| > 4
      && NoneShorter(r, |buf| - 1) && Nearest(r, |buf| - 1, Dec(buf))
  {
    FourDigitsBelow();
    ghost var r := RangeOf(8344650268554688, 32, false, 25);
    hide Below, IsRange, Nearest, NoneShorter, In, Dec, Represents, IsDecimal, RangeOf, EndIsShorter, TenWins;
    buf, exp := FallbackShortest(8344650268554688, 32, false, 25);
    FourDigits(r);
    NearestIsIn(r, |buf| - 1, Dec(buf));
    EndAtThree(r, |buf| - 1, Dec(buf));
  }

  lemma FourDigitsBelow()
    ensures Below(8344650268554688, 32, 26)
  {
    Powers();
    hide Pow;
  }

  lemma Powers()
    ensures Pow(2, 0) == Pow(10, 0) == 1 && Pow(2, 24) == 0x100_0000 && Pow(2, 32) == 0x1_0000_0000
    ensures Pow(10, 22) == 10000000000000000000000 && Pow(10, 23) == 100000000000000000000000
    ensures Pow(10, 25) == 10000000000000000000000000 && Pow(10, 26) == 100000000000000000000000000
  {
    Pow32();
    assert Pow(2, 8) == 256;
    PowAdd(2, 8, 8);
    PowAdd(2, 16, 8);
    assert Pow(10, 5) == 100000;
    PowAdd(10, 5, 5);
    PowAdd(10, 10, 10);
    assert Pow(10, 2) == 100 && Pow(10, 1) == 10;
    PowAdd(10, 20, 2);
    PowAdd(10, 20, 5);
    PowAdd(10, 22, 1);
    PowAdd(10, 25, 1);
  }

  lemma FourDigits(r: Range)
    requires IsRange(r, 8344650268554688, 32, false, 25)
    ensures r.closedAbove && !r.closedBelow && r.d > 0 && r.l > 0 && IsLowerEnd(r, 3, 3584) && Narrow(r, 3)
    ensures EndIsShorter(r) && In(r.(closedBelow := true), 3, 3584)
  {
    FourDigitsFraction(r);
    assert Pow(10, 3) == 1000;
    hide Pow, IsRange;
    AtTheEnd(r, 3, 3584);
  }

  lemma EndAtThree(r: Range, k: nat, x: int)
    requires r.closedAbove && !r.closedBelow && r.d > 0 && IsLowerEnd(r, 3, 3584) && Narrow(r, 3) && In(r, k, x)
    ensures k > 3
  {
    if k <= 3 {
      NextToEnd(r, 3, 3584);
      hide In;
      var w := InScaled(r, k, x, 3);
      assert false;
    }
  }

  lemma FourDigitsFraction(r: Range)
    requires IsRange(r, 8344650268554688, 32, false, 25)
    ensures r.u == r.l > 0 && r.n == 16689300537109376 * r.l
    ensures 3584 * r.d == (r.n - r.l) * 1000 && r.d > 2000 * r.l && r.closedAbove && !r.closedBelow
  {
    Powers();
    hide Pow;
    assert r.n * 1 * 10000000000000000000000000 == 8344650268554688 * 0x1_0000_0000 * r.d * 1;
  }

  /** 5960464477539062 * 2^24 is less than 10^23, but 10^23 is the upper end of its range and
      the shortest: it is written as one colon. */
  method ColonForTen() returns (buf: string, exp: int)
    ensures In(RangeOf(5960464477539062, 24, false, 22), 0, 10) && buf == ":" && exp == 22
  {
    ColonBelow();
    ghost var r := RangeOf(5960464477539062, 24, false, 22);
    hide Below, IsRange, Nearest, NoneShorter, In, Dec, Represents, IsDecimal, RangeOf, EndIsShorter, TenWins;
    buf, exp := FallbackShortest(5960464477539062, 24, false, 22);
    ColonFraction(r);
    TenWinsThere(r);
  }

  lemma ColonBelow()
    ensures Below(5960464477539062, 24, 23)
  {
    Powers();
    hide Pow;
  }

  lemma ColonFraction(r: Range)
    requires IsRange(r, 5960464477539062, 24, false, 22)
    ensures r.u == r.l > 0 && r.n == 11920928955078124 * r.l
    ensures 10 * r.d == r.n + r.l && r.d > 2 * r.l && r.closedAbove
  {
    Powers();
    hide Pow;
    assert r.n * 1 * 10000000000000000000000 == 5960464477539062 * 0x100_0000 * r.d * 1;
  }

  lemma TenWinsThere(r: Range)
    requires r.u == r.l > 0 && 10 * r.d == r.n + r.l && r.d > 2 * r.l && r.closedAbove
    ensures TenWins(r) && In(r, 0, 10)
  {
    WholeIn(r, 10);
  }

  lemma OneDigit(s: string)
    requires IsDecimal(s) && |s| == 1
    ensures Dec(s) <= 9
  {
    assert s[..0] == [];
  }
}
