/** fallback_format with a given number of digits: Steele and White's fixed-precision
    printout on exact integers, with the rounding of the last digit. */
module Dragon {
  import opened Bits
  import opened Digits
  import opened BigInts

  // ------------------------------------------------------- what is promised

  /** r is the integer nearest to x / d, the even one of two that are equally near. */
  ghost predicate NearestEven(x: nat, d: nat, r: nat) {
    var off := if x >= r * d then x - r * d else r * d - x;
    2 * off <= d && (2 * off == d ==> r % 2 == 0)
  }

  /** There is only one such integer. */
  lemma NearestIsUnique(x: nat, d: nat, r: nat, s: nat)
    requires d > 0 && NearestEven(x, d, r) && NearestEven(x, d, s)
    ensures r == s
  {
    if r < s {
      NearestOrder(x, d, r, s);
    } else if s < r {
      NearestOrder(x, d, s, r);
    }
  }

  lemma NearestOrder(x: nat, d: nat, r: nat, s: nat)
    requires d > 0 && NearestEven(x, d, r) && NearestEven(x, d, s)
    ensures !(r < s)
  {
    if r < s {
      MulMonotone(r + 1, s, d);
      Spread(r, 1, d);
      var a, b := r * d, s * d;
      assert b >= a + d;
      assert b == a + d;
      TimesOrder(s, r + 1, d);
    }
  }

  function Pos(x: int): nat {
    if x > 0 then x else 0
  }

  /** f 2^e < 10^x */
  ghost predicate Below(f: nat, e: int, x: int) {
    f * Pow(2, Pos(e)) * Pow(10, Pos(-x)) < Pow(10, Pos(x)) * Pow(2, Pos(-e))
  }

  /** n / d 10^x is the value f 2^e. */
  ghost predicate Represents(n: nat, d: nat, f: nat, e: int, x: int) {
    d > 0 && n * Pow(2, Pos(-e)) * Pow(10, Pos(x)) == f * Pow(2, Pos(e)) * d * Pow(10, Pos(-x))
  }

  function Digit(c: char): int {
    c as int - '0' as int
  }

  function Char(d: nat): (c: char)
    requires d <= 10
    ensures Digit(c) == d
  {
    '0' + d as char
  }

  ghost predicate IsDecimal(s: string) {
    forall i :: 0 <= i < |s| ==> 0 <= Digit(s[i]) <= 9
  }

  /** The number that s writes down in decimal. */
  ghost function Dec(s: string): int {
    if s == [] then 0 else 10 * Dec(s[..|s| - 1]) + Digit(s[|s| - 1])
  }

  // ------------------------------------------------------- decimal strings

  lemma DecSnoc(s: string, c: char)
    ensures Dec(s + [c]) == 10 * Dec(s) + Digit(c)
  {
    assert (s + [c])[..|s|] == s;
  }

  lemma {:induction false} DecUpdate(s: string, i: nat, c: char)
    requires i < |s|
    ensures Dec(s[i := c]) == Dec(s) + (Digit(c) - Digit(s[i])) * Pow(10, |s| - 1 - i)
    decreases |s|
  {
    var k := |s| - 1;
    if i < k {
      assert s[i := c][..k] == s[..k][i := c];
      DecUpdate(s[..k], i, c);
      var x, p := Digit(c) - Digit(s[i]), Pow(10, k - 1 - i);
      MulAssoc(x, p, 10);
    } else {
      assert s[i := c][..k] == s[..k];
    }
  }

  lemma {:induction false} DecZeros(s: string)
    requires |s| > 0 && forall i :: 0 < i < |s| ==> s[i] == '0'
    ensures Dec(s) == Digit(s[0]) * Pow(10, |s| - 1)
  {
    var k := |s| - 1;
    if k > 0 {
      DecZeros(s[..k]);
      MulAssoc(Digit(s[0]), Pow(10, k - 1), 10);
    } else {
      assert s[..0] == [];
    }
  }

  // ------------------------------------------------------- the side condition of the division

  /** The first comparison of a division never meets equal numbers of which the dividend
      has the larger exponent, however often the dividend is multiplied by ten. */
  ghost predicate Fits(num: BigInt, den: BigInt)
    reads num, den
  {
    || num.exp <= den.exp
    || |den.bigits| == 1
    || forall j: nat :: num.Value() * Pow(10, j) != den.Value()
  }

  lemma FitsDecides(num: BigInt, den: BigInt)
    requires Fits(num, den) && Comparable(num, den)
    ensures !(num.Value() == den.Value() && num.exp > den.exp)
  {
    if num.exp > den.exp {
      if |den.bigits| == 1 {
        NumBound(num.bigits, num.exp);
        NumBound(den.bigits, den.exp);
        PowMonotone(B, den.Size(), num.exp);
        PowMonotone(B, num.exp, num.Size() - 1);
      } else {
        assert Pow(10, 0) == 1;
        assert num.Value() * Pow(10, 0) != den.Value();
      }
    }
  }

  // ------------------------------------------------------- powers of two and five

  lemma {:induction false} FivesAreOdd(x: nat)
    ensures Pow(5, x) % 2 == 1
  {
    if x > 0 {
      FivesAreOdd(x - 1);
    }
  }

  lemma FiveTo32()
    ensures Pow(5, 32) > 0x1_0000_0000_0000_0000
  {
    assert Pow(5, 4) == 625;
    PowAdd(5, 4, 4);
    PowAdd(5, 8, 8);
    PowAdd(5, 16, 16);
    assert Pow(5, 8) == 390625;
    assert Pow(5, 16) == 152587890625;
  }

  /** A power of ten with a factor 2^e in it leaves a large cofactor. */
  lemma ManyTwos(f: nat, e: nat, j: nat, x: nat)
    requires f > 0 && f * Pow(2, e) * Pow(10, j) == Pow(10, x)
    ensures e + j <= x && f >= Pow(5, x - j)
  {
    hide Pow;
    PowProduct(2, 5, j);
    PowProduct(2, 5, x);
    PowAdd(2, e, j);
    Rearrange(f, Pow(2, e), Pow(2, j), Pow(5, j));
    TwosFit(f * Pow(5, j), e + j, x);
    PowAdd(2, e + j, x - e - j);
    PowAdd(5, j, x - j);
    CancelBoth(f, Pow(5, j), Pow(2, e + j), Pow(2, x - e - j), Pow(5, x - j));
  }

  /** 10^x has no more than x factors of two. */
  lemma TwosFit(g: int, k: nat, x: nat)
    requires g * Pow(2, k) == Pow(2, x) * Pow(5, x)
    ensures k <= x
  {
    hide Pow;
    if k > x {
      PowAdd(2, x, k - x);
      PowAdd(2, 1, k - x - 1);
      ShiftFactor(false);
      CancelTwos(g, Pow(2, x), Pow(2, k - x - 1), Pow(5, x));
      FivesAreOdd(x);
    }
  }

  lemma Rearrange(f: int, a: int, b: int, c: int)
    ensures f * a * (b * c) == (f * c) * (a * b)
  {
    MulAssoc(f, a, b * c);
    MulAssoc(a, b, c);
    MulCommutes(a * b, c);
    MulAssoc(f, c, a * b);
  }

  lemma CancelTwos(g: int, p: nat, h: nat, q: nat)
    requires p > 0 && g * (p * (2 * h)) == p * q
    ensures q % 2 == 0
  {
    MulCommutes(p, 2 * h);
    MulAssoc(g, 2 * h, p);
    MulCommutes(p, q);
    TimesOrder(g * (2 * h), q, p);
    MulAssoc(g, 2, h);
    MulCommutes(g, 2);
    MulAssoc(2, g, h);
    assert q == 2 * (g * h);
  }

  lemma CancelBoth(f: nat, a: nat, p: nat, b: nat, c: nat)
    requires a > 0 && p > 0 && b > 0 && (f * a) * p == (p * b) * (a * c)
    ensures f >= c
  {
    Shuffle(p, b, a, c);
    MulCommutes(p * a, b * c);
    MulCommutes(p, a);
    MulAssoc(f, a, p);
    TimesPositive(a, p);
    assert f * (a * p) == (b * c) * (a * p);
    TimesOrder(f, b * c, a * p);
    MulMonotone(1, b, c);
  }

  lemma TimesPositive(a: nat, p: nat)
    requires a > 0 && p > 0
    ensures a * p > 0
  {
    MulMonotone(1, a, p);
  }

  /** With an exponent of 32 or more, no multiple of the significand by a power of ten is a
      power of ten: it would need 32 factors of five in 64 bits. */
  lemma NeverEqual(f: nat, e: nat, shift: nat, j: nat, x: nat)
    requires 0 < f < M64 && e >= 32
    ensures f * Pow(2, shift) * Pow(2, e) * Pow(10, j) != Pow(10, x) * Pow(2, shift)
  {
    hide Pow;
    var s := Pow(2, shift);
    if f * s * Pow(2, e) * Pow(10, j) == Pow(10, x) * s {
      var y := Pow(2, e) * Pow(10, j);
      MulAssoc(f * s, Pow(2, e), Pow(10, j));
      MulAssoc(f, s, y);
      MulCommutes(s, y);
      MulAssoc(f, y, s);
      MulAssoc(f, Pow(2, e), Pow(10, j));
      TimesOrder(f * y, Pow(10, x), s);
      ManyTwos(f, e, j, x);
      FiveTo32();
      PowMonotone(5, 32, x - j);
    }
  }

  /** The denominator for 10^31, shifted by one bit, has a lowest digit of zero. */
  lemma LowestDigitZero(d: seq<bigit>)
    requires d != [] && Num(d, 0) == Pow(10, 31) * Pow(2, 1)
    ensures d[0] == 0
  {
    hide Pow, Num, Val;
    TenTo31();
    LowestAndRest(d);
    OnlyMultiple(d[0], Val(d[1..]), Pow(5, 31));
  }

  lemma TenTo31()
    ensures Pow(10, 31) * Pow(2, 1) == Pow(5, 31) * B
  {
    hide Pow;
    PowProduct(5, 2, 31);
    PowAdd(2, 31, 1);
    Pow32();
    MulAssoc(Pow(5, 31), Pow(2, 31), Pow(2, 1));
  }

  lemma LowestAndRest(d: seq<bigit>)
    requires d != []
    ensures Num(d, 0) == d[0] + Val(d[1..]) * B
  {
    assert Pow(B, 0) == 1 && Pow(B, 1) == B by {
      PowSucc(0);
    }
    hide Pow, Num, Val;
    NumSplit(d, 0, 1);
    assert d[..1] == [d[0]];
    NumDigit(d[0], 0);
    NumAtOne(d[1..]);
  }

  lemma NumAtOne(d: seq<bigit>)
    ensures Num(d, 1) == Val(d) * Pow(B, 1)
  {
  }

  lemma OnlyMultiple(x: bigit, y: nat, z: nat)
    requires x + y * B == z * B
    ensures x == 0
  {
  }

  // ------------------------------------------------------- numerator and denominator

  /** The branches in front of the digit generation. All of them leave a fraction that is
      the value up to the factor 10^exp10; `lower` and `upper` are the distances to the
      boundaries, as numerators of the same denominator. `upper` is set only if it differs. */
  method Prepare(f: nat, e: int, closer: bool, exp10: int)
    returns (num: BigInt, den: BigInt, lower: BigInt, upper: BigInt?)
    requires 0 < f < 0x4000_0000_0000_0000 && (e >= 0 ==> exp10 >= 0)
    requires -0x4000_0000 < exp10 < 0x4000_0000 && Below(f, e, exp10 + 1)
    ensures fresh({num, den, lower}) && num != den && lower !in {num, den}
    ensures upper != null ==> fresh(upper) && upper !in {num, den, lower}
    ensures num.Normal() && den.Normal() && Fits(num, den)
    ensures Represents(num.Value(), den.Value(), f, e, exp10)
    ensures num.Value() < 10 * den.Value()
    ensures Distances(num, lower, upper, f, closer)
    ensures lower.Value() == GapOf(e, exp10) && den.Value() == DenOf(e, closer, exp10)
    ensures den.exp < lower.exp <==> e >= 0 && exp10 / 32 < e / 32
  {
    hide Pow, Num, Represents, Below, Fits, Distances, GapOf, DenOf;
    GapsAre(e, closer, exp10);
    var shift := if closer then 2 else 1;
    var significand := f * (if closer then 4 else 2);
    ShiftFactor(closer);
    num := new BigInt();
    den := new BigInt();
    lower := new BigInt();
    var upperStore := new BigInt();
    upper := if closer then upperStore else null;
    if e >= 0 {
      PrepareLarge(num, den, lower, upper, f, e, significand, shift, exp10);
    } else if exp10 < 0 {
      PrepareTiny(num, den, lower, upper, f, e, significand, shift, exp10);
    } else {
      PrepareSmall(num, den, lower, upper, f, e, significand, shift, exp10);
    }
  }

  /** What is left of the powers of two and ten above and below the fraction bar. */
  ghost function GapOf(e: int, exp10: int): nat {
    Pow(2, Pos(e)) * Pow(10, Pos(-exp10))
  }

  ghost function DenOf(e: int, closer: bool, exp10: int): nat {
    Pow(10, Pos(exp10)) * Pow(2, (if closer then 2 else 1) + Pos(-e))
  }

  lemma GapsAre(e: int, closer: bool, exp10: int)
    requires e >= 0 ==> exp10 >= 0
    ensures GapOf(e, exp10) == if e >= 0 then Pow(2, e) else if exp10 < 0 then Pow(10, -exp10) else 1
    ensures var shift := if closer then 2 else 1;
      DenOf(e, closer, exp10) == if e >= 0 then Pow(10, exp10) * Pow(2, shift)
                                 else if exp10 < 0 then Pow(2, shift - e) else Pow(10, exp10) * Pow(2, shift - e)
  {
    PowZero(2);
    PowZero(10);
  }

  /** Half the distance to the neighbours: below, the predecessor may be closer. */
  ghost predicate Distances(num: BigInt, lower: BigInt, upper: BigInt?, f: nat, closer: bool)
    reads num, lower, upper
  {
    && lower.Normal() && num.Value() == f * (if closer then 4 else 2) * lower.Value() && num.exp == lower.exp
    && (upper == null <==> !closer)
    && (upper != null ==> upper.Normal() && upper.Value() == 2 * lower.Value())
  }

  /** The branch for an exponent of at least 0. */
  method PrepareLarge(num: BigInt, den: BigInt, lower: BigInt, upper: BigInt?, f: nat, e: nat, significand: nat,
                      shift: nat, exp10: nat)
    requires num != den && lower !in {num, den} && upper !in {num, den, lower}
    requires 0 < f < M64 && 0 < significand < M64 && significand == f * Pow(2, shift)
    requires shift == (if upper != null then 2 else 1) && significand == f * (if upper != null then 4 else 2)
    requires exp10 < 0x4000_0000 && Below(f, e, exp10 + 1)
    modifies num, den, lower, upper
    ensures num.Normal() && den.Normal() && Fits(num, den)
    ensures Represents(num.Value(), den.Value(), f, e, exp10) && num.Value() < 10 * den.Value()
    ensures Distances(num, lower, upper, f, upper != null) && den.exp == exp10 / 32 && lower.exp == e / 32
    ensures lower.Value() == Pow(2, e) && den.Value() == Pow(10, exp10) * Pow(2, shift)
  {
    hide Pow, Num, Represents, Below;
    num.Assign(significand);
    num.ShiftLeft(e);
    lower.Assign(1);
    lower.ShiftLeft(e);
    if shift != 1 {
      upper.Assign(1);
      upper.ShiftLeft(e + 1);
      TwiceAsMuch(e);
    }
    den.AssignPow10(exp10);
    den.ShiftLeft(shift);
    LargeValue(f, e, shift, exp10);
    forall j: nat | num.exp > 0
      ensures num.Value() * Pow(10, j) != den.Value()
    {
      NeverEqual(f, e, shift, j, exp10);
    }
  }

  lemma TwiceAsMuch(e: nat)
    ensures Pow(2, e + 1) == 2 * Pow(2, e)
  {
  }

  /** The branch for a negative exponent and a negative decimal exponent. */
  method PrepareTiny(num: BigInt, den: BigInt, lower: BigInt, upper: BigInt?, f: nat, e: int, significand: nat,
                     shift: nat, exp10: int)
    requires num != den && lower !in {num, den} && upper !in {num, den, lower}
    requires 0 < f && 0 < significand < M64 && significand == f * Pow(2, shift) && e < 0
    requires shift == (if upper != null then 2 else 1) && significand == f * (if upper != null then 4 else 2)
    requires -0x4000_0000 < exp10 < 0 && Below(f, e, exp10 + 1)
    modifies num, den, lower, upper
    ensures num.Normal() && den.Normal() && Fits(num, den)
    ensures Represents(num.Value(), den.Value(), f, e, exp10) && num.Value() < 10 * den.Value()
    ensures Distances(num, lower, upper, f, upper != null) && den.exp >= lower.exp
    ensures lower.Value() == Pow(10, -exp10) && den.Value() == Pow(2, shift - e)
  {
    hide Pow, Num, Represents, Below;
    num.AssignPow10(-exp10);
    CopyDistances(num, lower, upper);
    num.Multiply64(significand);
    den.Assign(1);
    den.ShiftLeft(shift - e);
    MulCommutes(significand, lower.Value());
    TinyValue(f, e, shift, exp10);
    TinyExponent(f, e, exp10);
  }

  method CopyDistances(num: BigInt, lower: BigInt, upper: BigInt?)
    requires lower != num && upper !in {num, lower} && num.Normal()
    modifies lower, upper
    ensures lower.Normal() && lower.Value() == num.Value() && lower.exp == num.exp
    ensures upper != null ==> upper.Normal() && upper.Value() == 2 * num.Value()
  {
    hide Pow, Num;
    lower.AssignFrom(num);
    if upper != null {
      upper.AssignFrom(num);
      upper.ShiftLeft(1);
      TwiceOnce();
    }
  }

  lemma TwiceOnce()
    ensures Pow(2, 1) == 2
  {
    assert Pow(2, 0) == 1;
  }

  /** A tiny value has more binary places than decimal ones. */
  lemma TinyExponent(f: nat, e: int, x: int)
    requires 0 < f && e < 0 && x < 0 && Below(f, e, x + 1)
    ensures -x <= -e
  {
    PowZero(2);
    PowZero(10);
    hide Pow;
    var k, m := -x - 1, -e;
    TimesOne(Pow(2, m));
    MulMonotone(1, f, Pow(10, k));
    assert Pow(10, k) < Pow(2, m);
    if m <= k {
      PowMonotone(2, m, k);
      PowInBase(2, 10, k);
    }
  }

  lemma {:induction false} PowInBase(a: nat, b: nat, k: nat)
    requires 0 < a <= b
    ensures Pow(a, k) <= Pow(b, k)
  {
    if k > 0 {
      PowInBase(a, b, k - 1);
      MulMonotone(Pow(a, k - 1), Pow(b, k - 1), a);
      MulMonotone(a, b, Pow(b, k - 1));
      MulCommutes(a, Pow(b, k - 1));
      MulCommutes(b, Pow(b, k - 1));
    }
  }

  /** The branch for a negative exponent otherwise. */
  method PrepareSmall(num: BigInt, den: BigInt, lower: BigInt, upper: BigInt?, f: nat, e: int, significand: nat,
                      shift: nat, exp10: nat)
    requires num != den && lower !in {num, den} && upper !in {num, den, lower}
    requires 0 < f && 0 < significand < M64 && significand == f * Pow(2, shift) && e < 0
    requires shift == (if upper != null then 2 else 1) && significand == f * (if upper != null then 4 else 2)
    requires exp10 < 0x4000_0000 && Below(f, e, exp10 + 1)
    modifies num, den, lower, upper
    ensures num.Normal() && den.Normal() && Fits(num, den)
    ensures Represents(num.Value(), den.Value(), f, e, exp10) && num.Value() < 10 * den.Value()
    ensures Distances(num, lower, upper, f, upper != null) && den.exp >= lower.exp
    ensures lower.Value() == 1 && den.Value() == Pow(10, exp10) * Pow(2, shift - e)
  {
    hide Pow, Num, Represents, Below;
    num.Assign(significand);
    den.AssignPow10(exp10);
    den.ShiftLeft(shift - e);
    lower.Assign(1);
    if shift != 1 {
      upper.Assign(2);
    }
    SmallValue(f, e, shift, exp10);
  }

  lemma ShiftFactor(closer: bool)
    ensures Pow(2, if closer then 2 else 1) == if closer then 4 else 2
  {
    assert Pow(2, 0) == 1;
    assert Pow(2, 1) == 2;
    assert Pow(2, 2) == 4;
  }

  lemma LargeValue(f: nat, e: nat, shift: nat, x: nat)
    requires Below(f, e, x + 1)
    ensures var n, d := f * Pow(2, shift) * Pow(2, e), Pow(10, x) * Pow(2, shift);
      Represents(n, d, f, e, x) && n < 10 * d
  {
    hide Pow, Represents, Below;
    LargeIsBelow(f, e, x);
    var a, b, c := Pow(2, shift), Pow(2, e), Pow(10, x);
    Turn(f, a, b, c);
    LargeBelow(f, a, b, c);
    TimesPositive(c, a);
    LargeRepresents(f * a * b, c * a, f, e, x);
  }

  lemma LargeIsBelow(f: nat, e: nat, x: nat)
    requires Below(f, e, x + 1)
    ensures f * Pow(2, e) < Pow(10, x) * 10
  {
    PowZero(2);
    PowZero(10);
    TenTimes(x);
    hide Pow;
    TimesOne(f * Pow(2, e));
    TimesOne(Pow(10, x + 1));
  }

  lemma LargeRepresents(n: nat, d: nat, f: nat, e: nat, x: nat)
    requires d > 0 && n * Pow(10, x) == f * Pow(2, e) * d
    ensures Represents(n, d, f, e, x)
  {
    PowZero(2);
    PowZero(10);
    hide Pow;
    TimesOne(n);
    TimesOne(f * Pow(2, e) * d);
  }

  lemma LargeBelow(f: nat, a: nat, b: nat, c: nat)
    requires a > 0 && f * b < c * 10
    ensures f * a * b < 10 * (c * a)
  {
    MulStrict(f * b, c * 10, a);
    MulCommutes(c, 10);
    MulAssoc(10, c, a);
    MulAssoc(f, b, a);
    MulAssoc(f, a, b);
    MulCommutes(a, b);
  }

  lemma Turn(f: int, a: int, b: int, c: int)
    ensures f * a * b * c == f * b * (c * a)
  {
    MulAssoc(f, a, b);
    MulCommutes(a, b);
    MulAssoc(f, b, a);
    MulAssoc(f * b, a, c);
    MulCommutes(a, c);
  }

  lemma TinyValue(f: nat, e: int, shift: nat, x: int)
    requires e < 0 && x < 0 && Below(f, e, x + 1)
    ensures var n, d := Pow(10, -x) * (f * Pow(2, shift)), 1 * Pow(2, shift - e);
      Represents(n, d, f, e, x) && n < 10 * d
  {
    assert Pow(2, 0) == 1 && Pow(10, 0) == 1;
    PowAdd(2, shift, -e);
    var a, b, c := Pow(2, shift), Pow(2, -e), Pow(10, -x - 1);
    assert Pow(10, -x) == c * 10;
    hide Pow;
    var y := c * 10;
    assert y * (f * a) * b == f * (a * b) * y by {
      MulCommutes(y, f * a);
      MulAssoc(f * a, y, b);
      MulCommutes(y, b);
      MulAssoc(f * a, b, y);
      MulAssoc(f, a, b);
    }
    assert f * c < b;
    MulStrict(f * c, b, a);
    assert y * (f * a) == 10 * (f * c * a) by {
      MulCommutes(c, 10);
      MulAssoc(10, c, f * a);
      MulAssoc(c, f, a);
      MulCommutes(c, f);
    }
    MulCommutes(a, b);
    TimesPositive(a, b);
  }

  lemma SmallValue(f: nat, e: int, shift: nat, x: nat)
    requires e < 0 && Below(f, e, x + 1)
    ensures var n, d := f * Pow(2, shift), Pow(10, x) * Pow(2, shift - e);
      Represents(n, d, f, e, x) && n < 10 * d
  {
    assert Pow(2, 0) == 1 && Pow(10, 0) == 1;
    PowAdd(2, shift, -e);
    var a, b, c := Pow(2, shift), Pow(2, -e), Pow(10, x);
    assert Pow(10, x + 1) == c * 10;
    hide Pow;
    assert f * a * b * c == f * (c * (a * b)) by {
      MulAssoc(f, a, b);
      MulAssoc(f, a * b, c);
      MulCommutes(a * b, c);
    }
    assert f < c * 10 * b;
    MulStrict(f, c * 10 * b, a);
    assert c * 10 * b * a == 10 * (c * (a * b)) by {
      MulCommutes(c, 10);
      MulAssoc(10, c, b);
      MulAssoc(10, c * b, a);
      MulAssoc(c, b, a);
      MulCommutes(a, b);
    }
    TimesPositive(a, b);
    TimesPositive(c, a * b);
  }

  // ------------------------------------------------------- the digits

  /** i digits are out, and num is what is left for the next one: n 10^i is the digits
      times 10 d, plus num, which is less than 10 d. */
  ghost predicate Remaining(n: nat, d: nat, digits: string, num: nat) {
    IsDecimal(digits) && num < 10 * d && n * Pow(10, |digits|) == Dec(digits) * (10 * d) + num
  }

  /** One digit more. */
  lemma NextDigit(n: nat, d: nat, digits: string, num: nat, q: nat, r: nat)
    requires Remaining(n, d, digits, num) && d > 0 && num == q * d + r && r < d
    ensures q <= 9 && IsDecimal(digits + [Char(q)])
    ensures n * Pow(10, |digits|) == Dec(digits + [Char(q)]) * d + r
    ensures Remaining(n, d, digits + [Char(q)], r * 10)
  {
    SmallQuotient(num, d, q, r);
    DecSnoc(digits, Char(q));
    TenTimes(|digits|);
    hide Pow, Dec;
    var x := n * Pow(10, |digits|);
    ShiftRemainder(x, d, Dec(digits), num, q, r);
    MulAssoc(n, Pow(10, |digits|), 10);
    NextRemains(n, d, digits + [Char(q)], r);
  }

  lemma NextRemains(n: nat, d: nat, digits: string, r: nat)
    requires IsDecimal(digits) && r < d && n * Pow(10, |digits|) == Dec(digits) * (10 * d) + r * 10
    ensures Remaining(n, d, digits, r * 10)
  {
  }

  lemma TenTimes(k: nat)
    ensures Pow(10, k + 1) == Pow(10, k) * 10
  {
  }

  lemma SmallQuotient(num: nat, d: nat, q: nat, r: nat)
    requires num == q * d + r && num < 10 * d
    ensures q <= 9
  {
    if q >= 10 {
      MulMonotone(10, q, d);
    }
  }

  lemma ShiftRemainder(x: int, d: int, v: int, num: int, q: int, r: int)
    requires x == v * (10 * d) + num && num == q * d + r
    ensures x == (10 * v + q) * d + r
    ensures x * 10 == (10 * v + q) * (10 * d) + r * 10
  {
    MulAssoc(v, 10, d);
    MulCommutes(v, 10);
    Spread(10 * v, q, d);
    var w := 10 * v + q;
    MulAssoc(w, d, 10);
    MulCommutes(d, 10);
  }

  /** The rounding decision on the last remainder. */
  lemma Rounded(x: nat, d: nat, v: nat, r: nat)
    requires x == v * d + r && r < d
    ensures NearestEven(x, d, if 2 * r > d || (2 * r == d && v % 2 != 0) then v + 1 else v)
  {
    Spread(v, 1, d);
    MulMonotone(0, v, d);
  }

  lemma {:induction false} DecIsNat(s: string)
    requires IsDecimal(s)
    ensures Dec(s) >= 0
  {
    if s != [] {
      DecIsNat(s[..|s| - 1]);
    }
  }

  /** The loop that takes num_digits digits off the quotient, and the remainder of the last. */
  method TakeDigits(num: BigInt, den: BigInt, numDigits: nat) returns (buf: string, digit: nat)
    requires num != den && numDigits >= 1
    requires Comparable(num, den) && Fits(num, den) && num.Value() < 10 * den.Value()
    modifies num
    ensures Comparable(num, den) && num.Value() < den.Value() && den.Value() > 0
    ensures |buf| == numDigits - 1 && digit <= 9 && IsDecimal(buf)
    ensures old(num.Value()) * Pow(10, numDigits - 1) == (10 * Dec(buf) + digit) * den.Value() + num.Value()
  {
    hide Pow, Dec, Fits, Char, Digit, Num, IsDecimal;
    ghost var n, d := num.Value(), den.Value();
    DenIsPositive(num, den);
    buf := [];
    RemainingStarts(n, d);
    var i := 0;
    while i < numDigits - 1
      invariant 0 <= i <= numDigits - 1 && |buf| == i
      invariant Comparable(num, den) && Fits(num, den) && Remaining(n, d, buf, num.Value())
    {
      ghost var was := num.Value();
      FitsDecides(num, den);
      ghost var old1 := num.exp;
      digit := Divide(num, den);
      NextDigit(n, d, buf, was, digit, num.Value());
      buf := buf + [Char(digit)];
      TimesTen(num, den);
      i := i + 1;
    }
    ghost var was := num.Value();
    FitsDecides(num, den);
    digit := Divide(num, den);
    NextDigit(n, d, buf, was, digit, num.Value());
    DecSnoc(buf, Char(digit));
    assert Digit(Char(digit)) == digit;
  }

  lemma RemainingStarts(n: nat, d: nat)
    requires n < 10 * d
    ensures Remaining(n, d, [], n)
  {
    assert Pow(10, 0) == 1 && Dec([]) == 0;
  }

  lemma DenIsPositive(num: BigInt, den: BigInt)
    requires Comparable(num, den)
    ensures den.Value() > 0
  {
    NumBound(den.bigits, den.exp);
  }

  /** One exact division; the next one will be exact, too. */
  method Divide(num: BigInt, den: BigInt) returns (q: nat)
    requires num != den && Comparable(num, den) && Fits(num, den) && num.Value() < 10 * den.Value()
    modifies num
    ensures Comparable(num, den) && Fits(num, den)
    ensures old(num.Value()) == q * den.Value() + num.Value() && num.Value() < den.Value()
    ensures num.exp == if q > 0 && old(num.exp) > den.exp then den.exp else old(num.exp)
  {
    FitsDecides(num, den);
    ghost var v := num.Value();
    hide Num, Pow;
    q := num.DivmodAssign(den);
    assert q == 0 ==> num.Value() == v;
  }

  /** numerator *= 10 */
  method TimesTen(num: BigInt, den: BigInt)
    requires num != den && Comparable(num, den) && Fits(num, den)
    modifies num
    ensures num.Value() == old(num.Value()) * 10 && Comparable(num, den) && Fits(num, den)
    ensures num.exp == old(num.exp)
  {
    ghost var v := num.Value();
    TenMore(v, den.Value());
    hide Num, Pow;
    num.Multiply32(10);
  }

  lemma TenMore(v: nat, d: nat)
    ensures (forall j: nat :: v * Pow(10, j) != d) ==> forall j: nat :: (v * 10) * Pow(10, j) != d
  {
    if forall j: nat :: v * Pow(10, j) != d {
      forall j: nat
        ensures (v * 10) * Pow(10, j) != d
      {
        MulAssoc(v, 10, Pow(10, j));
        MulCommutes(10, Pow(10, j));
        assert Pow(10, j + 1) == Pow(10, j) * 10;
        assert v * Pow(10, j + 1) != d;
      }
    }
  }

  // ------------------------------------------------------- rounding

  /** '0' + 10, a digit that has overflowed. */
  const OVERFLOW: char := ':'

  /** All digits but the one at i are decimal, that one may have overflowed, and behind it
      are zeros if i is not the last. */
  ghost predicate Carrying(buf: string, i: nat) {
    && i < |buf| && 0 <= Digit(buf[i]) <= 10
    && (forall j :: 0 <= j < |buf| && j != i ==> 0 <= Digit(buf[j]) <= 9)
    && (forall j :: i < j < |buf| ==> buf[j] == '0')
  }

  /** Moving an overflow one place up does not change the number. */
  lemma CarryMoves(buf: string, i: nat)
    requires Carrying(buf, i) && i > 0 && buf[i] == OVERFLOW
    ensures var next := buf[i := '0'][i - 1 := Char(Digit(buf[i - 1]) + 1)];
      Carrying(next, i - 1) && Dec(next) == Dec(buf)
  {
    var a := buf[i := '0'];
    var c := Char(Digit(buf[i - 1]) + 1);
    DecUpdate(buf, i, '0');
    DecUpdate(a, i - 1, c);
    var p := Pow(10, |buf| - 1 - i);
    assert Pow(10, |buf| - i) == p * 10;
    hide Pow, Dec;
    assert Digit(c) - Digit(a[i - 1]) == 1 && Digit('0') - Digit(buf[i]) == -10;
  }

  /** The carry loop; an overflow of the first digit moves the decimal point. */
  method PropagateCarry(buf': string, exp': int) returns (buf: string, exp: int)
    requires buf' != [] && Carrying(buf', |buf'| - 1)
    ensures |buf| == |buf'| && IsDecimal(buf) && exp' <= exp <= exp' + 1
    ensures Dec(buf) * Pow(10, exp - exp') == Dec(buf')
  {
    buf, exp := buf', exp';
    var i := |buf| - 1;
    hide Dec, Pow;
    while i > 0 && buf[i] == OVERFLOW
      invariant 0 <= i < |buf| == |buf'| && Carrying(buf, i) && Dec(buf) == Dec(buf')
      decreases i
    {
      CarryMoves(buf, i);
      buf := buf[i := '0'][i - 1 := Char(Digit(buf[i - 1]) + 1)];
      i := i - 1;
    }
    TimesOne(Dec(buf));
    if buf[0] == OVERFLOW {
      assert i == 0;
      PointMoves(buf);
      buf := buf[0 := '1'];
      exp := exp + 1;
    }
  }

  lemma TimesOne(x: int)
    ensures x * Pow(10, 0) == x
  {
    assert Pow(10, 0) == 1;
  }

  lemma PointMoves(buf: string)
    requires buf != [] && Carrying(buf, 0) && buf[0] == OVERFLOW
    ensures Dec(buf[0 := '1']) * Pow(10, 1) == Dec(buf)
  {
    DecZeros(buf);
    DecZeros(buf[0 := '1']);
    assert Pow(10, 1) == 10 by { assert Pow(10, 0) == 1; }
  }

  /** fallback_format with a number of digits given: the digits are the value rounded to
      that many digits, a tie to the even neighbour. */
  method FallbackFormat(f: nat, e: int, closer: bool, exp10: int, numDigits: nat)
    returns (buf: string, exp: int, ghost n: nat, ghost d: nat)
    requires 0 < f < 0x4000_0000_0000_0000 && (e >= 0 ==> exp10 >= 0)
    requires -0x4000_0000 < exp10 < 0x4000_0000 && Below(f, e, exp10 + 1)
    ensures Represents(n, d, f, e, exp10) && IsDecimal(buf)
    ensures numDigits == 0 ==>
      |buf| == 1 && exp == exp10 + 1 && Dec(buf) >= 0 && NearestEven(n, d * 10, Dec(buf))
    ensures numDigits > 0 ==>
      var up := exp - (exp10 - (numDigits - 1));
      && |buf| == numDigits && 0 <= up <= 1
      && Dec(buf) * Pow(10, up) >= 0
      && NearestEven(n * Pow(10, numDigits - 1), d, Dec(buf) * Pow(10, up))
  {
    hide Pow, Dec, Num, Represents, Below, NearestEven, Fits, IsDecimal, Char, Digit;
    var num, den, lower, upper := Prepare(f, e, closer, exp10);
    n, d := num.Value(), den.Value();
    exp := exp10 - (numDigits - 1);
    if numDigits == 0 {
      buf := NoDigits(num, den);
      return;
    }
    var digit;
    buf, digit := TakeDigits(num, den, numDigits);
    buf, exp := RoundLast(num, den, buf, digit, exp, n * Pow(10, numDigits - 1));
  }

  /** No digit at all: one or nothing of the next higher power of ten. */
  method NoDigits(num: BigInt, den: BigInt) returns (buf: string)
    requires num != den && num.Normal() && den.Normal() && num.Value() < 10 * den.Value()
    modifies den
    ensures |buf| == 1 && IsDecimal(buf) && Dec(buf) >= 0
    ensures NearestEven(num.Value(), old(den.Value()) * 10, Dec(buf))
  {
    ghost var n, d := num.Value(), den.Value();
    hide Num;
    den.Multiply32(10);
    var c := AddCompare(num, num, den);
    buf := if c > 0 then "1" else "0";
    DecOne(buf[0]);
    assert buf == [buf[0]];
    hide Dec;
    assert Digit(buf[0]) == if 2 * n > d * 10 then 1 else 0;
  }

  lemma DecOne(c: char)
    ensures Dec([c]) == Digit(c)
  {
    assert [c][..0] == [];
  }

  /** The comparison of twice the remainder decides the last digit. */
  method RoundLast(num: BigInt, den: BigInt, digits: string, digit': nat, exp': int, ghost x: nat)
    returns (buf: string, exp: int)
    requires Comparable(num, den) && num.Value() < den.Value() && IsDecimal(digits) && digit' <= 9
    requires x == (10 * Dec(digits) + digit') * den.Value() + num.Value()
    ensures |buf| == |digits| + 1 && IsDecimal(buf) && exp' <= exp <= exp' + 1
    ensures Dec(buf) * Pow(10, exp - exp') >= 0 && NearestEven(x, den.Value(), Dec(buf) * Pow(10, exp - exp'))
  {
    hide Num, Pow, Dec, NearestEven, Sign, Comparable;
    DecIsNat(digits);
    ghost var v := 10 * Dec(digits) + digit';
    Rounded(x, den.Value(), v, num.Value());
    var result := AddCompare(num, num, den);
    var up := result > 0 || (result == 0 && digit' % 2 != 0);
    RoundsUp(result, num.Value(), den.Value(), Dec(digits), digit');
    buf, exp := WriteLast(digits, digit', up, exp');
  }

  /** What the comparison of twice the remainder says. */
  lemma RoundsUp(c: int, r: int, d: int, tens: int, digit: int)
    requires c == Sign(r + r - d)
    ensures c > 0 || (c == 0 && digit % 2 != 0) <==>
      2 * r > d || (2 * r == d && (10 * tens + digit) % 2 != 0)
  {
  }

  /** The last digit, one more if the value is rounded up. */
  method WriteLast(digits: string, digit': nat, up: bool, exp': int) returns (buf: string, exp: int)
    requires IsDecimal(digits) && digit' <= 9
    ensures |buf| == |digits| + 1 && IsDecimal(buf) && exp' <= exp <= exp' + 1
    ensures Dec(buf) * Pow(10, exp - exp') == 10 * Dec(digits) + digit' + if up then 1 else 0
  {
    hide Pow, Dec;
    var digit := digit';
    exp := exp';
    if up {
      if digit == 9 {
        DecSnoc(digits, OVERFLOW);
        buf, exp := PropagateCarry(digits + [OVERFLOW], exp);
        return;
      }
      digit := digit + 1;
    }
    buf := digits + [Char(digit)];
    DecSnoc(digits, Char(digit));
    TimesOne(Dec(buf));
  }
}
