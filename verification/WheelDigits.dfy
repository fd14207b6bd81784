/** The arithmetic of the two wheels: when a slot is redistributed, and where its nodes go. */
module WheelDigits {
  import opened Bits
  import opened Wrappers
  import opened WheelModel

  // ------------------------------------------------------- arithmetic of the digits

  /** The remaining ticks shrink by one at every tick. */
  lemma LeftShrinks(time: u32, expire: u32)
    requires Left(time, expire) > 0
    ensures Left(U32(time + 1), expire) == Left(time, expire) - 1
  {
  }

  /** A time value in digits: 256 ticks, then four digits to base 64. */
  datatype Digits = Digits(a: nat, b: nat, c: nat, d: nat, f: nat)

  predicate AreDigits(x: u32, g: Digits) {
    && g.a < 0x100 && g.b < 64 && g.c < 64 && g.d < 64 && g.f < 64
    && x == g.a + 0x100 * g.b + 0x4000 * g.c + 0x10_0000 * g.d + 0x400_0000 * g.f
  }

  function DigitsOf(x: u32): Digits {
    Digits(x % 0x100, x / Unit(0) % 64, x / Unit(1) % 64, x / Unit(2) % 64, x / Unit(3) % 64)
  }

  lemma Split(x: u32)
    ensures var g := DigitsOf(x);
      && AreDigits(x, g)
      && x % Unit(0) == g.a && x % Unit(1) == g.a + 0x100 * g.b
      && x % Unit(2) == g.a + 0x100 * g.b + 0x4000 * g.c
      && x % Unit(3) == g.a + 0x100 * g.b + 0x4000 * g.c + 0x10_0000 * g.d
  {
    var q0 := x / 0x100;
    var q1 := q0 / 64;
    var q2 := q1 / 64;
    var q3 := q2 / 64;
    assert x / 0x4000 == q1 && x / 0x10_0000 == q2 && x / 0x400_0000 == q3;
  }

  /** The cascade reads the lowest digit that has changed. */
  lemma CascadeDigits(ct: u32)
    ensures RadixCascade(ct) == var g := DigitsOf(ct);
      if g.a != 0 then None
      else if g.b != 0 then Some(Level(0, g.b))
      else if g.c != 0 then Some(Level(1, g.c))
      else if g.d != 0 then Some(Level(2, g.d))
      else Some(Level(3, g.f))
  {
    if ct == 0 {
      assert DigitsOf(0) == Digits(0, 0, 0, 0, 0);
    }
  }

  /** A slot of level i that holds expiry e is redistributed exactly when the remaining
      ticks have come down to the part of e below level i. */
  lemma Visit(i: nat, ct: u32, e: u32)
    requires i < 4 && (i < 3 ==> e / Unit(i) % LEVEL != 0)
    requires Below(i, e) <= Left(ct, e) < if i < 3 then LEVEL * Unit(i) else HALF
    ensures RadixCascade(ct) == Some(Level(i, e / Unit(i) % LEVEL)) <==> Left(ct, e) == Below(i, e)
  {
    hide RadixCascade, Left;
    if i == 0 {
      VisitSlot0(ct, e);
    } else if i == 1 {
      VisitSlot1(ct, e);
    } else if i == 2 {
      VisitSlot2(ct, e);
    } else {
      VisitSlot3(ct, e);
    }
  }

  /** A digit and what is below it. */
  lemma Part(i: nat, x: u32)
    requires i < 4
    ensures var g := DigitsOf(x); var digit := x / Unit(i) % LEVEL;
      && g.a < 0x100 && g.b < 64 && g.c < 64 && g.d < 64 && g.f < 64
      && (i == 0 ==> digit == g.b && Below(i, x) == g.a)
      && (i == 1 ==> digit == g.c && Below(i, x) == g.a + 0x100 * g.b)
      && (i == 2 ==> digit == g.d && Below(i, x) == g.a + 0x100 * g.b + 0x4000 * g.c)
      && (i == 3 ==> digit == g.f && Below(i, x) == g.a + 0x100 * g.b + 0x4000 * g.c + 0x10_0000 * g.d)
  {
    Split(x);
  }

  lemma VisitSlot0(ct: u32, e: u32)
    requires e / Unit(0) % LEVEL != 0 && Below(0, e) <= Left(ct, e) < 0x4000
    ensures RadixCascade(ct) == Some(Level(0, e / Unit(0) % LEVEL)) <==> Left(ct, e) == Below(0, e)
  {
    hide RadixCascade, Left, DigitsOf, Unit, Below;
    CascadeDigits(ct);
    Part(0, ct);
    Part(0, e);
    LeftDigits(ct, e);
    var g, h := DigitsOf(ct), DigitsOf(e);
    Visit0(g.a, g.b, g.c + 64 * g.d + 4096 * g.f, h.a, h.b, h.c + 64 * h.d + 4096 * h.f, if e < ct then 1 else 0);
  }

  lemma VisitSlot1(ct: u32, e: u32)
    requires e / Unit(1) % LEVEL != 0 && Below(1, e) <= Left(ct, e) < 0x10_0000
    ensures RadixCascade(ct) == Some(Level(1, e / Unit(1) % LEVEL)) <==> Left(ct, e) == Below(1, e)
  {
    hide RadixCascade, Left, DigitsOf, Unit, Below;
    CascadeDigits(ct);
    Part(1, ct);
    Part(1, e);
    LeftDigits(ct, e);
    var g, h := DigitsOf(ct), DigitsOf(e);
    Visit1(g.a + 0x100 * g.b, g.c, g.d + 64 * g.f, h.a + 0x100 * h.b, h.c, h.d + 64 * h.f, if e < ct then 1 else 0);
  }

  lemma VisitSlot2(ct: u32, e: u32)
    requires e / Unit(2) % LEVEL != 0 && Below(2, e) <= Left(ct, e) < 0x400_0000
    ensures RadixCascade(ct) == Some(Level(2, e / Unit(2) % LEVEL)) <==> Left(ct, e) == Below(2, e)
  {
    hide RadixCascade, Left, DigitsOf, Unit, Below;
    CascadeDigits(ct);
    Part(2, ct);
    Part(2, e);
    LeftDigits(ct, e);
    var g, h := DigitsOf(ct), DigitsOf(e);
    Visit2(g.a + 0x100 * g.b + 0x4000 * g.c, g.d, g.f,
           h.a + 0x100 * h.b + 0x4000 * h.c, h.d, h.f, if e < ct then 1 else 0);
  }

  lemma VisitSlot3(ct: u32, e: u32)
    requires Below(3, e) <= Left(ct, e) < HALF
    ensures RadixCascade(ct) == Some(Level(3, e / Unit(3) % LEVEL)) <==> Left(ct, e) == Below(3, e)
  {
    hide RadixCascade, Left, DigitsOf, Unit, Below;
    CascadeDigits(ct);
    Part(3, ct);
    Part(3, e);
    LeftDigits(ct, e);
    var g, h := DigitsOf(ct), DigitsOf(e);
    Visit3(g.a + 0x100 * g.b + 0x4000 * g.c + 0x10_0000 * g.d, g.f,
           h.a + 0x100 * h.b + 0x4000 * h.c + 0x10_0000 * h.d, h.f, if e < ct then 1 else 0);
  }

  lemma LeftDigits(ct: u32, e: u32)
    ensures var g, h := DigitsOf(ct), DigitsOf(e); var wrap := if e < ct then 1 else 0;
      Left(ct, e) == (h.a - g.a) + 0x100 * (h.b - g.b) + 0x4000 * (h.c - g.c)
                     + 0x10_0000 * (h.d - g.d) + 0x400_0000 * (h.f - g.f + 64 * wrap)
  {
    Split(ct);
    Split(e);
    hide DigitsOf;
    LeftSum(ct, e, DigitsOf(ct), DigitsOf(e));
  }

  lemma LeftSum(ct: u32, e: u32, g: Digits, h: Digits)
    requires AreDigits(ct, g) && AreDigits(e, h)
    ensures Left(ct, e) == (h.a - g.a) + 0x100 * (h.b - g.b) + 0x4000 * (h.c - g.c)
                           + 0x10_0000 * (h.d - g.d) + 0x400_0000 * (h.f - g.f + 64 * if e < ct then 1 else 0)
  {
    LeftWraps(ct, e);
    hide Left;
  }

  lemma LeftWraps(ct: u32, e: u32)
    ensures Left(ct, e) == e - ct + 0x1_0000_0000 * if e < ct then 1 else 0
  {
  }

  lemma Visit0(gl: nat, g: nat, gh: nat, hl: nat, h: nat, hh: nat, wrap: nat)
    requires gl < 0x100 && hl < 0x100 && g < 64 && h < 64 && wrap <= 1
    requires hl <= (hl - gl) + 0x100 * (h - g) + 0x4000 * (hh - gh + 0x4_0000 * wrap) < 0x4000
    ensures gl == 0 && g == h <==> 0x100 * (h - g) + 0x4000 * (hh - gh + 0x4_0000 * wrap) == gl
  {
  }

  lemma Visit1(gl: nat, g: nat, gh: nat, hl: nat, h: nat, hh: nat, wrap: nat)
    requires gl < 0x4000 && hl < 0x4000 && g < 64 && h < 64 && wrap <= 1
    requires hl <= (hl - gl) + 0x4000 * (h - g) + 0x10_0000 * (hh - gh + 0x1000 * wrap) < 0x10_0000
    ensures gl == 0 && g == h <==> 0x4000 * (h - g) + 0x10_0000 * (hh - gh + 0x1000 * wrap) == gl
  {
  }

  lemma Visit2(gl: nat, g: nat, gh: nat, hl: nat, h: nat, hh: nat, wrap: nat)
    requires gl < 0x10_0000 && hl < 0x10_0000 && g < 64 && h < 64 && wrap <= 1
    requires hl <= (hl - gl) + 0x10_0000 * (h - g) + 0x400_0000 * (hh - gh + 64 * wrap) < 0x400_0000
    ensures gl == 0 && g == h <==> 0x10_0000 * (h - g) + 0x400_0000 * (hh - gh + 64 * wrap) == gl
  {
  }

  lemma Visit3(gl: nat, g: nat, hl: nat, h: nat, wrap: nat)
    requires gl < 0x400_0000 && hl < 0x400_0000 && g < 64 && h < 64 && wrap <= 1
    requires hl <= (hl - gl) + 0x400_0000 * (h - g + 64 * wrap) < HALF
    ensures gl == 0 && g == h <==> 0x400_0000 * (h - g + 64 * wrap) == gl
  {
  }

  lemma Placed(time: u32, e: u32)
    requires Left(time, e) < HALF
    ensures Dead(Radix, RadixPlace(time, e)) || RadixOnTime(time, e, RadixPlace(time, e))
  {
  }

  /** A redistributed node never lands in a dead slot. */
  lemma Redistributed(i: nat, ct: u32, e: u32)
    requires i < 4 && Left(ct, e) == Below(i, e)
    ensures !Dead(Radix, RadixPlace(ct, e)) && RadixOnTime(ct, e, RadixPlace(ct, e))
  {
    Split(e);
    hide Left;
  }

  // ------------------------------------------------------- the clock

  lemma ClockPlaced(time: u32, e: u32)
    requires time < e
    ensures Dead(Clock, ClockPlace(time, e)) || ClockOnTime(time, e, ClockPlace(time, e))
  {
    assert Left(time, e) == e - time;
  }

  /** A time value as days of twelve hours, hours, minutes and seconds. */
  datatype Face = Face(s: nat, m: nat, h: nat, d: nat)

  function FaceOf(x: u32): Face {
    Face(x % 60, x / 60 % 60, x / 3600 % 12, x / 43200)
  }

  lemma FaceSplit(x: u32)
    ensures var g := FaceOf(x);
      && g.s < 60 && g.m < 60 && g.h < 12 && x == g.s + 60 * g.m + 3600 * g.h + 43200 * g.d
      && x % 43200 == g.s + 60 * g.m + 3600 * g.h && x % 3600 == g.s + 60 * g.m
  {
    var q0 := x / 60;
    var q1 := q0 / 60;
    var q2 := q1 / 12;
    assert x / 3600 == q1 && x / 43200 == q2;
  }

  lemma FaceParts(t: nat, s: nat, m: nat, h: nat)
    requires s < 60 && m < 60 && h < 12 && t == s + 60 * m + 3600 * h
    ensures t % 60 == s && t / 60 % 60 == m && t / 3600 % 12 == h
  {
    assert t / 60 == m + 60 * h;
    assert t / 3600 == h;
  }

  lemma ClockCascadeFace(ct: u32)
    ensures ClockCascade(ct) == var g := FaceOf(ct);
      if g.s != 0 then None
      else if g.m != 0 then Some(Level(0, g.m))
      else Some(Level(1, g.h))
  {
    var g := FaceOf(ct);
    FaceSplit(ct);
    FaceParts(ct % 43200, g.s, g.m, g.h);
  }

  /** A slot of the clock that holds expiry e is redistributed when the remaining time is the
      part of e below the level, or, for an hour slot, that and some half days. */
  lemma ClockVisit(i: nat, ct: u32, e: u32)
    requires i < 2 && ct <= e && (i == 0 ==> e / 60 % 60 != 0 && e % 60 <= e - ct < 3600)
    requires i == 1 ==> e % 3600 <= e - ct
    ensures i == 0 ==> (ClockCascade(ct) == Some(Level(0, e / 60 % 60)) <==> e - ct == e % 60)
    ensures i == 1 ==> (ClockCascade(ct) == Some(Level(1, e / 3600 % 12)) <==> (e - ct) % 43200 == e % 3600)
  {
    ClockCascadeFace(ct);
    FaceSplit(ct);
    FaceSplit(e);
    hide ClockCascade;
    var g, h := FaceOf(ct), FaceOf(e);
    if i == 0 {
      MinuteVisit(g.s, g.m, g.h + 12 * g.d, h.s, h.m, h.h + 12 * h.d);
    } else {
      HourVisit(g.s + 60 * g.m, g.h, g.d, h.s + 60 * h.m, h.h, h.d);
    }
  }

  lemma MinuteVisit(s: nat, m: nat, h: nat, s': nat, m': nat, h': nat)
    requires s < 60 && s' < 60 && m < 60 && m' < 60 && m' != 0
    requires s' <= (s' - s) + 60 * (m' - m) + 3600 * (h' - h) < 3600
    ensures s == 0 && m == m' <==> 60 * (m' - m) + 3600 * (h' - h) == s
  {
  }

  lemma HourVisit(l: nat, h: nat, d: nat, l': nat, h': nat, d': nat)
    requires l < 3600 && l' < 3600 && h < 12 && h' < 12
    requires l' <= (l' - l) + 3600 * (h' - h) + 43200 * (d' - d)
    ensures l == 0 && h == h' <==> ((l' - l) + 3600 * (h' - h) + 43200 * (d' - d)) % 43200 == l'
  {
    var r := (l' - l) + 3600 * (h' - h) + 43200 * (d' - d);
    var x := (l' - l) + 3600 * (h' - h);
    assert r % 43200 == x % 43200;
    assert -46800 < x < 46800;
  }

  lemma ClockRedistributed(i: nat, ct: u32, e: u32)
    requires ct <= e && (i == 0 ==> e - ct == e % 60) && (i > 0 ==> (e - ct) % 43200 == e % 3600)
    ensures !Dead(Clock, ClockPlace(ct, e)) && ClockOnTime(ct, e, ClockPlace(ct, e))
  {
    LeftIs(ct, e);
    hide Left;
    var r := e - ct;
    if r < 60 {
      if i > 0 {
        NoHalfDay(r);
      }
      MinutePart(e);
    } else if r < ONE_HOUR {
      NoHalfDay(r);
      MinutePart(e);
    }
  }

  lemma LeftIs(ct: u32, e: u32)
    requires ct <= e
    ensures Left(ct, e) == e - ct
  {
  }

  lemma NoHalfDay(r: nat)
    requires r < 43200
    ensures r % 43200 == r
  {
  }

  lemma MinutePart(e: nat)
    ensures e % 3600 == e / 60 % 60 * 60 + e % 60
  {
    var q := e / 60;
    assert e / 3600 == q / 60;
  }
}
