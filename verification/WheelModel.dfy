/** Timing wheels on values: slots of timers for the next ticks, and levels of slots for
    later ones. timewheel.c has 256 slots and four levels of 64; clock-timer.c has the 60
    seconds, 60 minutes and 12 hours of a clock face. */
module WheelModel {
  import opened Bits
  import opened Wrappers

  type u32 = x: int | 0 <= x < 0x1_0000_0000

  /** struct timer_node. The expiry is set once, before the node is linked in. */
  class TimerNode {
    const id: int
    const expire: u32
    var cancel: bool

    constructor (expire: u32, id: int)
      ensures this.expire == expire && this.id == id && !cancel
    {
      this.expire, this.id, cancel := expire, id, false;
    }
  }

  type List = seq<TimerNode>

  datatype Kind = Radix | Clock

  /** near and t of timewheel.c; second, and minute and hour, of clock-timer.c. */
  datatype Wheel = Wheel(kind: Kind, time: u32, near: seq<List>, t: seq<seq<List>>)

  /** The slots of a wheel. */
  datatype Place = Near(k: nat) | Level(i: nat, k: nat)

  const NEAR: nat := 256
  const LEVEL: nat := 64

  const SECONDS: nat := 60
  const MINUTES: nat := 60
  const HOURS: nat := 12
  const ONE_HOUR: nat := 3600
  const HALF_DAY: nat := 43200

  /** The largest delay of add_timer, whose argument is an int, plus one. */
  const HALF: nat := 0x8000_0000

  /** How many slots there are for the next ticks. */
  function Slots(kind: Kind): (n: nat)
    ensures n > 0
  {
    if kind.Radix? then NEAR else SECONDS
  }

  predicate Shaped(w: Wheel) {
    && |w.near| == Slots(w.kind)
    && match w.kind
       case Radix => |w.t| == 4 && forall i :: 0 <= i < 4 ==> |w.t[i]| == LEVEL
       case Clock => |w.t| == 2 && |w.t[0]| == MINUTES && |w.t[1]| == HOURS
  }

  predicate IsPlace(kind: Kind, p: Place) {
    match p
    case Near(k) => k < Slots(kind)
    case Level(i, k) =>
      if kind.Radix? then i < 4 && k < LEVEL else (i == 0 && k < MINUTES) || (i == 1 && k < HOURS)
  }

  function Get(w: Wheel, p: Place): List
    requires Shaped(w) && IsPlace(w.kind, p)
  {
    match p
    case Near(k) => w.near[k]
    case Level(i, k) => w.t[i][k]
  }

  function Put(w: Wheel, p: Place, l: List): (r: Wheel)
    requires Shaped(w) && IsPlace(w.kind, p)
    ensures Shaped(r) && r.time == w.time && r.kind == w.kind && Get(r, p) == l
    ensures forall q :: IsPlace(w.kind, q) && q != p ==> Get(r, q) == Get(w, q)
  {
    match p
    case Near(k) => w.(near := w.near[k := l])
    case Level(i, k) => w.(t := w.t[i := w.t[i][k := l]])
  }

  /** How many ticks one slot of level i covers. */
  function Unit(i: nat): (u: nat)
    ensures u > 0
  {
    if i == 0 then 0x100 else if i == 1 then 0x4000 else if i == 2 then 0x10_0000 else 0x400_0000
  }

  /** Ticks until the expiry. */
  function Left(time: u32, expire: u32): nat {
    U32(expire - time)
  }

  /** Where add_node of timewheel.c puts a node, by its distance. */
  function RadixPlace(time: u32, expire: u32): (p: Place)
    ensures IsPlace(Radix, p)
  {
    var msec := Left(time, expire);
    if msec < Unit(0) then Near(expire % NEAR)
    else if msec < Unit(1) then Level(0, expire / Unit(0) % LEVEL)
    else if msec < Unit(2) then Level(1, expire / Unit(1) % LEVEL)
    else if msec < Unit(3) then Level(2, expire / Unit(2) % LEVEL)
    else Level(3, expire / Unit(3) % LEVEL)
  }

  /** The slot that its timer_shift redistributes when the time has become ct. */
  function RadixCascade(ct: u32): (s: Option<Place>)
    ensures s.Some? ==> s.value.Level? && IsPlace(Radix, s.value)
  {
    if ct == 0 then Some(Level(3, 0))
    else if ct % Unit(0) != 0 then None
    else if ct / Unit(0) % LEVEL != 0 then Some(Level(0, ct / Unit(0) % LEVEL))
    else if ct / Unit(1) % LEVEL != 0 then Some(Level(1, ct / Unit(1) % LEVEL))
    else if ct / Unit(2) % LEVEL != 0 then Some(Level(2, ct / Unit(2) % LEVEL))
    else Some(Level(3, ct / Unit(3) % LEVEL))
  }

  /** The same of clock-timer.c. */
  function ClockPlace(time: u32, expire: u32): (p: Place)
    ensures IsPlace(Clock, p)
  {
    var msec := Left(time, expire);
    if msec < 60 then Near(expire % SECONDS)
    else if msec < ONE_HOUR then Level(0, expire / 60 % MINUTES)
    else Level(1, expire / ONE_HOUR % HOURS)
  }

  function ClockCascade(ct: u32): (s: Option<Place>)
    ensures s.Some? ==> s.value.Level? && IsPlace(Clock, s.value)
  {
    var t := ct % HALF_DAY;
    if t == 0 then Some(Level(1, 0))
    else if t % SECONDS != 0 then None
    else if t / 60 % MINUTES != 0 then Some(Level(0, t / 60 % MINUTES))
    else if t / ONE_HOUR % HOURS != 0 then Some(Level(1, t / ONE_HOUR % HOURS))
    else None
  }

  function PlaceOf(kind: Kind, time: u32, expire: u32): (p: Place)
    ensures IsPlace(kind, p)
  {
    if kind.Radix? then RadixPlace(time, expire) else ClockPlace(time, expire)
  }

  function CascadeSlot(kind: Kind, ct: u32): (s: Option<Place>)
    ensures s.Some? ==> s.value.Level? && IsPlace(kind, s.value)
  {
    if kind.Radix? then RadixCascade(ct) else ClockCascade(ct)
  }

  function AddNode(w: Wheel, n: TimerNode): (r: Wheel)
    requires Shaped(w)
    ensures Shaped(r) && r.time == w.time && r.kind == w.kind
  {
    var p := PlaceOf(w.kind, w.time, n.expire);
    Put(w, p, Get(w, p) + [n])
  }

  function AddAll(w: Wheel, l: List): (r: Wheel)
    requires Shaped(w)
    ensures Shaped(r) && r.time == w.time && r.kind == w.kind
  {
    if l == [] then w else AddNode(AddAll(w, l[..|l| - 1]), l[|l| - 1])
  }

  /** move_list: the slot is emptied and its nodes are added again. */
  function MoveList(w: Wheel, p: Place): (r: Wheel)
    requires Shaped(w) && IsPlace(w.kind, p)
    ensures Shaped(r) && r.time == w.time && r.kind == w.kind
  {
    AddAll(Put(w, p, []), Get(w, p))
  }

  function Cascade(w: Wheel, c: Option<Place>): (r: Wheel)
    requires Shaped(w) && (c.Some? ==> IsPlace(w.kind, c.value))
    ensures Shaped(r) && r.time == w.time && r.kind == w.kind
  {
    if c.None? then w else MoveList(w, c.value)
  }

  function Advance(w: Wheel): Wheel {
    w.(time := U32(w.time + 1))
  }

  /** timer_shift: one tick of the clock. */
  function Shift(w: Wheel): (r: Wheel)
    requires Shaped(w)
    ensures Shaped(r) && r.time == U32(w.time + 1) && r.kind == w.kind
  {
    Cascade(Advance(w), CascadeSlot(w.kind, Advance(w).time))
  }

  /** The slot that timer_execute empties. */
  function Now(w: Wheel): (p: Place)
    ensures IsPlace(w.kind, p)
  {
    Near(w.time % Slots(w.kind))
  }

  /** timer_execute: the nodes to dispatch, and the wheel afterwards; `adds` are the nodes
      that callbacks and other threads add while the lock is released for the dispatch. */
  function Execute(w: Wheel, adds: List): (r: (Wheel, List))
    requires Shaped(w)
    ensures Shaped(r.0) && r.0.time == w.time
  {
    if Get(w, Now(w)) == [] then (w, [])
    else (AddAll(Put(w, Now(w), []), adds), Get(w, Now(w)))
  }

  /** timer_update. */
  function Update(w: Wheel, first: List, second: List): (r: (Wheel, List))
    requires Shaped(w)
    ensures Shaped(r.0) && r.0.time == U32(w.time + 1) && r.0.kind == w.kind
  {
    var a := Execute(w, first);
    var b := Execute(Shift(a.0), second);
    (b.0, a.1 + b.1)
  }

  // ------------------------------------------------------- where a node waits

  /** A slot that no cascade ever empties. */
  predicate Dead(kind: Kind, p: Place) {
    p.Level? && p.k == 0 && if kind.Radix? then p.i < 3 else p.i == 0
  }

  /** The part of expiry e below level i. */
  function Below(i: nat, e: u32): nat {
    e % Unit(i)
  }

  /** A node in slot p will be found in time. */
  predicate OnTime(kind: Kind, time: u32, e: u32, p: Place) {
    if kind.Radix? then RadixOnTime(time, e, p) else ClockOnTime(time, e, p)
  }

  predicate RadixOnTime(time: u32, e: u32, p: Place) {
    match p
    case Near(k) => k == e % NEAR && Left(time, e) < NEAR
    case Level(i, k) =>
      && i < 4 && k == e / Unit(i) % LEVEL && (i < 3 ==> k != 0)
      && Below(i, e) < Left(time, e) < if i < 3 then LEVEL * Unit(i) else HALF
  }

  /** Without overflow of the time; the hour slot may be visited several times. */
  predicate ClockOnTime(time: u32, e: u32, p: Place) {
    && time <= e
    && match p
       case Near(k) => k == e % SECONDS && e - time < 60
       case Level(i, k) =>
         if i == 0 then k == e / 60 % MINUTES && k != 0 && e % 60 < e - time < ONE_HOUR
         else i == 1 && k == e / ONE_HOUR % HOURS && e % ONE_HOUR < e - time
  }

  /** The delays that are allowed: an int of at least 1, and no overflow of a clock's time. */
  predicate Reach(kind: Kind, time: u32, e: u32) {
    if kind.Radix? then 0 < Left(time, e) < HALF else time < e
  }

  /** The time may go on by one tick. */
  predicate GoesOn(kind: Kind, time: u32) {
    kind.Clock? ==> time + 1 < 0x1_0000_0000
  }
}
