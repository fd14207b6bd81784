/** Runs of the timing wheels: which timers fire, and at which tick. */
module WheelRuns {
  import opened Bits
  import opened Wrappers
  import opened WheelModel
  import opened WheelDigits

  // ------------------------------------------------------- where a node is

  /** n is linked once, into slot p. */
  ghost predicate Home(w: Wheel, n: TimerNode, p: Place) {
    && Shaped(w) && IsPlace(w.kind, p) && multiset(Get(w, p))[n] == 1
    && forall q :: IsPlace(w.kind, q) && q != p ==> n !in Get(w, q)
  }

  /** n is linked nowhere. */
  ghost predicate Absent(w: Wheel, n: TimerNode) {
    Shaped(w) && forall q :: IsPlace(w.kind, q) ==> n !in Get(w, q)
  }

  lemma AddOther(w: Wheel, m: TimerNode, n: TimerNode)
    requires m != n && Shaped(w)
    ensures forall p :: Home(w, n, p) ==> Home(AddNode(w, m), n, p)
    ensures Absent(w, n) ==> Absent(AddNode(w, m), n)
  {
  }

  lemma AddThis(w: Wheel, n: TimerNode)
    requires Absent(w, n)
    ensures Home(AddNode(w, n), n, PlaceOf(w.kind, w.time, n.expire))
  {
  }

  lemma {:induction false} AddOthers(w: Wheel, l: List, n: TimerNode)
    requires Shaped(w) && n !in l
    ensures forall p :: Home(w, n, p) ==> Home(AddAll(w, l), n, p)
    ensures Absent(w, n) ==> Absent(AddAll(w, l), n)
    decreases |l|
  {
    if l != [] {
      var k := l[..|l| - 1];
      AddOthers(w, k, n);
      AddOther(AddAll(w, k), l[|l| - 1], n);
    }
  }

  lemma {:induction false} AddAmong(w: Wheel, l: List, n: TimerNode)
    requires Absent(w, n) && multiset(l)[n] == 1
    ensures Home(AddAll(w, l), n, PlaceOf(w.kind, w.time, n.expire))
    decreases |l|
  {
    var k, m := l[..|l| - 1], l[|l| - 1];
    assert l == k + [m];
    if m == n {
      assert n !in multiset(k);
      AddOthers(w, k, n);
      AddThis(AddAll(w, k), n);
    } else {
      AddAmong(w, k, n);
      AddOther(AddAll(w, k), m, n);
    }
  }

  /** Redistributing n's own slot moves n to where add_node puts it now. */
  lemma MoveOwn(w: Wheel, p: Place, n: TimerNode)
    requires Home(w, n, p)
    ensures Home(MoveList(w, p), n, PlaceOf(w.kind, w.time, n.expire))
  {
    AddAmong(Put(w, p, []), Get(w, p), n);
  }

  /** Redistributing another slot leaves n where it is. */
  lemma MoveOther(w: Wheel, q: Place, n: TimerNode)
    requires Shaped(w) && IsPlace(w.kind, q) && n !in Get(w, q)
    ensures forall p :: Home(w, n, p) ==> Home(MoveList(w, q), n, p)
    ensures Absent(w, n) ==> Absent(MoveList(w, q), n)
  {
    AddOthers(Put(w, q, []), Get(w, q), n);
  }

  // ------------------------------------------------------- one tick

  /** n waits in a slot in which it will be found in time. */
  ghost predicate Waiting(w: Wheel, n: TimerNode, p: Place) {
    Home(w, n, p) && OnTime(w.kind, w.time, n.expire, p) && Left(w.time, n.expire) > 0
  }

  /** What the redistribution of one slot, or of none, does to a node in slot p. */
  lemma CascadeMoves(w: Wheel, c: Option<Place>, n: TimerNode, p: Place)
    requires Home(w, n, p) && (c.Some? ==> IsPlace(w.kind, c.value))
    ensures Home(Cascade(w, c), n, if c == Some(p) then PlaceOf(w.kind, w.time, n.expire) else p)
  {
    if c.Some? {
      if c.value == p {
        MoveOwn(w, p, n);
      } else {
        MoveOther(w, c.value, n);
      }
    }
  }

  lemma AdvanceMoves(w: Wheel, n: TimerNode)
    ensures forall p :: Home(w, n, p) ==> Home(Advance(w), n, p)
    ensures Absent(w, n) ==> Absent(Advance(w), n)
  {
  }

  lemma ShiftMoves(w: Wheel, n: TimerNode, p: Place)
    requires Home(w, n, p)
    ensures Home(Shift(w), n, NextPlace(w.kind, U32(w.time + 1), n.expire, p))
  {
    AdvanceMoves(w, n);
    hide Home, CascadeSlot, PlaceOf, Cascade;
    CascadeMoves(Advance(w), CascadeSlot(w.kind, Advance(w).time), n, p);
  }

  /** The slot after a tick, for a node that waits in slot p. */
  function NextPlace(kind: Kind, ct: u32, e: u32, p: Place): Place {
    if CascadeSlot(kind, ct) == Some(p) then PlaceOf(kind, ct, e) else p
  }

  lemma RadixStays(time: u32, e: u32, p: Place)
    requires OnTime(Radix, time, e, p) && Left(time, e) > 0
    ensures var ct := U32(time + 1); OnTime(Radix, ct, e, NextPlace(Radix, ct, e, p))
  {
    var ct := U32(time + 1);
    LeftShrinks(time, e);
    if p.Level? {
      Visit(p.i, ct, e);
      if RadixCascade(ct) == Some(p) {
        Redistributed(p.i, ct, e);
      }
    }
    hide RadixCascade, RadixPlace, Left;
  }

  /** Every visit of an hour slot finds less time left, and the last one moves the node down. */
  lemma ClockStays(time: u32, e: u32, p: Place)
    requires OnTime(Clock, time, e, p) && time < e && GoesOn(Clock, time)
    ensures OnTime(Clock, time + 1, e, NextPlace(Clock, time + 1, e, p))
  {
    var ct := time + 1;
    if p.Level? {
      ClockVisit(p.i, ct, e);
      if ClockCascade(ct) == Some(p) {
        ClockRedistributed(p.i, ct, e);
      }
    }
    hide ClockCascade, ClockPlace, Left;
    assert e - ct == e - time - 1;
    if p.Level? && p.i == 1 && e - ct == e % 3600 {
      SmallRest(e - ct);
    }
  }

  lemma SmallRest(x: nat)
    requires x < 43200
    ensures x % 43200 == x
  {
  }

  lemma StaysOnTime(kind: Kind, time: u32, e: u32, p: Place)
    requires OnTime(kind, time, e, p) && Left(time, e) > 0 && GoesOn(kind, time)
    ensures var ct := U32(time + 1);
      && OnTime(kind, ct, e, NextPlace(kind, ct, e, p))
      && Left(ct, e) == Left(time, e) - 1
      && (NextPlace(kind, ct, e, p) == Near(ct % Slots(kind)) <==> Left(ct, e) == 0)
  {
    var ct := U32(time + 1);
    LeftShrinks(time, e);
    if kind.Radix? {
      hide NextPlace, RadixOnTime, ClockOnTime, Left;
      RadixStays(time, e, p);
    } else {
      hide NextPlace, RadixOnTime;
      assert time < e && ct == time + 1;
      hide ClockOnTime, Left;
      ClockStays(time, e, p);
    }
    hide NextPlace, OnTime, Left;
    NowIsDue(kind, ct, e, NextPlace(kind, ct, e, p));
  }

  /** After the shift, n is again in a slot where it will be found in time, and in the slot
      of the present tick exactly if its time has come. */
  lemma ShiftWaiting(w: Wheel, n: TimerNode, p: Place) returns (p': Place)
    requires Waiting(w, n, p) && GoesOn(w.kind, w.time)
    ensures var w' := Shift(w);
      && Home(w', n, p') && OnTime(w.kind, w'.time, n.expire, p')
      && Left(w'.time, n.expire) == Left(w.time, n.expire) - 1
      && (p' == Now(w') <==> Left(w'.time, n.expire) == 0)
  {
    hide Home, OnTime, Left, CascadeSlot, PlaceOf, NextPlace, Cascade;
    p' := NextPlace(w.kind, U32(w.time + 1), n.expire, p);
    ShiftMoves(w, n, p);
    StaysOnTime(w.kind, w.time, n.expire, p);
  }

  /** A node in time is in the present slot exactly if its time has come. */
  lemma NowIsDue(kind: Kind, ct: u32, e: u32, p: Place)
    requires OnTime(kind, ct, e, p)
    ensures p == Near(ct % Slots(kind)) <==> Left(ct, e) == 0
  {
    if kind.Radix? {
      RadixIsDue(ct, e, p);
    } else {
      ClockIsDue(ct, e, p);
    }
  }

  lemma RadixIsDue(ct: u32, e: u32, p: Place)
    requires RadixOnTime(ct, e, p)
    ensures p == Near(ct % NEAR) <==> Left(ct, e) == 0
  {
  }

  lemma ClockIsDue(ct: u32, e: u32, p: Place)
    requires ClockOnTime(ct, e, p)
    ensures p == Near(ct % SECONDS) <==> Left(ct, e) == 0
  {
    assert Left(ct, e) == e - ct;
    hide Left;
    if p.Near? && ct < e {
      SecondIsLater(ct, e);
    }
  }

  // ------------------------------------------------------- whole updates

  /** Between updates, the slot of the present tick is empty. */
  ghost predicate Quiet(w: Wheel) {
    Shaped(w) && Get(w, Now(w)) == []
  }

  /** What add_timer links in has a delay of at least one tick. */
  ghost predicate Delayed(kind: Kind, time: u32, l: List) {
    forall n :: n in l ==> Reach(kind, time, n.expire)
  }

  lemma {:induction false} AddsKeepQuiet(w: Wheel, l: List)
    requires Quiet(w) && Delayed(w.kind, w.time, l)
    ensures Quiet(AddAll(w, l))
    decreases |l|
  {
    if l != [] {
      var k, m := l[..|l| - 1], l[|l| - 1];
      AddsKeepQuiet(w, k);
      assert m in l;
      AddIsLater(w.kind, w.time, m.expire);
    }
  }

  lemma AddIsLater(kind: Kind, time: u32, e: u32)
    requires Reach(kind, time, e)
    ensures PlaceOf(kind, time, e) != Near(time % Slots(kind))
  {
    if kind.Radix? {
      RadixIsLater(time, e);
    } else {
      assert Left(time, e) == e - time;
      hide Left;
      if e - time < 60 {
        SecondIsLater(time, e);
      }
    }
  }

  lemma RadixIsLater(time: u32, e: u32)
    requires Left(time, e) > 0
    ensures RadixPlace(time, e) != Near(time % NEAR)
  {
  }

  lemma SecondIsLater(time: u32, e: u32)
    requires time < e < time + 60
    ensures e % 60 != time % 60
  {
  }

  /** The loop of timer_execute needs one round only: what is added meanwhile is later. */
  lemma ExecuteQuiet(w: Wheel, adds: List)
    requires Shaped(w) && Delayed(w.kind, w.time, adds)
    ensures Quiet(Execute(w, adds).0)
  {
    if Get(w, Now(w)) != [] {
      AddsKeepQuiet(Put(w, Now(w), []), adds);
    }
  }

  lemma UpdateQuiet(w: Wheel, first: List, second: List)
    requires Quiet(w) && Delayed(w.kind, U32(w.time + 1), second)
    ensures Quiet(Update(w, first, second).0)
    ensures Update(w, first, second) == Execute(Shift(w), second)
  {
    assert Execute(w, first) == (w, []);
    var v := Shift(w);
    assert v.time == U32(w.time + 1);
    hide Shift, Quiet, Delayed;
    ExecuteQuiet(v, second);
    assert Update(w, first, second).1 == Execute(v, second).1;
  }

  /** The dispatch takes out the nodes of the present slot and no others. */
  lemma ExecuteMoves(w: Wheel, adds: List, n: TimerNode, p: Place)
    requires Home(w, n, p) && n !in adds
    ensures var r := Execute(w, adds);
      if p == Now(w) then Absent(r.0, n) && multiset(r.1)[n] == 1 else Home(r.0, n, p) && n !in r.1
  {
    if Get(w, Now(w)) != [] {
      var v := Put(w, Now(w), []);
      if p == Now(w) {
        assert Absent(v, n);
      } else {
        assert Home(v, n, p);
      }
      AddOthers(v, adds, n);
    }
  }

  lemma UpdateWaiting(w: Wheel, first: List, second: List, n: TimerNode, p: Place) returns (p': Place)
    requires GoesOn(w.kind, w.time) && Quiet(w) && Waiting(w, n, p) && n !in second
    requires Delayed(w.kind, U32(w.time + 1), second)
    ensures var r := Update(w, first, second);
      && (Left(w.time, n.expire) == 1 ==> Absent(r.0, n) && multiset(r.1)[n] == 1)
      && (Left(w.time, n.expire) > 1 ==>
            Waiting(r.0, n, p') && Left(r.0.time, n.expire) == Left(w.time, n.expire) - 1 && n !in r.1)
  {
    UpdateQuiet(w, first, second);
    p' := ShiftWaiting(w, n, p);
    hide Shift, Update, Left, OnTime, Home, Absent, Execute;
    ExecuteMoves(Shift(w), second, n, p');
  }

  /** No cascade ever empties a dead slot. */
  lemma DeadIsDead(kind: Kind, ct: u32, p: Place)
    requires Dead(kind, p)
    ensures CascadeSlot(kind, ct) != Some(p) && p != Near(ct % Slots(kind))
  {
  }

  /** A node in a dead slot stays there. */
  lemma UpdateDead(w: Wheel, first: List, second: List, n: TimerNode, p: Place)
    requires Quiet(w) && Home(w, n, p) && Dead(w.kind, p) && n !in second && Delayed(w.kind, U32(w.time + 1), second)
    ensures var r := Update(w, first, second); Home(r.0, n, p) && n !in r.1
  {
    UpdateQuiet(w, first, second);
    DeadIsDead(w.kind, U32(w.time + 1), p);
    hide Shift, Update, Home, Execute, CascadeSlot, PlaceOf;
    ShiftMoves(w, n, p);
    ExecuteMoves(Shift(w), second, n, p);
  }

  lemma ShiftAbsent(w: Wheel, n: TimerNode)
    requires Absent(w, n)
    ensures Absent(Shift(w), n)
  {
    AdvanceMoves(w, n);
    if CascadeSlot(w.kind, Advance(w).time).Some? {
      MoveOther(Advance(w), CascadeSlot(w.kind, Advance(w).time).value, n);
    }
  }

  lemma ExecuteAbsent(w: Wheel, adds: List, n: TimerNode)
    requires Absent(w, n) && n !in adds
    ensures var r := Execute(w, adds); Absent(r.0, n) && n !in r.1
  {
    if Get(w, Now(w)) != [] {
      AddOthers(Put(w, Now(w), []), adds, n);
    }
  }

  /** A node that is nowhere stays nowhere. */
  lemma UpdateAbsent(w: Wheel, first: List, second: List, n: TimerNode)
    requires Quiet(w) && Absent(w, n) && n !in second && Delayed(w.kind, U32(w.time + 1), second)
    ensures var r := Update(w, first, second); Absent(r.0, n) && n !in r.1
  {
    UpdateQuiet(w, first, second);
    hide Shift, Update, Execute;
    ShiftAbsent(w, n);
    ExecuteAbsent(Shift(w), second, n);
  }

  // ------------------------------------------------------- runs

  /** add_timer links a node in; timer_update is one tick, with the nodes that are added
      while the lock is released for a dispatch. */
  datatype Event = Add(n: TimerNode) | Tick(first: List, second: List)

  function Step(w: Wheel, e: Event): (r: (Wheel, List))
    requires Shaped(w)
    ensures Shaped(r.0) && r.0.kind == w.kind
  {
    match e
    case Add(n) => (AddNode(w, n), [])
    case Tick(first, second) => Update(w, first, second)
  }

  /** The wheel after a run. */
  function After(w: Wheel, es: seq<Event>): (r: Wheel)
    requires Shaped(w)
    ensures Shaped(r) && r.kind == w.kind
  {
    if es == [] then w else Step(After(w, es[..|es| - 1]), es[|es| - 1]).0
  }

  /** All nodes dispatched in a run, in order. */
  function Fired(w: Wheel, es: seq<Event>): List
    requires Shaped(w)
  {
    if es == [] then []
    else Fired(w, es[..|es| - 1]) + Step(After(w, es[..|es| - 1]), es[|es| - 1]).1
  }

  function Ticks(es: seq<Event>): nat {
    if es == [] then 0 else Ticks(es[..|es| - 1]) + if es[|es| - 1].Tick? then 1 else 0
  }

  ghost predicate LegalEvent(w: Wheel, e: Event)
    requires Shaped(w)
  {
    match e
    case Add(n) => Delayed(w.kind, w.time, [n])
    case Tick(first, second) =>
      GoesOn(w.kind, w.time) && Delayed(w.kind, w.time, first) && Delayed(w.kind, U32(w.time + 1), second)
  }

  /** Every timer of the run is added with an allowed delay, and a clock's time does not
      overflow. */
  ghost predicate Legal(w: Wheel, es: seq<Event>)
    requires Shaped(w)
  {
    es == [] || (Legal(w, es[..|es| - 1]) && LegalEvent(After(w, es[..|es| - 1]), es[|es| - 1]))
  }

  ghost predicate Mentions(e: Event, n: TimerNode) {
    match e
    case Add(m) => m == n
    case Tick(first, second) => n in first || n in second
  }

  /** The run does not add n (again). */
  ghost predicate Without(es: seq<Event>, n: TimerNode) {
    forall i :: 0 <= i < |es| ==> !Mentions(es[i], n)
  }

  lemma StepQuiet(w: Wheel, e: Event)
    requires Quiet(w) && LegalEvent(w, e)
    ensures Quiet(Step(w, e).0)
  {
    match e
    case Add(n) =>
      assert n in [n];
      AddIsLater(w.kind, w.time, n.expire);
    case Tick(first, second) => UpdateQuiet(w, first, second);
  }

  /** timer_create_timer and create_timer. */
  function Empty(kind: Kind): (w: Wheel)
    ensures Shaped(w)
  {
    Wheel(kind, 0, seq(Slots(kind), _ => []),
          if kind.Radix? then seq(4, _ => seq(LEVEL, _ => [])) else [seq(MINUTES, _ => []), seq(HOURS, _ => [])])
  }

  /** Every wheel that a run reaches is quiet. */
  lemma {:induction false} ReachableQuiet(kind: Kind, es: seq<Event>)
    requires Legal(Empty(kind), es)
    ensures Quiet(After(Empty(kind), es))
    decreases |es|
  {
    if es != [] {
      ReachableQuiet(kind, es[..|es| - 1]);
      StepQuiet(After(Empty(kind), es[..|es| - 1]), es[|es| - 1]);
    }
  }

  /** Where n is after a run that started with n waiting for d ticks. */
  ghost predicate Progress(w: Wheel, n: TimerNode, d: nat, ticks: nat, fired: nat) {
    && Quiet(w)
    && (ticks < d ==> fired == 0 && Left(w.time, n.expire) == d - ticks && exists p :: Waiting(w, n, p))
    && (ticks >= d ==> fired == 1 && Absent(w, n))
  }

  lemma StepProgress(w: Wheel, e: Event, n: TimerNode, d: nat, ticks: nat, fired: nat)
    requires Progress(w, n, d, ticks, fired) && LegalEvent(w, e) && !Mentions(e, n)
    ensures var r := Step(w, e);
      Progress(r.0, n, d, if e.Tick? then ticks + 1 else ticks, fired + multiset(r.1)[n])
  {
    StepQuiet(w, e);
    match e
    case Add(m) => AddProgress(w, m, n, d, ticks, fired);
    case Tick(first, second) => TickProgress(w, first, second, n, d, ticks, fired);
  }

  lemma AddProgress(w: Wheel, m: TimerNode, n: TimerNode, d: nat, ticks: nat, fired: nat)
    requires Progress(w, n, d, ticks, fired) && m != n && Quiet(AddNode(w, m))
    ensures Progress(AddNode(w, m), n, d, ticks, fired)
  {
    AddOther(w, m, n);
    if ticks < d {
      var p :| Waiting(w, n, p);
      hide Home, OnTime, Left, Quiet;
      assert Waiting(AddNode(w, m), n, p);
    }
  }

  lemma TickProgress(w: Wheel, first: List, second: List, n: TimerNode, d: nat, ticks: nat, fired: nat)
    requires GoesOn(w.kind, w.time) && Progress(w, n, d, ticks, fired) && n !in second
    requires Delayed(w.kind, U32(w.time + 1), second)
    ensures var r := Update(w, first, second); Progress(r.0, n, d, ticks + 1, fired + multiset(r.1)[n])
  {
    hide Update, Left, Home, OnTime, Absent, Quiet, Delayed;
    UpdateQuiet(w, first, second);
    if ticks < d {
      var p :| Waiting(w, n, p);
      var p' := UpdateWaiting(w, first, second, n, p);
    } else {
      UpdateAbsent(w, first, second, n);
    }
  }

  lemma {:induction false} RunProgress(w: Wheel, es: seq<Event>, n: TimerNode, d: nat)
    requires Progress(w, n, d, 0, 0) && Legal(w, es) && Without(es, n)
    ensures Progress(After(w, es), n, d, Ticks(es), multiset(Fired(w, es))[n])
    decreases |es|
  {
    if es != [] {
      var fs, e := es[..|es| - 1], es[|es| - 1];
      RunProgress(w, fs, n, d);
      StepProgress(After(w, fs), e, n, d, Ticks(fs), multiset(Fired(w, fs))[n]);
    }
  }

  lemma StepDead(w: Wheel, e: Event, n: TimerNode, p: Place)
    requires Quiet(w) && Home(w, n, p) && Dead(w.kind, p) && LegalEvent(w, e) && !Mentions(e, n)
    ensures var r := Step(w, e); Quiet(r.0) && Home(r.0, n, p) && n !in r.1
  {
    StepQuiet(w, e);
    match e
    case Add(m) => AddOther(w, m, n);
    case Tick(first, second) =>
      hide Home, Update, Quiet;
      UpdateDead(w, first, second, n, p);
  }

  lemma {:induction false} RunDead(w: Wheel, es: seq<Event>, n: TimerNode, p: Place)
    requires Quiet(w) && Home(w, n, p) && Dead(w.kind, p) && Legal(w, es) && Without(es, n)
    ensures Quiet(After(w, es)) && Home(After(w, es), n, p) && multiset(Fired(w, es))[n] == 0
    decreases |es|
  {
    if es != [] {
      var fs, e := es[..|es| - 1], es[|es| - 1];
      hide Home, Quiet, Step, Dead, LegalEvent, Mentions;
      RunDead(w, fs, n, p);
      StepDead(After(w, fs), e, n, p);
    }
  }

  lemma PlacedOnTime(kind: Kind, time: u32, e: u32)
    requires Reach(kind, time, e)
    ensures Left(time, e) > 0
    ensures Dead(kind, PlaceOf(kind, time, e)) || OnTime(kind, time, e, PlaceOf(kind, time, e))
  {
    if kind.Radix? {
      Placed(time, e);
    } else {
      ClockPlaced(time, e);
    }
  }

  /** The timers that are lost, in terms of the time of add_timer and the expiry alone. */
  predicate Lost(kind: Kind, time: u32, expire: u32) {
    var d := U32(expire - time);
    if kind.Radix? then
      || (0x100 <= d < 0x4000 && expire / 0x100 % 64 == 0)
      || (0x4000 <= d < 0x10_0000 && expire / 0x4000 % 64 == 0)
      || (0x10_0000 <= d < 0x400_0000 && expire / 0x10_0000 % 64 == 0)
    else 60 <= d < 3600 && expire / 60 % 60 == 0
  }

  /** They are the ones that add_node puts into a slot that no cascade empties. */
  lemma LostIsDead(kind: Kind, time: u32, expire: u32)
    ensures Lost(kind, time, expire) <==> Dead(kind, PlaceOf(kind, time, expire))
  {
  }

  /** The delays that are allowed: an int of at least 1, and no overflow of a clock's time. */
  predicate Allowed(kind: Kind, time: u32, expire: u32) {
    if kind.Radix? then 0 < U32(expire - time) < 0x8000_0000 else time < expire
  }

  /** The exact-firing theorem of both wheels. A timer added with an allowed delay of d ticks
      is dispatched once, in the d-th tick after that and not before, if it is not lost; and if
      it is, it is never dispatched. */
  lemma FiresExactly(w: Wheel, n: TimerNode, d: nat, es: seq<Event>)
    requires Quiet(w) && Absent(w, n) && Allowed(w.kind, w.time, n.expire) && U32(n.expire - w.time) == d
    requires Legal(AddNode(w, n), es) && Without(es, n)
    ensures multiset(Fired(AddNode(w, n), es))[n]
         == if !Lost(w.kind, w.time, n.expire) && Ticks(es) >= d then 1 else 0
  {
    AddThis(w, n);
    AddIsLater(w.kind, w.time, n.expire);
    FiresFrom(AddNode(w, n), w.time, n, d, es);
  }

  /** The same for a timer that is linked into a quiet wheel in whatever way. */
  lemma FiresFrom(w: Wheel, time: u32, n: TimerNode, d: nat, es: seq<Event>)
    requires Quiet(w) && w.time == time && Home(w, n, PlaceOf(w.kind, time, n.expire))
    requires Allowed(w.kind, time, n.expire) && U32(n.expire - time) == d
    requires Legal(w, es) && Without(es, n)
    ensures multiset(Fired(w, es))[n] == if !Lost(w.kind, time, n.expire) && Ticks(es) >= d then 1 else 0
  {
    var p := PlaceOf(w.kind, time, n.expire);
    LostIsDead(w.kind, time, n.expire);
    PlacedOnTime(w.kind, time, n.expire);
    assert Left(time, n.expire) == d;
    hide Left, Home, OnTime, PlaceOf, Dead, Lost;
    if Dead(w.kind, p) {
      RunDead(w, es, n, p);
    } else {
      assert Waiting(w, n, p);
      RunProgress(w, es, n, d);
    }
  }

  /** And for one that a callback adds while the lock is released in a tick that dispatches
      something: its delay counts from the time of that tick. */
  lemma CallbackFiresExactly(w: Wheel, first: List, second: List, n: TimerNode, d: nat, es: seq<Event>)
    requires Quiet(w) && Absent(w, n) && LegalEvent(w, Tick(first, second)) && multiset(second)[n] == 1
    requires Update(w, first, second).1 != []
    requires var now: u32 := U32(w.time + 1); Allowed(w.kind, now, n.expire) && U32(n.expire - now) == d
    requires Legal(Update(w, first, second).0, es) && Without(es, n)
    ensures n !in Update(w, first, second).1
    ensures multiset(Fired(Update(w, first, second).0, es))[n]
         == if !Lost(w.kind, U32(w.time + 1), n.expire) && Ticks(es) >= d then 1 else 0
  {
    hide Update, Shift, Quiet, Home, Absent, Lost, Without, Fired, PlaceOf, Allowed, Execute;
    AbsentIsShaped(w, n);
    var r := Update(w, first, second);
    UpdateQuiet(w, first, second);
    var v := Shift(w);
    ShiftAbsent(w, n);
    CallbackPlaced(v, second, n);
    hide Legal;
    FiresFrom(r.0, U32(w.time + 1), n, d, es);
  }

  lemma AbsentIsShaped(w: Wheel, n: TimerNode)
    requires Absent(w, n)
    ensures Shaped(w)
  {
  }

  lemma CallbackPlaced(v: Wheel, adds: List, n: TimerNode)
    requires Absent(v, n) && multiset(adds)[n] == 1 && Execute(v, adds).1 != []
    ensures Home(Execute(v, adds).0, n, PlaceOf(v.kind, v.time, n.expire)) && n !in Execute(v, adds).1
    ensures Execute(v, adds).0.kind == v.kind
  {
    AddAmong(Put(v, Now(v), []), adds, n);
  }

  /** timewheel.c: delays below 256 and from 2^26 on are always served. */
  lemma ShortAndLongDelays(time: u32, expire: u32)
    requires U32(expire - time) < 0x100 || U32(expire - time) >= 0x400_0000
    ensures !Lost(Radix, time, expire)
  {
  }

  /** timewheel.c: a delay of 256 ticks, set when the time is 16128, is never served. */
  lemma SomeTimersNeverFire(w: Wheel, n: TimerNode, es: seq<Event>)
    requires w.kind == Radix && Quiet(w) && Absent(w, n) && w.time == 16128 && n.expire == 16128 + 256
    requires Legal(AddNode(w, n), es) && Without(es, n)
    ensures n !in Fired(AddNode(w, n), es)
  {
    assert Lost(Radix, 16128, 16128 + 256);
    hide Legal, Without, AddNode, Fired, Quiet, Absent;
    FiresExactly(w, n, 256, es);
  }

  lemma ClockLost(time: u32, expire: u32)
    requires time < expire
    ensures U32(expire - time) == expire - time
    ensures time == 3540 && expire == 3600 ==> Lost(Clock, time, expire)
    ensures expire - time < 60 || expire - time >= 3600 ==> !Lost(Clock, time, expire)
  {
  }

  /** clock-timer.c: a delay of 60 ticks, set when the time is 3540, is never served; delays
      below a minute and from an hour on always are, however many half days they span. */
  lemma ClockDelays(w: Wheel, n: TimerNode, es: seq<Event>)
    requires w.kind == Clock && Quiet(w) && Absent(w, n) && w.time < n.expire
    requires Legal(AddNode(w, n), es) && Without(es, n)
    ensures w.time == 3540 && n.expire == 3600 ==> n !in Fired(AddNode(w, n), es)
    ensures n.expire - w.time < 60 || n.expire - w.time >= 3600 ==>
      multiset(Fired(AddNode(w, n), es))[n] == if Ticks(es) >= n.expire - w.time then 1 else 0
  {
    ClockLost(w.time, n.expire);
    hide Legal, Without, AddNode, Fired, Quiet, Absent, Lost, U32;
    FiresExactly(w, n, n.expire - w.time, es);
  }
}
