/** The timing wheels themselves: slot lists relinked in place, one call of TimerUpdate a
    tick. The two sources share all but the placement, the shift and their sizes. */
module TimeWheel {
  import opened Bits
  import opened Wrappers
  import opened WheelModel
  import opened WheelDigits
  import opened WheelRuns

  /** Which nodes callbacks and other threads cancel during a dispatch: script[k] between the
      dispatch's reads of the k-1st and the k-th flag. */
  type Script = seq<set<TimerNode>>

  function Turn(script: Script, k: nat): set<TimerNode> {
    if k < |script| then script[k] else {}
  }

  /** What has been cancelled before the k-th flag is read, but for the k-th turn itself. */
  ghost function Gone(script: Script, k: nat): set<TimerNode> {
    if k == 0 then {} else Gone(script, k - 1) + Turn(script, k - 1)
  }

  /** The nodes of l whose flag is set. */
  ghost function Cancelled(l: List): set<TimerNode>
    reads l
  {
    set n | n in l && n.cancel
  }

  /** The callbacks a dispatch of l runs from its k-th node on, if those in g are cancelled
      when it begins. */
  ghost function Called(l: List, script: Script, g: set<TimerNode>, k: nat): List
    decreases |l| - k
  {
    if k >= |l| then []
    else (if l[k] in g + Gone(script, k + 1) then [] else [l[k]]) + Called(l, script, g, k + 1)
  }

  ghost predicate Distinct(l: List) {
    forall i, j :: 0 <= i < j < |l| ==> l[i] != l[j]
  }

  lemma {:induction false} CalledListed(l: List, script: Script, g: set<TimerNode>, k: nat, n: TimerNode)
    requires n in Called(l, script, g, k)
    ensures exists i :: k <= i < |l| && l[i] == n
    decreases |l| - k
  {
    if n in Called(l, script, g, k + 1) {
      CalledListed(l, script, g, k + 1, n);
    }
  }

  lemma {:induction false} GoneExactly(script: Script, k: nat, n: TimerNode)
    ensures n in Gone(script, k) <==> exists j :: 0 <= j < k && j < |script| && n in script[j]
  {
    if k > 0 {
      GoneExactly(script, k - 1, n);
    }
  }

  lemma {:induction false} CalledUnlessGone(l: List, script: Script, g: set<TimerNode>, k: nat, i: nat)
    requires Distinct(l) && k <= i < |l|
    ensures l[i] in Called(l, script, g, k) <==> l[i] !in g + Gone(script, i + 1)
    decreases |l| - k
  {
    if k < i {
      CalledUnlessGone(l, script, g, k + 1, i);
    } else if l[i] in Called(l, script, g, k + 1) {
      CalledListed(l, script, g, k + 1, l[i]);
    }
  }

  /** A node is called exactly if nobody has cancelled it by the time its turn comes. */
  lemma CalledExactly(l: List, script: Script, g: set<TimerNode>, i: nat)
    requires Distinct(l) && i < |l|
    ensures l[i] in Called(l, script, g, 0) <==>
      l[i] !in g && forall j :: 0 <= j <= i && j < |script| ==> l[i] !in script[j]
  {
    CalledUnlessGone(l, script, g, 0, i);
    GoneExactly(script, i + 1, l[i]);
  }

  /** The calls are in the order of the list, each node at most once. */
  lemma {:induction false} CalledInOrder(l: List, script: Script, g: set<TimerNode>, k: nat, a: nat, b: nat,
                                         i: nat, j: nat)
    requires Distinct(l) && a < b < |Called(l, script, g, k)| && i < |l| && j < |l|
    requires Called(l, script, g, k)[a] == l[i] && Called(l, script, g, k)[b] == l[j]
    ensures k <= i < j
    decreases |l| - k
  {
    var c, d := Called(l, script, g, k), Called(l, script, g, k + 1);
    CalledListed(l, script, g, k, c[a]);
    if |c| == |d| {
      CalledInOrder(l, script, g, k + 1, a, b, i, j);
    } else if a > 0 {
      CalledInOrder(l, script, g, k + 1, a - 1, b - 1, i, j);
    } else {
      assert c[b] == d[b - 1];
      CalledListed(l, script, g, k + 1, d[b - 1]);
    }
  }

  lemma CalledNone(script: Script)
    ensures forall g :: Called([], script, g, 0) == []
    ensures Gone(script, 0) == {}
  {
  }

  lemma CalledNext(l: List, script: Script, g: set<TimerNode>, k: nat)
    requires k < |l|
    ensures Called(l, script, g, k)
         == (if l[k] in g + Gone(script, k + 1) then [] else [l[k]]) + Called(l, script, g, k + 1)
    ensures Gone(script, k + 1) == Gone(script, k) + Turn(script, k)
  {
  }

  lemma CalledLast(l: List, script: Script, g: set<TimerNode>)
    ensures Called(l, script, g, |l|) == []
  {
  }

  /** Only the flags of l's own nodes matter. */
  lemma {:induction false} CalledSame(l: List, script: Script, g: set<TimerNode>, g': set<TimerNode>, k: nat)
    requires forall n :: n in l ==> (n in g <==> n in g')
    ensures Called(l, script, g, k) == Called(l, script, g', k)
    decreases |l| - k
  {
    if k < |l| {
      CalledSame(l, script, g, g', k + 1);
    }
  }

  lemma AddsAt(w: Wheel, node: TimerNode)
    requires Shaped(w)
    ensures var p := PlaceOf(w.kind, w.time, node.expire); AddNode(w, node) == Put(w, p, Get(w, p) + [node])
  {
  }

  lemma AddsNone(w: Wheel)
    requires Shaped(w)
    ensures AddAll(w, []) == w
  {
  }

  lemma AddsNext(w: Wheel, l: List, i: nat)
    requires Shaped(w) && i < |l|
    ensures AddAll(w, l[..i + 1]) == AddNode(AddAll(w, l[..i]), l[i])
  {
    assert l[..i + 1][..i] == l[..i];
  }

  lemma ShiftsAt(w: Wheel)
    requires Shaped(w)
    ensures Shift(w) == Cascade(Advance(w), CascadeSlot(w.kind, Advance(w).time)) && Shaped(Advance(w))
    ensures Advance(w).time == U32(w.time + 1)
  {
  }

  /** 2^8, 2^14, 2^20 and 2^26. */
  lemma Units()
    ensures forall i :: 0 <= i < 4 ==> Pow(2, 8 + 6 * i) == Unit(i)
    ensures Pow(2, 6) == LEVEL
  {
    Pow2Values();
    PowAdd(2, 8, 6);
    PowAdd(2, 14, 6);
    PowAdd(2, 20, 6);
    forall i | 0 <= i < 4
      ensures Pow(2, 8 + 6 * i) == Unit(i)
    {
      assert i == 0 || i == 1 || i == 2 || i == 3;
    }
  }

  /** The shift-and-mask expressions of add_node. */
  lemma RadixSlots(e: u32)
    ensures And(e, 255) == e % NEAR
    ensures And(Shr(e, 8), 63) == e / Unit(0) % LEVEL && And(Shr(e, 14), 63) == e / Unit(1) % LEVEL
    ensures And(Shr(e, 20), 63) == e / Unit(2) % LEVEL && And(Shr(e, 26), 63) == e / Unit(3) % LEVEL
  {
    Units();
    AndMask(e, 8);
    Slot(e, 0);
    Slot(e, 1);
    Slot(e, 2);
    Slot(e, 3);
  }

  /** The slot that add_node of timewheel.c computes, by shifting and masking. */
  function RadixSlot(time: u32, e: u32): Place {
    var msec := U32(e - time);
    if msec < 256 then Near(And(e, 255))
    else if msec < 0x4000 then Level(0, And(Shr(e, 8), 63))
    else if msec < 0x10_0000 then Level(1, And(Shr(e, 14), 63))
    else if msec < 0x400_0000 then Level(2, And(Shr(e, 20), 63))
    else Level(3, And(Shr(e, 26), 63))
  }

  lemma RadixSlotIs(time: u32, e: u32)
    ensures RadixSlot(time, e) == RadixPlace(time, e)
  {
    RadixSlots(e);
    hide And, Shr;
  }

  lemma Slot(e: u32, i: nat)
    requires i < 4
    ensures And(Shr(e, 8 + 6 * i), 63) == e / Unit(i) % LEVEL
  {
    Units();
    ShrDiv(e, 8 + 6 * i);
    AndMask(Shr(e, 8 + 6 * i), 6);
  }

  /** Afterwards the slot is empty; an empty slot gives nothing. */
  lemma ExecuteTells(w: Wheel, adds: List)
    requires Shaped(w) && Quiet(Execute(w, adds).0)
    ensures w.near[w.time % Slots(w.kind)] == [] ==> Execute(w, adds) == (w, [])
    ensures Execute(w, adds).0.kind == w.kind && Execute(w, adds).0.near[w.time % Slots(w.kind)] == []
  {
  }

  /** What is due in the new tick has been in the wheel before or is added in the first part. */
  lemma DueIsKnown(w: Wheel, first: List, second: List, n: TimerNode)
    requires Shaped(w) && n in Execute(Shift(Execute(w, first).0), second).1
    ensures n in first || exists p :: IsPlace(w.kind, p) && n in Get(w, p)
  {
    if n !in first && Absent(w, n) {
      hide Shift;
      ExecuteAbsent(w, first, n);
      ShiftAbsent(Execute(w, first).0, n);
    }
  }

  /** All digits of ct below level i are zero. */
  ghost predicate LowZeros(ct: u32, i: nat) {
    forall j :: 0 <= j < i ==> ct % Unit(j) == 0 && ct / Unit(j) % LEVEL == 0
  }

  /** What one turn of the loop of timer_shift reads. */
  lemma Digit(ct: u32, i: nat)
    requires i < 4
    ensures i == 0 ==> Unit(0) == 256 && Shr(ct, 8) == ct / Unit(0) && And(ct, 255) == ct % Unit(0) && LowZeros(ct, 0)
    ensures And(ct / Unit(i), 63) == ct / Unit(i) % LEVEL
    ensures i < 3 ==>
      && Unit(i) * 64 == Unit(i + 1) && Shr(ct / Unit(i), 6) == ct / Unit(i + 1)
      && And(ct, Unit(i + 1) - 1) == ct % Unit(i + 1)
  {
    Units();
    ShrDiv(ct, 8);
    AndMask(ct, 8);
    AndMask(ct / Unit(i), 6);
    ShrDiv(ct / Unit(i), 6);
    if i < 3 {
      AndMask(ct, 8 + 6 * (i + 1));
      UnitSteps(ct, i);
    }
    hide And, Shr, Pow, Unit;
  }

  lemma UnitSteps(ct: u32, i: nat)
    requires i < 3
    ensures Unit(i) * 64 == Unit(i + 1) && ct / Unit(i) / LEVEL == ct / Unit(i + 1)
  {
    Split(ct);
    assert i == 0 || i == 1 || i == 2;
  }

  /** What the digit at level i means for the cascade. */
  lemma DigitCascade(ct: u32, i: nat)
    requires i < 4 && ct != 0 && LowZeros(ct, i) && ct % Unit(i) == 0
    ensures var idx := ct / Unit(i) % LEVEL;
      && (idx != 0 ==> RadixCascade(ct) == Some(Level(i, idx)))
      && (idx == 0 ==> i < 3 && LowZeros(ct, i + 1))
  {
    LowDigits(ct);
    assert i == 0 || i == 1 || i == 2 || i == 3;
  }

  lemma LowZerosBelow(ct: u32, i: nat)
    requires ct != 0 && 0 < i < 4 && LowZeros(ct, i)
    ensures ct % Unit(i) == 0
  {
    LowDigits(ct);
    assert ct % Unit(i - 1) == 0 && ct / Unit(i - 1) % LEVEL == 0;
  }

  /** The loop ends in front only if the lowest digit is not zero. */
  lemma NoDigit(ct: u32, i: nat)
    requires i < 4 && LowZeros(ct, i) && ct % Unit(i) != 0
    ensures RadixCascade(ct) == None
  {
    if i > 0 {
      LowZerosBelow(ct, i);
      assert false;
    }
  }

  class TimeWheel {
    const kind: Kind
    var time: u32
    var near: seq<List>
    var t: seq<seq<List>>
    /** The nodes whose callbacks have been run, in order. */
    var called: List

    function View(): Wheel
      reads this
    {
      Wheel(kind, time, near, t)
    }

    predicate Valid()
      reads this
    {
      Shaped(View())
    }

    /** timer_create_timer and create_timer. */
    constructor (kind: Kind)
      ensures this.kind == kind && Valid() && View() == Empty(kind) && Quiet(View()) && called == []
    {
      this.kind := kind;
      time, called := 0, [];
      near := seq(Slots(kind), _ => []);
      t := if kind.Radix? then seq(4, _ => seq(LEVEL, _ => [])) else [seq(MINUTES, _ => []), seq(HOURS, _ => [])];
    }

    method Link(p: Place, node: TimerNode)
      requires Valid() && IsPlace(kind, p)
      modifies this`near, this`t
      ensures Valid() && View() == Put(old(View()), p, Get(old(View()), p) + [node])
    {
      match p
      case Near(k) => near := near[k := near[k] + [node]];
      case Level(i, k) => t := t[i := t[i][k := t[i][k] + [node]]];
    }

    method LinkClear(p: Place) returns (list: List)
      requires Valid() && IsPlace(kind, p)
      modifies this`near, this`t
      ensures Valid() && list == Get(old(View()), p) && View() == Put(old(View()), p, [])
    {
      match p
      case Near(k) => list, near := near[k], near[k := []];
      case Level(i, k) => list, t := t[i][k], t[i := t[i][k := []]];
    }

    method AddNodeTo(node: TimerNode)
      requires Valid()
      modifies this`near, this`t
      ensures Valid() && View() == AddNode(old(View()), node)
    {
      if kind.Radix? {
        RadixAddNode(node);
      } else {
        ClockAddNode(node);
      }
    }

    /** add_node of timewheel.c: the slot by distance, the index by shifting and masking. */
    method RadixAddNode(node: TimerNode)
      requires Valid() && kind.Radix?
      modifies this`near, this`t
      ensures Valid() && View() == AddNode(old(View()), node)
    {
      RadixSlotIs(time, node.expire);
      AddsAt(View(), node);
      hide Put, Get, AddNode, Shaped, RadixPlace, RadixSlot;
      Link(RadixSlot(time, node.expire), node);
    }

    /** add_node of clock-timer.c. */
    method ClockAddNode(node: TimerNode)
      requires Valid() && kind.Clock?
      modifies this`near, this`t
      ensures Valid() && View() == AddNode(old(View()), node)
    {
      var e := node.expire;
      var msec := U32(e - time);
      AddsAt(View(), node);
      hide Put, Get, AddNode, Shaped;
      var slot :=
        if msec < 60 then Near(e % SECONDS)
        else if msec < ONE_HOUR then Level(0, e / 60 % MINUTES)
        else Level(1, e / ONE_HOUR % HOURS);
      Link(slot, node);
    }

    /** add_timer. */
    method AddTimer(delay: int, id: int) returns (node: TimerNode?)
      requires Valid() && -0x8000_0000 <= delay < 0x8000_0000
      modifies this
      ensures Valid()
      ensures delay <= 0 ==>
        && node == null && View() == old(View()) && |called| == |old(called)| + 1 && old(called) < called
        && var n := called[|called| - 1]; fresh(n) && n.id == id && n.expire == U32(delay + old(time))
      ensures delay > 0 ==>
        && node != null && fresh(node) && node.id == id && !node.cancel
        && node.expire == U32(delay + old(time)) && Left(old(time), node.expire) == delay
        && View() == AddNode(old(View()), node) && called == old(called)
        && Absent(old(View()), node)
    {
      var n := new TimerNode(U32(delay + time), id);
      if delay <= 0 {
        called := called + [n];
        return null;
      }
      AddNodeTo(n);
      return n;
    }

    /** del_timer. */
    method DelTimer(node: TimerNode)
      requires Valid()
      modifies node`cancel
      ensures node.cancel && View() == old(View())
    {
      node.cancel := true;
    }

    method AddEach(list: List)
      requires Valid()
      modifies this`near, this`t
      ensures Valid() && View() == AddAll(old(View()), list)
    {
      var i := 0;
      ghost var w := View();
      AddsNone(w);
      hide AddNode, AddAll, Shaped;
      while i < |list|
        invariant 0 <= i <= |list| && Valid()
        invariant View() == AddAll(w, list[..i])
      {
        AddsNext(w, list, i);
        AddNodeTo(list[i]);
        i := i + 1;
      }
      assert list[..i] == list;
    }

    /** move_list and remap. */
    method MoveListAt(level: nat, idx: nat)
      requires Valid() && IsPlace(kind, Level(level, idx))
      modifies this`near, this`t
      ensures Valid() && View() == MoveList(old(View()), Level(level, idx))
    {
      var current := LinkClear(Level(level, idx));
      AddEach(current);
    }

    method TimerShift()
      requires Valid()
      modifies this`time, this`near, this`t
      ensures Valid() && View() == Shift(old(View()))
    {
      if kind.Radix? {
        RadixShift();
      } else {
        ClockShift();
      }
    }

    /** timer_shift of clock-timer.c. */
    method ClockShift()
      requires Valid() && kind.Clock?
      modifies this`time, this`near, this`t
      ensures Valid() && View() == Shift(old(View()))
    {
      ShiftsAt(View());
      hide Put, Get, MoveList, Shift, Shaped;
      time := U32(time + 1);
      var ct := time % HALF_DAY;
      if ct == 0 {
        MoveListAt(1, 0);
      } else if ct % SECONDS == 0 {
        var idx := ct / 60 % MINUTES;
        if idx != 0 {
          MoveListAt(0, idx);
          return;
        }
        idx := ct / ONE_HOUR % HOURS;
        if idx != 0 {
          MoveListAt(1, idx);
        }
      }
    }

    /** timer_shift of timewheel.c: the loop looks for the lowest digit that is not zero. */
    method RadixShift()
      requires Valid() && kind.Radix?
      modifies this`time, this`near, this`t
      ensures Valid() && View() == Shift(old(View()))
    {
      ShiftsAt(View());
      ghost var w := Advance(View());
      hide MoveList, Shift, Shaped, And, Shr, Advance, RadixCascade, LowZeros, Unit;
      var mask := 256;
      time := U32(time + 1);
      var ct := time;
      Digit(ct, 0);
      if ct == 0 {
        MoveListAt(3, 0);
      } else {
        var tm := Shr(ct, 8);
        var i := 0;
        while And(ct, mask - 1) == 0
          invariant 0 <= i < 4 && mask == Unit(i) && tm == ct / Unit(i) && And(ct, mask - 1) == ct % Unit(i)
          invariant View() == w && Valid() && LowZeros(ct, i)
          decreases 4 - i
        {
          Digit(ct, i);
          DigitCascade(ct, i);
          var idx := And(tm, 63);
          if idx != 0 {
            MoveListAt(i, idx);
            return;
          }
          mask := mask * 64;
          tm := Shr(tm, 6);
          i := i + 1;
        }
        NoDigit(ct, i);
      }
    }

    /** del_timer by callbacks and other threads. */
    method CancelAll(ns: set<TimerNode>)
      modifies ns`cancel
      ensures forall n :: n in ns ==> n.cancel
    {
      forall n | n in ns {
        n.cancel := true;
      }
    }

    /** dispatch_list: the callbacks, in list order, of the nodes that are not cancelled when
        their turn comes. */
    method DispatchList(list: List, script: Script, ghost all: set<TimerNode>)
      requires forall k :: Turn(script, k) <= all
      modifies this`called, all`cancel
      ensures called == old(called) + Called(list, script, old(Cancelled(list)), 0)
      ensures Distinct(list) ==> forall i :: 0 <= i < |list| ==>
        (list[i] in called[|old(called)|..] <==>
           !old(list[i].cancel) && forall j :: 0 <= j <= i && j < |script| ==> list[i] !in script[j])
      ensures forall n :: n in all ==> n.cancel == (old(n.cancel) || n in Gone(script, |list|))
      ensures Gone(script, |list|) <= all
    {
      var current, k := list, 0;
      ghost var g := Cancelled(list);
      CalledNone(script);
      hide Turn, Called, Gone;
      while current != []
        invariant 0 <= k <= |list| && current == list[k..] && Gone(script, k) <= all
        invariant called + Called(list, script, g, k) == old(called) + Called(list, script, g, 0)
        invariant forall n :: n in all ==> n.cancel == (old(n.cancel) || n in Gone(script, k))
        decreases |current|
      {
        CalledNext(list, script, g, k);
        var temp := current[0];
        current := current[1..];
        DispatchOne(temp, Turn(script, k));
        k := k + 1;
      }
      CalledLast(list, script, g);
      ghost var made := Called(list, script, g, 0);
      assert called == called + Called(list, script, g, k) == old(called) + made;
      assert (old(called) + made)[|old(called)|..] == made;
      if Distinct(list) {
        forall i | 0 <= i < |list|
          ensures list[i] in Called(list, script, g, 0) <==>
            list[i] !in g && forall j :: 0 <= j <= i && j < |script| ==> list[i] !in script[j]
        {
          CalledExactly(list, script, g, i);
        }
      }
    }

    /** The flag of one node is read, after some have been set. */
    method DispatchOne(temp: TimerNode, turn: set<TimerNode>)
      modifies this`called, turn`cancel
      ensures called == old(called) + if old(temp.cancel) || temp in turn then [] else [temp]
      ensures forall n :: n in turn ==> n.cancel
    {
      CancelAll(turn);
      if !temp.cancel {
        called := called + [temp];
      }
    }

    /** timer_execute: `adds` is what callbacks and other threads add while the lock is
        released, and `script` what they cancel. All that is added is later, so one round of
        the loop is enough. */
    method TimerExecute(adds: List, script: Script, ghost all: set<TimerNode>) returns (ghost fired: List)
      requires Valid() && Delayed(kind, time, adds) && forall k :: Turn(script, k) <= all
      modifies this`near, this`t, this`called, all`cancel
      ensures Valid() && (View(), fired) == Execute(old(View()), adds)
      ensures called == old(called) + Called(fired, script, old(Cancelled(fired)), 0)
      ensures forall n :: n in all ==> n.cancel == (old(n.cancel) || n in Gone(script, |fired|))
      ensures Gone(script, |fired|) <= all
    {
      AndMask(time, 8);
      Units();
      var idx := if kind.Radix? then And(time, 255) else time % SECONDS;
      assert IsPlace(kind, Near(idx)) && Now(View()) == Near(idx);
      hide And, Pow;
      fired := [];
      ghost var w, due, off := View(), near[idx], Cancelled(near[idx]);
      ExecuteQuiet(w, adds);
      ExecuteTells(w, adds);
      CalledNone(script);
      hide Execute, Put, AddAll, Delayed, Quiet, Turn, Called, Gone, Cancelled;
      while near[idx] != []
        invariant Valid() && time == old(time)
        invariant if fired == [] then View() == w && called == old(called) && Cancelled(due) == off
                  else (View(), due) == Execute(w, adds) && called == old(called) + Called(due, script, off, 0)
        invariant fired == [] || fired == due
        invariant forall n :: n in all ==> n.cancel == (old(n.cancel) || n in Gone(script, |fired|))
        invariant Gone(script, |fired|) <= all
        decreases |near[idx]|
      {
        fired := ExecuteRound(idx, adds, script, all);
      }
    }

    /** One round of its loop. */
    method ExecuteRound(idx: nat, adds: List, script: Script, ghost all: set<TimerNode>) returns (ghost fired: List)
      requires Valid() && Now(View()) == Near(idx) && near[idx] != [] && forall k :: Turn(script, k) <= all
      modifies this`near, this`t, this`called, all`cancel
      ensures Valid() && (View(), fired) == Execute(old(View()), adds) && fired == old(near[idx])
      ensures called == old(called) + Called(fired, script, old(Cancelled(fired)), 0)
      ensures forall n :: n in all ==> n.cancel == (old(n.cancel) || n in Gone(script, |fired|))
      ensures Gone(script, |fired|) <= all
    {
      hide Put, AddAll, Called, Turn, Gone;
      fired := near[idx];
      var current := LinkClear(Near(idx));
      DispatchList(current, script, all);
      AddEach(adds);
    }

    /** timer_update: one tick, the nodes due in it dispatched, first those left from the tick
        before, if any, and then those of the new one. */
    method TimerUpdate(first: List, second: List, script: Script, script': Script, ghost all: set<TimerNode>)
      returns (ghost fired: List)
      requires Valid() && Delayed(kind, time, first) && Delayed(kind, U32(time + 1), second)
      requires forall k :: Turn(script, k) <= all && Turn(script', k) <= all
      modifies this, all`cancel
      ensures Valid() && (View(), fired) == Update(old(View()), first, second)
      ensures var a := Execute(old(View()), first).1;
        && |a| <= |fired| && var b := fired[|a|..];
        called == old(called) + Called(a, script, old(Cancelled(a)), 0)
                  + Called(b, script', old(Cancelled(b)) + Gone(script, |a|), 0)
    {
      hide Execute, Shift, Delayed, Called, Turn, Gone;
      ghost var w := View();
      ghost var b := Execute(Shift(Execute(w, first).0), second).1;
      ghost var off := Cancelled(b);
      forall n | n in b
        ensures old(allocated(n))
      {
        DueIsKnown(w, first, second, n);
        if n !in first {
          var p :| IsPlace(kind, p) && n in Get(w, p);
          assert if p.Near? then n in near[p.k] else n in t[p.i][p.k];
        }
      }
      hide Shaped;
      ghost var a := TimerExecute(first, script, all);
      TimerShift();
      CalledSame(b, script', Cancelled(b), off + Gone(script, |a|), 0);
      ghost var b' := TimerExecute(second, script', all);
      fired := a + b;
      assert fired[|a|..] == b;
    }
  }

  /** If all lower digits of a nonzero time are zero, the top one is not. */
  lemma LowDigits(ct: u32)
    requires ct != 0
    ensures ct % Unit(3) == 0 ==> ct / Unit(3) % LEVEL != 0
    ensures forall i :: 0 <= i < 3 ==> ct / Unit(i) / LEVEL == ct / Unit(i + 1)
    ensures forall i :: 0 <= i < 3 && ct % Unit(i) == 0 && ct / Unit(i) % LEVEL == 0 ==> ct % Unit(i + 1) == 0
    ensures ct % Unit(0) != 0 ==> ct % Unit(1) != 0 && ct % Unit(2) != 0 && ct % Unit(3) != 0
  {
    Split(ct);
  }
}
