/** The intrusive binary heap of timers: an array of entries, each of which knows its index. */
module MinHeap {
  class Entry {
    var time: nat
    /** The position in the heap, -1 outside. */
    var index: int

    constructor (time: nat)
      ensures this.time == time && index == -1
    {
      this.time, index := time, -1;
    }
  }

  function Max(a: nat, b: nat): nat {
    if a < b then b else a
  }

  function Parent(i: int): int {
    (i - 1) / 2
  }

  // ------------------------------------------------------- heap order on sequences of times

  /** No entry is earlier than its parent. */
  ghost predicate Ordered(t: seq<nat>) {
    forall i :: 0 < i < |t| ==> t[Parent(i)] <= t[i]
  }

  /** The same but for the links from and to position h, across which order still holds. */
  ghost predicate OrderedAround(t: seq<nat>, h: int) {
    && (forall i :: 0 < i < |t| && i != h && Parent(i) != h ==> t[Parent(i)] <= t[i])
    && (forall i :: 0 < i < |t| && Parent(i) == h && h > 0 ==> t[Parent(h)] <= t[i])
  }

  /** Only position h may be earlier than its parent. */
  ghost predicate MayRise(t: seq<nat>, h: int) {
    OrderedAround(t, h) && forall i :: 0 < i < |t| && Parent(i) == h ==> t[h] <= t[i]
  }

  /** Only position h may be later than its children. */
  ghost predicate MaySink(t: seq<nat>, h: int) {
    OrderedAround(t, h) && (0 < h < |t| ==> t[Parent(h)] <= t[h])
  }

  function Swap<T>(t: seq<T>, i: int, j: int): seq<T>
    requires 0 <= i < |t| && 0 <= j < |t|
  {
    t[i := t[j]][j := t[i]]
  }

  /** A replaced entry never needs to move both up and down. */
  lemma OneDirection(t: seq<nat>, h: int)
    requires 0 <= h < |t| && OrderedAround(t, h)
    ensures h > 0 && t[Parent(h)] > t[h] ==> MayRise(t, h)
    ensures h == 0 || t[Parent(h)] <= t[h] ==> MaySink(t, h)
  {
  }

  lemma Rises(t: seq<nat>, h: int)
    requires 0 < h < |t| && MayRise(t, h) && t[Parent(h)] > t[h]
    ensures MayRise(Swap(t, h, Parent(h)), Parent(h))
  {
    var u := Swap(t, h, Parent(h));
    forall i | 0 < i < |u| && i != Parent(h) && Parent(i) != Parent(h)
      ensures u[Parent(i)] <= u[i]
    {
      if Parent(i) == h {
        assert t[Parent(h)] <= t[i];
      }
    }
  }

  lemma Sinks(t: seq<nat>, h: int, c: int)
    requires 0 <= h < |t| && MaySink(t, h) && 0 < c < |t| && Parent(c) == h && t[h] > t[c]
    requires forall i :: 0 < i < |t| && Parent(i) == h ==> t[c] <= t[i]
    ensures MaySink(Swap(t, h, c), c)
  {
  }

  /** The earliest time is at the top. */
  lemma {:induction false} TopIsEarliest(t: seq<nat>, i: int)
    requires Ordered(t) && 0 <= i < |t|
    ensures t[0] <= t[i]
    decreases i
  {
    if i > 0 {
      TopIsEarliest(t, Parent(i));
    }
  }

  // ------------------------------------------------------- the heap in memory

  ghost predicate Once(q: seq<Entry>) {
    forall i, j :: 0 <= i < j < |q| ==> q[i] != q[j]
  }

  ghost function Times(q: seq<Entry>): (t: seq<nat>)
    reads q`time
    ensures |t| == |q| && forall i :: 0 <= i < |q| ==> t[i] == q[i].time
  {
    if q == [] then [] else Times(q[..|q| - 1]) + [q[|q| - 1].time]
  }

  ghost function Elems(q: seq<Entry>): set<Entry> {
    set x | x in q
  }

  lemma SwapElems(q: seq<Entry>, i: int, j: int)
    requires 0 <= i < |q| && 0 <= j < |q|
    ensures Elems(Swap(q, i, j)) == Elems(q)
  {
    var r := Swap(q, i, j);
    assert forall k :: 0 <= k < |q| ==> r[k] == if k == j then q[i] else if k == i then q[j] else q[k];
    forall x
      ensures x in q <==> x in r
    {
      if x in q {
        var k :| 0 <= k < |q| && q[k] == x;
        assert r[if k == i then j else if k == j then i else k] == x;
      }
    }
  }

  lemma SwapTimes(q: seq<Entry>, i: int, j: int)
    requires 0 <= i < |q| && 0 <= j < |q|
    ensures Times(Swap(q, i, j)) == Swap(Times(q), i, j)
  {
    hide Times;
    var t, r := Times(q), Swap(q, i, j);
    forall k | 0 <= k < |q|
      ensures Times(r)[k] == Swap(t, i, j)[k]
    {
      assert Times(r)[k] == r[k].time;
    }
    assert Times(r) == Swap(t, i, j);
  }

  class MinHeap {
    var p: array<Entry?>
    var n: nat
    /** The entries in array order. */
    ghost var order: seq<Entry>

    constructor ()
      ensures Valid() && fresh(p) && order == []
    {
      p := new Entry?[0];
      n, order := 0, [];
    }

    /** The first |q| places hold q, but for place h. */
    ghost predicate FilledBut(q: seq<Entry>, h: int)
      reads this`p, p, q`index
    {
      && |q| <= p.Length
      && forall i :: 0 <= i < |q| && i != h ==> p[i] == q[i] && q[i].index == i && (0 <= h < |q| ==> q[i] != q[h])
    }

    ghost predicate Valid()
      reads this, p, order
    {
      n == |order| && FilledBut(order, -1) && Ordered(Times(order))
    }

    /** All entries es are in place but e, which belongs at the hole. */
    ghost predicate Holed(q: seq<Entry>, hole: int, e: Entry, es: set<Entry>)
      reads this`p, p, q`index
    {
      0 <= hole < |q| && q[hole] == e && FilledBut(q, hole) && Elems(q) == es
    }

    lemma InPlace(q: seq<Entry>, hole: nat, e: Entry, es: set<Entry>, i: nat)
      requires Holed(q, hole, e, es)
      ensures |q| <= p.Length && (i < |q| && i != hole ==> p[i] == q[i])
    {
    }

    /** (s->p[hole] = s->p[from])->min_heap_idx = hole */
    method MoveInto(hole: nat, from: nat, e: Entry, ghost q: seq<Entry>, ghost es: set<Entry>)
      requires Holed(q, hole, e, es) && from < |q| && hole != from
      modifies p, es`index
      ensures Holed(Swap(q, hole, from), from, e, es)
      ensures Times(Swap(q, hole, from)) == Swap(old(Times(q)), hole, from)
    {
      hide Elems, Times;
      SwapElems(q, hole, from);
      SwapTimes(q, hole, from);
      Members(q, es);
      var x := p[from];
      p[hole] := x;
      x.index := hole;
    }

    lemma HoleIsE(q: seq<Entry>, hole: nat, e: Entry, es: set<Entry>)
      requires Holed(q, hole, e, es)
      ensures hole < |q| && q[hole] == e && e in es
    {
    }

    /** (s->p[hole] = e)->min_heap_idx = hole */
    method Settle(hole: nat, e: Entry, ghost q: seq<Entry>, ghost es: set<Entry>)
      requires Holed(q, hole, e, es)
      modifies p, e`index
      ensures FilledBut(q, -1) && Elems(q) == es && Times(q) == old(Times(q))
    {
      p[hole] := e;
      e.index := hole;
    }

    /** min_heap_shift_up_ */
    method ShiftUp(hole': nat, e: Entry, ghost q': seq<Entry>, ghost es: set<Entry>) returns (ghost q: seq<Entry>)
      requires Holed(q', hole', e, es) && MayRise(Times(q'), hole')
      modifies p, es`index
      ensures |q| == |q'| && FilledBut(q, -1) && Elems(q) == es && Ordered(Times(q))
      ensures hole' > 0 && q'[0].time <= e.time ==> q[0] == q'[0]
    {
      var hole := hole';
      q := q';
      var parent := Parent(hole);
      hide MayRise, Elems, Times;
      while hole != 0 && p[parent].time > e.time
        invariant 0 <= hole && parent == Parent(hole) && |q| == |q'|
        invariant Holed(q, hole, e, es) && MayRise(Times(q), hole)
        invariant hole' > 0 && q'[0].time <= e.time ==> hole > 0 && q[0] == q'[0]
        decreases hole
      {
        Rises(Times(q), hole);
        MoveInto(hole, parent, e, q, es);
        q := Swap(q, hole, parent);
        hole := parent;
        parent := Parent(hole);
      }
      HoleIsE(q, hole, e, es);
      RisenIsOrdered(Times(q), hole);
      Settle(hole, e, q, es);
    }

    /** min_heap_shift_up_unconditional_: the same, with the first comparison already made. */
    method ShiftUpUnconditional(hole': nat, e: Entry, ghost q': seq<Entry>, ghost es: set<Entry>)
      returns (ghost q: seq<Entry>)
      requires Holed(q', hole', e, es) && MayRise(Times(q'), hole')
      requires hole' > 0 && q'[Parent(hole')].time > e.time
      modifies p, es`index
      ensures |q| == |q'| && FilledBut(q, -1) && Elems(q) == es && Ordered(Times(q))
    {
      var hole := hole';
      q := q';
      var parent := Parent(hole);
      hide MayRise, Elems, Times;
      while true
        invariant 0 < hole && parent == Parent(hole) && |q| == |q'|
        invariant Holed(q, hole, e, es) && MayRise(Times(q), hole) && q[parent].time > e.time
        decreases hole
      {
        Rises(Times(q), hole);
        MoveInto(hole, parent, e, q, es);
        q := Swap(q, hole, parent);
        hole := parent;
        parent := Parent(hole);
        if !(hole != 0 && p[parent].time > e.time) {
          break;
        }
      }
      HoleIsE(q, hole, e, es);
      RisenIsOrdered(Times(q), hole);
      Settle(hole, e, q, es);
    }

    /** min_heap_shift_down_ */
    method ShiftDown(hole': nat, e: Entry, ghost q': seq<Entry>, ghost es: set<Entry>) returns (ghost q: seq<Entry>)
      requires Holed(q', hole', e, es) && MaySink(Times(q'), hole') && n == |q'|
      modifies p, es`index
      ensures |q| == |q'| && FilledBut(q, -1) && Elems(q) == es && Ordered(Times(q))
    {
      var hole := hole';
      q := q';
      var minChild := 2 * (hole + 1);
      hide MaySink, Elems, Times, Holed, FilledBut, Ordered;
      HoleIsE(q, hole, e, es);
      while minChild <= n
        invariant 0 <= hole < |q| == |q'| == n && minChild == 2 * (hole + 1)
        invariant Holed(q, hole, e, es) && MaySink(Times(q), hole) && q[hole] == e
        decreases n - hole
      {
        InPlace(q, hole, e, es, minChild - 1);
        InPlace(q, hole, e, es, minChild);
        minChild := minChild - if minChild == n || p[minChild].time > p[minChild - 1].time then 1 else 0;
        SmallerChild(Times(q), hole, minChild);
        if !(e.time > p[minChild].time) {
          break;
        }
        Sinks(Times(q), hole, minChild);
        MoveInto(hole, minChild, e, q, es);
        q := Swap(q, hole, minChild);
        hole := minChild;
        HoleIsE(q, hole, e, es);
        minChild := 2 * (hole + 1);
      }
      HoleIsE(q, hole, e, es);
      NoSmallerChild(Times(q), hole, minChild);
      SunkIsOrdered(Times(q), hole);
      Settle(hole, e, q, es);
    }

    /** min_heap_reserve_: the array doubles. */
    method Reserve(k: nat)
      requires Valid()
      modifies this`p
      ensures Valid() && (p == old(p) || fresh(p))
      ensures p.Length == if old(p.Length) >= k then old(p.Length)
                          else Max(k, if old(p.Length) > 0 then old(p.Length) * 2 else 8)
    {
      if p.Length < k {
        var a := if p.Length > 0 then p.Length * 2 else 8;
        if a < k {
          a := k;
        }
        p := Moved(a);
        hide Ordered, Times;
      }
    }

    /** realloc */
    method Moved(a: nat) returns (p': array<Entry?>)
      requires n <= p.Length <= a
      ensures fresh(p') && p'.Length == a && forall j :: 0 <= j < n ==> p'[j] == p[j]
    {
      p' := new Entry?[a];
      var i := 0;
      while i < n
        invariant 0 <= i <= n
        invariant forall j :: 0 <= j < i ==> p'[j] == p[j]
      {
        p'[i] := p[i];
        i := i + 1;
      }
    }

    /** min_heap_top_ */
    method Top() returns (e: Entry?)
      requires Valid()
      ensures order == [] ==> e == null
      ensures order != [] ==> e == order[0] && forall x :: x in order ==> e.time <= x.time
    {
      if n == 0 {
        return null;
      }
      e := p[0];
      TopIsLeast();
    }

    /** The new entry may be put behind all others and rise from there. */
    lemma PushHoled(e: Entry)
      requires Valid() && e !in order && p.Length > n
      ensures Holed(order + [e], n, e, Elems(order) + {e}) && MayRise(Times(order + [e]), n)
      ensures forall x :: x in Elems(order) + {e} ==> x in order || x == e
    {
      LastMayRise(Times(order), e.time);
      assert (order + [e])[..n] == order;
      PushElems(order, e);
      NotAmong(order, e);
      hide Elems, MayRise;
    }

    /** min_heap_push_ */
    method Push(e: Entry)
      requires Valid() && e !in order
      modifies this`p, this`n, this`order, p, order`index, e`index
      ensures Valid() && Elems(order) == old(Elems(order)) + {e} && (p == old(p) || fresh(p))
      ensures old(order) != [] && old(order[0]).time <= e.time ==> order != [] && order[0] == old(order[0])
      ensures |order| == |old(order)| + 1
    {
      hide Elems, MayRise, Times, Holed, FilledBut, Ordered;
      Reserve(n + 1);
      PushHoled(e);
      var hole := n;
      n := n + 1;
      order := ShiftUp(hole, e, order + [e], Elems(order) + {e});
    }

    /** The last entry may take the place of the one at h. */
    lemma ReplacedHoled(h: nat)
      requires Valid() && h < n - 1
      ensures var q := order[..n - 1][h := order[n - 1]];
        && Holed(q, h, order[n - 1], Elems(order) - {order[h]}) && OrderedAround(Times(q), h)
    {
      hide FilledBut, Elems, OrderedAround, Ordered, Times, Once;
      ReplacedFilled(h);
      ReplacedTimes(order, h);
      LeftElems(order, h);
    }

    lemma ReplacedFilled(h: nat)
      requires n == |order| && FilledBut(order, -1) && h < n - 1
      ensures FilledBut(order[..n - 1][h := order[n - 1]], h) && Once(order)
    {
    }

    /** The last entry may simply be left out. */
    lemma LastLeft()
      requires Valid() && n > 0
      ensures var q := order[..n - 1];
        FilledBut(q, -1) && Ordered(Times(q)) && Elems(q) == Elems(order) - {order[n - 1]}
    {
      LastTimes(order);
      LastElems(order);
      hide Elems, Ordered, Times;
    }

    /** min_heap_pop_: the last entry sinks from the top. */
    method Pop() returns (e: Entry?)
      requires Valid()
      modifies this`n, this`order, p, order`index
      ensures Valid()
      ensures old(order) == [] ==> e == null && order == []
      ensures old(order) != [] ==>
        e == old(order[0]) && Elems(order) == old(Elems(order)) - {e} && e.index == -1
      ensures |order| == if old(order) == [] then 0 else |old(order)| - 1
    {
      if n == 0 {
        return null;
      }
      e := p[0];
      TakeOut(e, false);
    }

    /** min_heap_erase_ */
    method Erase(e: Entry) returns (done: bool)
      requires Valid() && (e.index == -1 <==> e !in order)
      modifies this`n, this`order, p, order`index
      ensures Valid() && e.index == -1
      ensures done == old(e in order) && Elems(order) == old(Elems(order)) - {e}
    {
      if e.index == -1 {
        EIsOut(order, e);
        return false;
      }
      Placed(e);
      var parent := Parent(e.index);
      TakeOut(e, e.index > 0 && p[parent].time > p[n - 1].time);
      return true;
    }

    /** Where an entry of the heap is. */
    lemma Placed(e: Entry)
      requires n == |order| && FilledBut(order, -1) && e in order
      ensures 0 <= e.index < n && order[e.index] == e && p[n - 1] == order[n - 1]
      ensures e.index > 0 ==> p[Parent(e.index)] == order[Parent(e.index)]
    {
    }

    /** The last entry takes e's place and moves up or down from there, never both. */
    method TakeOut(e: Entry, up: bool)
      requires Valid() && e in order
      requires up <==> e.index > 0 && order[Parent(e.index)].time > order[n - 1].time
      modifies this`n, this`order, p, order`index
      ensures Valid() && Elems(order) == old(Elems(order)) - {e} && e.index == -1
      ensures |order| == |old(order)| - 1
    {
      Placed(e);
      var hole: nat, last := e.index, p[n - 1];
      hide Elems, Times, Holed, FilledBut, Ordered, OrderedAround, MayRise, MaySink;
      if hole == n - 1 {
        DropLast(last);
      } else {
        MoveLast(hole, last, up);
      }
      Forgotten(e);
      e.index := -1;
    }

    /** The last entry itself goes: the loops do not run. */
    method DropLast(last: Entry)
      requires Valid() && n > 0 && last == order[n - 1]
      modifies this`n, this`order, p, last`index
      ensures Valid() && Elems(order) == old(Elems(order)) - {last} && last !in order
      ensures |order| == |old(order)| - 1
    {
      LastLeft();
      Dropped(order);
      n := n - 1;
      order := order[..n];
      hide Elems, Times, Ordered;
      p[n] := last;
      last.index := n;
    }

    method MoveLast(hole: nat, last: Entry, up: bool)
      requires Valid() && hole < n - 1 && last == order[n - 1]
      requires up <==> hole > 0 && order[Parent(hole)].time > last.time
      modifies this`n, this`order, p, order`index
      ensures Valid() && Elems(order) == old(Elems(order)) - {old(order[hole])} && old(order[hole]) !in order
      ensures |order| == |old(order)| - 1
    {
      hide Times, Holed, FilledBut, Ordered, OrderedAround, MayRise, MaySink, Elems;
      ghost var q, es, e := order[..n - 1][hole := last], Elems(order) - {order[hole]}, order[hole];
      MoveReady(hole, last, up);
      n := n - 1;
      if up {
        order := ShiftUpUnconditional(hole, last, q, es);
      } else {
        order := ShiftDown(hole, last, q, es);
      }
      NotIn(order, e, es);
    }

    /** Which way the last entry goes from e's place. */
    lemma MoveReady(hole: nat, last: Entry, up: bool)
      requires Valid() && hole < n - 1 && last == order[n - 1]
      requires up <==> hole > 0 && order[Parent(hole)].time > last.time
      ensures var q, es := order[..n - 1][hole := last], Elems(order) - {order[hole]};
        && Holed(q, hole, last, es) && order[hole] !in es && (forall x :: x in es ==> x in order)
        && (up ==> hole > 0 && q[Parent(hole)].time > last.time && MayRise(Times(q), hole))
        && (!up ==> MaySink(Times(q), hole))
    {
      hide FilledBut, Ordered, OrderedAround, Times, MayRise, MaySink, Elems;
      ReplacedHoled(hole);
      var q := order[..n - 1][hole := last];
      OneDirection(Times(q), hole);
      KnownElems(order, hole);
    }

    /** Forgetting the index of an entry outside. */
    lemma Forgotten(e: Entry)
      requires Valid() && e !in order
      ensures forall i :: 0 <= i < |order| ==> order[i] != e
    {
    }

    /** No entry precedes the top one. */
    lemma TopIsLeast()
      requires Valid()
      ensures forall x :: x in order ==> order[0].time <= x.time
    {
      forall i | 0 <= i < |order|
        ensures order[0].time <= order[i].time
      {
        TopIsEarliest(Times(order), i);
      }
    }

    /** One round of expire_timer: the handler of the top entry runs, which may add entries,
        and then an entry is popped. It is the same one if and only if none of those added is
        earlier. */
    method FireTop(cur: nat, adds: seq<Entry>) returns (fired: Entry?, popped: Entry?)
      requires Valid() && (forall a :: a in adds ==> a !in order)
      requires Once(adds)
      modifies this`p, this`n, this`order, p, order`index, adds`index
      ensures Valid() && (p == old(p) || fresh(p))
      ensures fired == null ==> popped == null && order == old(order) && forall x :: x in order ==> x.time > cur
      ensures fired != null ==>
        && fired in old(order) && fired.time <= cur && (forall x :: x in old(order) ==> fired.time <= x.time)
        && popped != null && Elems(order) == old(Elems(order)) + Elems(adds) - {popped}
        && (popped == fired <==> forall a :: a in adds ==> a.time >= fired.time)
      ensures fired != null ==> |order| == |old(order)| + |adds| - 1
      ensures fired != null ==> popped in old(order) || popped in adds
    {
      var te := Top();
      if te == null || te.time > cur {
        return null, null;
      }
      fired := te;
      popped := RunAndPop(te, adds);
    }

    method RunAndPop(te: Entry, adds: seq<Entry>) returns (popped: Entry)
      requires Valid() && order != [] && te == order[0] && (forall a :: a in adds ==> a !in order)
      requires Once(adds)
      modifies this`p, this`n, this`order, p, order`index, adds`index
      ensures Valid() && (p == old(p) || fresh(p)) && |order| == |old(order)| + |adds| - 1
      ensures Elems(order) == old(Elems(order)) + Elems(adds) - {popped}
      ensures popped == te <==> forall a :: a in adds ==> a.time >= te.time
      ensures popped in old(order) || popped in adds
    {
      hide FilledBut, Ordered, Times;
      PushAll(adds);
      TopIsLeast();
      TopTells(order, old(order), adds, te);
      hide Elems;
      var e := Pop();
      popped := e;
    }

    /** expire_timer: rounds until the top is in the future or nothing is left; script[k] is
        what the k-th handler adds. */
    method ExpireTimer(cur: nat, script: seq<seq<Entry>>, ghost all: set<Entry>)
      returns (fired: seq<Entry>, popped: seq<Entry>)
      requires Valid() && FreshScript(script, order) && all == Added(script)
      modifies this`p, this`n, this`order, p, order`index, all`index
      ensures Valid() && forall x :: x in order ==> x.time > cur
      ensures AllRight(cur, script, all, fired, popped)
      ensures Elems(order) == old(Elems(order)) + Added(Used(script, |fired|)) - Elems(popped)
    {
      fired, popped := [], [];
      var k := 0;
      ghost var o := order;
      ScriptStarts(cur, script, all, o);
      hide FilledBut, Ordered, Times, Elems, FreshScript, Balance, Added, Right, AllRight, Round, Used, Calm;
      while true
        invariant |fired| == k && Valid() && (p == old(p) || fresh(p))
        invariant Balance(script, o, order, k, Elems(popped))
        invariant AllRight(cur, script, all, fired, popped) && NoneEarlier(script, all, fired, order)
        decreases if k < |script| then |script| - k else 0, |order|
      {
        OrderIsKnown(script, o, order, k, Elems(popped));
        var te, e := ExpireRound(cur, script, k, o, popped);
        if te == null {
          BalanceTells(script, o, order, k, Elems(popped));
          return;
        }
        var run: Entry, out: Entry := te, e;
        OneMoreRight(cur, script, all, fired, popped, run, out);
        fired, popped, k := fired + [run], popped + [out], k + 1;
      }
    }

    /** Round k of the loop. */
    method ExpireRound(cur: nat, script: seq<seq<Entry>>, k: nat, ghost o: seq<Entry>, ghost popped: seq<Entry>)
      returns (te: Entry?, e: Entry?)
      requires Valid() && FreshScript(script, o) && Balance(script, o, order, k, Elems(popped))
      modifies this`p, this`n, this`order, p, order`index, Round(script, k)`index
      ensures Valid() && (p == old(p) || fresh(p))
      ensures te == null ==> order == old(order) && forall x :: x in order ==> x.time > cur
      ensures te != null ==>
        && e != null && Right(cur, Round(script, k), te, e) && Balance(script, o, order, k + 1, Elems(popped + [e]))
        && (k >= |script| ==> |order| < |old(order)|) && e !in popped && te in old(order)
        && ((forall a :: a in Round(script, k) ==> te.time <= a.time) ==> forall x :: x in order ==> te.time <= x.time)
    {
      hide FilledBut, Ordered, Times, Elems, FreshScript, Balance, Added;
      ScriptRound(script, o, order, k, Elems(popped));
      ghost var q := order;
      te, e := FireTop(cur, Round(script, k));
      if te != null {
        ScriptNext(script, o, q, order, k, popped, e);
        LaterOnly(q, order, Round(script, k), e, te.time);
      }
    }

    /** What the handler adds. */
    method PushAll(adds: seq<Entry>)
      requires Valid() && (forall a :: a in adds ==> a !in order)
      requires Once(adds)
      modifies this`p, this`n, this`order, p, order`index, adds`index
      ensures Valid() && Elems(order) == old(Elems(order)) + Elems(adds)
      ensures old(order) != [] ==> order != []
      ensures old(order) != [] && (forall a :: a in adds ==> old(order[0]).time <= a.time) ==> order[0] == old(order[0])
      ensures (p == old(p) || fresh(p)) && forall i :: 0 <= i < |order| ==> order[i] in old(order) || order[i] in adds
      ensures |order| == |old(order)| + |adds|
    {
      hide FilledBut, Ordered, Times;
      var i := 0;
      assert adds[..0] == [];
      while i < |adds|
        invariant 0 <= i <= |adds| && Valid() && (p == old(p) || fresh(p))
        invariant Elems(order) == old(Elems(order)) + Elems(adds[..i])
        invariant |order| == |old(order)| + i
        invariant forall k :: 0 <= k < |order| ==> order[k] in old(order) || order[k] in adds
        invariant old(order) != [] && (forall a :: a in adds ==> old(order[0]).time <= a.time) ==>
          order[0] == old(order[0])
      {
        NotYet(old(order), order, adds, i);
        ghost var was := order;
        Push(adds[i]);
        i := i + 1;
        forall k | 0 <= k < |order|
          ensures order[k] in old(order) || order[k] in adds
        {
          assert order[k] in Elems(order);
          assert order[k] == adds[i - 1] || order[k] in Elems(was);
        }
      }
      assert adds[..i] == adds;
    }

    /** min_heap_adjust_, after the time of e may have changed. */
    method Adjust(e: Entry)
      requires n == |order| && FilledBut(order, -1) && (e.index == -1 <==> e !in order)
      requires if e in order then OrderedAround(Times(order), e.index) else Ordered(Times(order))
      modifies this`p, this`n, this`order, p, order`index, e`index
      ensures Valid() && Elems(order) == old(Elems(order)) + {e} && (p == old(p) || fresh(p))
    {
      hide Times, Holed, FilledBut, Ordered, OrderedAround, MayRise, MaySink, Elems;
      if e.index == -1 {
        Push(e);
      } else {
        Readjust(e);
      }
    }

    method Readjust(e: Entry)
      requires n == |order| && FilledBut(order, -1) && e in order && OrderedAround(Times(order), e.index)
      modifies this`order, p, order`index
      ensures Valid() && Elems(order) == old(Elems(order)) + {e}
    {
      hide Times, Holed, FilledBut, Ordered, OrderedAround, MayRise, MaySink, Elems;
      Placed(e);
      AdjustReady(e);
      ghost var es := Elems(order);
      var parent := Parent(e.index);
      if e.index > 0 && p[parent].time > e.time {
        order := ShiftUpUnconditional(e.index, e, order, es);
      } else {
        order := ShiftDown(e.index, e, order, es);
      }
    }

    /** Which way an entry goes whose time has changed. */
    lemma AdjustReady(e: Entry)
      requires n == |order| && FilledBut(order, -1) && e in order && OrderedAround(Times(order), e.index)
      ensures 0 <= e.index < n <= p.Length && Holed(order, e.index, e, Elems(order))
      ensures Elems(order) + {e} == Elems(order) && forall x :: x in Elems(order) ==> x in order
      ensures
        var up := e.index > 0 && order[Parent(e.index)].time > e.time;
        (up ==> MayRise(Times(order), e.index)) && (!up ==> MaySink(Times(order), e.index))
    {
      Placed(e);
      assert Holed(order, e.index, e, Elems(order)) && Elems(order) + {e} == Elems(order);
      hide Holed, FilledBut, Elems;
      OneDirection(Times(order), e.index);
      hide OrderedAround, MayRise, MaySink;
    }
  }

  /** The entry run was due, and the one popped is the same one if and only if the handler has
      not added an earlier one. */
  ghost predicate Right(cur: nat, adds: seq<Entry>, fired: Entry, popped: Entry)
    reads {fired}`time, adds`time
  {
    fired.time <= cur && (popped == fired <==> forall a :: a in adds ==> a.time >= fired.time)
  }

  /** The k-th handler adds nothing earlier than its own entry; `all` are the entries of the
      script. */
  ghost predicate Calm(script: seq<seq<Entry>>, all: set<Entry>, k: nat, te: Entry)
    reads {te}`time, all`time
  {
    forall a :: a in Round(script, k) && a in all ==> a.time >= te.time
  }

  /** The same for all rounds. No entry is popped twice, and after a calm round the next entry
      is not earlier. */
  ghost predicate AllRight(cur: nat, script: seq<seq<Entry>>, all: set<Entry>, fired: seq<Entry>, popped: seq<Entry>)
    reads fired`time, all`time
  {
    && |popped| == |fired| && Once(popped)
    && (forall k :: 0 <= k < |fired| ==>
          fired[k].time <= cur && (popped[k] == fired[k] <==> Calm(script, all, k, fired[k])))
    && forall k :: 0 <= k < |fired| - 1 && Calm(script, all, k, fired[k]) ==> fired[k].time <= fired[k + 1].time
  }

  /** After a calm round nothing that is left is earlier. */
  ghost predicate NoneEarlier(script: seq<seq<Entry>>, all: set<Entry>, fired: seq<Entry>, order: seq<Entry>)
    reads fired`time, all`time, order`time
  {
    var k := |fired| - 1;
    k >= 0 && Calm(script, all, k, fired[k]) ==> forall x :: x in order ==> fired[k].time <= x.time
  }

  lemma OneMoreRight(cur: nat, script: seq<seq<Entry>>, all: set<Entry>, fired: seq<Entry>, popped: seq<Entry>,
                     te: Entry, e: Entry)
    requires AllRight(cur, script, all, fired, popped) && Right(cur, Round(script, |fired|), te, e)
    requires forall a :: a in Round(script, |fired|) ==> a in all
    requires e !in popped
    requires var k := |fired| - 1; k >= 0 && Calm(script, all, k, fired[k]) ==> fired[k].time <= te.time
    ensures AllRight(cur, script, all, fired + [te], popped + [e])
    ensures Calm(script, all, |fired|, te) <==> forall a :: a in Round(script, |fired|) ==> te.time <= a.time
  {
    var n := |fired|;
    assert Calm(script, all, n, te) <==> forall a :: a in Round(script, n) ==> te.time <= a.time;
    hide Round, Calm;
    var f, q := fired + [te], popped + [e];
    assert Once(q);
    forall k | 0 <= k < |f|
      ensures f[k].time <= cur && (q[k] == f[k] <==> Calm(script, all, k, f[k]))
    {
      assert k < n ==> f[k] == fired[k] && q[k] == popped[k];
    }
    forall k | 0 <= k < |f| - 1 && Calm(script, all, k, f[k])
      ensures f[k].time <= f[k + 1].time
    {
      assert f[k] == fired[k];
      assert k + 1 < n ==> f[k + 1] == fired[k + 1];
    }
  }

  /** If no handler adds an earlier entry, every due entry is run exactly once, in the order of
      the times, and it is popped in its own round. */
  lemma EachOnce(cur: nat, script: seq<seq<Entry>>, all: set<Entry>, o: seq<Entry>, left: seq<Entry>,
                 fired: seq<Entry>, popped: seq<Entry>)
    requires AllRight(cur, script, all, fired, popped)
    requires forall k :: 0 <= k < |fired| ==> Calm(script, all, k, fired[k])
    requires Elems(left) == Elems(o) + Added(Used(script, |fired|)) - Elems(popped)
    requires forall x :: x in left ==> x.time > cur
    ensures fired == popped && Once(fired)
    ensures forall i, j :: 0 <= i < j < |fired| ==> fired[i].time <= fired[j].time
    ensures forall x :: x in Elems(o) + Added(Used(script, |fired|)) ==> (x in fired <==> x.time <= cur)
  {
    hide Calm, Added, Used;
    forall i, j | 0 <= i < j < |fired|
      ensures fired[i].time <= fired[j].time
    {
      InTurn(fired, i, j);
    }
    forall x | x in Elems(o) + Added(Used(script, |fired|))
      ensures x in fired <==> x.time <= cur
    {
      assert x in Elems(left) || x in Elems(popped);
    }
  }

  lemma {:induction false} InTurn(q: seq<Entry>, i: nat, j: nat)
    requires i < j < |q| && forall k :: 0 <= k < |q| - 1 ==> q[k].time <= q[k + 1].time
    ensures q[i].time <= q[j].time
    decreases j
  {
    if i < j - 1 {
      InTurn(q, i, j - 1);
    }
    assert q[j - 1].time <= q[j - 1 + 1].time;
  }

  /** What is in the heap after a round is not earlier than the entry run, if nothing added is. */
  lemma LaterOnly(q: seq<Entry>, r: seq<Entry>, adds: seq<Entry>, e: Entry, t: nat)
    requires Elems(r) == Elems(q) + Elems(adds) - {e} && forall x :: x in q ==> t <= x.time
    ensures (forall a :: a in adds ==> t <= a.time) ==> forall x :: x in r ==> t <= x.time
  {
    forall x | x in r
      ensures x in q || x in adds
    {
      assert x in Elems(r);
    }
  }

  lemma ScriptStarts(cur: nat, script: seq<seq<Entry>>, all: set<Entry>, o: seq<Entry>)
    ensures Balance(script, o, o, 0, Elems([])) && AllRight(cur, script, all, [], [])
  {
  }

  /** No entry comes from elsewhere. */
  lemma OrderIsKnown(script: seq<seq<Entry>>, o: seq<Entry>, q: seq<Entry>, k: nat, gone: set<Entry>)
    requires FreshScript(script, o) && Balance(script, o, q, k, gone)
    ensures forall i :: 0 <= i < |q| ==> q[i] in o || q[i] in Added(script)
    ensures forall a :: a in Round(script, k) ==> a in Added(script)
  {
    UsedIsAdded(script, k);
    RoundIsNew(script, o, k);
    hide FreshScript, Added, Used, Round;
    forall i | 0 <= i < |q|
      ensures q[i] in o || q[i] in Added(script)
    {
      assert q[i] in Elems(q);
    }
    forall a | a in Round(script, k)
      ensures a in Added(script)
    {
      assert a in Elems(Round(script, k));
    }
  }

  lemma UsedIsAdded(script: seq<seq<Entry>>, k: nat)
    ensures Added(Used(script, k)) <= Added(script)
  {
    if k < |script| {
      forall a | a in Added(script[..k])
        ensures a in Added(script)
      {
        AddedMember(script, a);
        AddedMember(script[..k], a);
        assert forall l :: 0 <= l < k ==> script[..k][l] == script[l];
      }
    }
  }

  lemma BalanceTells(script: seq<seq<Entry>>, o: seq<Entry>, q: seq<Entry>, k: nat, gone: set<Entry>)
    requires Balance(script, o, q, k, gone)
    ensures Elems(q) == Elems(o) + Added(Used(script, k)) - gone
  {
  }

  /** What the handler of round k adds. */
  function Round(script: seq<seq<Entry>>, k: nat): seq<Entry> {
    if k < |script| then script[k] else []
  }

  ghost function Added(script: seq<seq<Entry>>): set<Entry> {
    if script == [] then {} else Added(script[..|script| - 1]) + Elems(script[|script| - 1])
  }

  /** The rounds before the k-th. */
  ghost function Used(script: seq<seq<Entry>>, k: nat): seq<seq<Entry>> {
    if k < |script| then script[..k] else script
  }

  /** The handlers add new entries, each of them once. */
  ghost predicate FreshScript(script: seq<seq<Entry>>, q: seq<Entry>) {
    && (forall k :: 0 <= k < |script| ==>
          && Once(script[k])
          && (forall a :: a in script[k] ==> a !in q))
    && (forall k, l :: 0 <= k < l < |script| ==> forall a :: a in script[k] ==> a !in script[l])
  }

  lemma {:induction false} AddedMember(script: seq<seq<Entry>>, x: Entry)
    ensures x in Added(script) <==> exists k :: 0 <= k < |script| && x in script[k]
    decreases |script|
  {
    if script != [] {
      var k := |script| - 1;
      AddedMember(script[..k], x);
      if x in Added(script[..k]) {
        var l :| 0 <= l < k && x in script[..k][l];
        assert x in script[l];
      }
      if l :| 0 <= l < |script| && x in script[l] && l < k {
        assert x in script[..k][l];
      }
    }
  }

  /** What round k adds has not been there before. */
  lemma RoundIsNew(script: seq<seq<Entry>>, o: seq<Entry>, k: nat)
    requires FreshScript(script, o)
    ensures Elems(Round(script, k)) !! Elems(o) + Added(Used(script, k))
    ensures Elems(Round(script, k)) <= Added(script)
    ensures Added(Used(script, k + 1)) == Added(Used(script, k)) + Elems(Round(script, k))
    ensures Once(Round(script, k))
  {
    if k < |script| {
      assert Used(script, k + 1)[..k] == Used(script, k) == script[..k];
      forall a | a in script[k]
        ensures a !in Elems(o) + Added(script[..k]) && a in Added(script)
      {
        AddedMember(script, a);
        AddedMember(script[..k], a);
        assert forall l :: 0 <= l < k ==> script[..k][l] == script[l];
      }
    }
  }

  /** The heap's entries, in terms of those added and those gone. */
  ghost predicate Balance(script: seq<seq<Entry>>, o: seq<Entry>, q: seq<Entry>, k: nat, gone: set<Entry>) {
    && Elems(q) == Elems(o) + Added(Used(script, k)) - gone
    && gone <= Elems(o) + Added(Used(script, k))
  }

  lemma ScriptRound(script: seq<seq<Entry>>, o: seq<Entry>, q: seq<Entry>, k: nat, gone: set<Entry>)
    requires FreshScript(script, o) && Balance(script, o, q, k, gone)
    ensures forall a :: a in Round(script, k) ==> a !in q && a in Added(script)
    ensures Once(Round(script, k))
  {
    RoundIsNew(script, o, k);
    hide FreshScript, Added, Used;
    forall a | a in Round(script, k)
      ensures a !in q && a in Added(script)
    {
      assert a in Elems(Round(script, k)) && a !in Elems(q);
    }
  }

  lemma ScriptNext(script: seq<seq<Entry>>, o: seq<Entry>, q: seq<Entry>, r: seq<Entry>, k: nat, popped: seq<Entry>,
                   e: Entry)
    requires FreshScript(script, o) && Balance(script, o, q, k, Elems(popped))
    requires Elems(r) == Elems(q) + Elems(Round(script, k)) - {e} && (e in q || e in Round(script, k))
    ensures Balance(script, o, r, k + 1, Elems(popped + [e])) && e !in popped
  {
    RoundIsNew(script, o, k);
    PushElems(popped, e);
    assert e in Elems(q) || e in Elems(Round(script, k));
    assert e in popped <==> e in Elems(popped);
    hide FreshScript, Added, Used, Round, Elems;
  }

  /** Whether the top is still the same tells whether something earlier has been added. */
  lemma TopTells(q: seq<Entry>, o: seq<Entry>, adds: seq<Entry>, top: Entry)
    requires q != [] && Elems(q) == Elems(o) + Elems(adds) && forall x :: x in q ==> q[0].time <= x.time
    requires (forall a :: a in adds ==> top.time <= a.time) ==> q[0] == top
    ensures q[0] == top <==> forall a :: a in adds ==> a.time >= top.time
  {
    forall a | a in adds
      ensures a in q
    {
      assert a in Elems(q);
    }
  }

  lemma NotYet(o: seq<Entry>, q: seq<Entry>, adds: seq<Entry>, i: nat)
    requires i < |adds| && Elems(q) == Elems(o) + Elems(adds[..i]) && (forall a :: a in adds ==> a !in o)
    requires Once(adds)
    ensures adds[i] !in q
    ensures forall x :: x in q ==> x in o || x in adds
    ensures Elems(adds[..i + 1]) == Elems(adds[..i]) + {adds[i]}
  {
    assert adds[i] !in Elems(o) + Elems(adds[..i]);
    forall x | x in q
      ensures x in o || x in adds
    {
      assert x in Elems(q);
    }
    assert adds[..i + 1] == adds[..i] + [adds[i]];
  }

  lemma NotIn(q: seq<Entry>, e: Entry, es: set<Entry>)
    requires Elems(q) == es && e !in es
    ensures e !in q
  {
  }

  lemma ReplacedTimes(q: seq<Entry>, h: nat)
    requires Ordered(Times(q)) && h < |q| - 1
    ensures OrderedAround(Times(q[..|q| - 1][h := q[|q| - 1]]), h)
  {
    hide Times;
    var t, k, last := Times(q), |q| - 1, q[|q| - 1];
    var r := q[..k][h := last];
    assert Times(r) == t[..k][h := last.time];
    hide Ordered, OrderedAround;
    PrefixOrder(t, k);
    ReplacedOrder(t[..k], h, last.time);
  }

  lemma LastTimes(q: seq<Entry>)
    requires Ordered(Times(q)) && q != []
    ensures Ordered(Times(q[..|q| - 1]))
  {
    var k := |q| - 1;
    hide Ordered, Times;
    TimesSnoc(q);
    AllButLast(Times(q[..k]), q[k].time);
    PrefixOrder(Times(q), k);
  }

  lemma AllButLast(t: seq<nat>, x: nat)
    ensures (t + [x])[..|t|] == t
  {
  }

  lemma TimesSnoc(q: seq<Entry>)
    requires q != []
    ensures Times(q) == Times(q[..|q| - 1]) + [q[|q| - 1].time]
  {
  }

  lemma Dropped(q: seq<Entry>)
    requires q != [] && Once(q)
    ensures q[|q| - 1] !in q[..|q| - 1]
  {
  }

  lemma EIsOut(q: seq<Entry>, e: Entry)
    requires e !in q
    ensures Elems(q) - {e} == Elems(q)
  {
  }

  lemma KnownElems(q: seq<Entry>, h: nat)
    requires h < |q|
    ensures q[h] !in Elems(q) - {q[h]} && forall x :: x in Elems(q) - {q[h]} ==> x in q
  {
  }

  lemma PushElems(q: seq<Entry>, e: Entry)
    ensures Elems(q + [e]) == Elems(q) + {e}
  {
  }

  lemma LastElems(q: seq<Entry>)
    requires q != [] && Once(q)
    ensures Elems(q[..|q| - 1]) == Elems(q) - {q[|q| - 1]}
  {
    var k := |q| - 1;
    assert q == q[..k] + [q[k]];
  }

  lemma NotAmong(q: seq<Entry>, e: Entry)
    requires e !in q
    ensures forall i :: 0 <= i < |q| ==> q[i] != e
  {
  }

  lemma LeftElems(q: seq<Entry>, h: nat)
    requires h < |q| - 1 && Once(q)
    ensures Elems(q[..|q| - 1][h := q[|q| - 1]]) == Elems(q) - {q[h]}
  {
    var k := |q| - 1;
    var r := q[..k][h := q[k]];
    assert forall i :: 0 <= i < k ==> r[i] == if i == h then q[k] else q[i];
    forall x
      ensures x in r <==> x in q && x != q[h]
    {
      if x in q && x != q[h] {
        var i :| 0 <= i < |q| && q[i] == x;
        assert r[if i == k then h else i] == x;
      }
    }
  }

  lemma Members(q: seq<Entry>, es: set<Entry>)
    requires Elems(q) == es
    ensures forall i :: 0 <= i < |q| ==> q[i] in es
  {
  }

  lemma RisenIsOrdered(t: seq<nat>, h: int)
    requires 0 <= h < |t| && MayRise(t, h) && (h > 0 ==> t[Parent(h)] <= t[h])
    ensures Ordered(t)
  {
  }

  lemma SunkIsOrdered(t: seq<nat>, h: int)
    requires 0 <= h < |t| && MaySink(t, h)
    requires forall i :: 0 < i < |t| && Parent(i) == h ==> t[h] <= t[i]
    ensures Ordered(t)
  {
  }

  /** minChild is the earlier of the children of h. */
  lemma SmallerChild(t: seq<nat>, h: int, c: int)
    requires h >= 0 && 2 * h + 1 <= c <= 2 * h + 2 && 2 * h + 2 <= |t| && c < |t|
    requires c == 2 * h + 1 ==> 2 * h + 2 == |t| || t[2 * h + 2] > t[c]
    requires c == 2 * h + 2 ==> t[c] <= t[2 * h + 1]
    ensures Parent(c) == h && forall i :: 0 < i < |t| && Parent(i) == h ==> t[c] <= t[i]
  {
    forall i | 0 < i < |t| && Parent(i) == h
      ensures t[c] <= t[i]
    {
      Children(h, i);
    }
  }

  /** At the end of the loop no child is earlier. */
  lemma NoSmallerChild(t: seq<nat>, h: int, c: int)
    requires 0 <= h < |t|
    requires c == 2 * (h + 1) > |t| || forall i :: 0 < i < |t| && Parent(i) == h ==> t[h] <= t[i]
    ensures forall i :: 0 < i < |t| && Parent(i) == h ==> t[h] <= t[i]
  {
    forall i | 0 < i < |t| && Parent(i) == h
      ensures t[h] <= t[i]
    {
      Children(h, i);
    }
  }

  /** The children of position h. */
  lemma Children(h: int, i: int)
    requires h >= 0 && i > 0
    ensures Parent(i) == h <==> i == 2 * h + 1 || i == 2 * h + 2
  {
  }

  /** Replacing an entry leaves order around its place, whatever the new time. */
  lemma ReplacedOrder(t: seq<nat>, h: int, x: nat)
    requires Ordered(t) && 0 <= h < |t|
    ensures OrderedAround(t[h := x], h)
  {
    var u := t[h := x];
    forall i | 0 < i < |u| && Parent(i) == h && h > 0
      ensures u[Parent(h)] <= u[i]
    {
      assert t[Parent(h)] <= t[h] <= t[i];
    }
  }

  /** So does leaving out the last entry, or adding one. */
  lemma PrefixOrder(t: seq<nat>, k: nat)
    requires Ordered(t) && k <= |t|
    ensures Ordered(t[..k])
  {
  }

  lemma LastMayRise(t: seq<nat>, x: nat)
    requires Ordered(t)
    ensures MayRise(t + [x], |t|)
  {
  }

  /** The handler of an entry of time 5 adds one of time 3: that one is popped, and has not run,
      and the one that has run stays. */
  method EarlierEntryLost() returns (heap: MinHeap, a: Entry, b: Entry, fired: Entry?, popped: Entry?)
    ensures heap.Valid() && a.time == 5 && b.time == 3 && fired == a && popped == b && Elems(heap.order) == {a}
  {
    heap := new MinHeap();
    a := new Entry(5);
    b := new Entry(3);
    hide MinHeap.FilledBut, Ordered, Times;
    heap.Push(a);
    OnlyEntry(heap.order, a);
    fired, popped := FireWith(heap, a, b);
  }

  method FireWith(heap: MinHeap, a: Entry, b: Entry) returns (fired: Entry?, popped: Entry?)
    requires heap.Valid() && heap.order == [a] && a.time == 5 && b.time == 3 && a != b
    modifies heap`p, heap`n, heap`order, heap.p, a`index, b`index
    ensures heap.Valid() && fired == a && popped == b && Elems(heap.order) == {a}
  {
    OneElem(a);
    OneElem(b);
    hide Elems, MinHeap.Valid;
    assert b in [b] && forall x: Entry? :: (x in [a] <==> x == a) && (x in [b] <==> x == b);
    fired, popped := heap.FireTop(10, [b]);
  }

  lemma OneElem(b: Entry)
    ensures Elems([b]) == {b}
  {
  }

  lemma OnlyEntry(q: seq<Entry>, a: Entry)
    requires Elems(q) == {a} && |q| == 1
    ensures q == [a]
  {
    assert q[0] in Elems(q);
  }
}
