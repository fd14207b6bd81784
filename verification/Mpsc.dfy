/** The intrusive multi-producer single-consumer queue as a step machine: every load, store
    and exchange of Enqueue and Dequeue is one step, and steps of all threads interleave. */
module Mpsc {
  datatype Node = Dummy | Item(id: nat)

  /** A thread inside Enqueue: the link of its node is cleared; then the head has been
      exchanged and the link from the previous head is still to be stored. */
  datatype Producer = Idle | Ready(n: Node) | Linking(n: Node, prev: Node)

  /** The consumer, before the step it does next; `at` is the local variable tail. */
  datatype Consumer =
    | Rest
    | LoadNext(at: Node)
    | SecondLoad(at: Node)
    | LoadHead(at: Node)
    | ClearDummy(at: Node)
    | SwapDummy(at: Node)
    | LinkDummy(at: Node, prev: Node)
    | LastLoad(at: Node)

  datatype Answer = Nothing | False | True(n: Node)

  /** next holds the links that are not null. The rest is history: the nodes exchanged in
      and not yet passed by the consumer, the items exchanged in and returned so far, and
      whether, since the present Dequeue began, an Enqueue was between its exchange and
      its link, and whether the queue was empty. */
  datatype State = State(
    head: Node, tail: Node, next: map<Node, Node>, ps: seq<Producer>, c: Consumer,
    ghost chain: seq<Node>, ghost put: seq<Node>, ghost got: seq<Node>,
    ghost window: bool, ghost empty: bool, answer: Answer)

  ghost function Items(q: seq<Node>): seq<Node> {
    if q == [] then [] else (if q[0] == Dummy then [] else [q[0]]) + Items(q[1..])
  }

  ghost predicate InWindow(s: State) {
    exists p :: 0 <= p < |s.ps| && s.ps[p].Linking?
  }

  /** A node that its owner may enqueue: it is not in the queue or on its way into it. */
  ghost predicate Outside(s: State, n: Node) {
    n != Dummy && n !in s.chain && forall p :: 0 <= p < |s.ps| && !s.ps[p].Idle? ==> s.ps[p].n != n
  }

  // ------------------------------------------------------- the steps

  datatype Action = Begin(p: nat, n: Node) | Exchange(p: nat) | Link(p: nat) | Call | Consume

  ghost predicate Enabled(s: State, a: Action) {
    match a
    case Begin(p, n) => p < |s.ps| && s.ps[p].Idle? && Outside(s, n)
    case Exchange(p) => p < |s.ps| && s.ps[p].Ready?
    case Link(p) => p < |s.ps| && s.ps[p].Linking?
    case Call => s.c.Rest?
    case Consume => !s.c.Rest?
  }

  ghost function Produce(s: State, a: Action): State
    requires Enabled(s, a) && !a.Call? && !a.Consume?
  {
    match a
    case Begin(p, n) => s.(next := s.next - {n}, ps := s.ps[p := Ready(n)])
    case Exchange(p) =>
      var n := s.ps[p].n;
      s.(head := n, ps := s.ps[p := Linking(n, s.head)], chain := s.chain + [n], put := s.put + Items([n]))
    case Link(p) => s.(next := s.next[s.ps[p].prev := s.ps[p].n], ps := s.ps[p := Idle])
  }

  /** The consumer moves its tail on; a real node that it passes is the result. */
  ghost function Pass(s: State, c: Consumer, answer: Answer): State
    requires s.chain != [] && s.chain[0] in s.next
  {
    s.(tail := s.next[s.chain[0]], chain := s.chain[1..], got := s.got + Items([s.chain[0]]),
       c := c, answer := answer)
  }

  ghost function Fail(s: State): State {
    s.(c := Rest, answer := False)
  }

  ghost function Dequeue(s: State): State
    requires !s.c.Rest? && s.chain != [] && s.chain[0] == s.c.at
  {
    var at := s.c.at;
    match s.c
    case LoadNext(_) =>
      if at == Dummy then
        if at !in s.next then Fail(s) else Pass(s, SecondLoad(s.next[at]), s.answer)
      else
        if at in s.next then Pass(s, Rest, True(at)) else s.(c := LoadHead(at))
    case SecondLoad(_) =>
      if at in s.next then Pass(s, Rest, True(at)) else s.(c := LoadHead(at))
    case LoadHead(_) =>
      if at != s.head then Fail(s) else s.(c := ClearDummy(at))
    case ClearDummy(_) =>
      s.(next := s.next - {Dummy}, c := SwapDummy(at))
    case SwapDummy(_) =>
      s.(head := Dummy, c := LinkDummy(at, s.head), chain := s.chain + [Dummy])
    case LinkDummy(_, prev) =>
      s.(next := s.next[prev := Dummy], c := LastLoad(at))
    case LastLoad(_) =>
      if at in s.next then Pass(s, Rest, True(at)) else Fail(s)
  }

  /** What the present Dequeue has witnessed so far. */
  ghost function Witness(s: State): State {
    if s.c.Rest? then s
    else s.(window := s.window || InWindow(s), empty := s.empty || Items(s.chain) == [])
  }

  ghost function Next(s: State, a: Action): State
    requires Enabled(s, a) && Holding(s)
  {
    match a
    case Call =>
      Witness(s.(c := LoadNext(s.tail), window := false, empty := false, answer := Nothing))
    case Consume => Witness(Dequeue(s))
    case _ => Witness(Produce(s, a))
  }

  // ------------------------------------------------------- the invariant

  /** The consumer stands at the front of the chain. */
  ghost predicate Holding(s: State) {
    && s.chain != [] && s.chain[0] == s.tail && s.chain[|s.chain| - 1] == s.head
    && (!s.c.Rest? ==> s.c.at == s.tail)
  }

  ghost predicate Distinct(q: seq<Node>) {
    forall i, j :: 0 <= i < j < |q| ==> q[i] != q[j]
  }

  /** Thread p, or the consumer enqueuing the dummy, still has to link prev to n. */
  ghost predicate Owes(s: State, prev: Node, n: Node) {
    || (s.c.LinkDummy? && s.c.prev == prev && n == Dummy)
    || exists p :: 0 <= p < |s.ps| && s.ps[p] == Linking(n, prev)
  }

  ghost predicate LinkedOrOwed(s: State, prev: Node, n: Node) {
    if prev in s.next then s.next[prev] == n else Owes(s, prev, n)
  }

  /** Neighbours in the chain are linked, or somebody is about to link them. */
  ghost predicate Chained(s: State) {
    && (forall i :: 0 <= i < |s.chain| - 1 ==> LinkedOrOwed(s, s.chain[i], s.chain[i + 1]))
    && (s.chain != [] ==> s.chain[|s.chain| - 1] !in s.next)
  }

  /** n follows prev in the chain, and the link between them is missing. */
  ghost predicate Gap(s: State, prev: Node, n: Node) {
    prev !in s.next && exists i :: 0 <= i < |s.chain| - 1 && s.chain[i] == prev && s.chain[i + 1] == n
  }

  ghost predicate ProducersOk(s: State) {
    && (forall p :: 0 <= p < |s.ps| && s.ps[p].Ready? ==>
          s.ps[p].n != Dummy && s.ps[p].n !in s.chain && s.ps[p].n !in s.next)
    && (forall p :: 0 <= p < |s.ps| && s.ps[p].Linking? ==> s.ps[p].n != Dummy && Gap(s, s.ps[p].prev, s.ps[p].n))
    && (forall p, q :: 0 <= p < q < |s.ps| && !s.ps[p].Idle? && !s.ps[q].Idle? ==> s.ps[p].n != s.ps[q].n)
  }

  ghost predicate ConsumerOk(s: State) {
    match s.c
    case Rest => true
    case LoadNext(_) => true
    case SecondLoad(at) => at != Dummy
    case LoadHead(at) => at != Dummy && (|s.chain| == 1 || s.window || InWindow(s))
    case ClearDummy(at) => at != Dummy && Dummy !in s.chain
    case SwapDummy(at) => at != Dummy && Dummy !in s.chain && Dummy !in s.next
    case LinkDummy(at, prev) => at != Dummy && Gap(s, prev, Dummy)
    case LastLoad(at) => at != Dummy && |s.chain| > 1
  }

  ghost predicate Witnessed(s: State) {
    !s.c.Rest? ==> (InWindow(s) ==> s.window) && (Items(s.chain) == [] ==> s.empty)
  }

  ghost predicate Fifo(s: State) {
    s.put == s.got + Items(s.chain)
  }

  ghost predicate Inv(s: State) {
    Holding(s) && Distinct(s.chain) && Chained(s) && ProducersOk(s) && ConsumerOk(s) && Witnessed(s) && Fifo(s)
  }

  /** The queue as constructed, with any number of producers. */
  ghost predicate Init(s: State) {
    && s.head == Dummy && s.tail == Dummy && s.next == map[] && s.c.Rest?
    && (forall p :: 0 <= p < |s.ps| ==> s.ps[p].Idle?)
    && s.chain == [Dummy] && s.put == [] && s.got == []
  }

  lemma InitInv(s: State)
    requires Init(s)
    ensures Inv(s)
  {
  }

  // ------------------------------------------------------- every step keeps it

  lemma {:induction false} ItemsConcat(a: seq<Node>, b: seq<Node>)
    ensures Items(a + b) == Items(a) + Items(b)
  {
    if a == [] {
      assert a + b == b;
    } else {
      assert (a + b)[0] == a[0] && (a + b)[1..] == a[1..] + b;
      ItemsHead(a);
      ItemsHead(a + b);
      hide Items;
      ItemsConcat(a[1..], b);
    }
  }

  lemma ItemsHead(q: seq<Node>)
    requires q != []
    ensures Items(q) == (if q[0] == Dummy then [] else [q[0]]) + Items(q[1..])
  {
  }

  /** All of the invariant but the witnesses. */
  ghost predicate Core(s: State) {
    Holding(s) && Distinct(s.chain) && Chained(s) && ProducersOk(s) && ConsumerOk(s) && Fifo(s)
  }

  /** Threads other than p, which owes nothing, still owe what they owed. */
  ghost predicate OnlyThread(s: State, r: State, p: nat) {
    && |r.ps| == |s.ps| && (p < |s.ps| ==> !s.ps[p].Linking?)
    && forall q :: 0 <= q < |s.ps| && q != p ==> r.ps[q] == s.ps[q]
  }

  lemma OwesKept(s: State, r: State, p: nat)
    requires (r.c == s.c || !s.c.LinkDummy?) && OnlyThread(s, r, p)
    ensures forall m, n :: Owes(s, m, n) ==> Owes(r, m, n)
  {
    forall m, n | Owes(s, m, n)
      ensures Owes(r, m, n)
    {
      if !(s.c.LinkDummy? && s.c.prev == m && n == Dummy) {
        var q :| 0 <= q < |s.ps| && s.ps[q] == Linking(n, m);
        assert r.ps[q] == Linking(n, m);
      }
    }
  }

  /** Links are only cleared, and the chain only grows: gaps stay gaps. */
  lemma GapKept(s: State, r: State)
    requires r.next.Keys <= s.next.Keys && s.chain <= r.chain
    ensures forall m, n :: Gap(s, m, n) ==> Gap(r, m, n)
  {
  }

  lemma WindowSame(s: State, r: State)
    requires r.ps == s.ps
    ensures InWindow(r) <==> InWindow(s)
  {
  }

  /** Only the consumer's place in its code and the witnesses change. */
  lemma TurnKeeps(s: State, r: State)
    requires Core(s) && (r.c == s.c || (!s.c.LinkDummy? && !r.c.LinkDummy?))
    requires r.head == s.head && r.tail == s.tail && r.next == s.next && r.ps == s.ps
    requires r.chain == s.chain && r.put == s.put && r.got == s.got
    requires ConsumerOk(r) && (!r.c.Rest? ==> r.c.at == s.tail)
    ensures Core(r)
  {
    OwesKept(s, r, |s.ps|);
    GapKept(s, r);
    hide Owes, InWindow, Items, ConsumerOk, Distinct, Gap;
    assert Chained(r);
    hide Chained;
    assert ProducersOk(r);
    hide ProducersOk;
  }

  lemma WitnessConsumer(s: State)
    requires ConsumerOk(s)
    ensures ConsumerOk(Witness(s)) && Witnessed(Witness(s))
  {
    WindowSame(s, Witness(s));
    GapKept(s, Witness(s));
    hide InWindow, Gap, Items;
  }

  /** The witnesses do not touch the rest of the state. */
  lemma WitnessKeeps(s: State)
    requires Core(s)
    ensures Inv(Witness(s))
  {
    WitnessConsumer(s);
    hide Chained, ProducersOk, ConsumerOk, Witnessed, InWindow, Items, Fifo, Distinct;
    TurnKeeps(s, Witness(s));
  }

  lemma BeginKeeps(s: State, p: nat, n: Node)
    requires Core(s) && Enabled(s, Begin(p, n))
    ensures Core(Produce(s, Begin(p, n)))
  {
    var r := Produce(s, Begin(p, n));
    OwesKept(s, r, p);
    GapKept(s, r);
    hide Owes, Gap, Items, InWindow;
    assert Chained(r);
    assert ProducersOk(r) by {
      hide Chained, ConsumerOk;
    }
    hide ProducersOk, Chained, Enabled;
  }

  /** A new node at the end of the chain, with its link from the old end still missing. */
  lemma AppendChained(s: State, n: Node, r: State)
    requires Holding(s) && Distinct(s.chain) && Chained(s) && n !in s.chain && n !in s.next
    requires r.next == s.next && r.chain == s.chain + [n] && r.head == n && r.tail == s.tail
    requires forall k, m :: Owes(s, k, m) ==> Owes(r, k, m)
    requires Owes(r, s.head, n)
    ensures Distinct(r.chain) && Chained(r) && Gap(r, s.head, n)
  {
    assert r.chain[|s.chain| - 1] == s.head && r.chain[|s.chain|] == n;
    hide Owes;
  }

  lemma AppendFifo(s: State, n: Node, r: State)
    requires Fifo(s) && r.chain == s.chain + [n] && r.put == s.put + Items([n]) && r.got == s.got
    ensures Fifo(r)
  {
    ItemsConcat(s.chain, [n]);
  }

  lemma ExchangeProducers(s: State, p: nat)
    requires Core(s) && Enabled(s, Exchange(p))
    ensures var r := Produce(s, Exchange(p)); Gap(r, s.head, s.ps[p].n) ==> ProducersOk(r)
  {
    var r := Produce(s, Exchange(p));
    GapKept(s, r);
    hide Gap, Items, Chained, ConsumerOk, Fifo, Distinct;
  }

  lemma ExchangeConsumer(s: State, p: nat)
    requires Core(s) && Enabled(s, Exchange(p))
    ensures ConsumerOk(Produce(s, Exchange(p)))
  {
    var r := Produce(s, Exchange(p));
    GapKept(s, r);
    assert r.ps[p].Linking?;
    assert InWindow(r);
    hide Gap, Items, Chained, Fifo, Distinct, InWindow;
  }

  lemma ExchangeKeeps(s: State, p: nat)
    requires Core(s) && Enabled(s, Exchange(p))
    ensures Core(Produce(s, Exchange(p)))
  {
    var r := Produce(s, Exchange(p));
    var n := s.ps[p].n;
    OwesKept(s, r, p);
    assert r.ps[p] == Linking(n, s.head);
    assert Owes(r, s.head, n);
    hide Owes, InWindow;
    AppendChained(s, n, r);
    AppendFifo(s, n, r);
    ExchangeProducers(s, p);
    ExchangeConsumer(s, p);
    hide Chained, Fifo, Items, Gap, Distinct, ConsumerOk, ProducersOk;
  }

  /** Storing the missing link into a gap. */
  lemma FillGap(s: State, r: State, prev: Node, n: Node)
    requires Distinct(s.chain) && Chained(s) && Gap(s, prev, n)
    requires r.chain == s.chain && r.next == s.next[prev := n]
    requires forall m, k :: Owes(s, m, k) && m != prev ==> Owes(r, m, k)
    ensures Chained(r)
    ensures forall m, k :: Gap(s, m, k) && m != prev ==> Gap(r, m, k)
  {
    var i :| 0 <= i < |s.chain| - 1 && s.chain[i] == prev && s.chain[i + 1] == n;
    OtherGaps(s, r, prev, n);
    hide Owes, LinkedOrOwed, Gap;
    FillPlace(s, r, prev, n, i);
  }

  lemma FillPlace(s: State, r: State, prev: Node, n: Node, i: nat)
    requires Distinct(s.chain) && Chained(s) && i < |s.chain| - 1 && s.chain[i] == prev && s.chain[i + 1] == n
    requires r.chain == s.chain && r.next == s.next[prev := n]
    requires forall m, k :: Owes(s, m, k) && m != prev ==> Owes(r, m, k)
    ensures Chained(r)
  {
    hide Owes, LinkedOrOwed;
    var q := s.chain;
    forall j | 0 <= j < |q| - 1
      ensures LinkedOrOwed(r, q[j], q[j + 1])
    {
      assert LinkedOrOwed(s, q[j], q[j + 1]);
      OnePlace(s, r, prev, n, q[j], q[j + 1]);
    }
    assert q[|q| - 1] != prev;
  }

  lemma OnePlace(s: State, r: State, prev: Node, n: Node, m: Node, k: Node)
    requires r.next == s.next[prev := n] && LinkedOrOwed(s, m, k) && (m == prev ==> k == n)
    requires Owes(s, m, k) && m != prev ==> Owes(r, m, k)
    ensures LinkedOrOwed(r, m, k)
  {
  }

  lemma OtherGaps(s: State, r: State, prev: Node, n: Node)
    requires r.chain == s.chain && r.next == s.next[prev := n]
    ensures forall m, k :: Gap(s, m, k) && m != prev ==> Gap(r, m, k)
  {
  }

  /** Two gaps behind the same node are the same gap. */
  lemma GapUnique(s: State, prev: Node, m: Node, n: Node)
    requires Distinct(s.chain) && Gap(s, prev, m) && Gap(s, prev, n)
    ensures m == n && prev in s.chain
  {
  }

  /** Whoever else owes a link owes one into another node. */
  lemma DebtsDiffer(s: State, p: nat)
    requires Core(s) && p < |s.ps| && s.ps[p].Linking?
    ensures forall q :: 0 <= q < |s.ps| && q != p && s.ps[q].Linking? ==> s.ps[q].prev != s.ps[p].prev
    ensures s.c.LinkDummy? ==> s.c.prev != s.ps[p].prev
  {
    forall q | 0 <= q < |s.ps| && q != p && s.ps[q].Linking?
      ensures s.ps[q].prev != s.ps[p].prev
    {
      if s.ps[q].prev == s.ps[p].prev {
        GapUnique(s, s.ps[p].prev, s.ps[p].n, s.ps[q].n);
      }
    }
    if s.c.LinkDummy? && s.c.prev == s.ps[p].prev {
      GapUnique(s, s.c.prev, s.ps[p].n, Dummy);
    }
  }

  lemma LinkKeeps(s: State, p: nat)
    requires Inv(s) && Enabled(s, Link(p))
    ensures Core(Produce(s, Link(p)))
  {
    hide Gap, Owes, InWindow, Items, Chained, ProducersOk, ConsumerOk, Distinct;
    LinkChained(s, p);
    LinkProducers(s, p);
    LinkConsumer(s, p);
  }

  lemma LinkChained(s: State, p: nat)
    requires Inv(s) && Enabled(s, Link(p))
    ensures Chained(Produce(s, Link(p))) && s.ps[p].prev in s.chain && InWindow(s)
    ensures forall m, k :: Gap(s, m, k) && m != s.ps[p].prev ==> Gap(Produce(s, Link(p)), m, k)
  {
    var prev, n := s.ps[p].prev, s.ps[p].n;
    assert Gap(s, prev, n);
    GapUnique(s, prev, n, n);
    LinkOwes(s, p);
    hide Gap, Owes, Items, Chained, ProducersOk, ConsumerOk, Distinct;
    FillGap(s, Produce(s, Link(p)), prev, n);
  }

  /** Storing a link pays no debt but one. */
  lemma LinkOwes(s: State, p: nat)
    requires Enabled(s, Link(p))
    ensures forall m, k :: Owes(s, m, k) && m != s.ps[p].prev ==> Owes(Produce(s, Link(p)), m, k)
  {
    var r := Produce(s, Link(p));
    forall m, k | Owes(s, m, k) && m != s.ps[p].prev
      ensures Owes(r, m, k)
    {
      if !(s.c.LinkDummy? && s.c.prev == m && k == Dummy) {
        var q :| 0 <= q < |s.ps| && s.ps[q] == Linking(k, m);
        assert r.ps[q] == Linking(k, m);
      }
    }
  }

  lemma LinkConsumer(s: State, p: nat)
    requires Inv(s) && Enabled(s, Link(p)) && InWindow(s)
    requires forall m, k :: Gap(s, m, k) && m != s.ps[p].prev ==> Gap(Produce(s, Link(p)), m, k)
    ensures ConsumerOk(Produce(s, Link(p)))
  {
    DebtsDiffer(s, p);
    hide Gap, Chained, ProducersOk, Fifo, Distinct, InWindow, Items;
  }

  lemma LinkProducers(s: State, p: nat)
    requires Core(s) && Enabled(s, Link(p)) && s.ps[p].prev in s.chain
    requires forall m, k :: Gap(s, m, k) && m != s.ps[p].prev ==> Gap(Produce(s, Link(p)), m, k)
    ensures ProducersOk(Produce(s, Link(p)))
  {
    DebtsDiffer(s, p);
    hide Gap, Chained, ConsumerOk, Fifo, Distinct;
  }

  /** The consumer moves past the front node, whose link is there. */
  lemma PassKeeps(s: State, c: Consumer, answer: Answer)
    requires Core(s) && s.chain[0] in s.next && !s.c.LinkDummy?
    requires c.Rest? || (c == SecondLoad(s.next[s.chain[0]]) && s.chain[0] == Dummy)
    ensures Core(Pass(s, c, answer))
  {
    hide Owes, Items, InWindow, Gap, Chained, ProducersOk, Fifo, Distinct, ConsumerOk;
    PassLinks(s, c, answer);
    PassProducers(s, c, answer);
    PassFifo(s, c, answer);
    PassConsumer(s, c, answer);
  }

  lemma PassFifo(s: State, c: Consumer, answer: Answer)
    requires Fifo(s) && s.chain != [] && s.chain[0] in s.next
    ensures Fifo(Pass(s, c, answer))
  {
    assert s.chain == [s.chain[0]] + s.chain[1..];
    ItemsConcat([s.chain[0]], s.chain[1..]);
    hide Items;
  }

  /** Only one node is the dummy. */
  lemma PassConsumer(s: State, c: Consumer, answer: Answer)
    requires Holding(s) && Distinct(s.chain) && Chained(s) && s.chain[0] in s.next
    requires c.Rest? || (c == SecondLoad(s.next[s.chain[0]]) && s.chain[0] == Dummy)
    ensures ConsumerOk(Pass(s, c, answer)) && |s.chain| > 1 && s.next[s.chain[0]] == s.chain[1]
  {
    assert |s.chain| > 1 && s.chain[0] != s.chain[1];
    hide Owes, Items, InWindow, Gap;
  }

  lemma PassLinks(s: State, c: Consumer, answer: Answer)
    requires Holding(s) && Distinct(s.chain) && Chained(s) && s.chain[0] in s.next && !s.c.LinkDummy?
    ensures var r := Pass(s, c, answer);
      && r.chain != [] && r.chain[0] == r.tail && r.chain[|r.chain| - 1] == r.head
      && Distinct(r.chain) && Chained(r)
    ensures forall m, n :: Gap(s, m, n) ==> Gap(Pass(s, c, answer), m, n)
  {
    var r := Pass(s, c, answer);
    assert |s.chain| > 1;
    assert forall m, n :: Owes(s, m, n) ==> Owes(r, m, n);
    forall m, n | Gap(s, m, n)
      ensures Gap(r, m, n)
    {
      var i :| 0 <= i < |s.chain| - 1 && s.chain[i] == m && s.chain[i + 1] == n;
      assert r.chain[i - 1] == m && r.chain[i] == n;
    }
    hide Owes;
    forall i | 0 <= i < |r.chain| - 1
      ensures LinkedOrOwed(r, r.chain[i], r.chain[i + 1])
    {
      assert r.chain[i] == s.chain[i + 1] && r.chain[i + 1] == s.chain[i + 2];
      assert LinkedOrOwed(s, s.chain[i + 1], s.chain[i + 2]);
    }
  }

  lemma PassProducers(s: State, c: Consumer, answer: Answer)
    requires ProducersOk(s) && s.chain != [] && s.chain[0] in s.next
    requires forall m, n :: Gap(s, m, n) ==> Gap(Pass(s, c, answer), m, n)
    ensures ProducersOk(Pass(s, c, answer))
  {
    hide Gap;
  }

  /** A front node without a link is the only one, or a producer is about to link it. */
  lemma FrontUnlinked(s: State)
    requires Core(s) && s.tail !in s.next && !s.c.LinkDummy?
    ensures |s.chain| == 1 || InWindow(s)
  {
    if |s.chain| > 1 {
      assert Owes(s, s.chain[0], s.chain[1]);
    }
  }

  lemma ClearKeeps(s: State)
    requires Core(s) && s.c.ClearDummy?
    ensures Core(Dequeue(s))
  {
    var r := Dequeue(s);
    OwesKept(s, r, |s.ps|);
    GapKept(s, r);
    ClearChained(s);
    hide Owes, Gap, InWindow, Items, Chained, Distinct;
    assert ProducersOk(r);
    hide ProducersOk;
  }

  lemma ClearChained(s: State)
    requires Core(s) && s.c.ClearDummy?
    ensures Chained(Dequeue(s))
  {
    OwesKept(s, Dequeue(s), |s.ps|);
    hide Owes, Gap, InWindow, Items, Distinct, ProducersOk;
  }

  lemma SwapKeeps(s: State)
    requires Core(s) && s.c.SwapDummy?
    ensures Core(Dequeue(s))
  {
    var r := Dequeue(s);
    assert Items([Dummy]) == [];
    OwesKept(s, r, |s.ps|);
    assert Owes(r, s.head, Dummy);
    hide Owes, Gap, InWindow, Items, Distinct, Fifo, Chained, ProducersOk;
    AppendChained(s, Dummy, r);
    AppendFifo(s, Dummy, r);
    SwapProducers(s);
  }

  lemma SwapProducers(s: State)
    requires Core(s) && s.c.SwapDummy?
    ensures ProducersOk(Dequeue(s))
  {
    GapKept(s, Dequeue(s));
    hide Owes, Gap, InWindow, Items, Distinct, Fifo, Chained;
  }

  lemma LinkDummyLinks(s: State)
    requires Core(s) && s.c.LinkDummy?
    ensures Chained(Dequeue(s)) && |s.chain| > 1 && s.c.prev in s.chain
    ensures forall q :: 0 <= q < |s.ps| && s.ps[q].Linking? ==> s.ps[q].prev != s.c.prev
    ensures forall m, k :: Gap(s, m, k) && m != s.c.prev ==> Gap(Dequeue(s), m, k)
  {
    var r := Dequeue(s);
    var prev := s.c.prev;
    assert Gap(s, prev, Dummy) && |s.chain| > 1;
    GapUnique(s, prev, Dummy, Dummy);
    forall q | 0 <= q < |s.ps| && s.ps[q].Linking?
      ensures s.ps[q].prev != prev
    {
      if s.ps[q].prev == prev {
        GapUnique(s, prev, Dummy, s.ps[q].n);
      }
    }
    assert forall m, k :: Owes(s, m, k) && m != prev ==> Owes(r, m, k);
    hide Owes;
    FillGap(s, r, prev, Dummy);
  }

  lemma LinkDummyKeeps(s: State)
    requires Core(s) && s.c.LinkDummy?
    ensures Core(Dequeue(s))
  {
    var r := Dequeue(s);
    hide Owes, InWindow, Items, Chained, Gap;
    LinkDummyLinks(s);
    assert ProducersOk(r);
    hide ProducersOk, Distinct;
  }

  lemma DequeueKeeps(s: State)
    requires Core(s) && !s.c.Rest?
    ensures Core(Dequeue(s))
  {
    if s.c.ClearDummy? {
      ClearKeeps(s);
    } else if s.c.SwapDummy? {
      SwapKeeps(s);
    } else if s.c.LinkDummy? {
      LinkDummyKeeps(s);
    } else {
      LoadKeeps(s);
    }
  }

  /** The steps that load a link or the head. */
  lemma LoadKeeps(s: State)
    requires Core(s) && (s.c.LoadNext? || s.c.SecondLoad? || s.c.LoadHead? || s.c.LastLoad?)
    ensures Core(Dequeue(s))
  {
    var at := s.c.at;
    if s.c.LoadHead? {
      if at == s.head {
        assert |s.chain| == 1;
        TurnKeeps(s, Dequeue(s));
      } else {
        TurnKeeps(s, Dequeue(s));
      }
    } else if at in s.next {
      if at == Dummy {
        PassKeeps(s, SecondLoad(s.next[at]), s.answer);
      } else {
        PassKeeps(s, Rest, True(at));
      }
    } else if s.c.LastLoad? || at == Dummy {
      TurnKeeps(s, Dequeue(s));
    } else {
      FrontUnlinked(s);
      WindowSame(s, Dequeue(s));
      TurnKeeps(s, Dequeue(s));
    }
  }

  lemma StepKeepsInv(s: State, a: Action)
    requires Inv(s) && Enabled(s, a)
    ensures Inv(Next(s, a))
  {
    hide Owes, Gap, InWindow, Items, Chained, ProducersOk, Fifo, Distinct;
    match a
    case Begin(p, n) =>
      BeginKeeps(s, p, n);
      WitnessKeeps(Produce(s, a));
    case Exchange(p) =>
      ExchangeKeeps(s, p);
      WitnessKeeps(Produce(s, a));
    case Link(p) =>
      LinkKeeps(s, p);
      WitnessKeeps(Produce(s, a));
    case Call =>
      CallKeeps(s);
    case Consume =>
      DequeueKeeps(s);
      WitnessKeeps(Dequeue(s));
  }

  lemma CallKeeps(s: State)
    requires Core(s) && s.c.Rest?
    ensures Inv(Next(s, Call))
  {
    var r := s.(c := LoadNext(s.tail), window := false, empty := false, answer := Nothing);
    TurnKeeps(s, r);
    WitnessKeeps(r);
  }

  // ------------------------------------------------------- what it means for the callers

  /** A run: actions that are not possible are skipped. */
  ghost function Do(s: State, a: Action): State {
    if Enabled(s, a) && Holding(s) then Next(s, a) else s
  }

  ghost function After(s: State, run: seq<Action>): State {
    if run == [] then s else Do(After(s, run[..|run| - 1]), run[|run| - 1])
  }

  lemma ReachableInv(s: State, run: seq<Action>)
    requires Init(s)
    ensures Inv(After(s, run))
  {
    InitInv(s);
    RunKeepsInv(s, run);
  }

  /** Items come out exactly once, in the order of their exchanges. */
  lemma ExactlyOnceInOrder(s: State, run: seq<Action>)
    requires Init(s)
    ensures var r := After(s, run); r.put == r.got + Items(r.chain) && multiset(r.chain)[Dummy] <= 1
  {
    ReachableInv(s, run);
    var r := After(s, run);
    hide After, Items;
    CountOnce(r.chain, Dummy);
  }

  lemma {:induction false} CountOnce(q: seq<Node>, n: Node)
    requires Distinct(q)
    ensures multiset(q)[n] <= 1
  {
    if q != [] {
      CountOnce(q[1..], n);
      assert q == [q[0]] + q[1..];
      if q[0] == n {
        assert n !in q[1..];
        assert n !in multiset(q[1..]);
      }
    }
  }

  /** A node that Dequeue returns is the oldest item, and it is free: it is not in the
      chain any more, and no thread is about to write its link. */
  lemma ReturnedIsOldestAndFree(s: State)
    requires Inv(s) && !s.c.Rest? && Dequeue(s).c.Rest? && Dequeue(s).answer.True?
    ensures var r := Dequeue(s); var n := r.answer.n;
      && |s.got| < |s.put| && s.put[|s.got|] == n && r.got == s.got + [n]
      && Outside(r, n)
      && (forall p :: 0 <= p < |r.ps| && r.ps[p].Linking? ==> r.ps[p].prev != n)
      && !r.c.LinkDummy?
  {
    var r, n := Dequeue(s), s.c.at;
    assert n != Dummy by {
      hide Chained, ProducersOk, Fifo;
    }
    assert n in s.next && r == Pass(s, Rest, True(n)) by {
      hide Chained, ProducersOk, Fifo, ConsumerOk;
    }
    hide Dequeue;
    PassedIsFree(s, n);
    PassedIsOldest(s, n);
  }

  lemma PassedIsOldest(s: State, n: Node)
    requires Holding(s) && Fifo(s) && n == s.chain[0] != Dummy
    ensures |s.got| < |s.put| && s.put[|s.got|] == n && Items([n]) == [n]
  {
    assert s.chain == [n] + s.chain[1..];
    ItemsConcat([n], s.chain[1..]);
  }

  lemma PassedIsFree(s: State, n: Node)
    requires Holding(s) && Distinct(s.chain) && ProducersOk(s) && n == s.chain[0] != Dummy && n in s.next
    ensures var r := Pass(s, Rest, True(n));
      Outside(r, n) && forall p :: 0 <= p < |r.ps| && r.ps[p].Linking? ==> r.ps[p].prev != n
  {
    forall p | 0 <= p < |s.ps| && s.ps[p].Linking?
      ensures s.ps[p].prev != n && s.ps[p].n != n
    {
      assert Gap(s, s.ps[p].prev, s.ps[p].n);
    }
    hide Gap;
  }

  /** Dequeue answers false only if it has witnessed an empty queue, or an Enqueue between
      its exchange and its link. */
  lemma FalseIsWitnessed(s: State)
    requires Inv(s) && !s.c.Rest? && Dequeue(s).c.Rest? && Dequeue(s).answer == False
    ensures s.window || s.empty
  {
    if s.c.LoadHead? {
      assert |s.chain| != 1;
    } else {
      FrontUnlinked(s);
      if |s.chain| == 1 {
        assert s.chain == [Dummy];
        assert Items(s.chain) == [];
      }
    }
  }

  /** The present call is still on after every part of the run. */
  ghost predicate DuringCall(s: State, run: seq<Action>) {
    forall j :: 0 <= j <= |run| ==> !After(s, run[..j]).c.Rest?
  }

  /** What was witnessed did happen at some instant of the present call. */
  lemma {:induction false} WitnessedHappened(s: State, run: seq<Action>)
    requires DuringCall(s, run)
    requires (s.window ==> InWindow(s)) && (s.empty ==> Items(s.chain) == [])
    ensures var r := After(s, run);
      && (r.window ==> exists j :: 0 <= j <= |run| && InWindow(After(s, run[..j])))
      && (r.empty ==> exists j :: 0 <= j <= |run| && Items(After(s, run[..j]).chain) == [])
    decreases |run|
  {
    assert run[..|run|] == run;
    if run != [] {
      var k := run[..|run| - 1];
      forall j | 0 <= j <= |k|
        ensures k[..j] == run[..j]
      {
      }
      WitnessedHappened(s, k);
      LastWitness(After(s, k), run[|run| - 1]);
      hide Do, InWindow, Items;
    }
  }

  lemma LastWitness(q: State, a: Action)
    requires !q.c.Rest?
    ensures var r := Do(q, a);
      && (r.window ==> q.window || InWindow(r)) && (r.empty ==> q.empty || Items(r.chain) == [])
  {
    if Enabled(q, a) && Holding(q) {
      var p := if a.Consume? then Dequeue(q) else Produce(q, a);
      KeepsWitness(q, a);
      hide Dequeue, Produce, InWindow, Items, Witness;
      WitnessAdds(p);
    }
  }

  lemma KeepsWitness(q: State, a: Action)
    requires !q.c.Rest? && Enabled(q, a) && Holding(q)
    ensures !a.Call? && var p := if a.Consume? then Dequeue(q) else Produce(q, a);
      p.window == q.window && p.empty == q.empty
  {
    hide Items;
  }

  lemma WitnessAdds(p: State)
    ensures var r := Witness(p);
      && (r.window ==> p.window || InWindow(r)) && (r.empty ==> p.empty || Items(r.chain) == [])
  {
    WindowSame(p, Witness(p));
    hide InWindow, Items;
  }

  /** The next step of the consumer is to answer false. */
  ghost predicate FailsNow(s: State) {
    Holding(s) && !s.c.Rest? && Dequeue(s).c.Rest? && Dequeue(s).answer == False
  }

  ghost predicate Excuse(s: State) {
    InWindow(s) || Items(s.chain) == []
  }

  /** A Dequeue that answers false was right: at some instant since it began, the queue was
      empty, or an Enqueue was between its exchange and its link. */
  lemma FalseIsJustified(s: State, run: seq<Action>)
    requires Inv(s) && s.c.Rest?
    requires DuringCall(Next(s, Call), run)
    requires FailsNow(After(Next(s, Call), run))
    ensures exists j :: 0 <= j <= |run| && Excuse(After(Next(s, Call), run[..j]))
  {
    var s1 := Next(s, Call);
    StepKeepsInv(s, Call);
    RunKeepsInv(s1, run);
    WindowSame(s.(c := LoadNext(s.tail), window := false, empty := false, answer := Nothing), s1);
    assert (s1.window ==> InWindow(s1)) && (s1.empty ==> Items(s1.chain) == []);
    hide Next, InWindow, Items;
    WitnessedHappened(s1, run);
    FalseIsWitnessed(After(s1, run));
    hide Inv;
    if After(s1, run).window {
      var j :| 0 <= j <= |run| && InWindow(After(s1, run[..j]));
      assert Excuse(After(s1, run[..j]));
    } else {
      var j :| 0 <= j <= |run| && Items(After(s1, run[..j]).chain) == [];
      assert Excuse(After(s1, run[..j]));
    }
  }

  lemma {:induction false} RunKeepsInv(s: State, run: seq<Action>)
    requires Inv(s)
    ensures Inv(After(s, run))
    decreases |run|
  {
    if run != [] {
      var r, a := After(s, run[..|run| - 1]), run[|run| - 1];
      RunKeepsInv(s, run[..|run| - 1]);
      hide Inv, Next, Enabled;
      if Enabled(r, a) {
        StepKeepsInv(r, a);
      }
    }
  }

  // ------------------------------------------------------- a Dequeue on its own

  /** The consumer alone, k steps on. */
  ghost function Alone(s: State, k: nat): State
    decreases k
  {
    if k == 0 then s else Alone(Do(s, Consume), k - 1)
  }

  /** Nothing is on its way into the queue. */
  ghost predicate Calm(s: State) {
    Inv(s) && !InWindow(s)
  }

  lemma ConsumeStep(s: State)
    requires Holding(s) && !s.c.Rest?
    ensures Do(s, Consume) == Witness(Dequeue(s)) == Next(s, Consume) && Do(s, Consume).ps == s.ps
  {
    ConsumerFrame(s);
    hide InWindow, Items, Dequeue;
  }

  lemma ConsumerFrame(s: State)
    requires Holding(s) && !s.c.Rest?
    ensures Dequeue(s).ps == s.ps
  {
    hide Items;
  }

  /** One step of the consumer in calm. */
  lemma CalmStep(s: State)
    requires Calm(s) && !s.c.Rest?
    ensures Holding(s) && Do(s, Consume) == Witness(Dequeue(s)) && Calm(Do(s, Consume))
  {
    hide InWindow, Chained, ProducersOk, ConsumerOk, Fifo, Distinct, Witnessed, Items, Do, Next, Dequeue, Witness;
    ConsumeStep(s);
    StepKeepsInv(s, Consume);
    WindowSame(s, Do(s, Consume));
  }

  /** In calm, the front node is linked unless it is the only one. */
  lemma CalmFront(s: State)
    requires Calm(s) && !s.c.LinkDummy?
    ensures Holding(s) && (s.tail in s.next <==> |s.chain| > 1)
    ensures s.tail in s.next ==> s.next[s.tail] == s.chain[1]
  {
    if s.tail !in s.next {
      FrontUnlinked(s);
    }
  }

  /** A single real node: the dummy is enqueued behind it, and it is taken. */
  lemma TakesLast(s: State)
    requires Calm(s) && s.c.LoadHead? && |s.chain| == 1
    ensures Alone(s, 5).c.Rest? && Alone(s, 5).answer == True(s.tail)
  {
    var at := s.tail;
    CalmStep(s);
    assert s.c.at == at != Dummy;
    hide Calm, Do, InWindow, Items;
    var s1 := Do(s, Consume);
    assert s1.c == ClearDummy(at) && s1.chain == s.chain && s1.head == at;
    CalmStep(s1);
    var s2 := Do(s1, Consume);
    assert s2.c == SwapDummy(at) && s2.chain == s.chain && s2.head == at;
    PutsDummy(s2, at);
    AloneFive(s);
  }

  lemma PutsDummy(s: State, at: Node)
    requires Calm(s) && s.c == SwapDummy(at) && s.head == at && at != Dummy
    ensures var r := Do(Do(Do(s, Consume), Consume), Consume); r.c.Rest? && r.answer == True(at)
  {
    assert Holding(s);
    hide Calm, Do, InWindow, Items, Dequeue, Witness;
    var s3 := Do(s, Consume);
    var s4 := Do(s3, Consume);
    SwapStep(s, at);
    LinkDummyStep(s3, at);
    LastStep(s4, at);
  }

  lemma SwapStep(s: State, at: Node)
    requires Calm(s) && s.c == SwapDummy(at) && s.head == at
    ensures Calm(Do(s, Consume)) && Do(s, Consume).c == LinkDummy(at, at)
  {
    CalmStep(s);
    hide Calm, Do, InWindow, Items;
  }

  lemma LinkDummyStep(s: State, at: Node)
    requires Calm(s) && s.c == LinkDummy(at, at)
    ensures Calm(Do(s, Consume)) && Do(s, Consume).c == LastLoad(at) && at in Do(s, Consume).next
  {
    CalmStep(s);
    hide Calm, Do, InWindow, Items;
  }

  lemma LastStep(s: State, at: Node)
    requires Calm(s) && s.c == LastLoad(at) && at in s.next && at != Dummy
    ensures Do(s, Consume).c.Rest? && Do(s, Consume).answer == True(at)
  {
    CalmStep(s);
    hide Calm, Do, InWindow, Items;
  }

  lemma AloneFive(s: State)
    ensures Alone(s, 5) == Do(Do(Do(Do(Do(s, Consume), Consume), Consume), Consume), Consume)
  {
    hide Do;
    assert Alone(s, 5) == Alone(Do(s, Consume), 4) == Alone(Do(Do(s, Consume), Consume), 3);
  }

  /** From a real front node on, the consumer takes it. */
  lemma TakesFront(s: State) returns (k: nat)
    requires Calm(s) && s.tail != Dummy && (s.c.LoadNext? || s.c.SecondLoad?)
    ensures k <= 6 && Alone(s, k).c.Rest? && Alone(s, k).answer == True(s.tail)
  {
    CalmFront(s);
    CalmStep(s);
    assert s.c.at == s.tail;
    hide Calm, Do;
    var s1 := Do(s, Consume);
    assert Alone(s, 1) == Alone(s1, 0) == s1;
    if |s.chain| > 1 {
      k := 1;
    } else {
      assert s1.c.LoadHead? && s1.chain == s.chain && s1.tail == s.tail;
      TakesLast(s1);
      k := 6;
      assert Alone(s, 6) == Alone(s1, 5);
    }
  }

  /** With no Enqueue in between, a Dequeue takes at most seven steps after its first, and
      answers with the oldest item if there is one. */
  lemma AloneTakesOldest(s: State) returns (k: nat)
    requires Calm(s) && s.c.Rest?
    ensures k <= 7 && var r := Alone(Next(s, Call), k);
      r.c.Rest? && r.answer == if Items(s.chain) == [] then False else True(Items(s.chain)[0])
  {
    var s1 := Next(s, Call);
    StepKeepsInv(s, Call);
    WindowSame(s, s1);
    CalmFront(s1);
    assert s1.c == LoadNext(s.tail) && s1.chain == s.chain;
    FrontItem(s);
    hide Next, Items;
    if s.tail != Dummy {
      k := TakesFront(s1);
    } else {
      k := AlonePastDummy(s1);
    }
  }

  lemma FrontItem(s: State)
    requires Inv(s)
    ensures s.tail != Dummy ==> Items(s.chain) != [] && Items(s.chain)[0] == s.tail
    ensures s.tail == Dummy && |s.chain| == 1 ==> Items(s.chain) == []
    ensures s.tail == Dummy && |s.chain| > 1 ==>
      s.chain[1] != Dummy && Items(s.chain) != [] && Items(s.chain)[0] == s.chain[1]
  {
    assert s.chain == [s.chain[0]] + s.chain[1..];
    if |s.chain| > 1 {
      assert s.chain[0] != s.chain[1];
    }
  }

  lemma AlonePastDummy(s: State) returns (k: nat)
    requires Calm(s) && s.c == LoadNext(Dummy)
    ensures k <= 7 && var r := Alone(s, k);
      r.c.Rest? && r.answer == if |s.chain| == 1 then False else True(s.chain[1])
  {
    hide Calm, Do, Items;
    var s1 := Do(s, Consume);
    PastDummyStep(s);
    assert Alone(s, 1) == Alone(s1, 0) == s1;
    if |s.chain| == 1 {
      k := 1;
    } else {
      k := TakesFront(s1);
      assert Alone(s, k + 1) == Alone(s1, k);
      k := k + 1;
    }
  }

  /** The first step of a call, at the dummy. */
  lemma PastDummyStep(s: State)
    requires Calm(s) && s.c == LoadNext(Dummy)
    ensures var r := Do(s, Consume);
      && |s.chain| > 0 && Calm(r) && (|s.chain| == 1 ==> r.c.Rest? && r.answer == False)
      && (|s.chain| > 1 ==> r.c.SecondLoad? && r.tail == s.chain[1] != Dummy)
  {
    CalmFront(s);
    FrontItem(s);
    assert Holding(s) && s.c.at == s.tail == Dummy;
    CalmStep(s);
    hide Inv, InWindow, Do, Items, Calm;
  }
}
