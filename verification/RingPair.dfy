/** One producer running beside one consumer: the single-producer and single-consumer calls,
    which store a head without comparing and publish a tail without waiting, interleaved. */
module RingPair {
  import opened Bits
  import opened RingProtocol
  import opened RingTheorems

  predicate Enqueues(pc: PC) {
    pc.EnqHead? || pc.EnqTail? || pc.EnqCas? || pc.EnqCopy?
  }

  predicate Dequeues(pc: PC) {
    pc.DeqHead? || pc.DeqTail? || pc.DeqCas? || pc.DeqCopy?
  }

  /** A step of __rte_ring_sp_do_enqueue or __rte_ring_sc_do_dequeue. */
  function PairStep(w: Width, s: Ring, t: Tid): (Ring, Ret)
    requires t in s.pcs && s.size > 0 && |s.slots| == s.size
  {
    var pc := s.pcs[t];
    if pc.EnqCas? then
      (s.(prodHead := Wrap(w, pc.head + pc.n)).At(t, Claimed(pc)), Pending)
    else if pc.EnqCopy? && pc.done >= pc.n && !pc.ret.Pending? then
      (s.(prodTail := Wrap(w, pc.head + pc.n)).At(t, Idle), pc.ret)
    else if pc.DeqCas? then
      (s.(consHead := Wrap(w, pc.head + pc.n)).At(t, DeqCopy(pc.want, pc.beh, pc.head, pc.n, [])), Pending)
    else if pc.DeqCopy? && |pc.got| >= pc.n then
      (s.(consTail := Wrap(w, pc.head + pc.n)).At(t, Idle), Dequeued(pc.got))
    else Next(w, s, Step(t))
  }

  /** Only p enqueues, and only c dequeues. */
  predicate Allowed(a: Action, p: Tid, c: Tid) {
    (a.Enqueue? ==> a.t == p) && (a.Dequeue? ==> a.t == c)
  }

  function PairDo(w: Width, s: Ring, h: History, a: Action): (Ring, History) {
    if a.Step? && Enabled(s, a) && s.size > 0 && |s.slots| == s.size then
      var (s', r) := PairStep(w, s, a.t);
      (s', Record(s, h, a, s', r))
    else Do(w, s, h, a)
  }

  function PairRun(w: Width, s: Ring, h: History, acts: seq<Action>): (Ring, History)
    decreases |acts|
  {
    if acts == [] then (s, h)
    else
      var (s', h') := PairDo(w, s, h, acts[0]);
      PairRun(w, s', h', acts[1..])
  }

  /** What one side alone can rely on: a head it has read is still the head, and its own
      claim, if it has one, is the only one. */
  predicate OwnSide(w: Width, head: int, tail: int, mine: PC) {
    match mine
    case EnqTail(_, _, h) => h == head == tail
    case EnqCas(_, _, h, _, _, _) => h == head == tail
    case EnqCopy(_, _, h, _, _, n, _, _) => h == tail && head == Wrap(w, h + n)
    case DeqTail(_, _, h) => h == head == tail
    case DeqCas(_, _, h, _) => h == head == tail
    case DeqCopy(_, _, h, n, _) => h == tail && head == Wrap(w, h + n)
    case _ => head == tail
  }

  ghost predicate Alone(w: Width, s: Ring, p: Tid, c: Tid) {
    && p in s.pcs && c in s.pcs && p != c
    && (forall t :: t in s.pcs && t != p ==> !Enqueues(s.pcs[t]))
    && (forall t :: t in s.pcs && t != c ==> !Dequeues(s.pcs[t]))
    && OwnSide(w, s.prodHead, s.prodTail, s.pcs[p])
    && OwnSide(w, s.consHead, s.consTail, s.pcs[c])
  }

  /** Alone on its side, a call with stores and without waiting is the call with
      compare-and-set and waiting. */
  lemma PairIsMulti(w: Width, s: Ring, h: History, a: Action, p: Tid, c: Tid)
    requires Alone(w, s, p, c)
    ensures PairDo(w, s, h, a) == Do(w, s, h, a)
  {
    if a.Step? && a.t in s.pcs {
      assert Enqueues(s.pcs[a.t]) ==> a.t == p;
      assert Dequeues(s.pcs[a.t]) ==> a.t == c;
      hide Record;
    }
  }

  lemma StaysAlone(w: Width, s: Ring, h: History, a: Action, p: Tid, c: Tid)
    requires Alone(w, s, p, c) && Allowed(a, p, c)
    ensures Alone(w, Do(w, s, h, a).0, p, c)
  {
    hide Record;
    if Enabled(s, a) && s.size > 0 && |s.slots| == s.size {
      NextMoves(w, s, a);
      MoverStays(w, s, a, Next(w, s, a).0, p, c);
    }
  }

  /** A step of the producer keeps its side in order and does not touch the other side. */
  lemma ProducerStays(w: Width, s: Ring, t: Tid, s': Ring)
    requires Enabled(s, Step(t)) && s.size > 0 && |s.slots| == s.size && s' == Next(w, s, Step(t)).0
    requires Enqueues(s.pcs[t]) && OwnSide(w, s.prodHead, s.prodTail, s.pcs[t])
    ensures t in s'.pcs && OwnSide(w, s'.prodHead, s'.prodTail, s'.pcs[t]) && !Dequeues(s'.pcs[t])
    ensures s'.consHead == s.consHead && s'.consTail == s.consTail
  {
  }

  lemma ConsumerStays(w: Width, s: Ring, t: Tid, s': Ring)
    requires Enabled(s, Step(t)) && s.size > 0 && |s.slots| == s.size && s' == Next(w, s, Step(t)).0
    requires Dequeues(s.pcs[t]) && OwnSide(w, s.consHead, s.consTail, s.pcs[t])
    ensures t in s'.pcs && OwnSide(w, s'.consHead, s'.consTail, s'.pcs[t]) && !Enqueues(s'.pcs[t])
    ensures s'.prodHead == s.prodHead && s'.prodTail == s.prodTail
  {
  }

  lemma StartStays(w: Width, s: Ring, a: Action, s': Ring)
    requires Enabled(s, a) && s.size > 0 && |s.slots| == s.size && s' == Next(w, s, a).0
    requires a.Step? ==> s.pcs[a.t].Idle?
    ensures a.t in s'.pcs && (Enqueues(s'.pcs[a.t]) <==> a.Enqueue?) && (Dequeues(s'.pcs[a.t]) <==> a.Dequeue?)
    ensures s'.prodHead == s.prodHead && s'.prodTail == s.prodTail
    ensures s'.consHead == s.consHead && s'.consTail == s.consTail
    ensures !s'.pcs[a.t].EnqTail? && !s'.pcs[a.t].EnqCas? && !s'.pcs[a.t].EnqCopy?
    ensures !s'.pcs[a.t].DeqTail? && !s'.pcs[a.t].DeqCas? && !s'.pcs[a.t].DeqCopy?
  {
  }

  lemma MoverStays(w: Width, s: Ring, a: Action, s': Ring, p: Tid, c: Tid)
    requires Enabled(s, a) && s.size > 0 && |s.slots| == s.size && Alone(w, s, p, c) && Allowed(a, p, c)
    requires s' == Next(w, s, a).0 && OnlyMoves(s, s', a.t)
    ensures Alone(w, s', p, c)
  {
    hide Next;
    if Enqueues(s.pcs[a.t]) {
      ProducerStays(w, s, a.t, s');
    } else if Dequeues(s.pcs[a.t]) {
      ConsumerStays(w, s, a.t, s');
    } else {
      StartStays(w, s, a, s');
    }
  }

  /** A lone producer and a lone consumer never sleep through a cycle of the indices: nobody
      else moves the head they have read. */
  lemma AloneIsFresh(s: Ring, h: History, a: Action, p: Tid, c: Tid)
    requires Inv(s, h) && Alone(Unbounded, s, p, c) && s.size <= M32
    ensures Fresh(s, a)
  {
    if a.Step? && a.t in s.pcs {
      assert Enqueues(s.pcs[a.t]) ==> a.t == p;
      assert Dequeues(s.pcs[a.t]) ==> a.t == c;
    }
  }

  lemma {:induction false} PairRunIsFresh(s: Ring, h: History, acts: seq<Action>, p: Tid, c: Tid)
    requires Inv(s, h) && Alone(Unbounded, s, p, c) && s.size <= M32
    requires forall i :: 0 <= i < |acts| ==> Allowed(acts[i], p, c)
    ensures FreshRun(s, h, acts)
    decreases |acts|
  {
    if acts != [] {
      AloneIsFresh(s, h, acts[0], p, c);
      StaysAlone(Unbounded, s, h, acts[0], p, c);
      DoKeepsInv(s, h, acts[0]);
      hide Inv, Alone, Do;
      PairRunIsFresh(Do(Unbounded, s, h, acts[0]).0, Do(Unbounded, s, h, acts[0]).1, acts[1..], p, c);
    }
  }

  lemma {:induction false} PairRunIsRun(w: Width, s: Ring, h: History, acts: seq<Action>, p: Tid, c: Tid)
    requires Alone(w, s, p, c) && forall i :: 0 <= i < |acts| ==> Allowed(acts[i], p, c)
    ensures PairRun(w, s, h, acts) == Run(w, s, h, acts)
    decreases |acts|
  {
    if acts != [] {
      PairIsMulti(w, s, h, acts[0], p, c);
      StaysAlone(w, s, h, acts[0], p, c);
      hide Alone, Do, PairDo;
      PairRunIsRun(w, Do(w, s, h, acts[0]).0, Do(w, s, h, acts[0]).1, acts[1..], p, c);
    }
  }

  /** One producer and one consumer on the 32-bit ring, in any interleaving and with any
      pauses: objects come out in the order in which they went in, and the ring never holds
      more than mask of them. */
  lemma PairIsFifo(size: nat, slots: seq<Ptr>, threads: set<Tid>, acts: seq<Action>, p: Tid, c: Tid)
    requires IsPow2(size) && 0 < size <= M32 && |slots| == size && p in threads && c in threads && p != c
    requires forall i :: 0 <= i < |acts| ==> Allowed(acts[i], p, c)
    ensures var (s, h) := PairRun(Bits32, Init(size, slots, threads), NoHistory, acts);
      h.out <= h.log && |h.log| - |h.out| <= size - 1
  {
    var s0 := Init(size, slots, threads);
    InitInv(size, slots, threads);
    PairRunIsFresh(s0, NoHistory, acts, p, c);
    PairRunIsRun(Bits32, s0, NoHistory, acts, p, c);
    hide Inv, FreshRun, Run, PairRun;
    CodeIsFifo(size, slots, threads, acts);
  }
}
