/** What the ring promises in every run: bounds, a unique publisher, FIFO order, truthful
    failures, and that 32-bit indices behave like unbounded ones. */
module RingTheorems {
  import opened Bits
  import opened RingProtocol

  /** One action of a run; an action the thread cannot take is skipped. */
  function Do(w: Width, s: Ring, h: History, a: Action): (Ring, History) {
    if Enabled(s, a) && s.size > 0 && |s.slots| == s.size then
      var (s', r) := Next(w, s, a);
      (s', Record(s, h, a, s', r))
    else (s, h)
  }

  /** Any interleaving of any number of threads. */
  function Run(w: Width, s: Ring, h: History, acts: seq<Action>): (Ring, History)
    decreases |acts|
  {
    if acts == [] then (s, h)
    else
      var (s', h') := Do(w, s, h, acts[0]);
      Run(w, s', h', acts[1..])
  }

  lemma DoKeepsInv(s: Ring, h: History, a: Action)
    requires Inv(s, h)
    ensures var (s', h') := Do(Unbounded, s, h, a); Inv(s', h') && s'.size == s.size
  {
    hide Tiles, ClaimsMatch, Locals, Holds;
    if Enabled(s, a) {
      var (s', r) := Next(Unbounded, s, a);
      hide Next, Record;
      StepKeepsInv(s, h, a, s', r, Record(s, h, a, s', r));
      NextMoves(Unbounded, s, a);
    }
  }

  lemma {:induction false} RunKeepsInv(s: Ring, h: History, acts: seq<Action>)
    requires Inv(s, h)
    ensures var (s', h') := Run(Unbounded, s, h, acts); Inv(s', h') && s'.size == s.size
    decreases |acts|
  {
    hide Inv, Do;
    if acts != [] {
      DoKeepsInv(s, h, acts[0]);
      var (s', h') := Do(Unbounded, s, h, acts[0]);
      RunKeepsInv(s', h', acts[1..]);
    }
  }

  /** Safety of every run from a fresh ring. The indices stay in order and in range; the
      claims in flight tile the unpublished intervals; and what dequeues have returned, in
      the order they returned it, is a prefix of what enqueues claimed, in CAS order. */
  lemma ReachableStates(size: nat, slots: seq<Ptr>, threads: set<Tid>, acts: seq<Action>)
    requires size > 0 && |slots| == size
    ensures var (s, h) := Run(Unbounded, Init(size, slots, threads), NoHistory, acts);
      && Inv(s, h)
      && 0 <= s.consTail <= s.consHead <= s.prodTail <= s.prodHead <= s.consTail + (size - 1)
      && Tiles(h.prods, s.prodTail, s.prodHead)
      && Tiles(h.conss, s.consTail, s.consHead)
      && |h.log| == s.prodHead && |h.out| == s.consTail && h.out <= h.log
  {
    InitInv(size, slots, threads);
    RunKeepsInv(Init(size, slots, threads), NoHistory, acts);
  }

  /** If any claim is in flight, the oldest begins at the tail, and no other does. */
  lemma OldestIsUnique(pcs: map<Tid, PC>, cs: seq<Claim>, producer: bool, from: int, to: int)
    requires Tiles(cs, from, to) && ClaimsMatch(pcs, cs, producer) && exists t :: t in pcs && Owns(pcs[t], producer)
    ensures exists t :: t in pcs && Owns(pcs[t], producer) && pcs[t].head == from
    ensures forall t, u ::
      (t in pcs && u in pcs && Owns(pcs[t], producer) && Owns(pcs[u], producer)
       && pcs[t].head == from && pcs[u].head == from) ==> t == u
  {
    var t :| t in pcs && Owns(pcs[t], producer);
    OwnClaim(pcs, cs, producer, t);
    assert cs[0] in cs;
    hide Tiles, ClaimsMatch;
    forall t, u | t in pcs && u in pcs && Owns(pcs[t], producer) && Owns(pcs[u], producer)
      && pcs[t].head == from && pcs[u].head == from
      ensures t == u
    {
      OwnClaim(pcs, cs, producer, t);
      OwnClaim(pcs, cs, producer, u);
      OldestClaim(cs, from, to, Claim(t, from, pcs[t].n));
      OldestClaim(cs, from, to, Claim(u, from, pcs[u].n));
    }
  }

  /** If any enqueue is in flight, exactly one of them may publish: the oldest. */
  lemma UniquePublisher(s: Ring, h: History)
    requires Inv(s, h) && exists t :: t in s.pcs && s.pcs[t].EnqCopy?
    ensures exists t :: t in s.pcs && s.pcs[t].EnqCopy? && s.pcs[t].head == s.prodTail
    ensures forall t, u ::
      (t in s.pcs && u in s.pcs && s.pcs[t].EnqCopy? && s.pcs[u].EnqCopy?
       && s.pcs[t].head == s.prodTail && s.pcs[u].head == s.prodTail) ==> t == u
  {
    hide Tiles, ClaimsMatch, Locals, Holds;
    OldestIsUnique(s.pcs, h.prods, true, s.prodTail, s.prodHead);
  }

  /** The same for dequeues. */
  lemma UniqueReleaser(s: Ring, h: History)
    requires Inv(s, h) && exists t :: t in s.pcs && s.pcs[t].DeqCopy?
    ensures exists t :: t in s.pcs && s.pcs[t].DeqCopy? && s.pcs[t].head == s.consTail
    ensures forall t, u ::
      (t in s.pcs && u in s.pcs && s.pcs[t].DeqCopy? && s.pcs[u].DeqCopy?
       && s.pcs[t].head == s.consTail && s.pcs[u].head == s.consTail) ==> t == u
  {
    hide Tiles, ClaimsMatch, Locals, Holds;
    OldestIsUnique(s.pcs, h.conss, false, s.consTail, s.consHead);
  }

  // ------------------------------------------------------------- an atomic FIFO queue

  /** The queue the ring implements: published and not yet claimed by a dequeue. */
  predicate QueueExists(s: Ring, h: History) {
    0 <= s.consHead <= s.prodTail <= |h.log|
  }

  function Queue(s: Ring, h: History): seq<Ptr>
    requires QueueExists(s, h)
  {
    h.log[s.consHead..s.prodTail]
  }

  /** Does this action publish a batch, or claim one for dequeueing? */
  predicate Publishes(s: Ring, a: Action) {
    a.Step? && a.t in s.pcs && s.pcs[a.t].EnqCopy?
    && s.pcs[a.t].done >= s.pcs[a.t].n && !s.pcs[a.t].ret.Pending? && s.prodTail == s.pcs[a.t].head
  }

  predicate Takes(s: Ring, a: Action) {
    a.Step? && a.t in s.pcs && s.pcs[a.t].DeqCas? && s.consHead == s.pcs[a.t].head
  }

  // Each atomic action is one step of a bounded FIFO queue: publishing appends a whole
  // batch, a dequeue's compare-and-set removes a batch from the front, and every other
  // action leaves the queue alone. Bulk calls move all the objects they were asked for.

  lemma PublishIsEnqueue(s: Ring, h: History, a: Action, s': Ring, r: Ret, h': History)
    requires Inv(s, h) && StepTo(s, h, a, s', r, h') && Publishes(s, a)
    ensures var pc := s.pcs[a.t];
      && QueueExists(s, h) && QueueExists(s', h') && |Queue(s', h')| <= s.size - 1
      && r.Enqueued? && r.count == pc.n == Part(|pc.objs|, s.size - 1 - (pc.head - pc.tail))
      && 1 <= pc.n <= |pc.objs| && (pc.beh.Fixed? ==> pc.n == |pc.objs|)
      && Queue(s', h') == Queue(s, h) + pc.objs[..pc.n]
  {
    hide Tiles, ClaimsMatch, Holds;
    StepKeepsInv(s, h, a, s', r, h');
    assert Local(s, h, s.pcs[a.t]);
    SlicesJoin(h.log, s.consHead, s.prodTail, s.pcs[a.t].n);
  }

  lemma TakeIsDequeue(s: Ring, h: History, a: Action, s': Ring, r: Ret, h': History)
    requires Inv(s, h) && StepTo(s, h, a, s', r, h') && Takes(s, a)
    ensures var pc := s.pcs[a.t];
      && QueueExists(s, h) && QueueExists(s', h')
      && a.t in s'.pcs && s'.pcs[a.t].DeqCopy? && s'.pcs[a.t].head == s.consHead && s'.pcs[a.t].n == pc.n
      && 0 < pc.n <= |Queue(s, h)| && (pc.beh.Fixed? ==> pc.n == pc.want)
      && Queue(s', h') == Queue(s, h)[pc.n..]
  {
    hide Tiles, ClaimsMatch, Holds;
    StepKeepsInv(s, h, a, s', r, h');
    assert Local(s, h, s.pcs[a.t]);
    SliceDrops(h.log, s.consHead, s.prodTail, s.pcs[a.t].n);
  }

  lemma OtherStepsLeaveQueue(s: Ring, h: History, a: Action, s': Ring, r: Ret, h': History)
    requires Inv(s, h) && StepTo(s, h, a, s', r, h') && !Publishes(s, a) && !Takes(s, a)
    ensures QueueExists(s, h) && QueueExists(s', h') && Queue(s', h') == Queue(s, h) && !r.Enqueued?
  {
    hide Tiles, ClaimsMatch, Holds, Locals;
    EnqueueGrowsLog(s, h, a, s', r, h');
    EndsStay(s, a, s', r);
    hide StepTo, Publishes, Takes;
    SliceOfPrefix(h.log, h'.log, s.consHead, s.prodTail);
  }

  /** Nothing else moves an end of the queue. */
  lemma EndsStay(s: Ring, a: Action, s': Ring, r: Ret)
    requires Enabled(s, a) && s.size > 0 && |s.slots| == s.size && Next(Unbounded, s, a) == (s', r)
    requires !Publishes(s, a) && !Takes(s, a)
    ensures s'.consHead == s.consHead && s'.prodTail == s.prodTail && !r.Enqueued?
  {
    if a.Step? {
      var pc := s.pcs[a.t];
      if pc.EnqTail? || pc.EnqCas? || pc.EnqCopy? {
        hide ReadProdTail, CasConsHead, CopyOut;
      } else {
        hide ReadConsTail, CasProdHead, CopyIn;
      }
    }
  }

  lemma EnqueueGrowsLog(s: Ring, h: History, a: Action, s': Ring, r: Ret, h': History)
    requires StepTo(s, h, a, s', r, h')
    ensures h.log <= h'.log
  {
  }

  lemma SlicesJoin(q: seq<Ptr>, a: nat, b: nat, n: nat)
    requires a <= b && b + n <= |q|
    ensures q[a..b + n] == q[a..b] + q[b..b + n]
  {
  }

  lemma SliceDrops(q: seq<Ptr>, a: nat, b: nat, n: nat)
    requires a + n <= b <= |q|
    ensures q[a + n..b] == q[a..b][n..]
  {
  }

  lemma SliceOfPrefix(p: seq<Ptr>, q: seq<Ptr>, a: nat, b: nat)
    requires p <= q && a <= b <= |p|
    ensures p[a..b] == q[a..b]
  {
  }

  /** A dequeue that returns hands back exactly the batch its compare-and-set removed. */
  lemma DequeueReturnsItsBatch(s: Ring, h: History, a: Action, s': Ring, r: Ret, h': History)
    requires Inv(s, h) && StepTo(s, h, a, s', r, h') && r.Dequeued?
    ensures var pc := s.pcs[a.t];
      && pc.DeqCopy? && |r.objs| == pc.n && (pc.beh.Fixed? ==> pc.n == pc.want)
      && 0 <= pc.head && pc.head + pc.n <= |h.log|
      && r.objs == h.log[pc.head..pc.head + pc.n]
  {
    hide Tiles, ClaimsMatch, Holds;
    assert Local(s, h, s.pcs[a.t]);
  }

  lemma ClaimsHaveOwners(pcs: map<Tid, PC>, cs: seq<Claim>, producer: bool)
    requires ClaimsMatch(pcs, cs, producer)
    ensures cs != [] ==> exists t :: t in pcs && Owns(pcs[t], producer)
  {
    if cs != [] {
      assert cs[0] in cs;
    }
  }

  /** Conservation: when no call is in flight, everything enqueued was either returned, in
      order, or is still in the slots. */
  lemma QuiescentConservation(s: Ring, h: History)
    requires Inv(s, h) && forall t :: t in s.pcs ==> s.pcs[t].Idle?
    ensures s.consTail == s.consHead && s.prodTail == s.prodHead
    ensures h.log == h.out + Queue(s, h)
    ensures forall i :: 0 <= i < |Queue(s, h)| ==> s.slots[Slot(s, s.consTail + i)] == Queue(s, h)[i]
  {
    ClaimsHaveOwners(s.pcs, h.prods, true);
    ClaimsHaveOwners(s.pcs, h.conss, false);
  }

  // -------------------------------------------------------------------- failures

  /** -ENOBUFS is truthful at the instant cons.tail was read, even if the head was stale:
      the claimed entries leave no room for the request. With a fresh head it is exact. */
  lemma NoBufsIsTruthful(s: Ring, h: History, a: Action, s': Ring, r: Ret, h': History)
    requires Inv(s, h) && StepTo(s, h, a, s', r, h')
    requires a.Step? && s.pcs[a.t].EnqTail?
    ensures var pc := s.pcs[a.t]; var room := s.Mask() - (s.prodHead - s.consTail);
      && (r.NoBufs? ==> if pc.beh.Fixed? then |pc.objs| > room else room == 0)
      && (r.NoBufs? ==> s'.slots == s.slots && s'.prodHead == s.prodHead && h' == h)
      && (pc.head == s.prodHead ==>
            (r.NoBufs? <==> if pc.beh.Fixed? then |pc.objs| > room else room == 0))
  {
    hide Tiles, ClaimsMatch, Holds;
    assert Local(s, h, s.pcs[a.t]);
    hide Locals;
  }

  /** -ENOENT likewise. */
  lemma NoEntIsTruthful(s: Ring, h: History, a: Action, s': Ring, r: Ret, h': History)
    requires Inv(s, h) && StepTo(s, h, a, s', r, h')
    requires a.Step? && s.pcs[a.t].DeqTail?
    ensures var pc := s.pcs[a.t]; var ready := s.prodTail - s.consHead;
      && (r.NoEnt? ==> if pc.beh.Fixed? then pc.want > ready else ready == 0)
      && (r.NoEnt? ==> s'.consHead == s.consHead && h' == h)
      && (pc.head == s.consHead ==>
            (r.NoEnt? <==> if pc.beh.Fixed? then pc.want > ready else ready == 0))
  {
    hide Tiles, ClaimsMatch, Holds;
    assert Local(s, h, s.pcs[a.t]);
    hide Locals;
  }

  /** A stale head can make free_entries exceed the ring, against the comment in the code;
      but then the compare-and-set fails. When it succeeds, the room was really there. */
  lemma SuccessfulClaimFits(s: Ring, h: History, a: Action, s': Ring, r: Ret, h': History)
    requires Inv(s, h) && StepTo(s, h, a, s', r, h')
    requires a.Step? && s.pcs[a.t].EnqCas?
    ensures var pc := s.pcs[a.t];
      && (s'.pcs[a.t].EnqCopy? <==> pc.head == s.prodHead)
      && (s'.pcs[a.t].EnqCopy? ==>
            && pc.n == Part(|pc.objs|, pc.free) && (pc.beh.Fixed? ==> pc.n == |pc.objs|)
            && pc.n <= pc.free <= s.Mask() - (s.prodHead - s.consTail) && s'.prodHead == s.prodHead + pc.n)
      && (pc.free > s.Mask() ==> s'.pcs[a.t] == EnqHead(pc.objs, pc.beh))
  {
    hide Tiles, ClaimsMatch, Holds;
    assert Local(s, h, s.pcs[a.t]);
    hide Locals;
  }

  // -------------------------------------------------------------------- the watermark

  ghost function StateAt(s: Ring, h: History, acts: seq<Action>, j: nat): Ring
    requires j <= |acts|
  {
    Run(Unbounded, s, h, acts[..j]).0
  }

  /** The j-th action is thread t's read of cons.tail for its claim at `head`, and finds `tail`. */
  ghost predicate ReadsTail(s: Ring, h: History, acts: seq<Action>, t: Tid, head: int, tail: int, j: nat) {
    && j < |acts| && acts[j] == Step(t)
    && var sj := StateAt(s, h, acts, j);
       t in sj.pcs && sj.pcs[t].EnqTail? && sj.pcs[t].head == head && sj.consTail == tail
  }

  /** The i-th action is thread t's read of the watermark for its claim of n objects at `head`,
      and finds `mark`. */
  ghost predicate ReadsMark(s: Ring, h: History, acts: seq<Action>, t: Tid, head: int, n: int, mark: nat, i: nat) {
    && i < |acts| && acts[i] == Step(t)
    && var si := StateAt(s, h, acts, i);
       && t in si.pcs && si.pcs[t].EnqCopy? && si.pcs[t].ret.Pending?
       && si.pcs[t].head == head && si.pcs[t].n == n && si.watermark == mark
  }

  /** Where the local variables of an enqueue come from. */
  ghost predicate Sourced(s: Ring, h: History, acts: seq<Action>, size: nat, t: Tid, pc: PC) {
    && (pc.EnqCas? || pc.EnqCopy? ==> exists j: nat :: ReadsTail(s, h, acts, t, pc.head, pc.tail, j))
    && (pc.EnqCopy? && !pc.ret.Pending? ==>
          exists i: nat, mark: nat :: ReadsMark(s, h, acts, t, pc.head, pc.n, mark, i) && Judged(size, pc, mark))
  }

  ghost predicate Judged(size: nat, pc: PC, mark: nat)
    requires pc.EnqCopy?
  {
    pc.ret.Enqueued? && (pc.ret.quota <==> size - pc.free + pc.n > mark)
  }

  lemma {:induction false} RunSnoc(w: Width, s: Ring, h: History, acts: seq<Action>, a: Action)
    ensures Run(w, s, h, acts + [a]) == Do(w, Run(w, s, h, acts).0, Run(w, s, h, acts).1, a)
    decreases |acts|
  {
    if acts == [] {
      assert [a][1..] == [];
    } else {
      var (s', h') := Do(w, s, h, acts[0]);
      assert (acts + [a])[1..] == acts[1..] + [a];
      hide Do;
      RunSnoc(w, s', h', acts[1..], a);
    }
  }

  /** A longer run does not change what has been read. */
  lemma SourcedStays(s: Ring, h: History, acts: seq<Action>, a: Action, size: nat, t: Tid, pc: PC)
    requires Sourced(s, h, acts, size, t, pc)
    ensures Sourced(s, h, acts + [a], size, t, pc)
  {
    var b := acts + [a];
    hide Run, Judged;
    forall j: nat | j < |acts|
      ensures StateAt(s, h, b, j) == StateAt(s, h, acts, j) && b[j] == acts[j]
    {
      assert b[..j] == acts[..j];
    }
    hide StateAt;
    if pc.EnqCas? || pc.EnqCopy? {
      var j: nat :| ReadsTail(s, h, acts, t, pc.head, pc.tail, j);
      assert ReadsTail(s, h, b, t, pc.head, pc.tail, j);
    }
    if pc.EnqCopy? && !pc.ret.Pending? {
      var i: nat, mark: nat :| ReadsMark(s, h, acts, t, pc.head, pc.n, mark, i) && Judged(size, pc, mark);
      assert ReadsMark(s, h, b, t, pc.head, pc.n, mark, i);
    }
  }

  /** One more step of the thread itself. */
  lemma SourcedStep(s: Ring, h: History, acts: seq<Action>, a: Action, size: nat, q: Ring)
    requires q == Run(Unbounded, s, h, acts).0 && Enabled(q, a) && q.size == size > 0 && |q.slots| == size
    requires Sourced(s, h, acts, size, a.t, q.pcs[a.t])
    ensures var q' := Next(Unbounded, q, a).0;
      a.t in q'.pcs && Sourced(s, h, acts + [a], size, a.t, q'.pcs[a.t])
  {
    var b, t, pc := acts + [a], a.t, q.pcs[a.t];
    var q' := Next(Unbounded, q, a).0;
    NextMoves(Unbounded, q, a);
    EnqueueReads(q, a);
    assert b[..|acts|] == acts && b[|acts|] == a;
    assert StateAt(s, h, b, |acts|) == q;
    SourcedStays(s, h, acts, a, size, t, pc);
    hide Run, StateAt, Next, Judged;
    var pc' := q'.pcs[t];
    if pc.EnqTail? && pc'.EnqCas? {
      assert ReadsTail(s, h, b, t, pc'.head, pc'.tail, |acts|);
    } else if pc.EnqCopy? && pc'.EnqCopy? && pc.ret.Pending? && !pc'.ret.Pending? {
      assert ReadsMark(s, h, b, t, pc'.head, pc'.n, q.watermark, |acts|);
    }
  }

  /** What a step leaves in the local variables of an enqueue. */
  lemma EnqueueReads(q: Ring, a: Action)
    requires Enabled(q, a) && q.size > 0 && |q.slots| == q.size
    ensures var q' := Next(Unbounded, q, a).0; var pc := q.pcs[a.t];
      a.t in q'.pcs &&
      var pc' := q'.pcs[a.t];
      && (pc'.EnqCas? || (pc'.EnqCopy? && !pc.EnqCopy?) ==>
            && a.Step? && (pc.EnqTail? || pc.EnqCas?) && pc'.head == pc.head
            && pc'.tail == (if pc.EnqTail? then q.consTail else pc.tail)
            && (pc.EnqTail? ==> pc'.EnqCas?) && (pc'.EnqCopy? ==> pc'.ret.Pending?))
      && (pc'.EnqCopy? && pc.EnqCopy? ==>
            && a.Step? && pc'.head == pc.head && pc'.tail == pc.tail && pc'.n == pc.n && pc'.free == pc.free
            && (pc'.ret == pc.ret || (pc.ret.Pending? && Judged(q.size, pc', q.watermark))))
  {
    var pc := q.pcs[a.t];
    if pc.EnqTail? || pc.EnqCas? || pc.EnqCopy? {
      hide ReadProdTail, CasConsHead, CopyOut;
    } else {
      hide ReadConsTail, CasProdHead, CopyIn;
    }
  }

  lemma {:induction false} AllSourced(s: Ring, h: History, acts: seq<Action>)
    requires Inv(s, h) && forall t :: t in s.pcs ==> s.pcs[t].Idle?
    ensures var q := Run(Unbounded, s, h, acts).0;
      forall t :: t in q.pcs ==> Sourced(s, h, acts, s.size, t, q.pcs[t])
    decreases |acts|
  {
    if acts != [] {
      var k := |acts| - 1;
      var b, a := acts[..k], acts[k];
      assert acts == b + [a];
      AllSourced(s, h, b);
      RunKeepsInv(s, h, b);
      RunSnoc(Unbounded, s, h, b, a);
      var (q, g) := Run(Unbounded, s, h, b);
      hide Run, Inv, Sourced;
      RingIsShaped(q, g);
      OneMoreSourced(s, h, b, a, q, g);
    }
  }

  lemma OneMoreSourced(s: Ring, h: History, b: seq<Action>, a: Action, q: Ring, g: History)
    requires (q, g) == Run(Unbounded, s, h, b) && q.size == s.size > 0 && |q.slots| == q.size
    requires forall t :: t in q.pcs ==> Sourced(s, h, b, s.size, t, q.pcs[t])
    ensures var q' := Do(Unbounded, q, g, a).0;
      forall t :: t in q'.pcs ==> Sourced(s, h, b + [a], s.size, t, q'.pcs[t])
  {
    hide Run, Sourced, Next;
    var q' := Do(Unbounded, q, g, a).0;
    if Enabled(q, a) {
      NextMoves(Unbounded, q, a);
      SourcedStep(s, h, b, a, s.size, q);
    }
    forall t | t in q'.pcs && (!Enabled(q, a) || t != a.t)
      ensures Sourced(s, h, b + [a], s.size, t, q'.pcs[t])
    {
      SourcedStays(s, h, b, a, s.size, t, q.pcs[t]);
    }
  }

  lemma RingIsShaped(s: Ring, h: History)
    requires Inv(s, h)
    ensures s.size > 0 && |s.slots| == s.size
  {
  }

  /** What the report about the watermark means, in every run: the j-th action was the read of
      the consumer's tail and the i-th that of the watermark, and the quota is reported
      exactly if the claim reaches the watermark, counted from that tail. A call that does not
      report it leaves less than the watermark between the present tail and its claim's end. */
  lemma QuotaIsReached(size: nat, slots: seq<Ptr>, threads: set<Tid>, acts: seq<Action>, t: Tid)
    returns (j: nat, i: nat)
    requires size > 0 && |slots| == size
    requires var s := Run(Unbounded, Init(size, slots, threads), NoHistory, acts).0;
      && t in s.pcs && s.size > 0 && |s.slots| == s.size && s.pcs[t].EnqCopy?
      && Next(Unbounded, s, Step(t)).1.Enqueued?
    ensures j < |acts| && i < |acts|
    ensures var s0 := Init(size, slots, threads); var s := Run(Unbounded, s0, NoHistory, acts).0;
      var pc, r := s.pcs[t], Next(Unbounded, s, Step(t)).1;
      var tail, mark := StateAt(s0, NoHistory, acts, j).consTail, StateAt(s0, NoHistory, acts, i).watermark;
      && r.count == pc.n
      && ReadsTail(s0, NoHistory, acts, t, pc.head, tail, j)
      && ReadsMark(s0, NoHistory, acts, t, pc.head, pc.n, mark, i)
      && (r.quota <==> pc.head + r.count - tail >= mark)
      && (!r.quota ==> pc.head + r.count - s.consTail < mark)
  {
    var s0 := Init(size, slots, threads);
    hide Run, Inv, StateAt, Next, ReadsTail, ReadsMark, Init;
    StartIsInv(size, slots, threads);
    AllSourced(s0, NoHistory, acts);
    RunKeepsInv(s0, NoHistory, acts);
    var (s, h) := Run(Unbounded, s0, NoHistory, acts);
    var pc := s.pcs[t];
    ReturnMeans(s, h, t);
    assert Sourced(s0, NoHistory, acts, size, t, pc);
    j :| ReadsTail(s0, NoHistory, acts, t, pc.head, pc.tail, j);
    var mark: nat;
    i, mark :| ReadsMark(s0, NoHistory, acts, t, pc.head, pc.n, mark, i) && Judged(size, pc, mark);
    ReadsTell(s0, NoHistory, acts, t, pc.head, pc.tail, pc.n, mark, j, i);
  }

  lemma StartIsInv(size: nat, slots: seq<Ptr>, threads: set<Tid>)
    requires size > 0 && |slots| == size
    ensures var s0 := Init(size, slots, threads);
      Inv(s0, NoHistory) && s0.size == size && forall t :: t in s0.pcs ==> s0.pcs[t].Idle?
  {
    InitInv(size, slots, threads);
  }

  lemma ReadsTell(s: Ring, h: History, acts: seq<Action>, t: Tid, head: int, tail: int, n: int, mark: nat,
                  j: nat, i: nat)
    requires ReadsTail(s, h, acts, t, head, tail, j) && ReadsMark(s, h, acts, t, head, n, mark, i)
    ensures j < |acts| && i < |acts|
    ensures StateAt(s, h, acts, j).consTail == tail && StateAt(s, h, acts, i).watermark == mark
  {
  }

  /** What a returning enqueue knows. */
  lemma ReturnMeans(s: Ring, h: History, t: Tid)
    requires Inv(s, h) && t in s.pcs && s.pcs[t].EnqCopy? && Next(Unbounded, s, Step(t)).1.Enqueued?
    ensures var pc := s.pcs[t];
      && Next(Unbounded, s, Step(t)).1 == pc.ret && !pc.ret.Pending? && pc.ret.count == pc.n
      && s.size - pc.free == 1 + pc.head - pc.tail && pc.tail <= s.consTail
  {
    hide Tiles, ClaimsMatch, Holds;
    assert Local(s, h, s.pcs[t]);
    hide Locals;
  }

  // ------------------------------------------------------------ 32-bit indices suffice

  function WrapPC(pc: PC): PC {
    match pc
    case EnqTail(objs, beh, head) => EnqTail(objs, beh, U32(head))
    case EnqCas(objs, beh, head, tail, free, n) => EnqCas(objs, beh, U32(head), U32(tail), free, n)
    case EnqCopy(objs, beh, head, tail, free, n, done, ret) =>
      EnqCopy(objs, beh, U32(head), U32(tail), free, n, done, ret)
    case DeqTail(want, beh, head) => DeqTail(want, beh, U32(head))
    case DeqCas(want, beh, head, n) => DeqCas(want, beh, U32(head), n)
    case DeqCopy(want, beh, head, n, got) => DeqCopy(want, beh, U32(head), n, got)
    case _ => pc
  }

  /** The 32-bit ring that stands for an ideal one: every index modulo 2^32. */
  function WrapRing(s: Ring): Ring {
    Ring(s.size, s.watermark, U32(s.prodHead), U32(s.prodTail), U32(s.consHead), U32(s.consTail),
         s.slots, map t | t in s.pcs :: WrapPC(s.pcs[t]))
  }

  /** The assumption on scheduling: between reading a head and using it, the indices do not
      run through a whole cycle of 2^32. */
  predicate Fresh(s: Ring, a: Action) {
    a.Step? && a.t in s.pcs ==>
      match s.pcs[a.t]
      case EnqTail(_, _, head) => s.Mask() + s.consTail - head < M32
      case EnqCas(_, _, head, _, _, _) => s.prodHead - head < M32
      case DeqTail(_, _, head) => s.prodTail - head < M32
      case DeqCas(_, _, head, _) => s.consHead - head < M32
      case _ => true
  }

  ghost predicate Divides32(size: nat) {
    size > 0 && exists factor: nat :: factor > 0 && size * factor == M32
  }

  lemma Pow2Big(k: nat)
    requires k > 32
    ensures Pow(2, k) > M32
  {
    Pow2Values();
    PowAdd(2, 32, k - 32);
    Pow2Grows(k - 32);
    assert Pow(2, k) == M32 * (Pow(2, k - 32) - 1) + M32;
    MulAtLeast(M32, Pow(2, k - 32) - 1);
  }

  lemma PowersDivide32(size: nat)
    requires IsPow2(size) && size <= M32
    ensures Divides32(size)
  {
    var k: nat :| k <= size && size == Pow(2, k);
    Pow2Values();
    if k > 32 {
      Pow2Big(k);
    } else {
      PowAdd(2, k, 32 - k);
    }
  }

  lemma SlotWraps(s: Ring, head: int, k: int)
    requires Divides32(s.size)
    ensures Slot(s, U32(head) + k) == Slot(s, head + k)
  {
    var factor: nat :| factor > 0 && s.size * factor == M32;
    var q, c := head / M32, (head + k) / s.size;
    assert U32(head) + k == s.size * (c - factor * q) + (head + k) % s.size by {
      assert s.size * (c - factor * q) == s.size * c - (s.size * factor) * q;
    }
    ModUnique(U32(head) + k, s.size, c - factor * q, (head + k) % s.size);
  }

  lemma WrapSub(a: int, b: int, c: int)
    requires 0 <= a + b - c < M32
    ensures U32(a + U32(b) - U32(c)) == a + b - c
  {
  }

  lemma WrapAdd(x: int, n: int)
    ensures U32(U32(x) + n) == U32(x + n)
  {
  }

  lemma WrapEq(x: int, y: int)
    requires 0 <= x - y < M32
    ensures U32(x) == U32(y) <==> x == y
  {
  }

  /** A thread at point `pc` does the same in the wrapped ring as in the ideal one. */
  ghost predicate Agree(wrapped: (Ring, Ret), ideal: (Ring, Ret)) {
    wrapped == (WrapRing(ideal.0), ideal.1)
  }

  /** Moving one thread commutes with wrapping. */
  lemma WrapAt(s: Ring, t: Tid, pc: PC)
    requires t in s.pcs
    ensures WrapRing(s).At(t, WrapPC(pc)) == WrapRing(s.At(t, pc))
  {
    assert WrapRing(s).At(t, WrapPC(pc)).pcs == WrapRing(s.At(t, pc)).pcs;
  }

  lemma ReadConsTailWraps(s: Ring, t: Tid, pc: PC)
    requires t in s.pcs && pc.EnqTail? && 0 <= s.Mask() + s.consTail - pc.head < M32
    ensures Agree(ReadConsTail(Bits32, WrapRing(s), t, WrapPC(pc)), ReadConsTail(Unbounded, s, t, pc))
  {
    WrapSub(s.Mask(), s.consTail, pc.head);
    WrapAt(s, t, ReadConsTail(Unbounded, s, t, pc).0.pcs[t]);
  }

  lemma CasProdHeadWraps(s: Ring, t: Tid, pc: PC)
    requires t in s.pcs && pc.EnqCas? && 0 <= s.prodHead - pc.head < M32
    ensures Agree(CasProdHead(Bits32, WrapRing(s), t, WrapPC(pc)), CasProdHead(Unbounded, s, t, pc))
  {
    WrapEq(s.prodHead, pc.head);
    WrapAdd(pc.head, pc.n);
    var s' := CasProdHead(Unbounded, s, t, pc).0;
    WrapAt(s.(prodHead := s'.prodHead), t, s'.pcs[t]);
  }

  lemma CopyInWraps(s: Ring, t: Tid, pc: PC)
    requires t in s.pcs && pc.EnqCopy? && s.size > 0 && |s.slots| == s.size
    requires Divides32(s.size) && 0 <= pc.head - s.prodTail < M32
    requires pc == s.pcs[t]
    ensures Agree(CopyIn(Bits32, WrapRing(s), t, WrapPC(pc)), CopyIn(Unbounded, s, t, pc))
  {
    SlotWraps(s, pc.head, pc.done);
    WrapEq(pc.head, s.prodTail);
    WrapAdd(pc.head, pc.n);
    var s' := CopyIn(Unbounded, s, t, pc).0;
    WrapAt(s.(prodTail := s'.prodTail, slots := s'.slots), t, s'.pcs[t]);
  }

  lemma ReadProdTailWraps(s: Ring, t: Tid, pc: PC)
    requires t in s.pcs && pc.DeqTail? && 0 <= s.prodTail - pc.head < M32
    ensures Agree(ReadProdTail(Bits32, WrapRing(s), t, WrapPC(pc)), ReadProdTail(Unbounded, s, t, pc))
  {
    WrapSub(0, s.prodTail, pc.head);
    WrapAt(s, t, ReadProdTail(Unbounded, s, t, pc).0.pcs[t]);
  }

  lemma CasConsHeadWraps(s: Ring, t: Tid, pc: PC)
    requires t in s.pcs && pc.DeqCas? && 0 <= s.consHead - pc.head < M32
    ensures Agree(CasConsHead(Bits32, WrapRing(s), t, WrapPC(pc)), CasConsHead(Unbounded, s, t, pc))
  {
    WrapEq(s.consHead, pc.head);
    WrapAdd(pc.head, pc.n);
    var s' := CasConsHead(Unbounded, s, t, pc).0;
    WrapAt(s.(consHead := s'.consHead), t, s'.pcs[t]);
  }

  lemma CopyOutWraps(s: Ring, t: Tid, pc: PC)
    requires t in s.pcs && pc.DeqCopy? && s.size > 0 && |s.slots| == s.size
    requires Divides32(s.size) && 0 <= pc.head - s.consTail < M32
    requires pc == s.pcs[t]
    ensures Agree(CopyOut(Bits32, WrapRing(s), t, WrapPC(pc)), CopyOut(Unbounded, s, t, pc))
  {
    SlotWraps(s, pc.head, |pc.got|);
    WrapEq(pc.head, s.consTail);
    WrapAdd(pc.head, pc.n);
    var s' := CopyOut(Unbounded, s, t, pc).0;
    WrapAt(s.(consTail := s'.consTail), t, s'.pcs[t]);
  }

  lemma SizeBelow32(size: nat)
    requires Divides32(size)
    ensures 0 < size <= M32
  {
    var factor: nat :| factor > 0 && size * factor == M32;
    MulAtLeast(size, factor);
  }

  /** How far apart the indices compared or subtracted by a thread can be. */
  lemma StaysInRange(s: Ring, h: History, t: Tid)
    requires Inv(s, h) && t in s.pcs
    ensures match s.pcs[t]
      case EnqTail(_, _, head) => head <= s.Mask() + s.consTail
      case EnqCas(_, _, head, _, _, _) => head <= s.prodHead
      case EnqCopy(_, _, head, _, _, _, _, _) => s.prodTail <= head < s.prodTail + s.size
      case DeqTail(_, _, head) => head <= s.prodTail
      case DeqCas(_, _, head, _) => head <= s.consHead
      case DeqCopy(_, _, head, _, _) => s.consTail <= head < s.consTail + s.size
      case _ => true
  {
    assert Local(s, h, s.pcs[t]);
  }

  /** One action of the 32-bit code is one action of the ideal protocol, as long as the
      acting thread is fresh: same successor, same return value. */
  lemma WrapCommutes(s: Ring, h: History, a: Action)
    requires Inv(s, h) && Enabled(s, a) && Fresh(s, a) && Divides32(s.size)
    ensures Enabled(WrapRing(s), a)
    ensures Agree(Next(Bits32, WrapRing(s), a), Next(Unbounded, s, a))
  {
    var t := a.t;
    StaysInRange(s, h, t);
    SizeBelow32(s.size);
    hide Tiles, ClaimsMatch, Locals, Divides32, Agree;
    hide ReadConsTail, CasProdHead, CopyIn, ReadProdTail, CasConsHead, CopyOut;
    if a.Step? && s.pcs[t].EnqTail? {
      ReadConsTailWraps(s, t, s.pcs[t]);
    } else if a.Step? && s.pcs[t].EnqCas? {
      CasProdHeadWraps(s, t, s.pcs[t]);
    } else if a.Step? && s.pcs[t].EnqCopy? {
      CopyInWraps(s, t, s.pcs[t]);
    } else if a.Step? && s.pcs[t].DeqTail? {
      ReadProdTailWraps(s, t, s.pcs[t]);
    } else if a.Step? && s.pcs[t].DeqCas? {
      CasConsHeadWraps(s, t, s.pcs[t]);
    } else if a.Step? && s.pcs[t].DeqCopy? {
      CopyOutWraps(s, t, s.pcs[t]);
    } else {
      WrapStart(s, a);
    }
  }

  /** Starting a call, and reading a head, involve no index arithmetic. */
  lemma WrapStart(s: Ring, a: Action)
    requires Enabled(s, a) && s.size > 0 && |s.slots| == s.size
    requires a.Step? ==> var pc := s.pcs[a.t]; pc.Idle? || pc.EnqHead? || pc.DeqHead?
    ensures Enabled(WrapRing(s), a)
    ensures Agree(Next(Bits32, WrapRing(s), a), Next(Unbounded, s, a))
  {
    if !(a.Step? && s.pcs[a.t].Idle?) {
      WrapAt(s, a.t, Next(Unbounded, s, a).0.pcs[a.t]);
    }
  }

  function WrapClaims(cs: seq<Claim>): seq<Claim> {
    seq(|cs|, i requires 0 <= i < |cs| => Claim(cs[i].t, U32(cs[i].head), cs[i].n))
  }

  function WrapHistory(h: History): History {
    History(h.log, h.out, WrapClaims(h.prods), WrapClaims(h.conss))
  }

  lemma WrapRecord(s: Ring, h: History, a: Action, s': Ring, r: Ret)
    ensures Record(WrapRing(s), WrapHistory(h), a, WrapRing(s'), r) == WrapHistory(Record(s, h, a, s', r))
  {
    if a.Step? && a.t in s.pcs && a.t in s'.pcs {
      var pc, pc' := s.pcs[a.t], s'.pcs[a.t];
      assert WrapRing(s).pcs[a.t] == WrapPC(pc) && WrapRing(s').pcs[a.t] == WrapPC(pc');
      WrapPCKeeps(pc);
      WrapPCKeeps(pc');
      hide WrapRing, WrapPC, WrapClaims;
      ClaimsWrapped(h.prods, Claim(a.t, if pc.EnqCas? then pc.head else 0, if pc.EnqCas? then pc.n else 0));
      ClaimsWrapped(h.conss, Claim(a.t, if pc.DeqCas? then pc.head else 0, if pc.DeqCas? then pc.n else 0));
    }
  }

  lemma WrapPCKeeps(pc: PC)
    ensures var pc1 := WrapPC(pc);
      && (pc1.EnqCas? <==> pc.EnqCas?) && (pc1.EnqCopy? <==> pc.EnqCopy?)
      && (pc1.DeqCas? <==> pc.DeqCas?) && (pc1.DeqCopy? <==> pc.DeqCopy?)
      && (pc.EnqCas? ==> pc1.objs == pc.objs && pc1.n == pc.n && pc1.head == U32(pc.head))
      && (pc.DeqCas? ==> pc1.n == pc.n && pc1.head == U32(pc.head))
  {
  }

  lemma ClaimsWrapped(cs: seq<Claim>, c: Claim)
    ensures WrapClaims(cs + [c]) == WrapClaims(cs) + [Claim(c.t, U32(c.head), c.n)]
    ensures |WrapClaims(cs)| == |cs| && (cs != [] ==> WrapClaims(cs[1..]) == WrapClaims(cs)[1..])
  {
  }

  /** Is every action of the run taken by a fresh thread? */
  ghost predicate FreshRun(s: Ring, h: History, acts: seq<Action>)
    decreases |acts|
  {
    acts != [] ==>
      && Fresh(s, acts[0])
      && var (s', h') := Do(Unbounded, s, h, acts[0]);
         FreshRun(s', h', acts[1..])
  }

  /** Refinement: in every run in which no thread sleeps through a 2^32 cycle, the 32-bit
      code goes through exactly the wrapped states of the ideal protocol, and its history
      of objects in and out is the same. */
  lemma {:induction false} CodeRefinesProtocol(s: Ring, h: History, acts: seq<Action>)
    requires Inv(s, h) && Divides32(s.size) && FreshRun(s, h, acts)
    ensures var (s', h') := Run(Unbounded, s, h, acts);
      Run(Bits32, WrapRing(s), WrapHistory(h), acts) == (WrapRing(s'), WrapHistory(h'))
    decreases |acts|
  {
    if acts != [] {
      DoWraps(s, h, acts[0]);
      DoKeepsInv(s, h, acts[0]);
      hide Inv, Do, WrapRing, WrapHistory, Divides32, Fresh;
      var (s', h') := Do(Unbounded, s, h, acts[0]);
      CodeRefinesProtocol(s', h', acts[1..]);
    }
  }

  lemma DoWraps(s: Ring, h: History, a: Action)
    requires Inv(s, h) && Divides32(s.size) && Fresh(s, a)
    ensures var (s', h') := Do(Unbounded, s, h, a);
      Do(Bits32, WrapRing(s), WrapHistory(h), a) == (WrapRing(s'), WrapHistory(h'))
  {
    hide Tiles, ClaimsMatch, Locals, Holds, Divides32, Fresh, Next, Record, WrapHistory;
    assert Enabled(WrapRing(s), a) ==> Enabled(s, a);
    if Enabled(s, a) {
      WrapCommutes(s, h, a);
      WrapRecord(s, h, a, Next(Unbounded, s, a).0, Next(Unbounded, s, a).1);
    }
  }

  /** The next call of the code returns what the ideal protocol returns. */
  lemma CodeReturns(size: nat, slots: seq<Ptr>, threads: set<Tid>, acts: seq<Action>, a: Action)
    requires IsPow2(size) && 0 < size <= M32 && |slots| == size
    requires FreshRun(Init(size, slots, threads), NoHistory, acts)
    requires var s := Run(Unbounded, Init(size, slots, threads), NoHistory, acts).0; Enabled(s, a) && Fresh(s, a)
    ensures var s0 := Init(size, slots, threads);
      var s, c := Run(Unbounded, s0, NoHistory, acts).0, Run(Bits32, s0, NoHistory, acts).0;
      && s.size > 0 && |s.slots| == s.size && Enabled(c, a) && c.size > 0 && |c.slots| == c.size
      && Next(Bits32, c, a).1 == Next(Unbounded, s, a).1
  {
    var s0 := Init(size, slots, threads);
    hide Run, Next, Inv, FreshRun, Fresh, Divides32, Init, WrapRing, WrapHistory;
    PowersDivide32(size);
    StartIsInv(size, slots, threads);
    CodeRefinesProtocol(s0, NoHistory, acts);
    RunKeepsInv(s0, NoHistory, acts);
    WrapInit(size, slots, threads);
    var (s, h) := Run(Unbounded, s0, NoHistory, acts);
    RingIsShaped(s, h);
    WrapCommutes(s, h, a);
    WrapShape(s);
  }

  lemma WrapInit(size: nat, slots: seq<Ptr>, threads: set<Tid>)
    ensures WrapRing(Init(size, slots, threads)) == Init(size, slots, threads) && WrapHistory(NoHistory) == NoHistory
  {
    var s0 := Init(size, slots, threads);
    assert WrapRing(s0).pcs == s0.pcs;
  }

  lemma WrapShape(s: Ring)
    ensures WrapRing(s).size == s.size && WrapRing(s).slots == s.slots
  {
  }

  /** Together: whatever 32-bit code starts on a fresh power-of-two ring, every dequeue
      hands objects out in the order in which enqueues claimed them. */
  lemma CodeIsFifo(size: nat, slots: seq<Ptr>, threads: set<Tid>, acts: seq<Action>)
    requires IsPow2(size) && 0 < size <= M32 && |slots| == size
    requires FreshRun(Init(size, slots, threads), NoHistory, acts)
    ensures var (s, h) := Run(Bits32, Init(size, slots, threads), NoHistory, acts);
      h.out <= h.log && |h.log| - |h.out| <= size - 1
  {
    var s0 := Init(size, slots, threads);
    PowersDivide32(size);
    InitInv(size, slots, threads);
    CodeRefinesProtocol(s0, NoHistory, acts);
    WrapInit(size, slots, threads);
    ReachableStates(size, slots, threads, acts);
  }
}
