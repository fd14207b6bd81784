/** Calls of the ring come to an end: what a call does that nobody interferes with, and that
    from every reachable state all calls under way can be brought to their return. */
module RingProgress {
  import opened Bits
  import opened RingProtocol
  import opened RingTheorems
  import opened RingCalls

  /** m steps of thread t and of nobody else. */
  function Steps(t: Tid, m: nat): seq<Action> {
    if m == 0 then [] else [Step(t)] + Steps(t, m - 1)
  }

  /** Thread t on its own takes m steps, and then one more with which it returns r and leaves
      the ring as s'. */
  ghost predicate Ends(s: Ring, h: History, t: Tid, m: nat, r: Ret, s': Ring) {
    var q := Run(Unbounded, s, h, Steps(t, m)).0;
    t in q.pcs && q.size > 0 && |q.slots| == q.size && Next(Unbounded, q, Step(t)) == (s', r) && !r.Pending?
  }

  /** The step that t takes next. */
  lemma StepOf(s: Ring, h: History, t: Tid)
    requires Inv(s, h) && t in s.pcs
    ensures s.size > 0 && |s.slots| == s.size
    ensures var (q, g) := Do(Unbounded, s, h, Step(t)); Inv(q, g) && q == Next(Unbounded, s, Step(t)).0
  {
    hide Inv, Next, Record;
    DoKeepsInv(s, h, Step(t));
    RingIsShaped(s, h);
  }

  lemma EndsNow(s: Ring, h: History, t: Tid, r: Ret, s': Ring)
    requires t in s.pcs && s.size > 0 && |s.slots| == s.size && Next(Unbounded, s, Step(t)) == (s', r) && !r.Pending?
    ensures Ends(s, h, t, 0, r, s')
  {
    hide Next;
  }

  lemma EndsLater(s: Ring, h: History, t: Tid, m: nat, r: Ret, s': Ring)
    requires var (q, g) := Do(Unbounded, s, h, Step(t)); Ends(q, g, t, m, r, s')
    ensures Ends(s, h, t, m + 1, r, s')
  {
    assert Steps(t, m + 1)[0] == Step(t) && Steps(t, m + 1)[1..] == Steps(t, m);
    hide Next, Do, Steps;
  }

  // ------------------------------------------------------- enqueues

  /** The owner of the oldest claim copies what is left, reads the watermark and publishes. */
  lemma {:induction false} CopyInEnds(s: Ring, h: History, t: Tid) returns (m: nat, r: Ret, s': Ring)
    requires Inv(s, h) && t in s.pcs && s.pcs[t].EnqCopy? && s.prodTail == s.pcs[t].head
    ensures var pc := s.pcs[t];
      && Ends(s, h, t, m, r, s')
      && 0 <= pc.n - pc.done && m == pc.n - pc.done + (if pc.ret.Pending? then 1 else 0)
      && r == (if pc.ret.Pending? then Enqueued(pc.n, s.size - pc.free + pc.n > s.watermark) else pc.ret)
      && s' == s.(prodTail := pc.head + pc.n, slots := s'.slots).At(t, Idle) && |s'.slots| == |s.slots|
    decreases s.pcs[t].n - s.pcs[t].done, s.pcs[t].ret.Pending?
  {
    hide Inv, Run, Do, Next, Ends;
    var pc := s.pcs[t];
    CopyInBounds(s, h, t);
    StepOf(s, h, t);
    CopyInStep(s, t);
    var (q, g) := Do(Unbounded, s, h, Step(t));
    if pc.done < pc.n || pc.ret.Pending? {
      m, r, s' := CopyInEnds(q, g, t);
      EndsLater(s, h, t, m, r, s');
      m := m + 1;
      MovedTwice(s.pcs, t, q.pcs[t], Idle);
    } else {
      m, r, s' := 0, pc.ret, Next(Unbounded, s, Step(t)).0;
      EndsNow(s, h, t, r, s');
    }
  }

  lemma CopyInBounds(s: Ring, h: History, t: Tid)
    requires Inv(s, h) && t in s.pcs && s.pcs[t].EnqCopy?
    ensures var pc := s.pcs[t];
      && pc.done <= pc.n <= |pc.objs| && 1 <= pc.n && s.size > 0 && |s.slots| == s.size
      && (pc.ret.Pending? || (pc.done == pc.n && pc.ret.Enqueued? && pc.ret.count == pc.n))
  {
    hide Tiles, ClaimsMatch, Holds;
    assert Local(s, h, s.pcs[t]);
    hide Locals;
  }

  lemma MovedTwice(pcs: map<Tid, PC>, t: Tid, x: PC, y: PC)
    ensures pcs[t := x][t := y] == pcs[t := y]
  {
  }

  lemma CopyInStep(s: Ring, t: Tid)
    requires s.size > 0 && |s.slots| == s.size && t in s.pcs && s.pcs[t].EnqCopy? && s.prodTail == s.pcs[t].head
    ensures var (q, r) := Next(Unbounded, s, Step(t)); var pc := s.pcs[t];
      if pc.done < pc.n then q == s.(slots := q.slots).At(t, pc.(done := pc.done + 1)) && |q.slots| == |s.slots|
      else if pc.ret.Pending? then
        q == s.At(t, pc.(ret := Enqueued(pc.done, s.size - pc.free + pc.n > s.watermark)))
      else (q, r) == (s.(prodTail := pc.head + pc.n).At(t, Idle), pc.ret)
  {
    hide ReadConsTail, CasProdHead, ReadProdTail, CasConsHead, CopyOut;
  }

  /** An enqueue of t has put in k objects and returned. */
  ghost predicate Adds(s: Ring, s': Ring, t: Tid, k: int) {
    && s'.size == s.size && s'.watermark == s.watermark && |s'.slots| == |s.slots|
    && s'.consHead == s.consHead && s'.consTail == s.consTail
    && s'.prodHead == s'.prodTail == s.prodHead + k && s'.pcs == s.pcs[t := Idle]
  }

  /** A dequeue of t has taken out k objects and returned. */
  ghost predicate Removes(s: Ring, s': Ring, t: Tid, k: int) {
    && s'.size == s.size && s'.watermark == s.watermark && s'.slots == s.slots
    && s'.prodHead == s.prodHead && s'.prodTail == s.prodTail
    && s'.consHead == s'.consTail == s.consHead + k && s'.pcs == s.pcs[t := Idle]
  }

  /** It does not matter where in its call t has been. */
  lemma MovedBefore(s: Ring, t: Tid, x: PC, s': Ring)
    ensures forall k :: Adds(s.At(t, x), s', t, k) ==> Adds(s, s', t, k)
    ensures forall k :: Removes(s.At(t, x), s', t, k) ==> Removes(s, s', t, k)
    ensures s.At(t, x).At(t, Idle) == s.At(t, Idle)
  {
    MovedTwice(s.pcs, t, x, Idle);
  }

  /** The steps of an enqueue up to its claim. */
  lemma PrepareStep(s: Ring, t: Tid)
    requires s.size > 0 && |s.slots| == s.size && t in s.pcs
    ensures var (q, r) := Next(Unbounded, s, Step(t)); var pc := s.pcs[t];
      && (pc.EnqHead? ==> q == s.At(t, EnqTail(pc.objs, pc.beh, s.prodHead)))
      && (pc.EnqTail? ==>
            var room := s.size - 1 - (pc.head - s.consTail);
            if |pc.objs| > room && (pc.beh.Fixed? || room == 0) then (q, r) == (s.At(t, Idle), NoBufs)
            else q == s.At(t, EnqCas(pc.objs, pc.beh, pc.head, s.consTail, room, Part(|pc.objs|, room))))
      && (pc.EnqCas? ==>
            q == if s.prodHead == pc.head then s.(prodHead := pc.head + pc.n).At(t, Claimed(pc))
                 else s.At(t, EnqHead(pc.objs, pc.beh)))
  {
    hide CopyIn, ReadProdTail, CasConsHead, CopyOut;
  }

  /** The rest of an enqueue behind its reads, when the head it has read is still there and is
      the tail. */
  lemma ClaimEnds(s: Ring, h: History, t: Tid) returns (m: nat, r: Ret, s': Ring)
    requires Inv(s, h) && t in s.pcs && s.pcs[t].EnqCas? && s.prodTail == s.prodHead == s.pcs[t].head
    ensures var pc := s.pcs[t];
      && Ends(s, h, t, m, r, s') && m == pc.n + 2
      && 0 <= pc.n && r == Enqueued(pc.n, s.size - pc.free + pc.n > s.watermark)
      && Adds(s, s', t, pc.n)
  {
    hide Inv, Run, Do, Next, Ends, Adds;
    var pc := s.pcs[t];
    StepOf(s, h, t);
    ClaimStep(s, t);
    var (q, g) := Do(Unbounded, s, h, Step(t));
    m, r, s' := CopyInEnds(q, g, t);
    EndsLater(s, h, t, m, r, s');
    m := m + 1;
    ClaimAdds(s, t, pc.n, q, s');
  }

  lemma ClaimStep(s: Ring, t: Tid)
    requires s.size > 0 && |s.slots| == s.size && t in s.pcs && s.pcs[t].EnqCas? && s.prodHead == s.pcs[t].head
    ensures var (q, r) := Next(Unbounded, s, Step(t)); var pc := s.pcs[t];
      && t in q.pcs && q == s.(prodHead := s.prodHead + pc.n).At(t, q.pcs[t])
      && q.pcs[t] == EnqCopy(pc.objs, pc.beh, pc.head, pc.tail, pc.free, pc.n, 0, Pending)
      && q.size == s.size && q.watermark == s.watermark && q.prodTail == s.prodTail && q.slots == s.slots
  {
    hide ReadConsTail, CopyIn, ReadProdTail, CasConsHead, CopyOut;
  }

  lemma ClaimAdds(s: Ring, t: Tid, n: int, q: Ring, s': Ring)
    requires t in q.pcs && q == s.(prodHead := s.prodHead + n).At(t, q.pcs[t])
    requires s' == q.(prodTail := s.prodHead + n, slots := s'.slots).At(t, Idle) && |s'.slots| == |s.slots|
    ensures Adds(s, s', t, n)
  {
    MovedTwice(s.pcs, t, q.pcs[t], Idle);
  }

  /** An enqueue that has read the head; no other claim is in flight. */
  lemma ReadEnds(s: Ring, h: History, t: Tid) returns (m: nat, r: Ret, s': Ring)
    requires Inv(s, h) && t in s.pcs && s.pcs[t].EnqTail? && s.prodTail == s.prodHead == s.pcs[t].head
    ensures var pc := s.pcs[t]; var room := s.size - 1 - (s.prodHead - s.consTail);
      && Ends(s, h, t, m, r, s')
      && if |pc.objs| > room && (pc.beh.Fixed? || room == 0) then m == 0 && r == NoBufs && s' == s.At(t, Idle)
         else
           var k := Part(|pc.objs|, room);
           && m == k + 3 && 0 <= k && r == Enqueued(k, s.prodHead - s.consTail + k >= s.watermark)
           && Adds(s, s', t, k)
  {
    hide Inv, Run, Do, Next, Ends, Adds, Removes;
    var pc := s.pcs[t];
    StepOf(s, h, t);
    PrepareStep(s, t);
    var room := s.size - 1 - (s.prodHead - s.consTail);
    if |pc.objs| > room && (pc.beh.Fixed? || room == 0) {
      m, r, s' := 0, NoBufs, s.At(t, Idle);
      EndsNow(s, h, t, r, s');
    } else {
      var (q, g) := Do(Unbounded, s, h, Step(t));
      m, r, s' := ClaimEnds(q, g, t);
      EndsLater(s, h, t, m, r, s');
      m := m + 1;
      MovedBefore(s, t, q.pcs[t], s');
    }
  }

  /** An enqueue from its start, when no claim of an enqueue is in flight: it is refused exactly
      if none or, for a bulk call, not all of the objects fit; otherwise it puts in all, or as
      many as fit, and reports the watermark that the ring's contents have reached. */
  lemma EnqueueEnds(s: Ring, h: History, t: Tid) returns (m: nat, r: Ret, s': Ring)
    requires Inv(s, h) && t in s.pcs && s.pcs[t].EnqHead? && s.prodTail == s.prodHead
    ensures var pc := s.pcs[t]; var room := s.size - 1 - (s.prodHead - s.consTail);
      && Ends(s, h, t, m, r, s')
      && if |pc.objs| > room && (pc.beh.Fixed? || room == 0) then m == 1 && r == NoBufs && s' == s.At(t, Idle)
         else
           var k := Part(|pc.objs|, room);
           && m == k + 4 && 0 <= k && r == Enqueued(k, s.prodHead - s.consTail + k >= s.watermark)
           && Adds(s, s', t, k)
  {
    hide Inv, Run, Do, Next, Ends, Adds, Removes;
    StepOf(s, h, t);
    PrepareStep(s, t);
    var (q, g) := Do(Unbounded, s, h, Step(t));
    m, r, s' := ReadEnds(q, g, t);
    EndsLater(s, h, t, m, r, s');
    m := m + 1;
    MovedBefore(s, t, q.pcs[t], s');
  }

  // ------------------------------------------------------- dequeues

  lemma {:induction false} CopyOutEnds(s: Ring, h: History, t: Tid) returns (m: nat, r: Ret, s': Ring)
    requires Inv(s, h) && t in s.pcs && s.pcs[t].DeqCopy? && s.consTail == s.pcs[t].head
    ensures var pc := s.pcs[t];
      && Ends(s, h, t, m, r, s')
      && 0 <= pc.n - |pc.got| == m && r.Dequeued? && |r.objs| == pc.n && pc.got <= r.objs
      && s' == s.(consTail := pc.head + pc.n).At(t, Idle)
    decreases s.pcs[t].n - |s.pcs[t].got|
  {
    hide Inv, Run, Do, Next, Ends;
    var pc := s.pcs[t];
    CopyOutBounds(s, h, t);
    StepOf(s, h, t);
    CopyOutStep(s, t);
    var (q, g) := Do(Unbounded, s, h, Step(t));
    if |pc.got| < pc.n {
      m, r, s' := CopyOutEnds(q, g, t);
      EndsLater(s, h, t, m, r, s');
      m := m + 1;
      MovedTwice(s.pcs, t, q.pcs[t], Idle);
    } else {
      m, r, s' := 0, Dequeued(pc.got), Next(Unbounded, s, Step(t)).0;
      EndsNow(s, h, t, r, s');
    }
  }

  lemma CopyOutBounds(s: Ring, h: History, t: Tid)
    requires Inv(s, h) && t in s.pcs && s.pcs[t].DeqCopy?
    ensures var pc := s.pcs[t]; |pc.got| <= pc.n <= pc.want && 1 <= pc.n && s.size > 0 && |s.slots| == s.size
  {
    hide Tiles, ClaimsMatch, Holds;
    assert Local(s, h, s.pcs[t]);
    hide Locals;
  }

  lemma CopyOutStep(s: Ring, t: Tid)
    requires s.size > 0 && |s.slots| == s.size && t in s.pcs && s.pcs[t].DeqCopy? && s.consTail == s.pcs[t].head
    ensures var (q, r) := Next(Unbounded, s, Step(t)); var pc := s.pcs[t];
      if |pc.got| < pc.n then q == s.At(t, pc.(got := pc.got + [s.slots[Slot(s, pc.head + |pc.got|)]]))
      else (q, r) == (s.(consTail := pc.head + pc.n).At(t, Idle), Dequeued(pc.got))
  {
    hide ReadConsTail, CasProdHead, CopyIn, ReadProdTail, CasConsHead;
  }

  lemma PrepareOutStep(s: Ring, t: Tid)
    requires s.size > 0 && |s.slots| == s.size && t in s.pcs
    ensures var (q, r) := Next(Unbounded, s, Step(t)); var pc := s.pcs[t];
      && (pc.DeqHead? ==> q == s.At(t, DeqTail(pc.want, pc.beh, s.consHead)))
      && (pc.DeqTail? ==>
            var filled := s.prodTail - pc.head;
            if pc.want > filled && (pc.beh.Fixed? || filled == 0) then (q, r) == (s.At(t, Idle), NoEnt)
            else q == s.At(t, DeqCas(pc.want, pc.beh, pc.head, Part(pc.want, filled))))
      && (pc.DeqCas? ==>
            q == if s.consHead == pc.head then
                   s.(consHead := pc.head + pc.n).At(t, DeqCopy(pc.want, pc.beh, pc.head, pc.n, []))
                 else s.At(t, DeqHead(pc.want, pc.beh)))
  {
    hide CopyIn, ReadConsTail, CasProdHead, CopyOut;
  }

  lemma ClaimOutEnds(s: Ring, h: History, t: Tid) returns (m: nat, r: Ret, s': Ring)
    requires Inv(s, h) && t in s.pcs && s.pcs[t].DeqCas? && s.consTail == s.consHead == s.pcs[t].head
    ensures var pc := s.pcs[t];
      && Ends(s, h, t, m, r, s') && m == pc.n + 1
      && r.Dequeued? && |r.objs| == pc.n
      && Removes(s, s', t, pc.n)
  {
    hide Inv, Run, Do, Next, Ends;
    StepOf(s, h, t);
    PrepareOutStep(s, t);
    var (q, g) := Do(Unbounded, s, h, Step(t));
    m, r, s' := CopyOutEnds(q, g, t);
    EndsLater(s, h, t, m, r, s');
    m := m + 1;
    MovedTwice(s.pcs, t, q.pcs[t], Idle);
  }

  lemma ReadOutEnds(s: Ring, h: History, t: Tid) returns (m: nat, r: Ret, s': Ring)
    requires Inv(s, h) && t in s.pcs && s.pcs[t].DeqTail? && s.consTail == s.consHead == s.pcs[t].head
    ensures var pc := s.pcs[t]; var filled := s.prodTail - s.consHead;
      && Ends(s, h, t, m, r, s')
      && if pc.want > filled && (pc.beh.Fixed? || filled == 0) then m == 0 && r == NoEnt && s' == s.At(t, Idle)
         else
           var k := Part(pc.want, filled);
           && m == k + 2 && r.Dequeued? && |r.objs| == k
           && Removes(s, s', t, k)
  {
    hide Inv, Run, Do, Next, Ends, Adds, Removes;
    var pc := s.pcs[t];
    StepOf(s, h, t);
    PrepareOutStep(s, t);
    var filled := s.prodTail - s.consHead;
    if pc.want > filled && (pc.beh.Fixed? || filled == 0) {
      m, r, s' := 0, NoEnt, s.At(t, Idle);
      EndsNow(s, h, t, r, s');
    } else {
      var (q, g) := Do(Unbounded, s, h, Step(t));
      m, r, s' := ClaimOutEnds(q, g, t);
      EndsLater(s, h, t, m, r, s');
      m := m + 1;
      MovedBefore(s, t, q.pcs[t], s');
    }
  }

  /** A dequeue from its start, when no claim of a dequeue is in flight. */
  lemma DequeueEnds(s: Ring, h: History, t: Tid) returns (m: nat, r: Ret, s': Ring)
    requires Inv(s, h) && t in s.pcs && s.pcs[t].DeqHead? && s.consTail == s.consHead
    ensures var pc := s.pcs[t]; var filled := s.prodTail - s.consHead;
      && Ends(s, h, t, m, r, s')
      && if pc.want > filled && (pc.beh.Fixed? || filled == 0) then m == 1 && r == NoEnt && s' == s.At(t, Idle)
         else
           var k := Part(pc.want, filled);
           && m == k + 3 && r.Dequeued? && |r.objs| == k
           && Removes(s, s', t, k)
  {
    hide Inv, Run, Do, Next, Ends, Adds, Removes;
    StepOf(s, h, t);
    PrepareOutStep(s, t);
    var (q, g) := Do(Unbounded, s, h, Step(t));
    m, r, s' := ReadOutEnds(q, g, t);
    EndsLater(s, h, t, m, r, s');
    m := m + 1;
    MovedBefore(s, t, q.pcs[t], s');
  }

  // ------------------------------------------------------- calls that run alone

  lemma {:induction false} RunAppend(w: Width, s: Ring, h: History, a: seq<Action>, b: seq<Action>)
    ensures Run(w, s, h, a + b) == (var (q, g) := Run(w, s, h, a); Run(w, q, g, b))
    decreases |a|
  {
    if a == [] {
      assert a + b == b;
    } else {
      var (s', h') := Do(w, s, h, a[0]);
      assert (a + b)[1..] == a[1..] + b;
      hide Do;
      RunAppend(w, s', h', a[1..], b);
    }
  }

  lemma {:induction false} StepsSnoc(t: Tid, m: nat)
    ensures Steps(t, m + 1) == Steps(t, m) + [Step(t)] && |Steps(t, m)| == m
  {
    if m > 0 {
      StepsSnoc(t, m - 1);
    }
  }

  /** Longer runs add to what has been published and received. */
  lemma {:induction false} OnlyGrow(s: Ring, a: seq<Action>, b: seq<Action>)
    ensures Published(Unbounded, s, a) <= Published(Unbounded, s, a + b)
    ensures Received(Unbounded, s, a) <= Received(Unbounded, s, a + b)
    decreases |b|
  {
    if b == [] {
      assert a + b == a;
    } else {
      var k := |b| - 1;
      assert (a + b)[..|a + b| - 1] == a + b[..k];
      OnlyGrow(s, a, b[..k]);
      hide Answer, Current;
    }
  }

  /** While only t steps, it is in the call c or has returned from it. */
  lemma {:induction false} SameCall(s: Ring, acts: seq<Action>, t: Tid, m: nat)
    ensures var c := Current(Unbounded, s, acts + Steps(t, m), t); c.NoCall? || c == Current(Unbounded, s, acts, t)
  {
    hide *;
    if m == 0 {
      NoStep(acts, t);
    } else {
      SameCall(s, acts, t, m - 1);
      OneMoreStep(acts, t, m);
      CurrentSnoc(Unbounded, s, acts + Steps(t, m), t);
      NoNewCall(Current(Unbounded, s, acts + Steps(t, m - 1), t), t, |acts| + m - 1,
                Answer(Unbounded, s, acts + Steps(t, m - 1), Step(t)));
    }
  }

  lemma NoStep(acts: seq<Action>, t: Tid)
    ensures acts + Steps(t, 0) == acts
  {
  }

  lemma NoNewCall(c: Call, t: Tid, k: nat, r: Ret)
    ensures var c' := Advance(c, Step(t), k, r, t); c'.NoCall? || c' == c
  {
  }

  lemma OneMoreStep(acts: seq<Action>, t: Tid, m: nat)
    requires m > 0
    ensures var all := acts + Steps(t, m);
      |all| == |acts| + m && all[..|all| - 1] == acts + Steps(t, m - 1) && all[|all| - 1] == Step(t)
  {
    StepsSnoc(t, m - 1);
    hide Steps;
  }

  /** The state in which t begins its call. */
  lemma Begins(s: Ring, acts: seq<Action>, a: Action)
    requires New(s) && a.t in s.pcs && Current(Unbounded, s, acts, a.t).NoCall?
    requires (a.Enqueue? && 1 <= |a.objs| < M32) || (a.Dequeue? && 1 <= a.want < M32)
    ensures var q, t := After(Unbounded, s, acts), a.t; var (q1, g1) := Run(Unbounded, s, NoHistory, acts + [a]);
      && t in q.pcs && q.size == s.size && Inv(q1, g1)
      && q1 == q.At(t, if a.Enqueue? then EnqHead(a.objs, a.beh) else DeqHead(a.want, a.beh))
      && Current(Unbounded, s, acts + [a], t)
         == if a.Enqueue? then EnqCall(|acts|, a.objs, a.beh) else DeqCall(|acts|, a.want, a.beh)
  {
    NewIsIdle(s, a.t);
    hide Run, New, Inv, Current, Next;
    var all := acts + [a];
    assert all[..|all| - 1] == acts && all[|all| - 1] == a;
    StateIsInv(s, acts);
    StateIsInv(s, all);
    EachInItsCall(Unbounded, s, acts, a.t);
    RunSnoc(Unbounded, s, NoHistory, acts, a);
    CurrentSnoc(Unbounded, s, all, a.t);
    hide Answer;
    var (q, g) := Run(Unbounded, s, NoHistory, acts);
    BeginStep(q, g, a);
  }

  lemma BeginStep(q: Ring, g: History, a: Action)
    requires a.t in q.pcs && q.pcs[a.t].Idle? && q.size > 0 && |q.slots| == q.size
    requires (a.Enqueue? && 1 <= |a.objs| < M32) || (a.Dequeue? && 1 <= a.want < M32)
    ensures Do(Unbounded, q, g, a).0
      == q.At(a.t, if a.Enqueue? then EnqHead(a.objs, a.beh) else DeqHead(a.want, a.beh))
  {
    hide Record;
  }

  /** The run up to the return. */
  lemma EndOfRun(s: Ring, acts: seq<Action>, t: Tid, m: nat, r: Ret, s': Ring)
    requires var (q, g) := Run(Unbounded, s, NoHistory, acts); Ends(q, g, t, m, r, s')
    ensures Answer(Unbounded, s, acts + Steps(t, m), Step(t)) == r
    ensures After(Unbounded, s, acts + Steps(t, m) + [Step(t)]) == s'
  {
    hide Run, Next;
    RunAppend(Unbounded, s, NoHistory, acts, Steps(t, m));
    RunSnoc(Unbounded, s, NoHistory, acts + Steps(t, m), Step(t));
  }

  /** The answer to an enqueue that runs on its own. */
  lemma EnqueueAnswer(s: Ring, acts: seq<Action>, t: Tid, objs: seq<Ptr>, beh: Behavior) returns (m: nat)
    requires New(s) && t in s.pcs && Current(Unbounded, s, acts, t).NoCall? && 1 <= |objs| < M32
    requires After(Unbounded, s, acts).prodHead == After(Unbounded, s, acts).prodTail
    ensures var q := After(Unbounded, s, acts);
      var room := s.size - 1 - (q.prodTail - q.consTail);
      var all := acts + [Enqueue(t, objs, beh)] + Steps(t, m);
      var answer, end := Answer(Unbounded, s, all, Step(t)), After(Unbounded, s, all + [Step(t)]);
      if |objs| > room && (beh.Fixed? || room == 0) then m == 1 && answer == NoBufs && end.prodTail == q.prodTail
      else
        var k := Part(|objs|, room);
        && m == k + 4 && 0 <= k && answer == Enqueued(k, q.prodTail - q.consTail + k >= q.watermark)
        && end.prodTail == q.prodTail + k
  {
    hide Run, New, Inv, Ends, Current, Answer;
    var a := Enqueue(t, objs, beh);
    Begins(s, acts, a);
    var (q1, g1) := Run(Unbounded, s, NoHistory, acts + [a]);
    var r, s';
    m, r, s' := EnqueueEnds(q1, g1, t);
    EndOfRun(s, acts + [a], t, m, r, s');
  }

  /** An enqueue that runs on its own, begun in any run when all claims of enqueues have been
      published: it returns after a step for each object it puts in and five more. It is refused
      exactly if nothing fits or, for a bulk call, not everything; otherwise it puts in all its
      objects, or as many as fit, and reports the watermark exactly if the ring reaches it. */
  lemma EnqueueAlone(s: Ring, acts: seq<Action>, t: Tid, objs: seq<Ptr>, beh: Behavior) returns (m: nat)
    requires New(s) && t in s.pcs && Current(Unbounded, s, acts, t).NoCall? && 1 <= |objs| < M32
    requires After(Unbounded, s, acts).prodHead == After(Unbounded, s, acts).prodTail
    ensures var q, put := After(Unbounded, s, acts), Published(Unbounded, s, acts);
      var room := s.size - 1 - (|put| - q.consTail);
      var all := acts + [Enqueue(t, objs, beh)] + Steps(t, m);
      var answer, after := Answer(Unbounded, s, all, Step(t)), Published(Unbounded, s, all + [Step(t)]);
      if |objs| > room && (beh.Fixed? || room == 0) then m == 1 && answer == NoBufs && after == put
      else
        var k := Part(|objs|, room);
        && m == k + 4 && 1 <= k <= |objs|
        && answer == Enqueued(k, |put| - q.consTail + k >= q.watermark) && after == put + objs[..k]
  {
    hide *;
    m := EnqueueAnswer(s, acts, t, objs, beh);
    var all := acts + [Enqueue(t, objs, beh)] + Steps(t, m);
    TailIsCount(s, acts);
    TailIsCount(s, all + [Step(t)]);
    if Answer(Unbounded, s, all, Step(t)).Enqueued? {
      PutsItsObjects(s, acts, t, objs, beh, m);
    } else {
      assert all + [Step(t)] == acts + ([Enqueue(t, objs, beh)] + Steps(t, m) + [Step(t)]);
      OnlyGrow(s, acts, [Enqueue(t, objs, beh)] + Steps(t, m) + [Step(t)]);
    }
  }

  lemma TailIsCount(s: Ring, acts: seq<Action>)
    requires New(s)
    ensures |Published(Unbounded, s, acts)| == After(Unbounded, s, acts).prodTail
    ensures |Received(Unbounded, s, acts)| == After(Unbounded, s, acts).consTail
  {
    hide *;
    FifoOfCalls(s, acts);
  }

  lemma PutsItsObjects(s: Ring, acts: seq<Action>, t: Tid, objs: seq<Ptr>, beh: Behavior, m: nat)
    requires New(s) && t in s.pcs && Current(Unbounded, s, acts, t).NoCall? && 1 <= |objs| < M32
    requires var all := acts + [Enqueue(t, objs, beh)] + Steps(t, m);
      && Answer(Unbounded, s, all, Step(t)).Enqueued?
      && |Published(Unbounded, s, all + [Step(t)])|
         == |Published(Unbounded, s, acts)| + Answer(Unbounded, s, all, Step(t)).count
    ensures var all := acts + [Enqueue(t, objs, beh)] + Steps(t, m);
      var k := Answer(Unbounded, s, all, Step(t)).count;
      && 1 <= k <= |objs|
      && Published(Unbounded, s, all + [Step(t)]) == Published(Unbounded, s, acts) + objs[..k]
  {
    hide *;
    var all := acts + [Enqueue(t, objs, beh)] + Steps(t, m);
    CallOfAll(s, acts, Enqueue(t, objs, beh), m);
    var j := EnqueueReturns(s, all, t);
    assert all == acts + ([Enqueue(t, objs, beh)] + Steps(t, m));
    OnlyGrow(s, acts, [Enqueue(t, objs, beh)] + Steps(t, m));
  }

  /** While t runs on its own, it is in the call it has begun or has returned from it. */
  lemma CallOfAll(s: Ring, acts: seq<Action>, a: Action, m: nat)
    requires New(s) && a.t in s.pcs && Current(Unbounded, s, acts, a.t).NoCall?
    requires (a.Enqueue? && 1 <= |a.objs| < M32) || (a.Dequeue? && 1 <= a.want < M32)
    ensures var c := Current(Unbounded, s, acts + [a] + Steps(a.t, m), a.t);
      c.NoCall? || c == if a.Enqueue? then EnqCall(|acts|, a.objs, a.beh) else DeqCall(|acts|, a.want, a.beh)
  {
    hide *;
    Begins(s, acts, a);
    SameCall(s, acts + [a], a.t, m);
  }

  /** The answer to a dequeue that runs on its own. */
  lemma DequeueAnswer(s: Ring, acts: seq<Action>, t: Tid, want: nat, beh: Behavior) returns (m: nat)
    requires New(s) && t in s.pcs && Current(Unbounded, s, acts, t).NoCall? && 1 <= want < M32
    requires After(Unbounded, s, acts).consHead == After(Unbounded, s, acts).consTail
    ensures var q := After(Unbounded, s, acts);
      var filled := q.prodTail - q.consTail;
      var all := acts + [Dequeue(t, want, beh)] + Steps(t, m);
      var answer, end := Answer(Unbounded, s, all, Step(t)), After(Unbounded, s, all + [Step(t)]);
      && end.prodTail == q.prodTail
      && if want > filled && (beh.Fixed? || filled == 0) then m == 1 && answer == NoEnt && end.consTail == q.consTail
         else
           var k := Part(want, filled);
           && m == k + 3 && answer.Dequeued? && |answer.objs| == k
           && end.consTail == q.consTail + k
  {
    hide Run, New, Inv, Ends, Current, Answer;
    var a := Dequeue(t, want, beh);
    Begins(s, acts, a);
    var (q1, g1) := Run(Unbounded, s, NoHistory, acts + [a]);
    var r, s';
    m, r, s' := DequeueEnds(q1, g1, t);
    EndOfRun(s, acts + [a], t, m, r, s');
  }

  /** A dequeue that runs on its own, begun in any run when no claim of a dequeue is in flight:
      it is answered with the oldest objects, as many as it wants, or as many as there are; it is
      refused exactly if there are none or, for a bulk call, not enough. */
  lemma DequeueAlone(s: Ring, acts: seq<Action>, t: Tid, want: nat, beh: Behavior) returns (m: nat)
    requires New(s) && t in s.pcs && Current(Unbounded, s, acts, t).NoCall? && 1 <= want < M32
    requires After(Unbounded, s, acts).consHead == After(Unbounded, s, acts).consTail
    ensures var put, got := Published(Unbounded, s, acts), Received(Unbounded, s, acts);
      var filled := |put| - |got|;
      var all := acts + [Dequeue(t, want, beh)] + Steps(t, m);
      var answer, after := Answer(Unbounded, s, all, Step(t)), Received(Unbounded, s, all + [Step(t)]);
      if want > filled && (beh.Fixed? || filled == 0) then m == 1 && answer == NoEnt && after == got
      else
        var k := Part(want, filled);
        && m == k + 3 && 1 <= k && |got| + k <= |put|
        && answer == Dequeued(put[|got|..|got| + k]) && after == got + answer.objs
  {
    hide *;
    m := DequeueAnswer(s, acts, t, want, beh);
    var all := acts + [Dequeue(t, want, beh)] + Steps(t, m);
    TailIsCount(s, acts);
    TailIsCount(s, all + [Step(t)]);
    assert all + [Step(t)] == acts + ([Dequeue(t, want, beh)] + Steps(t, m) + [Step(t)]);
    OnlyGrow(s, acts, [Dequeue(t, want, beh)] + Steps(t, m) + [Step(t)]);
    if Answer(Unbounded, s, all, Step(t)).Dequeued? {
      AnswersOldest(s, acts, t, [Dequeue(t, want, beh)] + Steps(t, m), all);
    }
  }

  /** What is given out by the step after `more`, in which nothing has been published. */
  lemma AnswersOldest(s: Ring, acts: seq<Action>, t: Tid, more: seq<Action>, all: seq<Action>)
    requires New(s) && t in s.pcs && all == acts + more && Answer(Unbounded, s, all, Step(t)).Dequeued?
    requires Published(Unbounded, s, all + [Step(t)]) == Published(Unbounded, s, acts)
    requires |Received(Unbounded, s, all + [Step(t)])|
      == |Received(Unbounded, s, acts)| + |Answer(Unbounded, s, all, Step(t)).objs|
    ensures var put, got := Published(Unbounded, s, acts), Received(Unbounded, s, acts);
      var objs := Answer(Unbounded, s, all, Step(t)).objs;
      && 1 <= |objs| && |got| + |objs| <= |put| && objs == put[|got|..|got| + |objs|]
      && Received(Unbounded, s, all + [Step(t)]) == got + objs
  {
    hide *;
    assert (all + [Step(t)])[..|all + [Step(t)]| - 1] == all;
    BothSnoc(s, all + [Step(t)]);
    OnlyGrow(s, acts, more);
    var j := DequeueReturns(s, all, t);
    OnlyGrow(s, all, [Step(t)]);
  }

  // ------------------------------------------------------- no deadlock

  /** Thread t on its own can bring its call to its return, and nobody else moves. */
  ghost predicate CanReturn(s: Ring, h: History, t: Tid, m: nat) {
    Run(Unbounded, s, h, Steps(t, m)).0.pcs == s.pcs[t := Idle]
  }

  lemma EndsIsReturn(s: Ring, h: History, t: Tid, m: nat, r: Ret, s': Ring)
    requires Ends(s, h, t, m, r, s') && s'.pcs == s.pcs[t := Idle]
    ensures CanReturn(s, h, t, m + 1)
  {
    hide Run, Next, Steps;
    StepsSnoc(t, m);
    RunSnoc(Unbounded, s, h, Steps(t, m), Step(t));
  }

  lemma ReturnsLater(s: Ring, h: History, t: Tid, m: nat)
    requires var (q, g) := Do(Unbounded, s, h, Step(t)); q == s.At(t, Idle) || (t in q.pcs && q == s.At(t, q.pcs[t]))
    requires var (q, g) := Do(Unbounded, s, h, Step(t)); CanReturn(q, g, t, m)
    ensures CanReturn(s, h, t, m + 1)
  {
    assert Steps(t, m + 1)[0] == Step(t) && Steps(t, m + 1)[1..] == Steps(t, m);
    var (q, g) := Do(Unbounded, s, h, Step(t));
    MovedTwice(s.pcs, t, q.pcs[t], Idle);
    hide Next, Do, Steps;
  }

  lemma FreshEnqueueReturns(s: Ring, h: History, t: Tid) returns (m: nat)
    requires Inv(s, h) && t in s.pcs && s.prodTail == s.prodHead
    requires var pc := s.pcs[t]; pc.EnqHead? || ((pc.EnqTail? || pc.EnqCas?) && pc.head == s.prodHead)
    ensures CanReturn(s, h, t, m)
  {
    hide Inv, Ends, CanReturn;
    var r, s';
    if s.pcs[t].EnqHead? {
      m, r, s' := EnqueueEnds(s, h, t);
    } else if s.pcs[t].EnqTail? {
      m, r, s' := ReadEnds(s, h, t);
    } else {
      m, r, s' := ClaimEnds(s, h, t);
    }
    EndsIsReturn(s, h, t, m, r, s');
    m := m + 1;
  }

  /** A compare-and-set that fails, and the call begins again. */
  lemma StaleEnqueueReturns(s: Ring, h: History, t: Tid) returns (m: nat)
    requires Inv(s, h) && t in s.pcs && s.prodTail == s.prodHead && s.pcs[t].EnqCas? && s.pcs[t].head != s.prodHead
    ensures CanReturn(s, h, t, m)
  {
    hide Inv, Next, Do, CanReturn;
    StepOf(s, h, t);
    PrepareStep(s, t);
    var (q, g) := Do(Unbounded, s, h, Step(t));
    m := FreshEnqueueReturns(q, g, t);
    ReturnsLater(s, h, t, m);
    m := m + 1;
  }

  /** No other enqueue holds a claim: one that is under way can return, even if the head it has
      read is stale. */
  lemma EnqueueCanReturn(s: Ring, h: History, t: Tid) returns (m: nat)
    requires Inv(s, h) && t in s.pcs && s.prodTail == s.prodHead
    requires s.pcs[t].EnqHead? || s.pcs[t].EnqTail? || s.pcs[t].EnqCas?
    ensures CanReturn(s, h, t, m)
  {
    hide Inv, Next, Do, CanReturn;
    if s.pcs[t].EnqHead? || s.pcs[t].head == s.prodHead {
      m := FreshEnqueueReturns(s, h, t);
    } else if s.pcs[t].EnqCas? {
      m := StaleEnqueueReturns(s, h, t);
    } else {
      StepOf(s, h, t);
      PrepareStep(s, t);
      var (q, g) := Do(Unbounded, s, h, Step(t));
      if q.pcs[t].Idle? {
        m := 0;
        NoSteps(q, g, t);
      } else {
        m := StaleEnqueueReturns(q, g, t);
      }
      ReturnsLater(s, h, t, m);
      m := m + 1;
    }
  }

  lemma FreshDequeueReturns(s: Ring, h: History, t: Tid) returns (m: nat)
    requires Inv(s, h) && t in s.pcs && s.consTail == s.consHead
    requires var pc := s.pcs[t]; pc.DeqHead? || ((pc.DeqTail? || pc.DeqCas?) && pc.head == s.consHead)
    ensures CanReturn(s, h, t, m)
  {
    hide Inv, Ends, CanReturn;
    var r, s';
    if s.pcs[t].DeqHead? {
      m, r, s' := DequeueEnds(s, h, t);
    } else if s.pcs[t].DeqTail? {
      m, r, s' := ReadOutEnds(s, h, t);
    } else {
      m, r, s' := ClaimOutEnds(s, h, t);
    }
    EndsIsReturn(s, h, t, m, r, s');
    m := m + 1;
  }

  /** A compare-and-set that fails, and the call begins again. */
  lemma StaleDequeueReturns(s: Ring, h: History, t: Tid) returns (m: nat)
    requires Inv(s, h) && t in s.pcs && s.consTail == s.consHead && s.pcs[t].DeqCas? && s.pcs[t].head != s.consHead
    ensures CanReturn(s, h, t, m)
  {
    hide Inv, Next, Do, CanReturn;
    StepOf(s, h, t);
    PrepareOutStep(s, t);
    var (q, g) := Do(Unbounded, s, h, Step(t));
    m := FreshDequeueReturns(q, g, t);
    ReturnsLater(s, h, t, m);
    m := m + 1;
  }

  /** No other dequeue holds a claim: one that is under way can return, even if the head it has
      read is stale. */
  lemma DequeueCanReturn(s: Ring, h: History, t: Tid) returns (m: nat)
    requires Inv(s, h) && t in s.pcs && s.consTail == s.consHead
    requires s.pcs[t].DeqHead? || s.pcs[t].DeqTail? || s.pcs[t].DeqCas?
    ensures CanReturn(s, h, t, m)
  {
    hide Inv, Next, Do, CanReturn;
    if s.pcs[t].DeqHead? || s.pcs[t].head == s.consHead {
      m := FreshDequeueReturns(s, h, t);
    } else if s.pcs[t].DeqCas? {
      m := StaleDequeueReturns(s, h, t);
    } else {
      StepOf(s, h, t);
      PrepareOutStep(s, t);
      var (q, g) := Do(Unbounded, s, h, Step(t));
      if q.pcs[t].Idle? {
        m := 0;
        NoSteps(q, g, t);
      } else {
        m := StaleDequeueReturns(q, g, t);
      }
      ReturnsLater(s, h, t, m);
      m := m + 1;
    }
  }

  lemma NoSteps(s: Ring, h: History, t: Tid)
    requires t in s.pcs && s.pcs[t].Idle?
    ensures CanReturn(s, h, t, 0)
  {
  }

  /** Some call that is under way can return: the one with the oldest claim, or any if no claim
      is in flight. */
  lemma SomebodyReturns(s: Ring, h: History) returns (t: Tid, m: nat)
    requires Inv(s, h) && exists u :: u in s.pcs && !s.pcs[u].Idle?
    ensures t in s.pcs && !s.pcs[t].Idle? && CanReturn(s, h, t, m)
  {
    if u :| u in s.pcs && s.pcs[u].EnqCopy? {
      hide *;
      t, m := PublisherReturns(s, h);
    } else if u :| u in s.pcs && s.pcs[u].DeqCopy? {
      hide *;
      t, m := ReleaserReturns(s, h);
    } else {
      hide *;
      NoClaims(s, h);
      t :| t in s.pcs && !s.pcs[t].Idle?;
      if s.pcs[t].EnqHead? || s.pcs[t].EnqTail? || s.pcs[t].EnqCas? {
        m := EnqueueCanReturn(s, h, t);
      } else {
        m := DequeueCanReturn(s, h, t);
      }
    }
  }

  lemma PublisherReturns(s: Ring, h: History) returns (t: Tid, m: nat)
    requires Inv(s, h) && exists u :: u in s.pcs && s.pcs[u].EnqCopy?
    ensures t in s.pcs && s.pcs[t].EnqCopy? && CanReturn(s, h, t, m)
  {
    hide Inv, Ends, CanReturn, Next, Run;
    UniquePublisher(s, h);
    t :| t in s.pcs && s.pcs[t].EnqCopy? && s.pcs[t].head == s.prodTail;
    var r, s';
    m, r, s' := CopyInEnds(s, h, t);
    EndsIsReturn(s, h, t, m, r, s');
    m := m + 1;
  }

  lemma ReleaserReturns(s: Ring, h: History) returns (t: Tid, m: nat)
    requires Inv(s, h) && exists u :: u in s.pcs && s.pcs[u].DeqCopy?
    ensures t in s.pcs && s.pcs[t].DeqCopy? && CanReturn(s, h, t, m)
  {
    hide Inv, Ends, CanReturn, Next, Run;
    UniqueReleaser(s, h);
    t :| t in s.pcs && s.pcs[t].DeqCopy? && s.pcs[t].head == s.consTail;
    var r, s';
    m, r, s' := CopyOutEnds(s, h, t);
    EndsIsReturn(s, h, t, m, r, s');
    m := m + 1;
  }

  lemma NoClaims(s: Ring, h: History)
    requires Inv(s, h) && forall u :: u in s.pcs ==> !s.pcs[u].EnqCopy? && !s.pcs[u].DeqCopy?
    ensures s.prodTail == s.prodHead && s.consTail == s.consHead
  {
    ClaimsHaveOwners(s.pcs, h.prods, true);
    ClaimsHaveOwners(s.pcs, h.conss, false);
  }

  ghost function Busy(pcs: map<Tid, PC>): set<Tid> {
    set t | t in pcs && !pcs[t].Idle?
  }

  lemma OneLessBusy(pcs: map<Tid, PC>, t: Tid)
    requires t in pcs && !pcs[t].Idle?
    ensures |Busy(pcs[t := Idle])| < |Busy(pcs)|
  {
    assert Busy(pcs[t := Idle]) == Busy(pcs) - {t};
  }

  /** From every state that satisfies the invariant some schedule of further steps brings all
      calls under way to their return: nobody is ever stuck for good. */
  lemma {:induction false} AllCanReturn(s: Ring, h: History) returns (acts: seq<Action>)
    requires Inv(s, h)
    ensures forall i :: 0 <= i < |acts| ==> acts[i].Step?
    ensures var q := Run(Unbounded, s, h, acts).0; q.pcs.Keys == s.pcs.Keys && forall t :: t in q.pcs ==> q.pcs[t].Idle?
    decreases |Busy(s.pcs)|
  {
    hide Inv, CanReturn, Busy, Run, Steps;
    if u :| u in s.pcs && !s.pcs[u].Idle? {
      var t, m := SomebodyReturns(s, h);
      OneReturns(s, h, t, m);
      OneLessBusy(s.pcs, t);
      var (q, g) := Run(Unbounded, s, h, Steps(t, m));
      var rest := AllCanReturn(q, g);
      acts := Steps(t, m) + rest;
      RunAppend(Unbounded, s, h, Steps(t, m), rest);
    } else {
      acts := [];
      RunNothing(s, h);
    }
  }

  lemma OneReturns(s: Ring, h: History, t: Tid, m: nat)
    requires Inv(s, h) && t in s.pcs && CanReturn(s, h, t, m)
    ensures var (q, g) := Run(Unbounded, s, h, Steps(t, m)); Inv(q, g) && q.pcs == s.pcs[t := Idle]
    ensures forall i :: 0 <= i < |Steps(t, m)| ==> Steps(t, m)[i].Step?
  {
    hide Run, Inv, Steps;
    RunKeepsInv(s, h, Steps(t, m));
    AreSteps(t, m);
  }

  lemma {:induction false} AreSteps(t: Tid, m: nat)
    ensures forall i :: 0 <= i < |Steps(t, m)| ==> Steps(t, m)[i].Step?
  {
    if m > 0 {
      AreSteps(t, m - 1);
    }
  }

  lemma RunNothing(s: Ring, h: History)
    ensures Run(Unbounded, s, h, []) == (s, h)
  {
  }

  /** After any run, some schedule of further steps lets every call return. */
  lemma EveryCallCanReturn(s: Ring, acts: seq<Action>) returns (more: seq<Action>)
    requires New(s)
    ensures forall i :: 0 <= i < |more| ==> more[i].Step?
    ensures forall t :: t in s.pcs ==> Current(Unbounded, s, acts + more, t).NoCall?
  {
    hide Run, Inv, Current;
    StateIsInv(s, acts);
    var (q, g) := Run(Unbounded, s, NoHistory, acts);
    more := AllCanReturn(q, g);
    RunAppend(Unbounded, s, NoHistory, acts, more);
    forall t | t in s.pcs
      ensures Current(Unbounded, s, acts + more, t).NoCall?
    {
      EachInItsCall(Unbounded, s, acts + more, t);
    }
  }
}
