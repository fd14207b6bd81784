/** What the callers of the ring see: the calls that the actions of a run begin, and what they
    return. Nothing here is read from the history that the machine's theorems keep. */
module RingCalls {
  import opened Bits
  import opened RingProtocol
  import opened RingTheorems

  /** A ring as created, with nobody in a call. */
  ghost predicate New(s: Ring) {
    && s.size > 0 && |s.slots| == s.size && s.watermark == s.size
    && s.prodHead == s.prodTail == s.consHead == s.consTail == 0
    && forall t :: t in s.pcs ==> s.pcs[t].Idle?
  }

  ghost function After(w: Width, s: Ring, acts: seq<Action>): Ring {
    Run(w, s, NoHistory, acts).0
  }

  /** What action a returns behind a run. */
  ghost function Answer(w: Width, s: Ring, acts: seq<Action>, a: Action): Ret {
    var r := After(w, s, acts);
    if Enabled(r, a) && r.size > 0 && |r.slots| == r.size then Next(w, r, a).1 else Pending
  }

  /** A call under way, with the number of the action that began it. */
  datatype Call =
    | NoCall
    | EnqCall(since: nat, objs: seq<Ptr>, beh: Behavior)
    | DeqCall(since: nat, want: nat, beh: Behavior)

  /** The call that thread t is in: it began with an Enqueue or a Dequeue and has not returned. */
  ghost function Current(w: Width, s: Ring, acts: seq<Action>, t: Tid): Call {
    if acts == [] then NoCall
    else
      var k := |acts| - 1;
      Advance(Current(w, s, acts[..k], t), acts[k], k, Answer(w, s, acts[..k], acts[k]), t)
  }

  /** The call of t behind one action, the k-th, which has returned r. */
  ghost function Advance(c: Call, a: Action, k: nat, r: Ret, t: Tid): Call {
    if a.t != t then c
    else
      match a
      case Enqueue(_, objs, beh) => if c.NoCall? && 1 <= |objs| < M32 then EnqCall(k, objs, beh) else c
      case Dequeue(_, want, beh) => if c.NoCall? && 1 <= want < M32 then DeqCall(k, want, beh) else c
      case SetWaterMark(_, _) => c
      case Step(_) => if r.Pending? then c else NoCall
  }

  /** The objects that an enqueue which has returned r has put into the ring. */
  ghost function Batch(c: Call, r: Ret): seq<Ptr> {
    if c.EnqCall? && r.Enqueued? && r.count <= |c.objs| then c.objs[..r.count] else []
  }

  /** The objects of all enqueues that have returned, in that order. */
  ghost function Published(w: Width, s: Ring, acts: seq<Action>): seq<Ptr> {
    if acts == [] then []
    else
      var k := |acts| - 1;
      Published(w, s, acts[..k])
        + Batch(Current(w, s, acts[..k], acts[k].t), Answer(w, s, acts[..k], acts[k]))
  }

  ghost function Given(r: Ret): seq<Ptr> {
    if r.Dequeued? then r.objs else []
  }

  /** The objects that dequeues have returned, in that order. */
  ghost function Received(w: Width, s: Ring, acts: seq<Action>): seq<Ptr> {
    if acts == [] then []
    else
      var k := |acts| - 1;
      Received(w, s, acts[..k]) + Given(Answer(w, s, acts[..k], acts[k]))
  }

  // ------------------------------------------------------- each thread is in its call

  /** Thread t stands at a point of its call, with the call's own arguments. */
  ghost predicate In(pc: PC, c: Call) {
    match c
    case NoCall => pc.Idle?
    case EnqCall(_, objs, beh) =>
      (pc.EnqHead? || pc.EnqTail? || pc.EnqCas? || pc.EnqCopy?) && pc.objs == objs && pc.beh == beh
    case DeqCall(_, want, beh) =>
      (pc.DeqHead? || pc.DeqTail? || pc.DeqCas? || pc.DeqCopy?) && pc.want == want && pc.beh == beh
  }

  lemma StepIn(w: Width, s: Ring, a: Action, k: nat, c: Call)
    requires Enabled(s, a) && s.size > 0 && |s.slots| == s.size && In(s.pcs[a.t], c)
    ensures var (s', r) := Next(w, s, a);
      a.t in s'.pcs && In(s'.pcs[a.t], Advance(c, a, k, r, a.t))
  {
    if a.Step? {
      var pc := s.pcs[a.t];
      if pc.EnqTail? || pc.EnqCas? || pc.EnqCopy? {
        hide ReadProdTail, CasConsHead, CopyOut;
      } else {
        hide ReadConsTail, CasProdHead, CopyIn;
      }
    }
  }

  lemma Prefixes(acts: seq<Action>)
    requires acts != []
    ensures acts == acts[..|acts| - 1] + [acts[|acts| - 1]]
  {
  }

  /** One more action. */
  lemma AfterSnoc(w: Width, s: Ring, acts: seq<Action>)
    requires acts != []
    ensures var k := |acts| - 1; var (q, g) := Run(w, s, NoHistory, acts[..k]);
      Run(w, s, NoHistory, acts) == Do(w, q, g, acts[k])
  {
    Prefixes(acts);
    RunSnoc(w, s, NoHistory, acts[..|acts| - 1], acts[|acts| - 1]);
    hide Run, Do;
  }

  lemma {:induction false} SameThreads(w: Width, s: Ring, acts: seq<Action>)
    requires s.size > 0 && |s.slots| == s.size
    ensures var q := After(w, s, acts); q.pcs.Keys == s.pcs.Keys && q.size == s.size == |q.slots|
    decreases |acts|
  {
    if acts != [] {
      var k := |acts| - 1;
      SameThreads(w, s, acts[..k]);
      AfterSnoc(w, s, acts);
      var q := After(w, s, acts[..k]);
      if Enabled(q, acts[k]) {
        NextMoves(w, q, acts[k]);
      }
      hide Run, Next, Enabled;
    }
  }

  /** Every thread is at a point of the call it has begun, with the arguments given there, until
      that returns. */
  lemma {:induction false} EachInItsCall(w: Width, s: Ring, acts: seq<Action>, t: Tid)
    requires s.size > 0 && |s.slots| == s.size && t in s.pcs && s.pcs[t].Idle?
    ensures var q := After(w, s, acts);
      t in q.pcs && In(q.pcs[t], Current(w, s, acts, t))
    decreases |acts|
  {
    if acts != [] {
      var k := |acts| - 1;
      EachInItsCall(w, s, acts[..k], t);
      SameThreads(w, s, acts[..k]);
      AfterSnoc(w, s, acts);
      var (q, g) := Run(w, s, NoHistory, acts[..k]);
      if Enabled(q, acts[k]) {
        NextMoves(w, q, acts[k]);
        if acts[k].t == t {
          StepIn(w, q, acts[k], k, Current(w, s, acts[..k], t));
        }
      } else {
        NotEnabled(q, acts[k], k, t, Current(w, s, acts[..k], t));
      }
      hide Run, Next, In, Enabled, Advance;
    }
  }

  /** An action that its thread cannot take begins and ends no call. */
  lemma NotEnabled(q: Ring, a: Action, k: nat, t: Tid, c: Call)
    requires !Enabled(q, a) && t in q.pcs && In(q.pcs[t], c)
    ensures Advance(c, a, k, Pending, t) == c
  {
  }

  // ------------------------------------------------------- first in, first out

  lemma NewIsIdle(s: Ring, t: Tid)
    requires New(s) && t in s.pcs
    ensures s.size > 0 && |s.slots| == s.size && s.pcs[t].Idle?
  {
  }

  lemma NewIsInv(s: Ring)
    requires New(s)
    ensures Inv(s, NoHistory)
  {
  }

  lemma StateIsInv(s: Ring, acts: seq<Action>)
    requires New(s)
    ensures var (q, g) := Run(Unbounded, s, NoHistory, acts);
      Inv(q, g) && q.size == s.size == |q.slots| && q.size > 0
  {
    NewIsInv(s);
    RunKeepsInv(s, NoHistory, acts);
    var (q, g) := Run(Unbounded, s, NoHistory, acts);
    hide Run, Inv;
    RingIsShaped(q, g);
  }

  /** What an action adds to the objects behind the producers' tail, and to those given out. */
  lemma StepOfQueue(s: Ring, h: History, a: Action)
    requires Inv(s, h) && Enabled(s, a)
    ensures s.size > 0 && |s.slots| == s.size
    ensures var (s', r) := Next(Unbounded, s, a); var h' := Record(s, h, a, s', r);
      && 0 <= s.prodTail <= |h.log| && 0 <= s'.prodTail <= |h'.log|
      && (r.Enqueued? ==> a.Step? && s.pcs[a.t].EnqCopy? && r.count <= |s.pcs[a.t].objs|)
      && (h'.log[..s'.prodTail] ==
            h.log[..s.prodTail] + if r.Enqueued? then s.pcs[a.t].objs[..r.count] else [])
      && h'.out == h.out + Given(r)
  {
    hide Tiles, ClaimsMatch, Holds;
    if a.Step? && (s.pcs[a.t].EnqCas? || s.pcs[a.t].EnqCopy?) {
      assert Local(s, h, s.pcs[a.t]);
      hide Locals, Local;
      ProducerStep(s, h, a.t);
    } else if a.Step? && s.pcs[a.t].DeqCopy? {
      OwnClaim(s.pcs, h.conss, false, a.t);
      hide Locals, Local, ReadConsTail, CasProdHead, CopyIn, ReadProdTail, CasConsHead;
    } else {
      hide Locals, Local, CopyIn, CopyOut, CasProdHead;
    }
  }

  lemma ProducerStep(s: Ring, h: History, t: Tid)
    requires t in s.pcs && (s.pcs[t].EnqCas? || s.pcs[t].EnqCopy?) && Local(s, h, s.pcs[t])
    requires s.size > 0 && |s.slots| == s.size && 0 <= s.prodTail <= |h.log|
    ensures var (s', r) := Next(Unbounded, s, Step(t)); var h' := Record(s, h, Step(t), s', r);
      && 0 <= s'.prodTail <= |h'.log|
      && (r.Enqueued? ==> s.pcs[t].EnqCopy? && r.count <= |s.pcs[t].objs|)
      && (h'.log[..s'.prodTail] == h.log[..s.prodTail] + if r.Enqueued? then s.pcs[t].objs[..r.count] else [])
      && h'.out == h.out && !r.Dequeued?
  {
    hide Holds;
  }

  /** What has been published is the objects of the calls that have returned, and what has been
      given out those that calls have returned with. */
  lemma {:induction false} HistoryIsSeen(s: Ring, acts: seq<Action>)
    requires New(s)
    ensures var (q, g) := Run(Unbounded, s, NoHistory, acts);
      && 0 <= q.prodTail <= |g.log| && g.log[..q.prodTail] == Published(Unbounded, s, acts)
      && g.out == Received(Unbounded, s, acts)
    decreases |acts|
  {
    NewIsInv(s);
    if acts != [] {
      var k := |acts| - 1;
      var a := acts[k];
      HistoryIsSeen(s, acts[..k]);
      AfterSnoc(Unbounded, s, acts);
      StateIsInv(s, acts[..k]);
      var (q, g) := Run(Unbounded, s, NoHistory, acts[..k]);
      if Enabled(q, a) {
        StepOfQueue(q, g, a);
        assert Answer(Unbounded, s, acts[..k], a) == Next(Unbounded, q, a).1;
        SameThreads(Unbounded, s, acts[..k]);
        EachInItsCall(Unbounded, s, acts[..k], a.t);
        BatchIsCopied(q.pcs[a.t], Current(Unbounded, s, acts[..k], a.t), Next(Unbounded, q, a).1);
      }
      hide Run, Next, Inv, New, Enabled, Record, In, Batch, Given;
    }
  }

  lemma BatchIsCopied(pc: PC, c: Call, r: Ret)
    requires In(pc, c) && (r.Enqueued? ==> pc.EnqCopy? && r.count <= |pc.objs|)
    ensures Batch(c, r) == if r.Enqueued? then pc.objs[..r.count] else []
  {
  }

  /** In every run, dequeues return the objects of the enqueues that have returned, in the same
      order, none of them twice, and at most size - 1 are in between. */
  lemma FifoOfCalls(s: Ring, acts: seq<Action>)
    requires New(s)
    ensures var q, put, got := After(Unbounded, s, acts), Published(Unbounded, s, acts), Received(Unbounded, s, acts);
      && |put| == q.prodTail && |got| == q.consTail
      && got <= put && |put| - |got| <= s.size - 1
  {
    hide Run, New, Tiles, ClaimsMatch, Locals;
    HistoryIsSeen(s, acts);
    StateIsInv(s, acts);
    var (q, g) := Run(Unbounded, s, NoHistory, acts);
    var put, got := Published(Unbounded, s, acts), Received(Unbounded, s, acts);
    assert g.out == g.log[..q.consTail] == put[..q.consTail];
  }

  /** When every call has returned, the objects put in and not given out are those in the slots. */
  lemma AllAccounted(s: Ring, acts: seq<Action>)
    requires New(s) && forall t :: t in s.pcs ==> Current(Unbounded, s, acts, t).NoCall?
    ensures var q, put, got := After(Unbounded, s, acts), Published(Unbounded, s, acts), Received(Unbounded, s, acts);
      && q.size > 0 && |q.slots| == q.size
      && q.prodHead == q.prodTail == |put| && q.consHead == q.consTail == |got| <= |put|
      && put == got + put[|got|..]
      && forall i :: |got| <= i < |put| ==> put[i] == q.slots[Slot(q, i)]
  {
    HistoryIsSeen(s, acts);
    FifoOfCalls(s, acts);
    StateIsInv(s, acts);
    SameThreads(Unbounded, s, acts);
    var (q, g) := Run(Unbounded, s, NoHistory, acts);
    forall t | t in q.pcs
      ensures q.pcs[t].Idle?
    {
      EachInItsCall(Unbounded, s, acts, t);
    }
    QuiescentConservation(q, g);
    hide Run, New, Tiles, ClaimsMatch, Locals;
  }

  // ------------------------------------------------------- how much a call moves

  /** The j-th action is thread t's read of prod.tail for its claim at `head`, and finds `tail`. */
  ghost predicate ReadsFilled(s: Ring, acts: seq<Action>, t: Tid, head: int, tail: int, j: nat) {
    && j < |acts| && acts[j] == Step(t)
    && var sj := After(Unbounded, s, acts[..j]);
       t in sj.pcs && sj.pcs[t].DeqTail? && sj.pcs[t].head == head && sj.prodTail == tail
  }

  /** The j-th action is the read of cons.tail in t's present call, for its claim of n objects at
      `head`: as many as it asked for if that tail left room for them, or else the room. */
  ghost predicate MeasuresRoom(s: Ring, acts: seq<Action>, t: Tid, head: int, n: int, j: nat) {
    var c := Current(Unbounded, s, acts, t);
    && j < |acts| && c.EnqCall? && Current(Unbounded, s, acts[..j], t) == c
    && var tail := StateAt(s, NoHistory, acts, j).consTail;
       ReadsTail(s, NoHistory, acts, t, head, tail, j) && n == Part(|c.objs|, s.size - 1 - (head - tail))
  }

  /** The same for a dequeue, prod.tail and the objects there. */
  ghost predicate MeasuresFill(s: Ring, acts: seq<Action>, t: Tid, head: int, n: int, j: nat) {
    var c := Current(Unbounded, s, acts, t);
    && j < |acts| && c.DeqCall? && Current(Unbounded, s, acts[..j], t) == c
    && var tail := After(Unbounded, s, acts[..j]).prodTail;
       ReadsFilled(s, acts, t, head, tail, j) && n == Part(c.want, tail - head)
  }

  ghost predicate RoomIsMeasured(s: Ring, acts: seq<Action>, t: Tid, head: int, n: int) {
    exists j :: MeasuresRoom(s, acts, t, head, n, j)
  }

  ghost predicate FillIsMeasured(s: Ring, acts: seq<Action>, t: Tid, head: int, n: int) {
    exists j :: MeasuresFill(s, acts, t, head, n, j)
  }

  ghost predicate Measured(s: Ring, acts: seq<Action>, t: Tid) {
    var q := After(Unbounded, s, acts);
    && t in q.pcs
    && (q.pcs[t].EnqCas? || q.pcs[t].EnqCopy? ==>
          RoomIsMeasured(s, acts, t, q.pcs[t].head, q.pcs[t].n))
    && (q.pcs[t].DeqCas? || q.pcs[t].DeqCopy? ==>
          FillIsMeasured(s, acts, t, q.pcs[t].head, q.pcs[t].n))
  }

  /** A longer run in which the call goes on does not change what has been read. */
  lemma MeasureStays(s: Ring, acts: seq<Action>, t: Tid, head: int, n: int, j: nat)
    requires acts != [] && Current(Unbounded, s, acts, t) == Current(Unbounded, s, acts[..|acts| - 1], t)
    ensures MeasuresRoom(s, acts[..|acts| - 1], t, head, n, j) ==> MeasuresRoom(s, acts, t, head, n, j)
    ensures MeasuresFill(s, acts[..|acts| - 1], t, head, n, j) ==> MeasuresFill(s, acts, t, head, n, j)
  {
    hide Run, Current;
    var b := acts[..|acts| - 1];
    if j < |b| {
      assert b[..j] == acts[..j];
    }
  }

  /** What one step makes of the local variables of a claim. */
  lemma StepMeasures(s: Ring, a: Action)
    requires Enabled(s, a) && s.size > 0 && |s.slots| == s.size
    ensures var (s', r) := Next(Unbounded, s, a); var pc := s.pcs[a.t];
      a.t in s'.pcs &&
      var pc' := s'.pcs[a.t];
      && (pc'.EnqCas? || pc'.EnqCopy? ==>
            && a.Step? && r.Pending?
            && (if pc.EnqTail? then
                  pc'.head == pc.head && pc'.n == Part(|pc.objs|, s.size - 1 - (pc.head - s.consTail))
                else (pc.EnqCas? || pc.EnqCopy?) && pc'.head == pc.head && pc'.n == pc.n))
      && (pc'.DeqCas? || pc'.DeqCopy? ==>
            && a.Step? && r.Pending?
            && (if pc.DeqTail? then pc'.head == pc.head && pc'.n == Part(pc.want, s.prodTail - pc.head)
                else (pc.DeqCas? || pc.DeqCopy?) && pc'.head == pc.head && pc'.n == pc.n))
  {
    if a.Step? {
      var pc := s.pcs[a.t];
      if pc.EnqTail? || pc.EnqCas? || pc.EnqCopy? {
        hide ReadProdTail, CasConsHead, CopyOut;
      } else {
        hide ReadConsTail, CasProdHead, CopyIn;
      }
    }
  }

  lemma {:induction false} AllMeasured(s: Ring, acts: seq<Action>, t: Tid)
    requires New(s) && t in s.pcs
    ensures Measured(s, acts, t)
    decreases |acts|
  {
    if acts != [] {
      var k := |acts| - 1;
      AllMeasured(s, acts[..k], t);
      OneMoreMeasured(s, acts, t);
    }
  }

  /** What the last action of a run has done. */
  lemma LastAction(s: Ring, acts: seq<Action>)
    requires New(s) && acts != []
    ensures var b, a := acts[..|acts| - 1], acts[|acts| - 1];
      var q := After(Unbounded, s, b);
      && q.size == s.size > 0 && |q.slots| == q.size
      && After(Unbounded, s, acts) == (if Enabled(q, a) then Next(Unbounded, q, a).0 else q)
      && Answer(Unbounded, s, b, a) == (if Enabled(q, a) then Next(Unbounded, q, a).1 else Pending)
  {
    hide New, Inv, Next, Record, Run;
    StateIsInv(s, acts[..|acts| - 1]);
    AfterSnoc(Unbounded, s, acts);
  }

  lemma OneMoreMeasured(s: Ring, acts: seq<Action>, t: Tid)
    requires New(s) && t in s.pcs && acts != [] && Measured(s, acts[..|acts| - 1], t)
    ensures Measured(s, acts, t)
  {
    var k := |acts| - 1;
    NewIsIdle(s, t);
    hide New, Next, Run, After, Answer, Current, RoomIsMeasured, FillIsMeasured, Enabled, In, Advance;
    LastAction(s, acts);
    var q := After(Unbounded, s, acts[..k]);
    EachInItsCall(Unbounded, s, acts[..k], t);
    if acts[k].t == t && Enabled(q, acts[k]) {
      OwnMeasure(s, acts, t);
    } else {
      if Enabled(q, acts[k]) {
        NextMoves(Unbounded, q, acts[k]);
      }
      CallStays(s, acts, t);
      OldMeasure(s, acts, t, HeadOf(q.pcs[t]), CountOf(q.pcs[t]));
    }
  }

  function HeadOf(pc: PC): int {
    match pc
    case EnqCas(_, _, head, _, _, _) => head
    case EnqCopy(_, _, head, _, _, _, _, _) => head
    case DeqCas(_, _, head, _) => head
    case DeqCopy(_, _, head, _, _) => head
    case _ => 0
  }

  function CountOf(pc: PC): int {
    match pc
    case EnqCas(_, _, _, _, _, n) => n
    case EnqCopy(_, _, _, _, _, n, _, _) => n
    case DeqCas(_, _, _, n) => n
    case DeqCopy(_, _, _, n, _) => n
    case _ => 0
  }

  /** An action of another thread, or one that is not possible, does not concern t's call. */
  lemma CallStays(s: Ring, acts: seq<Action>, t: Tid)
    requires New(s) && t in s.pcs && acts != []
    requires var q, a := After(Unbounded, s, acts[..|acts| - 1]), acts[|acts| - 1]; a.t != t || !Enabled(q, a)
    ensures Current(Unbounded, s, acts, t) == Current(Unbounded, s, acts[..|acts| - 1], t)
  {
    var k := |acts| - 1;
    var q, a := After(Unbounded, s, acts[..k]), acts[k];
    NewIsIdle(s, t);
    hide New, Next, Run, After;
    if a.t == t {
      EachInItsCall(Unbounded, s, acts[..k], t);
      NotEnabled(q, a, k, t, Current(Unbounded, s, acts[..k], t));
      hide In, Advance, Enabled;
    }
  }

  /** An action of t itself. */
  lemma OwnMeasure(s: Ring, acts: seq<Action>, t: Tid)
    requires New(s) && t in s.pcs && acts != [] && Measured(s, acts[..|acts| - 1], t)
    requires acts[|acts| - 1].t == t && Enabled(After(Unbounded, s, acts[..|acts| - 1]), acts[|acts| - 1])
    ensures Measured(s, acts, t)
  {
    var k := |acts| - 1;
    NewIsIdle(s, t);
    hide New, Next, Run, After, Answer, Current, RoomIsMeasured, FillIsMeasured, Enabled, In;
    LastAction(s, acts);
    var q, q' := After(Unbounded, s, acts[..k]), After(Unbounded, s, acts);
    EachInItsCall(Unbounded, s, acts[..k], t);
    StepMeasures(q, acts[k]);
    var pc, pc' := q.pcs[t], q'.pcs[t];
    if pc'.EnqCas? || pc'.EnqCopy? || pc'.DeqCas? || pc'.DeqCopy? {
      CurrentSnoc(Unbounded, s, acts, t);
      if pc.EnqTail? {
        NewRoom(s, acts, t, pc'.head, pc'.n);
      } else if pc.DeqTail? {
        NewFill(s, acts, t, pc'.head, pc'.n);
      } else {
        OldMeasure(s, acts, t, pc'.head, pc'.n);
      }
    }
  }

  lemma CurrentSnoc(w: Width, s: Ring, acts: seq<Action>, t: Tid)
    requires acts != []
    ensures var k := |acts| - 1;
      Current(w, s, acts, t) == Advance(Current(w, s, acts[..k], t), acts[k], k, Answer(w, s, acts[..k], acts[k]), t)
  {
    hide Answer, Advance;
  }

  lemma OldMeasure(s: Ring, acts: seq<Action>, t: Tid, head: int, n: int)
    requires acts != [] && Current(Unbounded, s, acts, t) == Current(Unbounded, s, acts[..|acts| - 1], t)
    ensures RoomIsMeasured(s, acts[..|acts| - 1], t, head, n) ==> RoomIsMeasured(s, acts, t, head, n)
    ensures FillIsMeasured(s, acts[..|acts| - 1], t, head, n) ==> FillIsMeasured(s, acts, t, head, n)
  {
    var b := acts[..|acts| - 1];
    hide MeasuresRoom, MeasuresFill, Current;
    if RoomIsMeasured(s, b, t, head, n) {
      var j :| MeasuresRoom(s, b, t, head, n, j);
      MeasureStays(s, acts, t, head, n, j);
    }
    if FillIsMeasured(s, b, t, head, n) {
      var j :| MeasuresFill(s, b, t, head, n, j);
      MeasureStays(s, acts, t, head, n, j);
    }
  }

  lemma NewRoom(s: Ring, acts: seq<Action>, t: Tid, head: int, n: int)
    requires acts != [] && acts[|acts| - 1] == Step(t)
    requires Current(Unbounded, s, acts, t) == Current(Unbounded, s, acts[..|acts| - 1], t)
    requires var q := After(Unbounded, s, acts[..|acts| - 1]);
      && t in q.pcs && q.pcs[t].EnqTail? && q.pcs[t].head == head
      && In(q.pcs[t], Current(Unbounded, s, acts, t))
      && n == Part(|q.pcs[t].objs|, s.size - 1 - (head - q.consTail))
    ensures RoomIsMeasured(s, acts, t, head, n)
  {
    hide Run, Current;
    assert MeasuresRoom(s, acts, t, head, n, |acts| - 1);
  }

  lemma NewFill(s: Ring, acts: seq<Action>, t: Tid, head: int, n: int)
    requires acts != [] && acts[|acts| - 1] == Step(t)
    requires Current(Unbounded, s, acts, t) == Current(Unbounded, s, acts[..|acts| - 1], t)
    requires var q := After(Unbounded, s, acts[..|acts| - 1]);
      && t in q.pcs && q.pcs[t].DeqTail? && q.pcs[t].head == head
      && In(q.pcs[t], Current(Unbounded, s, acts, t))
      && n == Part(q.pcs[t].want, q.prodTail - head)
    ensures FillIsMeasured(s, acts, t, head, n)
  {
    hide Run, Current;
    assert MeasuresFill(s, acts, t, head, n, |acts| - 1);
  }

  /** A call under way has begun with its own action. */
  lemma {:induction false} CallHasBegun(w: Width, s: Ring, acts: seq<Action>, t: Tid)
    ensures match Current(w, s, acts, t)
      case NoCall => true
      case EnqCall(since, objs, beh) => since < |acts| && acts[since] == Enqueue(t, objs, beh)
      case DeqCall(since, want, beh) => since < |acts| && acts[since] == Dequeue(t, want, beh)
    decreases |acts|
  {
    if acts != [] {
      CallHasBegun(w, s, acts[..|acts| - 1], t);
      hide Answer;
    }
  }

  /** What a thread knows that returns from an enqueue. */
  lemma EnqueueLeaves(s: Ring, h: History, t: Tid)
    requires Inv(s, h) && t in s.pcs && s.size > 0 && |s.slots| == s.size
    requires Next(Unbounded, s, Step(t)).1.Enqueued?
    ensures var pc, r := s.pcs[t], Next(Unbounded, s, Step(t)).1;
      && pc.EnqCopy? && r.count == pc.n && 1 <= pc.n <= |pc.objs| && (pc.beh.Fixed? ==> pc.n == |pc.objs|)
      && pc.head == s.prodTail
  {
    hide Tiles, ClaimsMatch, Holds;
    assert Local(s, h, s.pcs[t]);
    hide Locals;
  }

  /** An enqueue that returns a count, in any run: the thread is in a call; with the producers'
      tail, where its objects go, and the consumers' tail that it has read during this call, the
      count is all it was asked to put in if there was room for as many, or else the room; a bulk
      call puts in all; and these objects, the first of the call's own, are what its return adds. */
  lemma EnqueueReturns(s: Ring, acts: seq<Action>, t: Tid) returns (j: nat)
    requires New(s) && t in s.pcs && Answer(Unbounded, s, acts, Step(t)).Enqueued?
    ensures var c, k := Current(Unbounded, s, acts, t), Answer(Unbounded, s, acts, Step(t)).count;
      var put := Published(Unbounded, s, acts);
      && c.EnqCall? && c.since < j < |acts|
      && acts[c.since] == Enqueue(t, c.objs, c.beh) && acts[j] == Step(t)
      && k == Part(|c.objs|, s.size - 1 - (|put| - After(Unbounded, s, acts[..j]).consTail))
      && 1 <= k <= |c.objs| && (c.beh.Fixed? ==> k == |c.objs|)
      && Published(Unbounded, s, acts + [Step(t)]) == put + c.objs[..k]
  {
    hide After, Answer, New, MeasuresRoom, Current;
    var k, put := Answer(Unbounded, s, acts, Step(t)).count, Published(Unbounded, s, acts);
    EnqueueKnows(s, acts, t);
    CallHasBegun(Unbounded, s, acts, t);
    assert (acts + [Step(t)])[..|acts|] == acts;
    j :| MeasuresRoom(s, acts, t, |put|, k, j);
    RoomOfCall(s, acts, t, |put|, k, j);
  }

  lemma EnqueueKnows(s: Ring, acts: seq<Action>, t: Tid)
    requires New(s) && t in s.pcs && Answer(Unbounded, s, acts, Step(t)).Enqueued?
    ensures var c, k := Current(Unbounded, s, acts, t), Answer(Unbounded, s, acts, Step(t)).count;
      && RoomIsMeasured(s, acts, t, |Published(Unbounded, s, acts)|, k)
      && c.EnqCall? && 1 <= k <= |c.objs| && (c.beh.Fixed? ==> k == |c.objs|)
  {
    hide Run, Next, New, Inv, RoomIsMeasured, FillIsMeasured, Published, Received, Current;
    var q := After(Unbounded, s, acts);
    StateIsInv(s, acts);
    NewIsIdle(s, t);
    EachInItsCall(Unbounded, s, acts, t);
    EnqueueLeaves(q, Run(Unbounded, s, NoHistory, acts).1, t);
    AllMeasured(s, acts, t);
    FifoOfCalls(s, acts);
  }

  lemma RoomOfCall(s: Ring, acts: seq<Action>, t: Tid, head: int, n: int, j: nat)
    requires MeasuresRoom(s, acts, t, head, n, j)
    ensures var c := Current(Unbounded, s, acts, t);
      && c.EnqCall? && c.since < j < |acts| && acts[j] == Step(t)
      && n == Part(|c.objs|, s.size - 1 - (head - After(Unbounded, s, acts[..j]).consTail))
  {
    hide Run, Current;
    CallHasBegun(Unbounded, s, acts[..j], t);
  }

  /** An enqueue that is refused has put nothing in, and there was no room for it behind all the
      claims when it read the consumers' tail, which is its last action. */
  lemma EnqueueRefuses(s: Ring, acts: seq<Action>, t: Tid)
    requires New(s) && t in s.pcs && Answer(Unbounded, s, acts, Step(t)).NoBufs?
    ensures var c, q := Current(Unbounded, s, acts, t), After(Unbounded, s, acts);
      var room := s.size - 1 - (q.prodHead - q.consTail);
      && c.EnqCall? && (if c.beh.Fixed? then |c.objs| > room else room == 0)
      && Published(Unbounded, s, acts + [Step(t)]) == Published(Unbounded, s, acts)
      && After(Unbounded, s, acts + [Step(t)]) == q.At(t, Idle)
  {
    hide Run, Next, New, Inv;
    var (q, g) := Run(Unbounded, s, NoHistory, acts);
    StateIsInv(s, acts);
    NewIsIdle(s, t);
    EachInItsCall(Unbounded, s, acts, t);
    Refuses(q, g, t);
    RunSnoc(Unbounded, s, NoHistory, acts, Step(t));
    assert (acts + [Step(t)])[..|acts|] == acts;
  }

  /** What a refusing step does. */
  lemma Refuses(s: Ring, h: History, t: Tid)
    requires Inv(s, h) && t in s.pcs && s.size > 0 && |s.slots| == s.size
    ensures var (s', r) := Next(Unbounded, s, Step(t)); var pc := s.pcs[t];
      && (r.NoBufs? ==>
            && pc.EnqTail? && s' == s.At(t, Idle)
            && var room := s.size - 1 - (s.prodHead - s.consTail);
               if pc.beh.Fixed? then |pc.objs| > room else room == 0)
      && (r.NoEnt? ==>
            && pc.DeqTail? && s' == s.At(t, Idle)
            && var filled := s.prodTail - s.consHead; if pc.beh.Fixed? then pc.want > filled else filled == 0)
  {
    hide Tiles, ClaimsMatch, Holds;
    assert Local(s, h, s.pcs[t]);
    hide Locals;
  }

  // The same for dequeues.

  lemma DequeueLeaves(s: Ring, h: History, t: Tid)
    requires Inv(s, h) && t in s.pcs && s.size > 0 && |s.slots| == s.size
    requires Next(Unbounded, s, Step(t)).1.Dequeued?
    ensures var pc, r := s.pcs[t], Next(Unbounded, s, Step(t)).1;
      && pc.DeqCopy? && |r.objs| == pc.n && 1 <= pc.n <= pc.want && (pc.beh.Fixed? ==> pc.n == pc.want)
      && pc.head == s.consTail
  {
    hide Tiles, ClaimsMatch, Holds;
    assert Local(s, h, s.pcs[t]);
    hide Locals;
  }

  lemma DequeueReturns(s: Ring, acts: seq<Action>, t: Tid) returns (j: nat)
    requires New(s) && t in s.pcs && Answer(Unbounded, s, acts, Step(t)).Dequeued?
    ensures var c, objs := Current(Unbounded, s, acts, t), Answer(Unbounded, s, acts, Step(t)).objs;
      var put, got := Published(Unbounded, s, acts), Received(Unbounded, s, acts);
      && c.DeqCall? && c.since < j < |acts|
      && acts[c.since] == Dequeue(t, c.want, c.beh) && acts[j] == Step(t)
      && |objs| == Part(c.want, After(Unbounded, s, acts[..j]).prodTail - |got|)
      && 1 <= |objs| <= c.want && (c.beh.Fixed? ==> |objs| == c.want)
      && |got| + |objs| <= |put| && objs == put[|got|..|got| + |objs|]
  {
    hide After, Answer, New, MeasuresFill, Current, Published, Received;
    var n, got := |Answer(Unbounded, s, acts, Step(t)).objs|, Received(Unbounded, s, acts);
    DequeueKnows(s, acts, t);
    CallHasBegun(Unbounded, s, acts, t);
    GivenAreOldest(s, acts, t);
    j :| MeasuresFill(s, acts, t, |got|, n, j);
    FillOfCall(s, acts, t, |got|, n, j);
  }

  lemma DequeueKnows(s: Ring, acts: seq<Action>, t: Tid)
    requires New(s) && t in s.pcs && Answer(Unbounded, s, acts, Step(t)).Dequeued?
    ensures var c, n := Current(Unbounded, s, acts, t), |Answer(Unbounded, s, acts, Step(t)).objs|;
      && FillIsMeasured(s, acts, t, |Received(Unbounded, s, acts)|, n)
      && c.DeqCall? && 1 <= n <= c.want && (c.beh.Fixed? ==> n == c.want)
  {
    hide Run, Next, New, Inv, RoomIsMeasured, FillIsMeasured, Published, Received, Current;
    var q := After(Unbounded, s, acts);
    StateIsInv(s, acts);
    NewIsIdle(s, t);
    EachInItsCall(Unbounded, s, acts, t);
    DequeueLeaves(q, Run(Unbounded, s, NoHistory, acts).1, t);
    AllMeasured(s, acts, t);
    FifoOfCalls(s, acts);
  }

  lemma FillOfCall(s: Ring, acts: seq<Action>, t: Tid, head: int, n: int, j: nat)
    requires MeasuresFill(s, acts, t, head, n, j)
    ensures var c := Current(Unbounded, s, acts, t);
      && c.DeqCall? && c.since < j < |acts| && acts[j] == Step(t)
      && n == Part(c.want, After(Unbounded, s, acts[..j]).prodTail - head)
  {
    hide Run, Current;
    CallHasBegun(Unbounded, s, acts[..j], t);
  }

  /** What is given out next is the oldest objects. */
  lemma GivenAreOldest(s: Ring, acts: seq<Action>, t: Tid)
    requires New(s) && t in s.pcs && Answer(Unbounded, s, acts, Step(t)).Dequeued?
    ensures var put, got := Published(Unbounded, s, acts), Received(Unbounded, s, acts);
      var objs := Answer(Unbounded, s, acts, Step(t)).objs;
      |got| + |objs| <= |put| && objs == put[|got|..|got| + |objs|]
  {
    hide *;
    var all := acts + [Step(t)];
    assert all[..|all| - 1] == acts && all[|all| - 1] == Step(t);
    FifoOfCalls(s, all);
    BothSnoc(s, all);
    var got, objs := Received(Unbounded, s, acts), Answer(Unbounded, s, acts, Step(t)).objs;
    assert objs == (got + objs)[|got|..];
  }

  /** What the last action has added. */
  lemma BothSnoc(s: Ring, acts: seq<Action>)
    requires acts != []
    ensures var b, a := acts[..|acts| - 1], acts[|acts| - 1];
      var r := Answer(Unbounded, s, b, a);
      && (!r.Enqueued? ==> Published(Unbounded, s, acts) == Published(Unbounded, s, b))
      && Received(Unbounded, s, acts) == Received(Unbounded, s, b) + if r.Dequeued? then r.objs else []
  {
    hide Answer, Current;
  }

  lemma DequeueRefuses(s: Ring, acts: seq<Action>, t: Tid)
    requires New(s) && t in s.pcs && Answer(Unbounded, s, acts, Step(t)).NoEnt?
    ensures var c, q := Current(Unbounded, s, acts, t), After(Unbounded, s, acts);
      var filled := q.prodTail - q.consHead;
      && c.DeqCall? && (if c.beh.Fixed? then c.want > filled else filled == 0)
      && Received(Unbounded, s, acts + [Step(t)]) == Received(Unbounded, s, acts)
      && After(Unbounded, s, acts + [Step(t)]) == q.At(t, Idle)
  {
    hide Run, Next, New, Inv;
    var (q, g) := Run(Unbounded, s, NoHistory, acts);
    StateIsInv(s, acts);
    NewIsIdle(s, t);
    EachInItsCall(Unbounded, s, acts, t);
    Refuses(q, g, t);
    RunSnoc(Unbounded, s, NoHistory, acts, Step(t));
    assert (acts + [Step(t)])[..|acts|] == acts;
  }

  // ------------------------------------------------------- the watermark

  /** The watermark that the run has set last: at first, and for a count of 0, the size. */
  ghost function LastMark(s: Ring, acts: seq<Action>): nat {
    if acts == [] then s.size
    else
      var k := |acts| - 1;
      var a := acts[k];
      if a.SetWaterMark? && a.t in s.pcs && Current(Unbounded, s, acts[..k], a.t).NoCall? && a.count < s.size then
        if a.count == 0 then s.size else a.count
      else LastMark(s, acts[..k])
  }

  lemma StepOfMark(s: Ring, a: Action)
    requires Enabled(s, a) && s.size > 0 && |s.slots| == s.size
    ensures Next(Unbounded, s, a).0.watermark
      == if a.SetWaterMark? && a.count < s.size then if a.count == 0 then s.size else a.count else s.watermark
  {
    if a.Step? {
      var pc := s.pcs[a.t];
      if pc.EnqTail? || pc.EnqCas? || pc.EnqCopy? {
        hide ReadProdTail, CasConsHead, CopyOut;
      } else {
        hide ReadConsTail, CasProdHead, CopyIn;
      }
    }
  }

  lemma {:induction false} MarkIsLastSet(s: Ring, acts: seq<Action>)
    requires New(s)
    ensures After(Unbounded, s, acts).watermark == LastMark(s, acts)
    decreases |acts|
  {
    if acts != [] {
      var k := |acts| - 1;
      var a := acts[k];
      MarkIsLastSet(s, acts[..k]);
      LastAction(s, acts);
      var q := After(Unbounded, s, acts[..k]);
      MarkEnabled(s, acts[..k], a);
      hide New, Next, Run, After, Answer, Current, Enabled;
      if Enabled(q, a) {
        StepOfMark(q, a);
      }
    }
  }

  /** A watermark may be set by a thread that is in no call. */
  lemma MarkEnabled(s: Ring, acts: seq<Action>, a: Action)
    requires New(s)
    ensures a.SetWaterMark? ==>
      (Enabled(After(Unbounded, s, acts), a) <==> a.t in s.pcs && Current(Unbounded, s, acts, a.t).NoCall?)
  {
    SameThreads(Unbounded, s, acts);
    if a.t in s.pcs {
      NewIsIdle(s, a.t);
      EachInItsCall(Unbounded, s, acts, a.t);
    }
    hide Run, Current, New;
  }

  // ------------------------------------------------------- the same calls on 32-bit indices

  lemma {:induction false} FreshPrefix(s: Ring, h: History, b: seq<Action>, a: Action)
    requires FreshRun(s, h, b + [a])
    ensures FreshRun(s, h, b) && Fresh(Run(Unbounded, s, h, b).0, a)
    decreases |b|
  {
    hide Fresh, Do;
    if b == [] {
      assert (b + [a])[0] == a;
    } else {
      var (s', h') := Do(Unbounded, s, h, b[0]);
      assert (b + [a])[0] == b[0] && (b + [a])[1..] == b[1..] + [a];
      FreshPrefix(s', h', b[1..], a);
    }
  }

  lemma NewIsWrapped(s: Ring)
    requires New(s)
    ensures WrapRing(s) == s && WrapHistory(NoHistory) == NoHistory
  {
    assert WrapRing(s).pcs == s.pcs;
  }

  /** The next answer of the 32-bit code. */
  lemma CodeAnswers(s: Ring, acts: seq<Action>, a: Action)
    requires New(s) && IsPow2(s.size) && s.size <= M32 && FreshRun(s, NoHistory, acts + [a])
    ensures Answer(Bits32, s, acts, a) == Answer(Unbounded, s, acts, a)
  {
    hide *;
    var (q, g) := Run(Unbounded, s, NoHistory, acts);
    FreshPrefix(s, NoHistory, acts, a);
    NewIsInv(s);
    StateIsInv(s, acts);
    NewIsWrapped(s);
    PowersDivide32(s.size);
    CodeRefinesProtocol(s, NoHistory, acts);
    StepAnswers(s, acts, a, q, g);
  }

  lemma StepAnswers(s: Ring, acts: seq<Action>, a: Action, q: Ring, g: History)
    requires Inv(q, g) && q.size > 0 && |q.slots| == q.size && Divides32(q.size) && Fresh(q, a)
    requires Run(Unbounded, s, NoHistory, acts).0 == q && Run(Bits32, s, NoHistory, acts).0 == WrapRing(q)
    ensures Answer(Bits32, s, acts, a) == Answer(Unbounded, s, acts, a)
  {
    hide Run, Next, Inv, Fresh, Divides32, WrapRing, Enabled;
    WrapShape(q);
    EnabledWraps(q, a);
    if Enabled(q, a) {
      WrapCommutes(q, g, a);
    }
  }

  lemma EnabledWraps(q: Ring, a: Action)
    ensures Enabled(WrapRing(q), a) <==> Enabled(q, a)
  {
  }

  /** In every run in which no thread sleeps through a cycle of the 32-bit indices, the code is
      in the same calls, publishes and gives out the same objects. */
  lemma {:induction false} CodeHasTheseCalls(s: Ring, acts: seq<Action>)
    requires New(s) && IsPow2(s.size) && s.size <= M32 && FreshRun(s, NoHistory, acts)
    ensures forall t :: Current(Bits32, s, acts, t) == Current(Unbounded, s, acts, t)
    ensures Published(Bits32, s, acts) == Published(Unbounded, s, acts)
    ensures Received(Bits32, s, acts) == Received(Unbounded, s, acts)
    decreases |acts|
  {
    if acts != [] {
      var k := |acts| - 1;
      Prefixes(acts);
      FreshPrefix(s, NoHistory, acts[..k], acts[k]);
      CodeHasTheseCalls(s, acts[..k]);
      CodeAnswers(s, acts[..k], acts[k]);
      hide Answer, FreshRun, New, Advance, Batch, Given;
    }
  }

  /** First in, first out for the code: what its dequeues have returned is the first objects of
      what its enqueues that have returned put in, and at most size - 1 are in between. */
  lemma CodeFifoOfCalls(s: Ring, acts: seq<Action>)
    requires New(s) && IsPow2(s.size) && s.size <= M32 && FreshRun(s, NoHistory, acts)
    ensures var put, got := Published(Bits32, s, acts), Received(Bits32, s, acts);
      got <= put && |put| - |got| <= s.size - 1
  {
    hide *;
    CodeHasTheseCalls(s, acts);
    FifoOfCalls(s, acts);
  }
}
