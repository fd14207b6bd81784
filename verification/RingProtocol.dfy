/** The multi-producer / multi-consumer ring as a machine of atomic steps.

    Any number of threads interleave. One action is one access to shared memory: a read
    of an index, a compare-and-set of a head, the copy of one slot, or the publication of
    a tail. The machine is parametrised by the width of its index arithmetic, so the
    32-bit code and the ideal protocol on unbounded indices are the same program. */
module RingProtocol {
  import opened Bits

  type Ptr = nat
  type Tid = nat

  /** Index arithmetic: unbounded integers, or uint32_t. */
  datatype Width = Unbounded | Bits32

  function Wrap(w: Width, x: int): int {
    if w.Unbounded? then x else U32(x)
  }

  /** RTE_RING_QUEUE_FIXED and RTE_RING_QUEUE_VARIABLE. */
  datatype Behavior = Fixed | Variable

  /** Where a thread stands, with its local variables. `EnqTail` has read prod.head and is
      about to read cons.tail; `EnqCas` has done so and is about to compare-and-set prod.head;
      `EnqCopy` owns the claim [head, head+n) and has copied `done` slots of it; then it reads
      the watermark, which makes `ret`, and waits for its turn. */
  datatype PC =
    | Idle
    | EnqHead(objs: seq<Ptr>, beh: Behavior)
    | EnqTail(objs: seq<Ptr>, beh: Behavior, head: int)
    | EnqCas(objs: seq<Ptr>, beh: Behavior, head: int, tail: int, free: int, n: int)
    | EnqCopy(objs: seq<Ptr>, beh: Behavior, head: int, tail: int, free: int, n: int, done: nat, ret: Ret)
    | DeqHead(want: nat, beh: Behavior)
    | DeqTail(want: nat, beh: Behavior, head: int)
    | DeqCas(want: nat, beh: Behavior, head: int, n: int)
    | DeqCopy(want: nat, beh: Behavior, head: int, n: int, got: seq<Ptr>)

  datatype Ring = Ring(
    size: nat, watermark: nat,
    prodHead: int, prodTail: int, consHead: int, consTail: int,
    slots: seq<Ptr>, pcs: map<Tid, PC>)
  {
    function Mask(): int { size - 1 }

    function At(t: Tid, pc: PC): Ring { this.(pcs := pcs[t := pc]) }
  }

  /** What a call returns; `Pending` while it is still running. `Enqueued` carries the
      count and whether the watermark branch (EDQUOT / QUOT_EXCEED) was taken; `Marked` says
      whether a watermark was accepted. */
  datatype Ret =
    | Pending
    | Enqueued(count: nat, quota: bool)
    | NoBufs
    | Dequeued(objs: seq<Ptr>)
    | NoEnt
    | Marked(ok: bool)

  datatype Action =
    | Enqueue(t: Tid, objs: seq<Ptr>, beh: Behavior)
    | Dequeue(t: Tid, want: nat, beh: Behavior)
    | SetWaterMark(t: Tid, count: nat)
    | Step(t: Tid)

  /** A thread starts one call at a time, for a strictly positive number of objects. */
  predicate Enabled(s: Ring, a: Action) {
    && a.t in s.pcs
    && (a.Enqueue? ==> s.pcs[a.t].Idle? && 1 <= |a.objs| < M32)
    && (a.Dequeue? ==> s.pcs[a.t].Idle? && 1 <= a.want < M32)
    && (a.SetWaterMark? ==> s.pcs[a.t].Idle?)
  }

  /** The slot of index x in a ring of m slots. */
  function Pos(x: int, m: nat): (p: nat)
    requires m > 0
    ensures p < m
  {
    x % m
  }

  function Slot(s: Ring, index: int): (i: nat)
    requires s.size > 0
    ensures i < s.size
  {
    Pos(index, s.size)
  }

  /** Compare with the space left, and go on to the compare-and-set or give up. */
  function ReadConsTail(w: Width, s: Ring, t: Tid, pc: PC): (Ring, Ret)
    requires pc.EnqTail?
  {
    var free := Wrap(w, s.Mask() + s.consTail - pc.head);
    if |pc.objs| <= free then
      (s.At(t, EnqCas(pc.objs, pc.beh, pc.head, s.consTail, free, |pc.objs|)), Pending)
    else if pc.beh.Fixed? || free == 0 then (s.At(t, Idle), NoBufs)
    else (s.At(t, EnqCas(pc.objs, pc.beh, pc.head, s.consTail, free, free)), Pending)
  }

  /** The program point behind a successful compare-and-set. */
  function Claimed(pc: PC): PC
    requires pc.EnqCas?
  {
    EnqCopy(pc.objs, pc.beh, pc.head, pc.tail, pc.free, pc.n, 0, Pending)
  }

  function CasProdHead(w: Width, s: Ring, t: Tid, pc: PC): (Ring, Ret)
    requires pc.EnqCas?
  {
    if s.prodHead == pc.head then
      (s.(prodHead := Wrap(w, pc.head + pc.n)).At(t, Claimed(pc)), Pending)
    else
      (s.At(t, EnqHead(pc.objs, pc.beh)), Pending)
  }

  /** Copy one object in; or compare with the watermark; or publish the tail if it is this
      claim's turn; or spin. */
  function CopyIn(w: Width, s: Ring, t: Tid, pc: PC): (Ring, Ret)
    requires pc.EnqCopy? && s.size > 0 && |s.slots| == s.size
  {
    if pc.done < pc.n then
      var v := if pc.done < |pc.objs| then pc.objs[pc.done] else 0;
      (s.(slots := s.slots[Slot(s, pc.head + pc.done) := v]).At(t, pc.(done := pc.done + 1)), Pending)
    else if pc.ret.Pending? then
      (s.At(t, pc.(ret := Enqueued(pc.done, s.size - pc.free + pc.n > s.watermark))), Pending)
    else if s.prodTail == pc.head then
      (s.(prodTail := Wrap(w, pc.head + pc.n)).At(t, Idle), pc.ret)
    else (s, Pending)
  }

  function ReadProdTail(w: Width, s: Ring, t: Tid, pc: PC): (Ring, Ret)
    requires pc.DeqTail?
  {
    var entries := Wrap(w, s.prodTail - pc.head);
    if pc.want <= entries then (s.At(t, DeqCas(pc.want, pc.beh, pc.head, pc.want)), Pending)
    else if pc.beh.Fixed? || entries == 0 then (s.At(t, Idle), NoEnt)
    else (s.At(t, DeqCas(pc.want, pc.beh, pc.head, entries)), Pending)
  }

  function CasConsHead(w: Width, s: Ring, t: Tid, pc: PC): (Ring, Ret)
    requires pc.DeqCas?
  {
    if s.consHead == pc.head then
      (s.(consHead := Wrap(w, pc.head + pc.n)).At(t, DeqCopy(pc.want, pc.beh, pc.head, pc.n, [])), Pending)
    else
      (s.At(t, DeqHead(pc.want, pc.beh)), Pending)
  }

  /** Copy one object out; or release the slots if it is this claim's turn; or spin. */
  function CopyOut(w: Width, s: Ring, t: Tid, pc: PC): (Ring, Ret)
    requires pc.DeqCopy? && s.size > 0 && |s.slots| == s.size
  {
    if |pc.got| < pc.n then
      (s.At(t, pc.(got := pc.got + [s.slots[Slot(s, pc.head + |pc.got|)]])), Pending)
    else if s.consTail == pc.head then
      (s.(consTail := Wrap(w, pc.head + pc.n)).At(t, Idle), Dequeued(pc.got))
    else (s, Pending)
  }

  /** One atomic action of the ring under index width `w`. */
  function Next(w: Width, s: Ring, a: Action): (Ring, Ret)
    requires Enabled(s, a) && s.size > 0 && |s.slots| == s.size
  {
    match a
    case Enqueue(t, objs, beh) => (s.At(t, EnqHead(objs, beh)), Pending)
    case Dequeue(t, want, beh) => (s.At(t, DeqHead(want, beh)), Pending)
    case SetWaterMark(t, count) =>
      if count >= s.size then (s, Marked(false))
      else (s.(watermark := if count == 0 then s.size else count), Marked(true))
    case Step(t) =>
      var pc := s.pcs[t];
      match pc
      case Idle => (s, Pending)
      case EnqHead(objs, beh) => (s.At(t, EnqTail(objs, beh, s.prodHead)), Pending)
      case EnqTail(_, _, _) => ReadConsTail(w, s, t, pc)
      case EnqCas(_, _, _, _, _, _) => CasProdHead(w, s, t, pc)
      case EnqCopy(_, _, _, _, _, _, _, _) => CopyIn(w, s, t, pc)
      case DeqHead(want, beh) => (s.At(t, DeqTail(want, beh, s.consHead)), Pending)
      case DeqTail(_, _, _) => ReadProdTail(w, s, t, pc)
      case DeqCas(_, _, _, _) => CasConsHead(w, s, t, pc)
      case DeqCopy(_, _, _, _, _) => CopyOut(w, s, t, pc)
  }

  /** A claim made by a successful compare-and-set: thread t owns [head, head+n). */
  datatype Claim = Claim(t: Tid, head: int, n: int)

  /** History: every object ever claimed for enqueueing, in CAS order; every object ever
      returned by a dequeue, in return order; the claims in flight, oldest first. */
  datatype History = History(log: seq<Ptr>, out: seq<Ptr>, prods: seq<Claim>, conss: seq<Claim>)

  /** What the history gains from an action, read off the states around it. */
  function Record(s: Ring, h: History, a: Action, s': Ring, r: Ret): History {
    if !a.Step? || a.t !in s.pcs || a.t !in s'.pcs then h
    else
      var pc, pc' := s.pcs[a.t], s'.pcs[a.t];
      if pc.EnqCas? && pc'.EnqCopy? then
        h.(log := h.log + (if 0 <= pc.n <= |pc.objs| then pc.objs[..pc.n] else []),
           prods := h.prods + [Claim(a.t, pc.head, pc.n)])
      else if r.Enqueued? && |h.prods| > 0 then h.(prods := h.prods[1..])
      else if pc.DeqCas? && pc'.DeqCopy? then h.(conss := h.conss + [Claim(a.t, pc.head, pc.n)])
      else if r.Dequeued? && |h.conss| > 0 then h.(out := h.out + r.objs, conss := h.conss[1..])
      else h
  }

  /** `cs` cuts [from, to) into consecutive nonempty intervals, in order. */
  ghost predicate Tiles(cs: seq<Claim>, from: int, to: int) {
    && from <= to
    && (cs == [] ==> from == to)
    && (cs != [] ==> cs[0].head == from && cs[|cs| - 1].head + cs[|cs| - 1].n == to)
    && (forall i :: 0 <= i < |cs| ==> from <= cs[i].head && 1 <= cs[i].n && cs[i].head + cs[i].n <= to)
    && (forall i, j :: 0 <= i < j < |cs| ==> cs[i].head + cs[i].n <= cs[j].head)
    && (forall i, j :: 0 <= i && j == i + 1 && j < |cs| ==> cs[i].head + cs[i].n == cs[j].head)
  }

  /** Does this program point own a producer (consumer) claim? */
  predicate Owns(pc: PC, producer: bool) {
    if producer then pc.EnqCopy? else pc.DeqCopy?
  }

  /** `cs` lists exactly the claims of the threads that are copying. */
  ghost predicate ClaimsMatch(pcs: map<Tid, PC>, cs: seq<Claim>, producer: bool) {
    && (forall c :: c in cs ==>
          c.t in pcs && Owns(pcs[c.t], producer) && pcs[c.t].head == c.head && pcs[c.t].n == c.n)
    && (forall t :: t in pcs && Owns(pcs[t], producer) ==> Claim(t, pcs[t].head, pcs[t].n) in cs)
  }

  /** Slots of the unwrapped indices [from, to) hold the objects logged there. */
  ghost predicate Holds(s: Ring, h: History, from: int, to: int) {
    && s.size > 0 && |s.slots| == s.size && 0 <= from && to <= |h.log|
    && forall i :: from <= i < to ==> s.slots[Slot(s, i)] == h.log[i]
  }

  ghost predicate Bounds(s: Ring) {
    0 <= s.consTail <= s.consHead <= s.prodTail <= s.prodHead <= s.consTail + s.Mask()
  }

  /** All that was asked for if there is as much, or else what there is. */
  function Part(asked: nat, there: int): int {
    if asked <= there then asked else there
  }

  /** What a thread's local variables promise at each program point. */
  ghost predicate Local(s: Ring, h: History, pc: PC) {
    match pc
    case Idle => true
    case EnqHead(objs, _) => 1 <= |objs| < M32
    case EnqTail(objs, _, head) => 1 <= |objs| < M32 && 0 <= head <= s.prodHead
    case EnqCas(objs, beh, head, tail, free, n) =>
      && 1 <= n && |objs| < M32 && n == Part(|objs|, free) && (beh.Fixed? ==> n == |objs|)
      && 0 <= head <= s.prodHead && free == s.Mask() + tail - head && 0 <= tail <= s.consTail
    case EnqCopy(objs, beh, head, tail, free, n, done, ret) =>
      && free == s.Mask() + tail - head && 0 <= tail <= s.consTail
      && (ret.Pending? || (done == n && ret.Enqueued? && ret.count == n))
      && 1 <= n && |objs| < M32 && n == Part(|objs|, free) && free <= s.Mask() && done <= n
      && (beh.Fixed? ==> n == |objs|)
      && 0 <= s.prodTail <= head && head + n <= s.prodHead <= |h.log|
      && h.log[head..head + n] == objs[..n]
      && Holds(s, h, head, head + done)
    case DeqHead(want, _) => 1 <= want < M32
    case DeqTail(want, _, head) => 1 <= want < M32 && 0 <= head <= s.consHead
    case DeqCas(want, beh, head, n) =>
      1 <= n <= want < M32 && 0 <= head <= s.consHead && head + n <= s.prodTail && (beh.Fixed? ==> n == want)
    case DeqCopy(want, beh, head, n, got) =>
      && 1 <= n <= want < M32 && |got| <= n && (beh.Fixed? ==> n == want)
      && 0 <= s.consTail <= head && head + n <= s.consHead <= |h.log|
      && got == h.log[head..head + |got|]
  }

  /** The shared part of the invariant: indices, claims and slots. */
  ghost predicate Shared(s: Ring, h: History) {
    && s.size > 0 && |s.slots| == s.size
    && Bounds(s)
    && |h.log| == s.prodHead
    && h.out == h.log[..s.consTail]
    && Tiles(h.prods, s.prodTail, s.prodHead)
    && Tiles(h.conss, s.consTail, s.consHead)
    && Holds(s, h, s.consTail, s.prodTail)
  }

  ghost predicate Locals(s: Ring, h: History) {
    forall t :: t in s.pcs ==> Local(s, h, s.pcs[t])
  }

  /** The invariant of the ideal protocol. */
  ghost predicate Inv(s: Ring, h: History) {
    && Shared(s, h)
    && ClaimsMatch(s.pcs, h.prods, true)
    && ClaimsMatch(s.pcs, h.conss, false)
    && Locals(s, h)
  }

  /** rte_ring_create: all indices zero, watermark disabled, every thread idle. */
  function Init(size: nat, slots: seq<Ptr>, threads: set<Tid>): Ring {
    Ring(size, size, 0, 0, 0, 0, slots, map t | t in threads :: Idle)
  }

  const NoHistory := History([], [], [], [])

  lemma InitInv(size: nat, slots: seq<Ptr>, threads: set<Tid>)
    requires size > 0 && |slots| == size
    ensures Inv(Init(size, slots, threads), NoHistory)
  {
  }

  // ---------------------------------------------------------------- one step keeps Inv

  /** Two indices less than `size` apart occupy different slots. */
  lemma SlotInjective(s: Ring, i: int, j: int)
    requires s.size > 0 && i - j < s.size && j - i < s.size && i != j
    ensures Slot(s, i) != Slot(s, j)
  {
    if Slot(s, i) == Slot(s, j) {
      var d := i / s.size - j / s.size;
      assert i - j == s.size * d by {
        assert i == s.size * (i / s.size) + i % s.size;
        assert j == s.size * (j / s.size) + j % s.size;
        assert s.size * d == s.size * (i / s.size) - s.size * (j / s.size);
      }
      if d >= 1 {
        MulAtLeast(s.size, d);
      } else if d <= -1 {
        MulAtLeast(s.size, -d);
      }
    }
  }

  lemma TilesAppend(cs: seq<Claim>, from: int, to: int, c: Claim)
    requires Tiles(cs, from, to) && c.head == to && c.n >= 1
    ensures Tiles(cs + [c], from, to + c.n)
  {
  }

  lemma TilesPop(cs: seq<Claim>, from: int, to: int)
    requires Tiles(cs, from, to) && cs != []
    ensures Tiles(cs[1..], from + cs[0].n, to)
    ensures forall c :: c in cs && c != cs[0] <==> c in cs[1..]
  {
    var rest := cs[1..];
    forall i | 0 <= i < |rest|
      ensures from + cs[0].n <= rest[i].head && rest[i] != cs[0]
    {
      assert cs[0].head + cs[0].n <= cs[i + 1].head;
    }
  }

  /** The claim whose head is the tail is the oldest claim in flight. */
  lemma OldestClaim(cs: seq<Claim>, from: int, to: int, c: Claim)
    requires Tiles(cs, from, to) && c in cs && c.head == from
    ensures cs != [] && cs[0] == c
  {
    forall i | 0 < i < |cs|
      ensures cs[i] != c
    {
      assert cs[0].head + cs[0].n <= cs[i].head;
    }
  }

  lemma ClaimsDisjoint(cs: seq<Claim>, from: int, to: int, c: Claim, d: Claim)
    requires Tiles(cs, from, to) && c in cs && d in cs && c != d
    ensures c.head + c.n <= d.head || d.head + d.n <= c.head
  {
    var i :| 0 <= i < |cs| && cs[i] == c;
    var j :| 0 <= j < |cs| && cs[j] == d;
    assert i < j || j < i;
  }

  ghost predicate StepTo(s: Ring, h: History, a: Action, s': Ring, r: Ret, h': History) {
    && Enabled(s, a) && s.size > 0 && |s.slots| == s.size
    && Next(Unbounded, s, a) == (s', r)
    && h' == Record(s, h, a, s', r)
  }

  lemma ClaimsSame(pcs: map<Tid, PC>, cs: seq<Claim>, producer: bool, t: Tid, pc: PC)
    requires ClaimsMatch(pcs, cs, producer) && t in pcs
    requires Owns(pcs[t], producer) == Owns(pc, producer)
    requires Owns(pc, producer) ==> pc.head == pcs[t].head && pc.n == pcs[t].n
    ensures ClaimsMatch(pcs[t := pc], cs, producer)
  {
  }

  lemma ClaimsPush(pcs: map<Tid, PC>, cs: seq<Claim>, producer: bool, t: Tid, pc: PC)
    requires ClaimsMatch(pcs, cs, producer) && t in pcs
    requires !Owns(pcs[t], producer) && Owns(pc, producer)
    ensures ClaimsMatch(pcs[t := pc], cs + [Claim(t, pc.head, pc.n)], producer)
  {
  }

  lemma ClaimsPop(pcs: map<Tid, PC>, cs: seq<Claim>, producer: bool, t: Tid, pc: PC)
    requires ClaimsMatch(pcs, cs, producer) && t in pcs && Owns(pcs[t], producer) && !Owns(pc, producer)
    requires cs != [] && cs[0] == Claim(t, pcs[t].head, pcs[t].n)
    requires forall c :: c in cs && c != cs[0] <==> c in cs[1..]
    ensures ClaimsMatch(pcs[t := pc], cs[1..], producer)
  {
  }

  /** What a thread at rest relies on: indices and the log only grow, and its claim is
      left alone. */
  lemma LocalKept(s: Ring, h: History, s': Ring, h': History, pc: PC)
    requires Local(s, h, pc) && Grows(s, h, s', h')
    requires pc.EnqCopy? ==> s'.prodTail <= pc.head && Holds(s', h', pc.head, pc.head + pc.done)
    requires pc.DeqCopy? ==> s'.consTail <= pc.head
    ensures Local(s', h', pc)
  {
  }

  ghost predicate Grows(s: Ring, h: History, s': Ring, h': History) {
    && s.size == s'.size
    && s.prodHead <= s'.prodHead <= |h'.log| && s.prodTail <= s'.prodTail
    && s.consHead <= s'.consHead <= |h'.log| && s.consTail <= s'.consTail
    && h.log <= h'.log
  }

  /** All threads but t stay where they are; t moves to a point whose promise holds. */
  lemma LocalsKept(s: Ring, h: History, s': Ring, h': History, t: Tid)
    requires Locals(s, h) && Grows(s, h, s', h')
    requires t in s.pcs && t in s'.pcs && s'.pcs == s.pcs[t := s'.pcs[t]]
    requires Local(s', h', s'.pcs[t])
    requires forall u :: u in s.pcs && u != t && s.pcs[u].EnqCopy? ==>
      s'.prodTail <= s.pcs[u].head && Holds(s', h', s.pcs[u].head, s.pcs[u].head + s.pcs[u].done)
    requires forall u :: u in s.pcs && u != t && s.pcs[u].DeqCopy? ==> s'.consTail <= s.pcs[u].head
    ensures Locals(s', h')
  {
    hide Grows, Holds;
    forall u | u in s'.pcs
      ensures Local(s', h', s'.pcs[u])
    {
      if u != t {
        LocalKept(s, h, s', h', s.pcs[u]);
      }
    }
  }

  /** Claims written so far survive as long as the slots and the log prefix do. */
  lemma ClaimsHold(s: Ring, h: History, s': Ring, h': History)
    requires Locals(s, h) && s.size == s'.size && s.slots == s'.slots && h.log <= h'.log
    ensures forall u :: u in s.pcs && s.pcs[u].EnqCopy? ==>
      Holds(s', h', s.pcs[u].head, s.pcs[u].head + s.pcs[u].done)
  {
    forall u | u in s.pcs && s.pcs[u].EnqCopy?
      ensures Holds(s', h', s.pcs[u].head, s.pcs[u].head + s.pcs[u].done)
    {
      assert Local(s, h, s.pcs[u]);
    }
  }

  /** LocalsKept for steps that write no slot and do not move a tail past a claim. */
  lemma OthersKept(s: Ring, h: History, s': Ring, h': History, t: Tid)
    requires Locals(s, h) && Grows(s, h, s', h') && s'.slots == s.slots
    requires t in s.pcs && t in s'.pcs && s'.pcs == s.pcs[t := s'.pcs[t]]
    requires Local(s', h', s'.pcs[t])
    requires forall u :: u in s.pcs && u != t && s.pcs[u].EnqCopy? ==> s'.prodTail <= s.pcs[u].head
    requires forall u :: u in s.pcs && u != t && s.pcs[u].DeqCopy? ==> s'.consTail <= s.pcs[u].head
    ensures Locals(s', h')
  {
    ClaimsHold(s, h, s', h');
    LocalsKept(s, h, s', h', t);
  }

  /** No claim in flight lies before its tail. */
  lemma ClaimsAhead(s: Ring, h: History)
    requires Locals(s, h)
    ensures forall u :: u in s.pcs && s.pcs[u].EnqCopy? ==> s.prodTail <= s.pcs[u].head
    ensures forall u :: u in s.pcs && s.pcs[u].DeqCopy? ==> s.consTail <= s.pcs[u].head
  {
    forall u | u in s.pcs
      ensures s.pcs[u].EnqCopy? ==> s.prodTail <= s.pcs[u].head
      ensures s.pcs[u].DeqCopy? ==> s.consTail <= s.pcs[u].head
    {
      assert Local(s, h, s.pcs[u]);
    }
  }

  /** A step that changes nothing but the program point of a thread that owns no claim. */
  lemma KeepLocals(s: Ring, h: History, t: Tid, pc: PC)
    requires Inv(s, h) && t in s.pcs
    requires !s.pcs[t].EnqCopy? && !s.pcs[t].DeqCopy? && !pc.EnqCopy? && !pc.DeqCopy?
    requires Local(s.At(t, pc), h, pc)
    ensures Inv(s.At(t, pc), h)
  {
    hide Tiles, ClaimsMatch;
    ClaimsSame(s.pcs, h.prods, true, t, pc);
    ClaimsSame(s.pcs, h.conss, false, t, pc);
    ClaimsAhead(s, h);
    OthersKept(s, h, s.At(t, pc), h, t);
  }

  lemma Slices(log: seq<Ptr>, a: nat, b: nat)
    requires a <= b <= |log|
    ensures log[..a] + log[a..b] == log[..b]
  {
  }

  lemma Extends(log: seq<Ptr>, more: seq<Ptr>, a: nat)
    requires a <= |log|
    ensures (log + more)[..a] == log[..a]
    ensures (log + more)[|log|..|log| + |more|] == more
    ensures log <= log + more
  {
  }

  lemma DequeueCas(s: Ring, h: History, t: Tid, s': Ring, h': History)
    requires Inv(s, h) && t in s.pcs && s.pcs[t].DeqCas? && s.consHead == s.pcs[t].head
    requires var pc := s.pcs[t];
      && s' == s.(consHead := pc.head + pc.n).At(t, DeqCopy(pc.want, pc.beh, pc.head, pc.n, []))
      && h' == h.(conss := h.conss + [Claim(t, pc.head, pc.n)])
    ensures Inv(s', h')
  {
    hide Tiles, ClaimsMatch;
    var pc := s.pcs[t];
    assert Local(s, h, pc);
    TilesAppend(h.conss, s.consTail, s.consHead, Claim(t, pc.head, pc.n));
    ClaimsSame(s.pcs, h.prods, true, t, s'.pcs[t]);
    ClaimsPush(s.pcs, h.conss, false, t, s'.pcs[t]);
    ClaimsAhead(s, h);
    OthersKept(s, h, s', h', t);
  }

  lemma DequeueCopy(s: Ring, h: History, t: Tid, s': Ring)
    requires Inv(s, h) && t in s.pcs && s.pcs[t].DeqCopy? && |s.pcs[t].got| < s.pcs[t].n
    requires var pc := s.pcs[t];
      s' == s.At(t, pc.(got := pc.got + [s.slots[Slot(s, pc.head + |pc.got|)]]))
    ensures Inv(s', h)
  {
    hide Tiles, ClaimsMatch;
    var pc := s.pcs[t];
    assert Local(s, h, pc);
    assert h.log[pc.head..pc.head + |pc.got| + 1] == pc.got + [h.log[pc.head + |pc.got|]];
    ClaimsSame(s.pcs, h.prods, true, t, s'.pcs[t]);
    ClaimsSame(s.pcs, h.conss, false, t, s'.pcs[t]);
    ClaimsAhead(s, h);
    OthersKept(s, h, s', h, t);
  }

  lemma OthersListed(pcs: map<Tid, PC>, cs: seq<Claim>, producer: bool, t: Tid, from: int)
    requires t in pcs && ClaimsMatch(pcs[t := Idle], cs, producer) && forall c :: c in cs ==> from <= c.head
    ensures forall u :: u in pcs && u != t && Owns(pcs[u], producer) ==> from <= pcs[u].head
  {
    forall u | u in pcs && u != t && Owns(pcs[u], producer)
      ensures from <= pcs[u].head
    {
      assert pcs[t := Idle][u] == pcs[u];
      assert Claim(u, pcs[u].head, pcs[u].n) in cs;
    }
  }

  lemma OwnClaim(pcs: map<Tid, PC>, cs: seq<Claim>, producer: bool, t: Tid)
    requires ClaimsMatch(pcs, cs, producer) && t in pcs && Owns(pcs[t], producer)
    ensures Claim(t, pcs[t].head, pcs[t].n) in cs
  {
  }

  /** The owner of the oldest claim publishes it: the rest still tile what is left. */
  lemma RetireOldest(pcs: map<Tid, PC>, cs: seq<Claim>, producer: bool, t: Tid, from: int, to: int)
    requires Tiles(cs, from, to) && ClaimsMatch(pcs, cs, producer)
    requires t in pcs && Owns(pcs[t], producer) && pcs[t].head == from
    ensures cs != [] && Tiles(cs[1..], from + pcs[t].n, to)
    ensures ClaimsMatch(pcs[t := Idle], cs[1..], producer)
    ensures forall u :: u in pcs && u != t && Owns(pcs[u], producer) ==> from + pcs[t].n <= pcs[u].head
  {
    hide Tiles, ClaimsMatch;
    OwnClaim(pcs, cs, producer, t);
    OldestClaim(cs, from, to, Claim(t, from, pcs[t].n));
    TilesPop(cs, from, to);
    TilesRange(cs[1..], from + pcs[t].n, to);
    ClaimsPop(pcs, cs, producer, t, Idle);
    OthersListed(pcs, cs[1..], producer, t, from + pcs[t].n);
  }

  lemma DequeuePublish(s: Ring, h: History, t: Tid, s': Ring, h': History)
    requires Inv(s, h) && t in s.pcs && s.pcs[t].DeqCopy?
    requires |s.pcs[t].got| >= s.pcs[t].n && s.consTail == s.pcs[t].head
    requires s' == s.(consTail := s.pcs[t].head + s.pcs[t].n).At(t, Idle)
    requires |h.conss| > 0 ==> h' == h.(out := h.out + s.pcs[t].got, conss := h.conss[1..])
    ensures h.conss != [] && Inv(s', h')
  {
    hide Tiles, ClaimsMatch;
    var pc := s.pcs[t];
    assert Local(s, h, pc);
    RetireOldest(s.pcs, h.conss, false, t, s.consTail, s.consHead);
    ClaimsSame(s.pcs, h.prods, true, t, Idle);
    Slices(h.log, s.consTail, s'.consTail);
    ClaimsAhead(s, h);
    OthersKept(s, h, s', h', t);
  }

  lemma EnqueueCas(s: Ring, h: History, t: Tid, s': Ring, h': History)
    requires Inv(s, h) && t in s.pcs && s.pcs[t].EnqCas? && s.prodHead == s.pcs[t].head
    requires var pc := s.pcs[t]; 0 <= pc.n <= |pc.objs| ==>
      && s' == s.(prodHead := pc.head + pc.n).At(t, Claimed(pc))
      && h' == h.(log := h.log + pc.objs[..pc.n], prods := h.prods + [Claim(t, pc.head, pc.n)])
    ensures Inv(s', h')
  {
    hide Tiles, ClaimsMatch;
    var pc := s.pcs[t];
    assert Local(s, h, pc);
    TilesAppend(h.prods, s.prodTail, s.prodHead, Claim(t, pc.head, pc.n));
    Extends(h.log, pc.objs[..pc.n], s.consTail);
    assert Local(s', h', s'.pcs[t]);
    assert Shared(s', h');
    ClaimsPush(s.pcs, h.prods, true, t, s'.pcs[t]);
    ClaimsSame(s.pcs, h.conss, false, t, s'.pcs[t]);
    ClaimsAhead(s, h);
    hide Local, Shared, Holds;
    OthersKept(s, h, s', h', t);
  }

  /** Writing the slot of index `at` disturbs no range that avoids `at`. */
  lemma WriteKeeps(s: Ring, h: History, at: int, from: int, to: int)
    requires Bounds(s) && s.prodTail <= at < s.prodHead <= |h.log|
    requires Holds(s, h, from, to) && s.consTail <= from && to <= s.prodHead
    requires to <= at || at < from
    ensures Holds(s.(slots := s.slots[Slot(s, at) := h.log[at]]), h, from, to)
  {
    forall i | from <= i < to
      ensures s.slots[Slot(s, at) := h.log[at]][Slot(s, i)] == h.log[i]
    {
      SlotInjective(s, i, at);
    }
  }

  lemma EnqueueCopy(s: Ring, h: History, t: Tid, s': Ring)
    requires Inv(s, h) && t in s.pcs && s.pcs[t].EnqCopy? && s.pcs[t].done < s.pcs[t].n
    requires var pc := s.pcs[t]; pc.done < |pc.objs| ==>
      s' == s.(slots := s.slots[Slot(s, pc.head + pc.done) := pc.objs[pc.done]]).At(t, pc.(done := pc.done + 1))
    ensures Inv(s', h)
  {
    hide Tiles, ClaimsMatch;
    var pc := s.pcs[t];
    var at := pc.head + pc.done;
    assert Local(s, h, pc);
    assert h.log[at] == pc.objs[pc.done] by {
      assert h.log[pc.head..pc.head + pc.n][pc.done] == pc.objs[..pc.n][pc.done];
    }
    hide Holds, Locals;
    CopyKeepsOthers(s, h, t);
    WriteKeeps(s, h, at, s.consTail, s.prodTail);
    WriteKeeps(s, h, at, pc.head, at);
    ClaimsSame(s.pcs, h.prods, true, t, s'.pcs[t]);
    ClaimsSame(s.pcs, h.conss, false, t, s'.pcs[t]);
    ClaimsAhead(s, h);
    var s1 := s.(slots := s'.slots);
    HoldsOneMore(s1, h, pc.head, at);
    HoldsMoves(s1, s', h);
    LocalsKept(s, h, s', h, t);
  }

  lemma HoldsOneMore(s: Ring, h: History, from: int, to: int)
    requires Holds(s, h, from, to) && from <= to < |h.log| && s.slots[Slot(s, to)] == h.log[to]
    ensures Holds(s, h, from, to + 1)
  {
  }

  /** Only the slots matter. */
  lemma HoldsMoves(s: Ring, s': Ring, h: History)
    requires s'.size == s.size && s'.slots == s.slots
    ensures forall from, to :: Holds(s, h, from, to) ==> Holds(s', h, from, to)
  {
    forall from, to | Holds(s, h, from, to)
      ensures Holds(s', h, from, to)
    {
      assert forall i: int :: Slot(s', i) == Slot(s, i);
    }
  }

  /** A copy into one claim leaves the slots of every other claim alone. */
  lemma CopyKeepsOthers(s: Ring, h: History, t: Tid)
    requires Inv(s, h) && t in s.pcs && s.pcs[t].EnqCopy? && s.pcs[t].done < s.pcs[t].n
    ensures var at := s.pcs[t].head + s.pcs[t].done;
      0 <= at < |h.log| &&
      forall u :: u in s.pcs && u != t && s.pcs[u].EnqCopy? ==>
        Holds(s.(slots := s.slots[Slot(s, at) := h.log[at]]), h, s.pcs[u].head, s.pcs[u].head + s.pcs[u].done)
  {
    hide Tiles, Holds, ClaimsMatch;
    var pc := s.pcs[t];
    var at := pc.head + pc.done;
    assert Local(s, h, pc);
    forall u | u in s.pcs && u != t && s.pcs[u].EnqCopy?
      ensures Holds(s.(slots := s.slots[Slot(s, at) := h.log[at]]), h, s.pcs[u].head, s.pcs[u].head + s.pcs[u].done)
    {
      var q := s.pcs[u];
      assert Local(s, h, q);
      OwnClaim(s.pcs, h.prods, true, t);
      OwnClaim(s.pcs, h.prods, true, u);
      ClaimsDisjoint(h.prods, s.prodTail, s.prodHead, Claim(u, q.head, q.n), Claim(t, pc.head, pc.n));
      WriteKeeps(s, h, at, q.head, q.head + q.done);
    }
  }

  lemma TilesRange(cs: seq<Claim>, from: int, to: int)
    requires Tiles(cs, from, to)
    ensures forall c :: c in cs ==> from <= c.head && c.head + c.n <= to
  {
  }

  /** The comparison with the watermark concerns nobody else. */
  lemma EnqueueMark(s: Ring, h: History, t: Tid, s': Ring, r: Ret)
    requires Inv(s, h) && t in s.pcs && s.pcs[t].EnqCopy? && s.pcs[t].done >= s.pcs[t].n
    requires r.Enqueued? && r.count == s.pcs[t].done && s' == s.At(t, s.pcs[t].(ret := r))
    ensures Inv(s', h)
  {
    hide Tiles, ClaimsMatch;
    assert Local(s, h, s.pcs[t]);
    ClaimsSame(s.pcs, h.prods, true, t, s'.pcs[t]);
    ClaimsSame(s.pcs, h.conss, false, t, s'.pcs[t]);
    ClaimsAhead(s, h);
    OthersKept(s, h, s', h, t);
  }

  /** Nor does a new watermark. */
  lemma MarkKeeps(s: Ring, h: History, mark: nat)
    requires Inv(s, h)
    ensures Inv(s.(watermark := mark), h)
  {
    var s' := s.(watermark := mark);
    hide Tiles, ClaimsMatch;
    HoldsMoves(s, s', h);
    hide Holds;
    forall t | t in s'.pcs
      ensures Local(s', h, s'.pcs[t])
    {
      assert Local(s, h, s.pcs[t]);
    }
  }

  lemma EnqueuePublish(s: Ring, h: History, t: Tid, s': Ring, h': History)
    requires Inv(s, h) && t in s.pcs && s.pcs[t].EnqCopy?
    requires s.pcs[t].done >= s.pcs[t].n && s.prodTail == s.pcs[t].head
    requires s' == s.(prodTail := s.pcs[t].head + s.pcs[t].n).At(t, Idle)
    requires |h.prods| > 0 ==> h' == h.(prods := h.prods[1..])
    ensures h.prods != [] && Inv(s', h')
  {
    hide Tiles, ClaimsMatch;
    var pc := s.pcs[t];
    assert Local(s, h, pc);
    RetireOldest(s.pcs, h.prods, true, t, s.prodTail, s.prodHead);
    ClaimsSame(s.pcs, h.conss, false, t, Idle);
    ClaimsAhead(s, h);
    OthersKept(s, h, s', h', t);
  }

  /** Only thread t moves, and the ring keeps its size. */
  predicate OnlyMoves(s: Ring, s': Ring, t: Tid) {
    t in s'.pcs && s'.pcs == s.pcs[t := s'.pcs[t]] && s'.size == s.size && |s'.slots| == |s.slots|
  }

  lemma NextMoves(w: Width, s: Ring, a: Action)
    requires Enabled(s, a) && s.size > 0 && |s.slots| == s.size
    ensures OnlyMoves(s, Next(w, s, a).0, a.t)
  {
    hide ReadConsTail, CasProdHead, CopyIn, ReadProdTail, CasConsHead, CopyOut;
    ProducerMoves(w, s, a.t, s.pcs[a.t]);
    ConsumerMoves(w, s, a.t, s.pcs[a.t]);
  }

  lemma ProducerMoves(w: Width, s: Ring, t: Tid, pc: PC)
    requires t in s.pcs && s.pcs[t] == pc && s.size > 0 && |s.slots| == s.size
    ensures pc.EnqTail? ==> OnlyMoves(s, ReadConsTail(w, s, t, pc).0, t)
    ensures pc.EnqCas? ==> OnlyMoves(s, CasProdHead(w, s, t, pc).0, t)
    ensures pc.EnqCopy? ==> OnlyMoves(s, CopyIn(w, s, t, pc).0, t)
  {
  }

  lemma ConsumerMoves(w: Width, s: Ring, t: Tid, pc: PC)
    requires t in s.pcs && s.pcs[t] == pc && s.size > 0 && |s.slots| == s.size
    ensures pc.DeqTail? ==> OnlyMoves(s, ReadProdTail(w, s, t, pc).0, t)
    ensures pc.DeqCas? ==> OnlyMoves(s, CasConsHead(w, s, t, pc).0, t)
    ensures pc.DeqCopy? ==> OnlyMoves(s, CopyOut(w, s, t, pc).0, t)
  {
  }

  /** Starting a call, reading an index, and a compare-and-set that fails. */
  predicate Prepares(s: Ring, a: Action)
    requires a.t in s.pcs
  {
    var pc := s.pcs[a.t];
    || a.Enqueue? || a.Dequeue? || pc.EnqHead? || pc.DeqHead? || pc.EnqTail? || pc.DeqTail?
    || (pc.EnqCas? && s.prodHead != pc.head) || (pc.DeqCas? && s.consHead != pc.head)
  }

  /** They change nothing but the program point. */
  lemma PreparesMoves(s: Ring, h: History, a: Action, s': Ring, r: Ret, h': History)
    requires StepTo(s, h, a, s', r, h') && Prepares(s, a)
    ensures var pc := s.pcs[a.t];
      && !pc.EnqCopy? && !pc.DeqCopy? && a.t in s'.pcs && s' == s.At(a.t, s'.pcs[a.t]) && h' == h
      && !s'.pcs[a.t].EnqCopy? && !s'.pcs[a.t].DeqCopy?
  {
  }

  lemma PreparesLocal(s: Ring, h: History, a: Action, s': Ring, r: Ret, h': History)
    requires Inv(s, h) && StepTo(s, h, a, s', r, h') && Prepares(s, a) && a.t in s'.pcs
    ensures Local(s', h, s'.pcs[a.t])
  {
    hide Tiles, ClaimsMatch, Holds;
    assert Local(s, h, s.pcs[a.t]);
    hide Locals;
  }

  lemma PreparesKeepsInv(s: Ring, h: History, a: Action, s': Ring, r: Ret, h': History)
    requires Inv(s, h) && StepTo(s, h, a, s', r, h') && Prepares(s, a)
    ensures Inv(s', h')
  {
    assert Enabled(s, a) && a.t in s.pcs;
    hide Inv, StepTo, Prepares, Local;
    PreparesMoves(s, h, a, s', r, h');
    PreparesLocal(s, h, a, s', r, h');
    KeepLocals(s, h, a.t, s'.pcs[a.t]);
  }

  lemma ReturnsCount(s: Ring, h: History, t: Tid)
    requires Inv(s, h) && t in s.pcs && s.pcs[t].EnqCopy? && !s.pcs[t].ret.Pending?
    ensures s.pcs[t].ret.Enqueued? && s.pcs[t].ret.count == s.pcs[t].n == s.pcs[t].done
  {
    assert Local(s, h, s.pcs[t]);
  }

  lemma ProducerKeepsInv(s: Ring, h: History, a: Action, s': Ring, r: Ret, h': History)
    requires Inv(s, h) && StepTo(s, h, a, s', r, h') && a.Step? && !Prepares(s, a)
    requires var pc := s.pcs[a.t]; pc.EnqCas? || pc.EnqCopy?
    ensures Inv(s', h')
  {
    hide Inv;
    var pc := s.pcs[a.t];
    if pc.EnqCas? {
      EnqueueCas(s, h, a.t, s', h');
    } else if pc.done < pc.n {
      EnqueueCopy(s, h, a.t, s');
    } else if pc.ret.Pending? {
      EnqueueMark(s, h, a.t, s', s'.pcs[a.t].ret);
    } else if s.prodTail == pc.head {
      ReturnsCount(s, h, a.t);
      EnqueuePublish(s, h, a.t, s', h');
    }
  }

  lemma ConsumerKeepsInv(s: Ring, h: History, a: Action, s': Ring, r: Ret, h': History)
    requires Inv(s, h) && StepTo(s, h, a, s', r, h') && a.Step? && !Prepares(s, a)
    requires var pc := s.pcs[a.t]; pc.DeqCas? || pc.DeqCopy?
    ensures Inv(s', h')
  {
    hide Inv;
    var pc := s.pcs[a.t];
    if pc.DeqCas? {
      DequeueCas(s, h, a.t, s', h');
    } else if |pc.got| < pc.n {
      DequeueCopy(s, h, a.t, s');
    } else if s.consTail == pc.head {
      DequeuePublish(s, h, a.t, s', h');
    }
  }

  /** Every atomic action of the ideal protocol keeps the invariant. */
  lemma StepKeepsInv(s: Ring, h: History, a: Action, s': Ring, r: Ret, h': History)
    requires Inv(s, h) && StepTo(s, h, a, s', r, h')
    ensures Inv(s', h')
  {
    hide Inv;
    var pc := s.pcs[a.t];
    if a.SetWaterMark? {
      MarkKeeps(s, h, s'.watermark);
    } else if Prepares(s, a) {
      PreparesKeepsInv(s, h, a, s', r, h');
    } else if pc.EnqCas? || pc.EnqCopy? {
      ProducerKeepsInv(s, h, a, s', r, h');
    } else if !pc.Idle? {
      ConsumerKeepsInv(s, h, a, s', r, h');
    }
  }
}
