/** What the callers of the MPSC queue see: which calls a run has begun and finished, and with
    what answers, read from its actions and the places of the threads alone. */
module MpscCalls {
  import opened Wrappers
  import opened Mpsc

  /** Does action a begin an Enqueue of p here? */
  ghost predicate Begins(s: State, a: Action, p: nat) {
    a.Begin? && a.p == p < |s.ps| && s.ps[p].Idle? && Outside(s, a.n)
  }

  /** The nodes that p has handed to Enqueue, in order. */
  ghost function Begun(s: State, run: seq<Action>, p: nat): seq<Node> {
    if run == [] then []
    else
      var k := |run| - 1;
      Begun(s, run[..k], p) + if Begins(After(s, run[..k]), run[k], p) then [run[k].n] else []
  }

  /** Does action a take a call of p over its exchange? */
  ghost predicate Exchanges(s: State, a: Action, p: nat) {
    a == Exchange(p) && p < |s.ps| && s.ps[p].Ready?
  }

  /** How many calls of p have passed their exchange. */
  ghost function Passed(s: State, run: seq<Action>, p: nat): nat {
    if run == [] then 0
    else
      var k := |run| - 1;
      Passed(s, run[..k], p) + if Exchanges(After(s, run[..k]), run[k], p) then 1 else 0
  }

  /** The nodes of all calls that have passed their exchange, in that order. */
  ghost function Put(s: State, run: seq<Action>): seq<Node> {
    if run == [] then []
    else
      var k := |run| - 1;
      var r, a := After(s, run[..k]), run[k];
      Put(s, run[..k]) +
      if a.Exchange? && Exchanges(r, a, a.p) && Passed(s, run[..k], a.p) < |Begun(s, run[..k], a.p)|
      then [Begun(s, run[..k], a.p)[Passed(s, run[..k], a.p)]] else []
  }

  /** How many calls of p have returned. */
  ghost function Returned(s: State, run: seq<Action>, p: nat): nat {
    if run == [] then 0
    else
      var k := |run| - 1;
      var r, r' := After(s, run[..k]), After(s, run);
      Returned(s, run[..k], p)
        + if p < |r.ps| && p < |r'.ps| && !r.ps[p].Idle? && r'.ps[p].Idle? then 1 else 0
  }

  /** The nodes that Dequeue has answered with, in order. */
  ghost function Answers(s: State, run: seq<Action>): seq<Node> {
    if run == [] then []
    else
      var k := |run| - 1;
      var r, r' := After(s, run[..k]), After(s, run);
      Answers(s, run[..k]) + if !r.c.Rest? && r'.c.Rest? && r'.answer.True? then [r'.answer.n] else []
  }

  /** Where p is between its calls. */
  ghost predicate InCall(s: State, run: seq<Action>, p: nat) {
    var r, b, e, f := After(s, run), Begun(s, run, p), Passed(s, run, p), Returned(s, run, p);
    p < |r.ps| &&
    match r.ps[p]
    case Idle => |b| == e == f
    case Ready(n) => |b| == e + 1 == f + 1 && b[e] == n
    case Linking(n, _) => |b| == e == f + 1 && b[f] == n
  }

  /** The witnesses do not touch what the callers see. */
  lemma WitnessFrame(s: State)
    ensures var r := Witness(s);
      && r.ps == s.ps && r.c == s.c && r.answer == s.answer && r.put == s.put && r.got == s.got
      && r.chain == s.chain && r.head == s.head
  {
  }

  /** A step, without the witnesses. */
  ghost function Plain(s: State, a: Action): State
    requires Enabled(s, a) && Holding(s)
  {
    match a
    case Call => s.(c := LoadNext(s.tail), window := false, empty := false, answer := Nothing)
    case Consume => Dequeue(s)
    case _ => Produce(s, a)
  }

  lemma DoIsPlain(s: State, a: Action)
    requires Inv(s)
    ensures Enabled(s, a) ==> Holding(s) && Do(s, a) == Witness(Plain(s, a))
    ensures !Enabled(s, a) ==> Do(s, a) == s
    ensures var r := if Enabled(s, a) then Plain(s, a) else s; var q := Do(s, a);
      && q.ps == r.ps && q.c == r.c && q.answer == r.answer && q.put == r.put && q.got == r.got
      && q.chain == r.chain && q.head == r.head
  {
    if Enabled(s, a) {
      assert Holding(s);
      WitnessFrame(Plain(s, a));
    }
    hide Inv, Witness, Produce, Dequeue, Enabled, Holding;
  }

  lemma StepsOfOne(s: State, a: Action, p: nat)
    requires Inv(s) && p < |s.ps|
    ensures var r := Do(s, a);
      && |r.ps| == |s.ps|
      && (Begins(s, a, p) ==> r.ps[p] == Ready(a.n))
      && (Exchanges(s, a, p) ==> r.ps[p].Linking? && r.ps[p].n == s.ps[p].n)
      && (s.ps[p].Linking? && r.ps[p] != s.ps[p] ==> r.ps[p].Idle?)
      && (!Begins(s, a, p) && !Exchanges(s, a, p) && !s.ps[p].Linking? ==> r.ps[p] == s.ps[p])
  {
    hide Inv, Do, Items, InWindow, Outside;
    DoIsPlain(s, a);
    if a.Consume? && Enabled(s, a) {
      HoldsFirst(s);
      ConsumerFrame(s);
    }
    hide Dequeue;
  }

  lemma HoldsFirst(s: State)
    requires Inv(s)
    ensures Holding(s)
  {
  }

  /** Every call of p passes its exchange once, with its own node, before it returns. */
  lemma {:induction false} EachCallOnce(s: State, run: seq<Action>, p: nat)
    requires Init(s) && p < |s.ps|
    ensures InCall(s, run, p) && |After(s, run).ps| == |s.ps|
    decreases |run|
  {
    if run != [] {
      var k := |run| - 1;
      EachCallOnce(s, run[..k], p);
      ReachableInv(s, run[..k]);
      StepsOfOne(After(s, run[..k]), run[k], p);
      hide Inv, Do, Init;
    }
  }

  lemma StepOfPut(s: State, a: Action)
    requires Inv(s)
    ensures var r := Do(s, a);
      r.put == s.put + if a.Exchange? && Exchanges(s, a, a.p) then [s.ps[a.p].n] else []
  {
    hide Do, Items, InWindow, Outside;
    DoIsPlain(s, a);
    if a.Consume? && Enabled(s, a) {
      HoldsFirst(s);
      ConsumePut(s);
    } else if a.Exchange? && Exchanges(s, a, a.p) {
      ReadyIsItem(s, a.p);
      OneItem(s.ps[a.p].n);
    }
    hide Inv, Dequeue;
  }

  lemma ReadyIsItem(s: State, p: nat)
    requires Inv(s) && p < |s.ps| && s.ps[p].Ready?
    ensures s.ps[p].n != Dummy
  {
  }

  lemma ConsumePut(s: State)
    requires Holding(s) && !s.c.Rest?
    ensures Dequeue(s).put == s.put
  {
    hide Items;
  }

  lemma OneItem(n: Node)
    ensures n != Dummy ==> Items([n]) == [n]
  {
    assert [n][1..] == [];
  }

  /** What has been put into the queue is the nodes of the calls that have passed their
      exchange, each of them once. */
  lemma {:induction false} PutIsExchanged(s: State, run: seq<Action>)
    requires Init(s)
    ensures After(s, run).put == Put(s, run)
    decreases |run|
  {
    if run != [] {
      var k := |run| - 1;
      var r, a := After(s, run[..k]), run[k];
      PutIsExchanged(s, run[..k]);
      ReachableInv(s, run[..k]);
      StepOfPut(r, a);
      if a.Exchange? && Exchanges(r, a, a.p) {
        SameProducers(s, run[..k]);
        EachCallOnce(s, run[..k], a.p);
      }
      hide Inv, Do, Init;
    }
  }

  lemma {:induction false} SameProducers(s: State, run: seq<Action>)
    requires Init(s)
    ensures |After(s, run).ps| == |s.ps|
    decreases |run|
  {
    if run != [] {
      var k := |run| - 1;
      SameProducers(s, run[..k]);
      ReachableInv(s, run[..k]);
      KeepsProducers(After(s, run[..k]), run[k]);
      hide Inv, Do, Init;
    }
  }

  lemma KeepsProducers(s: State, a: Action)
    requires Inv(s)
    ensures |Do(s, a).ps| == |s.ps|
  {
    hide Inv, Do, Items, InWindow, Outside;
    DoIsPlain(s, a);
    if a.Consume? && Enabled(s, a) {
      HoldsFirst(s);
      ConsumerFrame(s);
    }
    hide Dequeue;
  }

  /** The consumer's step answers with a node exactly if that leaves the chain as an item. */
  lemma StepOfGot(s: State, a: Action)
    requires Inv(s)
    ensures var r := Do(s, a);
      r.got == s.got + if !s.c.Rest? && r.c.Rest? && r.answer.True? then [r.answer.n] else []
  {
    DoIsPlain(s, a);
    hide InWindow, Items, Do;
    if a.Consume? && !s.c.Rest? {
      hide Dequeue;
      DequeueGot(s);
    }
    hide Inv, Produce;
  }

  lemma DequeueGot(s: State)
    requires Holding(s) && ConsumerOk(s) && !s.c.Rest?
    ensures var r := Dequeue(s); r.got == s.got + if r.c.Rest? && r.answer.True? then [r.answer.n] else []
  {
    OneItem(s.c.at);
    assert Items([Dummy]) == [] by {
      assert [Dummy][1..] == [];
    }
    hide InWindow, Items, Gap;
  }

  lemma {:induction false} GotIsAnswered(s: State, run: seq<Action>)
    requires Init(s)
    ensures After(s, run).got == Answers(s, run)
    decreases |run|
  {
    if run != [] {
      var k := |run| - 1;
      GotIsAnswered(s, run[..k]);
      ReachableInv(s, run[..k]);
      StepOfGot(After(s, run[..k]), run[k]);
      hide Inv, Do, Init;
    }
  }

  /** In every run the answers are a beginning of the nodes exchanged in, and the others are
      still in the chain; every call that has returned has its node among them. */
  lemma FifoOfCalls(s: State, run: seq<Action>)
    requires Init(s)
    ensures Put(s, run) == Answers(s, run) + Items(After(s, run).chain)
    ensures forall p :: 0 <= p < |s.ps| ==> InCall(s, run, p)
  {
    PutIsExchanged(s, run);
    GotIsAnswered(s, run);
    ReachableInv(s, run);
    forall p | 0 <= p < |s.ps|
      ensures InCall(s, run, p)
    {
      EachCallOnce(s, run, p);
    }
  }

  /** When no Enqueue is under way, a Dequeue on its own answers with the oldest node that no
      Dequeue has answered with, or false if there is none. */
  lemma NextAnswer(s: State, run: seq<Action>) returns (k: nat)
    requires Init(s) && !InWindow(After(s, run)) && After(s, run).c.Rest?
    ensures Inv(After(s, run)) && k <= 7
    ensures var r, put, done := Alone(Next(After(s, run), Call), k), Put(s, run), |Answers(s, run)|;
      r.c.Rest? && r.answer == if done >= |put| then False else True(put[done])
  {
    FifoOfCalls(s, run);
    ReachableInv(s, run);
    hide Items;
    k := AloneTakesOldest(After(s, run));
  }

  /** An Enqueue on its own takes three steps, and its node is then the last. */
  lemma EnqueueAlone(s: State, p: nat, n: Node)
    requires Inv(s) && p < |s.ps| && s.ps[p].Idle? && n != Dummy && n !in s.chain
    requires forall q :: 0 <= q < |s.ps| && !s.ps[q].Idle? ==> s.ps[q].n != n
    ensures var r := Do(Do(Do(s, Begin(p, n)), Exchange(p)), Link(p));
      r.ps == s.ps && r.head == n && r.chain == s.chain + [n] && r.put == s.put + [n]
  {
    OneItem(n);
    assert Outside(s, n);
    var s1, s2 := Do(s, Begin(p, n)), Do(Do(s, Begin(p, n)), Exchange(p));
    hide Items, InWindow, Inv, Outside, Do, Holding;
    StepKeepsInv(s, Begin(p, n));
    DoIsPlain(s, Begin(p, n));
    DoIsNext(s, Begin(p, n));
    StepKeepsInv(s1, Exchange(p));
    DoIsPlain(s1, Exchange(p));
    DoIsNext(s1, Exchange(p));
    DoIsPlain(s2, Link(p));
  }

  lemma DoIsNext(s: State, a: Action)
    requires Inv(s) && Enabled(s, a)
    ensures Do(s, a) == Next(s, a)
  {
    HoldsFirst(s);
  }
}
