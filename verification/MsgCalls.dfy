/** What the callers of the message queue see: the messages of the puts that a run has begun
    and finished and those its gets have returned, read from its actions, the places of the
    threads and the links in memory. */
module MsgCalls {
  import opened Wrappers
  import opened MsgQueue

  ghost function At(q: Queue, run: seq<Action>): (r: Queue)
    requires Init(q)
    ensures Inv(r)
  {
    InitInv(q);
    Run(q, run)
  }

  ghost predicate Begins(q: Queue, a: Action, p: nat) {
    a.Put? && a.p == p < |q.ps| && q.ps[p].Resting? && Outside(q, a.msg)
  }

  /** The messages that p has handed to msgqueue_put, in order. */
  ghost function Begun(q: Queue, run: seq<Action>, p: nat): seq<nat>
    requires Init(q)
  {
    if run == [] then []
    else
      var k := |run| - 1;
      Begun(q, run[..k], p) + if Begins(At(q, run[..k]), run[k], p) then [run[k].msg] else []
  }

  /** p's put leaves its critical section: it will not sleep any more. */
  ghost predicate Leaves(q: Queue, a: Action, r: Queue, p: nat) {
    a == Append(p) && p < |q.ps| && p < |r.ps| && Carries(q.ps[p]) && !Carries(r.ps[p])
  }

  /** How many puts of p have done so. */
  ghost function Left(q: Queue, run: seq<Action>, p: nat): nat
    requires Init(q)
  {
    if run == [] then 0
    else
      var k := |run| - 1;
      Left(q, run[..k], p) + if Leaves(At(q, run[..k]), run[k], At(q, run), p) then 1 else 0
  }

  /** The messages of all puts that have left their critical section, in that order. */
  ghost function Puts(q: Queue, run: seq<Action>): seq<nat>
    requires Init(q)
  {
    if run == [] then []
    else
      var k := |run| - 1;
      var a := run[k];
      Puts(q, run[..k]) +
      if a.Append? && Leaves(At(q, run[..k]), a, At(q, run), a.p) && Left(q, run[..k], a.p) < |Begun(q, run[..k], a.p)|
      then [Begun(q, run[..k], a.p)[Left(q, run[..k], a.p)]] else []
  }

  /** The message that a get returns is the one its list head leads to. */
  ghost predicate Returns(q: Queue, r: Queue) {
    (q.c.Looking? || q.c.Taking?) && r.c.Nobody? && q.getHead in q.link && q.link[q.getHead].Some?
  }

  ghost function Gets(q: Queue, run: seq<Action>): seq<nat>
    requires Init(q)
  {
    if run == [] then []
    else
      var k := |run| - 1;
      var r := At(q, run[..k]);
      Gets(q, run[..k]) + if Returns(r, At(q, run)) then [r.link[r.getHead].value] else []
  }

  /** How many gets have begun. */
  ghost function Asked(q: Queue, run: seq<Action>): nat
    requires Init(q)
  {
    if run == [] then 0
    else
      var k := |run| - 1;
      Asked(q, run[..k]) + if run[k].Get? && At(q, run[..k]).c.Nobody? then 1 else 0
  }

  /** Where p is between its puts. */
  ghost predicate InCall(q: Queue, run: seq<Action>, p: nat)
    requires Init(q)
  {
    var r, b, e := At(q, run), Begun(q, run, p), Left(q, run, p);
    && p < |r.ps|
    && if Carries(r.ps[p]) then |b| == e + 1 && b[e] == r.ps[p].msg else |b| == e
  }

  ghost function Do(q: Queue, a: Action): (r: Queue)
    requires Inv(q)
    ensures Inv(r)
  {
    if Enabled(q, a) then
      StepKeepsInv(q, a);
      Next(q, a)
    else q
  }

  lemma StepOfOne(q: Queue, a: Action, p: nat)
    requires Inv(q) && p < |q.ps|
    ensures var r := Do(q, a);
      && |r.ps| == |q.ps|
      && (Begins(q, a, p) ==> r.ps[p] == Putting(a.msg))
      && (Carries(q.ps[p]) && Carries(r.ps[p]) ==> r.ps[p].msg == q.ps[p].msg)
      && (!Carries(q.ps[p]) && Carries(r.ps[p]) ==> Begins(q, a, p))
      && (Carries(q.ps[p]) && !Carries(r.ps[p]) ==> a == Append(p))
  {
    hide Inv, Heads;
  }

  lemma {:induction false} EachPutOnce(q: Queue, run: seq<Action>, p: nat)
    requires Init(q) && p < |q.ps|
    ensures InCall(q, run, p) && |At(q, run).ps| == |q.ps|
    decreases |run|
  {
    if run != [] {
      var k := |run| - 1;
      EachPutOnce(q, run[..k], p);
      StepOfOne(At(q, run[..k]), run[k], p);
      assert At(q, run) == Do(At(q, run[..k]), run[k]);
      hide Do, Init;
    }
  }

  lemma StepOfPuts(q: Queue, a: Action)
    requires Inv(q)
    ensures var r := Do(q, a);
      && r.puts == q.puts + (if a.Append? && Leaves(q, a, r, a.p) then [q.ps[a.p].msg] else [])
      && r.gets == q.gets + (if Returns(q, r) then [q.link[q.getHead].value] else [])
  {
    hide Messages, Wakeups;
  }

  /** What has been put is the messages of the puts that have left their critical section, and
      what has been got is what the gets have returned. */
  lemma {:induction false} PutsAndGets(q: Queue, run: seq<Action>)
    requires Init(q)
    ensures At(q, run).puts == Puts(q, run) && At(q, run).gets == Gets(q, run)
    decreases |run|
  {
    if run != [] {
      var k := |run| - 1;
      var r, a := At(q, run[..k]), run[k];
      PutsAndGets(q, run[..k]);
      StepOfPuts(r, a);
      assert At(q, run) == Do(r, a);
      if a.Append? && Leaves(r, a, At(q, run), a.p) {
        SameProducers(q, run[..k]);
        EachPutOnce(q, run[..k], a.p);
      }
      hide Do, Init;
    }
  }

  lemma {:induction false} SameProducers(q: Queue, run: seq<Action>)
    requires Init(q)
    ensures |At(q, run).ps| == |q.ps|
    decreases |run|
  {
    if run != [] {
      var k := |run| - 1;
      SameProducers(q, run[..k]);
      KeepsProducers(At(q, run[..k]), run[k]);
      assert At(q, run) == Do(At(q, run[..k]), run[k]);
      hide Do, Init;
    }
  }

  lemma KeepsProducers(q: Queue, a: Action)
    requires Inv(q)
    ensures |Do(q, a).ps| == |q.ps|
  {
    hide Inv, Heads;
  }

  lemma StepOfGet(q: Queue, a: Action)
    requires Inv(q)
    ensures var r := Do(q, a);
      && (q.c.Nobody? ==> (r.c.Nobody? <==> !a.Get?))
      && (!q.c.Nobody? && r.c.Nobody? ==> Returns(q, r))
  {
    hide Messages, Wakeups, Fifo;
  }

  /** No get returns without a message. */
  lemma {:induction false} EachGetAnswered(q: Queue, run: seq<Action>)
    requires Init(q)
    ensures Asked(q, run) == |Gets(q, run)| + if At(q, run).c.Nobody? then 0 else 1
    decreases |run|
  {
    if run != [] {
      var k := |run| - 1;
      EachGetAnswered(q, run[..k]);
      StepOfGet(At(q, run[..k]), run[k]);
      assert At(q, run) == Do(At(q, run[..k]), run[k]);
      hide Do, Init;
    }
  }

  /** In every run the messages returned are a beginning of those put, at most 2 max others
      are pending, and every put that has returned has its message among them, once. */
  lemma FifoOfCalls(q: Queue, run: seq<Action>)
    requires Init(q)
    ensures var r := At(q, run);
      && Puts(q, run) == Gets(q, run) + r.getList + r.putList && |r.getList + r.putList| <= 2 * r.max
      && Asked(q, run) == |Gets(q, run)| + (if r.c.Nobody? then 0 else 1)
      && forall p :: 0 <= p < |q.ps| ==> InCall(q, run, p)
  {
    PutsAndGets(q, run);
    EachGetAnswered(q, run);
    forall p | 0 <= p < |q.ps|
      ensures InCall(q, run, p)
    {
      EachPutOnce(q, run, p);
    }
    hide Init;
  }

  // ------------------------------------------------------- calls on their own

  /** A put that finds room is through after three steps, and its message is the last. */
  lemma PutAlone(q: Queue, p: nat, msg: nat)
    requires Inv(q) && p < |q.ps| && q.ps[p].Resting? && q.cnt < q.max
    requires msg !in q.getList && msg !in q.putList
    requires forall i :: 0 <= i < |q.ps| && Carries(q.ps[i]) ==> q.ps[i].msg != msg
    ensures var r := Do(Do(Do(q, Put(p, msg)), Append(p)), Signal(p));
      && r.ps == q.ps && r.puts == q.puts + [msg] && r.getList == q.getList && r.putList == q.putList + [msg]
  {
    var q1 := Do(q, Put(p, msg));
    var q2 := Do(q1, Append(p));
    assert q1.ps == q.ps[p := Putting(msg)] && q1.putList == q.putList && q1.puts == q.puts && q1.cnt == q.cnt;
    assert q2.ps == q1.ps[p := Signalling];
    hide Inv;
  }

  /** The oldest message that is pending. */
  ghost function Oldest(q: Queue): nat
    requires q.getList + q.putList != []
  {
    (q.getList + q.putList)[0]
  }

  /** A get that finds a message on either list returns the oldest one, after at most four
      steps. */
  lemma GetAlone(q: Queue)
    requires Inv(q) && q.c.Nobody? && q.getList + q.putList != []
    ensures var q2 := Do(Do(q, Get), Look); var r := if q2.c.Nobody? then q2 else Do(Do(q2, Swap), Take);
      r.c.Nobody? && r.gets == q.gets + [Oldest(q)]
  {
    var q1 := Do(q, Get);
    LooksAtFirst(q1);
    var q2 := Do(q1, Look);
    if q.getList == [] {
      SwapsAndTakes(q2);
    }
    hide Heads, Messages, Wakeups;
  }

  lemma LooksAtFirst(q: Queue)
    requires Inv(q) && q.c.Looking?
    ensures q.getHead in q.link && (q.link[q.getHead].Some? <==> q.getList != [])
  {
  }

  lemma SwapsAndTakes(q: Queue)
    requires Inv(q) && q.c.Swapping? && q.putList != []
    ensures var r := Do(Do(q, Swap), Take); r.c.Nobody? && r.gets == q.gets + [q.putList[0]]
  {
    var q1 := Do(q, Swap);
    assert q1.c.Taking? && q1.getList == q.putList && q1.gets == q.gets;
    hide Heads, Messages, Wakeups, Fifo;
  }

  /** A get that sleeps is woken by the signal that is still to come, and returns. */
  lemma GetResumes(q: Queue) returns (p: nat)
    requires Inv(q) && q.c.GetAsleep? && q.cnt > 0
    ensures p < |q.ps| && q.ps[p].Signalling?
    ensures var r := Do(Do(Do(q, Signal(p)), Swap), Take); r.c.Nobody? && r.gets == q.gets + [q.putList[0]]
  {
    p :| 0 <= p < |q.ps| && q.ps[p].Signalling?;
    var q1 := Do(q, Signal(p));
    assert q1.c.Swapping? && q1.putList == q.putList && q1.gets == q.gets;
    hide Heads, Messages, Wakeups, Fifo;
    SwapsAndTakes(q1);
  }

  /** A put that sleeps on a full list is woken by the swap that empties it, and finds room. */
  lemma PutResumes(q: Queue, p: nat)
    requires Inv(q) && p < |q.ps| && q.ps[p].PutAsleep? && q.c.Swapping?
    ensures var q1 := Do(q, Swap);
      q1.ps[p] == Putting(q.ps[p].msg) && q1.cnt < q1.max && Do(q1, Append(p)).puts == q.puts + [q.ps[p].msg]
  {
    hide Heads, Messages, Fifo;
  }
}
