/** What is seen of the thread pool from outside: the tasks that the actions of a run post, and
    the ones that the workers start and finish. */
module PoolCalls {
  import opened ThreadPool

  ghost function At(p: Pool, run: seq<Action>): (r: Pool)
    requires Init(p)
    ensures Inv(r)
  {
    InitInv(p);
    Run(p, run)
  }

  /** The task that action a posts: from outside before the cancellation, from a running task at
      any time. */
  ghost function PostedBy(p: Pool, a: Action): seq<nat> {
    match a
    case PostOutside(task, woken) => if !p.nonblock && Notifies(p, woken) then [task] else []
    case PostInside(w, task, woken) =>
      if w < |p.ws| && p.ws[w].Running? && Notifies(p, woken) then [task] else []
    case _ => []
  }

  /** The tasks posted, in order. */
  ghost function Posted(p: Pool, run: seq<Action>): seq<nat>
    requires Init(p)
  {
    if run == [] then []
    else
      var k := |run| - 1;
      Posted(p, run[..k]) + PostedBy(At(p, run[..k]), run[k])
  }

  /** The task that worker w takes up. */
  ghost function TakenUp(p: Pool, r: Pool, w: nat): seq<nat> {
    if w < |p.ws| && w < |r.ws| && !p.ws[w].Running? && r.ws[w].Running? then [r.ws[w].task] else []
  }

  /** The task that worker w is done with. */
  ghost function DoneWith(p: Pool, r: Pool, w: nat): multiset<nat> {
    if w < |p.ws| && w < |r.ws| && p.ws[w].Running? && !r.ws[w].Running? then multiset{p.ws[w].task} else multiset{}
  }

  ghost function WorkerOf(a: Action): nat {
    if a.Check? || a.Finish? then a.w else 0
  }

  /** The tasks taken up, in order. */
  ghost function Started(p: Pool, run: seq<Action>): seq<nat>
    requires Init(p)
  {
    if run == [] then []
    else
      var k := |run| - 1;
      Started(p, run[..k]) + TakenUp(At(p, run[..k]), At(p, run), WorkerOf(run[k]))
  }

  ghost function Finished(p: Pool, run: seq<Action>): multiset<nat>
    requires Init(p)
  {
    if run == [] then multiset{}
    else
      var k := |run| - 1;
      Finished(p, run[..k]) + DoneWith(At(p, run[..k]), At(p, run), WorkerOf(run[k]))
  }

  ghost function Do(p: Pool, a: Action): (r: Pool)
    requires Inv(p)
    ensures Inv(r) && |r.ws| == |p.ws|
  {
    if Enabled(p, a) then
      StepKeepsInv(p, a);
      SameWorkers(p, a);
      hide Inv, Next;
      Next(p, a)
    else p
  }

  lemma SameWorkers(p: Pool, a: Action)
    requires Enabled(p, a)
    ensures |Next(p, a).ws| == |p.ws|
  {
  }

  lemma StepOfPool(p: Pool, a: Action)
    requires Inv(p)
    ensures var r := Do(p, a);
      && r.posted == p.posted + PostedBy(p, a)
      && r.started == p.started + TakenUp(p, r, WorkerOf(a))
      && r.finished == p.finished + DoneWith(p, r, WorkerOf(a))
      && forall w :: 0 <= w < |p.ws| && w != WorkerOf(a) ==>
           (p.ws[w].Running? <==> r.ws[w].Running?) && (p.ws[w].Running? ==> p.ws[w].task == r.ws[w].task)
  {
    hide Inv, Ready, Sleeps, AllGone, Notifies;
    assert Do(p, a) == if Enabled(p, a) then Next(p, a) else p;
    hide Do;
    if Enabled(p, a) {
      if a.Check? || a.Finish? {
        WorkerStep(p, a);
      } else {
        OtherStep(p, a);
      }
    }
  }

  lemma WorkerStep(p: Pool, a: Action)
    requires Enabled(p, a) && (a.Check? || a.Finish?)
    ensures var r := Next(p, a);
      && r.posted == p.posted && |r.ws| == |p.ws|
      && r.started == p.started + TakenUp(p, r, a.w) && r.finished == p.finished + DoneWith(p, r, a.w)
      && forall w :: 0 <= w < |p.ws| && w != a.w ==> r.ws[w] == p.ws[w]
  {
  }

  lemma OtherStep(p: Pool, a: Action)
    requires Enabled(p, a) && !a.Check? && !a.Finish?
    ensures var r := Next(p, a);
      && r.posted == p.posted + PostedBy(p, a) && r.started == p.started && r.finished == p.finished
      && |r.ws| == |p.ws|
      && forall w :: 0 <= w < |p.ws| && (p.ws[w].Running? || r.ws[w].Running?) ==> r.ws[w] == p.ws[w]
  {

    match a
    case PostOutside(task, woken) => PushWakes(p, task, woken);
    case PostInside(w, task, woken) => PushWakes(p, task, woken);
    case Spurious(w) =>
    case Cancel =>
  }

  lemma PushWakes(p: Pool, task: nat, woken: nat)
    requires Notifies(p, woken)
    ensures |Push(p, task, woken).ws| == |p.ws|
    ensures forall w :: 0 <= w < |p.ws| && (p.ws[w].Running? || Push(p, task, woken).ws[w].Running?) ==>
      Push(p, task, woken).ws[w] == p.ws[w]
  {
    assert woken < |p.ws| ==> p.ws[woken].Asleep?;
    }

  lemma {:induction false} HistoryIsSeen(p: Pool, run: seq<Action>)
    requires Init(p)
    ensures var r := At(p, run);
      r.posted == Posted(p, run) && r.started == Started(p, run) && r.finished == Finished(p, run)
    decreases |run|
  {
    if run != [] {
      var k := |run| - 1;
      HistoryIsSeen(p, run[..k]);
      StepOfPool(At(p, run[..k]), run[k]);
      assert At(p, run) == Do(At(p, run[..k]), run[k]);
      hide Do, Init, TakenUp, DoneWith, PostedBy;
    }
  }

  /** In every run the tasks posted are those started, in that order, and those in the queue;
      and when the last worker has left, every task that any action has posted has been started
      and finished exactly once. */
  lemma TasksOfRun(p: Pool, run: seq<Action>)
    requires Init(p)
    ensures Posted(p, run) == Started(p, run) + At(p, run).queue
    ensures AllGone(At(p, run)) ==>
      Started(p, run) == Posted(p, run) && Finished(p, run) == multiset(Posted(p, run))
  {
    HistoryIsSeen(p, run);
    Drained(p, run);
    hide Init;
  }

  // ------------------------------------------------------- progress

  /** A worker that looks at a queue with tasks takes up the first, and finishes it. */
  lemma WorkerTakes(p: Pool, w: nat)
    requires Inv(p) && w < |p.ws| && p.ws[w].Awake? && p.queue != []
    ensures var q := Do(p, Check(w)); var r := Do(q, Finish(w));
      && q.ws == p.ws[w := Running(p.queue[0])] && q.queue == p.queue[1..]
      && r.ws == p.ws && r.finished == p.finished + multiset{p.queue[0]}
  {
    hide Inv, Ready;
  }

  /** What the workers have left to do after the cancellation. */
  ghost function Work(p: Pool): nat {
    3 * |p.queue| + Left(p.ws)
  }

  ghost function Left(ws: seq<Worker>): nat {
    if ws == [] then 0
    else Left(ws[..|ws| - 1]) + if ws[|ws| - 1].Running? then 2 else if ws[|ws| - 1].Gone? then 0 else 1
  }

  ghost function LeftOf(w: Worker): nat {
    if w.Running? then 2 else if w.Gone? then 0 else 1
  }

  lemma {:induction false} ChangeLeft(ws: seq<Worker>, i: nat, v: Worker)
    requires i < |ws|
    ensures Left(ws[i := v]) == Left(ws) - LeftOf(ws[i]) + LeftOf(v)
    decreases |ws|
  {
    var k := |ws| - 1;
    if i < k {
      assert ws[i := v][..k] == ws[..k][i := v];
      ChangeLeft(ws[..k], i, v);
    } else {
      assert ws[i := v][..k] == ws[..k];
    }
  }

  /** After the cancellation, any worker that has not left has a step to do, and each of them
      leaves less to do: without further posts all workers leave. */
  lemma EachStepCounts(p: Pool, w: nat)
    requires Inv(p) && p.nonblock && w < |p.ws| && !p.ws[w].Gone?
    ensures var a := if p.ws[w].Running? then Finish(w) else Check(w);
      Enabled(p, a) && Do(p, a).nonblock && Work(Do(p, a)) < Work(p)
  {
    assert !p.ws[w].Asleep?;
    var a := if p.ws[w].Running? then Finish(w) else Check(w);
    ChangeLeft(p.ws, w, Do(p, a).ws[w]);
    hide Inv, Ready, Left;
  }

  lemma {:induction false} WorkersLeave(p: Pool) returns (run: seq<Action>)
    requires Inv(p) && p.nonblock
    ensures forall i :: 0 <= i < |run| ==> run[i].Check? || run[i].Finish?
    ensures AllGone(Run(p, run))
    decreases Work(p)
  {
    run := [];
    hide Inv, Run, Do, Work;
    if w: nat :| w < |p.ws| && !p.ws[w].Gone? {
      var a := if p.ws[w].Running? then Finish(w) else Check(w);
      EachStepCounts(p, w);
      var rest := WorkersLeave(Do(p, a));
      run := [a] + rest;
      RunCons(p, a, rest);
    } else {
      RunNothing(p);
    }
  }

  lemma RunNothing(p: Pool)
    requires Inv(p)
    ensures Run(p, []) == p
  {
  }

  lemma {:induction false} RunCons(p: Pool, a: Action, run: seq<Action>)
    requires Inv(p)
    ensures Run(p, [a] + run) == Run(Do(p, a), run)
    decreases |run|
  {
    hide Run, Inv, Do;
    if run == [] {
      RunOne(p, a);
    } else {
      var k := |run| - 1;
      assert ([a] + run)[..k + 1] == [a] + run[..k] && ([a] + run)[k + 1] == run[k];
      RunSnoc(p, [a] + run);
      RunSnoc(Do(p, a), run);
      RunCons(p, a, run[..k]);
    }
  }

  lemma RunOne(p: Pool, a: Action)
    requires Inv(p)
    ensures Run(p, [a] + []) == Do(p, a) == Run(Do(p, a), [])
  {
    assert [a] + [] == [a] && [a][..0] == [];
    hide Inv;
  }

  lemma RunSnoc(p: Pool, run: seq<Action>)
    requires Inv(p) && run != []
    ensures Run(p, run) == Do(Run(p, run[..|run| - 1]), run[|run| - 1])
  {
    hide Inv;
  }
}
