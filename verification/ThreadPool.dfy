/** The thread pool on its blocking queue, step by step: workers take tasks, run them and
    may post more while they do, and the destructor cancels the queue and joins them. */
module ThreadPool {
  /** A worker sleeps in the wait of Pop, is about to (re)check the queue there, runs a task,
      or has left. */
  datatype Worker = Asleep | Awake | Running(task: nat) | Gone

  datatype Pool = Pool(
    queue: seq<nat>, nonblock: bool, ws: seq<Worker>,
    ghost posted: seq<nat>, ghost started: seq<nat>, ghost finished: multiset<nat>)

  /** Tasks are posted by running tasks, and from outside until the destructor starts. */
  datatype Action =
    | PostOutside(task: nat, woken: nat)
    | PostInside(w: nat, task: nat, woken: nat)
    | Check(w: nat)
    | Finish(w: nat)
    | Spurious(w: nat)
    | Cancel

  ghost predicate Sleeps(p: Pool) {
    exists w :: 0 <= w < |p.ws| && p.ws[w].Asleep?
  }

  /** notify_one wakes a sleeper if there is one. */
  ghost predicate Notifies(p: Pool, woken: nat) {
    if Sleeps(p) then woken < |p.ws| && p.ws[woken].Asleep? else woken >= |p.ws|
  }

  ghost predicate Enabled(p: Pool, a: Action) {
    match a
    case PostOutside(task, woken) => !p.nonblock && Notifies(p, woken)
    case PostInside(w, task, woken) => w < |p.ws| && p.ws[w].Running? && Notifies(p, woken)
    case Check(w) => w < |p.ws| && p.ws[w].Awake?
    case Finish(w) => w < |p.ws| && p.ws[w].Running?
    case Spurious(w) => w < |p.ws| && p.ws[w].Asleep?
    case Cancel => !p.nonblock
  }

  /** Push: a task goes behind the others, and one sleeper is notified. */
  ghost function Push(p: Pool, task: nat, woken: nat): Pool {
    p.(queue := p.queue + [task], posted := p.posted + [task],
       ws := if woken < |p.ws| then p.ws[woken := Awake] else p.ws)
  }

  /** notify_all */
  ghost function WakeAll(ws: seq<Worker>): (vs: seq<Worker>)
    ensures |vs| == |ws| && forall w :: 0 <= w < |ws| ==> vs[w] == if ws[w].Asleep? then Awake else ws[w]
  {
    seq(|ws|, w requires 0 <= w < |ws| => if ws[w].Asleep? then Awake else ws[w])
  }

  ghost function Next(p: Pool, a: Action): Pool
    requires Enabled(p, a)
  {
    match a
    case PostOutside(task, woken) => Push(p, task, woken)
    case PostInside(w, task, woken) => Push(p, task, woken)
    case Check(w) =>
      if p.queue == [] && !p.nonblock then p.(ws := p.ws[w := Asleep])
      else if p.queue == [] then p.(ws := p.ws[w := Gone])
      else p.(queue := p.queue[1..], ws := p.ws[w := Running(p.queue[0])], started := p.started + [p.queue[0]])
    case Finish(w) =>
      p.(ws := p.ws[w := Awake], finished := p.finished + multiset{p.ws[w].task})
    case Spurious(w) => p.(ws := p.ws[w := Awake])
    case Cancel =>
      p.(nonblock := true, ws := WakeAll(p.ws))
  }

  // ------------------------------------------------------- the invariant

  /** How many workers are about to check the queue. */
  ghost function Ready(ws: seq<Worker>): nat {
    if ws == [] then 0 else Ready(ws[..|ws| - 1]) + if ws[|ws| - 1].Awake? then 1 else 0
  }

  /** The tasks that are running. */
  ghost function Tasks(ws: seq<Worker>): multiset<nat> {
    if ws == [] then multiset{}
    else Tasks(ws[..|ws| - 1]) + if ws[|ws| - 1].Running? then multiset{ws[|ws| - 1].task} else multiset{}
  }

  ghost predicate AllGone(p: Pool) {
    forall w :: 0 <= w < |p.ws| ==> p.ws[w].Gone?
  }

  /** Nobody leaves before the cancellation, nobody sleeps after it; tasks in the queue have
      somebody to take them. */
  ghost predicate Alive(p: Pool) {
    && |p.ws| >= 1
    && p.posted == p.started + p.queue
    && (!p.nonblock ==> forall w :: 0 <= w < |p.ws| ==> !p.ws[w].Gone?)
    && (p.nonblock ==> !Sleeps(p))
    && (Sleeps(p) ==> Ready(p.ws) >= |p.queue|)
    && (AllGone(p) ==> p.queue == [])
  }

  /** What has been started has been finished or is running. */
  ghost predicate Accounted(p: Pool) {
    multiset(p.started) == p.finished + Tasks(p.ws)
  }

  ghost predicate Inv(p: Pool) {
    Alive(p) && Accounted(p)
  }

  ghost predicate Init(p: Pool) {
    && |p.ws| >= 1 && p.queue == [] && !p.nonblock && (forall w :: 0 <= w < |p.ws| ==> p.ws[w].Awake?)
    && p.posted == [] && p.started == [] && p.finished == multiset{}
  }

  lemma {:induction false} NoTasks(ws: seq<Worker>)
    requires forall w :: 0 <= w < |ws| ==> !ws[w].Running?
    ensures Tasks(ws) == multiset{}
    decreases |ws|
  {
    if ws != [] {
      NoTasks(ws[..|ws| - 1]);
    }
  }

  lemma InitInv(p: Pool)
    requires Init(p)
    ensures Inv(p)
  {
    NoTasks(p.ws);
    hide Ready;
  }

  ghost function ReadyOf(w: Worker): int {
    if w.Awake? then 1 else 0
  }

  ghost function TaskOf(w: Worker): multiset<nat> {
    if w.Running? then multiset{w.task} else multiset{}
  }

  lemma {:induction false} ChangeReady(ws: seq<Worker>, i: nat, v: Worker)
    requires i < |ws|
    ensures Ready(ws[i := v]) == Ready(ws) - ReadyOf(ws[i]) + ReadyOf(v)
    decreases |ws|
  {
    var k := |ws| - 1;
    if i < k {
      assert ws[i := v][..k] == ws[..k][i := v];
      ChangeReady(ws[..k], i, v);
    } else {
      assert ws[i := v][..k] == ws[..k];
    }
  }

  lemma {:induction false} ChangeTask(ws: seq<Worker>, i: nat, v: Worker)
    requires i < |ws|
    ensures Tasks(ws[i := v]) + TaskOf(ws[i]) == Tasks(ws) + TaskOf(v)
    decreases |ws|
  {
    var k := |ws| - 1;
    hide TaskOf, Tasks;
    TasksSnoc(ws);
    TasksSnoc(ws[i := v]);
    if i < k {
      assert ws[i := v][..k] == ws[..k][i := v];
      ChangeTask(ws[..k], i, v);
      Exchange(Tasks(ws[..k][i := v]), TaskOf(ws[i]), Tasks(ws[..k]), TaskOf(v), TaskOf(ws[k]));
    } else {
      assert ws[i := v][..k] == ws[..k];
      SwapLast(Tasks(ws[..k]), TaskOf(v), TaskOf(ws[k]));
    }
  }

  lemma TasksSnoc(ws: seq<Worker>)
    requires ws != []
    ensures Tasks(ws) == Tasks(ws[..|ws| - 1]) + TaskOf(ws[|ws| - 1])
  {
  }

  lemma SwapLast(a: multiset<nat>, b: multiset<nat>, c: multiset<nat>)
    ensures (a + b) + c == (a + c) + b
  {
  }

  lemma Exchange(a: multiset<nat>, b: multiset<nat>, c: multiset<nat>, d: multiset<nat>, e: multiset<nat>)
    requires a + b == c + d
    ensures (a + e) + b == (c + e) + d
  {
    assert (a + e) + b == (a + b) + e;
  }

  lemma {:induction false} SameTasks(ws: seq<Worker>, vs: seq<Worker>)
    requires |vs| == |ws| && forall i :: 0 <= i < |ws| ==> TaskOf(vs[i]) == TaskOf(ws[i])
    ensures Tasks(vs) == Tasks(ws)
    decreases |ws|
  {
    if ws != [] {
      SameTasks(ws[..|ws| - 1], vs[..|ws| - 1]);
      assert TaskOf(vs[|ws| - 1]) == TaskOf(ws[|ws| - 1]);
    }
  }

  /** One worker, which runs nothing before and after, changes. */
  lemma IdleChange(ws: seq<Worker>, i: nat, v: Worker)
    requires i < |ws| && !ws[i].Running? && !v.Running?
    ensures Tasks(ws[i := v]) == Tasks(ws)
  {
    ChangeTask(ws, i, v);
    assert Tasks(ws[i := v]) + multiset{} == Tasks(ws[i := v]);
    assert Tasks(ws) + multiset{} == Tasks(ws);
  }

  lemma PushKeeps(p: Pool, task: nat, woken: nat)
    requires Alive(p) && Accounted(p) && Notifies(p, woken) && !AllGone(p)
    ensures Alive(Push(p, task, woken)) && Accounted(Push(p, task, woken))
  {
    if woken < |p.ws| {
      ChangeReady(p.ws, woken, Awake);
      IdleChange(p.ws, woken, Awake);
      assert !Push(p, task, woken).ws[woken].Gone?;
      hide Ready, Tasks;
      forall w | 0 <= w < |p.ws| && w != woken
        ensures Push(p, task, woken).ws[w] == p.ws[w]
      {
      }
    }
  }

  lemma WakeKeeps(p: Pool, w: nat)
    requires Alive(p) && Accounted(p) && Enabled(p, Spurious(w))
    ensures Alive(Next(p, Spurious(w))) && Accounted(Next(p, Spurious(w)))
  {
    ChangeReady(p.ws, w, Awake);
    IdleChange(p.ws, w, Awake);
    hide Ready, Tasks;
    assert !Next(p, Spurious(w)).ws[w].Gone?;
    assert forall i :: 0 <= i < |p.ws| && i != w ==> Next(p, Spurious(w)).ws[i] == p.ws[i];
  }

  lemma FinishKeeps(p: Pool, w: nat)
    requires Alive(p) && Accounted(p) && Enabled(p, Finish(w))
    ensures Alive(Next(p, Finish(w))) && Accounted(Next(p, Finish(w)))
  {
    var r := Next(p, Finish(w));
    ChangeReady(p.ws, w, Awake);
    ChangeTask(p.ws, w, Awake);
    hide Ready, Tasks;
    assert !r.ws[w].Gone?;
    assert forall i :: 0 <= i < |p.ws| && i != w ==> r.ws[i] == p.ws[i];
    Moved(p.finished, Tasks(p.ws), multiset{p.ws[w].task}, Tasks(r.ws));
  }

  lemma Moved(f: multiset<nat>, t: multiset<nat>, x: multiset<nat>, u: multiset<nat>)
    requires u + x == t
    ensures f + t == (f + x) + u
  {
    assert f + (u + x) == (f + x) + u;
  }

  lemma CheckKeeps(p: Pool, w: nat)
    requires Alive(p) && Accounted(p) && Enabled(p, Check(w))
    ensures Alive(Next(p, Check(w))) && Accounted(Next(p, Check(w)))
  {
    var r := Next(p, Check(w));
    hide Ready, Tasks;
    ChangeReady(p.ws, w, r.ws[w]);
    assert forall i :: 0 <= i < |p.ws| && i != w ==> r.ws[i] == p.ws[i];
    if p.queue != [] {
      Started(p.started, p.queue);
      CheckAccounted(p, w);
      hide Accounted;
      assert !r.ws[w].Gone?;
    } else {
      IdleChange(p.ws, w, r.ws[w]);
    }
  }

  lemma CheckAccounted(p: Pool, w: nat)
    requires Accounted(p) && Enabled(p, Check(w)) && p.queue != []
    ensures Accounted(Next(p, Check(w)))
  {
    var r := Next(p, Check(w));
    hide Tasks;
    ChangeTask(p.ws, w, r.ws[w]);
    Started(p.started, p.queue);
    Begun(p.finished, Tasks(p.ws), multiset{p.queue[0]}, Tasks(r.ws));
  }

  lemma Begun(f: multiset<nat>, t: multiset<nat>, x: multiset<nat>, u: multiset<nat>)
    requires u + multiset{} == t + x
    ensures (f + t) + x == f + u
  {
    assert u == t + x;
    assert (f + t) + x == f + (t + x);
  }

  lemma Started(s: seq<nat>, q: seq<nat>)
    requires q != []
    ensures s + q == (s + [q[0]]) + q[1..]
    ensures multiset(s + [q[0]]) == multiset(s) + multiset{q[0]}
  {
  }

  lemma CancelKeeps(p: Pool)
    requires Alive(p) && Accounted(p) && !p.nonblock
    ensures Alive(Next(p, Cancel)) && Accounted(Next(p, Cancel))
  {
    var r := Next(p, Cancel);
    hide Ready, Tasks, WakeAll;
    AllAwake(p.ws);
    assert !p.ws[0].Gone? && !r.ws[0].Gone?;
    assert Alive(r);
  }

  lemma AllAwake(ws: seq<Worker>)
    ensures Tasks(WakeAll(ws)) == Tasks(ws)
  {
    SameTasks(ws, WakeAll(ws));
  }

  lemma StepKeepsInv(p: Pool, a: Action)
    requires Inv(p) && Enabled(p, a)
    ensures Inv(Next(p, a))
  {
    assert Alive(p) && Accounted(p);
    match a
    case PostOutside(task, woken) =>
      assert !p.ws[0].Gone?;
      PushKeeps(p, task, woken);
    case PostInside(w, task, woken) =>
      assert !p.ws[w].Gone?;
      PushKeeps(p, task, woken);
    case Check(w) => CheckKeeps(p, w);
    case Finish(w) => FinishKeeps(p, w);
    case Spurious(w) => WakeKeeps(p, w);
    case Cancel => CancelKeeps(p);
  }

  /** A run: actions that are not possible are skipped. */
  ghost function Run(p: Pool, run: seq<Action>): (r: Pool)
    requires Inv(p)
    ensures Inv(r) && |r.ws| == |p.ws|
  {
    if run == [] then p
    else
      var r, a := Run(p, run[..|run| - 1]), run[|run| - 1];
      if Enabled(r, a) then
        StepKeepsInv(r, a);
        Next(r, a)
      else r
  }

  /** When the last worker has left, every task posted by anybody has been run exactly once,
      the tasks have been started in the order of their posts, and nothing is queued. */
  lemma Drained(p: Pool, run: seq<Action>)
    requires Init(p)
    ensures (InitInv(p); var r := Run(p, run);
      AllGone(r) ==> r.queue == [] && r.started == r.posted && r.finished == multiset(r.posted))
  {
    InitInv(p);
    var r := Run(p, run);
    if AllGone(r) {
      NoTasks(r.ws);
    }
  }

  /** No task is overlooked: while somebody sleeps on a queue that is not empty, at least as
      many workers as there are tasks are about to check it; and after the cancellation
      nobody sleeps, so the destructor joins every worker once the tasks end. */
  lemma NoneOverlooked(p: Pool, run: seq<Action>)
    requires Init(p)
    ensures (InitInv(p); var r := Run(p, run);
      && (Sleeps(r) ==> Ready(r.ws) >= |r.queue|)
      && (r.nonblock ==> !Sleeps(r)))
  {
    InitInv(p);
  }
}
