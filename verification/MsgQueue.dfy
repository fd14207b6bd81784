/** The two-list message queue in blocking mode, step by step: producers append to one list,
    consumers take from the other and swap the two when theirs is empty. A critical section
    under put_mutex is one step; waiting on a condition releases it. */
module MsgQueue {
  import opened Wrappers

  /** A place that holds a link: one of the two list heads, or the link inside a message. */
  datatype Loc = Head(first: bool) | Link(msg: nat)

  /** A producer that wants to append, sleeps on put_cond, or has appended and still has to
      signal get_cond. */
  datatype Producer = Resting | Putting(msg: nat) | PutAsleep(msg: nat) | Signalling

  /** The consumer that holds get_mutex: it looks at its list; it has found it empty and has
      already moved get_head over to the put list; it sleeps on get_cond; it takes a message. */
  datatype Consumer = Nobody | Looking | Swapping(empty: Loc) | GetAsleep(empty: Loc) | Taking

  datatype Queue = Queue(
    max: nat, cnt: nat, link: map<Loc, Option<nat>>, getHead: Loc, putHead: Loc, putTail: Loc,
    ps: seq<Producer>, c: Consumer,
    ghost puts: seq<nat>, ghost gets: seq<nat>, ghost getList: seq<nat>, ghost putList: seq<nat>)

  datatype Action =
    | Put(p: nat, msg: nat)
    | Append(p: nat)
    | Signal(p: nat)
    | WakeProducer(p: nat)
    | Get
    | Look
    | Swap
    | WakeConsumer
    | Take

  predicate Carries(p: Producer) {
    p.Putting? || p.PutAsleep?
  }

  /** A message that is not in the queue or on its way into it. */
  ghost predicate Outside(q: Queue, msg: nat) {
    && msg !in q.getList && msg !in q.putList
    && forall p :: 0 <= p < |q.ps| && Carries(q.ps[p]) ==> q.ps[p].msg != msg
  }

  ghost predicate Enabled(q: Queue, a: Action) {
    match a
    case Put(p, msg) => p < |q.ps| && q.ps[p].Resting? && Outside(q, msg)
    case Append(p) => p < |q.ps| && q.ps[p].Putting?
    case Signal(p) => p < |q.ps| && q.ps[p].Signalling?
    case WakeProducer(p) => p < |q.ps| && q.ps[p].PutAsleep?
    case Get => q.c.Nobody?
    case Look => q.c.Looking?
    case Swap => q.c.Swapping?
    case WakeConsumer => q.c.GetAsleep?
    case Take => q.c.Taking?
  }

  /** pthread_cond_broadcast(put_cond) */
  function WakeAll(ps: seq<Producer>): seq<Producer> {
    seq(|ps|, p requires 0 <= p < |ps| => if ps[p].PutAsleep? then Putting(ps[p].msg) else ps[p])
  }

  /** pthread_cond_signal(get_cond), or a spurious wakeup: at most one consumer sleeps. */
  function Awake(c: Consumer): Consumer {
    if c.GetAsleep? then Swapping(c.empty) else c
  }

  /** The first message of the get list is taken off. */
  ghost function TakeFirst(q: Queue): Queue
    requires q.getList != [] && q.getHead in q.link && Link(q.getList[0]) in q.link
  {
    q.(link := q.link[q.getHead := q.link[Link(q.getList[0])]], c := Nobody,
       gets := q.gets + [q.getList[0]], getList := q.getList[1..])
  }

  /** The links that the next step reads have been stored. */
  ghost predicate Readable(q: Queue) {
    && q.getHead in q.link
    && ((q.c.Looking? && q.link[q.getHead].Some?) || q.c.Taking? ==>
          q.getList != [] && Link(q.getList[0]) in q.link)
  }

  ghost function Next(q: Queue, a: Action): Queue
    requires Enabled(q, a) && Readable(q)
  {
    match a
    case Put(p, msg) => q.(link := q.link[Link(msg) := None], ps := q.ps[p := Putting(msg)])
    case Append(p) =>
      var msg := q.ps[p].msg;
      if q.cnt >= q.max then q.(ps := q.ps[p := PutAsleep(msg)])
      else q.(link := q.link[q.putTail := Some(msg)], putTail := Link(msg), cnt := q.cnt + 1,
              ps := q.ps[p := Signalling], puts := q.puts + [msg], putList := q.putList + [msg])
    case Signal(p) => q.(ps := q.ps[p := Resting], c := Awake(q.c))
    case WakeProducer(p) => q.(ps := q.ps[p := Putting(q.ps[p].msg)])
    case Get => q.(c := Looking)
    case Look =>
      if q.link[q.getHead].Some? then TakeFirst(q)
      else q.(getHead := q.putHead, c := Swapping(q.getHead))
    case Swap =>
      if q.cnt == 0 then q.(c := GetAsleep(q.c.empty))
      else q.(ps := if q.cnt > q.max - 1 then WakeAll(q.ps) else q.ps,
              putHead := q.c.empty, putTail := q.c.empty, cnt := 0, c := Taking,
              getList := q.putList, putList := [])
    case WakeConsumer => q.(c := Awake(q.c))
    case Take => TakeFirst(q)
  }

  // ------------------------------------------------------- lists in memory

  /** From the link at `at`, the messages q follow one another; the last link is at `end`, and
      it is null. */
  ghost predicate Path(link: map<Loc, Option<nat>>, at: Loc, q: seq<nat>, end: Loc)
    decreases |q|
  {
    && at in link
    && if q == [] then at == end && link[at] == None
       else link[at] == Some(q[0]) && Path(link, Link(q[0]), q[1..], end)
  }

  /** The places that hold the links of the list. */
  ghost predicate Uses(at: Loc, q: seq<nat>, l: Loc) {
    l == at || (l.Link? && l.msg in q)
  }

  lemma {:induction false} PathFrame(link: map<Loc, Option<nat>>, at: Loc, q: seq<nat>, end: Loc, l: Loc,
                                     v: Option<nat>)
    requires Path(link, at, q, end) && !Uses(at, q, l)
    ensures Path(link[l := v], at, q, end)
    decreases |q|
  {
    if q != [] {
      PathFrame(link, Link(q[0]), q[1..], end, l, v);
    }
  }

  ghost predicate Distinct(q: seq<nat>) {
    forall i, j :: 0 <= i < j < |q| ==> q[i] != q[j]
  }

  lemma {:induction false} PathEnd(link: map<Loc, Option<nat>>, at: Loc, q: seq<nat>, end: Loc)
    requires Path(link, at, q, end)
    ensures Uses(at, q, end)
    decreases |q|
  {
    if q != [] {
      PathEnd(link, Link(q[0]), q[1..], end);
    }
  }

  /** Appending through the tail pointer. */
  lemma {:induction false} PathAppend(link: map<Loc, Option<nat>>, at: Loc, q: seq<nat>, end: Loc, msg: nat)
    requires Path(link, at, q, end) && Distinct(q) && msg !in q && at != Link(msg)
    requires at.Link? ==> at.msg !in q
    requires Link(msg) in link && link[Link(msg)] == None
    ensures Path(link[end := Some(msg)], at, q + [msg], Link(msg))
    decreases |q|
  {
    PathEnd(link, at, q, end);
    if q == [] {
      assert [msg][1..] == [];
    } else {
      assert (q + [msg])[1..] == q[1..] + [msg];
      PathAppend(link, Link(q[0]), q[1..], end, msg);
      PathEnd(link, Link(q[0]), q[1..], end);
    }
  }

  // ------------------------------------------------------- the invariant

  ghost predicate Sleeping(q: Queue) {
    q.c.Swapping? || q.c.GetAsleep?
  }

  /** The heads: the consumer's list is the other one than the producers', except while it
      waits for the swap; then its old list is the other one, and it is empty. */
  ghost predicate Heads(q: Queue) {
    && q.putHead.Head? && q.getHead.Head?
    && (!Sleeping(q) ==> q.getHead != q.putHead && exists end :: Path(q.link, q.getHead, q.getList, end))
    && (Sleeping(q) ==> q.getHead == q.putHead && q.c.empty.Head? && q.c.empty != q.putHead
                        && q.getList == [] && Path(q.link, q.c.empty, [], q.c.empty))
    && Path(q.link, q.putHead, q.putList, q.putTail)
  }

  ghost predicate Counts(q: Queue) {
    && q.max >= 1 && q.cnt == |q.putList| <= q.max && |q.getList| <= q.max
    && (q.c.Taking? ==> q.getList != [])
  }

  ghost predicate Messages(q: Queue) {
    && Distinct(q.getList) && Distinct(q.putList) && (forall m :: m in q.getList ==> m !in q.putList)
    && (forall p :: 0 <= p < |q.ps| && Carries(q.ps[p]) ==>
          var m := q.ps[p].msg;
          m !in q.getList && m !in q.putList && Link(m) in q.link && q.link[Link(m)] == None)
    && (forall p, r :: 0 <= p < r < |q.ps| && Carries(q.ps[p]) && Carries(q.ps[r]) ==>
          q.ps[p].msg != q.ps[r].msg)
  }

  ghost predicate Fifo(q: Queue) {
    q.puts == q.gets + q.getList + q.putList
  }

  /** No wakeup is lost: a producer sleeps only while the put list is full, and a consumer
      sleeps on a list that is not empty only while the signal for it is still to come. */
  ghost predicate Wakeups(q: Queue) {
    && ((exists p :: 0 <= p < |q.ps| && q.ps[p].PutAsleep?) ==> q.cnt >= q.max)
    && (q.c.GetAsleep? && q.cnt > 0 ==> exists p :: 0 <= p < |q.ps| && q.ps[p].Signalling?)
  }

  ghost predicate Inv(q: Queue) {
    Heads(q) && Counts(q) && Messages(q) && Fifo(q) && Wakeups(q)
  }

  /** msgqueue_create */
  ghost predicate Init(q: Queue) {
    && q.max >= 1 && q.cnt == 0 && q.getHead == Head(true) && q.putHead == Head(false) && q.putTail == Head(false)
    && q.link == map[Head(true) := None, Head(false) := None]
    && (forall p :: 0 <= p < |q.ps| ==> q.ps[p].Resting?) && q.c.Nobody?
    && q.puts == [] && q.gets == [] && q.getList == [] && q.putList == []
  }

  lemma InitInv(q: Queue)
    requires Init(q)
    ensures Inv(q)
  {
    assert Path(q.link, q.getHead, [], q.getHead);
  }

  lemma InvReadable(q: Queue)
    requires Heads(q) && Counts(q)
    ensures Readable(q)
  {
    if !Sleeping(q) {
      var end :| Path(q.link, q.getHead, q.getList, end);
      assert q.getList != [] ==> Path(q.link, Link(q.getList[0]), q.getList[1..], end);
    }
  }

  // ------------------------------------------------------- every step keeps it

  /** Another thread's step, or a wakeup, leaves the lists alone. */
  ghost predicate SameLists(q: Queue, r: Queue) {
    && r.max == q.max && r.cnt == q.cnt && r.link == q.link
    && r.getHead == q.getHead && r.putHead == q.putHead && r.putTail == q.putTail
    && r.puts == q.puts && r.gets == q.gets && r.getList == q.getList && r.putList == q.putList
  }

  /** Clearing the link of a message outside. */
  lemma PutKeeps(q: Queue, p: nat, msg: nat)
    requires Inv(q) && Enabled(q, Put(p, msg)) && Readable(q)
    ensures Inv(Next(q, Put(p, msg)))
  {
    var r := Next(q, Put(p, msg));
    var l, v := Link(msg), None;
    PathFrame(q.link, q.putHead, q.putList, q.putTail, l, v);
    if Sleeping(q) {
      PathFrame(q.link, q.c.empty, [], q.c.empty, l, v);
    } else {
      var end :| Path(q.link, q.getHead, q.getList, end);
      PathFrame(q.link, q.getHead, q.getList, end, l, v);
    }
    hide Path, Distinct;
    assert Heads(r);
    hide Heads;
    assert Wakeups(r) by {
      assert forall i :: 0 <= i < |q.ps| && q.ps[i].Signalling? ==> r.ps[i].Signalling?;
    }
  }

  lemma AppendKeeps(q: Queue, p: nat)
    requires Inv(q) && Enabled(q, Append(p)) && Readable(q)
    ensures Inv(Next(q, Append(p)))
  {
    var r := Next(q, Append(p));
    if q.cnt >= q.max {
      assert Wakeups(r) by {
        assert forall i :: 0 <= i < |q.ps| && q.ps[i].Signalling? ==> r.ps[i].Signalling?;
      }
      hide Path, Distinct, Wakeups;
    } else {
      AppendLists(q, p);
      assert r.ps[p].Signalling?;
      assert Wakeups(r) by {
        hide Messages, Heads;
        assert forall i :: 0 <= i < |q.ps| && i != p ==> r.ps[i] == q.ps[i];
      }
      hide Heads, Wakeups;
      AppendMessages(q, p);
    }
  }

  lemma AppendLists(q: Queue, p: nat)
    requires Heads(q) && Counts(q) && Messages(q) && Enabled(q, Append(p)) && q.cnt < q.max && Readable(q)
    ensures Heads(Next(q, Append(p)))
  {
    var msg := q.ps[p].msg;
    PathAppend(q.link, q.putHead, q.putList, q.putTail, msg);
    PathEnd(q.link, q.putHead, q.putList, q.putTail);
    if Sleeping(q) {
      PathFrame(q.link, q.c.empty, [], q.c.empty, q.putTail, Some(msg));
    } else {
      var end :| Path(q.link, q.getHead, q.getList, end);
      PathFrame(q.link, q.getHead, q.getList, end, q.putTail, Some(msg));
    }
  }

  lemma AppendMessages(q: Queue, p: nat)
    requires Messages(q) && Enabled(q, Append(p)) && q.cnt < q.max && Readable(q)
    requires Path(q.link, q.putHead, q.putList, q.putTail) && q.putHead.Head?
    ensures Messages(Next(q, Append(p)))
  {
    var r := Next(q, Append(p));
    var msg := q.ps[p].msg;
    PathEnd(q.link, q.putHead, q.putList, q.putTail);
    hide Path;
    assert Distinct(r.putList) by {
      assert forall i :: 0 <= i < |q.putList| ==> q.putList[i] != msg;
    }
    forall i | 0 <= i < |r.ps| && Carries(r.ps[i])
      ensures r.ps[i].msg != msg && r.ps[i].msg !in r.putList && r.link[Link(r.ps[i].msg)] == None
    {
      assert i != p && r.ps[i] == q.ps[i];
    }
  }

  /** Only threads' places in their code change, and no message comes or goes. */
  lemma TurnKeeps(q: Queue, r: Queue)
    requires Heads(q) && Counts(q) && Messages(q) && Fifo(q) && SameLists(q, r)
    requires |r.ps| == |q.ps| && (Sleeping(r) <==> Sleeping(q)) && (Sleeping(q) ==> r.c.empty == q.c.empty)
    requires r.c.Taking? ==> q.c.Taking?
    requires forall p :: 0 <= p < |q.ps| && Carries(r.ps[p]) ==>
      Carries(q.ps[p]) && q.ps[p].msg == r.ps[p].msg
    ensures Heads(r) && Counts(r) && Messages(r) && Fifo(r)
  {
    hide Path, Distinct;
  }

  lemma SignalKeeps(q: Queue, p: nat)
    requires Inv(q) && Enabled(q, Signal(p)) && Readable(q)
    ensures Inv(Next(q, Signal(p)))
  {
    var r := Next(q, Signal(p));
    hide Heads, Messages, Fifo;
    TurnKeeps(q, r);
    assert forall i :: 0 <= i < |q.ps| && r.ps[i].PutAsleep? ==> q.ps[i].PutAsleep?;
  }

  lemma WakeKeeps(q: Queue, a: Action)
    requires Inv(q) && Enabled(q, a) && Readable(q) && (a.WakeProducer? || a.WakeConsumer?)
    ensures Inv(Next(q, a))
  {
    var r := Next(q, a);
    hide Heads, Messages, Fifo;
    TurnKeeps(q, r);
    assert forall i :: 0 <= i < |q.ps| && r.ps[i].PutAsleep? ==> q.ps[i].PutAsleep?;
    assert forall i :: 0 <= i < |q.ps| && q.ps[i].Signalling? ==> r.ps[i].Signalling?;
  }

  lemma TakeKeeps(q: Queue)
    requires Inv(q) && !Sleeping(q) && q.getList != [] && Readable(q) && Link(q.getList[0]) in q.link
    ensures Inv(TakeFirst(q))
  {
    var r := TakeFirst(q);
    var end :| Path(q.link, q.getHead, q.getList, end);
    var rest, m := q.getList[1..], q.getList[0];
    TakePath(q.link, q.getHead, q.getList, end);
    PathFrame(q.link, q.putHead, q.putList, q.putTail, q.getHead, q.link[Link(m)]);
    assert q.getList == [m] + rest;
    assert Heads(r) by {
      hide Path;
    }
    hide Path, Heads;
    assert Messages(r) && Fifo(r) && Counts(r);
  }

  lemma TakePath(link: map<Loc, Option<nat>>, head: Loc, q: seq<nat>, end: Loc)
    requires Path(link, head, q, end) && head.Head? && q != []
    ensures Link(q[0]) in link
    ensures Path(link[head := link[Link(q[0])]], head, q[1..], if |q| == 1 then head else end)
  {
    if |q| > 1 {
      var rest := q[1..];
      PathFrame(link, Link(rest[0]), rest[1..], end, head, link[Link(q[0])]);
    }
  }

  lemma LookKeeps(q: Queue)
    requires Inv(q) && Enabled(q, Look) && Readable(q)
    ensures Inv(Next(q, Look))
  {
    if q.link[q.getHead].Some? {
      TakeKeeps(q);
    } else {
      var r := Next(q, Look);
      var end :| Path(q.link, q.getHead, q.getList, end);
      assert q.getList == [] && Path(q.link, q.getHead, [], q.getHead);
      hide Path, Distinct;
      assert Heads(r);
    }
  }

  lemma SwapKeeps(q: Queue)
    requires Inv(q) && Enabled(q, Swap) && Readable(q)
    ensures Inv(Next(q, Swap))
  {
    var r := Next(q, Swap);
    if q.cnt == 0 {
      hide Path;
      TurnKeeps(q, r);
    } else {
      assert Heads(r) by {
        hide Messages, Wakeups, Fifo;
      }
      assert Wakeups(r) by {
        hide Messages, Heads, Fifo;
      }
      hide Heads, Path, Wakeups;
      assert q.getList == [];
    }
  }

  lemma StepKeepsInv(q: Queue, a: Action)
    requires Inv(q) && Enabled(q, a)
    ensures Readable(q) && Inv(Next(q, a))
  {
    InvReadable(q);
    match a
    case Put(p, msg) => PutKeeps(q, p, msg);
    case Append(p) => AppendKeeps(q, p);
    case Signal(p) => SignalKeeps(q, p);
    case WakeProducer(p) => WakeKeeps(q, a);
    case WakeConsumer => WakeKeeps(q, a);
    case Get =>
      hide Heads, Messages, Fifo;
      TurnKeeps(q, Next(q, Get));
    case Look => LookKeeps(q);
    case Swap => SwapKeeps(q);
    case Take => TakeKeeps(q);
  }

  // ------------------------------------------------------- what is promised

  /** A run: actions that are not possible are skipped. */
  ghost function Run(q: Queue, run: seq<Action>): (r: Queue)
    requires Inv(q)
    ensures Inv(r)
  {
    if run == [] then q
    else
      var r, a := Run(q, run[..|run| - 1]), run[|run| - 1];
      if Enabled(r, a) then
        StepKeepsInv(r, a);
        Next(r, a)
      else r
  }

  /** Over every run: messages leave in the order of their puts, each once, and at most
      2 max of them are pending. */
  lemma InOrderAndBounded(q: Queue, run: seq<Action>)
    requires Init(q)
    ensures (InitInv(q); var r := Run(q, run); r.gets <= r.puts && |r.puts| - |r.gets| <= 2 * r.max)
  {
    InitInv(q);
  }

  /** A message that is taken is the oldest one pending. */
  lemma TakesOldest(q: Queue, a: Action)
    requires Inv(q) && Enabled(q, a) && (a.Take? || a.Look?)
    ensures Readable(q)
    ensures var r := Next(q, a); r.gets != q.gets ==>
      |q.gets| < |q.puts| && r.gets == q.gets + [q.puts[|q.gets|]] && r.c.Nobody?
  {
    InvReadable(q);
  }

  /** Over every run no wakeup is lost: a sleeping producer finds the put list full; a
      sleeping consumer finds it empty, unless a producer is about to signal. So producers
      and the consumer never all sleep. */
  lemma NobodyOverslept(q: Queue, run: seq<Action>)
    requires Init(q)
    ensures (InitInv(q); var r := Run(q, run);
      && (forall p :: 0 <= p < |r.ps| && r.ps[p].PutAsleep? ==> r.cnt >= r.max)
      && (r.c.GetAsleep? && (r.cnt > 0 || exists p :: 0 <= p < |r.ps| && r.ps[p].PutAsleep?) ==>
            exists p :: 0 <= p < |r.ps| && r.ps[p].Signalling?))
  {
    InitInv(q);
    var r := Run(q, run);
    hide Run, Heads, Messages, Fifo;
  }
}
