/** One writer inside Insert and any number of searching readers, step by step: every store
    of the writer and every load of a reader is one step. */
module SkipReaders {
  import opened SkipModel

  /** The writer before its next store: the height, then for every level from the bottom the
      link of the new node and the link to it. */
  datatype Writer =
    | Rest
    | Raising(key: int, h: nat, prev: seq<Ref>)
    | Init(key: int, h: nat, prev: seq<Ref>, i: nat)
    | Publish(key: int, h: nat, prev: seq<Ref>, i: nat)

  /** FindGreaterOrEqual or FindLessThan. */
  datatype Search = AtLeast | Less

  /** A reader before its next load, with its local variables; `last` is the next node that
      made it go down a level, and is known to be behind the target. */
  datatype Reader =
    | Out
    | At(kind: Search, target: int, x: Ref, level: nat, last: Ref)
    | Answered(kind: Search, target: int, result: Ref)

  datatype State = State(m: Mem, w: Writer, rs: seq<Reader>, ghost s: Levels)

  datatype Action =
    | Begin(key: int, h: nat, prev: seq<Ref>)
    | Write
    | Start(r: nat, kind: Search, target: int)
    | Load(r: nat)

  /** What the search of Insert hands over: the predecessors of the key on every level. */
  ghost predicate Preds(s: Levels, key: int, h: nat, prev: seq<Ref>) {
    |prev| >= h && forall i :: 0 <= i < h && i < |s| ==> IsPred(s[i], key, prev[i])
  }

  ghost predicate Enabled(s: State, a: Action) {
    match a
    case Begin(key, h, prev) =>
      s.w.Rest? && |s.s| > 0 && key !in s.s[0] && 1 <= h <= |s.s| && Preds(s.s, key, h, prev)
    case Write => !s.w.Rest?
    case Start(r, kind, target) => r < |s.rs|
    case Load(r) => r < |s.rs| && s.rs[r].At?
  }

  /** The writer's next store. */
  ghost function WriterStep(s: State): State
    requires !s.w.Rest? && (s.w.Init? || s.w.Publish? ==> s.w.i < |s.m.next| && s.w.i < |s.w.prev| && s.w.i < |s.s|)
    requires s.w.Init? ==> s.w.prev[s.w.i] in s.m.next[s.w.i]
  {
    match s.w
    case Raising(key, h, prev) =>
      s.(m := if h > s.m.height then StoreHeight(s.m, h) else s.m, w := Init(key, h, prev, 0))
    case Init(key, h, prev, i) =>
      s.(m := SetNext(s.m, i, Node(key), s.m.next[i][prev[i]]), w := Publish(key, h, prev, i))
    case Publish(key, h, prev, i) =>
      s.(m := SetNext(s.m, i, prev[i], Node(key)),
         w := if i + 1 < h then Init(key, h, prev, i + 1) else Rest,
         s := s.s[i := s.s[i] + {key}])
  }

  /** What a reader does with the link it has loaded. */
  function Decide(r: Reader, next: Ref): Reader
    requires r.At?
  {
    match r.kind
    case AtLeast =>
      var cmp := if next == Null || next == r.last then 1
                 else if next.Node? && next.key > r.target then 1
                 else if next.Node? && next.key == r.target then 0 else -1;
      if cmp == 0 || (cmp > 0 && r.level == 0) then Answered(r.kind, r.target, next)
      else if cmp < 0 then r.(x := next)
      else r.(last := next, level := r.level - 1)
    case Less =>
      if next != r.last && next.Node? && next.key < r.target then r.(x := next)
      else if r.level == 0 then Answered(r.kind, r.target, r.x)
      else r.(last := next, level := r.level - 1)
  }

  /** The link that the reader loads is one that has been stored. */
  ghost predicate Loadable(m: Mem, r: Reader) {
    r.At? && r.level < |m.next| && r.x in m.next[r.level]
  }

  ghost function Next(s: State, a: Action): State
    requires Enabled(s, a) && Inv(s)
  {
    match a
    case Begin(key, h, prev) => s.(w := Raising(key, h, prev))
    case Write => WriterStep(s)
    case Start(r, kind, target) => s.(rs := s.rs[r := At(kind, target, Head, s.m.height - 1, Null)])
    case Load(r) => s.(rs := s.rs[r := Decide(s.rs[r], s.m.next[s.rs[r].level][s.rs[r].x])])
  }

  // ------------------------------------------------------- the invariant

  ghost predicate WriterOk(s: State) {
    match s.w
    case Rest => true
    case Raising(key, h, prev) =>
      1 <= h <= |s.s| && Preds(s.s, key, h, prev) && forall j :: 0 <= j < |s.s| ==> key !in s.s[j]
    case Init(key, h, prev, i) => Inserting(s, key, h, prev, i)
    case Publish(key, h, prev, i) =>
      && Inserting(s, key, h, prev, i)
      && Node(key) in s.m.next[i] && prev[i] in s.m.next[i]
      && s.m.next[i][Node(key)] == s.m.next[i][prev[i]]
  }

  /** The key is on all levels below i, and its predecessors are known on the others up to h. */
  ghost predicate Inserting(s: State, key: int, h: nat, prev: seq<Ref>, i: nat) {
    && i < h <= s.m.height && h <= |prev| && |s.m.next| == |s.s| && h <= |s.s|
    && (forall j :: i <= j < h ==> IsPred(s.s[j], key, prev[j]))
    && (forall j :: 0 <= j < i ==> key in s.s[j])
    && (forall j :: i <= j < |s.s| ==> key !in s.s[j])
  }

  /** A searching reader stands on its level, before the target; the node it remembers is
      behind the target. */
  ghost predicate ReaderOk(s: Levels, r: Reader) {
    r.At? ==>
      && r.level < |s| && On(s[r.level], r.x) && Lt(r.x, Node(r.target))
      && (r.last == Null || (r.last.Node? && r.last.key >= r.target && (r.kind.AtLeast? ==> r.last.key > r.target)))
  }

  ghost predicate ReadersOk(s: Levels, rs: seq<Reader>) {
    forall r :: 0 <= r < |rs| ==> ReaderOk(s, rs[r])
  }

  ghost predicate Inv(s: State) {
    Ordered(s.m, s.s) && WriterOk(s) && ReadersOk(s.s, s.rs)
  }

  /** The list as constructed: the head's links are null on every level. */
  ghost predicate Initial(s: State) {
    && |s.s| >= 1 && |s.m.next| == |s.s| && s.m.height == 1 && s.w == Rest
    && (forall i :: 0 <= i < |s.s| ==> s.s[i] == {} && s.m.next[i] == map[Head := Null])
    && (forall r :: 0 <= r < |s.rs| ==> s.rs[r].Out?)
  }

  lemma InitialInv(s: State)
    requires Initial(s)
    ensures Inv(s)
  {
  }

  // ------------------------------------------------------- every step keeps it

  /** Levels that only grow keep a reader where it may be. */
  lemma ReadersStay(s: Levels, t: Levels, rs: seq<Reader>)
    requires ReadersOk(s, rs) && |t| == |s| && forall i :: 0 <= i < |s| ==> s[i] <= t[i]
    ensures ReadersOk(t, rs)
  {
    forall r | 0 <= r < |rs|
      ensures ReaderOk(t, rs[r])
    {
      assert ReaderOk(s, rs[r]);
    }
  }

  lemma WriteKeeps(s: State)
    requires Inv(s) && !s.w.Rest?
    ensures Inv(WriterStep(s))
  {
    if s.w.Raising? {
      RaisingKeeps(s);
    } else if s.w.Init? {
      InitStoreKeeps(s);
    } else {
      PublishStoreKeeps(s);
    }
  }

  lemma RaisingKeeps(s: State)
    requires Inv(s) && s.w.Raising?
    ensures Inv(WriterStep(s))
  {
    hide ReadersOk, ReaderOk;
    if s.w.h > s.m.height {
      RaiseKeeps(s.m, s.s, s.w.h);
    }
    hide Ordered, IsPred;
  }

  lemma InitStoreKeeps(s: State)
    requires Inv(s) && s.w.Init?
    ensures Inv(WriterStep(s))
  {
    var key, prev, i := s.w.key, s.w.prev, s.w.i;
    assert IsPred(s.s[i], key, prev[i]) && |s.m.next| == |s.s|;
    assert Linked(s.m.next[i], s.s[i]) && On(s.s[i], prev[i]);
    assert prev[i] in s.m.next[i] && prev[i] != Node(key);
    hide ReadersOk, Ordered, IsPred, Linked, On;
    InitKeeps(s.m, s.s, i, key, s.m.next[i][prev[i]]);
  }

  lemma PublishStoreKeeps(s: State)
    requires Inv(s) && s.w.Publish?
    ensures Inv(WriterStep(s))
  {
    var key, prev, i := s.w.key, s.w.prev, s.w.i;
    hide ReadersOk, Ordered, IsPred, Linked, On;
    PublishKeeps(s.m, s.s, i, key, prev[i]);
    ReadersStay(s.s, s.s[i := s.s[i] + {key}], s.rs);
  }

  /** A load keeps the reader where it may be. */
  lemma DecideKeeps(m: Mem, s: Levels, r: Reader)
    requires Ordered(m, s) && ReaderOk(s, r) && r.At?
    ensures Loadable(m, r) && ReaderOk(s, Decide(r, m.next[r.level][r.x]))
  {
    assert Linked(m.next[r.level], s[r.level]);
    var next := m.next[r.level][r.x];
    assert IsNext(s[r.level], r.x, next);
    if r.level > 0 {
      assert s[r.level] <= s[r.level - 1];
    }
  }

  lemma StepKeepsInv(s: State, a: Action)
    requires Inv(s) && Enabled(s, a)
    ensures Inv(Next(s, a))
  {
    match a
    case Begin(key, h, prev) =>
      forall j | 0 <= j < |s.s|
        ensures key !in s.s[j]
      {
        LevelsNest(s.m, s.s, 0, j);
      }
    case Write =>
      WriteKeeps(s);
    case Start(r, kind, target) =>
    case Load(r) =>
      assert ReaderOk(s.s, s.rs[r]);
      DecideKeeps(s.m, s.s, s.rs[r]);
  }

  /** A run: actions that are not possible are skipped. */
  ghost function Run(s: State, run: seq<Action>): State
    requires Inv(s)
    ensures Inv(Run(s, run))
  {
    if run == [] then s
    else
      var r := Run(s, run[..|run| - 1]);
      if Enabled(r, run[|run| - 1]) then
        StepKeepsInv(r, run[|run| - 1]);
        Next(r, run[|run| - 1])
      else r
  }

  // ------------------------------------------------------- what the searches return

  /** q is the least key at or behind target on a level with keys s, or nullptr. */
  ghost predicate IsLeastFrom(s: set<int>, target: int, q: Ref) {
    && (q == Null || (q.Node? && q.key in s && q.key >= target))
    && forall k :: k in s && k >= target ==> !Lt(Node(k), q)
  }

  /** The answer of a search is right for the bottom level at the instant of its last load. */
  lemma AnswerIsRight(s: State, r: nat)
    requires Inv(s) && r < |s.rs| && s.rs[r].At? && Next(s, Load(r)).rs[r].Answered?
    ensures var a := Next(s, Load(r)).rs[r];
      && a.target == s.rs[r].target
      && match s.rs[r].kind
         case AtLeast => IsLeastFrom(s.s[0], a.target, a.result)
         case Less => IsPred(s.s[0], a.target, a.result)
  {
    var rd := s.rs[r];
    assert ReaderOk(s.s, rd);
    DecideKeeps(s.m, s.s, rd);
    var next := s.m.next[rd.level][rd.x];
    assert IsNext(s.s[rd.level], rd.x, next);
    LevelsNest(s.m, s.s, 0, rd.level);
    if rd.level > 0 {
      assert next.Node? && next.key == rd.target;
    } else {
      forall k | k in s.s[0]
        ensures k >= rd.target || rd.kind.Less? ==> Lt(rd.x, Node(k)) ==> !Lt(Node(k), next)
      {
      }
    }
  }

  /** In every reachable state, every level is walked in strictly increasing order, its keys
      are among those of the level below, and no reader is about to load a link that has not
      been stored. */
  lemma ReachableStates(s: State, run: seq<Action>)
    requires Initial(s)
    ensures (InitialInv(s); var t := Run(s, run);
      && |t.s| == |t.m.next|
      && (forall i :: 0 <= i < |t.s| ==>
            var walk := Walk(t.m.next[i], Head, |t.s[i]|);
            Increasing(walk) && forall k :: k in walk <==> k in t.s[i])
      && (forall i :: 0 < i < |t.s| ==> t.s[i] <= t.s[i - 1])
      && (forall r :: 0 <= r < |t.rs| && t.rs[r].At? ==> Loadable(t.m, t.rs[r])))
  {
    InitialInv(s);
    var t := Run(s, run);
    forall i | 0 <= i < |t.s|
      ensures var walk := Walk(t.m.next[i], Head, |t.s[i]|);
        Increasing(walk) && forall k :: k in walk <==> k in t.s[i]
    {
      assert Behind(t.s[i], Head) == t.s[i];
      WalkMeetsAll(t.m.next[i], t.s[i], Head, |t.s[i]|);
    }
    forall r | 0 <= r < |t.rs| && t.rs[r].At?
      ensures Loadable(t.m, t.rs[r])
    {
      assert ReaderOk(t.s, t.rs[r]);
      DecideKeeps(t.m, t.s, t.rs[r]);
    }
  }

  /** n stores of the writer. */
  ghost function Writes(s: State, n: nat): (t: State)
    requires Inv(s)
    ensures Inv(t)
    decreases n
  {
    if n == 0 || s.w.Rest? then s
    else
      WriteKeeps(s);
      Writes(WriterStep(s), n - 1)
  }

  /** The levels after `key` has been put on those from i up to h. */
  ghost function With(s: Levels, key: int, i: nat, h: nat): Levels {
    seq(|s|, j requires 0 <= j < |s| => if i <= j < h then s[j] + {key} else s[j])
  }

  /** The place of the writer's next two stores. */
  lemma InitFacts(s: State)
    requires Inv(s) && s.w.Init?
    ensures s.w.i < s.w.h && s.w.i < |s.m.next| && s.w.i < |s.s| && s.w.i < |s.w.prev|
    ensures s.w.prev[s.w.i] in s.m.next[s.w.i] && |s.m.next| == |s.s|
    ensures WriterStep(s).w == Publish(s.w.key, s.w.h, s.w.prev, s.w.i) && WriterStep(s).s == s.s
  {
    assert IsPred(s.s[s.w.i], s.w.key, s.w.prev[s.w.i]);
    assert Linked(s.m.next[s.w.i], s.s[s.w.i]);
    hide Linked, IsPred;
  }

  lemma OneWrite(s: State, n: nat)
    requires Inv(s) && !s.w.Rest? && n > 0
    ensures Inv(WriterStep(s)) && Writes(s, n) == Writes(WriterStep(s), n - 1)
  {
    WriteKeeps(s);
    hide Ordered, WriterOk, ReadersOk, WriterStep;
  }

  /** Two stores, the link of the new node and the link to it. */
  lemma TwoWrites(s: State, left: nat)
    requires Inv(s) && s.w.Init? && s.w.h - s.w.i == left
    ensures left > 0 && s.w.i < |s.m.next| && s.w.i < |s.s| && s.w.i < |s.w.prev|
    ensures s.w.prev[s.w.i] in s.m.next[s.w.i] && |s.m.next| == |s.s|
    ensures Inv(WriterStep(s)) && WriterStep(s).w.Publish? && WriterStep(s).w.i < |s.s|
    ensures Inv(WriterStep(WriterStep(s)))
    ensures Writes(s, 2 * left) == Writes(WriterStep(WriterStep(s)), 2 * (left - 1))
  {
    hide Inv, WriterStep, Writes;
    InitFacts(s);
    OneWrite(s, 2 * left);
    OneWrite(WriterStep(s), 2 * left - 1);
  }

  /** What the two stores do. */
  lemma TwoStores(s: State)
    requires Inv(s) && s.w.Init? && Inv(WriterStep(s)) && WriterStep(s).w.Publish? && WriterStep(s).w.i < |s.s|
    ensures var r, i := WriterStep(WriterStep(s)), s.w.i;
      && i < s.w.h && i < |s.s| && r.s == s.s[i := s.s[i] + {s.w.key}]
      && r.w == if i + 1 < s.w.h then Init(s.w.key, s.w.h, s.w.prev, i + 1) else Rest
  {
    InitFacts(s);
    hide Inv;
  }

  lemma {:induction false} WritesFrom(s: State)
    requires Inv(s) && s.w.Init?
    ensures var t := Writes(s, 2 * (s.w.h - s.w.i)); t.w.Rest? && t.s == With(s.s, s.w.key, s.w.i, s.w.h)
    decreases s.w.h - s.w.i
  {
    hide Inv, With;
    var key, h, i := s.w.key, s.w.h, s.w.i;
    InitFacts(s);
    TwoWrites(s, h - i);
    TwoStores(s);
    WithStep(s.s, key, i, h);
    if i + 1 < h {
      hide Writes;
      WritesFrom(WriterStep(WriterStep(s)));
    }
  }

  lemma WithStep(s: Levels, key: int, i: nat, h: nat)
    requires i < h && i < |s|
    ensures With(s[i := s[i] + {key}], key, i + 1, h) == With(s, key, i, h)
    ensures i + 1 == h ==> With(s, key, i, h) == s[i := s[i] + {key}]
  {
  }

  /** An insertion puts its key on exactly the levels below the chosen height. */
  lemma WriterFinishes(s: State, key: int, h: nat, prev: seq<Ref>)
    requires Inv(s) && Enabled(s, Begin(key, h, prev))
    ensures (StepKeepsInv(s, Begin(key, h, prev)); var t := Writes(Next(s, Begin(key, h, prev)), 1 + 2 * h);
      t.w.Rest? && t.s == With(s.s, key, 0, h))
  {
    StepKeepsInv(s, Begin(key, h, prev));
    var s0 := Next(s, Begin(key, h, prev));
    WriteKeeps(s0);
    WritesFrom(WriterStep(s0));
  }
}
