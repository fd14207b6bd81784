/** What the callers of the skip list see: the keys that the actions of a run insert, and the
    answers to what they ask the readers for. */
module SkipCalls {
  import opened SkipModel
  import opened SkipReaders

  ghost function After(s: State, run: seq<Action>): (t: State)
    requires Initial(s)
    ensures Inv(t)
  {
    InitialInv(s);
    Run(s, run)
  }

  ghost function Do(s: State, a: Action): (t: State)
    requires Inv(s)
    ensures Inv(t)
  {
    if Enabled(s, a) then
      StepKeepsInv(s, a);
      Next(s, a)
    else s
  }

  // ------------------------------------------------------- questions and answers

  datatype Question = Nothing | Question(kind: Search, target: int)

  /** The last search that reader r has been started with. */
  function Asked(run: seq<Action>, r: nat): Question {
    if run == [] then Nothing
    else
      var k := |run| - 1;
      if run[k].Start? && run[k].r == r then Question(run[k].kind, run[k].target) else Asked(run[..k], r)
  }

  /** What the search for q should return on a level with keys s. */
  ghost predicate Right(s: set<int>, q: Question, result: Ref)
    requires q.Question?
  {
    match q.kind
    case AtLeast => IsLeastFrom(s, q.target, result)
    case Less => IsPred(s, q.target, result)
  }

  /** The j-th action is the load with which reader r answers, and its answer is right for the
      bottom level at that instant. */
  ghost predicate AnswersAt(s: State, run: seq<Action>, r: nat, j: nat, q: Question, result: Ref)
    requires Initial(s) && q.Question?
  {
    && j < |run| && run[j] == Load(r)
    && var t, t' := After(s, run[..j]), After(s, run[..j + 1]);
       && r < |t.rs| && r < |t'.rs| && t.rs[r].At? && t'.rs[r] == Answered(q.kind, q.target, result)
       && Asked(run[..j], r) == q
       && |t.s| > 0 && Right(t.s[0], q, result)
  }

  /** Where reader r is: it has not been asked, or searches for what it has been asked for,
      or has answered that. */
  ghost predicate Serves(s: State, run: seq<Action>, r: nat)
    requires Initial(s)
  {
    var t, q := After(s, run), Asked(run, r);
    && r < |t.rs|
    && match t.rs[r]
       case Out => q == Nothing
       case At(kind, target, _, _, _) => q == Question(kind, target)
       case Answered(kind, target, result) =>
         q == Question(kind, target) && exists j :: AnswersAt(s, run, r, j, q, result)
  }

  /** A longer run does not change an answer that has been given. */
  lemma AnswerStays(s: State, run: seq<Action>, r: nat, j: nat, q: Question, result: Ref)
    requires Initial(s) && q.Question? && run != []
    requires AnswersAt(s, run[..|run| - 1], r, j, q, result)
    ensures AnswersAt(s, run, r, j, q, result)
  {
    assert run[..|run| - 1][..j] == run[..j];
    assert run[..|run| - 1][..j + 1] == run[..j + 1];
    hide After, Right, Initial, Asked;
  }

  /** What one action does to reader r. */
  lemma StepOfReader(s: State, a: Action, r: nat)
    requires Inv(s) && r < |s.rs|
    ensures var t := Do(s, a);
      && |t.rs| == |s.rs|
      && (a.Start? && a.r == r ==>
            t.rs[r].At? && t.rs[r].kind == a.kind && t.rs[r].target == a.target)
      && (a == Load(r) && s.rs[r].At? ==>
            if t.rs[r].Answered? then
              && t.rs[r].kind == s.rs[r].kind && t.rs[r].target == s.rs[r].target
              && |s.s| > 0 && Right(s.s[0], Question(s.rs[r].kind, s.rs[r].target), t.rs[r].result)
            else t.rs[r].At? && t.rs[r].kind == s.rs[r].kind && t.rs[r].target == s.rs[r].target)
      && (!(a.Start? && a.r == r) && !(a == Load(r) && s.rs[r].At?) ==> t.rs[r] == s.rs[r])
  {
    if a == Load(r) && s.rs[r].At? {
      LevelsAreThere(s, r);
      if Next(s, a).rs[r].Answered? {
        AnswerIsRight(s, r);
      }
    }
    hide Inv, IsLeastFrom, IsPred;
  }

  lemma LevelsAreThere(s: State, r: nat)
    requires Inv(s) && r < |s.rs| && s.rs[r].At?
    ensures |s.s| > 0
  {
    assert ReaderOk(s.s, s.rs[r]);
  }

  /** In every run each reader serves the last question it has been asked, and its answer was
      right for the bottom level at the instant of its last load. */
  lemma {:induction false} EachAnswerIsRight(s: State, run: seq<Action>, r: nat)
    requires Initial(s) && r < |s.rs|
    ensures Serves(s, run, r) && |After(s, run).rs| == |s.rs|
    decreases |run|
  {
    if run != [] {
      var k := |run| - 1;
      var t, t' := After(s, run[..k]), After(s, run);
      EachAnswerIsRight(s, run[..k], r);
      assert t' == Do(t, run[k]);
      StepOfReader(t, run[k], r);
      hide Inv, Do, Initial, Right, AnswersAt, After;
      if t'.rs[r].Answered? {
        var q, result := Asked(run, r), t'.rs[r].result;
        if t.rs[r].Answered? {
          var j :| AnswersAt(s, run[..k], r, j, q, result);
          AnswerStays(s, run, r, j, q, result);
        } else {
          AnswerNow(s, run, r, q, result);
        }
      }
    }
  }

  /** The last action of the run is the load with which reader r answers. */
  lemma AnswerNow(s: State, run: seq<Action>, r: nat, q: Question, result: Ref)
    requires Initial(s) && q.Question? && run != [] && run[|run| - 1] == Load(r) && Asked(run, r) == q
    requires var t, t' := After(s, run[..|run| - 1]), After(s, run);
      && r < |t.rs| && r < |t'.rs| && t.rs[r].At? && t'.rs[r] == Answered(q.kind, q.target, result)
      && |t.s| > 0 && Right(t.s[0], q, result)
    ensures AnswersAt(s, run, r, |run| - 1, q, result)
  {
    assert run[..|run| - 1 + 1] == run;
    hide After, Right, Initial;
  }

  /** Contains answers true exactly if the key asked for was on the bottom level at the instant
      of the reader's last load. */
  lemma ContainsAnswers(s: State, run: seq<Action>, r: nat, key: int) returns (j: nat)
    requires Initial(s) && r < |s.rs| && Asked(run, r) == Question(AtLeast, key)
    requires r < |After(s, run).rs| && After(s, run).rs[r].Answered?
    ensures j < |run| && run[j] == Load(r) && Asked(run[..j], r) == Asked(run, r)
    ensures var at, result := After(s, run[..j]), After(s, run).rs[r].result;
      && r < |at.rs| && at.rs[r].At? && |at.s| > 0
      && ((result.Node? && result.key == key) <==> key in at.s[0])
  {
    EachAnswerIsRight(s, run, r);
    var result := After(s, run).rs[r].result;
    j :| AnswersAt(s, run, r, j, Asked(run, r), result);
    LeastIsKey(After(s, run[..j]).s[0], key, result);
    hide After, Initial;
  }

  lemma LeastIsKey(s: set<int>, key: int, q: Ref)
    requires IsLeastFrom(s, key, q)
    ensures (q.Node? && q.key == key) <==> key in s
  {
    if key in s {
      assert !Lt(Node(key), q);
    }
  }

  // ------------------------------------------------------- the keys that are there

  /** The keys handed to Insert. */
  ghost function Begun(s: State, run: seq<Action>): set<int>
    requires Initial(s)
  {
    if run == [] then {}
    else
      var k := |run| - 1;
      Begun(s, run[..k]) + if run[k].Begin? && Enabled(After(s, run[..k]), run[k]) then {run[k].key} else {}
  }

  /** The key of an insertion that has not stored its link on the bottom level. */
  ghost function Unseen(w: Writer): set<int> {
    match w
    case Rest => {}
    case Raising(key, _, _) => {key}
    case Init(key, _, _, i) => if i == 0 then {key} else {}
    case Publish(key, _, _, i) => if i == 0 then {key} else {}
  }

  lemma StepOfKeys(s: State, a: Action)
    requires Inv(s) && |s.s| > 0
    ensures var t := Do(s, a);
      && |t.s| == |s.s| && s.s[0] <= t.s[0]
      && t.s[0] + Unseen(t.w) == s.s[0] + Unseen(s.w) + (if a.Begin? && Enabled(s, a) then {a.key} else {})
      && Unseen(t.w) !! t.s[0]
  {
    hide Ordered, ReadersOk, IsPred;
  }

  /** In every run the bottom level holds exactly the keys handed to Insert, but for the one
      whose insertion has not reached it; keys never leave. */
  lemma {:induction false} KeysOfRun(s: State, run: seq<Action>)
    requires Initial(s)
    ensures var t := After(s, run);
      |t.s| > 0 && t.s[0] + Unseen(t.w) == Begun(s, run) && t.s[0] !! Unseen(t.w)
    decreases |run|
  {
    if run != [] {
      var k := |run| - 1;
      KeysOfRun(s, run[..k]);
      assert After(s, run) == Do(After(s, run[..k]), run[k]);
      StepOfKeys(After(s, run[..k]), run[k]);
      hide Inv, Do, Initial, Unseen, Enabled;
    }
  }

  // ------------------------------------------------------- progress

  /** n loads of reader r and of nobody else. */
  ghost function Loads(s: State, r: nat, n: nat): (t: State)
    requires Inv(s)
    ensures Inv(t)
    decreases n
  {
    if n == 0 then s else Loads(Do(s, Load(r)), r, n - 1)
  }

  /** The loads that reader r has left at most: the levels below, and the keys in front. */
  ghost function Ahead(s: State, r: nat): nat
    requires r < |s.rs| && s.rs[r].At? && |s.s| > 0
  {
    s.rs[r].level + |Behind(s.s[0], s.rs[r].x)|
  }

  lemma FewerBehind(s: set<int>, p: Ref, k: int)
    requires k in s && Lt(p, Node(k))
    ensures |Behind(s, Node(k))| < |Behind(s, p)|
  {
    var a, b := Behind(s, Node(k)), Behind(s, p);
    assert a <= b && k in b && k !in a;
    assert b == a + (b - a) && a !! b - a && k in b - a;
  }

  lemma LoadComesCloser(s: State, r: nat)
    requires Inv(s) && r < |s.rs| && s.rs[r].At? && |s.s| > 0
    ensures var t := Do(s, Load(r));
      && t == s.(rs := s.rs[r := t.rs[r]]) && |t.rs| == |s.rs|
      && !t.rs[r].Out? && t.rs[r].kind == s.rs[r].kind && t.rs[r].target == s.rs[r].target
      && (t.rs[r].At? ==> Ahead(t, r) < Ahead(s, r))
  {
    var rd := s.rs[r];
    assert ReaderOk(s.s, rd);
    DecideKeeps(s.m, s.s, rd);
    var next := s.m.next[rd.level][rd.x];
    assert IsNext(s.s[rd.level], rd.x, next) by {
      assert Linked(s.m.next[rd.level], s.s[rd.level]);
    }
    LevelsNest(s.m, s.s, 0, rd.level);
    if next.Node? {
      FewerBehind(s.s[0], rd.x, next.key);
    }
    hide Inv, Behind, ReaderOk, IsNext;
  }

  /** A reader on its own answers within as many loads as there are levels below it and keys in
      front of it, and one more; the answer is right for the list as it stands. */
  lemma {:induction false} SearchEnds(s: State, r: nat) returns (n: nat)
    requires Inv(s) && r < |s.rs| && s.rs[r].At? && |s.s| > 0
    ensures n <= Ahead(s, r) + 1
    ensures var t, rd := Loads(s, r, n), s.rs[r];
      && t == s.(rs := t.rs) && r < |t.rs| && t.rs[r].Answered?
      && Right(s.s[0], Question(rd.kind, rd.target), t.rs[r].result)
    decreases Ahead(s, r)
  {
    var t := Do(s, Load(r));
    LoadComesCloser(s, r);
    StepOfReader(s, Load(r), r);
    hide Inv, Do, Right, Ahead;
    if t.rs[r].Answered? {
      n := 1;
      assert Loads(s, r, 1) == Loads(t, r, 0) == t;
    } else {
      n := SearchEnds(t, r);
      n := n + 1;
    }
  }

  /** A search on its own, from start to answer: at most one load for each level up to the
      height and one for each key. */
  lemma SearchAlone(s: State, r: nat, kind: Search, target: int) returns (n: nat)
    requires Inv(s) && r < |s.rs| && |s.s| > 0
    ensures n <= s.m.height + |s.s[0]|
    ensures var t := Loads(Do(s, Start(r, kind, target)), r, n);
      && t == s.(rs := t.rs) && r < |t.rs| && t.rs[r].Answered?
      && Right(s.s[0], Question(kind, target), t.rs[r].result)
  {
    var s1 := Do(s, Start(r, kind, target));
    assert s.m.height >= 1;
    assert s1 == s.(rs := s1.rs) && s1.rs[r] == At(kind, target, Head, s.m.height - 1, Null);
    assert Behind(s.s[0], Head) == s.s[0];
    hide Inv, Do, Right;
    n := SearchEnds(s1, r);
  }
}
