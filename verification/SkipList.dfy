/** The writer's side of the skip list: the predecessor search, the fast path for sequential
    insertions, and the insertion itself. */
module SkipList {
  import opened SkipModel
  import opened SkipReaders

  /** KeyIsAfterNode: nullptr is behind every key. */
  predicate KeyIsAfterNode(key: int, n: Ref) {
    n != Null && Lt(n, Node(key))
  }

  class SkipList {
    var m: Mem
    /** prev_ and prev_height_. */
    var prev: array<Ref>
    var prevHeight: nat
    /** The keys on every level. */
    ghost var levels: Levels

    ghost predicate Valid()
      reads this, prev
    {
      Ordered(m, levels) && prev.Length == |levels| && Cached()
    }

    /** What the cache holds between insertions: the node inserted last, its height, and its
        predecessors on all levels but the lowest; before the first insertion, the head. */
    ghost predicate Cached()
      requires Ordered(m, levels) && prev.Length == |levels|
      reads this, prev
    {
      match prev[0]
      case Head => prevHeight == 1 && m.height == 1
      case Node(k) =>
        && 1 <= prevHeight <= m.height
        && (forall i :: 0 <= i < |levels| ==> (k in levels[i] <==> i < prevHeight))
        && (forall i :: 1 <= i < m.height ==> IsPred(levels[i], k, prev[i]))
      case Null => false
    }

    constructor (maxHeight: nat)
      requires maxHeight > 0
      ensures Valid() && levels == seq(maxHeight, _ => {}) && m.height == 1
    {
      m := Mem(seq(maxHeight, _ => map[Head := Null]), 1);
      prev := new Ref[maxHeight](_ => Head);
      prevHeight := 1;
      levels := seq(maxHeight, _ => {});
    }

    /** FindLessThan, filling prev for every level of the list. */
    method FindLessThan(key: int) returns (x: Ref)
      requires Ordered(m, levels) && prev.Length == |levels|
      modifies prev
      ensures IsPred(levels[0], key, x)
      ensures forall i :: 0 <= i < m.height ==> IsPred(levels[i], key, prev[i])
    {
      x := Head;
      var level := m.height - 1;
      var lastNotAfter := Null;
      hide Ordered, On, IsPred, Lt;
      SearchStarts(m, levels, key);
      while true
        invariant Searching(m, levels, key, x, level, lastNotAfter)
        invariant forall i :: level < i < m.height ==> IsPred(levels[i], key, prev[i])
        decreases level, |Behind(levels[level], x)|
      {
        SearchLoads(m, levels, key, x, level, lastNotAfter);
        var next := m.next[level][x];
        if next != lastNotAfter && KeyIsAfterNode(key, next) {
          x := next;
        } else {
          prev[level] := x;
          if level == 0 {
            return;
          }
          lastNotAfter := next;
          level := level - 1;
        }
      }
    }

    /** The fast path: the cache of the previous insertion already holds the predecessors. */
    method UseCache(key: int)
      requires Valid() && prev[0] in m.next[0]
      requires !KeyIsAfterNode(key, m.next[0][prev[0]]) && (prev[0] == Head || KeyIsAfterNode(key, prev[0]))
      modifies prev
      ensures forall i :: 0 <= i < m.height ==> IsPred(levels[i], key, prev[i])
    {
      ghost var was := prev[..];
      var i := 1;
      while i < prevHeight
        invariant 1 <= i && (prev[0] == Head ==> i == 1) && (prev[0] != Head ==> i <= prevHeight)
        invariant forall j :: 1 <= j < i ==> prev[j] == was[0]
        invariant forall j :: 0 <= j < prev.Length && (j < 1 || j >= i) ==> prev[j] == was[j]
      {
        prev[i] := prev[0];
        i := i + 1;
      }
      assert Linked(m.next[0], levels[0]);
      forall j | 0 <= j < m.height
        ensures IsPred(levels[j], key, prev[j])
      {
        LevelsNest(m, levels, 0, j);
        assert IsNext(levels[0], was[0], m.next[0][was[0]]);
        if j < prevHeight {
          NextIsNotBefore(levels[0], key, was[0], m.next[0][was[0]]);
        } else {
          PredCarriesOver(levels[0], levels[j], was[0].key, key, m.next[0][was[0]], prev[j]);
        }
      }
    }

    /** The new levels start at the head. */
    method RaiseHeight(key: int, height: nat)
      requires Ordered(m, levels) && prev.Length == |levels| && m.height < height <= |levels|
      requires forall i :: 0 <= i < m.height ==> IsPred(levels[i], key, prev[i])
      modifies this`m, prev
      ensures m == StoreHeight(old(m), height) && Ordered(m, levels)
      ensures forall i :: 0 <= i < height ==> IsPred(levels[i], key, prev[i])
    {
      var i := m.height;
      while i < height
        invariant m == old(m) && m.height <= i <= height
        invariant forall j :: 0 <= j < i ==> IsPred(levels[j], key, prev[j])
      {
        prev[i] := Head;
        i := i + 1;
      }
      RaiseKeeps(m, levels, height);
      m := StoreHeight(m, height);
    }

    /** The new node is linked in from the bottom up: the stores of the writer machine, in
        its order. */
    method LinkIn(key: int, height: nat, ghost start: State)
      requires Inv(start) && start.m == m && start.s == levels && start.w == Init(key, height, prev[..], 0)
      modifies this`m, this`levels
      ensures var t := Writes(start, 2 * height); t.w.Rest? && m == t.m && levels == t.s
      ensures m.height == old(m.height)
    {
      ghost var s := start;
      var i := 0;
      while i < height
        invariant 0 <= i <= height && m.height == old(m.height)
        invariant Inv(s) && s.m == m && s.s == levels
        invariant s.w == if i < height then Init(key, height, prev[..], i) else Rest
        invariant Writes(s, 2 * (height - i)) == Writes(start, 2 * height)
      {
        TwoWrites(s, height - i);
        m := SetNext(m, i, Node(key), m.next[i][prev[i]]);
        m := SetNext(m, i, prev[i], Node(key));
        levels := levels[i := levels[i] + {key}];
        s := WriterStep(WriterStep(s));
        i := i + 1;
      }
    }

    /** Insert, with the height that RandomHeight has chosen. Its search supplies what the
        writer machine starts from, and its stores are the steps of that machine. */
    method Insert(key: int, height: nat) returns (ghost preds: seq<Ref>)
      requires Valid() && key !in levels[0] && 1 <= height <= |levels|
      modifies this, prev
      ensures Valid() && levels == With(old(levels), key, 0, height)
      ensures m.height == if height > old(m.height) then height else old(m.height)
      ensures IsRunOf(State(old(m), Rest, [], old(levels)), key, height, preds, m, levels)
    {
      hide Ordered, IsPred, Linked, Inv, With, Writes, Cached;
      ghost var start := State(m, Rest, [], levels);
      FindPredecessors(key);
      KeyIsNew(m, levels, key);
      ghost var s := levels;
      if height > m.height {
        RaiseHeight(key, height);
      }
      preds := prev[..];
      ghost var s0 := MachineStarts(start, key, height, preds, m);
      LinkIn(key, height, s0);
      CacheAfter(s, key, height, m.height, preds);
      LinkedIn(s0);
      Remember(key, height);
    }

    /** The cache now describes the new node. */
    method Remember(key: int, height: nat)
      requires Ordered(m, levels) && prev.Length == |levels| && 1 <= height <= m.height
      requires forall i :: 0 <= i < |levels| ==> (key in levels[i] <==> i < height)
      requires forall i :: 1 <= i < m.height ==> IsPred(levels[i], key, prev[i])
      modifies this`prevHeight, prev
      ensures Valid()
    {
      assert m.height <= |levels|;
      hide Ordered, IsPred;
      prev[0] := Node(key);
      prevHeight := height;
    }

    /** The two ways to find the predecessors of the key: they agree. */
    method FindPredecessors(key: int)
      requires Valid()
      modifies prev
      ensures forall i :: 0 <= i < m.height ==> IsPred(levels[i], key, prev[i])
    {
      assert Linked(m.next[0], levels[0]) && On(levels[0], prev[0]);
      hide Ordered;
      if !KeyIsAfterNode(key, m.next[0][prev[0]]) && (prev[0] == Head || KeyIsAfterNode(key, prev[0])) {
        UseCache(key);
      } else {
        var x := FindLessThan(key);
      }
    }
  }

  /** From state s, an insertion of key with these predecessors ends with memory m. */
  ghost predicate IsRunOf(s: State, key: int, h: nat, preds: seq<Ref>, m: Mem, levels: Levels) {
    && Inv(s) && Enabled(s, Begin(key, h, preds))
    && var b := Next(s, Begin(key, h, preds));
       Inv(b) && var t := Writes(b, 1 + 2 * h); t.w.Rest? && t.m == m && t.s == levels
  }

  /** The writer machine after the store of the height. */
  lemma MachineStarts(s: State, key: int, h: nat, preds: seq<Ref>, m: Mem) returns (s0: State)
    requires Ordered(s.m, s.s) && s.w.Rest? && s.rs == [] && key !in s.s[0] && 1 <= h <= |s.s| && |preds| == |s.s|
    requires m == if h > s.m.height then StoreHeight(s.m, h) else s.m
    requires forall i :: 0 <= i < m.height ==> IsPred(s.s[i], key, preds[i])
    ensures Inv(s) && Enabled(s, Begin(key, h, preds)) && Inv(Next(s, Begin(key, h, preds)))
    ensures Inv(s0) && s0.m == m && s0.s == s.s && s0.w == Init(key, h, preds, 0)
    ensures Writes(Next(s, Begin(key, h, preds)), 1 + 2 * h) == Writes(s0, 2 * h)
  {
    StepKeepsInv(s, Begin(key, h, preds));
    var b := Next(s, Begin(key, h, preds));
    WriteKeeps(b);
    s0 := WriterStep(b);
  }

  /** What the machine leaves when it is done. */
  lemma LinkedIn(s0: State)
    requires Inv(s0) && s0.w.Init? && s0.w.i == 0
    ensures var t := Writes(s0, 2 * s0.w.h); Ordered(t.m, t.s) && t.s == With(s0.s, s0.w.key, 0, s0.w.h)
    ensures |s0.s| == |Writes(s0, 2 * s0.w.h).s|
  {
    hide With, WriterStep;
    WritesFrom(s0);
    LevelCount(Writes(s0, 2 * s0.w.h));
    hide Writes;
    WithLength(s0.s, s0.w.key, 0, s0.w.h);
  }

  lemma WithLength(s: Levels, key: int, i: nat, h: nat)
    ensures |With(s, key, i, h)| == |s|
  {
  }

  lemma LevelCount(t: State)
    requires Inv(t)
    ensures Ordered(t.m, t.s)
  {
  }

  /** Whatever path has filled the array, it holds what FindLessThan would have filled in. */
  lemma PathsAgree(s: Levels, key: int, h: nat, p: seq<Ref>, q: seq<Ref>)
    requires h <= |s| && h <= |p| && h <= |q|
    requires forall i :: 0 <= i < h ==> IsPred(s[i], key, p[i]) && IsPred(s[i], key, q[i])
    ensures p[..h] == q[..h]
  {
    forall i | 0 <= i < h
      ensures p[i] == q[i]
    {
      PredIsUnique(s[i], key, p[i], q[i]);
    }
  }

  lemma KeyIsNew(m: Mem, s: Levels, key: int)
    requires Ordered(m, s) && key !in s[0]
    ensures m.height <= |s| && forall j :: 0 <= j < |s| ==> key !in s[j]
  {
    forall j | 0 <= j < |s|
      ensures key !in s[j]
    {
      LevelsNest(m, s, 0, j);
    }
  }

  /** The predecessors of the new node are still that on the levels with the new node in. */
  lemma CacheAfter(s: Levels, key: int, h: nat, height: nat, p: seq<Ref>)
    requires height <= |s| && height <= |p| && 1 <= h <= height
    requires forall i :: 0 <= i < |s| ==> key !in s[i]
    requires forall i :: 0 <= i < height ==> IsPred(s[i], key, p[i])
    ensures var t := With(s, key, 0, h);
      && (forall i :: 0 <= i < |t| ==> (key in t[i] <==> i < h))
      && forall i :: 0 <= i < height ==> IsPred(t[i], key, p[i])
  {
  }

  /** The position of FindLessThan: on its level, before the key. */
  ghost predicate Searching(m: Mem, s: Levels, key: int, x: Ref, level: int, last: Ref) {
    && Ordered(m, s) && 0 <= level < m.height && On(s[level], x) && Lt(x, Node(key))
    && (last == Null || (last.Node? && last.key >= key))
  }

  lemma SearchStarts(m: Mem, s: Levels, key: int)
    requires Ordered(m, s)
    ensures m.height <= |s| && Searching(m, s, key, Head, m.height - 1, Null)
  {
  }

  /** One turn of the loop: on along the level, or down. */
  lemma SearchLoads(m: Mem, s: Levels, key: int, x: Ref, level: int, last: Ref)
    requires Searching(m, s, key, x, level, last)
    ensures level < |m.next| && x in m.next[level]
    ensures var next := m.next[level][x];
      if next != last && KeyIsAfterNode(key, next) then
        Searching(m, s, key, next, level, last) && |Behind(s[level], next)| < |Behind(s[level], x)|
      else
        IsPred(s[level], key, x) && (level > 0 ==> Searching(m, s, key, x, level - 1, next))
  {
    assert Linked(m.next[level], s[level]);
    var next := m.next[level][x];
    assert IsNext(s[level], x, next);
    BehindNext(s[level], x, next);
    if next != last && KeyIsAfterNode(key, next) {
      assert |Behind(s[level], x)| == |Behind(s[level], next)| + 1;
    } else {
      NextIsNotBefore(s[level], key, x, next);
    }
  }

  /** What follows x is not before the key, so x is the predecessor. */
  lemma NextIsNotBefore(s: set<int>, key: int, x: Ref, next: Ref)
    requires On(s, x) && Lt(x, Node(key)) && IsNext(s, x, next) && (next == Null || (next.Node? && next.key >= key))
    ensures IsPred(s, key, x)
  {
  }

  /** With no key between k and `key`, the predecessor of k on a level without k is that of
      `key`. */
  lemma PredCarriesOver(s: set<int>, t: set<int>, k: int, key: int, next: Ref, p: Ref)
    requires t <= s && k !in t && k < key && IsNext(s, Node(k), next)
    requires next == Null || (next.Node? && next.key >= key)
    requires IsPred(t, k, p)
    ensures IsPred(t, key, p)
  {
    forall l | l in t && l < key
      ensures !Lt(p, Node(l))
    {
      assert Lt(Node(k), Node(l)) ==> !Lt(Node(l), next);
    }
  }
}
