/** The sequential skip list of timers: nodes with a link per level, linked and unlinked in
    place, with equal scores in last-in-first-out order. */
module TimerList {
  const MAX_LEVEL: nat := 32

  /** zskiplistNode; its height is the number of its links. */
  class ListNode {
    const score: nat
    const height: nat
    /** level[i].forward */
    var forward: seq<ListNode?>

    /** zslCreateNode; the links are set later. */
    constructor (height: nat, score: nat)
      ensures this.height == height && this.score == score && forward == seq(height, _ => null)
    {
      this.height, this.score := height, score;
      forward := seq(height, _ => null);
    }
  }

  type List = seq<ListNode>

  // ------------------------------------------------------- levels

  /** The place of the next node from q[k] on that is on level i. */
  ghost function NextAt(q: List, k: nat, i: nat): (m: nat)
    requires k <= |q|
    ensures k <= m <= |q|
    decreases |q| - k
  {
    if k == |q| || q[k].height > i then k else NextAt(q, k + 1, i)
  }

  lemma {:induction false} NextIsFirst(q: List, k: nat, i: nat)
    requires k <= |q|
    ensures var m := NextAt(q, k, i);
      (m < |q| ==> q[m].height > i) && forall j :: k <= j < m ==> q[j].height <= i
    decreases |q| - k
  {
    if k < |q| {
      NextIsFirst(q, k + 1, i);
    }
  }

  /** A node of the level is not passed over. */
  lemma NextReaches(q: List, k: nat, i: nat, j: nat)
    requires k <= j < |q| && q[j].height > i
    ensures NextAt(q, k, i) <= j
  {
    NextIsFirst(q, k, i);
  }

  ghost function NextNode(q: List, k: nat, i: nat): ListNode?
    requires k <= |q|
  {
    var m := NextAt(q, k, i);
    if m < |q| then q[m] else null
  }

  /** The nodes of level i. */
  ghost function OnLevel(q: List, i: nat): List {
    if q == [] then [] else (if q[0].height > i then [q[0]] else []) + OnLevel(q[1..], i)
  }

  ghost predicate Once(q: List) {
    forall i, j :: 0 <= i < j < |q| ==> q[i] != q[j]
  }

  ghost predicate Sorted(q: List) {
    forall i, j :: 0 <= i < j < |q| ==> q[i].score <= q[j].score
  }

  /** q with x put in at place pos. */
  ghost function Put(q: List, pos: nat, x: ListNode): List
    requires pos <= |q|
  {
    q[..pos] + [x] + q[pos..]
  }

  /** r is q with x put in at place pos. */
  ghost predicate IsPut(r: List, q: List, pos: nat, x: ListNode) {
    && pos <= |q| && |r| == |q| + 1
    && forall j {:trigger r[j]} :: 0 <= j <= |q| ==> r[j] == if j < pos then q[j] else if j == pos then x else q[j - 1]
  }

  lemma PutIsPut(q: List, pos: nat, x: ListNode)
    requires pos <= |q|
    ensures IsPut(Put(q, pos, x), q, pos, x)
  {
  }

  /** What a node put in changes. */
  lemma {:induction false} NextPut(r: List, q: List, pos: nat, x: ListNode, k: nat, i: nat)
    requires IsPut(r, q, pos, x) && k <= |q| + 1
    ensures var m := NextAt(r, k, i);
      if k > pos then m == NextAt(q, k - 1, i) + 1
      else if NextAt(q, k, i) < pos then m == NextAt(q, k, i)
      else m == if x.height > i then pos else NextAt(q, k, i) + 1
    decreases |q| + 1 - k
  {
    if k <= |q| {
      NextPut(r, q, pos, x, k + 1, i);
    }
  }

  lemma NextSkips(q: List, a: nat, b: nat, i: nat)
    requires a <= b <= |q| && b <= NextAt(q, a, i)
    ensures NextAt(q, b, i) == NextAt(q, a, i)
  {
    NextIsFirst(q, a, i);
    NextIsFirst(q, b, i);
    hide NextAt;
  }

  // ------------------------------------------------------- one level

  /** The links of one level. */
  type Links = map<ListNode, ListNode?>

  /** The node at place k, or h in front. */
  ghost function NodeAt(h: ListNode, q: List, k: int): ListNode
    requires -1 <= k < |q|
  {
    if k < 0 then h else q[k]
  }

  /** The link of the node at place k leads to the next one of level i. */
  ghost predicate LinkHolds(c: Links, h: ListNode, q: List, i: nat, k: int)
    requires -1 <= k < |q|
  {
    NodeAt(h, q, k) in c && c[NodeAt(h, q, k)] == NextNode(q, k + 1, i)
  }

  /** Level i of q starts at h and is linked through. */
  ghost predicate Chain(c: Links, h: ListNode, q: List, i: nat) {
    forall k :: -1 <= k < |q| && (k >= 0 ==> q[k].height > i) ==> LinkHolds(c, h, q, i, k)
  }

  /** q[k], or h, is the last node of level i before place pos. */
  ghost predicate Before(q: List, pos: nat, i: nat, k: int)
    requires -1 <= k < pos <= |q|
  {
    (k >= 0 ==> q[k].height > i) && NextAt(q, k + 1, i) >= pos
  }

  /** The next node after one is put in. */
  lemma NextNodePut(r: List, q: List, pos: nat, x: ListNode, k: nat, i: nat)
    requires IsPut(r, q, pos, x) && k <= |q| + 1
    ensures NextNode(r, k, i) ==
      if k > pos then NextNode(q, k - 1, i)
      else if NextAt(q, k, i) >= pos && x.height > i then x
      else NextNode(q, k, i)
  {
    NextPut(r, q, pos, x, k, i);
  }

  /** All nodes of q with h in front, and x, are different. */
  ghost predicate Apart(h: ListNode, q: List, x: ListNode) {
    && h != x && h !in q && x !in q && Once(q)
  }

  lemma NodesDiffer(h: ListNode, q: List, x: ListNode, j: int, k: int)
    requires Apart(h, q, x) && -1 <= j < |q| && -1 <= k < |q|
    ensures NodeAt(h, q, j) != x && (j != k ==> NodeAt(h, q, j) != NodeAt(h, q, k))
  {
  }

  /** The links after x is linked in behind u. */
  ghost function LinksPut(c: Links, x: ListNode, u: ListNode): Links
    requires u in c
  {
    c[x := c[u]][u := x]
  }

  lemma ChainAt(c: Links, h: ListNode, q: List, i: nat, k: int)
    requires Chain(c, h, q, i) && -1 <= k < |q| && (k >= 0 ==> q[k].height > i)
    ensures LinkHolds(c, h, q, i, k)
  {
  }

  /** The nodes after x is put in. */
  lemma NodePut(h: ListNode, r: List, q: List, pos: nat, x: ListNode, j: int)
    requires IsPut(r, q, pos, x) && -1 <= j <= |q|
    ensures |r| == |q| + 1
    ensures NodeAt(h, r, j) == if j < pos then NodeAt(h, q, j) else if j == pos then x else NodeAt(h, q, j - 1)
  {
  }

  /** Which node of level i is the last before place pos. */
  lemma BeforeTells(q: List, pos: nat, i: nat, k: int, j: int)
    requires -1 <= k < pos <= |q| && Before(q, pos, i, k) && -1 <= j < pos && (j >= 0 ==> q[j].height > i)
    ensures j <= k && (NextAt(q, j + 1, i) >= pos <==> j == k)
  {
    if j < k {
      NextReaches(q, j + 1, i, k);
    } else if k < j {
      NextReaches(q, k + 1, i, j);
    }
  }

  lemma LinkBeforePut(c: Links, h: ListNode, r: List, q: List, pos: nat, x: ListNode, i: nat, k: int, j: int)
    requires IsPut(r, q, pos, x) && Chain(c, h, q, i) && -1 <= k < pos && Before(q, pos, i, k)
    requires x.height > i && Apart(h, q, x)
    requires NodeAt(h, q, k) in c && -1 <= j < pos && (j >= 0 ==> q[j].height > i)
    ensures LinkHolds(LinksPut(c, x, NodeAt(h, q, k)), h, r, i, j)
  {
    hide NextAt, Apart, Once, Chain, NodeAt, Before, NextNode;
    NodePut(h, r, q, pos, x, j);
    NodesDiffer(h, q, x, j, k);
    NextNodePut(r, q, pos, x, j + 1, i);
    BeforeTells(q, pos, i, k, j);
    ChainAt(c, h, q, i, j);
  }

  lemma LinkBehindPut(c: Links, h: ListNode, r: List, q: List, pos: nat, x: ListNode, i: nat, k: int, j: int)
    requires IsPut(r, q, pos, x) && Chain(c, h, q, i) && -1 <= k < pos && Before(q, pos, i, k)
    requires x.height > i && Apart(h, q, x)
    requires NodeAt(h, q, k) in c && pos <= j <= |q| && (j > pos ==> q[j - 1].height > i)
    ensures LinkHolds(LinksPut(c, x, NodeAt(h, q, k)), h, r, i, j)
  {
    hide NextAt, Apart, Once, Chain, NodeAt, NextNode;
    NodePut(h, r, q, pos, x, j);
    NextNodePut(r, q, pos, x, j + 1, i);
    NodesDiffer(h, q, x, k, k);
    if j == pos {
      ChainAt(c, h, q, i, k);
      SameNext(q, k + 1, pos, i);
    } else {
      ChainAt(c, h, q, i, j - 1);
      NodesDiffer(h, q, x, j - 1, k);
    }
  }

  lemma SameNext(q: List, a: nat, b: nat, i: nat)
    requires a <= b <= |q| && b <= NextAt(q, a, i)
    ensures NextNode(q, b, i) == NextNode(q, a, i)
  {
    NextSkips(q, a, b, i);
  }

  /** Linking x in behind the node at k. */
  lemma ChainPut(c: Links, h: ListNode, r: List, q: List, pos: nat, x: ListNode, i: nat, k: int)
    requires IsPut(r, q, pos, x) && Chain(c, h, q, i) && -1 <= k < pos && Before(q, pos, i, k)
    requires x.height > i && Apart(h, q, x)
    ensures NodeAt(h, q, k) in c && Chain(LinksPut(c, x, NodeAt(h, q, k)), h, r, i)
  {
    assert LinkHolds(c, h, q, i, k);
    var c' := LinksPut(c, x, NodeAt(h, q, k));
    hide LinkHolds, Apart, LinksPut;
    forall j | -1 <= j < |r| && (j >= 0 ==> r[j].height > i)
      ensures LinkHolds(c', h, r, i, j)
    {
      if j < pos {
        LinkBeforePut(c, h, r, q, pos, x, i, k, j);
      } else {
        LinkBehindPut(c, h, r, q, pos, x, i, k, j);
      }
    }
  }

  /** How many scores are less than s: where a node of score s goes. */
  ghost function Place(q: List, s: nat): (k: nat)
    ensures k <= |q| && (forall j :: 0 <= j < k ==> q[j].score < s) && (k < |q| ==> q[k].score >= s)
    decreases |q|
  {
    if q == [] || q[0].score >= s then 0 else 1 + Place(q[1..], s)
  }

  lemma PlaceSplits(q: List, s: nat)
    requires Sorted(q)
    ensures forall j :: Place(q, s) <= j < |q| ==> q[j].score >= s
  {
  }

  /** The links after x is unlinked behind u. */
  ghost function LinksTake(c: Links, x: ListNode, u: ListNode): Links
    requires u in c
  {
    if c[u] == x && x in c then c[u := c[x]] else c
  }

  lemma LinkTaken(c: Links, h: ListNode, r: List, q: List, pos: nat, x: ListNode, i: nat, k: int, j: int)
    requires IsPut(r, q, pos, x) && Chain(c, h, r, i) && -1 <= k < pos && Before(r, pos, i, k)
    requires Apart(h, q, x) && NodeAt(h, q, k) in c && -1 <= j < |q| && (j >= 0 ==> q[j].height > i)
    ensures LinkHolds(LinksTake(c, x, NodeAt(h, q, k)), h, q, i, j)
  {
    var j' := if j < pos then j else j + 1;
    hide NextAt, Apart, Once, Chain, NodeAt, NextNode;
    NodePut(h, r, q, pos, x, j');
    NodesDiffer(h, q, x, j, k);
    NextNodePut(r, q, pos, x, j' + 1, i);
    ChainAt(c, h, r, i, j');
    if j == k {
      UnlinkedNext(c, h, r, q, pos, x, i, k);
    } else {
      if j < pos {
        BeforeTells(r, pos, i, k, j);
        NextPut(r, q, pos, x, j + 1, i);
      }
    }
  }

  /** What u leads to once x is gone. */
  lemma UnlinkedNext(c: Links, h: ListNode, r: List, q: List, pos: nat, x: ListNode, i: nat, k: int)
    requires IsPut(r, q, pos, x) && Chain(c, h, r, i) && -1 <= k < pos && Before(r, pos, i, k)
    requires Apart(h, q, x)
    ensures var u := NodeAt(h, q, k);
      && NodeAt(h, r, k) == u && u in c && (c[u] == x ==> x in c)
      && LinksTake(c, x, u).Keys == c.Keys && LinksTake(c, x, u)[u] == NextNode(q, k + 1, i)
  {
    hide Once, Chain, NodeAt, NextAt, NextNode;
    NodePut(h, r, q, pos, x, k);
    NodePut(h, r, q, pos, x, pos);
    NextIsNot(q, x, k + 1, i);
    ChainAt(c, h, r, i, k);
    NextNodePut(r, q, pos, x, k + 1, i);
    NextPut(r, q, pos, x, k + 1, i);
    if x.height > i {
      ChainAt(c, h, r, i, pos);
      NextNodePut(r, q, pos, x, pos + 1, i);
      SameNext(q, k + 1, pos, i);
    }
  }

  /** Taking x out, behind the node at k. */
  lemma ChainTake(c: Links, h: ListNode, r: List, q: List, pos: nat, x: ListNode, i: nat, k: int)
    requires IsPut(r, q, pos, x) && Chain(c, h, r, i) && -1 <= k < pos && Before(r, pos, i, k)
    requires Apart(h, q, x)
    ensures var u := NodeAt(h, q, k);
      && NodeAt(h, r, k) == u && u in c && (c[u] == x ==> x in c) && Chain(LinksTake(c, x, u), h, q, i)
  {
    var u := NodeAt(h, q, k);
    UnlinkedNext(c, h, r, q, pos, x, i, k);
    hide LinkHolds, Apart, LinksTake;
    forall j | -1 <= j < |q| && (j >= 0 ==> q[j].height > i)
      ensures LinkHolds(LinksTake(c, x, u), h, q, i, j)
    {
      LinkTaken(c, h, r, q, pos, x, i, k, j);
    }
  }

  lemma NextIsNot(q: List, x: ListNode, k: nat, i: nat)
    requires x !in q && k <= |q|
    ensures NextNode(q, k, i) != x
  {
  }

  /** x is not on level i: with it or without it, the level is the same. */
  lemma ChainLow(c: Links, h: ListNode, r: List, q: List, pos: nat, x: ListNode, i: nat)
    requires IsPut(r, q, pos, x) && x.height <= i
    ensures Chain(c, h, q, i) <==> Chain(c, h, r, i)
  {
    hide NextAt, NextNode, LinkHolds;
    if Chain(c, h, q, i) {
      forall k | -1 <= k < |r| && (k >= 0 ==> r[k].height > i)
        ensures LinkHolds(c, h, r, i, k)
      {
        LinkLow(c, h, r, q, pos, x, i, if k < pos then k else k - 1);
      }
    }
    if Chain(c, h, r, i) {
      forall k | -1 <= k < |q| && (k >= 0 ==> q[k].height > i)
        ensures LinkHolds(c, h, q, i, k)
      {
        LinkLow(c, h, r, q, pos, x, i, k);
        if k >= 0 {
          assert r[if k < pos then k else k + 1] == q[k];
        }
      }
    }
  }

  lemma LinkLow(c: Links, h: ListNode, r: List, q: List, pos: nat, x: ListNode, i: nat, k: int)
    requires IsPut(r, q, pos, x) && x.height <= i && -1 <= k < |q|
    ensures LinkHolds(c, h, q, i, k) <==> LinkHolds(c, h, r, i, if k < pos then k else k + 1)
  {
    var k' := if k < pos then k else k + 1;
    NodePut(h, r, q, pos, x, k');
    NextNodePut(r, q, pos, x, k' + 1, i);
    if k == pos - 1 {
      NextNodePut(r, q, pos, x, pos, i);
    }
    hide IsPut, NextNode, NodeAt;
  }

  ghost function Without(q: List, pos: nat): List
    requires pos < |q|
  {
    q[..pos] + q[pos + 1..]
  }

  lemma WithoutPut(q: List, pos: nat)
    requires pos < |q|
    ensures IsPut(q, Without(q, pos), pos, q[pos])
  {
  }

  lemma SortedPut(r: List, q: List, pos: nat, x: ListNode)
    requires IsPut(r, q, pos, x)
    ensures Sorted(r) ==> Sorted(q)
    ensures Sorted(q) && pos == Place(q, x.score) ==> Sorted(r)
  {
    if Sorted(r) {
      forall j, k | 0 <= j < k < |q|
        ensures q[j].score <= q[k].score
      {
        assert r[if j < pos then j else j + 1] == q[j] && r[if k < pos then k else k + 1] == q[k];
      }
    }
    if Sorted(q) && pos == Place(q, x.score) {
      PlaceSplits(q, x.score);
    }
  }

  /** Only the links of the nodes of q matter. */
  lemma ChainSame(c: Links, c': Links, h: ListNode, q: List, i: nat)
    requires Chain(c, h, q, i)
    requires forall n :: (n == h || n in q) && n in c ==> n in c' && c'[n] == c[n]
    ensures Chain(c', h, q, i)
  {
    forall k | -1 <= k < |q| && (k >= 0 ==> q[k].height > i)
      ensures LinkHolds(c', h, q, i, k)
    {
      assert LinkHolds(c, h, q, i, k);
    }
  }

  ghost function Column(ns: set<ListNode>, i: nat): Links
    reads ns
  {
    map n | n in ns && i < |n.forward| :: n.forward[i]
  }

  // ------------------------------------------------------- what the levels are

  /** The nodes met on the way along the links from x, at most n of them. */
  ghost function Walk(c: Links, x: ListNode, n: nat): List {
    if n == 0 || x !in c || c[x] == null then [] else [c[x]] + Walk(c, c[x], n - 1)
  }

  lemma {:induction false} LevelSkips(q: List, k: nat, i: nat)
    requires k <= |q|
    ensures var m := NextAt(q, k, i);
      OnLevel(q[k..], i) == if m < |q| then [q[m]] + OnLevel(q[m + 1..], i) else []
    decreases |q| - k
  {
    hide OnLevel, NextAt;
    NextStep(q, k, i);
    if k < |q| {
      LevelAt(q, k, i);
      if q[k].height <= i {
        LevelSkips(q, k + 1, i);
      }
    } else {
      NoLevel(q, i);
    }
  }

  lemma NextStep(q: List, k: nat, i: nat)
    requires k <= |q|
    ensures NextAt(q, k, i) == if k == |q| || q[k].height > i then k else NextAt(q, k + 1, i)
  {
  }

  lemma NoLevel(q: List, i: nat)
    ensures OnLevel(q[|q|..], i) == []
  {
  }

  lemma LevelAt(q: List, k: nat, i: nat)
    requires k < |q|
    ensures OnLevel(q[k..], i) == (if q[k].height > i then [q[k]] else []) + OnLevel(q[k + 1..], i)
  {
    assert q[k..][0] == q[k] && q[k..][1..] == q[k + 1..];
  }

  /** Following the links of a level meets the nodes that reach it, in order. */
  lemma {:induction false} WalkIsLevel(c: Links, h: ListNode, q: List, i: nat, k: int, n: nat)
    requires Chain(c, h, q, i) && -1 <= k < |q| && (k >= 0 ==> q[k].height > i) && n >= |q| - 1 - k
    ensures Walk(c, NodeAt(h, q, k), n) == OnLevel(q[k + 1..], i)
    decreases |q| - k
  {
    hide Chain, NextAt, OnLevel, Walk;
    ChainAt(c, h, q, i, k);
    LevelSkips(q, k + 1, i);
    NextIsFirst(q, k + 1, i);
    WalkStep(c, NodeAt(h, q, k), n);
    var m := NextAt(q, k + 1, i);
    if m < |q| {
      WalkIsLevel(c, h, q, i, m, n - 1);
    }
  }

  lemma WalkStep(c: Links, x: ListNode, n: nat)
    requires x in c
    ensures Walk(c, x, n) == if n == 0 || c[x] == null then [] else [c[x]] + Walk(c, c[x], n - 1)
  {
  }

  /** Every level is a part of the level below, in the same order. */
  lemma {:induction false} LevelsNest(q: List, i: nat)
    ensures OnLevel(OnLevel(q, i), i + 1) == OnLevel(q, i + 1)
  {
    if q != [] {
      LevelsNest(q[1..], i);
      if q[0].height > i {
        assert ([q[0]] + OnLevel(q[1..], i))[1..] == OnLevel(q[1..], i);
      } else {
        assert OnLevel(q, i) == OnLevel(q[1..], i);
      }
    }
  }

  // ------------------------------------------------------- which node is deleted

  /** The node that zslDelete takes out is the given one if and only if no other node of its
      score has been put in after it; otherwise the given one stays. */
  lemma DeletesNewest(q: List, zn: ListNode, k: nat)
    requires Sorted(q) && Once(q) && k < |q| && q[k] == zn
    ensures var pos := Place(q, zn.score);
      && pos < |q| && q[pos].score == zn.score
      && (zn !in Without(q, pos) <==> pos == k)
      && (pos == k <==> forall j :: 0 <= j < k ==> q[j].score != zn.score)
  {
    var pos := Place(q, zn.score);
    PlaceSplits(q, zn.score);
    assert pos <= k;
    WithoutPut(q, pos);
    var r := Without(q, pos);
    hide Without, Place, Sorted;
    if pos < k {
      assert q[k] == r[k - 1];
    } else {
      forall j | 0 <= j < |r|
        ensures r[j] != zn
      {
        assert q[if j < pos then j else j + 1] == r[j];
      }
    }
  }

  class ZSkipList {
    const header: ListNode
    var length: nat
    var level: nat
    /** The nodes in the order of the bottom level. */
    ghost var order: List

    ghost function Nodes(q: List): set<ListNode> {
      {header} + set n | n in q
    }

    /** Every node has as many links as its height. */
    ghost predicate Shaped(q: List)
      reads header, q
    {
      && header.height == MAX_LEVEL == |header.forward| && header !in q && Once(q)
      && forall n :: n in q ==> 1 <= n.height == |n.forward| <= MAX_LEVEL
    }

    /** Level i of q starts at the header and is linked through. */
    ghost predicate Linked(ns: set<ListNode>, q: List, i: nat)
      reads ns
    {
      Chain(Column(ns, i), header, q, i)
    }

    /** No level is empty but the bottom one, and no node is higher. */
    ghost predicate LevelExact(q: List)
      reads this`level
    {
      && 1 <= level <= MAX_LEVEL && (forall n :: n in q ==> n.height <= level)
      && (level > 1 ==> NextAt(q, 0, level - 1) < |q|)
    }

    ghost predicate Valid()
      reads this, header, order
    {
      && Shaped(order) && Sorted(order) && LevelExact(order) && length == |order|
      && forall i :: 0 <= i < MAX_LEVEL ==> Linked(Nodes(order), order, i)
    }

    /** zslCreate */
    constructor ()
      ensures Valid() && fresh(header) && order == []
    {
      header := new ListNode(MAX_LEVEL, 0);
      length, level, order := 0, 1, [];
    }

    /** zslMin */
    method Min() returns (x: ListNode?)
      requires Valid()
      ensures x == if order == [] then null else order[0]
    {
      LinkAt(0, -1);
      BottomNext(order, 0);
      x := header.forward[0];
    }

    /** The link of one node. */
    lemma LinkAt(i: nat, k: int)
      requires Valid() && i < MAX_LEVEL && -1 <= k < |order| && (k >= 0 ==> order[k].height > i)
      ensures var x := NodeAt(header, order, k);
        i < |x.forward| && x.forward[i] == NextNode(order, k + 1, i)
    {
      assert Linked(Nodes(order), order, i);
      assert LinkHolds(Column(Nodes(order), i), header, order, i, k);
    }

    /** Every node is on the bottom level. */
    lemma BottomNext(q: List, k: nat)
      requires Shaped(q) && k <= |q|
      ensures NextAt(q, k, 0) == k
    {
      if k < |q| {
        assert q[k] in q;
      }
    }

    // ------------------------------------------------------- the search

    /** x is the last node of level i before place pos, or the header. */
    ghost predicate IsBefore(q: List, pos: nat, i: nat, x: ListNode) {
      pos <= |q| && exists k :: -1 <= k < pos && x == NodeAt(header, q, k) && Before(q, pos, i, k)
    }

    /** The loop of zslInsert and zslDelete: for every level the last node of a lesser score. */
    method Search(score: nat) returns (update: seq<ListNode>)
      requires Valid()
      ensures |update| == MAX_LEVEL
      ensures forall i :: 0 <= i < level ==> IsBefore(order, Place(order, score), i, update[i])
    {
      update := seq(MAX_LEVEL, _ => header);
      var x := header;
      ghost var k := -1;
      var i := level;
      hide IsBefore;
      while i > 0
        invariant 0 <= i <= level && |update| == MAX_LEVEL
        invariant -1 <= k < Place(order, score) && x == NodeAt(header, order, k) && (k >= 0 ==> order[k].height >= i)
        invariant forall j :: i <= j < level ==> IsBefore(order, Place(order, score), j, update[j])
      {
        i := i - 1;
        x, k := Along(x, i, score, k);
        update := update[i := x];
      }
    }

    /** The inner loop, on one level. */
    method Along(x': ListNode, i: nat, score: nat, ghost k': int) returns (x: ListNode, ghost k: int)
      requires Valid() && i < MAX_LEVEL && -1 <= k' < Place(order, score) && x' == NodeAt(header, order, k')
      requires k' >= 0 ==> order[k'].height > i
      ensures -1 <= k < Place(order, score) && x == NodeAt(header, order, k) && (k >= 0 ==> order[k].height > i)
      ensures IsBefore(order, Place(order, score), i, x)
    {
      x, k := x', k';
      ghost var pos := Place(order, score);
      hide Valid, NextAt, Place, Before;
      NextTells(i, k, score);
      while x.forward[i] != null && x.forward[i].score < score
        invariant -1 <= k < pos && x == NodeAt(header, order, k) && (k >= 0 ==> order[k].height > i)
        invariant i < |x.forward| && NextAt(order, k + 1, i) <= |order|
        invariant x.forward[i] == NextNode(order, k + 1, i)
        invariant x.forward[i] != null && x.forward[i].score < score <==> NextAt(order, k + 1, i) < pos
        decreases pos - k
      {
        NextIsFirst(order, k + 1, i);
        x := x.forward[i];
        k := NextAt(order, k + 1, i);
        NextTells(i, k, score);
      }
      IsBeforeAt(order, pos, i, k);
    }

    lemma IsBeforeAt(q: List, pos: nat, i: nat, k: int)
      requires -1 <= k < pos <= |q| && (k >= 0 ==> q[k].height > i) && NextAt(q, k + 1, i) >= pos
      ensures IsBefore(q, pos, i, NodeAt(header, q, k))
    {
      assert Before(q, pos, i, k);
    }

    /** What the inner loop reads. */
    lemma NextTells(i: nat, k: int, score: nat)
      requires Valid() && i < MAX_LEVEL && -1 <= k < |order| && (k >= 0 ==> order[k].height > i)
      ensures var x, m := NodeAt(header, order, k), NextAt(order, k + 1, i);
        && i < |x.forward| && x.forward[i] == NextNode(order, k + 1, i)
        && (x.forward[i] != null && x.forward[i].score < score <==> m < Place(order, score))
    {
      LinkAt(i, k);
      PlaceSplits(order, score);
    }

    // ------------------------------------------------------- one link

    /** One link is set. */
    method SetForward(n: ListNode, i: nat, v: ListNode?, ghost ns: set<ListNode>)
      requires n in ns && i < |n.forward|
      modifies n`forward
      ensures |n.forward| == old(|n.forward|) && Column(ns, i) == old(Column(ns, i))[n := v]
      ensures forall j: nat :: j != i ==> Column(ns, j) == old(Column(ns, j))
    {
      n.forward := n.forward[i := v];
    }

    lemma ShapedPut(r: List, q: List, pos: nat, x: ListNode)
      requires IsPut(r, q, pos, x) && Shaped(r)
      ensures Shaped(q) && Apart(header, q, x) && 1 <= x.height == |x.forward| <= MAX_LEVEL
      ensures Nodes(r) == Nodes(q) + {x} && x in r
    {
      assert x == r[pos];
      forall n | n in q
        ensures n in r && n != x
      {
        var j :| 0 <= j < |q| && q[j] == n;
        assert r[if j < pos then j else j + 1] == n && r[pos] == x;
      }
      forall n | n in r
        ensures n in q || n == x
      {
        var j :| 0 <= j < |r| && r[j] == n;
      }
      forall j, k | 0 <= j < k < |q|
        ensures q[j] != q[k]
      {
        assert r[if j < pos then j else j + 1] == q[j] && r[if k < pos then k else k + 1] == q[k];
      }
    }

    lemma PutLength(r: List, q: List, pos: nat, x: ListNode)
      requires IsPut(r, q, pos, x)
      ensures |r| == |q| + 1
    {
    }

    /** x is linked in on level i, behind u. */
    method LinkIn(x: ListNode, u: ListNode, i: nat, ghost r: List, ghost q: List, ghost pos: nat,
                  ghost ns: set<ListNode>)
      requires IsPut(r, q, pos, x) && IsBefore(q, pos, i, u) && Shaped(r) && ns == Nodes(r)
      requires i < x.height && Linked(ns, q, i)
      modifies x`forward, u`forward
      ensures Shaped(r) && Linked(ns, r, i)
      ensures forall j: nat :: j != i && old(Linked(ns, r, j)) ==> Linked(ns, r, j)
      ensures forall j: nat :: j != i && old(Linked(ns, q, j)) ==> Linked(ns, q, j)
    {
      ghost var c := Column(ns, i);
      hide IsPut, Chain, Before, NextNode, NextAt;
      ghost var k :| -1 <= k < pos && u == NodeAt(header, q, k) && Before(q, pos, i, k);
      ShapedPut(r, q, pos, x);
      ChainPut(c, header, r, q, pos, x, i, k);
      SetForward(x, i, u.forward[i], ns);
      SetForward(u, i, x, ns);
    }

    /** x is taken out on level i, behind u, if it is on that level. */
    method Unlink(x: ListNode, u: ListNode, i: nat, ghost r: List, ghost q: List, ghost pos: nat,
                  ghost ns: set<ListNode>)
      requires IsPut(r, q, pos, x) && IsBefore(r, pos, i, u) && Shaped(r) && ns == Nodes(r)
      requires i < MAX_LEVEL && Linked(ns, r, i)
      modifies u`forward
      ensures Shaped(r) && Linked(ns, q, i)
      ensures forall j: nat :: j != i && old(Linked(ns, r, j)) ==> Linked(ns, r, j)
      ensures forall j: nat :: j != i && old(Linked(ns, q, j)) ==> Linked(ns, q, j)
    {
      ghost var c := Column(ns, i);
      hide IsPut, Chain, Before, NextNode, NextAt;
      ghost var k :| -1 <= k < pos && u == NodeAt(header, r, k) && Before(r, pos, i, k);
      ShapedPut(r, q, pos, x);
      ChainTake(c, header, r, q, pos, x, i, k);
      if u.forward[i] == x {
        SetForward(u, i, x.forward[i], ns);
      }
    }

    lemma PutShape(r: List, q: List, pos: nat, x: ListNode)
      requires IsPut(r, q, pos, x) && Shaped(q) && Apart(header, q, x) && 1 <= x.height == |x.forward| <= MAX_LEVEL
      ensures Shaped(r) && Nodes(r) == Nodes(q) + {x}
    {
      forall n | n in r
        ensures n in q || n == x
      {
        var j :| 0 <= j < |r| && r[j] == n;
      }
      forall n | n in q || n == x
        ensures n in r
      {
        assert x == r[pos];
        if n in q {
          var j :| 0 <= j < |q| && q[j] == n;
          assert r[if j < pos then j else j + 1] == n;
        }
      }
    }

    /** More nodes in the column do not matter. */
    lemma WiderColumn(q: List, ns: set<ListNode>, i: nat)
      requires Nodes(q) <= ns
      ensures Linked(Nodes(q), q, i) <==> Linked(ns, q, i)
    {
      hide Chain;
      if Linked(Nodes(q), q, i) {
        ChainSame(Column(Nodes(q), i), Column(ns, i), header, q, i);
      }
      if Linked(ns, q, i) {
        ChainSame(Column(ns, i), Column(Nodes(q), i), header, q, i);
      }
    }

    // ------------------------------------------------------- insertion

    /** The new levels start at the header. */
    method RaiseLevel(update': seq<ListNode>, height: nat, ghost q: List, ghost pos: nat)
      returns (update: seq<ListNode>)
      requires LevelExact(q) && |update'| == MAX_LEVEL && level < height <= MAX_LEVEL && pos <= |q|
      requires forall i :: 0 <= i < level ==> IsBefore(q, pos, i, update'[i])
      modifies this`level
      ensures level == height && |update| == MAX_LEVEL
      ensures forall i :: 0 <= i < height ==> IsBefore(q, pos, i, update[i])
    {
      update := update';
      var i := level;
      hide IsBefore;
      while i < height
        invariant level == old(level) <= i <= height && |update| == MAX_LEVEL
        invariant forall j :: 0 <= j < i ==> IsBefore(q, pos, j, update[j])
      {
        NoneHigher(q, i);
        IsBeforeAt(q, pos, i, -1);
        update := update[i := header];
        i := i + 1;
      }
      level := height;
    }

    /** Above the top level there is no node. */
    lemma NoneHigher(q: List, i: nat)
      requires forall n :: n in q ==> n.height <= i
      ensures NextAt(q, 0, i) == |q|
    {
      NextIsFirst(q, 0, i);
      assert forall j :: 0 <= j < |q| ==> q[j] in q;
    }

    lemma LevelAfterPut(r: List, q: List, pos: nat, x: ListNode, before: nat)
      requires IsPut(r, q, pos, x) && 1 <= before <= MAX_LEVEL && 1 <= x.height <= MAX_LEVEL
      requires (forall n :: n in q ==> n.height <= before) && (before > 1 ==> NextAt(q, 0, before - 1) < |q|)
      requires level == if x.height > before then x.height else before
      ensures LevelExact(r)
    {
      forall n | n in r
        ensures n.height <= level
      {
        var j :| 0 <= j < |r| && r[j] == n;
        assert j < pos ==> q[j] in q;
        assert j > pos ==> q[j - 1] in q;
      }
      if level > 1 {
        NextPut(r, q, pos, x, 0, level - 1);
        if level == x.height {
          assert r[pos] == x;
          NextReaches(r, 0, level - 1, pos);
        }
      }
    }

    lemma LevelTells(q: List)
      requires LevelExact(q)
      ensures 1 <= level <= MAX_LEVEL && (forall n :: n in q ==> n.height <= level)
      ensures level > 1 ==> NextAt(q, 0, level - 1) < |q|
    {
    }

    lemma NewIsApart(q: List, x: ListNode)
      requires Shaped(q) && x !in q && x != header
      ensures Apart(header, q, x)
    {
    }

    /** zslInsert, with the level that zslRandomLevel has chosen: the new node comes in front of
        those of its score. */
    method Insert(score: nat, height: nat) returns (x: ListNode)
      requires Valid() && 1 <= height <= MAX_LEVEL
      modifies this, header`forward, order`forward
      ensures Valid() && fresh(x) && x.score == score && x.height == height
      ensures order == Put(old(order), Place(old(order), score), x)
      ensures level == if height > old(level) then height else old(level)
    {
      hide Put, IsPut, Place, Linked, IsBefore, Sorted, Shaped, LevelExact, Apart, NextAt;
      ghost var q, pos := order, Place(order, score);
      LevelTells(q);
      var update := Search(score);
      x := new ListNode(height, score);
      ghost var r := Put(q, pos, x);
      PutIsPut(q, pos, x);
      NewIsApart(q, x);
      PutShape(r, q, pos, x);
      if height > level {
        update := RaiseLevel(update, height, q, pos);
      }
      LinkAll(x, update, r, q, pos);
      SortedPut(r, q, pos, x);
      LevelAfterPut(r, q, pos, x, old(level));
      PutLength(r, q, pos, x);
      length := length + 1;
      order := r;
    }

    /** Its last loop. */
    method LinkAll(x: ListNode, update: seq<ListNode>, ghost r: List, ghost q: List, ghost pos: nat)
      requires IsPut(r, q, pos, x) && Shaped(r) && |update| == MAX_LEVEL && x.height <= MAX_LEVEL
      requires forall i :: 0 <= i < x.height ==> IsBefore(q, pos, i, update[i])
      requires forall i :: 0 <= i < MAX_LEVEL ==> Linked(Nodes(q), q, i)
      modifies x`forward, header`forward, q`forward
      ensures Shaped(r) && forall i :: 0 <= i < MAX_LEVEL ==> Linked(Nodes(r), r, i)
    {
      ghost var ns := Nodes(r);
      ShapedPut(r, q, pos, x);
      hide IsPut, Linked, IsBefore, Shaped, LevelExact, Apart;
      AllWider(q, ns);
      var i := 0;
      while i < x.height
        invariant 0 <= i <= x.height && Shaped(r)
        invariant forall j :: 0 <= j < i ==> Linked(ns, r, j)
        invariant forall j :: i <= j < MAX_LEVEL ==> Linked(ns, q, j)
      {
        LinkNext(x, update[i], i, r, q, pos, ns);
        i := i + 1;
      }
      AllLow(r, q, pos, x, x.height, ns);
    }

    /** One turn of the loop. */
    method LinkNext(x: ListNode, u: ListNode, i: nat, ghost r: List, ghost q: List, ghost pos: nat,
                    ghost ns: set<ListNode>)
      requires IsPut(r, q, pos, x) && IsBefore(q, pos, i, u) && Shaped(r) && ns == Nodes(r)
      requires i < x.height && i < MAX_LEVEL
      requires forall j :: 0 <= j < i ==> Linked(ns, r, j)
      requires forall j :: i <= j < MAX_LEVEL ==> Linked(ns, q, j)
      modifies x`forward, header`forward, q`forward
      ensures Shaped(r) && forall j :: 0 <= j <= i ==> Linked(ns, r, j)
      ensures forall j :: i < j < MAX_LEVEL ==> Linked(ns, q, j)
    {
      BeforeIsNode(q, pos, i, u);
      hide IsPut, Linked, IsBefore, Shaped, Nodes;
      LinkIn(x, u, i, r, q, pos, ns);
    }

    lemma AllWider(q: List, ns: set<ListNode>)
      requires Nodes(q) <= ns
      ensures forall i :: 0 <= i < MAX_LEVEL ==> (Linked(Nodes(q), q, i) <==> Linked(ns, q, i))
    {
      forall i | 0 <= i < MAX_LEVEL
        ensures Linked(Nodes(q), q, i) <==> Linked(ns, q, i)
      {
        WiderColumn(q, ns, i);
      }
    }

    /** From level h on, x makes no difference. */
    lemma AllLow(r: List, q: List, pos: nat, x: ListNode, h: nat, ns: set<ListNode>)
      requires IsPut(r, q, pos, x) && x.height <= h
      ensures forall i :: h <= i < MAX_LEVEL ==> (Linked(ns, q, i) <==> Linked(ns, r, i))
    {
      forall i | h <= i < MAX_LEVEL
        ensures Linked(ns, q, i) <==> Linked(ns, r, i)
      {
        ChainLow(Column(ns, i), header, r, q, pos, x, i);
      }
    }

    lemma BeforeIsNode(q: List, pos: nat, i: nat, u: ListNode)
      requires IsBefore(q, pos, i, u)
      ensures u == header || u in q
    {
    }

    // ------------------------------------------------------- deletion

    /** Levels that have become empty are given up. */
    method LowerLevel(ghost ns: set<ListNode>)
      requires Shaped(order) && 1 <= level <= MAX_LEVEL && forall n :: n in order ==> n.height <= level
      requires forall i :: 0 <= i < MAX_LEVEL ==> Linked(ns, order, i)
      modifies this`level
      ensures LevelExact(order)
    {
      hide NextAt, Chain, NextNode;
      HeaderLink(ns, level - 1);
      while level > 1 && header.forward[level - 1] == null
        invariant 1 <= level <= MAX_LEVEL && forall n :: n in order ==> n.height <= level
        invariant header.forward[level - 1] == null <==> NextAt(order, 0, level - 1) == |order|
      {
        NoneThere(order, level - 1);
        HeaderLink(ns, level - 2);
        level := level - 1;
      }
    }

    lemma HeaderLink(ns: set<ListNode>, i: nat)
      requires Shaped(order) && i < MAX_LEVEL && Linked(ns, order, i)
      ensures header.forward[i] == null <==> NextAt(order, 0, i) == |order|
    {
      ChainAt(Column(ns, i), header, order, i, -1);
    }

    lemma NoneThere(q: List, i: nat)
      requires NextAt(q, 0, i) == |q|
      ensures forall n :: n in q ==> n.height <= i
    {
      NextIsFirst(q, 0, i);
    }

    /** zslDeleteNode */
    method DeleteNode(x: ListNode, update: seq<ListNode>, ghost pos: nat)
      requires Valid() && pos < |order| && order[pos] == x && |update| == MAX_LEVEL
      requires forall i :: 0 <= i < level ==> IsBefore(order, pos, i, update[i])
      modifies this, header`forward, order`forward
      ensures Valid() && order == Without(old(order), pos)
    {
      ghost var r, q := order, Without(order, pos);
      WithoutPut(r, pos);
      UnlinkAll(x, update, r, q, pos);
      FinishRemoval(x, r, q, pos);
    }

    /** Its loop. */
    method UnlinkAll(x: ListNode, update: seq<ListNode>, ghost r: List, ghost q: List, ghost pos: nat)
      requires IsPut(r, q, pos, x) && Shaped(r) && LevelExact(r) && |update| == MAX_LEVEL
      requires forall i :: 0 <= i < level ==> IsBefore(r, pos, i, update[i])
      requires forall i :: 0 <= i < MAX_LEVEL ==> Linked(Nodes(r), r, i)
      modifies header`forward, r`forward
      ensures Shaped(r) && forall i :: 0 <= i < MAX_LEVEL ==> Linked(Nodes(r), q, i)
    {
      ghost var ns := Nodes(r);
      ShapedPut(r, q, pos, x);
      assert x.height <= level <= MAX_LEVEL;
      var i := 0;
      hide IsPut, Linked, IsBefore, Shaped, LevelExact;
      while i < level
        invariant 0 <= i <= level && Shaped(r)
        invariant forall j :: 0 <= j < i ==> Linked(ns, q, j)
        invariant forall j :: i <= j < MAX_LEVEL ==> Linked(ns, r, j)
      {
        BeforeIsNode(r, pos, i, update[i]);
        Unlink(x, update[i], i, r, q, pos, ns);
        i := i + 1;
      }
      AllLow(r, q, pos, x, level, ns);
    }

    /** The end of zslDeleteNode and zslDeleteHead. */
    method FinishRemoval(x: ListNode, ghost r: List, ghost q: List, ghost pos: nat)
      requires IsPut(r, q, pos, x) && Shaped(r) && Sorted(r) && LevelExact(r) && length == |r|
      requires forall i :: 0 <= i < MAX_LEVEL ==> Linked(Nodes(r), q, i)
      modifies this
      ensures Valid() && order == q
    {
      hide IsPut, Linked, Sorted;
      ShapedPut(r, q, pos, x);
      SortedPut(r, q, pos, x);
      PutLength(r, q, pos, x);
      order := q;
      forall n | n in q
        ensures n in r
      {
        assert n in Nodes(q) && n != header;
      }
      LowerLevel(Nodes(r));
      length := length - 1;
      AllWider(q, Nodes(r));
    }

    /** zslDelete: the first node of zn's score goes, which is the one inserted last. */
    method Delete(zn: ListNode)
      requires Valid()
      modifies this, header`forward, order`forward
      ensures Valid()
      ensures var q, pos := old(order), Place(old(order), zn.score);
        order == if pos < |q| && q[pos].score == zn.score then Without(q, pos) else q
    {
      var update := Search(zn.score);
      ghost var pos := Place(order, zn.score);
      BehindUpdate(pos, update[0]);
      var x := update[0].forward[0];
      if x != null && zn.score == x.score {
        DeleteNode(x, update, pos);
      }
    }

    /** On the bottom level nothing is between the last node before pos and the one at pos. */
    lemma BehindUpdate(pos: nat, u: ListNode)
      requires Valid() && IsBefore(order, pos, 0, u)
      ensures |u.forward| > 0 && u.forward[0] == if pos < |order| then order[pos] else null
    {
      var k :| -1 <= k < pos && u == NodeAt(header, order, k) && Before(order, pos, 0, k);
      LinkAt(0, k);
      BottomNext(order, k + 1);
    }

    /** zslDeleteHead */
    method DeleteHead()
      requires Valid()
      modifies this, header`forward
      ensures Valid() && order == if old(order) == [] then [] else old(order)[1..]
    {
      var x := Min();
      if x == null {
        return;
      }
      ghost var r, q := order, Without(order, 0);
      WithoutPut(r, 0);
      UnlinkHead(x, r, q);
      FinishRemoval(x, r, q, 0);
    }

    /** Its loop, from the top. */
    method UnlinkHead(x: ListNode, ghost r: List, ghost q: List)
      requires IsPut(r, q, 0, x) && Shaped(r) && LevelExact(r)
      requires forall i :: 0 <= i < MAX_LEVEL ==> Linked(Nodes(r), r, i)
      modifies header`forward
      ensures Shaped(r) && forall i :: 0 <= i < MAX_LEVEL ==> Linked(Nodes(r), q, i)
    {
      ghost var ns := Nodes(r);
      ShapedPut(r, q, 0, x);
      assert x.height <= level <= MAX_LEVEL;
      var i := level;
      hide IsPut, Linked, IsBefore, Shaped, LevelExact;
      while i > 0
        invariant 0 <= i <= level && Shaped(r)
        invariant forall j :: 0 <= j < i ==> Linked(ns, r, j)
        invariant forall j :: i <= j < level ==> Linked(ns, q, j)
        invariant forall j :: level <= j < MAX_LEVEL ==> Linked(ns, r, j)
      {
        i := i - 1;
        IsBeforeAt(r, 0, i, -1);
        Unlink(x, header, i, r, q, 0, ns);
      }
      AllLow(r, q, 0, x, level, ns);
    }

    /** What every level holds when its links are followed from the header. */
    lemma LevelsAreRight(i: nat)
      requires Valid() && i < MAX_LEVEL
      ensures Walk(Column(Nodes(order), i), header, |order|) == OnLevel(order, i)
      ensures i >= level ==> header.forward[i] == null
    {
      var c := Column(Nodes(order), i);
      assert Linked(Nodes(order), order, i);
      WalkIsLevel(c, header, order, i, -1, |order|);
      assert order[0..] == order;
      HeaderLink(Nodes(order), i);
      if i >= level {
        NoneHigher(order, i);
      }
    }

    /** zslPrint: `length` steps along the bottom level end at its last node. */
    method Print() returns (scores: seq<nat>)
      requires Valid()
      ensures |scores| == |order| && forall j :: 0 <= j < |order| ==> scores[j] == order[j].score
    {
      scores := [];
      hide NextAt;
      LinkAt(0, -1);
      BottomNext(order, 0);
      var x := header.forward[0];
      var i := 0;
      while i < length
        invariant 0 <= i <= length && |scores| == i && x == if i < |order| then order[i] else null
        invariant forall j :: 0 <= j < i ==> scores[j] == order[j].score
      {
        assert order[i] in order;
        LinkAt(0, i);
        BottomNext(order, i + 1);
        scores := scores + [x.score];
        x := x.forward[0];
        i := i + 1;
      }
    }
  }

  /** Of two nodes of the same score, deleting the first deletes the second. */
  method WrongNodeDeleted() returns (list: ZSkipList, a: ListNode, b: ListNode)
    ensures list.Valid() && a != b && list.order == [a]
  {
    list := new ZSkipList();
    a := list.Insert(5, 1);
    b := list.Insert(5, 1);
    assert list.order == [b, a];
    list.Delete(a);
  }
}
