/** Taking a node out of the tree: a node with at most one child is unlinked, and one with
    two children hands its place to its successor. */
module RbSplice {
  import opened RbShapes
  import opened RbHeap
  import opened RbFix

  /** y is all that is below t's root. */
  ghost predicate OnlyChild(t: Tree, y: Tree) {
    t.T? && ((t.l.Nil? && y == t.r) || (t.r.Nil? && y == t.l))
  }

  /** The colour rules after unlinking t's root: nothing is lost if it was red. */
  lemma UnlinkRules(p: Path, t: Tree, y: Tree, top: int) returns (h: int)
    requires RB(Plug(p, t), top) && OnlyChild(t, y)
    ensures !t.red ==> Lacking(p, y, h)
    ensures t.red ==> p.Up? && Bal(y, h) && BalPath(p, h) && NoRR(y) && !IsRed(y) && NoRRPath(p, false)
  {
    h := UnplugRB(p, t, top);
    h := if t.red then h else h - 1;
    assert NoRRPath(p, t.red);
  }

  /** The rules after a node of the given colour has been taken out above y. */
  ghost predicate Removed(red: bool, p: Path, y: Tree, h: int) {
    && (!red ==> Lacking(p, y, h))
    && (red ==> Bal(y, h) && BalPath(p, h) && NoRR(y) && !IsRed(y) && NoRRPath(p, false))
  }

  /** The cells of an unlinking, for the subtree y that moves up. */
  ghost predicate Unlinked(m: Memory, m': Memory, s: Node, p: Path, t: Tree, y: Tree) {
    && m'.Keys == m.Keys && s in m' && !m'[s].red
    && (p.Up? ==> p.n in m && m'[p.n] == SetChild(m[p.n], p.isLeft, Ptr(y, s)))
    && (y.T? ==> y.n in m && m'[y.n] == m[y.n].(parent := if p.Up? then p.n else m[y.n].parent))
    && forall x :: x in m && x != s && x != Ptr(y, s) && (p.Up? ==> x != p.n) ==> m'[x] == m[x]
  }

  lemma Unlink(m: Memory, m': Memory, root: Node, s: Node, p: Path, t: Tree, y: Tree)
    requires At(m, root, s, p, t) && OnlyChild(t, y) && Unlinked(m, m', s, p, t, y)
    ensures At(m', if p.Top? then Ptr(y, s) else root, s, p, y)
  {
    UnlinkSame(m, m', s, p, t, y);
    hide HoldsPath, Hang, Same, Unlinked, Nodes, PathNodes;
    PathHung(m, m', p, t.n, Ptr(y, s), root, s);
    HoldsReparented(m, m', y, s);
  }

  lemma UnlinkSame(m: Memory, m': Memory, s: Node, p: Path, t: Tree, y: Tree)
    requires Sep(s, p, t) && OnlyChild(t, y) && Unlinked(m, m', s, p, t, y)
    ensures Same(Hang(m, p, Ptr(y, s)), m', PathNodes(p)) && Same(m, m', Nodes(y) - {Ptr(y, s)})
    ensures Sep(s, p, y) && (y.T? ==> y.n in m && SameButParent(m, m', y.n) && (p.Up? ==> m'[y.n].parent == p.n))
  {
    assert Nodes(y) <= Nodes(t);
    assert p.Up? ==> p.n in PathNodes(p);
    assert y.T? ==> y.n in Nodes(y);
    hide Nodes, PathNodes, DistinctPath;
  }

  lemma UnlinkApart(s: Node, p: Path, t: Tree, y: Tree)
    requires Sep(s, p, t) && OnlyChild(t, y)
    ensures t.n !in PathNodes(p) && t.n !in Nodes(y) && Ptr(y, s) != t.n
    ensures p.Up? ==> Ptr(y, s) != p.n
  {
    assert y.T? ==> y.n in Nodes(y);
  }

  ghost function SetParent(m: Memory, n: Node, parent: Node): Memory
    requires n in m
  {
    m[n := m[n].(parent := parent)]
  }

  lemma SetTwice(m: Memory, n: Node, a: Node, b: Node)
    requires n in m
    ensures n in SetParent(m, n, a) && SetParent(SetParent(m, n, a), n, b) == SetParent(m, n, b)
    ensures forall x :: x in m && x != n ==> SetParent(m, n, b)[x] == SetParent(m, n, a)[x]
  {
  }

  /** What the code of an unlinking reads. */
  lemma UnlinkReads(m: Memory, root: Node, s: Node, p: Path, t: Tree, y: Tree)
    requires At(m, root, s, p, t) && OnlyChild(t, y) && p.Up?
    ensures s in m && t.n in m && m[t.n].parent == p.n && p.n in m && p.n != t.n && Ptr(y, s) in m
    ensures m[p.n].left == t.n <==> p.isLeft
    ensures t.n !in PathNodes(p) && t.n !in Nodes(y) && Sep(s, p, t) && Ptr(y, s) !in {t.n, p.n}
  {
    UnlinkApart(s, p, t, y);
    Look(m, root, s, p, t);
    LookUp(m, root, s, p, t);
    LookDown(m, root, s, p, t);
  }

  /** Unlinking, from the two links that the code writes. */
  lemma UnlinkStep(m: Memory, root: Node, s: Node, p: Path, t: Tree, y: Tree)
    requires At(m, root, s, p, t) && OnlyChild(t, y) && p.Up?
    requires p.n in m && Ptr(y, s) in m
    ensures At(SetParent(m[p.n := SetChild(m[p.n], p.isLeft, Ptr(y, s))], Ptr(y, s), p.n), root, s, p, y)
  {
    UnlinkApart(s, p, t, y);
    LookUp(m, root, s, p, t);
    Unlink(m, SetParent(m[p.n := SetChild(m[p.n], p.isLeft, Ptr(y, s))], Ptr(y, s), p.n), root, s, p, t, y);
  }

  /** The whole order around the focus. */
  lemma Around(p: Path, t: Tree, whole: Tree)
    requires t.T? && Plug(p, t) == whole
    ensures Inorder(whole) == (Before(p) + Inorder(t.l)) + [t.n] + (Inorder(t.r) + After(p))
  {
    SeqPlug(p, t);
    Regrouped(Before(p), Inorder(t.l), t.n, Inorder(t.r), After(p));
  }

  /** The cells of n's place handed over to `subst`. */
  ghost predicate TookPlace(m: Memory, m': Memory, s: Node, p: Path, l: Tree, n: Node, r: Tree, subst: Node) {
    && m'.Keys == m.Keys && s in m' && !m'[s].red
    && n in m && subst in m && m'[subst] == m[n].(key := m[subst].key)
    && (l.T? ==> l.n in m && m'[l.n] == m[l.n].(parent := subst))
    && (r.T? ==> r.n in m && m'[r.n] == m[r.n].(parent := subst))
    && (p.Up? ==> p.n in m && m'[p.n] == SetChild(m[p.n], p.isLeft, subst))
    && forall x :: x in m && x !in {subst, s, Ptr(l, s), Ptr(r, s)} && (p.Up? ==> x != p.n) ==> m'[x] == m[x]
  }

  /** Handing over the place leaves all but five nodes alone. */
  lemma PlaceUntouched(m: Memory, m': Memory, s: Node, p: Path, l: Tree, n: Node, r: Tree, subst: Node, ns: set<Node>)
    requires TookPlace(m, m', s, p, l, n, r, subst)
    requires s !in ns && subst !in ns && (l.T? ==> l.n !in ns) && (r.T? ==> r.n !in ns) && (p.Up? ==> p.n !in ns)
    ensures Same(m, m', ns)
  {
  }

  lemma PlaceSubtrees(m: Memory, m': Memory, s: Node, p: Path, red: bool, l: Tree, n: Node, r: Tree, subst: Node)
    requires Sep(s, p, T(red, l, n, r)) && TookPlace(m, m', s, p, l, n, r, subst)
    requires subst !in Nodes(T(red, l, n, r))
    ensures Same(m, m', Nodes(l) - {Ptr(l, s)}) && Same(m, m', Nodes(r) - {Ptr(r, s)})
  {
    assert l.T? ==> l.n in Nodes(l);
    assert r.T? ==> r.n in Nodes(r);
    assert p.Up? ==> p.n in PathNodes(p);
    assert Nodes(T(red, l, n, r)) == Nodes(l) + {n} + Nodes(r);
    hide Nodes, PathNodes, Same, TookPlace;
    PlaceUntouched(m, m', s, p, l, n, r, subst, Nodes(l) - {Ptr(l, s)});
    PlaceUntouched(m, m', s, p, l, n, r, subst, Nodes(r) - {Ptr(r, s)});
  }

  lemma PlaceHung(m: Memory, m': Memory, s: Node, p: Path, red: bool, l: Tree, n: Node, r: Tree, subst: Node)
    requires Sep(s, p, T(red, l, n, r)) && TookPlace(m, m', s, p, l, n, r, subst)
    requires subst !in PathNodes(p)
    ensures Same(Hang(m, p, subst), m', PathNodes(p))
  {
    assert l.T? ==> l.n in Nodes(l);
    assert r.T? ==> r.n in Nodes(r);
    assert Nodes(T(red, l, n, r)) == Nodes(l) + {n} + Nodes(r);
    hide Nodes, PathNodes;
  }

  lemma PlaceSep(s: Node, p: Path, red: bool, l: Tree, n: Node, r: Tree, subst: Node)
    requires Sep(s, p, T(red, l, n, r))
    requires subst != s && subst !in Nodes(T(red, l, n, r)) && subst !in PathNodes(p)
    ensures Sep(s, p, T(red, l, subst, r)) && Distinct(l) && Distinct(r) && DistinctPath(p)
  {
    assert Nodes(T(red, l, n, r)) == Nodes(l) + {n} + Nodes(r);
    assert Nodes(T(red, l, subst, r)) == Nodes(l) + {subst} + Nodes(r);
    hide Nodes, PathNodes, DistinctPath;
  }

  lemma PlaceHolds(m: Memory, m': Memory, s: Node, p: Path, red: bool, l: Tree, n: Node, r: Tree, subst: Node)
    requires Holds(m, T(red, l, n, r), s) && TookPlace(m, m', s, p, l, n, r, subst)
    requires Holds(m', l, s) && Holds(m', r, s)
    ensures Holds(m', T(red, l, subst, r), s) && m'[subst].parent == m[n].parent
  {
  }

  /** A node that is not in the tree takes over the place of the focus. */
  lemma TakePlace(m: Memory, m': Memory, root: Node, s: Node, p: Path, red: bool, l: Tree, n: Node, r: Tree,
                  subst: Node)
    requires At(m, root, s, p, T(red, l, n, r)) && TookPlace(m, m', s, p, l, n, r, subst)
    requires subst != s && subst !in Nodes(T(red, l, n, r)) && subst !in PathNodes(p)
    ensures At(m', if p.Top? then subst else root, s, p, T(red, l, subst, r))
  {
    PlaceSubtrees(m, m', s, p, red, l, n, r, subst);
    PlaceHung(m, m', s, p, red, l, n, r, subst);
    PlaceSep(s, p, red, l, n, r, subst);
    assert Holds(m, l, s) && Holds(m, r, s) && s in m' && subst in m' && n in m;
    assert (l.T? ==> SameButParent(m, m', l.n)) && (r.T? ==> SameButParent(m, m', r.n));
    hide Same, HoldsPath, Nodes, PathNodes, Sep, Hang, Holds, SameButParent;
    PathHung(m, m', p, n, subst, root, s);
    HoldsReparented(m, m', l, s);
    HoldsReparented(m, m', r, s);
    PlaceHolds(m, m', s, p, red, l, n, r, subst);
    hide TookPlace;
  }

  // ------------------------------------------------------- paths within a subtree

  /** The path q inside a subtree that itself sits at the end of p. */
  ghost function Below(q: Path, p: Path): Path {
    if q.Top? then p else Up(q.red, q.n, q.isLeft, q.sib, Below(q.up, p))
  }

  lemma {:induction false} PlugBelow(q: Path, p: Path, t: Tree)
    ensures Plug(Below(q, p), t) == Plug(p, Plug(q, t))
    decreases q
  {
    if q.Up? {
      PlugBelow(q.up, p, Mk(q.red, q.isLeft, q.n, q.sib, t));
    }
  }

  /** The focus may move anywhere in the tree. */
  lemma {:induction false} MoveBottom(m: Memory, root: Node, s: Node, p: Path, t: Tree)
    requires At(m, root, s, Top, Plug(p, t))
    ensures At(m, root, s, p, t)
    decreases p
  {
    if p.Up? {
      MoveBottom(m, root, s, p.up, Mk(p.red, p.isLeft, p.n, p.sib, t));
      MoveDown(m, root, s, p, t);
    }
  }

  lemma MoveTo(m: Memory, root: Node, s: Node, p: Path, t: Tree, p': Path, t': Tree)
    requires At(m, root, s, p, t) && Plug(p, t) == Plug(p', t')
    ensures At(m, root, s, p', t')
  {
    hide At;
    MoveTop(m, root, s, p, t);
    MoveBottom(m, root, s, p', t');
  }

  lemma BelowTop(q: Path, red: bool, n: Node, l: Tree, p: Path)
    ensures var b := Below(q, Up(red, n, false, l, p));
      b.Up? && b.n == (if q.Top? then n else q.n) && (q.Top? ==> !b.isLeft)
  {
  }

  lemma {:induction false} BelowNodes(q: Path, p: Path)
    ensures PathNodes(Below(q, p)) == PathNodes(q) + PathNodes(p)
    decreases q
  {
    if q.Up? {
      BelowNodes(q.up, p);
    }
  }

  lemma {:induction false} PlugRoot(q: Path, t: Tree)
    ensures q.Top? ==> Plug(q, t) == t
    ensures q.Up? ==> Plug(q, t).T? && Plug(q, t).n in PathNodes(q)
    decreases q
  {
    if q.Up? {
      PlugRoot(q.up, Mk(q.red, q.isLeft, q.n, q.sib, t));
    }
  }

  /** The successor t.n is apart from what stays, and the child of n's place is either the
      subtree that moved up or another node. */
  lemma SuccessorApart(s: Node, p: Path, red: bool, l: Tree, n: Node, q: Path, t: Tree)
    requires Sep(s, Below(q, Up(red, n, false, l, p)), t) && t.T?
    ensures t.n != s && t.n !in PathNodes(p) && t.n !in Nodes(T(red, l, n, Plug(q, t.r)))
    ensures q.Top? ==> Plug(q, t.r) == t.r
    ensures q.Up? ==> Plug(q, t.r).T? && Plug(q, t.r).n != Ptr(t.r, s)
    ensures t.r.T? ==> t.r.n in Nodes(Plug(q, t.r))
  {
    var frame := Up(red, n, false, l, p);
    BelowNodes(q, frame);
    PlugNodes(q, t.r);
    PlugRoot(q, t.r);
    assert PathNodes(frame) == {n} + Nodes(l) + PathNodes(p);
    assert Nodes(T(red, l, n, Plug(q, t.r))) == Nodes(l) + {n} + Nodes(Plug(q, t.r));
    assert t.r.T? ==> t.r.n in Nodes(t.r);
  }

  /** A node outside the tree may be forgotten. */
  lemma Forget(m: Memory, m': Memory, root: Node, s: Node, p: Path, t: Tree, node: Node)
    requires At(m, root, s, p, t) && node !in PathNodes(p) && node !in Nodes(t) && node != s
    requires forall x :: x in m && x != node ==> x in m' && m'[x] == m[x]
    ensures At(m', root, s, p, t)
  {
    HoldsSame(m, m', t, s);
    PathSame(m, m', p, Ptr(t, s), root, s);
  }

  lemma ForgetNode(m: Memory, root: Node, s: Node, p: Path, t: Tree, node: Node)
    requires At(m, root, s, p, t) && node !in PathNodes(p) && node !in Nodes(t) && node != s
    ensures At(m - {node}, root, s, p, t)
  {
    hide At, PathNodes, Nodes;
    Forget(m, m - {node}, root, s, p, t, node);
  }

  /** Which node a frame holds does not matter to the colour rules. */
  lemma {:induction false} SwapRules(q: Path, red: bool, n: Node, n': Node, l: Tree, p: Path, h: int, rootRed: bool)
    ensures var a, b := Below(q, Up(red, n, false, l, p)), Below(q, Up(red, n', false, l, p));
      (BalPath(a, h) ==> BalPath(b, h)) && (NoRRPath(a, rootRed) ==> NoRRPath(b, rootRed))
    decreases q
  {
    if q.Up? {
      SwapRules(q.up, red, n, n', l, p, if q.red then h else h + 1, q.red);
    }
  }

  /** The leftmost node of a subtree comes first in it. */
  lemma LeftmostFirst(q: Path, t: Tree)
    requires t.T? && t.l.Nil? && Before(q) == []
    ensures Inorder(Plug(q, t)) == [t.n] + Inorder(Plug(q, t.r))
  {
    SeqPlug(q, t);
    SeqPlug(q, t.r);
    PlugRight(t.red, Nil, t.n, t.r, Top);
    hide Plug, Before, After, Inorder;
    FirstOut(t.n, Inorder(t.r), After(q));
  }

  lemma FirstOut(n: Node, a: seq<Node>, b: seq<Node>)
    ensures [] + ([] + [n] + a) + b == [n] + ([] + a + b)
  {
  }

  lemma PlugRight(red: bool, l: Tree, n: Node, r: Tree, p: Path)
    ensures Plug(Up(red, n, false, l, p), r) == Plug(p, T(red, l, n, r))
    ensures Inorder(T(red, l, n, r)) == Inorder(l) + [n] + Inorder(r) && Inorder(Nil) == []
  {
  }

  lemma Assoc(a: seq<Node>, n: Node, b: seq<Node>)
    ensures a + [n] + b == a + ([n] + b)
  {
  }

  /** What is left of the order when t's root has moved up into n's place. */
  lemma SwapSeq(q: Path, red: bool, l: Tree, p: Path, t: Tree)
    requires t.T? && t.l.Nil? && Before(q) == []
    ensures Seq(Below(q, Up(red, t.n, false, l, p)), t.r)
         == Before(p) + (Inorder(l) + Inorder(Plug(q, t))) + After(p)
  {
    var r', frame := Plug(q, t.r), Up(red, t.n, false, l, p);
    hide Inorder, Before, After, Plug, Below;
    PlugRight(red, l, t.n, r', p);
    SeqPlug(Below(q, frame), t.r);
    PlugBelow(q, frame, t.r);
    SeqPlug(p, T(red, l, t.n, r'));
    LeftmostFirst(q, t);
    Assoc(Inorder(l), t.n, Inorder(r'));
  }

  /** The cell of x after `subst` has taken over the place of node: what the code writes. */
  ghost function TakenCell(m: Memory, root: Node, s: Node, node: Node, subst: Node, x: Node): Cell
    requires node in m && subst in m && x in m
  {
    if x == subst then m[node].(key := m[subst].key)
    else if node != root && x == m[node].parent then SetChild(m[x], m[x].left == node, subst)
    else if x != s && (x == m[node].left || x == m[node].right) then m[x].(parent := subst)
    else m[x]
  }

  /** The three groups of assignments that make up TakenCell. */
  lemma TakenInSteps(m: Memory, m1: Memory, m': Memory, root: Node, s: Node, n: Node, subst: Node)
    requires {n, subst} <= m.Keys && n != subst && n != s && subst != s
    requires n != root ==> m[n].parent != null && m[n].parent in m
    requires n != root ==> m[n].parent !in {n, subst, s, m[n].left, m[n].right}
    requires subst != m[n].left && subst != m[n].right
    requires var copied := m[subst := m[n].(key := m[subst].key)]; var parent := m[n].parent;
      m1 == if n == root then copied else copied[parent := SetChild(m[parent], m[parent].left == n, subst)]
    requires m'.Keys == m1.Keys
    requires forall x :: x in m1 ==>
      m'[x] == if x != s && (x == m[n].left || x == m[n].right) then m1[x].(parent := subst) else m1[x]
    ensures forall x :: x in m ==> m'[x] == TakenCell(m, root, s, n, subst, x)
  {
    forall x | x in m
      ensures m'[x] == TakenCell(m, root, s, n, subst, x)
    {
      assert x in m1;
    }
  }

  /** What the code reads at the node that gives up its place. */
  lemma PlaceReads(m: Memory, root: Node, s: Node, p: Path, red: bool, l: Tree, n: Node, r: Tree)
    requires At(m, root, s, p, T(red, l, n, r))
    ensures s in m && n in m && n != s && m[n].left == Ptr(l, s) && m[n].right == Ptr(r, s)
    ensures Ptr(l, s) in m && Ptr(r, s) in m
    ensures (l.T? ==> Ptr(l, s) != s) && Ptr(l, s) != n && Ptr(r, s) != n
    ensures l.T? ==> Ptr(l, s) != Ptr(r, s)
    ensures n == root <==> p.Top?
    ensures p.Up? ==> m[n].parent == p.n && p.n in m && p.n !in {n, s, Ptr(l, s), Ptr(r, s)}
    ensures p.Up? ==> (m[p.n].left == n <==> p.isLeft)
  {
    var t := T(red, l, n, r);
    LookDown(m, root, s, p, t);
    Look(m, root, s, p, t);
    assert l.T? ==> l.n in Nodes(l);
    assert r.T? ==> r.n in Nodes(r);
    if p.Up? {
      LookUp(m, root, s, p, t);
      assert p.n in PathNodes(p);
    }
  }

  /** What the code reads there once the successor t.n is unlinked. */
  lemma SuccessorReads(m: Memory, root: Node, s: Node, p: Path, red: bool, l: Tree, n: Node, q: Path, t: Tree)
    requires t.T? && At(m, root, s, Below(q, Up(red, n, false, l, p)), t.r)
    requires Sep(s, Below(q, Up(red, n, false, l, p)), t) && l.T?
    ensures s in m && n in m && n != s && t.n != n && t.n != s && Ptr(t.r, s) !in {n, t.n}
    ensures m[n].left != null && m[n].left in m && m[n].left !in {s, n, t.n}
    ensures m[n].right != null && m[n].right in m && m[n].right !in {n, t.n, m[n].left}
    ensures n != root ==> m[n].parent != null && m[n].parent in m && m[n].parent !in {n, s, t.n, m[n].left, m[n].right}
  {
    var r := Plug(q, t.r);
    PlugBelow(q, Up(red, n, false, l, p), t.r);
    SuccessorApart(s, p, red, l, n, q, t);
    MoveTo(m, root, s, Below(q, Up(red, n, false, l, p)), t.r, p, T(red, l, n, r));
    PlaceReads(m, root, s, p, red, l, n, r);
    assert l.n in Nodes(l);
    assert r.T? ==> r.n in Nodes(r);
    assert p.Up? ==> p.n in PathNodes(p);
    assert t.r.T? ==> t.r.n in Nodes(t.r);
    BelowNodes(q, Up(red, n, false, l, p));
  }

  /** The successor t.n of n is unlinked and takes n's place; m is the memory after the
      unlinking, m' the one after the code has run, which sets the parent of the subtree
      that moved up only once. */
  lemma SuccessorStep(m: Memory, m': Memory, root: Node, s: Node, p: Path, red: bool, l: Tree, n: Node,
                      q: Path, t: Tree)
    requires t.T? && At(m, root, s, Below(q, Up(red, n, false, l, p)), t.r)
    requires Sep(s, Below(q, Up(red, n, false, l, p)), t)
    requires l.T? && n in m && t.n in m
    requires m'.Keys == m.Keys && !m'[s].red
    requires forall x :: x in m && x != Ptr(t.r, s) ==> m'[x] == TakenCell(m, root, s, n, t.n, x)
    requires t.r.T? ==> t.r.n in m && m'[t.r.n] == m[t.r.n].(parent := if q.Top? then t.n else m[t.r.n].parent)
    ensures At(m', if n == root then t.n else root, s, Below(q, Up(red, t.n, false, l, p)), t.r)
  {
    var r := Plug(q, t.r);
    hide At, Below, Plug, Sep, TookPlace, TakenCell, Nodes, PathNodes;
    PlugBelow(q, Up(red, n, false, l, p), t.r);
    PlugBelow(q, Up(red, t.n, false, l, p), t.r);
    PlugRight(red, l, n, r, p);
    PlugRight(red, l, t.n, r, p);
    SuccessorApart(s, p, red, l, n, q, t);
    MoveTo(m, root, s, Below(q, Up(red, n, false, l, p)), t.r, p, T(red, l, n, r));
    PlaceReads(m, root, s, p, red, l, n, r);
    TakenIsTookPlace(m, m', root, s, p, red, l, n, r, q, t);
    TakePlace(m, m', root, s, p, red, l, n, r, t.n);
    MoveTo(m', if p.Top? then t.n else root, s, p, T(red, l, t.n, r), Below(q, Up(red, t.n, false, l, p)), t.r);
  }

  lemma TakenIsTookPlace(m: Memory, m': Memory, root: Node, s: Node, p: Path, red: bool, l: Tree, n: Node,
                         r: Tree, q: Path, t: Tree)
    requires At(m, root, s, p, T(red, l, n, r)) && t.T? && r == Plug(q, t.r)
    requires l.T? && n in m && t.n in m
    requires t.n != s && t.n !in PathNodes(p) && t.n !in Nodes(T(red, l, n, r))
    requires q.Top? ==> r == t.r
    requires q.Up? ==> r.T? && r.n != Ptr(t.r, s)
    requires t.r.T? ==> t.r.n in Nodes(r)
    requires m'.Keys == m.Keys && !m'[s].red
    requires forall x :: x in m && x != Ptr(t.r, s) ==> m'[x] == TakenCell(m, root, s, n, t.n, x)
    requires t.r.T? ==> t.r.n in m && m'[t.r.n] == m[t.r.n].(parent := if q.Top? then t.n else m[t.r.n].parent)
    ensures TookPlace(m, m', s, p, l, n, r, t.n)
  {
    PlaceReads(m, root, s, p, red, l, n, r);
    assert l.n in Nodes(l);
    assert p.Up? ==> p.n in PathNodes(p);
    assert t.r.T? ==> t.r.n !in Nodes(l) && t.r.n !in PathNodes(p) && t.r.n != n;
    assert t.n != Ptr(t.r, s);
    hide Holds, HoldsPath, Nodes, PathNodes, Distinct, DistinctPath, Plug;
  }

  /** The code behind the unlinking: v is the memory with the moved subtree below the
      successor's old parent, u the one with the parent link the code really sets. */
  lemma SuccessorCode(v: Memory, u: Memory, m': Memory, root: Node, s: Node, p: Path, red: bool, l: Tree,
                      n: Node, q: Path, t: Tree)
    requires t.T? && At(v, root, s, Below(q, Up(red, n, false, l, p)), t.r)
    requires Sep(s, Below(q, Up(red, n, false, l, p)), t)
    requires l.T? && n in v && t.n in v && Ptr(t.r, s) in v
    requires t.r.T? && q.Up? ==> v[t.r.n].parent == q.n
    requires u == SetParent(v, Ptr(t.r, s), if q.Top? then t.n else q.n)
    requires m'.Keys == u.Keys && forall x :: x in u ==> m'[x] == TakenCell(u, root, s, n, t.n, x)
    ensures var p' := Below(q, Up(red, t.n, false, l, p));
      && At(m', if n == root then t.n else root, s, p', t.r)
      && s in m' && p'.Up? && (t.r.Nil? ==> m'[s].parent == p'.n)
  {
    var temp := Ptr(t.r, s);
    SuccessorReads(v, root, s, p, red, l, n, q, t);
    TakenElsewhere(v, u, m', root, s, n, t.n, temp);
    assert s in u && m'[s] == TakenCell(u, root, s, n, t.n, s) == u[s];
    hide At, Sep, Below, Plug;
    if t.r.T? {
      MovedSubtree(v, root, s, p, red, l, n, q, t);
      assert m'[temp] == TakenCell(u, root, s, n, t.n, temp);
    }
    BelowTop(q, red, t.n, l, p);
    hide TakenCell;
    SuccessorStep(v, m', root, s, p, red, l, n, q, t);
  }

  lemma TakenElsewhere(v: Memory, u: Memory, m': Memory, root: Node, s: Node, n: Node, subst: Node, temp: Node)
    requires n in v && subst in v && temp in v && temp != n && temp != subst
    requires u.Keys == v.Keys && forall x :: x in v && x != temp ==> u[x] == v[x]
    requires forall x :: x in u ==> m'.Keys == u.Keys && m'[x] == TakenCell(u, root, s, n, subst, x)
    ensures forall x :: x in v && x != temp ==> x in m' && m'[x] == TakenCell(v, root, s, n, subst, x)
  {
    forall x | x in v && x != temp
      ensures x in m' && m'[x] == TakenCell(v, root, s, n, subst, x)
    {
      assert x in u;
    }
  }

  /** The moved subtree hangs on n exactly if the successor did. */
  lemma MovedSubtree(m: Memory, root: Node, s: Node, p: Path, red: bool, l: Tree, n: Node, q: Path, t: Tree)
    requires t.T? && At(m, root, s, Below(q, Up(red, n, false, l, p)), t.r)
    requires Sep(s, Below(q, Up(red, n, false, l, p)), t) && l.T? && t.r.T?
    ensures n in m && m[n].left != t.r.n && (m[n].right == t.r.n <==> q.Top?)
    ensures n != root ==> m[n].parent != t.r.n
  {
    var r := Plug(q, t.r);
    PlugBelow(q, Up(red, n, false, l, p), t.r);
    SuccessorApart(s, p, red, l, n, q, t);
    MoveTo(m, root, s, Below(q, Up(red, n, false, l, p)), t.r, p, T(red, l, n, r));
    PlaceReads(m, root, s, p, red, l, n, r);
    assert l.n in Nodes(l);
    assert p.Up? ==> p.n in PathNodes(p);
    hide Holds, HoldsPath;
  }

  /** n occurs nowhere once its successor sits in its place. */
  lemma SuccessorGone(m: Memory, root: Node, s: Node, p: Path, red: bool, l: Tree, n: Node, q: Path, t: Tree)
    requires t.T? && At(m, root, s, Below(q, Up(red, n, false, l, p)), t)
    ensures n !in PathNodes(Below(q, Up(red, t.n, false, l, p))) && n !in Nodes(t.r)
    ensures (Below(q, Up(red, n, false, l, p))).n != Ptr(t.r, s) && (q.Up? ==> q.n != n)
  {
    hide Holds, HoldsPath;
    BelowNodes(q, Up(red, n, false, l, p));
    BelowNodes(q, Up(red, t.n, false, l, p));
    BelowTop(q, red, n, l, p);
    NotTwice(q, Up(red, n, false, l, p));
    assert t.r.T? ==> t.r.n in Nodes(t.r);
    assert q.Up? ==> q.n in PathNodes(q);
  }

  lemma {:induction false} NotTwice(q: Path, p: Path)
    requires DistinctPath(Below(q, p))
    ensures PathNodes(q) !! PathNodes(p)
    ensures DistinctPath(p)
    decreases q
  {
    if q.Up? {
      NotTwice(q.up, p);
      BelowNodes(q.up, p);
    }
  }

  // ------------------------------------------------------- what is left

  lemma SelfRemoved(p: Path, t: Tree, y: Tree, top: int) returns (h: int)
    requires RB(Plug(p, t), top) && OnlyChild(t, y)
    ensures Removed(t.red, p, y, h)
    ensures Seq(p, y) == (Before(p) + Inorder(t.l)) + (Inorder(t.r) + After(p))
  {
    h := UnlinkRules(p, t, y, top);
    hide Before, After, Lacking, RB;
    if t.l.Nil? {
      assert Before(p) + Inorder(t.r) + After(p) == (Before(p) + []) + (Inorder(t.r) + After(p));
    } else {
      assert Before(p) + Inorder(t.l) + After(p) == (Before(p) + Inorder(t.l)) + ([] + After(p));
    }
  }

  lemma SuccessorRemoved(p: Path, t: Tree, q: Path, u: Tree, top: int) returns (h: int)
    requires t.T? && RB(Plug(p, t), top)
    requires u.T? && u.l.Nil? && Plug(q, u) == t.r && Before(q) == []
    ensures var p' := Below(q, Up(t.red, u.n, false, t.l, p));
      Removed(u.red, p', u.r, h) && Seq(p', u.r) == (Before(p) + Inorder(t.l)) + (Inorder(t.r) + After(p))
  {
    var ps := Below(q, Up(t.red, t.n, false, t.l, p));
    PlugBelow(q, Up(t.red, t.n, false, t.l, p), u);
    h := UnlinkRules(ps, u, u.r, top);
    SwapSeq(q, t.red, t.l, p, u);
    hide Before, After, RB, Inorder, Bal, NoRR, BalPath, NoRRPath, Below, Plug, Seq;
    SwapRules(q, t.red, t.n, u.n, t.l, p, if u.red then h else h + 1, false);
    Split(Before(p), Inorder(t.l), Inorder(t.r), After(p));
  }

  lemma Split(a: seq<Node>, b: seq<Node>, c: seq<Node>, d: seq<Node>)
    ensures a + (b + c) + d == (a + b) + (c + d)
  {
  }

  /** A node that is nowhere in the tree is not in its order. */
  lemma GoneFromOrder(p: Path, t: Tree, node: Node)
    requires node !in PathNodes(p) && node !in Nodes(t)
    ensures node !in Elems(Seq(p, t))
  {
    SeqPlug(p, t);
    PlugNodes(p, t);
    NodesAreInorder(Plug(p, t));
  }

  lemma GoneFromTree(t: Tree, node: Node)
    requires node !in Nodes(t)
    ensures node !in Elems(Inorder(t))
  {
    NodesAreInorder(t);
  }

  /** Nothing is left to repair after a red node has gone. */
  lemma RedRemoved(p: Path, y: Tree, h: int) returns (top: int)
    requires Removed(true, p, y, h)
    ensures RB(Plug(p, y), top) && Inorder(Plug(p, y)) == Seq(p, y)
  {
    top := PlugRB(p, y, h);
    SeqPlug(p, y);
  }

  /** The successor is another node. */
  lemma SuccessorIsOther(m: Memory, root: Node, s: Node, q: Path, red: bool, n: Node, l: Tree, p: Path, t: Tree)
    requires At(m, root, s, Below(q, Up(red, n, false, l, p)), t) && t.T?
    ensures t.n != n && n in m
  {
    assert t.n != n by {
      hide Holds, HoldsPath;
      BelowNodes(q, Up(red, n, false, l, p));
    }
    PlugBelow(q, Up(red, n, false, l, p), t);
    MoveTo(m, root, s, Below(q, Up(red, n, false, l, p)), t, Up(red, n, false, l, p), Plug(q, t));
  }

  lemma PtrIsOther(t: Tree, s: Node, node: Node)
    requires node != s && node !in Nodes(t)
    ensures Ptr(t, s) != node
  {
  }

  /** The tree after its root has been taken out above y. */
  lemma RootRemoved(red: bool, y: Tree, h: int) returns (h': int)
    requires Removed(red, Top, y, h)
    ensures RB(Painted(y, false), h') && Inorder(Painted(y, false)) == Seq(Top, y)
  {
    if red {
      h' := RedRemoved(Top, y, h);
    } else {
      h' := DeleteDone(Top, y, h);
    }
  }
}
