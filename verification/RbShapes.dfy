/** Red-black trees as values: the shape of a tree over node objects, the path from a
    subtree up to the root, in-order sequence, balance and colour rules. */
module RbShapes {
  /** ngx_rbtree_node_t. A colour of 1 is red. */
  class Node {
    var key: nat
    var left: Node?
    var right: Node?
    var parent: Node?
    var red: bool

    constructor (key: nat)
      ensures this.key == key
    {
      this.key := key;
      left, right, parent, red := null, null, null, false;
    }
  }

  datatype Tree = Nil | T(red: bool, l: Tree, n: Node, r: Tree)

  /** The way up from a subtree: each frame has a parent, the side the subtree hangs on,
      and the sibling subtree. */
  datatype Path = Top | Up(red: bool, n: Node, isLeft: bool, sib: Tree, up: Path)

  ghost function Inorder(t: Tree): seq<Node> {
    match t
    case Nil => []
    case T(_, l, n, r) => Inorder(l) + [n] + Inorder(r)
  }

  ghost function Nodes(t: Tree): set<Node> {
    match t
    case Nil => {}
    case T(_, l, n, r) => Nodes(l) + {n} + Nodes(r)
  }

  ghost function PathNodes(p: Path): set<Node> {
    match p
    case Top => {}
    case Up(_, n, _, sib, up) => {n} + Nodes(sib) + PathNodes(up)
  }

  /** The subtree of a frame once its hole is filled with t. */
  ghost function Mk(red: bool, isLeft: bool, n: Node, sib: Tree, t: Tree): Tree {
    if isLeft then T(red, t, n, sib) else T(red, sib, n, t)
  }

  ghost function Plug(p: Path, t: Tree): Tree {
    match p
    case Top => t
    case Up(red, n, isLeft, sib, up) => Plug(up, Mk(red, isLeft, n, sib, t))
  }

  ghost function Depth(p: Path): nat {
    if p.Top? then 0 else 1 + Depth(p.up)
  }

  ghost function Before(p: Path): seq<Node> {
    match p
    case Top => []
    case Up(_, n, isLeft, sib, up) => Before(up) + (if isLeft then [] else Inorder(sib) + [n])
  }

  ghost function After(p: Path): seq<Node> {
    match p
    case Top => []
    case Up(_, n, isLeft, sib, up) => (if isLeft then [n] + Inorder(sib) else []) + After(up)
  }

  /** The in-order sequence of the whole tree, seen from a subtree. */
  ghost function Seq(p: Path, t: Tree): seq<Node> {
    Before(p) + Inorder(t) + After(p)
  }

  lemma SeqUp(p: Path, t: Tree)
    requires p.Up?
    ensures Seq(p, t) == Seq(p.up, Mk(p.red, p.isLeft, p.n, p.sib, t))
  {
    var a, b, c := Before(p.up), Inorder(p.sib), After(p.up);
    if p.isLeft {
      AroundLeft(a, Inorder(t), p.n, b, c);
    } else {
      AroundRight(a, b, p.n, Inorder(t), c);
    }
  }

  lemma AroundLeft(a: seq<Node>, t: seq<Node>, n: Node, b: seq<Node>, c: seq<Node>)
    ensures (a + []) + t + (([n] + b) + c) == a + (t + [n] + b) + c
  {
  }

  lemma AroundRight(a: seq<Node>, b: seq<Node>, n: Node, t: seq<Node>, c: seq<Node>)
    ensures (a + (b + [n])) + t + ([] + c) == a + (b + [n] + t) + c
  {
  }

  lemma {:induction false} SeqPlug(p: Path, t: Tree)
    ensures Seq(p, t) == Inorder(Plug(p, t))
    decreases p
  {
    match p
    case Top =>
      assert Seq(Top, t) == Inorder(t);
    case Up(red, n, isLeft, sib, up) =>
      SeqUp(p, t);
      SeqPlug(up, Mk(red, isLeft, n, sib, t));
  }

  lemma {:induction false} PlugNodes(p: Path, t: Tree)
    ensures Nodes(Plug(p, t)) == PathNodes(p) + Nodes(t)
    decreases p
  {
    if p.Up? {
      PlugNodes(p.up, Mk(p.red, p.isLeft, p.n, p.sib, t));
    }
  }

  // ------------------------------------------------------------- distinctness

  ghost predicate Distinct(t: Tree) {
    match t
    case Nil => true
    case T(_, l, n, r) =>
      && n !in Nodes(l) && n !in Nodes(r) && Nodes(l) !! Nodes(r)
      && Distinct(l) && Distinct(r)
  }

  ghost predicate DistinctPath(p: Path) {
    match p
    case Top => true
    case Up(_, n, _, sib, up) =>
      && n !in Nodes(sib) && n !in PathNodes(up) && Nodes(sib) !! PathNodes(up)
      && Distinct(sib) && DistinctPath(up)
  }

  /** No node occurs twice, and the sentinel not at all. */
  ghost predicate Sep(s: Node, p: Path, t: Tree) {
    && Distinct(t) && DistinctPath(p) && Nodes(t) !! PathNodes(p)
    && s !in Nodes(t) && s !in PathNodes(p)
  }

  lemma SepUp(s: Node, p: Path, t: Tree)
    requires p.Up?
    ensures Sep(s, p, t) <==> Sep(s, p.up, Mk(p.red, p.isLeft, p.n, p.sib, t)) && p.n !in Nodes(t)
  {
  }

  // ------------------------------------------------------------ red-black rules

  predicate IsRed(t: Tree) {
    t.T? && t.red
  }

  /** Every way down from t to a leaf meets h black nodes. */
  ghost predicate Bal(t: Tree, h: int) {
    match t
    case Nil => h == 0
    case T(red, l, _, r) =>
      var below := if red then h else h - 1;
      Bal(l, below) && Bal(r, below)
  }

  /** Filling the hole of p with a subtree of black height h gives a balanced tree. */
  ghost predicate BalPath(p: Path, h: int) {
    match p
    case Top => true
    case Up(red, _, _, sib, up) => Bal(sib, h) && BalPath(up, if red then h else h + 1)
  }

  /** No red node has a red child. */
  ghost predicate NoRR(t: Tree) {
    match t
    case Nil => true
    case T(red, l, _, r) => (red ==> !IsRed(l) && !IsRed(r)) && NoRR(l) && NoRR(r)
  }

  /** The same along p, if the hole is filled with a subtree whose root is red or not;
      at the top, the root must be black. */
  ghost predicate NoRRPath(p: Path, rootRed: bool) {
    match p
    case Top => !rootRed
    case Up(red, _, _, sib, up) =>
      (red ==> !rootRed && !IsRed(sib)) && NoRR(sib) && NoRRPath(up, red)
  }

  /** A red-black tree of black height h. */
  ghost predicate RB(t: Tree, h: int) {
    Bal(t, h) && NoRR(t) && !IsRed(t)
  }

  lemma {:induction false} PlugRB(p: Path, t: Tree, h: int) returns (top: int)
    requires Bal(t, h) && BalPath(p, h) && NoRR(t) && NoRRPath(p, IsRed(t))
    ensures RB(Plug(p, t), top)
    decreases p
  {
    match p
    case Top =>
      top := h;
    case Up(red, n, isLeft, sib, up) =>
      top := PlugRB(up, Mk(red, isLeft, n, sib, t), if red then h else h + 1);
  }

  /** The rules of a whole tree, split at a subtree. */
  lemma {:induction false} UnplugRB(p: Path, t: Tree, top: int) returns (h: int)
    requires Bal(Plug(p, t), top) && NoRR(Plug(p, t)) && !IsRed(Plug(p, t))
    ensures Bal(t, h) && BalPath(p, h) && NoRR(t) && NoRRPath(p, IsRed(t))
    decreases p
  {
    if p.Top? {
      h := top;
    } else {
      h := UnplugRB(p.up, Mk(p.red, p.isLeft, p.n, p.sib, t), top);
      h := if p.red then h else h - 1;
    }
  }

  ghost function Elems(q: seq<Node>): set<Node> {
    set x | x in q
  }

  lemma ElemsConcat(a: seq<Node>, n: Node, b: seq<Node>)
    ensures Elems(a + [n] + b) == Elems(a) + {n} + Elems(b)
    ensures Elems(a + b) == Elems(a) + Elems(b)
  {
  }

  lemma {:induction false} NodesAreInorder(t: Tree)
    ensures Nodes(t) == Elems(Inorder(t))
  {
    if t.T? {
      NodesAreInorder(t.l);
      NodesAreInorder(t.r);
      ElemsConcat(Inorder(t.l), t.n, Inorder(t.r));
    }
  }

  lemma {:induction false} BalHeight(t: Tree, h: int)
    requires Bal(t, h)
    ensures h >= 0
    ensures h > 0 ==> t.T?
  {
    if t.T? {
      BalHeight(t.l, if t.red then h else h - 1);
    }
  }

  /** A rotation towards side d (true is left). Before, n is on top and its child b on the
      other side; after, b is on top and n has taken over b's inner subtree k. */
  ghost function Wide(d: bool, x: bool, a: Tree, n: Node, y: bool, k: Tree, b: Node, c: Tree): Tree {
    Mk(x, d, n, Mk(y, d, b, c, k), a)
  }

  ghost function Turned(d: bool, x: bool, a: Tree, n: Node, y: bool, k: Tree, b: Node, c: Tree): Tree {
    Mk(y, d, b, c, Mk(x, !d, n, a, k))
  }

  lemma Regroup(a: seq<Node>, n: Node, b: seq<Node>, m: Node, c: seq<Node>)
    ensures a + [n] + (b + [m] + c) == (a + [n] + b) + [m] + c
  {
  }

  lemma MkFacts(red: bool, d: bool, n: Node, sib: Tree, t: Tree)
    ensures var u := Mk(red, d, n, sib, t);
      && Nodes(u) == Nodes(t) + {n} + Nodes(sib)
      && (Distinct(u) <==>
            n !in Nodes(t) && n !in Nodes(sib) && Nodes(t) !! Nodes(sib) && Distinct(t) && Distinct(sib))
      && Inorder(u) == if d then Inorder(t) + [n] + Inorder(sib) else Inorder(sib) + [n] + Inorder(t)
  {
  }

  /** Both sides of a rotation have the same nodes in the same order. */
  lemma RotKeeps(d: bool, x: bool, a: Tree, n: Node, y: bool, k: Tree, b: Node, c: Tree)
    ensures var t, u := Wide(d, x, a, n, y, k, b, c), Turned(d, x, a, n, y, k, b, c);
      Nodes(t) == Nodes(u) && Inorder(t) == Inorder(u) && (Distinct(t) <==> Distinct(u))
  {
    var r, l := Mk(y, d, b, c, k), Mk(x, !d, n, a, k);
    MkFacts(y, d, b, c, k);
    MkFacts(x, !d, n, a, k);
    MkFacts(x, d, n, r, a);
    MkFacts(y, d, b, c, l);
    hide Nodes, Inorder, Distinct, Mk;
    if d {
      Regroup(Inorder(a), n, Inorder(k), b, Inorder(c));
    } else {
      Regroup(Inorder(c), b, Inorder(k), n, Inorder(a));
    }
    assert Wide(d, x, a, n, y, k, b, c) == Mk(x, d, n, r, a);
    assert Turned(d, x, a, n, y, k, b, c) == Mk(y, d, b, c, l);
  }
}
