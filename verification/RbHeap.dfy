/** How a tree shape lies in memory. A memory is a snapshot of the fields of the nodes;
    the lemmas say what moving the point of view or changing one node does to it. */
module RbHeap {
  import opened RbShapes
  import opened Bits

  datatype Cell = Cell(key: nat, red: bool, left: Node?, right: Node?, parent: Node?)

  type Memory = map<Node, Cell>

  /** The pointer to a subtree: its root node, or the sentinel. */
  ghost function Ptr(t: Tree, s: Node): Node {
    if t.Nil? then s else t.n
  }

  /** The root of t, if there is one, points up to n. */
  ghost predicate Linked(m: Memory, t: Tree, n: Node) {
    t.T? ==> t.n in m && m[t.n].parent == n
  }

  /** Colours, children and parents inside t are as the shape says; the parent of its
      root is not looked at. */
  ghost predicate Holds(m: Memory, t: Tree, s: Node) {
    match t
    case Nil => true
    case T(red, l, n, r) =>
      && n in m && m[n].red == red && m[n].left == Ptr(l, s) && m[n].right == Ptr(r, s)
      && Linked(m, l, n) && Linked(m, r, n)
      && Holds(m, l, s) && Holds(m, r, s)
  }

  /** One frame of a path whose hole holds the pointer `hole`. */
  ghost predicate HoldsFrame(m: Memory, red: bool, n: Node, isLeft: bool, sib: Tree, hole: Node, s: Node) {
    && n in m && m[n].red == red
    && m[n].left == (if isLeft then hole else Ptr(sib, s))
    && m[n].right == (if isLeft then Ptr(sib, s) else hole)
    && Linked(m, sib, n) && Holds(m, sib, s)
  }

  /** The path from `hole` up to the root; the parent of the root is not looked at. */
  ghost predicate HoldsPath(m: Memory, p: Path, hole: Node, root: Node, s: Node) {
    match p
    case Top => hole == root
    case Up(red, n, isLeft, sib, up) =>
      && HoldsFrame(m, red, n, isLeft, sib, hole, s)
      && (up.Up? ==> m[n].parent == up.n)
      && HoldsPath(m, up, n, root, s)
  }

  /** A tree in memory, seen from the subtree t at the end of the path p. */
  ghost predicate Core(m: Memory, root: Node, s: Node, p: Path, t: Tree) {
    && Sep(s, p, t) && s in m && !m[s].red
    && Holds(m, t, s) && HoldsPath(m, p, Ptr(t, s), root, s)
  }

  /** The same, with the parent link of the subtree itself in order. */
  ghost predicate At(m: Memory, root: Node, s: Node, p: Path, t: Tree) {
    Core(m, root, s, p, t) && (p.Up? ==> Linked(m, t, p.n))
  }

  // ------------------------------------------------------- moving the point of view

  lemma MoveUp(m: Memory, root: Node, s: Node, p: Path, t: Tree)
    requires At(m, root, s, p, t) && p.Up?
    ensures At(m, root, s, p.up, Mk(p.red, p.isLeft, p.n, p.sib, t))
  {
    SepUp(s, p, t);
  }

  lemma MoveDown(m: Memory, root: Node, s: Node, p: Path, t: Tree)
    requires p.Up? && At(m, root, s, p.up, Mk(p.red, p.isLeft, p.n, p.sib, t))
    ensures At(m, root, s, p, t)
  {
  }

  lemma MoveLeft(m: Memory, root: Node, s: Node, p: Path, t: Tree)
    requires At(m, root, s, p, t) && t.T?
    ensures At(m, root, s, Up(t.red, t.n, true, t.r, p), t.l)
  {
    MoveDown(m, root, s, Up(t.red, t.n, true, t.r, p), t.l);
  }

  lemma MoveRight(m: Memory, root: Node, s: Node, p: Path, t: Tree)
    requires At(m, root, s, p, t) && t.T?
    ensures At(m, root, s, Up(t.red, t.n, false, t.l, p), t.r)
  {
    MoveDown(m, root, s, Up(t.red, t.n, false, t.l, p), t.r);
  }

  /** The root pointer names the focus exactly at the top of the path. */
  lemma {:induction false} RootOnPath(m: Memory, root: Node, s: Node, p: Path, hole: Node)
    requires HoldsPath(m, p, hole, root, s)
    ensures p.Up? ==> root in PathNodes(p)
    decreases p
  {
    if p.Up? {
      RootOnPath(m, root, s, p.up, p.n);
    }
  }

  lemma FocusIsRoot(m: Memory, root: Node, s: Node, p: Path, t: Tree)
    requires Core(m, root, s, p, t)
    ensures root == Ptr(t, s) <==> p.Top?
  {
    RootOnPath(m, root, s, p, Ptr(t, s));
  }

  // ------------------------------------------------------- changing nodes

  /** The memories agree on ns. */
  ghost predicate Same(m: Memory, m': Memory, ns: set<Node>) {
    forall x :: x in ns && x in m ==> x in m' && m'[x] == m[x]
  }

  /** They agree on n but for its parent. */
  ghost predicate SameButParent(m: Memory, m': Memory, n: Node) {
    n in m ==> n in m' && m'[n] == m[n].(parent := m'[n].parent)
  }

  lemma {:induction false} HoldsSame(m: Memory, m': Memory, t: Tree, s: Node)
    requires Holds(m, t, s) && Same(m, m', Nodes(t))
    ensures Holds(m', t, s)
    ensures t.T? ==> t.n in m && t.n in m' && m'[t.n] == m[t.n]
    decreases t
  {
    if t.T? {
      HoldsSame(m, m', t.l, s);
      HoldsSame(m, m', t.r, s);
    }
  }

  /** A subtree may get a new parent. */
  lemma HoldsReparented(m: Memory, m': Memory, t: Tree, s: Node)
    requires Holds(m, t, s) && Distinct(t)
    requires Same(m, m', Nodes(t) - {Ptr(t, s)}) && (t.T? ==> SameButParent(m, m', t.n))
    ensures Holds(m', t, s)
  {
    if t.T? {
      HoldsSame(m, m', t.l, s);
      HoldsSame(m, m', t.r, s);
    }
  }

  lemma {:induction false} PathSame(m: Memory, m': Memory, p: Path, hole: Node, root: Node, s: Node)
    requires HoldsPath(m, p, hole, root, s) && Same(m, m', PathNodes(p))
    ensures HoldsPath(m', p, hole, root, s)
    decreases p
  {
    if p.Up? {
      HoldsSame(m, m', p.sib, s);
      PathSame(m, m', p.up, p.n, root, s);
    }
  }

  /** The memory after the nearest frame of p (or the root pointer) is made to hold `hole`. */
  ghost function Hang(m: Memory, p: Path, hole: Node): Memory {
    if p.Top? || p.n !in m then m
    else if p.isLeft then m[p.n := m[p.n].(left := hole)]
    else m[p.n := m[p.n].(right := hole)]
  }

  lemma PathHung(m: Memory, m': Memory, p: Path, hole: Node, hole': Node, root: Node, s: Node)
    requires HoldsPath(m, p, hole, root, s) && DistinctPath(p)
    requires Same(Hang(m, p, hole'), m', PathNodes(p))
    ensures HoldsPath(m', p, hole', if p.Top? then hole' else root, s)
  {
    if p.Up? {
      HoldsSame(m, m', p.sib, s);
      PathSame(m, m', p.up, p.n, root, s);
    }
  }

  ghost function SetRed(m: Memory, n: Node, red: bool): Memory
    requires n in m
  {
    m[n := m[n].(red := red)]
  }

  ghost function Painted(t: Tree, red: bool): Tree {
    if t.T? then t.(red := red) else t
  }

  /** Colouring the root of the focus. */
  lemma Paint(m: Memory, root: Node, s: Node, p: Path, t: Tree, red: bool)
    requires At(m, root, s, p, t) && (t.Nil? ==> !red)
    ensures Ptr(t, s) in m && At(SetRed(m, Ptr(t, s), red), root, s, p, Painted(t, red))
  {
    var m' := SetRed(m, Ptr(t, s), red);
    PaintedSep(s, p, t, red);
    PaintSame(m, s, p, t, red);
    hide Sep, Same, PathNodes, Nodes, Distinct;
    PathSame(m, m', p, Ptr(t, s), root, s);
    hide HoldsPath;
    if t.T? {
      HoldsSame(m, m', t.l, s);
      HoldsSame(m, m', t.r, s);
    }
  }

  lemma PaintedSep(s: Node, p: Path, t: Tree, red: bool)
    requires Sep(s, p, t)
    ensures Sep(s, p, Painted(t, red))
  {
  }

  lemma PaintSame(m: Memory, s: Node, p: Path, t: Tree, red: bool)
    requires Sep(s, p, t) && Ptr(t, s) in m
    ensures var m' := SetRed(m, Ptr(t, s), red);
      Same(m, m', PathNodes(p)) && (t.T? ==> Same(m, m', Nodes(t.l)) && Same(m, m', Nodes(t.r)))
  {
    assert t.T? ==> t.n in Nodes(t);
  }

  ghost function SetChild(c: Cell, left: bool, child: Node): Cell {
    if left then c.(left := child) else c.(right := child)
  }

  /** m' is m after a rotation towards side d at n, whose other child is b with inner
      subtree k: at most four cells differ. */
  ghost predicate Relinked(m: Memory, m': Memory, s: Node, p: Path, d: bool, n: Node, k: Tree, b: Node) {
    && m'.Keys == m.Keys
    && n in m && m'[n] == SetChild(m[n], !d, Ptr(k, s)).(parent := b)
    && b in m && m'[b] == SetChild(m[b], d, n).(parent := m[n].parent)
    && (k.T? ==> k.n in m && m'[k.n] == m[k.n].(parent := n))
    && (p.Up? ==> p.n in m && m'[p.n] == SetChild(m[p.n], p.isLeft, b))
    && forall x :: x in m && x != n && x != b && x != Ptr(k, s) && (p.Up? ==> x != p.n) ==> m'[x] == m[x]
  }

  /** What a rotation changes, cell by cell. */
  ghost predicate RotCells(m: Memory, m': Memory, s: Node, d: bool, a: Tree, n: Node, k: Tree, b: Node, c: Tree) {
    && Same(m, m', Nodes(a)) && Same(m, m', Nodes(c)) && Same(m, m', Nodes(k) - {Ptr(k, s)})
    && (k.T? ==> SameButParent(m, m', k.n) && k.n in m' && m'[k.n].parent == n)
    && n in m && n in m' && m'[n] == SetChild(m[n], !d, Ptr(k, s)).(parent := b)
    && b in m && b in m' && m'[b] == SetChild(m[b], d, n).(parent := m[n].parent)
  }

  /** The nodes of a rotation, pairwise apart. */
  lemma RotApart(s: Node, p: Path, d: bool, x: bool, a: Tree, n: Node, y: bool, k: Tree, b: Node, c: Tree)
    requires Sep(s, p, Wide(d, x, a, n, y, k, b, c))
    ensures var mid := {n, b} + (if k.T? then {k.n} else {}); var top := if p.Up? then {p.n} else {};
      && n != b && (k.T? ==> k.n != n && k.n != b)
      && mid !! Nodes(a) && mid !! Nodes(c) && mid !! (Nodes(k) - {Ptr(k, s)}) && mid !! PathNodes(p)
      && top !! Nodes(a) && top !! Nodes(c) && top !! Nodes(k) && top !! mid
      && s !in mid + top && top <= PathNodes(p)
  {
    var r := Mk(y, d, b, c, k);
    MkFacts(x, d, n, r, a);
    MkFacts(y, d, b, c, k);
    assert p.Up? ==> p.n in PathNodes(p);
    assert k.T? ==> k.n in Nodes(k);
    hide Nodes, PathNodes, Distinct, DistinctPath, Mk;
    assert Wide(d, x, a, n, y, k, b, c) == Mk(x, d, n, r, a);
    var kn, top := if k.T? then {k.n} else {}, if p.Up? then {p.n} else {};
    SetsApart(Nodes(a), n, Nodes(k), kn, b, Nodes(c), PathNodes(p), top);
  }

  lemma SetsApart(a: set<Node>, n: Node, k: set<Node>, kn: set<Node>, b: Node, c: set<Node>, path: set<Node>,
                  top: set<Node>)
    requires kn <= k && top <= path
    requires n !in k + {b} + c && n !in a && b !in k && b !in c
    requires k !! c && (k + {b} + c) !! a && (k + {b} + c) + {n} + a !! path
    ensures var mid := {n, b} + kn;
      && n != b && n !in kn && b !in kn
      && mid !! a && mid !! c && mid !! (k - kn) && mid !! path
      && top !! a && top !! c && top !! k && top !! mid
  {
  }

  lemma RotMemCells(m: Memory, m': Memory, s: Node, p: Path, d: bool, x: bool, a: Tree, n: Node, y: bool,
                    k: Tree, b: Node, c: Tree)
    requires Relinked(m, m', s, p, d, n, k, b) && (s in m ==> m'[s] == m[s])
    requires Sep(s, p, Wide(d, x, a, n, y, k, b, c))
    ensures RotCells(m, m', s, d, a, n, k, b, c)
  {
    RotApart(s, p, d, x, a, n, y, k, b, c);
    hide Sep, Nodes, PathNodes;
    Untouched(m, m', s, p, d, n, k, b, Nodes(a));
    Untouched(m, m', s, p, d, n, k, b, Nodes(c));
    Untouched(m, m', s, p, d, n, k, b, Nodes(k) - {Ptr(k, s)});
    hide Same;
  }

  /** A rotation leaves all but four nodes alone. */
  lemma Untouched(m: Memory, m': Memory, s: Node, p: Path, d: bool, n: Node, k: Tree, b: Node, ns: set<Node>)
    requires Relinked(m, m', s, p, d, n, k, b) && (s in m ==> m'[s] == m[s])
    requires n !in ns && b !in ns && (k.T? ==> k.n !in ns) && (p.Up? ==> p.n !in ns)
    ensures Same(m, m', ns)
  {
  }

  lemma RotMemPath(m: Memory, m': Memory, s: Node, p: Path, d: bool, x: bool, a: Tree, n: Node, y: bool,
                   k: Tree, b: Node, c: Tree)
    requires Relinked(m, m', s, p, d, n, k, b) && (s in m ==> m'[s] == m[s])
    requires Sep(s, p, Wide(d, x, a, n, y, k, b, c))
    ensures Same(Hang(m, p, b), m', PathNodes(p))
  {
    RotApart(s, p, d, x, a, n, y, k, b, c);
    assert k.T? ==> k.n !in PathNodes(p);
    hide Sep, Nodes, PathNodes;
  }

  /** The rotated subtree, from what happened to its cells. */
  lemma RotHolds(m: Memory, m': Memory, s: Node, d: bool, x: bool, a: Tree, n: Node, y: bool, k: Tree, b: Node, c: Tree)
    requires Holds(m, Wide(d, x, a, n, y, k, b, c), s) && Distinct(k)
    requires RotCells(m, m', s, d, a, n, k, b, c)
    ensures Holds(m', Turned(d, x, a, n, y, k, b, c), s)
  {
    var b' := Mk(y, d, b, c, k);
    HoldsParts(m, s, x, d, n, b', a);
    HoldsParts(m, s, y, d, b, c, k);
    HoldsSame(m, m', a, s);
    HoldsSame(m, m', c, s);
    HoldsReparented(m, m', k, s);
    hide Same, SameButParent, Nodes, Distinct, Holds;
    HoldsMk(m', s, x, !d, n, a, k);
    HoldsMk(m', s, y, d, b, c, Mk(x, !d, n, a, k));
  }

  /** A parent above two subtrees, taken apart. */
  lemma HoldsParts(m: Memory, s: Node, red: bool, isLeft: bool, n: Node, sib: Tree, t: Tree)
    requires Holds(m, Mk(red, isLeft, n, sib, t), s)
    ensures HoldsFrame(m, red, n, isLeft, sib, Ptr(t, s), s) && Holds(m, t, s) && Linked(m, t, n)
  {
  }

  /** A parent above two subtrees. */
  lemma HoldsMk(m: Memory, s: Node, red: bool, isLeft: bool, n: Node, sib: Tree, t: Tree)
    requires HoldsFrame(m, red, n, isLeft, sib, Ptr(t, s), s) && Holds(m, t, s) && Linked(m, t, n)
    ensures Holds(m, Mk(red, isLeft, n, sib, t), s)
  {
  }

  lemma RotateHolds(m: Memory, m': Memory, root: Node, s: Node, p: Path,
                    d: bool, x: bool, a: Tree, n: Node, y: bool, k: Tree, b: Node, c: Tree)
    requires At(m, root, s, p, Wide(d, x, a, n, y, k, b, c))
    requires Relinked(m, m', s, p, d, n, k, b) && m'[s] == m[s]
    ensures Holds(m', Turned(d, x, a, n, y, k, b, c), s) && b in m' && m'[b].parent == m[n].parent
  {
    RotSep(s, p, d, x, a, n, y, k, b, c);
    RotMemCells(m, m', s, p, d, x, a, n, y, k, b, c);
    hide Same, HoldsPath, Nodes, Sep, Holds, RotCells;
    RotHolds(m, m', s, d, x, a, n, y, k, b, c);
  }

  lemma RotatePath(m: Memory, m': Memory, root: Node, s: Node, p: Path,
                   d: bool, x: bool, a: Tree, n: Node, y: bool, k: Tree, b: Node, c: Tree)
    requires At(m, root, s, p, Wide(d, x, a, n, y, k, b, c))
    requires Relinked(m, m', s, p, d, n, k, b) && m'[s] == m[s]
    ensures HoldsPath(m', p, b, if p.Top? then b else root, s)
  {
    RotMemPath(m, m', s, p, d, x, a, n, y, k, b, c);
    hide Hang, Same, HoldsPath, Nodes, Holds;
    PathHung(m, m', p, n, b, root, s);
  }

  /** A rotation of the focus turns the shape, wherever it hangs. */
  lemma Rotate(m: Memory, m': Memory, root: Node, s: Node, p: Path,
               d: bool, x: bool, a: Tree, n: Node, y: bool, k: Tree, b: Node, c: Tree)
    requires At(m, root, s, p, Wide(d, x, a, n, y, k, b, c))
    requires Relinked(m, m', s, p, d, n, k, b) && m'[s] == m[s]
    ensures At(m', if p.Top? then b else root, s, p, Turned(d, x, a, n, y, k, b, c))
  {
    RotatePath(m, m', root, s, p, d, x, a, n, y, k, b, c);
    RotateHolds(m, m', root, s, p, d, x, a, n, y, k, b, c);
    RotSep(s, p, d, x, a, n, y, k, b, c);
    hide Sep, HoldsPath, Holds, Relinked;
  }

  lemma RotSep(s: Node, p: Path, d: bool, x: bool, a: Tree, n: Node, y: bool, k: Tree, b: Node, c: Tree)
    requires Sep(s, p, Wide(d, x, a, n, y, k, b, c))
    ensures Sep(s, p, Turned(d, x, a, n, y, k, b, c)) && Distinct(k) && DistinctPath(p)
  {
    MkFacts(x, d, n, Mk(y, d, b, c, k), a);
    MkFacts(y, d, b, c, k);
    RotKeeps(d, x, a, n, y, k, b, c);
    hide Distinct, Nodes, DistinctPath, PathNodes;
  }

  /** What the code of a rotation reads. */
  lemma RotPointers(m: Memory, root: Node, s: Node, p: Path,
                    d: bool, x: bool, a: Tree, n: Node, y: bool, k: Tree, b: Node, c: Tree)
    requires At(m, root, s, p, Wide(d, x, a, n, y, k, b, c))
    ensures n in m && b in m && (k.T? ==> k.n in m && k.n != s)
    ensures (if d then m[n].right else m[n].left) == b && (if d then m[b].left else m[b].right) == Ptr(k, s)
    ensures n != b && (k.T? ==> k.n != n && k.n != b)
    ensures root == n <==> p.Top?
    ensures p.Up? ==> p.n in m && m[n].parent == p.n && p.n != n && p.n != b && (k.T? ==> k.n != p.n)
    ensures p.Up? ==> (m[p.n].left == n <==> p.isLeft) && (m[p.n].right == n <==> !p.isLeft)
    ensures s in m && s != n && s != b && (p.Up? ==> s != p.n)
  {
    assert Holds(m, Mk(y, d, b, c, k), s);
    RotApart(s, p, d, x, a, n, y, k, b, c);
    FocusIsRoot(m, root, s, p, Wide(d, x, a, n, y, k, b, c));
    if p.Up? {
      SiblingIsNotFocus(m, root, s, p, Wide(d, x, a, n, y, k, b, c));
    }
  }

  /** The cell of x after a rotation of n, whose other child is b with the inner subtree at
      `inner`: what the code writes. */
  ghost function TurnedCell(m: Memory, root: Node, s: Node, d: bool, n: Node, b: Node, inner: Node, x: Node): Cell
    requires {n, b, x} <= m.Keys
  {
    if x == n then SetChild(m[n], !d, inner).(parent := b)
    else if x == b then SetChild(m[b], d, n).(parent := m[n].parent)
    else if n != root && x == m[n].parent then SetChild(m[x], if d then m[x].left == n else m[x].right != n, b)
    else if x == inner && x != s then m[x].(parent := n)
    else m[x]
  }

  lemma CellsRelinked(m: Memory, m': Memory, root: Node, s: Node, p: Path,
                      d: bool, x: bool, a: Tree, n: Node, y: bool, k: Tree, b: Node, c: Tree)
    requires At(m, root, s, p, Wide(d, x, a, n, y, k, b, c))
    requires m'.Keys == m.Keys && {n, b} <= m.Keys
    requires forall z :: z in m ==> m'[z] == TurnedCell(m, root, s, d, n, b, Ptr(k, s), z)
    ensures Relinked(m, m', s, p, d, n, k, b) && s in m && m'[s] == m[s]
  {
    RotPointers(m, root, s, p, d, x, a, n, y, k, b, c);
    hide At, Wide;
  }

  /** The two children of a parent differ. */
  lemma SiblingIsNotFocus(m: Memory, root: Node, s: Node, p: Path, t: Tree)
    requires Core(m, root, s, p, t) && p.Up? && t.T?
    ensures Ptr(p.sib, s) != t.n
  {
    assert t.n in Nodes(t);
    assert p.sib.T? ==> p.sib.n in Nodes(p.sib);
  }

  // ------------------------------------------------------- what the code reads

  /** The links and colours next to the focus. */
  lemma Look(m: Memory, root: Node, s: Node, p: Path, t: Tree)
    requires At(m, root, s, p, t)
    ensures s in m && Ptr(t, s) in m && m[Ptr(t, s)].red == IsRed(t)
    ensures t.T? ==> m[t.n].left == Ptr(t.l, s) && m[t.n].right == Ptr(t.r, s) && t.n != s
    ensures p.Top? <==> root == Ptr(t, s)
    ensures p.Up? && t.T? ==> m[t.n].parent == p.n
  {
    FocusIsRoot(m, root, s, p, t);
  }

  /** The links to the children of the focus. */
  lemma LookDown(m: Memory, root: Node, s: Node, p: Path, t: Tree)
    requires At(m, root, s, p, t) && t.T?
    ensures t.n in m && m[t.n].left == Ptr(t.l, s) && m[t.n].right == Ptr(t.r, s)
    ensures Ptr(t.l, s) in m && (Ptr(t.l, s) == s <==> t.l.Nil?)
    ensures Ptr(t.r, s) in m && (Ptr(t.r, s) == s <==> t.r.Nil?)
  {
    assert t.l.T? ==> t.l.n in Nodes(t.l);
    assert t.r.T? ==> t.r.n in Nodes(t.r);
  }

  lemma LookUp(m: Memory, root: Node, s: Node, p: Path, t: Tree)
    requires At(m, root, s, p, t) && p.Up?
    ensures p.n in m && p.n != s && p.n != Ptr(t, s) && m[p.n].red == p.red
    ensures (if p.isLeft then m[p.n].left else m[p.n].right) == Ptr(t, s)
    ensures (if p.isLeft then m[p.n].right else m[p.n].left) == Ptr(p.sib, s)
    ensures t.T? || p.sib.T? ==> Ptr(t, s) != Ptr(p.sib, s)
    ensures Ptr(p.sib, s) in m && m[Ptr(p.sib, s)].red == IsRed(p.sib)
    ensures p.sib.T? ==> m[p.sib.n].left == Ptr(p.sib.l, s) && m[p.sib.n].right == Ptr(p.sib.r, s) && p.sib.n != s
    ensures p.up.Up? ==> m[p.n].parent == p.up.n
    ensures root == p.n <==> p.up.Top?
  {
    assert t.T? ==> t.n in Nodes(t);
    assert p.sib.T? ==> p.sib.n in Nodes(p.sib);
    FocusIsRoot(m, root, s, p, t);
    MoveUp(m, root, s, p, t);
    FocusIsRoot(m, root, s, p.up, Mk(p.red, p.isLeft, p.n, p.sib, t));
  }

  /** The whole tree, seen from the top. */
  lemma {:induction false} MoveTop(m: Memory, root: Node, s: Node, p: Path, t: Tree)
    requires At(m, root, s, p, t)
    ensures At(m, root, s, Top, Plug(p, t))
    decreases p
  {
    if p.Up? {
      MoveUp(m, root, s, p, t);
      MoveTop(m, root, s, p.up, Mk(p.red, p.isLeft, p.n, p.sib, t));
    }
  }

  lemma TopIsRoot(m: Memory, root: Node, s: Node, p: Path, t: Tree)
    requires At(m, root, s, p, t)
    ensures At(m, root, s, Top, Plug(p, t)) && root == Ptr(Plug(p, t), s) && root in m && s in m
  {
    MoveTop(m, root, s, p, t);
    Look(m, root, s, Top, Plug(p, t));
  }

  /** The memory after a new red leaf is written and hung into the empty focus. */
  lemma HangNew(m: Memory, m': Memory, root: Node, s: Node, p: Path, node: Node)
    requires At(m, root, s, p, Nil) && p.Up? && node !in m && node !in PathNodes(p)
    requires p.n in m && m'.Keys == m.Keys + {node}
    requires m'[p.n] == SetChild(m[p.n], p.isLeft, node)
    requires m'[node].red && m'[node].left == s && m'[node].right == s && m'[node].parent == p.n
    requires forall x :: x in m && x != p.n ==> m'[x] == m[x]
    ensures At(m', root, s, p, T(true, Nil, node, Nil))
  {
    assert p.n in PathNodes(p);
    PathHung(m, m', p, s, node, root, s);
  }

  // ------------------------------------------------------- the order of timer keys

  const HALF: nat := 0x8000_0000

  /** How far key k lies behind `base` on the circle of 2^32 time values. */
  function Off(base: nat, k: nat): nat {
    U32(k - base)
  }

  /** (ngx_rbtree_key_int_t) (a - b) < 0 */
  predicate Earlier(a: nat, b: nat) {
    U32(a - b) >= HALF
  }

  /** Within a window narrower than 2^31 the wrapped comparison is the order of offsets. */
  lemma EarlierIsOffset(base: nat, a: nat, b: nat)
    requires base < M32 && a < M32 && b < M32 && Off(base, a) < HALF && Off(base, b) < HALF
    ensures Earlier(a, b) <==> Off(base, a) < Off(base, b)
  {
  }

  ghost predicate Sorted(m: Memory, q: seq<Node>, base: nat) {
    && (forall x :: x in q ==> x in m)
    && forall i, j :: 0 <= i < j < |q| ==> Off(base, m[q[i]].key) <= Off(base, m[q[j]].key)
  }

  lemma SortedAround(m: Memory, a: seq<Node>, n: Node, b: seq<Node>, base: nat)
    requires Sorted(m, a + [n] + b, base)
    ensures n in m
    ensures forall x :: x in a ==> x in m && Off(base, m[x].key) <= Off(base, m[n].key)
    ensures forall x :: x in b ==> x in m && Off(base, m[n].key) <= Off(base, m[x].key)
  {
    var q := a + [n] + b;
    assert q[|a|] == n;
    forall x | x in a
      ensures x in m && Off(base, m[x].key) <= Off(base, m[n].key)
    {
      var i :| 0 <= i < |a| && a[i] == x;
      assert q[i] == x;
    }
    forall x | x in b
      ensures x in m && Off(base, m[n].key) <= Off(base, m[x].key)
    {
      var i :| 0 <= i < |b| && b[i] == x;
      assert q[|a| + 1 + i] == x;
    }
  }

  /** The keys of q lie in one window, narrower than 2^31 modulo 2^32, that starts at base. */
  ghost predicate Windowed(m: Memory, q: seq<Node>, base: nat) {
    base < M32 && forall x :: x in q && x in m ==> m[x].key < M32 && Off(base, m[x].key) < HALF
  }

  ghost predicate AllUpTo(m: Memory, base: nat, q: seq<Node>, k: nat) {
    forall x :: x in q ==> x in m && Off(base, m[x].key) <= Off(base, k)
  }

  ghost predicate AllAfter(m: Memory, base: nat, q: seq<Node>, k: nat) {
    forall x :: x in q ==> x in m && Off(base, k) < Off(base, m[x].key)
  }

  /** Everything before the hole of p is not later than key k, everything after it is later. */
  ghost predicate Apart(m: Memory, base: nat, k: nat, p: Path) {
    AllUpTo(m, base, Before(p), k) && AllAfter(m, base, After(p), k)
  }

  /** One step of the descent keeps the hole apart. */
  lemma StepDown(m: Memory, p: Path, t: Tree, k: nat, base: nat)
    requires t.T? && Sorted(m, Seq(p, t), base) && Windowed(m, Seq(p, t), base)
    requires Apart(m, base, k, p) && k < M32 && Off(base, k) < HALF
    ensures t.n in m
    ensures Earlier(k, m[t.n].key) ==> Apart(m, base, k, Up(t.red, t.n, true, t.r, p))
    ensures !Earlier(k, m[t.n].key) ==> Apart(m, base, k, Up(t.red, t.n, false, t.l, p))
  {
    var a, b := Before(p) + Inorder(t.l), Inorder(t.r) + After(p);
    Regrouped(Before(p), Inorder(t.l), t.n, Inorder(t.r), After(p));
    assert Inorder(t) == Inorder(t.l) + [t.n] + Inorder(t.r);
    FrameSides(t.red, t.n, true, t.r, p);
    FrameSides(t.red, t.n, false, t.l, p);
    hide Off, AllUpTo, AllAfter, Sorted, Windowed, Earlier, Before, After, Inorder;
    StepOrder(m, a, t.n, b, k, base);
    AllParts(m, base, Before(p), Inorder(t.l), t.n, Inorder(t.r), After(p), k);
  }

  lemma FrameSides(red: bool, n: Node, isLeft: bool, sib: Tree, p: Path)
    ensures var q := Up(red, n, isLeft, sib, p);
      && Before(q) == (if isLeft then Before(p) else Before(p) + (Inorder(sib) + [n]))
      && After(q) == (if isLeft then ([n] + Inorder(sib)) + After(p) else After(p))
  {
    assert Before(p) + [] == Before(p) && [] + After(p) == After(p);
  }

  lemma StepOrder(m: Memory, a: seq<Node>, n: Node, b: seq<Node>, k: nat, base: nat)
    requires Sorted(m, a + [n] + b, base) && Windowed(m, a + [n] + b, base)
    requires k < M32 && Off(base, k) < HALF
    ensures n in m
    ensures Earlier(k, m[n].key) ==> AllAfter(m, base, [n] + b, k)
    ensures !Earlier(k, m[n].key) ==> AllUpTo(m, base, a + [n], k)
  {
    SortedAround(m, a, n, b, base);
    assert n in a + [n] + b;
    EarlierIsOffset(base, k, m[n].key);
    hide Sorted, Earlier, Off;
  }

  lemma AllParts(m: Memory, base: nat, a: seq<Node>, l: seq<Node>, n: Node, r: seq<Node>, b: seq<Node>, k: nat)
    ensures AllUpTo(m, base, a, k) && AllUpTo(m, base, (a + l) + [n], k) ==> AllUpTo(m, base, a + (l + [n]), k)
    ensures AllAfter(m, base, b, k) && AllAfter(m, base, [n] + (r + b), k) ==> AllAfter(m, base, ([n] + r) + b, k)
  {
    assert (a + l) + [n] == a + (l + [n]);
    assert [n] + (r + b) == ([n] + r) + b;
  }

  lemma Regrouped(a: seq<Node>, b: seq<Node>, n: Node, c: seq<Node>, d: seq<Node>)
    ensures a + (b + [n] + c) + d == (a + b) + [n] + (c + d)
  {
  }

  /** The nodes q are ordered, and their keys and k lie in the window at base. */
  ghost predicate InOrder(m: Memory, q: seq<Node>, k: nat, base: nat) {
    Sorted(m, q, base) && Windowed(m, q, base) && k < M32 && Off(base, k) < HALF
  }

  /** The descent has reached the subtree t of `whole`; in an ordered tree, k belongs into it. */
  ghost predicate Descent(m: Memory, root: Node, s: Node, p: Path, t: Tree, whole: Tree, k: nat, base: nat) {
    && At(m, root, s, p, t) && Plug(p, t) == whole
    && (InOrder(m, Inorder(whole), k, base) ==> Apart(m, base, k, p))
  }

  lemma DescentStarts(m: Memory, root: Node, s: Node, whole: Tree, k: nat, base: nat)
    requires At(m, root, s, Top, whole)
    ensures Descent(m, root, s, Top, whole, whole, k, base)
    ensures root == Ptr(whole, s) && root in m
  {
    Look(m, root, s, Top, whole);
  }

  /** One step down, on the side the wrapped comparison chooses. */
  lemma DescentSteps(m: Memory, root: Node, s: Node, p: Path, t: Tree, whole: Tree, k: nat, base: nat)
    returns (p': Path, t': Tree)
    requires Descent(m, root, s, p, t, whole, k, base) && t.T?
    ensures Descent(m, root, s, p', t', whole, k, base)
    ensures p'.Up? && p'.n == t.n && t' < t
    ensures t.n in m && p'.isLeft == Earlier(k, m[t.n].key)
    ensures Ptr(t', s) == (if p'.isLeft then m[t.n].left else m[t.n].right) && Ptr(t', s) in m
    ensures t'.T? <==> Ptr(t', s) != s
  {
    SeqPlug(p, t);
    if InOrder(m, Inorder(whole), k, base) {
      StepDown(m, p, t, k, base);
    }
    hide At, Seq, Apart, InOrder, Earlier, Off, Inorder;
    Look(m, root, s, p, t);
    if Earlier(k, m[t.n].key) {
      MoveLeft(m, root, s, p, t);
      p', t' := Up(t.red, t.n, true, t.r, p), t.l;
    } else {
      MoveRight(m, root, s, p, t);
      p', t' := Up(t.red, t.n, false, t.l, p), t.r;
    }
    Look(m, root, s, p', t');
  }

  lemma SortedInsert(m: Memory, m': Memory, a: seq<Node>, n: Node, b: seq<Node>, base: nat)
    requires Sorted(m, a + b, base) && n in m'
    requires forall x :: x in a + b ==> x in m' && m'[x].key == m[x].key
    requires forall x :: x in a ==> Off(base, m'[x].key) <= Off(base, m'[n].key)
    requires forall x :: x in b ==> Off(base, m'[n].key) <= Off(base, m'[x].key)
    ensures Sorted(m', a + [n] + b, base)
  {
    var q, r := a + b, a + [n] + b;
    forall i, j | 0 <= i < j < |r|
      ensures Off(base, m'[r[i]].key) <= Off(base, m'[r[j]].key)
    {
      if i != |a| && j != |a| {
        assert r[i] == q[if i < |a| then i else i - 1] && r[j] == q[if j < |a| then j else j - 1];
      } else if i == |a| {
        assert r[j] == b[j - |a| - 1];
      } else {
        assert r[i] == a[i];
      }
    }
  }

  /** The descent has reached an empty place. */
  lemma DescentEnds(m: Memory, root: Node, s: Node, p: Path, whole: Tree, k: nat, base: nat)
    requires Descent(m, root, s, p, Nil, whole, k, base) && p.Up?
    ensures At(m, root, s, p, Nil) && p.n in m && PathNodes(p) == Nodes(whole) && Plug(p, Nil) == whole
    ensures InOrder(m, Inorder(whole), k, base) ==> Apart(m, base, k, p)
  {
    PlugNodes(p, Nil);
    LookUp(m, root, s, p, Nil);
  }

  /** What the insertion at the end of the descent means for the order. */
  lemma InsertOrder(m: Memory, m': Memory, p: Path, node: Node, base: nat)
    requires node in m' && InOrder(m, Before(p) + After(p), m'[node].key, base)
    requires Apart(m, base, m'[node].key, p)
    requires forall x :: x in m ==> x in m' && m'[x].key == m[x].key
    ensures InOrder(m', Before(p) + [node] + After(p), m'[node].key, base)
    ensures AllUpTo(m', base, Before(p), m'[node].key) && AllAfter(m', base, After(p), m'[node].key)
  {
    hide Off, Before, After;
    SortedInsert(m, m', Before(p), node, After(p), base);
    forall x | x in Before(p) + [node] + After(p) && x in m'
      ensures m'[x].key < M32 && Off(base, m'[x].key) < HALF
    {
      assert x == node || x in Before(p) + After(p);
    }
  }

  /** Taking a node out keeps the order of the others. */
  lemma RemoveOrder(m: Memory, m': Memory, a: seq<Node>, n: Node, b: seq<Node>, base: nat)
    requires m'.Keys == m.Keys - {n} && n !in Elems(a + b) && forall x :: x in m' ==> m'[x].key == m[x].key
    ensures Sorted(m, a + [n] + b, base) && Windowed(m, a + [n] + b, base) ==>
      Sorted(m', a + b, base) && Windowed(m', a + b, base)
  {
    if Sorted(m, a + [n] + b, base) && Windowed(m, a + [n] + b, base) {
      var q, r := a + [n] + b, a + b;
      hide Off;
      forall x | x in r
        ensures x in q && x in m && x in m'
      {
      }
      forall i, j | 0 <= i < j < |r|
        ensures Off(base, m'[r[i]].key) <= Off(base, m'[r[j]].key)
      {
        assert r[i] == q[if i < |a| then i else i + 1] && r[j] == q[if j < |a| then j else j + 1];
      }
    }
  }

  // ------------------------------------------------------- finding a node

  /** Where a node of the tree sits. */
  lemma {:induction false} Find(m: Memory, root: Node, s: Node, p: Path, t: Tree, x: Node) returns (p': Path, t': Tree)
    requires At(m, root, s, p, t) && x in Nodes(t)
    ensures At(m, root, s, p', t') && t'.T? && t'.n == x
    ensures Plug(p', t') == Plug(p, t)
    decreases t
  {
    p', t' := p, t;
    if x in Nodes(t.l) {
      MoveLeft(m, root, s, p, t);
      p', t' := Find(m, root, s, Up(t.red, t.n, true, t.r, p), t.l, x);
    } else if x in Nodes(t.r) {
      MoveRight(m, root, s, p, t);
      p', t' := Find(m, root, s, Up(t.red, t.n, false, t.l, p), t.r, x);
    }
  }

  /** The tree order lists no node twice. */
  lemma {:induction false} InorderOnce(t: Tree)
    requires Distinct(t)
    ensures forall i, j :: 0 <= i < j < |Inorder(t)| ==> Inorder(t)[i] != Inorder(t)[j]
  {
    if t.T? {
      InorderOnce(t.l);
      InorderOnce(t.r);
      NodesAreInorder(t.l);
      NodesAreInorder(t.r);
      OnceAround(Inorder(t.l), t.n, Inorder(t.r));
    }
  }

  lemma OnceAround(a: seq<Node>, n: Node, b: seq<Node>)
    requires forall i, j :: 0 <= i < j < |a| ==> a[i] != a[j]
    requires forall i, j :: 0 <= i < j < |b| ==> b[i] != b[j]
    requires n !in Elems(a) && n !in Elems(b) && Elems(a) !! Elems(b)
    ensures var q := a + [n] + b; forall i, j :: 0 <= i < j < |q| ==> q[i] != q[j]
  {
    var q := a + [n] + b;
    forall i, j | 0 <= i < j < |q|
      ensures q[i] != q[j]
    {
      assert i < |a| ==> q[i] == a[i] && q[i] in Elems(a);
      assert j > |a| ==> q[j] == b[j - |a| - 1] && q[j] in Elems(b);
      assert i > |a| ==> q[i] == b[i - |a| - 1];
    }
  }

  /** A tree of one black node. */
  lemma SingleNode(m: Memory, s: Node, node: Node)
    requires s in m && node in m && s != node && !m[s].red
    requires !m[node].red && m[node].left == s && m[node].right == s
    ensures At(m, node, s, Top, T(false, Nil, node, Nil)) && RB(T(false, Nil, node, Nil), 1)
    ensures Inorder(T(false, Nil, node, Nil)) == [node] && Nodes(T(false, Nil, node, Nil)) == {node}
  {
  }

  lemma SingleOrdered(m: Memory, node: Node, base: nat)
    requires node in m
    ensures Sorted(m, [node], base)
    ensures base < M32 && m[node].key < M32 && Off(base, m[node].key) < HALF ==> Windowed(m, [node], base)
  {
  }

  /** Hanging a new node into the tree adds it to the node set. */
  lemma NodesAround(whole: Tree, was: Tree, before: seq<Node>, node: Node, after: seq<Node>)
    requires Inorder(was) == before + after && Inorder(whole) == before + [node] + after
    ensures Nodes(whole) == Nodes(was) + {node}
  {
    NodesAreInorder(whole);
    NodesAreInorder(was);
    ElemsConcat(before, node, after);
  }
}
