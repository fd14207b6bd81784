/** One step of each fix-up loop, seen on shapes: what the colour rules lose and regain. */
module RbFix {
  import opened RbShapes
  import opened RbHeap

  // ------------------------------------------------------------------ insertion

  /** The insertion loop invariant: all is well, except that the focus is red and its
      parent may be red too. */
  ghost predicate RedFocus(p: Path, t: Tree, h: int) {
    IsRed(t) && Bal(t, h) && BalPath(p, h) && NoRR(t) && NoRRPath(p, false)
  }

  /** A red parent has a parent itself, and that one is black. */
  lemma RedParentHasParent(p: Path, t: Tree, h: int)
    requires RedFocus(p, t, h) && p.Up? && p.red
    ensures p.up.Up? && !p.up.red && !IsRed(p.sib)
  {
    assert NoRRPath(p.up, true);
  }

  /** The grandparent's subtree after recolouring: parent and uncle black, grandparent red. */
  ghost function Recolored(p: Path, t: Tree): Tree
    requires p.Up? && p.up.Up?
  {
    Mk(true, p.up.isLeft, p.up.n, Painted(p.up.sib, false), Mk(false, p.isLeft, p.n, p.sib, t))
  }

  lemma RecolorRules(p: Path, t: Tree, h: int)
    requires RedFocus(p, t, h) && p.Up? && p.red && p.up.Up? && IsRed(p.up.sib)
    ensures RedFocus(p.up.up, Recolored(p, t), h + 1)
    ensures Seq(p.up.up, Recolored(p, t)) == Seq(p, t)
  {
    var parent := Mk(p.red, p.isLeft, p.n, p.sib, t);
    SeqUp(p, t);
    SeqUp(p.up, parent);
    var gp, u := p.up, p.up.sib;
    assert Seq(gp.up, Recolored(p, t)) == Seq(gp.up, Mk(gp.red, gp.isLeft, gp.n, u, parent)) by {
      MkFacts(gp.red, gp.isLeft, gp.n, u, parent);
      MkFacts(true, gp.isLeft, gp.n, Painted(u, false), Mk(false, p.isLeft, p.n, p.sib, t));
      MkFacts(p.red, p.isLeft, p.n, p.sib, t);
      MkFacts(false, p.isLeft, p.n, p.sib, t);
      MkFacts(u.red, true, u.n, u.r, u.l);
      MkFacts(false, true, u.n, u.r, u.l);
      hide Inorder, Nodes;
    }
    RecolorBalance(p, t, h);
  }

  lemma RecolorBalance(p: Path, t: Tree, h: int)
    requires RedFocus(p, t, h) && p.Up? && p.red && p.up.Up? && IsRed(p.up.sib)
    ensures RedFocus(p.up.up, Recolored(p, t), h + 1)
  {
    var gp, u := p.up, p.up.sib;
    assert NoRRPath(gp, true) && BalPath(gp, h);
    assert NoRRPath(gp.up, false) && BalPath(gp.up, h + 1) && Bal(u, h) && NoRR(u);
    var parent' := Mk(false, p.isLeft, p.n, p.sib, t);
    assert Bal(parent', h + 1) && NoRR(parent');
    assert Bal(Painted(u, false), h + 1) && NoRR(Painted(u, false));
  }

  lemma Recolor(m: Memory, root: Node, s: Node, p: Path, t: Tree)
    requires At(m, root, s, p, t) && p.Up? && p.up.Up? && p.up.sib.T?
    ensures p.n in m && p.up.n in m && p.up.sib.n in m
    ensures At(SetRed(SetRed(SetRed(m, p.n, false), p.up.sib.n, false), p.up.n, true),
               root, s, p.up.up, Recolored(p, t))
  {
    var parent := Mk(p.red, p.isLeft, p.n, p.sib, t);
    MoveUp(m, root, s, p, t);
    Paint(m, root, s, p.up, parent, false);
    var m1, parent1 := SetRed(m, p.n, false), Painted(parent, false);
    MoveUp(m1, root, s, p.up, parent1);
    var q := Up(p.up.red, p.up.n, !p.up.isLeft, parent1, p.up.up);
    MoveDown(m1, root, s, q, p.up.sib);
    Paint(m1, root, s, q, p.up.sib, false);
    var m2 := SetRed(m1, p.up.sib.n, false);
    MoveUp(m2, root, s, q, Painted(p.up.sib, false));
    Paint(m2, root, s, p.up.up, Mk(p.up.red, !p.up.isLeft, p.up.n, parent1, Painted(p.up.sib, false)), true);
  }

  /** The subtree of t's root on side d, and the other one. */
  ghost function Near(d: bool, t: Tree): Tree
    requires t.T?
  {
    if d then t.l else t.r
  }

  /** The focus is an inner grandchild: after rotating its parent outwards, the parent is
      an outer grandchild below the old focus. */
  lemma InnerTurn(p: Path, t: Tree, h: int) returns (p': Path, t': Tree)
    requires RedFocus(p, t, h) && p.Up? && p.red && p.up.Up? && p.isLeft != p.up.isLeft
    ensures var d := p.up.isLeft; var k, c := Near(d, t), Near(!d, t);
      && Mk(p.red, p.isLeft, p.n, p.sib, t) == Wide(d, true, p.sib, p.n, true, k, t.n, c)
      && t' == Mk(true, !d, p.n, p.sib, k) && p' == Up(true, t.n, d, c, p.up)
      && Turned(d, true, p.sib, p.n, true, k, t.n, c) == Mk(true, d, t.n, c, t')
    ensures RedFocus(p', t', h) && Seq(p', t') == Seq(p, t)
  {
    var d := p.up.isLeft;
    var k, c := Near(d, t), Near(!d, t);
    t' := Mk(true, !d, p.n, p.sib, k);
    p' := Up(true, t.n, d, c, p.up);
    SeqUp(p, t);
    SeqUp(p', t');
    RotKeeps(d, true, p.sib, p.n, true, k, t.n, c);
    assert NoRRPath(p.up, true) && BalPath(p.up, h);
  }

  /** The focus is an outer grandchild, its uncle is black: after parent and grandparent
      are recoloured and the grandparent is rotated, nothing is left to repair. */
  lemma OuterTurn(p: Path, t: Tree, h: int) returns (p': Path)
    requires RedFocus(p, t, h) && p.Up? && p.red && p.up.Up? && p.isLeft == p.up.isLeft && !IsRed(p.up.sib)
    ensures var d, gp := p.isLeft, p.up;
      && Mk(true, d, gp.n, gp.sib, Mk(false, d, p.n, p.sib, t)) == Wide(!d, true, gp.sib, gp.n, false, p.sib, p.n, t)
      && p' == Up(false, p.n, d, Mk(true, d, gp.n, gp.sib, p.sib), gp.up)
      && Turned(!d, true, gp.sib, gp.n, false, p.sib, p.n, t) == Mk(false, d, p.n, p'.sib, t)
    ensures RedFocus(p', t, h) && Seq(p', t) == Seq(p, t)
  {
    var d, gp := p.isLeft, p.up;
    p' := Up(false, p.n, d, Mk(true, d, gp.n, gp.sib, p.sib), gp.up);
    OuterTurnRules(p, t, h);
    hide RedFocus;
    var parent := Mk(p.red, d, p.n, p.sib, t);
    SeqUp(p, t);
    SeqUp(gp, parent);
    SeqUp(p', t);
    SeqOf(gp.up, Mk(gp.red, d, gp.n, gp.sib, parent), Mk(false, d, p.n, p'.sib, t));
    hide Seq;
    MkFacts(p.red, d, p.n, p.sib, t);
    MkFacts(false, d, p.n, p.sib, t);
    MkFacts(gp.red, d, gp.n, gp.sib, parent);
    MkFacts(true, d, gp.n, gp.sib, Mk(false, d, p.n, p.sib, t));
    RotKeeps(!d, true, gp.sib, gp.n, false, p.sib, p.n, t);
    hide Inorder;
  }

  lemma OuterTurnRules(p: Path, t: Tree, h: int)
    requires RedFocus(p, t, h) && p.Up? && p.red && p.up.Up? && !IsRed(p.up.sib)
    ensures RedFocus(Up(false, p.n, p.isLeft, Mk(true, p.isLeft, p.up.n, p.up.sib, p.sib), p.up.up), t, h)
  {
    var gp := p.up;
    assert NoRRPath(gp, true) && BalPath(gp, h) && NoRRPath(gp.up, false) && BalPath(gp.up, h + 1);
  }

  /** Painting the parent and then the grandparent. */
  lemma PaintTwo(m: Memory, root: Node, s: Node, p: Path, t: Tree, x: bool, y: bool)
    requires At(m, root, s, p, t) && p.Up? && p.up.Up?
    ensures p.n in m && p.up.n in m
    ensures At(SetRed(SetRed(m, p.n, x), p.up.n, y), root, s, p.up.up,
               Mk(y, p.up.isLeft, p.up.n, p.up.sib, Mk(x, p.isLeft, p.n, p.sib, t)))
  {
    var parent := Mk(p.red, p.isLeft, p.n, p.sib, t);
    MoveUp(m, root, s, p, t);
    Paint(m, root, s, p.up, parent, x);
    var m1 := SetRed(m, p.n, x);
    MoveUp(m1, root, s, p.up, Painted(parent, x));
    Paint(m1, root, s, p.up.up, Mk(p.up.red, p.up.isLeft, p.up.n, p.up.sib, Painted(parent, x)), y);
  }

  lemma LeafSeq(a: seq<Node>, node: Node, b: seq<Node>)
    ensures Inorder(Nil) == [] && Inorder(T(true, Nil, node, Nil)) == [node]
    ensures a + [] + b == a + b
  {
  }

  /** A red leaf in an empty place: the loop invariant to begin with. */
  lemma NewLeaf(p: Path, node: Node, whole: Tree, top: int)
    requires Plug(p, Nil) == whole && RB(whole, top) && p.Up?
    ensures RedFocus(p, T(true, Nil, node, Nil), 0)
    ensures Inorder(whole) == Before(p) + After(p)
    ensures Seq(p, T(true, Nil, node, Nil)) == Before(p) + [node] + After(p)
  {
    SeqPlug(p, Nil);
    hide Before, After, Plug, Inorder;
    LeafSeq(Before(p), node, After(p));
    var h := UnplugRB(p, Nil, top);
    assert h == 0;
    hide BalPath, NoRRPath;
  }

  /** The loop ends at the root or below a black parent; blackening the root then gives a
      red-black tree. */
  lemma InsertDone(p: Path, t: Tree, h: int) returns (h': int)
    requires RedFocus(p, t, h) && (p.Up? ==> !p.red)
    ensures RB(Painted(Plug(p, t), false), h')
    ensures Inorder(Painted(Plug(p, t), false)) == Seq(p, t)
  {
    SeqPlug(p, t);
    if p.Top? {
      h' := h + 1;
    } else {
      h' := PlugRB(p, t, h);
    }
  }

  // ------------------------------------------------------------------- deletion

  /** The deletion loop invariant: all is well, except that the subtree t lacks one black
      node, and its root may be red below a red parent. */
  ghost predicate Lacking(p: Path, t: Tree, h: int) {
    && Bal(t, h) && BalPath(p, h + 1) && NoRRPath(p, false)
    && (t.T? ==> NoRR(t.l) && NoRR(t.r))
  }

  /** The sibling is a node, and a black one has black nodes or leaves to spare below. */
  lemma SiblingIsThere(p: Path, t: Tree, h: int)
    requires Lacking(p, t, h) && p.Up?
    ensures p.sib.T? && h >= 0
    ensures Bal(p.sib, h + 1) && NoRR(p.sib)
  {
    BalHeight(t, h);
    BalHeight(p.sib, h + 1);
  }

  /** A red sibling: after a rotation of the parent, the sibling is black and the parent red. */
  lemma RedSibling(p: Path, t: Tree, h: int) returns (p': Path)
    requires Lacking(p, t, h) && p.Up? && IsRed(p.sib)
    ensures var d, w := p.isLeft, p.sib; var k, c := Near(d, w), Near(!d, w);
      && Mk(true, d, p.n, Painted(w, false), t) == Wide(d, true, t, p.n, false, k, w.n, c)
      && p' == Up(true, p.n, d, k, Up(false, w.n, d, c, p.up))
      && Turned(d, true, t, p.n, false, k, w.n, c) == Mk(false, d, w.n, c, Mk(true, d, p.n, k, t))
      && !IsRed(k)
    ensures Lacking(p', t, h) && Seq(p', t) == Seq(p, t)
  {
    var d, w := p.isLeft, p.sib;
    var k, c := Near(d, w), Near(!d, w);
    var q := Up(false, w.n, d, c, p.up);
    p' := Up(true, p.n, d, k, q);
    RedSiblingRules(p, t, h);
    hide Lacking, NoRR, Bal, BalPath, NoRRPath;
    RedSiblingSeq(p, t);
  }

  lemma RedSiblingRules(p: Path, t: Tree, h: int)
    requires Lacking(p, t, h) && p.Up? && IsRed(p.sib)
    ensures var d, w := p.isLeft, p.sib; var k, c := Near(d, w), Near(!d, w);
      !IsRed(k) && Lacking(Up(true, p.n, d, k, Up(false, w.n, d, c, p.up)), t, h)
  {
    assert !p.red && NoRR(p.sib) && Bal(p.sib, h + 1);
  }

  lemma RedSiblingSeq(p: Path, t: Tree)
    requires p.Up? && p.sib.T?
    ensures var d, w := p.isLeft, p.sib; var k, c := Near(d, w), Near(!d, w);
      Seq(Up(true, p.n, d, k, Up(false, w.n, d, c, p.up)), t) == Seq(p, t)
  {
    var d, w := p.isLeft, p.sib;
    var k, c := Near(d, w), Near(!d, w);
    var q := Up(false, w.n, d, c, p.up);
    var p' := Up(true, p.n, d, k, q);
    SeqUp(p, t);
    SeqUp(p', t);
    SeqUp(q, Mk(true, d, p.n, k, t));
    SeqOf(p.up, Mk(p.red, d, p.n, w, t), Mk(false, d, w.n, c, Mk(true, d, p.n, k, t)));
    hide Seq;
    RotKeeps(d, p.red, t, p.n, w.red, k, w.n, c);
    MkFacts(p.red, d, p.n, w, t);
    MkFacts(w.red, d, w.n, c, Mk(p.red, d, p.n, k, t));
    MkFacts(false, d, w.n, c, Mk(true, d, p.n, k, t));
    MkFacts(p.red, d, p.n, k, t);
    MkFacts(true, d, p.n, k, t);
    hide Inorder;
  }

  lemma SeqOf(p: Path, t: Tree, u: Tree)
    ensures Inorder(t) == Inorder(u) ==> Seq(p, t) == Seq(p, u)
  {
  }

  /** A black sibling with black children turns red, and the parent lacks a black node. */
  lemma BlackNephews(p: Path, t: Tree, h: int) returns (t': Tree, h': int)
    requires Lacking(p, t, h) && p.Up? && !IsRed(t)
    requires p.sib.T? && !IsRed(p.sib) && !IsRed(p.sib.l) && !IsRed(p.sib.r)
    ensures t' == Mk(p.red, p.isLeft, p.n, Painted(p.sib, true), t)
    ensures Lacking(p.up, t', h') && Seq(p.up, t') == Seq(p, t)
  {
    var w := p.sib;
    h' := if p.red then h else h + 1;
    t' := Mk(p.red, p.isLeft, p.n, Painted(w, true), t);
    SeqUp(p, t);
    SeqUp(p.(sib := Painted(w, true)), t);
    PaintedInorder(w, true);
    assert NoRR(w) && Bal(w, h + 1);
    assert Bal(Painted(w, true), h) && NoRR(t);
    assert NoRRPath(p.up, p.red);
    assert p.up.Up? && NoRRPath(p.up, true) ==> NoRRPath(p.up, false);
  }

  lemma PaintedInorder(t: Tree, red: bool)
    ensures Inorder(Painted(t, red)) == Inorder(t)
  {
  }

  /** Only the inner nephew is red: after a rotation of the sibling, the outer one is. */
  lemma InnerNephew(p: Path, t: Tree, h: int) returns (p': Path)
    requires Lacking(p, t, h) && p.Up? && p.sib.T? && !IsRed(p.sib)
    requires IsRed(Near(p.isLeft, p.sib)) && !IsRed(Near(!p.isLeft, p.sib))
    ensures var d, w := p.isLeft, p.sib; var near, far := Near(d, w), Near(!d, w);
      var k, c := Near(!d, near), Near(d, near);
      && Mk(true, d, w.n, far, Painted(near, false)) == Wide(!d, true, far, w.n, false, k, near.n, c)
      && p' == p.(sib := Turned(!d, true, far, w.n, false, k, near.n, c))
      && p'.sib.T? && p'.sib.n == near.n && !IsRed(p'.sib) && IsRed(Near(!d, p'.sib))
    ensures Lacking(p', t, h) && Seq(p', t) == Seq(p, t)
  {
    var d, w := p.isLeft, p.sib;
    var near, far := Near(d, w), Near(!d, w);
    var k, c := Near(!d, near), Near(d, near);
    p' := p.(sib := Turned(!d, true, far, w.n, false, k, near.n, c));
    assert NoRR(w) && Bal(w, h + 1) && NoRR(near) && Bal(near, h) && NoRR(far) && Bal(far, h);
    assert Bal(k, h) && Bal(c, h);
    InnerSeq(d, w);
    hide Inorder;
    assert Bal(Mk(true, d, w.n, far, k), h) && NoRR(Mk(true, d, w.n, far, k));
    assert Bal(p'.sib, h + 1) && NoRR(p'.sib);
  }

  lemma InnerSeq(d: bool, w: Tree)
    requires w.T? && Near(d, w).T?
    ensures var near, far := Near(d, w), Near(!d, w);
      var k, c := Near(!d, near), Near(d, near);
      Inorder(Turned(!d, true, far, w.n, false, k, near.n, c)) == Inorder(w)
  {
    var near, far := Near(d, w), Near(!d, w);
    var k, c := Near(!d, near), Near(d, near);
    MkFacts(w.red, d, w.n, far, near);
    MkFacts(true, d, w.n, far, Painted(near, false));
    PaintedInorder(near, false);
    RotKeeps(!d, true, far, w.n, false, k, near.n, c);
  }

  /** The outer nephew is red: after recolouring and a rotation of the parent, the whole
      tree is a red-black tree. */
  lemma OuterNephew(p: Path, t: Tree, h: int) returns (whole: Tree, h': int)
    requires Lacking(p, t, h) && p.Up? && !IsRed(t) && p.sib.T? && !IsRed(p.sib)
    requires IsRed(Near(!p.isLeft, p.sib))
    ensures var d, w := p.isLeft, p.sib; var near, far := Near(d, w), Painted(Near(!d, w), false);
      && Mk(false, d, p.n, Mk(p.red, d, w.n, far, near), t) == Wide(d, false, t, p.n, p.red, near, w.n, far)
      && whole == Plug(p.up, Turned(d, false, t, p.n, p.red, near, w.n, far))
    ensures Lacking(Top, whole, h') && !IsRed(whole) && Seq(Top, whole) == Seq(p, t)
  {
    var d, w := p.isLeft, p.sib;
    var near, far0 := Near(d, w), Near(!d, w);
    var far := Painted(far0, false);
    var u := Turned(d, false, t, p.n, p.red, near, w.n, far);
    whole := Plug(p.up, u);
    OuterRules(p, t, h);
    OuterSeq(p, t);
    hide Turned;
    h' := PlugRB(p.up, u, if p.red then h + 1 else h + 2);
    SeqPlug(p.up, u);
  }

  lemma OuterSeq(p: Path, t: Tree)
    requires p.Up? && p.sib.T?
    ensures var d, w := p.isLeft, p.sib; var near, far := Near(d, w), Painted(Near(!d, w), false);
      Seq(p.up, Turned(d, false, t, p.n, p.red, near, w.n, far)) == Seq(p, t)
  {
    var d, w := p.isLeft, p.sib;
    var near, far0 := Near(d, w), Near(!d, w);
    var far := Painted(far0, false);
    SeqUp(p, t);
    PaintedInorder(far0, false);
    MkFacts(p.red, d, p.n, w, t);
    MkFacts(w.red, d, w.n, far0, near);
    MkFacts(p.red, d, w.n, far, near);
    MkFacts(false, d, p.n, Mk(p.red, d, w.n, far, near), t);
    RotKeeps(d, false, t, p.n, p.red, near, w.n, far);
    hide Inorder, Turned;
  }

  lemma OuterRules(p: Path, t: Tree, h: int)
    requires Lacking(p, t, h) && p.Up? && !IsRed(t) && p.sib.T? && !IsRed(p.sib)
    requires IsRed(Near(!p.isLeft, p.sib))
    ensures var d, w := p.isLeft, p.sib; var near, far := Near(d, w), Painted(Near(!d, w), false);
      var u, h' := Turned(d, false, t, p.n, p.red, near, w.n, far), if p.red then h + 1 else h + 2;
      Bal(u, h') && BalPath(p.up, h') && NoRR(u) && NoRRPath(p.up, IsRed(u))
  {
    var d, w := p.isLeft, p.sib;
    assert NoRR(w) && Bal(w, h + 1) && NoRR(Near(!d, w)) && Bal(Near(!d, w), h);
  }

  /** The loop ends at the root or at a red node; blackening it gives a red-black tree. */
  lemma DeleteDone(p: Path, t: Tree, h: int) returns (h': int)
    requires Lacking(p, t, h) && (p.Top? || IsRed(t))
    ensures RB(Plug(p, Painted(t, false)), h')
    ensures Inorder(Plug(p, Painted(t, false))) == Seq(p, t)
  {
    SeqPlug(p, Painted(t, false));
    h' := PlugRB(p, Painted(t, false), if IsRed(t) then h + 1 else h);
  }

  /** Painting the focus and then its parent. */
  lemma PaintUp(m: Memory, root: Node, s: Node, p: Path, t: Tree, x: bool, y: bool)
    requires At(m, root, s, p, t) && p.Up? && t.T?
    ensures p.n in m && t.n in m
    ensures At(SetRed(SetRed(m, t.n, x), p.n, y), root, s, p.up, Mk(y, p.isLeft, p.n, p.sib, Painted(t, x)))
  {
    Paint(m, root, s, p, t, x);
    var m1 := SetRed(m, t.n, x);
    MoveUp(m1, root, s, p, Painted(t, x));
    Paint(m1, root, s, p.up, Mk(p.red, p.isLeft, p.n, p.sib, Painted(t, x)), y);
  }

  /** The sibling's point of view. */
  ghost function Across(p: Path, t: Tree): Path
    requires p.Up?
  {
    Up(p.red, p.n, !p.isLeft, t, p.up)
  }

  lemma MoveAcross(m: Memory, root: Node, s: Node, p: Path, t: Tree)
    requires p.Up? && At(m, root, s, p, t)
    ensures At(m, root, s, Across(p, t), p.sib)
  {
    MoveUp(m, root, s, p, t);
    MoveDown(m, root, s, Across(p, t), p.sib);
  }

  /** Sibling like parent, then parent and outer nephew black. */
  lemma PaintThree(m: Memory, root: Node, s: Node, p: Path, t: Tree)
    requires At(m, root, s, p, t) && p.Up? && p.sib.T? && Near(!p.isLeft, p.sib).T?
    ensures var d, w := p.isLeft, p.sib; var near, far := Near(d, w), Near(!d, w);
      && p.n in m && w.n in m && far.n in m
      && At(SetRed(SetRed(SetRed(m, w.n, p.red), p.n, false), far.n, false), root, s, p.up,
            Mk(false, d, p.n, Mk(p.red, d, w.n, Painted(far, false), near), t))
  {
    var d, w := p.isLeft, p.sib;
    var near, far := Near(d, w), Near(!d, w);
    var far', w1, q := Painted(far, false), Painted(w, p.red), Across(p, t);
    MoveAcross(m, root, s, p, t);
    hide At;
    PaintUp(m, root, s, q, w, p.red, false);
    var m2 := SetRed(SetRed(m, w.n, p.red), p.n, false);
    var r := Up(false, p.n, !d, t, p.up);
    MoveDown(m2, root, s, r, w1);
    var u := Up(p.red, w.n, !d, near, r);
    MoveDown(m2, root, s, u, far);
    Paint(m2, root, s, u, far, false);
    var m3 := SetRed(m2, far.n, false);
    MoveUp(m3, root, s, u, far');
    MoveUp(m3, root, s, r, Mk(p.red, !d, w.n, near, far'));
  }
}
