/** The intrusive red-black tree of nginx: insertion and deletion with their fix-up loops,
    rotations, minimum and successor, on node objects with parent links and a sentinel. */
module RbTree {
  import opened RbShapes
  import opened RbHeap
  import opened RbFix
  import opened RbSplice
  import opened Bits

  class RbTree {
    var root: Node
    const sentinel: Node
    /** The nodes in the tree, and the sentinel. */
    ghost var nodes: set<Node>

    ghost var shape: Tree
    ghost var height: int

    ghost predicate Valid()
      reads this, nodes
    {
      && sentinel in nodes && nodes == Nodes(shape) + {sentinel}
      && At(Mem(), root, sentinel, Top, shape)
      && RB(shape, height)
    }

    /** The nodes in tree order. */
    ghost function Contents(): seq<Node>
      reads this`shape
    {
      Inorder(shape)
    }

    /** All keys lie in one window, narrower than 2^31 modulo 2^32, that starts at `base`,
        and the tree is ordered by circular offset from `base`. */
    ghost predicate Ordered(base: nat)
      reads this, nodes
    {
      Sorted(Mem(), Contents(), base) && Windowed(Mem(), Contents(), base)
    }

    /** ngx_rbtree_init. */
    constructor (s: Node)
      modifies s`red
      ensures Valid() && nodes == {s} && sentinel == s && Contents() == []
    {
      sentinel, root, nodes, shape, height := s, s, {s}, Nil, 0;
      new;
      s.red := false;
    }

    /** A snapshot of the links and colours of all nodes. */
    ghost function Mem(): Memory
      reads this`nodes, nodes
    {
      map x | x in nodes :: Cell(x.key, x.red, x.left, x.right, x.parent)
    }

    /** ngx_rbt_red and ngx_rbt_black. */
    method SetColor(x: Node, red: bool)
      requires x in nodes
      modifies x`red
      ensures Mem() == SetRed(old(Mem()), x, red)
    {
      x.red := red;
    }

    method HangBelow(x: Node, parent: Node)
      requires x in nodes
      modifies x`parent
      ensures Mem() == SetParent(old(Mem()), x, parent)
    {
      x.parent := parent;
    }

    /** ngx_rbtree_left_rotate: every link it writes, and no other. */
    method LeftRotate(node: Node)
      requires node.right != null && node.right.left != null && node != node.right
      requires node.right.left != node && node.right.left != node.right
      requires node != root ==> node.parent != null && node.parent !in {node, node.right, node.right.left}
      modifies this`root, node`right, node`parent, node.right`left, node.right`parent
      modifies (if node.right.left != sentinel then {node.right.left} else {})`parent
      modifies (if node != root then {node.parent} else {})`left, (if node != root then {node.parent} else {})`right
      ensures var temp, inner, parent := old(node.right), old(node.right.left), old(node.parent);
        && node.right == inner && temp.left == node && node.parent == temp && temp.parent == parent
        && (inner != sentinel ==> inner.parent == node)
        && root == (if node == old(root) then temp else old(root))
        && (node != old(root) ==>
              && parent.left == (if old(node.parent.left) == node then temp else old(node.parent.left))
              && parent.right == (if old(node.parent.left) == node then old(node.parent.right) else temp))
    {
      var temp := node.right;
      node.right := temp.left;
      if temp.left != sentinel {
        temp.left.parent := node;
      }
      temp.parent := node.parent;
      if node == root {
        root := temp;
      } else if node == node.parent.left {
        node.parent.left := temp;
      } else {
        node.parent.right := temp;
      }
      temp.left := node;
      node.parent := temp;
    }

    /** The left rotation, cell by cell. */
    method TurnCellsLeft(node: Node)
      requires node.right != null && node.right.left != null && node != node.right
      requires node.right.left != node && node.right.left != node.right
      requires {node, node.right, node.right.left} <= nodes
      requires node != root ==> node.parent != null && node.parent in nodes
      requires node != root ==> node.parent !in {node, node.right, node.right.left}
      modifies this`root, nodes`left, nodes`right, nodes`parent
      ensures var temp, inner := old(node.right), old(node.right.left);
        && root == (if node == old(root) then temp else old(root))
        && forall x :: x in nodes ==>
             Mem()[x] == TurnedCell(old(Mem()), old(root), sentinel, true, node, temp, inner, x)
    {
      LeftRotate(node);
    }

    /** What the left rotation of the focus means for the whole tree. */
    method TurnLeft(node: Node, ghost p: Path, ghost x: bool, ghost a: Tree, ghost y: bool, ghost k: Tree,
                    ghost b: Node, ghost c: Tree)
      requires At(Mem(), root, sentinel, p, Wide(true, x, a, node, y, k, b, c))
      modifies this`root, nodes`left, nodes`right, nodes`parent
      ensures At(Mem(), root, sentinel, p, Turned(true, x, a, node, y, k, b, c))
      ensures Mem()[sentinel] == old(Mem()[sentinel])
    {
      ghost var m := Mem();
      RotPointers(m, root, sentinel, p, true, x, a, node, y, k, b, c);
      hide At, Turned, Wide, Relinked, TurnedCell;
      TurnCellsLeft(node);
      CellsRelinked(m, Mem(), old(root), sentinel, p, true, x, a, node, y, k, b, c);
      Rotate(m, Mem(), old(root), sentinel, p, true, x, a, node, y, k, b, c);
    }

    /** ngx_rbtree_right_rotate: every link it writes, and no other. */
    method RightRotate(node: Node)
      requires node.left != null && node.left.right != null && node != node.left
      requires node.left.right != node && node.left.right != node.left
      requires node != root ==> node.parent != null && node.parent !in {node, node.left, node.left.right}
      modifies this`root, node`left, node`parent, node.left`right, node.left`parent
      modifies (if node.left.right != sentinel then {node.left.right} else {})`parent
      modifies (if node != root then {node.parent} else {})`right, (if node != root then {node.parent} else {})`left
      ensures var temp, inner, parent := old(node.left), old(node.left.right), old(node.parent);
        && node.left == inner && temp.right == node && node.parent == temp && temp.parent == parent
        && (inner != sentinel ==> inner.parent == node)
        && root == (if node == old(root) then temp else old(root))
        && (node != old(root) ==>
              && parent.right == (if old(node.parent.right) == node then temp else old(node.parent.right))
              && parent.left == (if old(node.parent.right) == node then old(node.parent.left) else temp))
    {
      var temp := node.left;
      node.left := temp.right;
      if temp.right != sentinel {
        temp.right.parent := node;
      }
      temp.parent := node.parent;
      if node == root {
        root := temp;
      } else if node == node.parent.right {
        node.parent.right := temp;
      } else {
        node.parent.left := temp;
      }
      temp.right := node;
      node.parent := temp;
    }

    /** The right rotation, cell by cell. */
    method TurnCellsRight(node: Node)
      requires node.left != null && node.left.right != null && node != node.left
      requires node.left.right != node && node.left.right != node.left
      requires {node, node.left, node.left.right} <= nodes
      requires node != root ==> node.parent != null && node.parent in nodes
      requires node != root ==> node.parent !in {node, node.left, node.left.right}
      modifies this`root, nodes`right, nodes`left, nodes`parent
      ensures var temp, inner := old(node.left), old(node.left.right);
        && root == (if node == old(root) then temp else old(root))
        && forall x :: x in nodes ==>
             Mem()[x] == TurnedCell(old(Mem()), old(root), sentinel, false, node, temp, inner, x)
    {
      RightRotate(node);
    }

    /** What the right rotation of the focus means for the whole tree. */
    method TurnRight(node: Node, ghost p: Path, ghost x: bool, ghost a: Tree, ghost y: bool, ghost k: Tree,
                     ghost b: Node, ghost c: Tree)
      requires At(Mem(), root, sentinel, p, Wide(false, x, a, node, y, k, b, c))
      modifies this`root, nodes`right, nodes`left, nodes`parent
      ensures At(Mem(), root, sentinel, p, Turned(false, x, a, node, y, k, b, c))
      ensures Mem()[sentinel] == old(Mem()[sentinel])
    {
      ghost var m := Mem();
      RotPointers(m, root, sentinel, p, false, x, a, node, y, k, b, c);
      hide At, Turned, Wide, Relinked, TurnedCell;
      TurnCellsRight(node);
      CellsRelinked(m, Mem(), old(root), sentinel, p, false, x, a, node, y, k, b, c);
      Rotate(m, Mem(), old(root), sentinel, p, false, x, a, node, y, k, b, c);
    }

    /** The fields the loops read around the focus. */
    lemma LookAround(p: Path, t: Tree)
      requires At(Mem(), root, sentinel, p, t) && t.T? && p.Up? && p.up.Up?
      ensures t.n in nodes && t.n.parent == p.n
      ensures p.n in nodes && p.n.parent == p.up.n && p.n.red == p.red
      ensures p.isLeft <==> p.n.left == t.n
      ensures !p.isLeft <==> p.n.right == t.n
      ensures p.up.n in nodes && p.up.n.red == p.up.red
      ensures p.up.isLeft <==> p.up.n.left == p.n
      ensures !p.up.isLeft <==> p.up.n.right == p.n
      ensures (if p.up.isLeft then p.up.n.right else p.up.n.left) == Ptr(p.up.sib, sentinel)
      ensures Ptr(p.up.sib, sentinel) in nodes && Ptr(p.up.sib, sentinel).red == IsRed(p.up.sib)
      ensures p.n != t.n && p.up.n != t.n && p.up.n != p.n
    {
      Look(Mem(), root, sentinel, p, t);
      LookUp(Mem(), root, sentinel, p, t);
      MoveUp(Mem(), root, sentinel, p, t);
      LookUp(Mem(), root, sentinel, p.up, Mk(p.red, p.isLeft, p.n, p.sib, t));
    }

    /** A red uncle: parent and uncle turn black, the grandparent red. */
    method PushRedUp(node: Node, uncle: Node, ghost p: Path, ghost t: Tree, ghost h: int) returns (up: Node)
      requires At(Mem(), root, sentinel, p, t) && RedFocus(p, t, h) && t.T? && t.n == node
      requires p.Up? && p.red && p.up.Up? && uncle == Ptr(p.up.sib, sentinel) && IsRed(p.up.sib)
      modifies nodes`red
      ensures up == p.up.n && At(Mem(), root, sentinel, p.up.up, Recolored(p, t))
      ensures RedFocus(p.up.up, Recolored(p, t), h + 1)
      ensures Seq(p.up.up, Recolored(p, t)) == Seq(p, t)
    {
      hide At, RedFocus, Recolored, Seq;
      LookAround(p, t);
      RecolorRules(p, t, h);
      Recolor(Mem(), root, sentinel, p, t);
      hide SetRed;
      up := node.parent.parent;
      SetColor(node.parent, false);
      SetColor(uncle, false);
      SetColor(up, true);
    }

    /** An inner grandchild becomes an outer one. */
    method InsertInnerLeft(node': Node, ghost p': Path, ghost t': Tree, ghost h: int)
      returns (node: Node, ghost p: Path, ghost t: Tree)
      requires At(Mem(), root, sentinel, p', t') && RedFocus(p', t', h) && t'.T? && t'.n == node'
      requires p'.Up? && p'.red && p'.up.Up? && p'.up.isLeft != p'.isLeft && !p'.isLeft
      modifies this`root, nodes`left, nodes`right, nodes`parent
      ensures At(Mem(), root, sentinel, p, t) && RedFocus(p, t, h) && t.T? && t.n == node
      ensures Seq(p, t) == Seq(p', t')
      ensures p.Up? && p.red && p.up == p'.up && p.isLeft == p.up.isLeft
    {
      hide At, RedFocus, Seq;
      p, t := InnerTurn(p', t', h);
      LookAtParent(p', t');
      MoveUp(Mem(), root, sentinel, p', t');
      node := node'.parent;
      TurnLeft(node, p'.up, true, p'.sib, true, t'.l, t'.n, t'.r);
      MoveDown(Mem(), root, sentinel, p, t);
    }

    /** An outer grandchild: two colours and a rotation complete the tree. */
    method InsertOuterLeft(node: Node, ghost p': Path, ghost t: Tree, ghost h: int) returns (ghost p: Path)
      requires At(Mem(), root, sentinel, p', t) && RedFocus(p', t, h) && t.T? && t.n == node
      requires p'.Up? && p'.red && p'.up.Up? && p'.isLeft == p'.up.isLeft && p'.isLeft && !IsRed(p'.up.sib)
      modifies this`root, nodes`left, nodes`right, nodes`parent, nodes`red
      ensures At(Mem(), root, sentinel, p, t) && RedFocus(p, t, h) && Seq(p, t) == Seq(p', t)
      ensures p.Up? && !p.red
    {
      hide At, RedFocus, Seq;
      LookAround(p', t);
      p := OuterTurn(p', t, h);
      PaintTwo(Mem(), root, sentinel, p', t, false, true);
      SetColor(node.parent, false);
      SetColor(node.parent.parent, true);
      hide SetRed;
      TurnRight(node.parent.parent, p'.up.up, true, p'.up.sib, false, p'.sib, p'.n, t);
      MoveDown(Mem(), root, sentinel, p, t);
    }

    /** One round of the insertion loop whose parent is a left child. */
    method InsertFixLeft(node': Node, ghost p': Path, ghost t': Tree, ghost h': int)
      returns (node: Node, ghost p: Path, ghost t: Tree, ghost h: int)
      requires At(Mem(), root, sentinel, p', t') && RedFocus(p', t', h') && t'.T? && t'.n == node'
      requires p'.Up? && p'.red && p'.up.Up? && p'.up.isLeft
      modifies this`root, nodes`left, nodes`right, nodes`parent, nodes`red
      ensures At(Mem(), root, sentinel, p, t) && RedFocus(p, t, h) && t.T? && t.n == node
      ensures Seq(p, t) == Seq(p', t')
      ensures p.Up? && p.red ==> p == p'.up.up
    {
      hide At, RedFocus;
      node, p, t, h := node', p', t', h';
      LookAround(p, t);
      var temp := node.parent.parent.right;
      if temp.red {
        node := PushRedUp(node, temp, p, t, h);
        p, t, h := p.up.up, Recolored(p, t), h + 1;
      } else {
        if node == node.parent.right {
          node, p, t := InsertInnerLeft(node, p, t, h);
        }
        p := InsertOuterLeft(node, p, t, h);
      }
    }

    /** An inner grandchild becomes an outer one. */
    method InsertInnerRight(node': Node, ghost p': Path, ghost t': Tree, ghost h: int)
      returns (node: Node, ghost p: Path, ghost t: Tree)
      requires At(Mem(), root, sentinel, p', t') && RedFocus(p', t', h) && t'.T? && t'.n == node'
      requires p'.Up? && p'.red && p'.up.Up? && p'.up.isLeft != p'.isLeft && p'.isLeft
      modifies this`root, nodes`right, nodes`left, nodes`parent
      ensures At(Mem(), root, sentinel, p, t) && RedFocus(p, t, h) && t.T? && t.n == node
      ensures Seq(p, t) == Seq(p', t')
      ensures p.Up? && p.red && p.up == p'.up && p.isLeft == p.up.isLeft
    {
      hide At, RedFocus, Seq;
      p, t := InnerTurn(p', t', h);
      LookAtParent(p', t');
      MoveUp(Mem(), root, sentinel, p', t');
      node := node'.parent;
      TurnRight(node, p'.up, true, p'.sib, true, t'.r, t'.n, t'.l);
      MoveDown(Mem(), root, sentinel, p, t);
    }

    /** An outer grandchild: two colours and a rotation complete the tree. */
    method InsertOuterRight(node: Node, ghost p': Path, ghost t: Tree, ghost h: int) returns (ghost p: Path)
      requires At(Mem(), root, sentinel, p', t) && RedFocus(p', t, h) && t.T? && t.n == node
      requires p'.Up? && p'.red && p'.up.Up? && p'.isLeft == p'.up.isLeft && !p'.isLeft && !IsRed(p'.up.sib)
      modifies this`root, nodes`right, nodes`left, nodes`parent, nodes`red
      ensures At(Mem(), root, sentinel, p, t) && RedFocus(p, t, h) && Seq(p, t) == Seq(p', t)
      ensures p.Up? && !p.red
    {
      hide At, RedFocus, Seq;
      LookAround(p', t);
      p := OuterTurn(p', t, h);
      PaintTwo(Mem(), root, sentinel, p', t, false, true);
      SetColor(node.parent, false);
      SetColor(node.parent.parent, true);
      hide SetRed;
      TurnLeft(node.parent.parent, p'.up.up, true, p'.up.sib, false, p'.sib, p'.n, t);
      MoveDown(Mem(), root, sentinel, p, t);
    }

    /** One round of the insertion loop whose parent is a right child. */
    method InsertFixRight(node': Node, ghost p': Path, ghost t': Tree, ghost h': int)
      returns (node: Node, ghost p: Path, ghost t: Tree, ghost h: int)
      requires At(Mem(), root, sentinel, p', t') && RedFocus(p', t', h') && t'.T? && t'.n == node'
      requires p'.Up? && p'.red && p'.up.Up? && !p'.up.isLeft
      modifies this`root, nodes`right, nodes`left, nodes`parent, nodes`red
      ensures At(Mem(), root, sentinel, p, t) && RedFocus(p, t, h) && t.T? && t.n == node
      ensures Seq(p, t) == Seq(p', t')
      ensures p.Up? && p.red ==> p == p'.up.up
    {
      hide At, RedFocus;
      node, p, t, h := node', p', t', h';
      LookAround(p, t);
      var temp := node.parent.parent.left;
      if temp.red {
        node := PushRedUp(node, temp, p, t, h);
        p, t, h := p.up.up, Recolored(p, t), h + 1;
      } else {
        if node == node.parent.left {
          node, p, t := InsertInnerRight(node, p, t, h);
        }
        p := InsertOuterRight(node, p, t, h);
      }
    }

    /** What the loop conditions read. */
    lemma LookAtParent(p: Path, t: Tree)
      requires At(Mem(), root, sentinel, p, t) && t.T?
      ensures t.n == root <==> p.Top?
      ensures t.n in nodes && t.n != sentinel && t.n.red == t.red
      ensures p.Up? ==> t.n.parent == p.n && p.n in nodes && p.n.red == p.red
    {
      Look(Mem(), root, sentinel, p, t);
      if p.Up? {
        LookUp(Mem(), root, sentinel, p, t);
      }
    }

    /** The re-balancing loop of ngx_rbtree_insert, from a red node just linked in. */
    method Rebalance(node': Node, ghost p': Path, ghost t': Tree) returns (ghost shape: Tree, ghost h: int)
      requires At(Mem(), root, sentinel, p', t') && RedFocus(p', t', 0) && t'.T? && t'.n == node'
      modifies this`root, nodes`left, nodes`right, nodes`parent, nodes`red
      ensures At(Mem(), root, sentinel, Top, shape) && RB(shape, h)
      ensures Inorder(shape) == Seq(p', t')
    {
      hide At, RedFocus, RB;
      var node := node';
      ghost var p, t := p', t';
      h := 0;
      LookAtParent(p, t);
      while node != root && node.parent.red
        invariant At(Mem(), root, sentinel, p, t) && RedFocus(p, t, h) && t.T? && t.n == node
        invariant Seq(p, t) == Seq(p', t')
        invariant node == root <==> p.Top?
        invariant p.Up? ==> node.parent == p.n && p.n.red == p.red
        decreases if p.Up? && p.red then Depth(p) else 0
      {
        RedParentHasParent(p, t, h);
        LookAround(p, t);
        assert Depth(p) == 1 + Depth(p.up) == 2 + Depth(p.up.up);
        if node.parent == node.parent.parent.left {
          node, p, t, h := InsertFixLeft(node, p, t, h);
        } else {
          node, p, t, h := InsertFixRight(node, p, t, h);
        }
        LookAtParent(p, t);
      }
      MoveTop(Mem(), root, sentinel, p, t);
      shape := Painted(Plug(p, t), false);
      h := InsertDone(p, t, h);
      BlackenRoot(Plug(p, t));
    }

    method BlackenRoot(ghost t: Tree)
      requires At(Mem(), root, sentinel, Top, t)
      modifies nodes`red
      ensures At(Mem(), root, sentinel, Top, Painted(t, false))
    {
      Look(Mem(), root, sentinel, Top, t);
      Paint(Mem(), root, sentinel, Top, t, false);
      hide At;
      SetColor(root, false);
    }

    /** The descent of ngx_rbtree_insert_timer_value: by the wrapped comparison, equal keys
        to the right, down to an empty place below `temp`. */
    method Descend(top: Node, k: nat, ghost base: nat) returns (temp: Node, isLeft: bool, ghost p: Path)
      requires Valid() && top == root && shape.T?
      ensures Descent(Mem(), root, sentinel, p, Nil, shape, k, base)
      ensures p.Up? && p.n == temp && p.isLeft == isLeft
    {
      temp := top;
      ghost var m, t := Mem(), shape;
      DescentStarts(m, root, sentinel, t, k, base);
      p := Top;
      hide At, RB, Descent, Earlier;
      while true
        invariant Descent(m, root, sentinel, p, t, shape, k, base)
        invariant t.T? && t.n == temp && temp in nodes
        decreases t
      {
        p, t := DescentSteps(m, root, sentinel, p, t, shape, k, base);
        isLeft := Earlier(k, temp.key);
        var child := if isLeft then temp.left else temp.right;
        if child == sentinel {
          break;
        }
        temp := child;
      }
    }

    /** The links that make a node a red leaf below temp. */
    method HangLeaf(temp: Node, isLeft: bool, node: Node)
      requires temp in nodes && node !in nodes
      modifies this`nodes, temp`left, temp`right, node`left, node`right, node`parent, node`red
      ensures nodes == old(nodes) + {node} && Mem().Keys == old(Mem().Keys) + {node}
      ensures Mem()[temp] == SetChild(old(Mem()[temp]), isLeft, node)
      ensures Mem()[node] == Cell(node.key, true, sentinel, sentinel, temp)
      ensures forall x :: x in old(nodes) && x != temp ==> Mem()[x] == old(Mem()[x])
    {
      if isLeft {
        temp.left := node;
      } else {
        temp.right := node;
      }
      node.parent := temp;
      node.left := sentinel;
      node.right := sentinel;
      node.red := true;
      nodes := nodes + {node};
    }

    /** ngx_rbtree_insert_timer_value: the new node becomes a red leaf. */
    method InsertTimerValue(node: Node, ghost base: nat) returns (ghost p: Path)
      requires Valid() && shape.T? && node !in nodes
      modifies this`nodes, nodes`left, nodes`right, node`left, node`right, node`parent, node`red
      ensures nodes == old(nodes) + {node} && p.Up?
      ensures At(Mem(), root, sentinel, p, T(true, Nil, node, Nil))
      ensures Plug(p, Nil) == shape
      ensures InOrder(old(Mem()), Inorder(shape), node.key, base) ==> Apart(old(Mem()), base, node.key, p)
    {
      ghost var m := Mem();
      hide RB, Apart, InOrder, Inorder, Plug, PathNodes, Nodes, Descent, SetChild;
      RootTells();
      hide At;
      var temp: Node, isLeft: bool;
      temp, isLeft, p := Descend(root, node.key, base);
      DescentEnds(m, root, sentinel, p, shape, node.key, base);
      LinkLeaf(temp, isLeft, node, p);
    }

    method LinkLeaf(temp: Node, isLeft: bool, node: Node, ghost p: Path)
      requires At(Mem(), root, sentinel, p, Nil) && temp in nodes && node !in nodes && node !in PathNodes(p)
      requires p.Up? && p.n == temp && p.isLeft == isLeft
      modifies this`nodes, temp`left, temp`right, node`left, node`right, node`parent, node`red
      ensures nodes == old(nodes) + {node} && At(Mem(), root, sentinel, p, T(true, Nil, node, Nil))
    {
      ghost var m := Mem();
      hide At, SetChild, PathNodes;
      HangLeaf(temp, isLeft, node);
      HangNew(m, Mem(), root, sentinel, p, node);
    }

    /** The first node becomes a black root. */
    method InsertFirst(node: Node, ghost base: nat)
      requires Valid() && shape.Nil? && node !in nodes
      modifies this, node`left, node`right, node`parent, node`red
      ensures Valid() && nodes == old(nodes) + {node}
      ensures old(Contents()) == [] && Contents() == [node]
      ensures node.key < M32 && Off(base, node.key) < HALF && base < M32 ==> Ordered(base)
    {
      node.parent := null;
      node.left := sentinel;
      node.right := sentinel;
      node.red := false;
      root := node;
      nodes, shape, height := nodes + {node}, T(false, Nil, node, Nil), 1;
      SingleNode(Mem(), sentinel, node);
      SingleOrdered(Mem(), node, base);
      hide At, RB, Sorted, Windowed;
    }

    lemma RootTells()
      requires Valid()
      ensures root == sentinel <==> shape.Nil?
    {
      Look(Mem(), root, sentinel, Top, shape);
    }

    /** ngx_rbtree_insert: a red-black tree again, with the new node behind all nodes of
        the same or an earlier expiry. */
    method Insert(node: Node, ghost base: nat) returns (ghost before: seq<Node>, ghost after: seq<Node>)
      requires Valid() && node !in nodes
      modifies this, nodes`left, nodes`right, nodes`parent, nodes`red, node`left, node`right, node`parent, node`red
      ensures Valid() && nodes == old(nodes) + {node}
      ensures old(Contents()) == before + after && Contents() == before + [node] + after
      ensures old(Ordered(base)) && node.key < M32 && Off(base, node.key) < HALF ==>
        Ordered(base) && AllUpTo(Mem(), base, before, node.key) && AllAfter(Mem(), base, after, node.key)
    {
      RootTells();
      hide Off, Valid, Sorted, Windowed, Contents;
      if root == sentinel {
        before, after := [], [];
        InsertFirst(node, base);
      } else {
        before, after := InsertBelow(node, base);
      }
    }

    method InsertBelow(node: Node, ghost base: nat) returns (ghost before: seq<Node>, ghost after: seq<Node>)
      requires Valid() && shape.T? && node !in nodes
      modifies this, nodes`left, nodes`right, nodes`parent, nodes`red, node`left, node`right, node`parent, node`red
      ensures Valid() && nodes == old(nodes) + {node}
      ensures old(Contents()) == before + after && Contents() == before + [node] + after
      ensures old(Ordered(base)) && node.key < M32 && Off(base, node.key) < HALF ==>
        Ordered(base) && AllUpTo(Mem(), base, before, node.key) && AllAfter(Mem(), base, after, node.key)
    {
      hide At, Sorted, Windowed, AllUpTo, AllAfter, Off, Apart, RB, Nodes, Inorder, Plug, Before, After, RedFocus;
      ghost var m, was := Mem(), shape;
      ghost var p := InsertTimerValue(node, base);
      NewLeaf(p, node, was, height);
      before, after := Before(p), After(p);
      shape, height := Rebalance(node, p, T(true, Nil, node, Nil));
      NodesAround(shape, was, before, node, after);
      if InOrder(m, before + after, node.key, base) {
        InsertOrder(m, Mem(), p, node, base);
      }
    }

    // ---------------------------------------------------------------- deletion

    /** The deletion loop is at `temp`, the root of the subtree t; a sentinel there has its
        parent link set. */
    ghost predicate Deleting(temp: Node, p: Path, t: Tree, h: int)
      reads this, nodes
    {
      && At(Mem(), root, sentinel, p, t) && Lacking(p, t, h) && temp == Ptr(t, sentinel) && temp in nodes
      && sentinel in nodes && (p.Up? && t.Nil? ==> sentinel.parent == p.n)
    }

    /** What is left to do for the deletion loop. */
    ghost function Rest(p: Path, t: Tree): nat {
      if IsRed(t) || p.Top? then 0 else 1 + Depth(p)
    }

    /** The fields the deletion loop reads around the focus. */
    lemma LookBeside(temp: Node, p: Path, t: Tree, h: int)
      requires Deleting(temp, p, t, h) && p.Up? && p.sib.T?
      ensures temp.parent == p.n && p.n in nodes && p.n.red == p.red
      ensures (if p.isLeft then p.n.left else p.n.right) == temp
      ensures (if p.isLeft then p.n.right else p.n.left) == p.sib.n
      ensures p.sib.n != temp && p.sib.n in nodes && p.sib.n.red == p.sib.red && p.sib.n != p.n && p.n != sentinel
      ensures p.sib.n.left == Ptr(p.sib.l, sentinel) && p.sib.n.left in nodes && p.sib.n.left.red == IsRed(p.sib.l)
      ensures p.sib.n.right == Ptr(p.sib.r, sentinel) && p.sib.n.right in nodes && p.sib.n.right.red == IsRed(p.sib.r)
    {
      var m := Mem();
      Look(m, root, sentinel, p, t);
      LookUp(m, root, sentinel, p, t);
      MoveAcross(m, root, sentinel, p, t);
      MoveLeft(m, root, sentinel, Across(p, t), p.sib);
      Look(m, root, sentinel, Up(p.sib.red, p.sib.n, true, p.sib.r, Across(p, t)), p.sib.l);
      MoveRight(m, root, sentinel, Across(p, t), p.sib);
      Look(m, root, sentinel, Up(p.sib.red, p.sib.n, false, p.sib.l, Across(p, t)), p.sib.r);
      LookUp(m, root, sentinel, Across(p, t), p.sib);
      hide At, Lacking;
    }

    /** A red right-hand sibling becomes the grandparent. */
    method DeleteRedRight(temp: Node, w': Node, ghost p': Path, ghost t: Tree, ghost h: int)
      returns (w: Node, ghost p: Path)
      requires Deleting(temp, p', t, h) && p'.Up? && p'.isLeft && p'.sib.T? && p'.sib.n == w' && IsRed(p'.sib)
      modifies this`root, nodes`left, nodes`right, nodes`parent, nodes`red
      ensures Deleting(temp, p, t, h) && p.Up? && p.isLeft && Seq(p, t) == Seq(p', t)
      ensures p.red && p.sib.T? && p.sib.n == w && !IsRed(p.sib) && p.up.Up? && p.up.up == p'.up
    {
      hide At, Lacking, Seq;
      LookBeside(temp, p', t, h);
      p := RedSibling(p', t, h);
      MoveAcross(Mem(), root, sentinel, p', t);
      PaintUp(Mem(), root, sentinel, Across(p', t), p'.sib, false, true);
      SetColor(w', false);
      SetColor(temp.parent, true);
      TurnLeft(temp.parent, p'.up, true, t, false, p'.sib.l, w', p'.sib.r);
      MoveDown(Mem(), root, sentinel, p.up, Mk(p.red, p.isLeft, p.n, p.sib, t));
      MoveDown(Mem(), root, sentinel, p, t);
      SiblingIsThere(p, t, h);
      LookBeside(temp, p, t, h);
      w := temp.parent.right;
    }

    /** An inner red nephew becomes the sibling. */
    method DeleteInnerRight(temp: Node, w': Node, ghost p': Path, ghost t: Tree, ghost h: int)
      returns (w: Node, ghost p: Path)
      requires Deleting(temp, p', t, h) && p'.Up? && p'.isLeft && p'.sib.T? && p'.sib.n == w' && !IsRed(p'.sib)
      requires IsRed(p'.sib.l) && !IsRed(p'.sib.r)
      modifies this`root, nodes`left, nodes`right, nodes`parent, nodes`red
      ensures Deleting(temp, p, t, h) && p.Up? && p.isLeft && p.up == p'.up && Seq(p, t) == Seq(p', t)
      ensures p.sib.T? && p.sib.n == w && !IsRed(p.sib) && IsRed(p.sib.r)
    {
      hide At, Lacking, Seq;
      LookBeside(temp, p', t, h);
      p := InnerNephew(p', t, h);
      MoveAcross(Mem(), root, sentinel, p', t);
      ghost var q := Across(p', t);
      MoveLeft(Mem(), root, sentinel, q, p'.sib);
      PaintUp(Mem(), root, sentinel, Up(p'.sib.red, w', true, p'.sib.r, q), p'.sib.l, false, true);
      SetColor(w'.left, false);
      SetColor(w', true);
      TurnRight(w', q, true, p'.sib.r, false, p'.sib.l.r, p'.sib.l.n, p'.sib.l.l);
      MoveAcross(Mem(), root, sentinel, q, p.sib);
      LookBeside(temp, p, t, h);
      w := temp.parent.right;
    }

    /** With a red outer nephew, a rotation of the parent completes the tree. */
    method DeleteOuterRight(temp: Node, w: Node, ghost p: Path, ghost t: Tree, ghost h: int)
      returns (ghost whole: Tree, ghost h': int)
      requires Deleting(temp, p, t, h) && p.Up? && p.isLeft && !IsRed(t)
      requires p.sib.T? && p.sib.n == w && !IsRed(p.sib) && IsRed(p.sib.r)
      modifies this`root, nodes`left, nodes`right, nodes`parent, nodes`red
      ensures Deleting(root, Top, whole, h') && !IsRed(whole) && Seq(Top, whole) == Seq(p, t)
    {
      hide At, Lacking, Seq, Turned, Wide, SetRed, Plug, Depth;
      LookBeside(temp, p, t, h);
      whole, h' := OuterNephew(p, t, h);
      PaintOuter(temp.parent, w, w.right, p, t);
      TurnLeft(temp.parent, p.up, false, t, p.red, p.sib.l, w, Painted(p.sib.r, false));
      TopIsRoot(Mem(), root, sentinel, p.up, Turned(true, false, t, p.n, p.red, p.sib.l, w, Painted(p.sib.r, false)));
    }

    /** A black sibling with black children turns red. */
    method PushLackUp(temp': Node, w: Node, ghost p: Path, ghost t': Tree, ghost h': int)
      returns (temp: Node, ghost t: Tree, ghost h: int)
      requires Deleting(temp', p, t', h') && p.Up? && !IsRed(t')
      requires p.sib.T? && p.sib.n == w && !IsRed(p.sib) && !IsRed(p.sib.l) && !IsRed(p.sib.r)
      modifies w`red
      ensures Deleting(temp, p.up, t, h) && Seq(p.up, t) == Seq(p, t') && IsRed(t) == p.red
    {
      hide At, Lacking, Seq;
      LookBeside(temp', p, t', h');
      MoveAcross(Mem(), root, sentinel, p, t');
      Paint(Mem(), root, sentinel, Across(p, t'), p.sib, true);
      SetColor(w, true);
      MoveUp(Mem(), root, sentinel, Across(p, t'), Painted(p.sib, true));
      temp := temp'.parent;
      t, h := BlackNephews(p, t', h');
    }

    /** The colours in front of the last rotation. */
    method PaintOuter(parent: Node, w: Node, far: Node, ghost p: Path, ghost t: Tree)
      requires At(Mem(), root, sentinel, p, t) && p.Up? && p.n == parent && p.sib.T? && p.sib.n == w
      requires Near(!p.isLeft, p.sib).T? && Near(!p.isLeft, p.sib).n == far && p.red == parent.red
      modifies nodes`red
      ensures var d := p.isLeft; var near, far := Near(d, p.sib), Painted(Near(!d, p.sib), false);
        At(Mem(), root, sentinel, p.up, Mk(false, d, p.n, Mk(p.red, d, w, far, near), t))
    {
      hide At, Painted, Mk;
      PaintThree(Mem(), root, sentinel, p, t);
      SetColor(w, parent.red);
      SetColor(parent, false);
      SetColor(far, false);
    }

    /** One round of the deletion loop at a left child. */
    method DeleteFixLeft(temp': Node, ghost p': Path, ghost t': Tree, ghost h': int)
      returns (temp: Node, ghost p: Path, ghost t: Tree, ghost h: int)
      requires Deleting(temp', p', t', h') && p'.Up? && p'.isLeft && !IsRed(t')
      modifies this`root, nodes`left, nodes`right, nodes`parent, nodes`red
      ensures Deleting(temp, p, t, h) && Seq(p, t) == Seq(p', t')
      ensures Rest(p, t) < Rest(p', t')
    {
      hide At, Lacking, Seq;
      temp, p, t, h := temp', p', t', h';
      SiblingIsThere(p, t, h);
      LookBeside(temp, p, t, h);
      var w := temp.parent.right;
      if w.red {
        w, p := DeleteRedRight(temp, w, p, t, h);
        LookBeside(temp, p, t, h);
      }
      if !w.left.red && !w.right.red {
        temp, t, h := PushLackUp(temp, w, p, t, h);
        p := p.up;
      } else {
        if !w.right.red {
          w, p := DeleteInnerRight(temp, w, p, t, h);
        }
        t, h := DeleteOuterRight(temp, w, p, t, h);
        p := Top;
        temp := root;
      }
    }

    /** A red left-hand sibling becomes the grandparent. */
    method DeleteRedLeft(temp: Node, w': Node, ghost p': Path, ghost t: Tree, ghost h: int)
      returns (w: Node, ghost p: Path)
      requires Deleting(temp, p', t, h) && p'.Up? && !p'.isLeft && p'.sib.T? && p'.sib.n == w' && IsRed(p'.sib)
      modifies this`root, nodes`right, nodes`left, nodes`parent, nodes`red
      ensures Deleting(temp, p, t, h) && p.Up? && !p.isLeft && Seq(p, t) == Seq(p', t)
      ensures p.red && p.sib.T? && p.sib.n == w && !IsRed(p.sib) && p.up.Up? && p.up.up == p'.up
    {
      hide At, Lacking, Seq;
      LookBeside(temp, p', t, h);
      p := RedSibling(p', t, h);
      MoveAcross(Mem(), root, sentinel, p', t);
      PaintUp(Mem(), root, sentinel, Across(p', t), p'.sib, false, true);
      SetColor(w', false);
      SetColor(temp.parent, true);
      TurnRight(temp.parent, p'.up, true, t, false, p'.sib.r, w', p'.sib.l);
      MoveDown(Mem(), root, sentinel, p.up, Mk(p.red, p.isLeft, p.n, p.sib, t));
      MoveDown(Mem(), root, sentinel, p, t);
      SiblingIsThere(p, t, h);
      LookBeside(temp, p, t, h);
      w := temp.parent.left;
    }

    /** An inner red nephew becomes the sibling. */
    method DeleteInnerLeft(temp: Node, w': Node, ghost p': Path, ghost t: Tree, ghost h: int)
      returns (w: Node, ghost p: Path)
      requires Deleting(temp, p', t, h) && p'.Up? && !p'.isLeft && p'.sib.T? && p'.sib.n == w' && !IsRed(p'.sib)
      requires IsRed(p'.sib.r) && !IsRed(p'.sib.l)
      modifies this`root, nodes`right, nodes`left, nodes`parent, nodes`red
      ensures Deleting(temp, p, t, h) && p.Up? && !p.isLeft && p.up == p'.up && Seq(p, t) == Seq(p', t)
      ensures p.sib.T? && p.sib.n == w && !IsRed(p.sib) && IsRed(p.sib.l)
    {
      hide At, Lacking, Seq;
      LookBeside(temp, p', t, h);
      p := InnerNephew(p', t, h);
      MoveAcross(Mem(), root, sentinel, p', t);
      ghost var q := Across(p', t);
      MoveRight(Mem(), root, sentinel, q, p'.sib);
      PaintUp(Mem(), root, sentinel, Up(p'.sib.red, w', false, p'.sib.l, q), p'.sib.r, false, true);
      SetColor(w'.right, false);
      SetColor(w', true);
      TurnLeft(w', q, true, p'.sib.l, false, p'.sib.r.l, p'.sib.r.n, p'.sib.r.r);
      MoveAcross(Mem(), root, sentinel, q, p.sib);
      LookBeside(temp, p, t, h);
      w := temp.parent.left;
    }

    /** With a red outer nephew, a rotation of the parent completes the tree. */
    method DeleteOuterLeft(temp: Node, w: Node, ghost p: Path, ghost t: Tree, ghost h: int)
      returns (ghost whole: Tree, ghost h': int)
      requires Deleting(temp, p, t, h) && p.Up? && !p.isLeft && !IsRed(t)
      requires p.sib.T? && p.sib.n == w && !IsRed(p.sib) && IsRed(p.sib.l)
      modifies this`root, nodes`right, nodes`left, nodes`parent, nodes`red
      ensures Deleting(root, Top, whole, h') && !IsRed(whole) && Seq(Top, whole) == Seq(p, t)
    {
      hide At, Lacking, Seq, Turned, Wide, SetRed, Plug, Depth;
      LookBeside(temp, p, t, h);
      whole, h' := OuterNephew(p, t, h);
      PaintOuter(temp.parent, w, w.left, p, t);
      TurnRight(temp.parent, p.up, false, t, p.red, p.sib.r, w, Painted(p.sib.l, false));
      TopIsRoot(Mem(), root, sentinel, p.up, Turned(false, false, t, p.n, p.red, p.sib.r, w, Painted(p.sib.l, false)));
    }

    /** One round of the deletion loop at a right child. */
    method DeleteFixRight(temp': Node, ghost p': Path, ghost t': Tree, ghost h': int)
      returns (temp: Node, ghost p: Path, ghost t: Tree, ghost h: int)
      requires Deleting(temp', p', t', h') && p'.Up? && !p'.isLeft && !IsRed(t')
      modifies this`root, nodes`right, nodes`left, nodes`parent, nodes`red
      ensures Deleting(temp, p, t, h) && Seq(p, t) == Seq(p', t')
      ensures Rest(p, t) < Rest(p', t')
    {
      hide At, Lacking, Seq;
      temp, p, t, h := temp', p', t', h';
      SiblingIsThere(p, t, h);
      LookBeside(temp, p, t, h);
      var w := temp.parent.left;
      if w.red {
        w, p := DeleteRedLeft(temp, w, p, t, h);
        LookBeside(temp, p, t, h);
      }
      if !w.right.red && !w.left.red {
        temp, t, h := PushLackUp(temp, w, p, t, h);
        p := p.up;
      } else {
        if !w.left.red {
          w, p := DeleteInnerLeft(temp, w, p, t, h);
        }
        t, h := DeleteOuterLeft(temp, w, p, t, h);
        p := Top;
        temp := root;
      }
    }

    /** The deletion loop, from a subtree that lacks a black node. */
    method DeleteFixup(temp': Node, ghost p': Path, ghost t': Tree, ghost h': int)
      returns (ghost shape: Tree, ghost h: int)
      requires Deleting(temp', p', t', h')
      modifies this`root, nodes`left, nodes`right, nodes`parent, nodes`red
      ensures At(Mem(), root, sentinel, Top, shape) && RB(shape, h)
      ensures Inorder(shape) == Seq(p', t')
    {
      hide At, Lacking, Seq, RB;
      var temp := temp';
      ghost var p, t := p', t';
      h := h';
      Look(Mem(), root, sentinel, p, t);
      while temp != root && !temp.red
        invariant Deleting(temp, p, t, h) && Seq(p, t) == Seq(p', t')
        invariant (temp == root <==> p.Top?) && temp.red == IsRed(t)
        decreases Rest(p, t)
      {
        temp, p, t, h := DeleteRound(temp, p, t, h);
        Look(Mem(), root, sentinel, p, t);
      }
      Paint(Mem(), root, sentinel, p, t, false);
      SetColor(temp, false);
      MoveTop(Mem(), root, sentinel, p, Painted(t, false));
      shape := Plug(p, Painted(t, false));
      h := DeleteDone(p, t, h);
    }

    /** One round of the deletion loop. */
    method DeleteRound(temp': Node, ghost p': Path, ghost t': Tree, ghost h': int)
      returns (temp: Node, ghost p: Path, ghost t: Tree, ghost h: int)
      requires Deleting(temp', p', t', h') && p'.Up? && !IsRed(t')
      modifies this`root, nodes`left, nodes`right, nodes`parent, nodes`red
      ensures Deleting(temp, p, t, h) && Seq(p, t) == Seq(p', t')
      ensures Rest(p, t) < Rest(p', t')
    {
      hide At, Lacking, Seq, Rest;
      SiblingIsThere(p', t', h');
      LookBeside(temp', p', t', h');
      if temp' == temp'.parent.left {
        temp, p, t, h := DeleteFixLeft(temp', p', t', h');
      } else {
        temp, p, t, h := DeleteFixRight(temp', p', t', h');
      }
    }

    // ---------------------------------------------------------------- minimum and successor

    /** ngx_rbtree_min: the leftmost node of a subtree, and the way down to it. */
    method LeftmostOf(node': Node, ghost p: Path, ghost t': Tree) returns (node: Node, ghost q: Path, ghost t: Tree)
      requires At(Mem(), root, sentinel, p, t') && t'.T? && t'.n == node'
      ensures At(Mem(), root, sentinel, Below(q, p), t) && t.T? && t.n == node && node in nodes && t.l.Nil?
      ensures Plug(q, t) == t' && Before(q) == [] && Inorder(t') == [node] + Inorder(Plug(q, t.r))
    {
      hide At, Inorder;
      node, q, t := node', Top, t';
      ghost var m := Mem();
      LookDown(m, root, sentinel, p, t);
      while node.left != sentinel
        invariant At(m, root, sentinel, Below(q, p), t) && t.T? && t.n == node && node in nodes
        invariant node.left == Ptr(t.l, sentinel) && (node.left == sentinel <==> t.l.Nil?)
        invariant Plug(q, t) == t' && Before(q) == []
        decreases t
      {
        MoveLeft(m, root, sentinel, Below(q, p), t);
        q, t := Up(t.red, t.n, true, t.r, q), t.l;
        node := node.left;
        LookDown(m, root, sentinel, Below(q, p), t);
      }
      LeftmostFirst(q, t);
    }

    /** ngx_rbtree_min of the tree: the node of the earliest expiry. */
    method Min() returns (node: Node)
      requires Valid() && shape.T?
      ensures |Contents()| > 0 && node == Contents()[0]
      ensures forall base :: Ordered(base) ==>
        forall x :: x in Contents() ==> Off(base, node.key) <= Off(base, x.key)
    {
      ghost var q, t;
      Look(Mem(), root, sentinel, Top, shape);
      node, q, t := LeftmostOf(root, Top, shape);
      hide At, RB, Inorder, Sorted, Windowed, Off;
      forall base | Ordered(base)
        ensures forall x :: x in Contents() ==> Off(base, node.key) <= Off(base, x.key)
      {
        FirstIsEarliest(Mem(), Contents(), base);
      }
    }

    /** The nodes in the tree order are in the tree, and none is listed twice. */
    lemma Listed()
      requires Valid()
      ensures Once(Contents()) && forall i :: 0 <= i < |Contents()| ==> Contents()[i] in nodes - {sentinel}
    {
      InorderOnce(shape);
      NodesAreInorder(shape);
      forall i | 0 <= i < |Contents()|
        ensures Contents()[i] in nodes - {sentinel}
      {
        assert Contents()[i] in Elems(Contents());
      }
    }

    /** Starting at ngx_rbtree_min and going on by ngx_rbtree_next ends, and visits every
        node once, in order. */
    method Traverse() returns (visited: seq<Node>)
      requires Valid() && shape.T?
      ensures visited == Contents()
    {
      var node := Min();
      visited := [node];
      Listed();
      ghost var q := Contents();
      hide Valid, Contents, Once, Follows;
      while true
        invariant 0 < |visited| <= |q| && visited == q[..|visited|]
        invariant node == q[|visited| - 1]
        decreases |q| - |visited|
      {
        ghost var k := |visited| - 1;
        var next := Next(node);
        FollowsAt(q, k, next);
        if next == null {
          return;
        }
        visited := visited + [next];
        node := next;
      }
    }

    /** ngx_rbtree_next: the node behind `node`, or NULL behind the last one. */
    method Next(node: Node) returns (next: Node?)
      requires Valid() && node in nodes && node != sentinel
      ensures Follows(Contents(), node, next)
    {
      ghost var m := Mem();
      ghost var p, t := Locate(node);
      ghost var before, after := Before(p) + Inorder(t.l), Inorder(t.r) + After(p);
      hide At, RB, Inorder, Seq;
      FollowsHere(Contents(), before, node, after);
      LookDown(m, root, sentinel, p, t);
      if node.right != sentinel {
        MoveRight(m, root, sentinel, p, t);
        ghost var q, u;
        next, q, u := LeftmostOf(node.right, Up(t.red, t.n, false, t.l, p), t.r);
        assert after[0] == next;
        return;
      }
      next := Ascend(node, p, t);
    }

    /** The loop of ngx_rbtree_next: up to the first parent whose left child we come from. */
    method Ascend(node': Node, ghost p': Path, ghost t': Tree) returns (next: Node?)
      requires At(Mem(), root, sentinel, p', t') && t'.T? && t'.n == node'
      ensures next == if After(p') == [] then null else After(p')[0]
    {
      hide At;
      var node := node';
      ghost var p, t := p', t';
      LookAtParent(p, t);
      while true
        invariant At(Mem(), root, sentinel, p, t) && t.T? && t.n == node && node in nodes
        invariant After(p) == After(p')
        decreases p
      {
        var parent := node.parent;
        LookAtParent(p, t);
        if node == root {
          return null;
        }
        LookUp(Mem(), root, sentinel, p, t);
        if node == parent.left {
          return parent;
        }
        MoveUp(Mem(), root, sentinel, p, t);
        node := parent;
        p, t := p.up, Mk(p.red, p.isLeft, p.n, p.sib, t);
      }
    }

    // ---------------------------------------------------------------- taking nodes out

    /** The parent of subst gets temp for a child instead. */
    method Unhook(subst: Node, temp: Node)
      requires subst in nodes && subst.parent != null && subst.parent in nodes
      modifies subst.parent`left, subst.parent`right
      ensures var m := old(Mem());
        Mem() == m[old(subst.parent) := SetChild(m[old(subst.parent)], old(subst.parent.left) == subst, temp)]
    {
      if subst == subst.parent.left {
        subst.parent.left := temp;
      } else {
        subst.parent.right := temp;
      }
    }

    /** A node with at most one child is unlinked. */
    method DetachSelf(node: Node, temp: Node, ghost p: Path, ghost t: Tree, ghost y: Tree)
      requires At(Mem(), root, sentinel, p, t) && OnlyChild(t, y) && t.n == node && p.Up?
      requires temp == Ptr(y, sentinel)
      modifies nodes`left, nodes`right, nodes`parent
      ensures At(Mem(), root, sentinel, p, y) && temp in nodes && sentinel in nodes
      ensures y.Nil? ==> sentinel.parent == p.n
      ensures node !in PathNodes(p) && node !in Nodes(y)
    {
      hide At, Nodes, PathNodes, SetChild;
      UnlinkReads(Mem(), root, sentinel, p, t, y);
      UnlinkStep(Mem(), root, sentinel, p, t, y);
      Unhook(node, temp);
      HangBelow(temp, node.parent);
    }

    /** The links and the colour of node are copied to subst. */
    method CopyLinks(node: Node, subst: Node)
      requires {node, subst} <= nodes
      modifies subst`left, subst`right, subst`parent, subst`red
      ensures Mem() == old(Mem()[subst := Mem()[node].(key := subst.key)])
    {
      subst.left := node.left;
      subst.right := node.right;
      subst.parent := node.parent;
      subst.red := node.red;
    }

    /** The neighbours of node point to subst. */
    method TakeOver(node: Node, subst: Node)
      requires {node, subst, sentinel} <= nodes && node != subst && node != sentinel && subst != sentinel
      requires node.left != null && node.left in nodes && node.left !in {node, subst, sentinel}
      requires node.right != null && node.right in nodes && node.right !in {node, subst, node.left}
      requires node != root ==> node.parent != null && node.parent in nodes
      requires node != root ==> node.parent !in {node, subst, sentinel, node.left, node.right}
      modifies this`root, nodes`left, nodes`right, nodes`parent, nodes`red
      ensures root == if node == old(root) then subst else old(root)
      ensures forall x :: x in nodes ==> Mem()[x] == TakenCell(old(Mem()), old(root), sentinel, node, subst, x)
    {
      ghost var m := Mem();
      CopyLinks(node, subst);
      HookAbove(node, subst);
      ghost var m1 := Mem();
      assert m1[subst].left == m[node].left && m1[subst].right == m[node].right;
      HookBelow(subst);
      TakenInSteps(m, m1, Mem(), old(root), sentinel, node, subst);
    }

    /** The children of subst point up to it. */
    method HookBelow(subst: Node)
      requires subst in nodes && subst.left != null && subst.left in nodes && subst.right != null
      requires subst.right in nodes
      modifies nodes`parent
      ensures forall x :: x in nodes ==>
        Mem()[x] == if x != sentinel && (x == old(subst.left) || x == old(subst.right))
                    then old(Mem())[x].(parent := subst) else old(Mem())[x]
    {
      if subst.left != sentinel {
        subst.left.parent := subst;
      }
      if subst.right != sentinel {
        subst.right.parent := subst;
      }
    }

    /** The parent of node, or the root pointer, points to subst. */
    method HookAbove(node: Node, subst: Node)
      requires {node, subst} <= nodes
      requires node != root ==> node.parent != null && node.parent in nodes
      modifies this`root, nodes`left, nodes`right
      ensures root == if node == old(root) then subst else old(root)
      ensures node == old(root) ==> Mem() == old(Mem())
      ensures node != old(root) ==>
        var m, parent := old(Mem()), old(node.parent);
        Mem() == m[parent := SetChild(m[parent], m[parent].left == node, subst)]
    {
      if node == root {
        root := subst;
      } else {
        if node == node.parent.left {
          node.parent.left := subst;
        } else {
          node.parent.right := subst;
        }
      }
    }

    /** A node with two children gives its place to its successor, the root of t. */
    method DetachSuccessor(node: Node, subst: Node, temp: Node, ghost p: Path, ghost red: bool,
                           ghost l: Tree, ghost q: Path, ghost t: Tree)
      returns (ghost p': Path)
      requires At(Mem(), root, sentinel, Below(q, Up(red, node, false, l, p)), t)
      requires t.T? && t.n == subst && t.l.Nil? && l.T? && temp == Ptr(t.r, sentinel)
      modifies this`root, nodes`left, nodes`right, nodes`parent, nodes`red
      ensures p' == Below(q, Up(red, subst, false, l, p))
      ensures At(Mem(), root, sentinel, p', t.r) && temp in nodes && sentinel in nodes
      ensures t.r.Nil? ==> sentinel.parent == p'.n
      ensures node !in PathNodes(p') && node !in Nodes(t.r)
    {
      hide At, Nodes, PathNodes, Sep, Below, TakenCell;
      ghost var ps := Below(q, Up(red, node, false, l, p));
      ghost var m := Mem();
      BelowTop(q, red, node, l, p);
      UnlinkReads(m, root, sentinel, ps, t, t.r);
      UnlinkStep(m, root, sentinel, ps, t, t.r);
      ghost var m1 := m[ps.n := SetChild(m[ps.n], ps.isLeft, temp)];
      ghost var v := SetParent(m1, temp, ps.n);
      SuccessorGone(m, root, sentinel, p, red, l, node, q, t);
      SuccessorIsOther(m, root, sentinel, q, red, node, l, p, t);
      Reattach(subst, node, temp);
      SetTwice(m1, temp, ps.n, if q.Top? then subst else q.n);
      hide SetParent, SetChild;
      PutInPlace(node, subst, v, p, red, l, q, t);
      p' := Below(q, Up(red, subst, false, l, p));
    }

    /** The unlinked successor takes over the place of node; v is the memory in which the
        subtree that moved up has the successor's old parent. */
    method PutInPlace(node: Node, subst: Node, ghost v: Memory, ghost p: Path, ghost red: bool, ghost l: Tree,
                      ghost q: Path, ghost t: Tree)
      requires t.T? && At(v, root, sentinel, Below(q, Up(red, node, false, l, p)), t.r)
      requires t.n == subst && l.T? && Sep(sentinel, Below(q, Up(red, node, false, l, p)), t)
      requires {node, subst, Ptr(t.r, sentinel)} <= v.Keys && (t.r.T? && q.Up? ==> v[t.r.n].parent == q.n)
      requires Mem() == SetParent(v, Ptr(t.r, sentinel), if q.Top? then subst else q.n)
      modifies this`root, nodes`left, nodes`right, nodes`parent, nodes`red
      ensures var p' := Below(q, Up(red, subst, false, l, p));
        At(Mem(), root, sentinel, p', t.r) && sentinel in nodes && p'.Up? && (t.r.Nil? ==> sentinel.parent == p'.n)
    {
      hide At, Sep, Below, TakenCell;
      ghost var u := Mem();
      SuccessorReads(v, root, sentinel, p, red, l, node, q, t);
      SetTwice(v, Ptr(t.r, sentinel), subst, if q.Top? then subst else q.n);
      assert nodes == u.Keys && u.Keys == v.Keys;
      TakeOver(node, subst);
      SuccessorCode(v, u, Mem(), old(root), sentinel, p, red, l, node, q, t);
    }

    /** The successor's parent takes over its child, and the child learns where it will be. */
    method Reattach(subst: Node, node: Node, temp: Node)
      requires {subst, temp} <= nodes && temp != subst && temp != subst.parent
      requires subst.parent != null && subst.parent in nodes && subst.parent != subst
      modifies nodes`left, nodes`right, nodes`parent
      ensures var m, parent := old(Mem()), old(subst.parent);
        Mem() == SetParent(m[parent := SetChild(m[parent], m[parent].left == subst, temp)],
                           temp, if parent == node then subst else parent)
    {
      Unhook(subst, temp);
      if subst.parent == node {
        HangBelow(temp, subst);
      } else {
        HangBelow(temp, subst.parent);
      }
    }

    /** The node that is unlinked: the given one, or its successor if it has two children. */
    method Choose(node: Node, ghost p: Path, ghost t: Tree)
      returns (subst: Node, temp: Node, ghost ps: Path, ghost ts: Tree, ghost y: Tree, ghost q: Path)
      requires At(Mem(), root, sentinel, p, t) && t.T? && t.n == node
      ensures At(Mem(), root, sentinel, ps, ts) && OnlyChild(ts, y) && ts.n == subst && temp == Ptr(y, sentinel)
      ensures subst in nodes && temp in nodes && subst.red == ts.red && (subst == root <==> ps.Top?)
      ensures subst == node ==> ps == p && ts == t
      ensures subst != node ==>
        && t.l.T? && ps == Below(q, Up(t.red, node, false, t.l, p)) && ps.Up?
        && ts.l.Nil? && y == ts.r && Plug(q, ts) == t.r && Before(q) == []
    {
      hide At, Inorder, Plug, Below, Before;
      ghost var m := Mem();
      LookDown(m, root, sentinel, p, t);
      q := Top;
      if node.left == sentinel {
        temp, subst := node.right, node;
        ps, ts, y := p, t, t.r;
      } else if node.right == sentinel {
        temp, subst := node.left, node;
        ps, ts, y := p, t, t.l;
      } else {
        MoveRight(m, root, sentinel, p, t);
        subst, q, ts := LeftmostOf(node.right, Up(t.red, node, false, t.l, p), t.r);
        ps, y := Below(q, Up(t.red, node, false, t.l, p)), ts.r;
        BelowTop(q, t.red, node, t.l, p);
        LookDown(m, root, sentinel, ps, ts);
        var left, right := subst.left, subst.right;
        var child: Node? := if left != sentinel then left else right;
        temp := child;
        SuccessorIsOther(m, root, sentinel, q, t.red, node, t.l, p, ts);
      }
      LookAtParent(ps, ts);
    }

    /** The tree without its root, which had at most one child. */
    method RemoveRoot(temp: Node, ghost t: Tree, ghost y: Tree)
      requires At(Mem(), root, sentinel, Top, t) && OnlyChild(t, y) && temp == Ptr(y, sentinel)
      modifies this`root, nodes`red
      ensures At(Mem(), root, sentinel, Top, Painted(y, false))
      ensures t.n !in Nodes(Painted(y, false))
    {
      ghost var m := Mem();
      LookDown(m, root, sentinel, Top, t);
      UnlinkApart(sentinel, Top, t, y);
      Unlink(m, m, root, sentinel, Top, t, y);
      hide At;
      root := temp;
      Paint(m, root, sentinel, Top, y, false);
      SetColor(temp, false);
    }

    /** The whole removal of the root. */
    method RemoveRootNode(node: Node, temp: Node, ghost t: Tree, ghost y: Tree)
      requires t.T? && At(Mem(), root, sentinel, Top, t) && OnlyChild(t, y) && temp == Ptr(y, sentinel)
      requires RB(Plug(Top, t), height)
      requires node == t.n && node in nodes && node != sentinel && sentinel in nodes
      modifies this, nodes`left, nodes`right, nodes`parent, nodes`red, node`key
      ensures nodes == old(nodes) - {node} && Wiped(node)
      ensures At(Mem(), root, sentinel, Top, shape) && RB(shape, height)
      ensures Inorder(shape) == (Before(Top) + Inorder(t.l)) + (Inorder(t.r) + After(Top))
      ensures node !in Elems(Inorder(shape))
    {
      hide At, RB, Removed, Nodes, Inorder, OnlyChild, Seq, Before, After, Plug;
      ghost var h := SelfRemoved(Top, t, y, height);
      RemoveRoot(temp, t, y);
      shape := Painted(y, false);
      GoneFromTree(shape, node);
      ForgetNode(Mem(), root, sentinel, Top, shape, node);
      Wipe(node);
      height := RootRemoved(t.red, y, h);
    }

    ghost predicate Wiped(node: Node)
      reads node
    {
      node.left == null && node.right == null && node.parent == null && node.key == 0
    }

    /** The links and the key of a node that has left the tree are wiped. */
    method Wipe(node: Node)
      requires node in nodes
      modifies this`nodes, node`left, node`right, node`parent, node`key
      ensures nodes == old(nodes) - {node} && Mem() == old(Mem()) - {node}
      ensures Wiped(node)
    {
      node.left := null;
      node.right := null;
      node.parent := null;
      node.key := 0;
      nodes := nodes - {node};
    }

    /** The node leaves the place where it was found. */
    method Detach(node: Node, subst: Node, temp: Node, ghost p: Path, ghost t: Tree,
                  ghost ps: Path, ghost ts: Tree, ghost y: Tree, ghost q: Path)
      returns (ghost p': Path, ghost h: int)
      requires At(Mem(), root, sentinel, p, t) && t.T? && t.n == node && RB(Plug(p, t), height)
      requires At(Mem(), root, sentinel, ps, ts) && OnlyChild(ts, y) && ts.n == subst && temp == Ptr(y, sentinel)
      requires ps.Up? && (subst == node ==> ps == p && ts == t)
      requires subst != node ==>
        && t.l.T? && ps == Below(q, Up(t.red, node, false, t.l, p))
        && ts.l.Nil? && y == ts.r && Plug(q, ts) == t.r && Before(q) == []
      modifies this`root, nodes`left, nodes`right, nodes`parent, nodes`red
      ensures At(Mem(), root, sentinel, p', y) && Removed(ts.red, p', y, h)
      ensures temp in nodes && sentinel in nodes && (p'.Up? && y.Nil? ==> sentinel.parent == p'.n)
      ensures Seq(p', y) == (Before(p) + Inorder(t.l)) + (Inorder(t.r) + After(p))
      ensures node !in PathNodes(p') && node !in Nodes(y)
    {
      hide At, RB, Removed, Seq, Before, After, Inorder, Plug, PathNodes, Nodes, Below;
      if subst == node {
        h := SelfRemoved(p, t, y, height);
        p' := p;
        DetachSelf(node, temp, p, t, y);
      } else {
        h := SuccessorRemoved(p, t, q, ts, height);
        p' := DetachSuccessor(node, subst, temp, p, t.red, t.l, q, ts);
      }
    }

    /** The node is wiped, and the rules are repaired if a black node has gone. */
    method Mend(node: Node, temp: Node, red: bool, ghost p: Path, ghost y: Tree, ghost h': int)
      returns (ghost shape: Tree, ghost h: int)
      requires At(Mem(), root, sentinel, p, y) && Removed(red, p, y, h')
      requires temp in nodes && temp == Ptr(y, sentinel) && sentinel in nodes
      requires p.Up? && y.Nil? ==> sentinel.parent == p.n
      requires node in nodes && node != sentinel && node !in PathNodes(p) && node !in Nodes(y)
      modifies this`root, this`nodes, nodes`left, nodes`right, nodes`parent, nodes`red, node`key
      ensures nodes == old(nodes) - {node} && Wiped(node)
      ensures At(Mem(), root, sentinel, Top, shape) && RB(shape, h) && Inorder(shape) == Seq(p, y)
    {
      hide RB, Seq, Inorder, Plug, Lacking;
      PtrIsOther(y, sentinel, node);
      ForgetNode(Mem(), root, sentinel, p, y, node);
      hide At;
      Wipe(node);
      if red {
        h := RedRemoved(p, y, h');
        shape := Plug(p, y);
        MoveTop(Mem(), root, sentinel, p, y);
        return;
      }
      shape, h := DeleteFixup(temp, p, y, h');
    }

    /** ngx_rbtree_delete: a red-black tree again, and exactly `node` is gone from its order. */
    method Delete(node: Node, ghost base: nat) returns (ghost before: seq<Node>, ghost after: seq<Node>)
      requires Valid() && node in nodes && node != sentinel
      modifies this, nodes
      ensures Valid() && nodes == old(nodes) - {node} && Wiped(node)
      ensures old(Contents()) == before + [node] + after && Contents() == before + after
      ensures forall x :: x in nodes ==> x.key == old(x.key)
      ensures old(Ordered(base)) ==> Ordered(base)
    {
      hide At, RB, Before, After, Inorder, Plug, Nodes, Sorted, Windowed, Off;
      ghost var m, whole := Mem(), shape;
      ghost var p, t := Locate(node);
      before, after := Before(p) + Inorder(t.l), Inorder(t.r) + After(p);
      DeleteNode(node, p, t);
      NodesAround(whole, shape, before, node, after);
      NodesAreInorder(shape);
      RemoveOrder(m, Mem(), before, node, after, base);
    }

    /** Where a node of the tree is, and the order around it. */
    lemma Locate(node: Node) returns (p: Path, t: Tree)
      requires Valid() && node in nodes && node != sentinel
      ensures At(Mem(), root, sentinel, p, t) && t.T? && t.n == node && Plug(p, t) == shape
      ensures Contents() == (Before(p) + Inorder(t.l)) + [node] + (Inorder(t.r) + After(p))
    {
      p, t := Find(Mem(), root, sentinel, Top, shape, node);
      hide At, RB;
      Around(p, t, shape);
    }

    method DeleteNode(node: Node, ghost p: Path, ghost t: Tree)
      requires At(Mem(), root, sentinel, p, t) && RB(Plug(p, t), height) && t.T? && t.n == node
      requires node in nodes && node != sentinel && sentinel in nodes
      modifies this, nodes`left, nodes`right, nodes`parent, nodes`red, node`key
      ensures nodes == old(nodes) - {node} && Wiped(node)
      ensures At(Mem(), root, sentinel, Top, shape) && RB(shape, height)
      ensures Inorder(shape) == (Before(p) + Inorder(t.l)) + (Inorder(t.r) + After(p))
      ensures node !in Elems(Inorder(shape))
    {
      hide At, RB, Seq, Before, After, Inorder, Plug, PathNodes, Nodes, Removed, Below;
      var subst, temp;
      ghost var ps, ts, y, q;
      subst, temp, ps, ts, y, q := Choose(node, p, t);
      if subst == root {
        RemoveRootNode(node, temp, t, y);
        return;
      }
      var red := subst.red;
      ghost var p', h := Detach(node, subst, temp, p, t, ps, ts, y, q);
      GoneFromOrder(p', y, node);
      shape, height := Mend(node, temp, red, p', y, h);
    }
  }

  /** y is what follows x in q, NULL if x is the last. */
  ghost predicate Follows(q: seq<Node>, x: Node, y: Node?) {
    exists i :: 0 <= i < |q| && q[i] == x && y == if i + 1 < |q| then q[i + 1] else null
  }

  lemma FollowsHere(q: seq<Node>, before: seq<Node>, x: Node, after: seq<Node>)
    requires q == before + [x] + after
    ensures Follows(q, x, if after == [] then null else after[0])
  {
    var i := |before|;
    assert q[i] == x;
    if after == [] {
      assert |q| == i + 1;
    } else {
      assert q[i + 1] == after[0];
      assert i + 1 < |q|;
    }
  }

  ghost predicate Once(q: seq<Node>) {
    forall i, j :: 0 <= i < j < |q| ==> q[i] != q[j]
  }

  /** Where the node after q[k] is. */
  lemma FollowsAt(q: seq<Node>, k: nat, y: Node?)
    requires Once(q) && k < |q| && Follows(q, q[k], y)
    ensures y == if k + 1 < |q| then q[k + 1] else null
  {
    var i :| 0 <= i < |q| && q[i] == q[k] && y == if i + 1 < |q| then q[i + 1] else null;
    assert i == k;
  }

  /** Every walk from the minimum by ngx_rbtree_next is a beginning of the order; and it has
      visited every node exactly when the next call gives NULL. */
  lemma {:induction false} WalkVisitsAll(t: Tree, walk: seq<Node>)
    requires Distinct(t) && |walk| > 0 && [walk[0]] <= Inorder(t)
    requires forall i :: 0 <= i < |walk| - 1 ==> Follows(Inorder(t), walk[i], walk[i + 1])
    ensures walk <= Inorder(t)
    ensures Follows(Inorder(t), walk[|walk| - 1], null) <==> walk == Inorder(t)
    decreases |walk|
  {
    var q, k := Inorder(t), |walk| - 1;
    InorderOnce(t);
    assert Once(q);
    hide Follows;
    if k > 0 {
      var start := walk[..k];
      forall i | 0 <= i < |start| - 1
        ensures Follows(q, start[i], start[i + 1])
      {
        assert Follows(q, walk[i], walk[i + 1]);
      }
      WalkVisitsAll(t, start);
      assert start[k - 1] == q[k - 1] && Follows(q, walk[k - 1], walk[k]);
      FollowsAt(q, k - 1, walk[k]);
    }
    assert walk[k] == q[k];
    if Follows(q, q[k], null) {
      FollowsAt(q, k, null);
    } else if k + 1 == |q| {
      FollowsHere(q, q[..k], q[k], []);
    }
  }

  /** In an ordered tree the first node is the earliest expiry. */
  lemma FirstIsEarliest(m: Memory, q: seq<Node>, base: nat)
    requires Sorted(m, q, base) && |q| > 0
    ensures forall x :: x in q ==> q[0] in m && x in m && Off(base, m[q[0]].key) <= Off(base, m[x].key)
  {
    forall x | x in q
      ensures q[0] in m && x in m && Off(base, m[q[0]].key) <= Off(base, m[x].key)
    {
      var i :| 0 <= i < |q| && q[i] == x;
      assert q[0] in q;
    }
  }
}
