/** Left and right rotations on the pointer structure. */
module RbRotate {
  import opened RbShape
  import opened RbHeap

  /** Redirects the pointer that leads to `node`, in its parent or in the tree object. */
  method Redirect(tr: RbTree, node: Node, to: Node, ghost p: Path)
    requires node == tr.root <==> p.Top?
    requires !p.Top? ==> node.parent == p.node && (node == p.node.left <==> p.InLeft?)
    modifies tr`root, (if p.Top? then {} else {p.node})`left, (if p.Top? then {} else {p.node})`right
    ensures tr.root == if p.Top? then to else old(tr.root)
    ensures p.InLeft? ==> p.node.left == to && p.node.right == old(p.node.right)
    ensures p.InRight? ==> p.node.right == to && p.node.left == old(p.node.left)
  {
    if node == tr.root {
      tr.root := to;
    } else if node == node.parent.left {
      node.parent.left := to;
    } else {
      node.parent.right := to;
    }
  }

  lemma {:induction false} LeftRotateSub(t: Tree, h: Cells, h': Cells, s: Node)
    requires t.Fork? && t.right.Fork? && Distinct(t) && Rep(t, h, t.node, s)
    requires Nodes(t) <= h.Keys && Nodes(t) <= h'.Keys
    requires var x, y := t.node, t.right.node;
      && x in h' && y in h' && h'[x] == h[x].(right := h[y].left, parent := y)
      && h'[y] == h[y].(left := x, parent := h'[y].parent)
    requires forall n <- Nodes(t.left) :: h'[n] == h[n]
    requires forall n <- Nodes(t.right.left) ::
      h'[n] == if n == Ptr(t.right.left, s) then h[n].(parent := t.node) else h[n]
    requires forall n <- Nodes(t.right.right) :: h'[n] == h[n]
    ensures Rep(RotatedLeft(t), h', t.right.node, s)
  {
    var x, y := t.node, t.right.node;
    assert Rep(t.right, h, y, s) && Distinct(t.right);
    RepPtr(t.right.left, h, h[y].left, s);
    RepFrame(t.left, h, h', h[x].left, s);
    RepFrame(t.right.left, h, h', h[y].left, s);
    RepFrame(t.right.right, h, h', h[y].right, s);
    assert Rep(RotatedLeft(t).left, h', x, s);
  }

  /** The field updates of a left rotation of the subtree `t` in the hole of `p`. */
  ghost predicate LeftRotatedCells(p: Path, t: Tree, h: Cells, h': Cells)
    requires t.Fork? && t.right.Fork?
  {
    var x, y, b := t.node, t.right.node, t.right.left;
    && h'.Keys == h.Keys && x in h && y in h && (b.Fork? ==> b.node in h) && (!p.Top? ==> p.node in h)
    && h'[x] == h[x].(right := h[y].left, parent := y)
    && h'[y] == h[y].(left := x, parent := h[x].parent)
    && (b.Fork? ==> h'[b.node] == h[b.node].(parent := x))
    && (p.InLeft? ==> h'[p.node] == h[p.node].(left := y))
    && (p.InRight? ==> h'[p.node] == h[p.node].(right := y))
    && forall n <- h.Keys ::
         n == x || n == y || (b.Fork? && n == b.node) || (!p.Top? && n == p.node) || h'[n] == h[n]
  }

  lemma {:induction false} LeftRotateApart(p: Path, t: Tree, h: Cells, h': Cells, s: Node)
    requires t.Fork? && t.right.Fork? && s !in Nodes(Plug(p, t)) && Distinct(Plug(p, t))
    requires Nodes(Plug(p, t)) == h.Keys && LeftRotatedCells(p, t, h, h')
    ensures Nodes(t) <= h.Keys && PathNodes(p) <= h.Keys
    ensures forall n <- Nodes(t.left) :: n in h && h'[n] == h[n]
    ensures forall n <- Nodes(t.right.left) ::
      n in h && h'[n] == if n == Ptr(t.right.left, s) then h[n].(parent := t.node) else h[n]
    ensures forall n <- Nodes(t.right.right) :: n in h && h'[n] == h[n]
    ensures t.node != t.right.node
    ensures forall n <- PathNodes(p) :: n != t.node && n != t.right.node && n != Ptr(t.right.left, s)
    ensures !p.Top? ==> p.node in PathNodes(p)
  {
    NodesPlug(p, t);
    assert Distinct(t.right);
    assert Nodes(t.right) == Nodes(t.right.left) + {t.right.node} + Nodes(t.right.right);
  }

  lemma {:induction false} LeftRotateRep(p: Path, t: Tree, h: Cells, h': Cells, root: Node?, root': Node?, s: Node)
    requires t.Fork? && t.right.Fork? && s !in Nodes(Plug(p, t)) && Distinct(Plug(p, t))
    requires Nodes(Plug(p, t)) == h.Keys && LeftRotatedCells(p, t, h, h')
    requires Represents(Plug(p, t), h, root, s)
    requires root' == if p.Top? then t.right.node else root
    ensures Represents(Plug(p, RotatedLeft(t)), h', root', s)
  {
    LeftRotateApart(p, t, h, h', s);
    assert Rep(t, h, t.node, s) && Distinct(t) && DistinctPath(p)
        && (!p.Top? ==> h[t.node].parent == p.node) by {
      NodesPlug(p, t);
      RepPlug(p, t, h, root, s);
    }
    LeftRotateSub(t, h, h', s);
    RepReplace(p, t, RotatedLeft(t), h, h', root, root', s);
  }

  /** What a left rotation of `t` reads: the pointers between its nodes and the hole's owner. */
  ghost predicate LeftRotatable(tr: RbTree, p: Path, t: Tree, ns: set<Node>)
    requires t.Fork? && t.right.Fork?
    reads tr, ns
  {
    var x, y, b, s := t.node, t.right.node, t.right.left, tr.sentinel;
    && x in ns && y in ns && x != y && x.right == y && y.left == Ptr(b, s)
    && (b.Fork? ==> b.node in ns && b.node != x && b.node != y && b.node != s)
    && (x == tr.root <==> p.Top?)
    && (!p.Top? ==> && p.node in ns && p.node != x && p.node != y && p.node != Ptr(b, s)
                    && x.parent == p.node && (x == p.node.left <==> p.InLeft?))
  }

  lemma {:induction false} LinkedLeftRotatable(tr: RbTree, p: Path, t: Tree)
    requires tr.Linked() && tr.shape == Plug(p, t)
    requires t.Fork? && t.right.Fork?
    ensures LeftRotatable(tr, p, t, Nodes(tr.shape))
  {
    tr.Focus(p, t);
    assert Distinct(t.right);
    assert Nodes(t.right) == Nodes(t.right.left) + {t.right.node} + Nodes(t.right.right);
    tr.Focus(InRight(p, t.left, t.node, t.red), t.right);
  }

  method LeftRotatePointers(tr: RbTree, node: Node, ghost p: Path, ghost t: Tree, ghost ns: set<Node>)
    requires t.Fork? && t.node == node && t.right.Fork? && LeftRotatable(tr, p, t, ns)
    modifies tr`root, ns`left, ns`right, ns`parent
    ensures LeftRotatedCells(p, t, old(View(ns)), View(ns))
    ensures tr.root == if p.Top? then t.right.node else old(tr.root)
  {
    var temp := node.right;
    node.right := temp.left;
    if temp.left != tr.sentinel {
      temp.left.parent := node;
    }
    temp.parent := node.parent;
    Redirect(tr, node, temp, p);
    temp.left := node;
    node.parent := temp;
  }

  method LeftRotate(tr: RbTree, node: Node, ghost p: Path, ghost t: Tree)
    requires tr.Linked() && tr.shape == Plug(p, t)
    requires t.Fork? && t.node == node && t.right.Fork?
    modifies tr`root, tr`shape, Nodes(tr.shape)`left, Nodes(tr.shape)`right, Nodes(tr.shape)`parent
    ensures tr.Linked() && tr.shape == Plug(p, RotatedLeft(t))
    ensures InOrder(tr.shape) == old(InOrder(tr.shape)) && Nodes(tr.shape) == old(Nodes(tr.shape))
  {
    ghost var h, ns, r := View(Nodes(tr.shape)), Nodes(tr.shape), tr.root;
    LinkedLeftRotatable(tr, p, t);
    RotatedLeftSame(t);
    SameNodes(p, t, RotatedLeft(t));
    tr.shape := Plug(p, RotatedLeft(t));
    LeftRotatePointers(tr, node, p, t, ns);
    LeftRotateRep(p, t, h, View(ns), r, tr.root, tr.sentinel);
  }

  lemma {:induction false} RightRotateSub(t: Tree, h: Cells, h': Cells, s: Node)
    requires t.Fork? && t.left.Fork? && Distinct(t) && Rep(t, h, t.node, s)
    requires Nodes(t) <= h.Keys && Nodes(t) <= h'.Keys
    requires var x, y := t.node, t.left.node;
      && x in h' && y in h' && h'[x] == h[x].(left := h[y].right, parent := y)
      && h'[y] == h[y].(right := x, parent := h'[y].parent)
    requires forall n <- Nodes(t.right) :: h'[n] == h[n]
    requires forall n <- Nodes(t.left.right) ::
      h'[n] == if n == Ptr(t.left.right, s) then h[n].(parent := t.node) else h[n]
    requires forall n <- Nodes(t.left.left) :: h'[n] == h[n]
    ensures Rep(RotatedRight(t), h', t.left.node, s)
  {
    var x, y := t.node, t.left.node;
    assert Rep(t.left, h, y, s) && Distinct(t.left);
    RepPtr(t.left.right, h, h[y].right, s);
    RepFrame(t.right, h, h', h[x].right, s);
    RepFrame(t.left.right, h, h', h[y].right, s);
    RepFrame(t.left.left, h, h', h[y].left, s);
    assert Rep(RotatedRight(t).right, h', x, s);
  }

  /** The field updates of a right rotation of the subtree `t` in the hole of `p`. */
  ghost predicate RightRotatedCells(p: Path, t: Tree, h: Cells, h': Cells)
    requires t.Fork? && t.left.Fork?
  {
    var x, y, b := t.node, t.left.node, t.left.right;
    && h'.Keys == h.Keys && x in h && y in h && (b.Fork? ==> b.node in h) && (!p.Top? ==> p.node in h)
    && h'[x] == h[x].(left := h[y].right, parent := y)
    && h'[y] == h[y].(right := x, parent := h[x].parent)
    && (b.Fork? ==> h'[b.node] == h[b.node].(parent := x))
    && (p.InRight? ==> h'[p.node] == h[p.node].(right := y))
    && (p.InLeft? ==> h'[p.node] == h[p.node].(left := y))
    && forall n <- h.Keys ::
         n == x || n == y || (b.Fork? && n == b.node) || (!p.Top? && n == p.node) || h'[n] == h[n]
  }

  lemma {:induction false} RightRotateApart(p: Path, t: Tree, h: Cells, h': Cells, s: Node)
    requires t.Fork? && t.left.Fork? && s !in Nodes(Plug(p, t)) && Distinct(Plug(p, t))
    requires Nodes(Plug(p, t)) == h.Keys && RightRotatedCells(p, t, h, h')
    ensures Nodes(t) <= h.Keys && PathNodes(p) <= h.Keys
    ensures forall n <- Nodes(t.right) :: n in h && h'[n] == h[n]
    ensures forall n <- Nodes(t.left.right) ::
      n in h && h'[n] == if n == Ptr(t.left.right, s) then h[n].(parent := t.node) else h[n]
    ensures forall n <- Nodes(t.left.left) :: n in h && h'[n] == h[n]
    ensures t.node != t.left.node
    ensures forall n <- PathNodes(p) :: n != t.node && n != t.left.node && n != Ptr(t.left.right, s)
    ensures !p.Top? ==> p.node in PathNodes(p)
  {
    NodesPlug(p, t);
    assert Distinct(t.left);
    assert Nodes(t.left) == Nodes(t.left.right) + {t.left.node} + Nodes(t.left.left);
  }

  lemma {:induction false} RightRotateRep(p: Path, t: Tree, h: Cells, h': Cells, root: Node?, root': Node?, s: Node)
    requires t.Fork? && t.left.Fork? && s !in Nodes(Plug(p, t)) && Distinct(Plug(p, t))
    requires Nodes(Plug(p, t)) == h.Keys && RightRotatedCells(p, t, h, h')
    requires Represents(Plug(p, t), h, root, s)
    requires root' == if p.Top? then t.left.node else root
    ensures Represents(Plug(p, RotatedRight(t)), h', root', s)
  {
    RightRotateApart(p, t, h, h', s);
    assert Rep(t, h, t.node, s) && Distinct(t) && DistinctPath(p)
        && (!p.Top? ==> h[t.node].parent == p.node) by {
      NodesPlug(p, t);
      RepPlug(p, t, h, root, s);
    }
    RightRotateSub(t, h, h', s);
    RepReplace(p, t, RotatedRight(t), h, h', root, root', s);
  }

  /** What a right rotation of `t` reads: the pointers between its nodes and the hole's owner. */
  ghost predicate RightRotatable(tr: RbTree, p: Path, t: Tree, ns: set<Node>)
    requires t.Fork? && t.left.Fork?
    reads tr, ns
  {
    var x, y, b, s := t.node, t.left.node, t.left.right, tr.sentinel;
    && x in ns && y in ns && x != y && x.left == y && y.right == Ptr(b, s)
    && (b.Fork? ==> b.node in ns && b.node != x && b.node != y && b.node != s)
    && (x == tr.root <==> p.Top?)
    && (!p.Top? ==> && p.node in ns && p.node != x && p.node != y && p.node != Ptr(b, s)
                    && x.parent == p.node && (x == p.node.left <==> p.InLeft?))
  }

  lemma {:induction false} LinkedRightRotatable(tr: RbTree, p: Path, t: Tree)
    requires tr.Linked() && tr.shape == Plug(p, t)
    requires t.Fork? && t.left.Fork?
    ensures RightRotatable(tr, p, t, Nodes(tr.shape))
  {
    tr.Focus(p, t);
    assert Distinct(t.left);
    assert Nodes(t.left) == Nodes(t.left.right) + {t.left.node} + Nodes(t.left.left);
    tr.Focus(InLeft(p, t.node, t.red, t.right), t.left);
  }

  method RightRotatePointers(tr: RbTree, node: Node, ghost p: Path, ghost t: Tree, ghost ns: set<Node>)
    requires t.Fork? && t.node == node && t.left.Fork? && RightRotatable(tr, p, t, ns)
    modifies tr`root, ns`right, ns`left, ns`parent
    ensures RightRotatedCells(p, t, old(View(ns)), View(ns))
    ensures tr.root == if p.Top? then t.left.node else old(tr.root)
  {
    var temp := node.left;
    node.left := temp.right;
    if temp.right != tr.sentinel {
      temp.right.parent := node;
    }
    temp.parent := node.parent;
    Redirect(tr, node, temp, p);
    temp.right := node;
    node.parent := temp;
  }

  method RightRotate(tr: RbTree, node: Node, ghost p: Path, ghost t: Tree)
    requires tr.Linked() && tr.shape == Plug(p, t)
    requires t.Fork? && t.node == node && t.left.Fork?
    modifies tr`root, tr`shape, Nodes(tr.shape)`right, Nodes(tr.shape)`left, Nodes(tr.shape)`parent
    ensures tr.Linked() && tr.shape == Plug(p, RotatedRight(t))
    ensures InOrder(tr.shape) == old(InOrder(tr.shape)) && Nodes(tr.shape) == old(Nodes(tr.shape))
  {
    ghost var h, ns, r := View(Nodes(tr.shape)), Nodes(tr.shape), tr.root;
    LinkedRightRotatable(tr, p, t);
    RotatedRightSame(t);
    SameNodes(p, t, RotatedRight(t));
    tr.shape := Plug(p, RotatedRight(t));
    RightRotatePointers(tr, node, p, t, ns);
    RightRotateRep(p, t, h, View(ns), r, tr.root, tr.sentinel);
  }
}
