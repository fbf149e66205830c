/**
  The red-black tree in memory: nodes with left, right and parent pointers, a tree object with
  a root pointer and a black sentinel that stands for every missing child, and the relation
  between that pointer structure and the shape it represents.
 */
module RbHeap {
  import opened RbShape

  /** The contents of one node's mutable fields. */
  datatype Cell = Cell(left: Node?, right: Node?, parent: Node?, red: bool)

  type Cells = map<Node, Cell>

  ghost function View(ns: set<Node>): Cells
    reads ns
  {
    map n | n in ns :: Cell(n.left, n.right, n.parent, n.red)
  }

  /** The pointer that refers to the tree `t`; `s` is the sentinel. */
  ghost function Ptr(t: Tree, s: Node): Node {
    if t.Leaf? then s else t.node
  }

  /** Pointer `p` leads to the tree `t`. The parent field of the topmost node is left open. */
  ghost predicate Rep(t: Tree, h: Cells, p: Node?, s: Node) {
    match t
    case Leaf => p == s
    case Fork(l, n, c, r) =>
      && p == n && n != s && n in h && h[n].red == c
      && Rep(l, h, h[n].left, s) && (l.Fork? ==> h[l.node].parent == n)
      && Rep(r, h, h[n].right, s) && (r.Fork? ==> h[r.node].parent == n)
  }

  /** `Rep` as one indivisible fact: an equation is not taken apart when it is checked. */
  ghost predicate Represents(t: Tree, h: Cells, p: Node?, s: Node) {
    Rep(t, h, p, s) == true
  }

  /** Pointer `child` fills the hole of `p` in a structure entered through `root`. */
  ghost predicate RepPath(p: Path, h: Cells, child: Node?, root: Node?, s: Node) {
    match p
    case Top => child == root
    case InLeft(up, n, c, r) =>
      && n != s && n in h && h[n].left == child && h[n].red == c
      && Rep(r, h, h[n].right, s) && (r.Fork? ==> h[r.node].parent == n)
      && RepPath(up, h, n, root, s) && (up.Top? || h[n].parent == up.node)
    case InRight(up, l, n, c) =>
      && n != s && n in h && h[n].right == child && h[n].red == c
      && Rep(l, h, h[n].left, s) && (l.Fork? ==> h[l.node].parent == n)
      && RepPath(up, h, n, root, s) && (up.Top? || h[n].parent == up.node)
  }

  lemma {:induction false} RepPlug(p: Path, t: Tree, h: Cells, root: Node?, s: Node)
    ensures Rep(Plug(p, t), h, root, s)
       <==> Rep(t, h, Ptr(t, s), s) && RepPath(p, h, Ptr(t, s), root, s)
            && (t.Fork? && !p.Top? ==> h[t.node].parent == p.node)
  {
    match p
    case Top =>
    case InLeft(up, n, c, r) => RepPlug(up, Fork(t, n, c, r), h, root, s);
    case InRight(up, l, n, c) => RepPlug(up, Fork(l, n, c, t), h, root, s);
  }

  /** Only the nodes of a tree matter for what it represents, and not its topmost parent field. */
  lemma {:induction false} RepFrame(t: Tree, h: Cells, h': Cells, p: Node?, s: Node)
    requires Rep(t, h, p, s) && Distinct(t)
    requires forall n <- Nodes(t) :: n in h && n in h' && h'[n] == h[n].(parent := h'[n].parent)
    requires forall n <- Nodes(t) :: n == p || h'[n] == h[n]
    ensures Rep(t, h', p, s)
  {
    if t.Fork? {
      RepFrame(t.left, h, h', h[t.node].left, s);
      RepFrame(t.right, h, h', h[t.node].right, s);
    }
  }

  /** The context after its hole's pointer changed from `child` to `child'`. */
  ghost predicate Refilled(p: Path, h: Cells, h': Cells, child': Node?, root: Node?, root': Node?) {
    && PathNodes(p) <= h.Keys && PathNodes(p) <= h'.Keys
    && (forall n <- PathNodes(p) :: (!p.Top? && n == p.node) || h'[n] == h[n])
    && match p
       case Top => root' == child'
       case InLeft(_, n, _, _) => root' == root && h'[n] == h[n].(left := child')
       case InRight(_, _, n, _) => root' == root && h'[n] == h[n].(right := child')
  }

  lemma {:induction false} RepPathFrame(p: Path, h: Cells, h': Cells, child: Node?, root: Node?, s: Node)
    requires RepPath(p, h, child, root, s) && DistinctPath(p)
    requires forall n <- PathNodes(p) :: n in h && n in h' && h'[n] == h[n]
    ensures RepPath(p, h', child, root, s)
  {
    match p
    case Top =>
    case InLeft(up, n, c, r) =>
      RepFrame(r, h, h', h[n].right, s);
      RepPathFrame(up, h, h', n, root, s);
    case InRight(up, l, n, c) =>
      RepFrame(l, h, h', h[n].left, s);
      RepPathFrame(up, h, h', n, root, s);
  }

  lemma {:induction false} RepPathRefill(p: Path, h: Cells, h': Cells, child: Node?, child': Node?,
                                         root: Node?, root': Node?, s: Node)
    requires RepPath(p, h, child, root, s) && DistinctPath(p)
    requires Refilled(p, h, h', child', root, root')
    ensures RepPath(p, h', child', root', s)
  {
    match p
    case Top =>
    case InLeft(up, n, c, r) =>
      RepFrame(r, h, h', h[n].right, s);
      RepPathFrame(up, h, h', n, root, s);
    case InRight(up, l, n, c) =>
      RepFrame(l, h, h', h[n].left, s);
      RepPathFrame(up, h, h', n, root, s);
  }

  /** Replacing the subtree in focus, in memory as in the shape. */
  lemma {:induction false} RepReplace(p: Path, t: Tree, t': Tree, h: Cells, h': Cells,
                                      root: Node?, root': Node?, s: Node)
    requires Rep(Plug(p, t), h, root, s) && DistinctPath(p)
    requires Refilled(p, h, h', Ptr(t', s), root, root')
    requires Rep(t', h', Ptr(t', s), s)
    requires t'.Fork? && !p.Top? ==> h'[t'.node].parent == p.node
    ensures Rep(Plug(p, t'), h', root', s)
  {
    RepPlug(p, t, h, root, s);
    RepPathRefill(p, h, h', Ptr(t, s), Ptr(t', s), root, root', s);
    RepPlug(p, t', h', root', s);
  }

  lemma {:induction false} RootInPath(p: Path, h: Cells, child: Node?, root: Node?, s: Node)
    requires RepPath(p, h, child, root, s) && !p.Top?
    ensures root != null && root in PathNodes(p)
  {
    if !p.up.Top? {
      RootInPath(p.up, h, p.node, root, s);
    }
  }

  lemma {:induction false} RepPtr(t: Tree, h: Cells, p: Node?, s: Node)
    requires Rep(t, h, p, s)
    ensures p == Ptr(t, s) && (t.Fork? <==> p != s)
  {
  }

  class RbTree {
    var root: Node?
    const sentinel: Node
    /** The tree that the pointers represent. */
    ghost var shape: Tree

    /** The pointers represent `shape`. */
    ghost predicate Linked()
      reads this, sentinel, Nodes(shape)
    {
      && Distinct(shape) && sentinel !in Nodes(shape) && !sentinel.red
      && Represents(shape, View(Nodes(shape)), root, sentinel)
    }

    /** The tree is a sorted red-black tree. */
    ghost predicate Valid()
      reads this, sentinel, Nodes(shape)
    {
      Linked() && RedBlack(shape) && Sorted(InOrder(shape))
    }

    constructor ()
      ensures Valid() && shape == Leaf && fresh(sentinel)
    {
      var s := new Node(Key(0, 0));
      s.red := false;
      sentinel := s;
      root := s;
      shape := Leaf;
    }

    /** What the pointers around the subtree in focus look like. */
    lemma {:induction false} Focus(p: Path, t: Tree)
      requires Linked() && shape == Plug(p, t)
      ensures PathNodes(p) <= Nodes(shape) && Nodes(t) <= Nodes(shape) && PathNodes(p) !! Nodes(t)
      ensures DistinctPath(p) && Distinct(t)
      ensures !p.Top? ==> p.node in Nodes(shape) && p.node.red == p.red
      ensures p.InLeft? ==> p.node.left == Ptr(t, sentinel) && p.node.right == Ptr(p.right, sentinel)
      ensures p.InRight? ==> p.node.right == Ptr(t, sentinel) && p.node.left == Ptr(p.left, sentinel)
      ensures t.Fork? && !p.Top? ==> t.node.parent == p.node
      ensures t.Fork? ==> t.node in Nodes(shape) && t.node.red == t.red
      ensures t.Fork? ==> t.node.left == Ptr(t.left, sentinel) && t.node.right == Ptr(t.right, sentinel)
      ensures p.Top? <==> root == Ptr(t, sentinel)
    {
      var h := View(Nodes(shape));
      NodesPlug(p, t);
      RepPlug(p, t, h, root, sentinel);
      if !p.Top? {
        RootInPath(p, h, Ptr(t, sentinel), root, sentinel);
      }
    }
  }

  lemma {:induction false} RecolorRep(p: Path, t: Tree, c: bool, h: Cells, h': Cells, root: Node?, s: Node)
    requires t.Fork? && Distinct(Plug(p, t)) && Nodes(Plug(p, t)) == h.Keys && Represents(Plug(p, t), h, root, s)
    requires h'.Keys == h.Keys && t.node in h && h'[t.node] == h[t.node].(red := c)
    requires forall n <- h.Keys :: n == t.node || h'[n] == h[n]
    ensures Represents(Plug(p, t.(red := c)), h', root, s)
  {
    NodesPlug(p, t);
    RepPlug(p, t, h, root, s);
    RepFrame(t.left, h, h', h[t.node].left, s);
    RepFrame(t.right, h, h', h[t.node].right, s);
    RepPathFrame(p, h, h', t.node, root, s);
    RepPlug(p, t.(red := c), h', root, s);
  }

  /** Colours the node in focus; `rbt_red`, `rbt_black` and `rbt_copy_color`. */
  method SetColor(tr: RbTree, node: Node, red: bool, ghost p: Path, ghost t: Tree)
    requires tr.Linked() && tr.shape == Plug(p, t)
    requires t.Fork? && t.node == node
    modifies tr`shape, Nodes(tr.shape)`red
    ensures tr.Linked() && tr.shape == Plug(p, t.(red := red))
    ensures InOrder(tr.shape) == old(InOrder(tr.shape)) && Nodes(tr.shape) == old(Nodes(tr.shape))
  {
    ghost var h, ns := View(Nodes(tr.shape)), Nodes(tr.shape);
    NodesPlug(p, t);
    SameNodes(p, t, t.(red := red));
    tr.shape := Plug(p, t.(red := red));
    node.red := red;
    RecolorRep(p, t, red, h, View(ns), tr.root, tr.sentinel);
  }

  /** A replacement with the same nodes in the same order changes neither in the whole tree. */
  lemma {:induction false} SameNodes(p: Path, t: Tree, t': Tree)
    requires Nodes(t') == Nodes(t) && InOrder(t') == InOrder(t) && (Distinct(t) ==> Distinct(t'))
    ensures Nodes(Plug(p, t')) == Nodes(Plug(p, t)) && InOrder(Plug(p, t')) == InOrder(Plug(p, t))
    ensures Distinct(Plug(p, t)) ==> Distinct(Plug(p, t'))
  {
    NodesPlug(p, t);
    NodesPlug(p, t');
    InOrderPlug(p, t);
    InOrderPlug(p, t');
  }
}
