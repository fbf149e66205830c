/** Insertion: descend to a leaf position, attach a red node, and rebalance towards the root. */
module RbInsert {
  import opened RbShape
  import opened RbHeap
  import opened RbRotate

  // ---- Rebalancing on shapes ----

  /** Everything a red-black tree promises, except that the red node in focus may have a red parent. */
  ghost predicate Rebalancing(p: Path, t: Tree) {
    && t.Fork? && t.red && NoRedRed(t) && Balanced(t)
    && PathNoRedRed(p) && PathBalanced(p, BlackHeight(t)) && PathRootBlack(p)
  }

  /** The grandparent's subtree after parent and uncle turned black and the grandparent red. */
  ghost function Recolored(p: Path, t: Tree): Tree
    requires !p.Top? && !p.up.Top? && Sibling(p.up).Fork?
  {
    var sib := Sibling(p.up);
    var par, g, u := Up(p, t).(red := false), p.up, sib.(red := false);
    if g.InLeft? then Fork(par, g.node, true, u) else Fork(u, g.node, true, par)
  }

  /** Moves an inner red child to the outside; the old parent becomes the focus. */
  ghost function Straightened(p: Path, t: Tree): (Path, Tree)
    requires !p.Top? && !p.up.Top? && t.Fork?
  {
    if p.up.InLeft? && p.InRight? then
      (InLeft(p.up, t.node, t.red, t.right), Fork(p.left, p.node, p.red, t.left))
    else if p.up.InRight? && p.InLeft? then
      (InRight(p.up, t.left, t.node, t.red), Fork(t.right, p.node, p.red, p.right))
    else
      (p, t)
  }

  /** The context of an outer red child after parent and grandparent swapped colours and rotated. */
  ghost function Raised(p: Path): Path
    requires !p.Top? && !p.up.Top?
  {
    var g := p.up;
    if p.InLeft? && g.InLeft? then InLeft(g.up, p.node, false, Fork(p.right, g.node, true, g.right))
    else if p.InRight? && g.InRight? then InRight(g.up, Fork(g.left, g.node, true, p.left), p.node, false)
    else p
  }

  /** One turn of the rebalancing loop. */
  ghost function InsertStep(p: Path, t: Tree): (Path, Tree)
    requires !p.Top? && !p.up.Top? && t.Fork?
  {
    if !Black(Sibling(p.up)) then (p.up.up, Recolored(p, t))
    else var (p', t') := Straightened(p, t); (Raised(p'), t')
  }

  lemma {:induction false} RecoloredKeeps(p: Path, t: Tree)
    requires Rebalancing(p, t) && !p.Top? && p.red && !p.up.Top? && !Black(Sibling(p.up))
    ensures Rebalancing(p.up.up, Recolored(p, t))
  {
    var g, h := p.up, BlackHeight(t);
    assert PathNoRedRed(g) && PathBalanced(g, h) && PathRootBlack(g);
    assert PathNoRedRed(g.up) && PathBalanced(g.up, h + 1) && PathRootBlack(g.up);
    var par := Up(p, t);
    assert NoRedRed(par.(red := false)) && Balanced(par.(red := false));
  }

  lemma {:induction false} StraightenedKeeps(p: Path, t: Tree)
    requires Rebalancing(p, t) && !p.Top? && p.red && !p.up.Top?
    ensures var (p', t') := Straightened(p, t);
      && Rebalancing(p', t') && Depth(p') == Depth(p)
      && !p'.Top? && p'.red && p'.up == p.up && (p'.InLeft? <==> p.up.InLeft?)
  {
    assert PathNoRedRed(p.up) && PathBalanced(p.up, BlackHeight(t)) && PathRootBlack(p.up);
  }

  lemma {:induction false} RaisedKeeps(p: Path, t: Tree)
    requires Rebalancing(p, t) && !p.Top? && p.red && !p.up.Top?
    requires (p.InLeft? <==> p.up.InLeft?) && Black(Sibling(p.up))
    ensures Rebalancing(Raised(p), t) && Depth(Raised(p)) < Depth(p)
  {
    var g, h := p.up, BlackHeight(t);
    assert PathNoRedRed(g) && PathBalanced(g, h) && PathRootBlack(g);
    assert PathNoRedRed(g.up) && PathBalanced(g.up, h + 1) && PathRootBlack(g.up);
    assert Depth(p) == 2 + Depth(g.up);
    var s := Sibling(Raised(p));
    assert NoRedRed(s) && Balanced(s) && BlackHeight(s) == h;
  }

  /** A turn of the loop keeps the rebalancing invariant and moves towards the root. */
  lemma {:induction false} InsertStepKeeps(p: Path, t: Tree)
    requires Rebalancing(p, t) && !p.Top? && p.red
    ensures !p.up.Top? && !p.up.red
    ensures var (p', t') := InsertStep(p, t); Rebalancing(p', t') && Depth(p') < Depth(p)
  {
    assert Depth(p) == 2 + Depth(p.up.up);
    if !Black(Sibling(p.up)) {
      RecoloredKeeps(p, t);
    } else {
      StraightenedKeeps(p, t);
      var (p', t') := Straightened(p, t);
      RaisedKeeps(p', t');
    }
  }

  // ---- Rebalancing on pointers ----

  method RecolorLeft(tr: RbTree, node: Node, uncle: Node, ghost p: Path, ghost t: Tree)
    requires tr.Linked() && tr.shape == Plug(p, t) && t.Fork? && t.node == node
    requires !p.Top? && p.red && p.up.InLeft? && !p.up.red && p.up.right.Fork? && p.up.right.node == uncle
    modifies tr`shape, Nodes(tr.shape)`red
    ensures tr.Linked() && tr.shape == Plug(p.up.up, Recolored(p, t))
    ensures InOrder(tr.shape) == old(InOrder(tr.shape)) && Nodes(tr.shape) == old(Nodes(tr.shape))
  {
    ghost var g, par := p.up, Up(p, t);
    tr.Focus(p, t);
    tr.Focus(g, par);
    ghost var par' := par.(red := false);
    SetColor(tr, node.parent, false, g, par);
    SetColor(tr, uncle, false, InRight(g.up, par', g.node, g.red), g.right);
    SetColor(tr, node.parent.parent, true, g.up, Fork(par', g.node, g.red, g.right.(red := false)));
  }

  method RaiseLeft(tr: RbTree, node: Node, ghost p: Path, ghost t: Tree)
    requires tr.Linked() && tr.shape == Plug(p, t) && t.Fork? && t.node == node
    requires p.InLeft? && p.red && p.up.InLeft? && !p.up.red
    modifies tr`root, tr`shape, Nodes(tr.shape)
    ensures tr.Linked() && tr.shape == Plug(Raised(p), t)
    ensures InOrder(tr.shape) == old(InOrder(tr.shape)) && Nodes(tr.shape) == old(Nodes(tr.shape))
  {
    ghost var g, par := p.up, Fork(t, p.node, true, p.right);
    tr.Focus(p, t);
    tr.Focus(g, par);
    SetColor(tr, node.parent, false, g, par);
    SetColor(tr, node.parent.parent, true, g.up, Fork(par.(red := false), g.node, false, g.right));
    RightRotate(tr, node.parent.parent, g.up, Fork(par.(red := false), g.node, true, g.right));
  }

  method RebalanceLeft(tr: RbTree, node: Node, ghost p: Path, ghost t: Tree) returns (next: Node)
    requires tr.Linked() && tr.shape == Plug(p, t) && t.Fork? && t.node == node
    requires !p.Top? && p.red && p.up.InLeft? && !p.up.red && t.red
    modifies tr`root, tr`shape, Nodes(tr.shape)
    ensures var (p', t') := InsertStep(p, t);
      tr.Linked() && tr.shape == Plug(p', t') && Ptr(t', tr.sentinel) == next
    ensures InOrder(tr.shape) == old(InOrder(tr.shape)) && Nodes(tr.shape) == old(Nodes(tr.shape))
  {
    ghost var g, par := p.up, Up(p, t);
    tr.Focus(p, t);
    tr.Focus(g, par);
    tr.Focus(InRight(g.up, par, g.node, g.red), g.right);
    next := node;
    var temp := node.parent.parent.right;
    if temp.red {
      RecolorLeft(tr, node, temp, p, t);
      next := node.parent.parent;
    } else {
      if node == node.parent.right {
        next := node.parent;
        LeftRotate(tr, next, g, par);
      }
      ghost var (p', t') := Straightened(p, t);
      RaiseLeft(tr, next, p', t');
    }
  }

  method RecolorRight(tr: RbTree, node: Node, uncle: Node, ghost p: Path, ghost t: Tree)
    requires tr.Linked() && tr.shape == Plug(p, t) && t.Fork? && t.node == node
    requires !p.Top? && p.red && p.up.InRight? && !p.up.red && p.up.left.Fork? && p.up.left.node == uncle
    modifies tr`shape, Nodes(tr.shape)`red
    ensures tr.Linked() && tr.shape == Plug(p.up.up, Recolored(p, t))
    ensures InOrder(tr.shape) == old(InOrder(tr.shape)) && Nodes(tr.shape) == old(Nodes(tr.shape))
  {
    ghost var g, par := p.up, Up(p, t);
    tr.Focus(p, t);
    tr.Focus(g, par);
    ghost var par' := par.(red := false);
    SetColor(tr, node.parent, false, g, par);
    SetColor(tr, uncle, false, InLeft(g.up, g.node, g.red, par'), g.left);
    SetColor(tr, node.parent.parent, true, g.up, Fork(g.left.(red := false), g.node, g.red, par'));
  }

  method RaiseRight(tr: RbTree, node: Node, ghost p: Path, ghost t: Tree)
    requires tr.Linked() && tr.shape == Plug(p, t) && t.Fork? && t.node == node
    requires p.InRight? && p.red && p.up.InRight? && !p.up.red
    modifies tr`root, tr`shape, Nodes(tr.shape)
    ensures tr.Linked() && tr.shape == Plug(Raised(p), t)
    ensures InOrder(tr.shape) == old(InOrder(tr.shape)) && Nodes(tr.shape) == old(Nodes(tr.shape))
  {
    ghost var g, par := p.up, Fork(p.left, p.node, true, t);
    tr.Focus(p, t);
    tr.Focus(g, par);
    SetColor(tr, node.parent, false, g, par);
    SetColor(tr, node.parent.parent, true, g.up, Fork(g.left, g.node, false, par.(red := false)));
    LeftRotate(tr, node.parent.parent, g.up, Fork(g.left, g.node, true, par.(red := false)));
  }

  method RebalanceRight(tr: RbTree, node: Node, ghost p: Path, ghost t: Tree) returns (next: Node)
    requires tr.Linked() && tr.shape == Plug(p, t) && t.Fork? && t.node == node
    requires !p.Top? && p.red && p.up.InRight? && !p.up.red && t.red
    modifies tr`root, tr`shape, Nodes(tr.shape)
    ensures var (p', t') := InsertStep(p, t);
      tr.Linked() && tr.shape == Plug(p', t') && Ptr(t', tr.sentinel) == next
    ensures InOrder(tr.shape) == old(InOrder(tr.shape)) && Nodes(tr.shape) == old(Nodes(tr.shape))
  {
    ghost var g, par := p.up, Up(p, t);
    tr.Focus(p, t);
    tr.Focus(g, par);
    tr.Focus(InLeft(g.up, g.node, g.red, par), g.left);
    next := node;
    var temp := node.parent.parent.left;
    if temp.red {
      RecolorRight(tr, node, temp, p, t);
      next := node.parent.parent;
    } else {
      if node == node.parent.left {
        next := node.parent;
        RightRotate(tr, next, g, par);
      }
      ghost var (p', t') := Straightened(p, t);
      RaiseRight(tr, next, p', t');
    }
  }

  // ---- Attaching the new node ----

  /** Everything before the hole is at most `key`, everything after it is above `key`. */
  ghost predicate Splits(p: Path, key: Key) {
    && (forall n <- Before(p) :: KeyCompare(LKP_ALL, n.key, key) <= 0)
    && (forall n <- After(p) :: KeyCompare(LKP_ALL, key, n.key) < 0)
  }

  lemma {:induction false} SplitsDown(p: Path, t: Tree, key: Key)
    requires t.Fork? && Sorted(InOrder(Plug(p, t))) && Splits(p, key)
    ensures Splits(Down(p, t, KeyCompare(LKP_ALL, key, t.node.key) < 0), key)
  {
    SortedPlug(p, t);
    assert forall x <- Before(InRight(p, t.left, t.node, t.red)) ::
      x in Before(p) || x in InOrder(t.left) || x == t.node;
    assert forall x <- After(InLeft(p, t.node, t.red, t.right)) ::
      x in After(p) || x in InOrder(t.right) || x == t.node;
  }

  lemma {:induction false} AttachRep(p: Path, node: Node, h: Cells, h': Cells, root: Node?, s: Node)
    requires !p.Top? && Represents(Plug(p, Leaf), h, root, s) && Distinct(Plug(p, Leaf))
      && Nodes(Plug(p, Leaf)) == h.Keys
    requires node !in h && node != s && h'.Keys == h.Keys + {node} && p.node in h
    requires forall n <- h.Keys :: n == p.node || h'[n] == h[n]
    requires h'[p.node] == if p.InLeft? then h[p.node].(left := node) else h[p.node].(right := node)
    requires h'[node] == Cell(s, s, p.node, true)
    ensures Represents(Plug(p, Fork(Leaf, node, true, Leaf)), h', root, s)
  {
    NodesPlug(p, Leaf);
    RepReplace(p, Leaf, Fork(Leaf, node, true, Leaf), h, h', root, root, s);
  }

  /** Walks from the root to the free child position where `key` belongs. */
  method Descend(tr: RbTree, key: Key) returns (temp: Node, goLeft: bool, ghost p: Path)
    requires tr.Linked() && tr.shape.Fork? && Sorted(InOrder(tr.shape))
    ensures !p.Top? && tr.shape == Plug(p, Leaf) && p.node == temp && (p.InLeft? <==> goLeft)
    ensures Splits(p, key)
  {
    ghost var t := tr.shape;
    p := Top;
    tr.Focus(p, t);
    SplitsDown(p, t, key);
    temp := tr.root;
    goLeft := KeyCompare(LKP_ALL, key, temp.key) < 0;
    var child := if goLeft then temp.left else temp.right;
    p, t := Down(p, t, goLeft), if goLeft then t.left else t.right;
    while child != tr.sentinel
      invariant tr.Linked() && tr.shape == Plug(p, t) && child == Ptr(t, tr.sentinel)
      invariant !p.Top? && p.node == temp && (p.InLeft? <==> goLeft) && Splits(p, key)
      decreases t
    {
      tr.Focus(p, t);
      SplitsDown(p, t, key);
      temp := child;
      goLeft := KeyCompare(LKP_ALL, key, temp.key) < 0;
      child := if goLeft then temp.left else temp.right;
      p, t := Down(p, t, goLeft), if goLeft then t.left else t.right;
    }
    tr.Focus(p, t);
  }

  method Attach(temp: Node, node: Node, goLeft: bool, sentinel: Node)
    requires temp != node
    modifies temp`left, temp`right, node
    ensures temp.left == (if goLeft then node else old(temp.left))
    ensures temp.right == (if goLeft then old(temp.right) else node)
    ensures node.left == sentinel && node.right == sentinel && node.parent == temp && node.red
  {
    if goLeft {
      temp.left := node;
    } else {
      temp.right := node;
    }
    node.parent := temp;
    node.left := sentinel;
    node.right := sentinel;
    node.red := true;
  }

  method InsertValue(tr: RbTree, node: Node) returns (ghost p: Path)
    requires tr.Linked() && tr.shape.Fork? && Sorted(InOrder(tr.shape))
    requires node !in Nodes(tr.shape) && node != tr.sentinel
    modifies tr`shape, Nodes(tr.shape)`left, Nodes(tr.shape)`right, node
    ensures tr.Linked() && !p.Top? && old(tr.shape) == Plug(p, Leaf)
    ensures tr.shape == Plug(p, Fork(Leaf, node, true, Leaf)) && Splits(p, node.key)
    ensures Nodes(tr.shape) == old(Nodes(tr.shape)) + {node}
  {
    ghost var h, ns := View(Nodes(tr.shape)), Nodes(tr.shape);
    var temp, goLeft;
    temp, goLeft, p := Descend(tr, node.key);
    NodesPlug(p, Leaf);
    tr.shape := Plug(p, Fork(Leaf, node, true, Leaf));
    NodesPlug(p, Fork(Leaf, node, true, Leaf));
    assert Nodes(tr.shape) == ns + {node};
    Attach(temp, node, goLeft, tr.sentinel);
    AttachRep(p, node, h, View(Nodes(tr.shape)), tr.root, tr.sentinel);
  }

  // ---- The whole operation ----

  /** `s'` is `s` with `node` placed after every key at most its own, at position `k`. */
  ghost predicate InsertedAt(s: seq<Node>, s': seq<Node>, node: Node, k: nat) {
    && k <= |s| && s' == s[..k] + [node] + s[k..]
    && (forall i | 0 <= i < k :: KeyCompare(LKP_ALL, s[i].key, node.key) <= 0)
    && (forall i | k <= i < |s| :: KeyCompare(LKP_ALL, node.key, s[i].key) < 0)
  }

  lemma {:induction false} InsertedSorted(s: seq<Node>, s': seq<Node>, node: Node, k: nat)
    requires Sorted(s) && InsertedAt(s, s', node, k)
    ensures Sorted(s')
  {
    forall i, j | 0 <= i < j < |s'|
      ensures KeyCompare(LKP_ALL, s'[i].key, s'[j].key) <= 0
    {
      var a, b := if i < k then i else i - 1, if j < k then j else j - 1;
      assert i != k ==> s'[i] == s[a];
      assert j != k ==> s'[j] == s[b];
    }
  }

  lemma {:induction false} SplitsInsertedAt(p: Path, node: Node)
    requires Splits(p, node.key)
    ensures InsertedAt(InOrder(Plug(p, Leaf)), InOrder(Plug(p, Fork(Leaf, node, true, Leaf))), node, |Before(p)|)
  {
    InOrderPlug(p, Leaf);
    InOrderPlug(p, Fork(Leaf, node, true, Leaf));
    var s := InOrder(Plug(p, Leaf));
    assert s == Before(p) + After(p);
    assert forall i | |Before(p)| <= i < |s| :: s[i] == After(p)[i - |Before(p)|];
  }

  lemma {:induction false} LeafRebalancing(p: Path, node: Node)
    requires RedBlack(Plug(p, Leaf))
    ensures Rebalancing(p, Fork(Leaf, node, true, Leaf))
  {
    BalancedPlug(p, Leaf);
    NoRedRedPlug(p, Leaf);
    RootBlackPlug(p, Leaf);
  }

  /** When the loop stops, blackening the root completes the red-black tree. */
  lemma {:induction false} RebalancedRoot(p: Path, t: Tree)
    requires Rebalancing(p, t) && PathBlack(p)
    ensures var r := Plug(p, t); r.Fork? && RedBlack(r.(red := false))
  {
    BalancedPlug(p, t);
    NoRedRedPlug(p, t);
    NodesPlug(p, t);
    assert t.node in Nodes(Plug(p, t));
  }

  method Insert(tr: RbTree, node: Node) returns (ghost k: nat)
    requires tr.Valid() && node !in Nodes(tr.shape) && node != tr.sentinel
    modifies tr`root, tr`shape, Nodes(tr.shape), node
    ensures tr.Valid() && Nodes(tr.shape) == old(Nodes(tr.shape)) + {node}
    ensures InsertedAt(old(InOrder(tr.shape)), InOrder(tr.shape), node, k)
  {
    if tr.root == tr.sentinel {
      node.parent := null;
      node.left := tr.sentinel;
      node.right := tr.sentinel;
      node.red := false;
      tr.root := node;
      tr.shape := Fork(Leaf, node, false, Leaf);
      k := 0;
      return;
    }
    ghost var s := InOrder(tr.shape);
    ghost var p := InsertValue(tr, node);
    ghost var t := Fork(Leaf, node, true, Leaf);
    LeafRebalancing(p, node);
    SplitsInsertedAt(p, node);
    k := |Before(p)|;
    InsertedSorted(s, InOrder(tr.shape), node, k);
    Rebalance(tr, node, p, t);
  }

  method Rebalance(tr: RbTree, inserted: Node, ghost p0: Path, ghost t0: Tree)
    requires tr.Linked() && tr.shape == Plug(p0, t0) && Rebalancing(p0, t0) && t0.node == inserted
    modifies tr`root, tr`shape, Nodes(tr.shape)
    ensures tr.Linked() && RedBlack(tr.shape)
    ensures InOrder(tr.shape) == old(InOrder(tr.shape)) && Nodes(tr.shape) == old(Nodes(tr.shape))
  {
    var node := inserted;
    ghost var p, t := p0, t0;
    tr.Focus(p, t);
    while node != tr.root && node.parent.red
      invariant tr.Linked() && tr.shape == Plug(p, t) && Rebalancing(p, t) && t.node == node
      invariant !p.Top? ==> node.parent == p.node && node.parent.red == p.red
      invariant p.Top? <==> tr.root == node
      invariant InOrder(tr.shape) == old(InOrder(tr.shape)) && Nodes(tr.shape) == old(Nodes(tr.shape))
      decreases Depth(p)
    {
      InsertStepKeeps(p, t);
      tr.Focus(p.up, Up(p, t));
      if node.parent == node.parent.parent.left {
        node := RebalanceLeft(tr, node, p, t);
      } else {
        node := RebalanceRight(tr, node, p, t);
      }
      p, t := InsertStep(p, t).0, InsertStep(p, t).1;
      tr.Focus(p, t);
    }
    RebalancedRoot(p, t);
    SetColor(tr, tr.root, false, Top, tr.shape);
  }
}
