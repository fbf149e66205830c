/** Deletion on the pointer structure. */
module RbDelete {
  import opened RbShape
  import opened RbHeap
  import opened RbRotate
  import opened RbRemove
  import opened RbFixup
  import opened RbSearch

  // ---- Splicing ----

  /**
    The field updates that take the child `u` of a node in the hole of `p` up into the hole;
    `hook` becomes the parent of `u`.
   */
  ghost predicate SplicedCells(p: Path, u: Tree, hook: Node, h: Cells, h': Cells, s: Node)
    requires !p.Top?
  {
    && h'.Keys == h.Keys && p.node in h && (u.Fork? ==> u.node in h && h'[u.node] == h[u.node].(parent := hook))
    && (p.InLeft? ==> h'[p.node] == h[p.node].(left := Ptr(u, s)))
    && (p.InRight? ==> h'[p.node] == h[p.node].(right := Ptr(u, s)))
    && (forall n <- h.Keys :: n == p.node || (u.Fork? && n == u.node) || h'[n] == h[n])
  }

  lemma {:induction false} SpliceRep(p: Path, t: Tree, u: Tree, h: Cells, h': Cells, root: Node?, s: Node)
    requires t.Fork? && (u == t.left || u == t.right) && !p.Top?
    requires Distinct(Plug(p, t)) && Rep(Plug(p, t), h, root, s) && Nodes(Plug(p, t)) == h.Keys
    requires SplicedCells(p, u, p.node, h, h', s)
    ensures Rep(Plug(p, u), h', root, s)
  {
    NodesPlug(p, t);
    RepPlug(p, t, h, root, s);
    RepPtr(u, h, if u == t.left then h[t.node].left else h[t.node].right, s);
    RepFrame(u, h, h', Ptr(u, s), s);
    RepReplace(p, t, u, h, h', root, root, s);
  }

  lemma {:induction false} SplicedNodes(p: Path, t: Tree, u: Tree)
    requires t.Fork? && (u == t.left || u == t.right) && Distinct(Plug(p, t))
    ensures Nodes(Plug(p, u)) <= Nodes(Plug(p, t)) && Distinct(Plug(p, u)) && t.node !in Nodes(Plug(p, u))
  {
    NodesPlug(p, t);
    NodesPlug(p, u);
  }

  lemma {:induction false} SpliceOutRep(
      p: Path, t: Tree, u: Tree, h: Cells, h': Cells, h'': Cells, root: Node?, s: Node)
    requires t.Fork? && ((t.left.Leaf? && u == t.right) || (t.right.Leaf? && u == t.left)) && !p.Top?
    requires Distinct(Plug(p, t)) && Represents(Plug(p, t), h, root, s) && Nodes(Plug(p, t)) == h.Keys
    requires SplicedCells(p, u, p.node, h, h', s)
    requires h''.Keys == Nodes(Plug(p, u)) && forall n <- h''.Keys :: n in h' && h''[n] == h'[n]
    ensures Represents(Plug(p, u), h'', root, s)
  {
    SpliceRep(p, t, u, h, h', root, s);
    SplicedNodes(p, t, u);
    RepFrame(Plug(p, u), h', h'', root, s);
  }

  /** The field updates that put node `m` in the place of the topmost node of `t` in the hole of `p`. */
  ghost predicate RenamedCells(p: Path, t: Tree, m: Node, h: Cells, h': Cells)
    requires t.Fork?
  {
    var a, b := t.left, t.right;
    && h'.Keys == h.Keys && t.node in h && m in h && h'[m] == h[t.node]
    && (a.Fork? ==> a.node in h && h'[a.node] == h[a.node].(parent := m))
    && (b.Fork? ==> b.node in h && h'[b.node] == h[b.node].(parent := m))
    && (!p.Top? ==> p.node in h)
    && (p.InLeft? ==> h'[p.node] == h[p.node].(left := m))
    && (p.InRight? ==> h'[p.node] == h[p.node].(right := m))
    && forall n <- h.Keys :: || n == m || (!p.Top? && n == p.node) || (a.Fork? && n == a.node)
                             || (b.Fork? && n == b.node) || h'[n] == h[n]
  }

  lemma {:induction false} RenameRep(p: Path, t: Tree, m: Node, h: Cells, h': Cells, root: Node?, root': Node?, s: Node)
    requires t.Fork? && Distinct(Plug(p, t)) && Rep(Plug(p, t), h, root, s)
    requires Nodes(Plug(p, t)) <= h.Keys && m !in Nodes(Plug(p, t)) && m != s
    requires RenamedCells(p, t, m, h, h') && root' == if p.Top? then m else root
    ensures Rep(Plug(p, t.(node := m)), h', root', s)
  {
    NodesPlug(p, t);
    RepPlug(p, t, h, root, s);
    RepFrame(t.left, h, h', h[t.node].left, s);
    RepFrame(t.right, h, h', h[t.node].right, s);
    RepReplace(p, t, t.(node := m), h, h', root, root', s);
  }

  /** Makes the parent of `subst` point to `temp` instead, and `temp` back to `hook`. */
  method Unlink(subst: Node, temp: Node, hook: Node, ghost p: Path, ghost u: Tree, ghost ns: set<Node>, ghost s: Node)
    requires !p.Top? && p.node in ns && subst.parent == p.node && (subst == p.node.left <==> p.InLeft?)
    requires temp == Ptr(u, s) && s !in ns && (u.Fork? ==> u.node in ns && u.node != p.node && u.node != subst)
    modifies p.node`left, p.node`right, temp`parent
    ensures SplicedCells(p, u, hook, old(View(ns)), View(ns), s) && temp.parent == hook
  {
    if subst == subst.parent.left {
      subst.parent.left := temp;
    } else {
      subst.parent.right := temp;
    }
    temp.parent := hook;
  }

  /** What is known of the pointers before a node with at most one child is taken out. */
  ghost predicate OutReady(tr: RbTree, p: Path, t: Tree, u: Tree, h: Cells, ns: set<Node>)
    reads tr, tr.sentinel, ns
  {
    && !p.Top? && t.Fork? && ((t.left.Leaf? && u == t.right) || (t.right.Leaf? && u == t.left))
    && Distinct(Plug(p, t)) && Nodes(Plug(p, t)) == ns == h.Keys && h == View(ns)
    && Represents(Plug(p, t), h, tr.root, tr.sentinel) && tr.sentinel !in ns && !tr.sentinel.red
    && Nodes(Plug(p, u)) <= ns && Distinct(Plug(p, u))
    && p.node in ns && t.node in ns && t.node.parent == p.node && (t.node == p.node.left <==> p.InLeft?)
    && (u.Fork? ==> u.node in ns && u.node != p.node && u.node != t.node)
  }

  lemma {:induction false} LinkedOutReady(tr: RbTree, p: Path, t: Tree, u: Tree)
    requires tr.Linked() && tr.shape == Plug(p, t) && !p.Top? && t.Fork?
    requires (t.left.Leaf? && u == t.right) || (t.right.Leaf? && u == t.left)
    ensures OutReady(tr, p, t, u, View(Nodes(tr.shape)), Nodes(tr.shape))
  {
    tr.Focus(p, t);
    SplicedNodes(p, t, u);
  }

  method UnlinkOut(
      tr: RbTree, node: Node, temp: Node,
      ghost p: Path, ghost t: Tree, ghost u: Tree, ghost h: Cells, ghost ns: set<Node>)
    requires OutReady(tr, p, t, u, h, ns) && tr.shape == Plug(p, u) && t.node == node && temp == Ptr(u, tr.sentinel)
    modifies ns`left, ns`right, ns`parent, tr.sentinel`parent
    ensures tr.Linked() && tr.shape == Plug(p, u) && temp.parent == p.node
  {
    Unlink(node, temp, node.parent, p, u, ns, tr.sentinel);
    SpliceOutRep(p, t, u, h, View(ns), View(Nodes(tr.shape)), tr.root, tr.sentinel);
  }

  /** Takes a node with at most one child out of the tree. */
  method SpliceOut(tr: RbTree, node: Node, temp: Node, ghost p: Path, ghost t: Tree, ghost u: Tree)
    requires tr.Linked() && tr.shape == Plug(p, t) && !p.Top? && t.Fork? && t.node == node
    requires (t.left.Leaf? && u == t.right) || (t.right.Leaf? && u == t.left)
    requires temp == Ptr(u, tr.sentinel)
    modifies tr`shape, Nodes(tr.shape)`left, Nodes(tr.shape)`right, Nodes(tr.shape)`parent, tr.sentinel`parent
    ensures tr.Linked() && tr.shape == Plug(p, u) && temp.parent == p.node
  {
    ghost var h, ns := View(Nodes(tr.shape)), Nodes(tr.shape);
    LinkedOutReady(tr, p, t, u);
    tr.shape := Plug(p, u);
    UnlinkOut(tr, node, temp, p, t, u, h, ns);
  }

  ghost predicate AdoptedCells(a: Tree, b: Tree, m: Node, h: Cells, h': Cells) {
    && h'.Keys == h.Keys
    && forall n <- h.Keys ::
         h'[n] == if (a.Fork? && n == a.node) || (b.Fork? && n == b.node) then h[n].(parent := m) else h[n]
  }

  method AdoptChildren(node: Node, sentinel: Node, ghost a: Tree, ghost b: Tree, ghost ns: set<Node>)
    requires node.left == Ptr(a, sentinel) && node.right == Ptr(b, sentinel) && sentinel !in ns && node in ns
    requires (a.Fork? ==> a.node in ns && a.node != node) && (b.Fork? ==> b.node in ns && b.node != node)
    modifies ns`parent
    ensures AdoptedCells(a, b, node, old(View(ns)), View(ns))
  {
    if node.left != sentinel {
      node.left.parent := node;
    }
    if node.right != sentinel {
      node.right.parent := node;
    }
  }

  ghost predicate CopiedCells(p: Path, node: Node, m: Node, h: Cells, h': Cells) {
    && h'.Keys == h.Keys && node in h && m in h && h'[m] == h[node]
    && (!p.Top? ==> p.node in h)
    && (p.InLeft? ==> h'[p.node] == h[p.node].(left := m))
    && (p.InRight? ==> h'[p.node] == h[p.node].(right := m))
    && forall n <- h.Keys :: n == m || (!p.Top? && n == p.node) || h'[n] == h[n]
  }

  method CopyFields(tr: RbTree, node: Node, subst: Node, ghost p: Path, ghost ns: set<Node>)
    requires node in ns && subst in ns && subst != node && (node == tr.root <==> p.Top?)
    requires !p.Top? ==> p.node in ns && p.node != node && p.node != subst
    requires !p.Top? ==> node.parent == p.node && (node == p.node.left <==> p.InLeft?)
    modifies tr`root, ns
    ensures CopiedCells(p, node, subst, old(View(ns)), View(ns))
    ensures tr.root == if p.Top? then subst else old(tr.root)
  {
    subst.left := node.left;
    subst.right := node.right;
    subst.parent := node.parent;
    subst.red := node.red;
    Redirect(tr, node, subst, p);
  }

  /** Hands the place of `node` over to `subst`, field by field. */
  method TakePlace(tr: RbTree, node: Node, subst: Node, ghost p: Path, ghost t: Tree, ghost ns: set<Node>)
    requires t.Fork? && t.node == node && node in ns && subst in ns && subst != node && tr.sentinel !in ns
    requires node.left == Ptr(t.left, tr.sentinel) && node.right == Ptr(t.right, tr.sentinel)
    requires t.left.Fork? ==> t.left.node in ns && t.left.node != node && t.left.node != subst
    requires t.right.Fork? ==> t.right.node in ns && t.right.node != node && t.right.node != subst
    requires node == tr.root <==> p.Top?
    requires !p.Top? ==> p.node in ns && p.node != node && p.node != subst
    requires !p.Top? ==> p.node != Ptr(t.left, tr.sentinel) && p.node != Ptr(t.right, tr.sentinel)
    requires !p.Top? ==> node.parent == p.node && (node == p.node.left <==> p.InLeft?)
    modifies tr`root, ns
    ensures RenamedCells(p, t, subst, old(View(ns)), View(ns))
    ensures tr.root == if p.Top? then subst else old(tr.root)
  {
    ghost var h := View(ns);
    CopyFields(tr, node, subst, p, ns);
    ghost var h1 := View(ns);
    assert h1[subst].left == h[node].left && h1[subst].right == h[node].right;
    AdoptChildren(subst, tr.sentinel, t.left, t.right, ns);
  }

  /** The focus of the leftmost node right of the topmost node of `t`. */
  ghost function Successor(p: Path, t: Tree): (r: (Path, Tree))
    requires t.Fork? && t.right.Fork?
    ensures r.1.Fork? && r.1.left.Leaf? && r.1.node == MinNode(t.right)
    ensures Plug(r.0, r.1) == Plug(p, t) && Plug(r.0, r.1.right) == Plug(p, t.(right := RemoveMin(t.right)))
    ensures !r.0.Top?
  {
    MinFocus(InRight(p, t.left, t.node, t.red), t.right)
  }

  lemma {:induction false} SuccessorApart(p: Path, t: Tree)
    requires t.Fork? && t.left.Fork? && t.right.Fork? && Distinct(Plug(p, t))
    ensures var (q, m) := Successor(p, t); var n, u, rest, ns := m.node, m.right, RemoveMin(t.right), Nodes(Plug(p, t));
      && n in ns && t.node in ns && n != t.node
      && t.left.node in ns && t.left.node != t.node && t.left.node != n
      && (rest.Fork? ==> rest.node in ns && rest.node != t.node && rest.node != n)
      && (!p.Top? ==> p.node in ns && p.node != t.node && p.node != n && p.node != t.left.node)
      && (!p.Top? && rest.Fork? ==> p.node != rest.node)
      && (!p.Top? ==> p.node != q.node && (u.Fork? ==> p.node != u.node)) && (u.Fork? ==> u.node != t.node)
      && q.node in ns && q.node != n && (u.Fork? ==> u.node in ns && u.node != q.node && u.node != n)
      && (if t.right.left.Leaf? then q == InRight(p, t.left, t.node, t.red) && rest == u
          else q.InLeft? && q.node != t.node && rest.Fork? && rest.node == t.right.node)
  {
    var (q, m) := Successor(p, t);
    MinFocusSame(InRight(p, t.left, t.node, t.red), Top, t.right);
    NodesPlug(p, t);
    MinFirst(t.right);
    NodesPlug(q, m);
    SuccessorPath(InRight(p, t.left, t.node, t.red), t.right);
    assert m.right.Fork? ==> m.right.node in Nodes(m);
  }

  lemma {:induction false} SuccessorPath(p: Path, t: Tree)
    requires t.Fork?
    ensures Nodes(MinFocus(p, t).1) <= Nodes(t)
    ensures t.left.Fork? ==> MinFocus(p, t).0.InLeft? && MinFocus(p, t).0.node in Nodes(t)
    decreases t
  {
    if t.left.Fork? {
      SuccessorPath(InLeft(p, t.node, t.red, t.right), t.left);
    }
  }

  /** Where `u` was hooked does not matter if it gets a new parent anyway. */
  lemma {:induction false} Rehook(
      q: Path, u: Tree, hook: Node, p: Path, t: Tree, m: Node, h: Cells, h1: Cells, h2: Cells, s: Node)
    returns (g: Cells)
    requires !q.Top? && t.Fork? && SplicedCells(q, u, hook, h, h1, s) && RenamedCells(p, t, m, h1, h2)
    requires hook == q.node || u == t.right
    requires u.Fork? ==> u.node != t.node && u.node != m && u.node != q.node && (!p.Top? ==> u.node != p.node)
    ensures SplicedCells(q, u, q.node, h, g, s) && RenamedCells(p, t, m, g, h2)
  {
    g := if u.Fork? then h1[u.node := h1[u.node].(parent := q.node)] else h1;
  }

  lemma {:induction false} SpliceMinRep(p: Path, t: Tree, hook: Node, h: Cells, h1: Cells, h2: Cells, h': Cells,
                                        root: Node?, root': Node?, s: Node)
    requires t.Fork? && t.left.Fork? && t.right.Fork? && Distinct(Plug(p, t)) && Nodes(Plug(p, t)) == h.Keys
    requires s !in h && Represents(Plug(p, t), h, root, s)
    requires var (q, m) := Successor(p, t); var t1 := t.(right := RemoveMin(t.right));
      && hook == (if q.node == t.node then m.node else q.node)
      && SplicedCells(q, m.right, hook, h, h1, s) && RenamedCells(p, t1, m.node, h1, h2)
      && root' == if p.Top? then m.node else root
    requires h'.Keys == Nodes(Plug(p, RootRemoved(t))) && forall n <- h'.Keys :: n in h2 && h'[n] == h2[n]
    ensures Represents(Plug(p, RootRemoved(t)), h', root', s)
  {
    var (q, m) := Successor(p, t);
    var u, t1 := m.right, t.(right := RemoveMin(t.right));
    SuccessorApart(p, t);
    var g := Rehook(q, u, hook, p, t1, m.node, h, h1, h2, s);
    SpliceRep(q, m, u, h, g, root, s);
    SplicedNodes(q, m, u);
    RenameRep(p, t1, m.node, g, h2, root, root', s);
    RootRemovedOrder(p, t);
    RepFrame(Plug(p, RootRemoved(t)), h2, h', root', s);
  }

  /** The pointers from and to the topmost node of `t`, whose right child is `right`. */
  ghost predicate Placed(tr: RbTree, p: Path, t: Tree, right: Tree)
    requires t.Fork?
    reads tr, t.node, if p.Top? then {} else {p.node}
  {
    && t.node.left == Ptr(t.left, tr.sentinel) && t.node.right == Ptr(right, tr.sentinel)
    && (t.node == tr.root <==> p.Top?)
    && (!p.Top? ==> t.node.parent == p.node && (t.node == p.node.left <==> p.InLeft?))
  }

  /** What splicing out the successor of a node with two children relies on. */
  ghost predicate SuccessorReady(tr: RbTree, p: Path, t: Tree, h: Cells, ns: set<Node>)
    reads tr, ns
  {
    && t.Fork? && t.left.Fork? && t.right.Fork? && Distinct(Plug(p, t)) && ns == Nodes(Plug(p, t))
    && tr.sentinel !in ns && h == View(ns) && Represents(Plug(p, t), h, tr.root, tr.sentinel)
    && t.node in ns && (!p.Top? ==> p.node in ns) && Placed(tr, p, t, t.right)
    && var (q, m) := Successor(p, t);
    && q.node in ns && m.node in ns && m.node.parent == q.node && (m.node == q.node.left <==> q.InLeft?)
  }

  lemma {:induction false} LinkedSuccessorReady(tr: RbTree, p: Path, t: Tree)
    requires tr.Linked() && tr.shape == Plug(p, t) && t.Fork? && t.left.Fork? && t.right.Fork?
    ensures SuccessorReady(tr, p, t, View(Nodes(tr.shape)), Nodes(tr.shape))
  {
    SuccessorApart(p, t);
    tr.Focus(p, t);
    tr.Focus(Successor(p, t).0, Successor(p, t).1);
  }

  /** The parent that the missing node leaves behind, read off before the replacement. */
  ghost function Hook(p: Path, t: Tree): (hook: Node)
    requires t.Fork? && t.left.Fork? && t.right.Fork? && Distinct(Plug(p, t))
    ensures hook == Gap(p, t).0.node
  {
    var (q, m) := Successor(p, t);
    SuccessorApart(p, t);
    MinFocusSame(InRight(p, t.left, t.node, t.red), InRight(p, t.left, m.node, t.red), t.right);
    if q.node == t.node then m.node else q.node
  }

  method UnlinkSuccessor(
      tr: RbTree, node: Node, subst: Node, temp: Node,
      ghost p: Path, ghost t: Tree, ghost h: Cells, ghost ns: set<Node>)
    requires SuccessorReady(tr, p, t, h, ns) && t.node == node
    requires subst == Successor(p, t).1.node && temp == Ptr(Successor(p, t).1.right, tr.sentinel)
    modifies ns, tr.sentinel`parent
    ensures SplicedCells(Successor(p, t).0, Successor(p, t).1.right, Hook(p, t), h, View(ns), tr.sentinel)
    ensures Placed(tr, p, t, RemoveMin(t.right)) && temp.parent == Hook(p, t) && tr.sentinel.red == old(tr.sentinel.red)
  {
    ghost var q, m := Successor(p, t).0, Successor(p, t).1;
    SuccessorApart(p, t);
    Unlink(subst, temp, if subst.parent == node then subst else subst.parent, q, m.right, ns, tr.sentinel);
  }

  /** Completes the replacement of `node` by its unlinked successor. */
  method ReplaceBySuccessor(
      tr: RbTree, node: Node, subst: Node, ghost p: Path, ghost t: Tree, ghost h: Cells, ghost ns: set<Node>)
    requires t.Fork? && t.node == node && t.left.Fork? && t.right.Fork? && ns == h.Keys == Nodes(Plug(p, t))
    requires Distinct(Plug(p, t)) && tr.sentinel !in ns && Represents(Plug(p, t), h, tr.root, tr.sentinel)
    requires subst == Successor(p, t).1.node
    requires SplicedCells(Successor(p, t).0, Successor(p, t).1.right, Hook(p, t), h, View(ns), tr.sentinel)
    requires Placed(tr, p, t, RemoveMin(t.right))
    modifies tr`root, ns
    ensures Represents(Plug(p, RootRemoved(t)), View(Nodes(Plug(p, RootRemoved(t)))), tr.root, tr.sentinel)
  {
    ghost var h1, r := View(ns), tr.root;
    SuccessorApart(p, t);
    TakePlace(tr, node, subst, p, t.(right := RemoveMin(t.right)), ns);
    RootRemovedOrder(p, t);
    SpliceMinRep(p, t, Hook(p, t), h, h1, View(ns), View(Nodes(Plug(p, RootRemoved(t)))), r, tr.root, tr.sentinel);
  }

  /** Puts the in-order successor of a node with two children in the place of that node. */
  method SpliceMin(tr: RbTree, node: Node, subst: Node, temp: Node, ghost p: Path, ghost t: Tree)
    requires tr.Linked() && tr.shape == Plug(p, t) && t.Fork? && t.node == node && t.left.Fork? && t.right.Fork?
    requires subst == Successor(p, t).1.node && temp == Ptr(Successor(p, t).1.right, tr.sentinel)
    modifies tr`root, tr`shape, Nodes(tr.shape), tr.sentinel`parent
    ensures tr.Linked() && tr.shape == Plug(p, RootRemoved(t))
    ensures temp == tr.sentinel ==> temp.parent == Gap(p, t).0.node
  {
    ghost var h, ns := View(Nodes(tr.shape)), Nodes(tr.shape);
    LinkedSuccessorReady(tr, p, t);
    RootRemovedOrder(p, t);
    tr.shape := Plug(p, RootRemoved(t));
    UnlinkSuccessor(tr, node, subst, temp, p, t, h, ns);
    ReplaceBySuccessor(tr, node, subst, p, t, h, ns);
  }

  // ---- The whole operation ----

  lemma {:induction false} DroppedSorted(s: seq<Node>, k: nat)
    requires Sorted(s) && k < |s|
    ensures Sorted(s[..k] + s[k + 1..])
  {
    var s' := s[..k] + s[k + 1..];
    assert forall i | 0 <= i < |s'| :: s'[i] == s[if i < k then i else i + 1];
  }

  /** Deletes the root of a tree when it has at most one child. */
  method DeleteRoot(tr: RbTree, temp: Node)
    requires tr.Linked() && RedBlack(tr.shape) && tr.shape.Fork?
    requires tr.shape.left.Leaf? || tr.shape.right.Leaf?
    requires temp == Ptr(RootRemoved(tr.shape), tr.sentinel)
    modifies tr`root, tr`shape, tr.sentinel`red, Nodes(tr.shape)`red
    ensures tr.Linked() && RedBlack(tr.shape)
    ensures InOrder(tr.shape) == InOrder(RootRemoved(old(tr.shape)))
    ensures Nodes(tr.shape) == Nodes(RootRemoved(old(tr.shape)))
  {
    ghost var t, u := tr.shape, RootRemoved(tr.shape);
    HoleColors(Top, t, u);
    DeficientDone(Top, u);
    RootRemovedOrder(Top, t);
    tr.Focus(Top, t);
    RepFrame(u, View(Nodes(t)), View(Nodes(u)), temp, tr.sentinel);
    tr.shape := u;
    tr.root := temp;
    if temp == tr.sentinel {
      temp.red := false;
    } else {
      SetColor(tr, temp, false, Top, u);
    }
  }

  ghost predicate TwoChildren(t: Tree) {
    t.Fork? && t.left.Fork? && t.right.Fork?
  }

  /** Which node leaves its place, and the child that moves up there. */
  method Choose(tr: RbTree, node: Node, ghost p: Path, ghost t: Tree) returns (subst: Node, temp: Node)
    requires tr.Linked() && tr.shape == Plug(p, t) && t.Fork? && t.node == node
    ensures tr.Linked() && temp == Ptr(Gap(p, t).1, tr.sentinel) && subst.red == GapRed(t)
    ensures subst == if TwoChildren(t) then Successor(p, t).1.node else node
    ensures TwoChildren(t) ==> temp == Ptr(Successor(p, t).1.right, tr.sentinel) && subst != tr.root && subst != node
    ensures node == tr.root <==> p.Top?
  {
    tr.Focus(p, t);
    subst := node;
    if node.left == tr.sentinel {
      temp := node.right;
    } else if node.right == tr.sentinel {
      temp := node.left;
    } else {
      ghost var q, m := Successor(p, t).0, Successor(p, t).1;
      tr.Focus(InRight(p, t.left, t.node, t.red), t.right);
      subst := Minimum(tr, node.right, InRight(p, t.left, t.node, t.red), t.right);
      tr.Focus(q, m);
      assert subst.left == tr.sentinel;  // so the child that moves up can only be the right one
      temp := subst.right;
      MinFocusSame(InRight(p, t.left, t.node, t.red), InRight(p, t.left, subst, t.red), t.right);
      MinFocusSame(InRight(p, t.left, t.node, t.red), Top, t.right);
      SuccessorApart(p, t);
    }
  }

  /** Takes `node` out of the tree, possibly by moving its successor. */
  method Splice(tr: RbTree, node: Node, subst: Node, temp: Node, ghost p: Path, ghost t: Tree)
    requires tr.Linked() && tr.shape == Plug(p, t) && t.Fork? && t.node == node
    requires temp == Ptr(Gap(p, t).1, tr.sentinel) && (subst == node <==> !TwoChildren(t))
    requires TwoChildren(t) ==> subst == Successor(p, t).1.node && temp == Ptr(Successor(p, t).1.right, tr.sentinel)
    requires p.Top? ==> TwoChildren(t)
    modifies tr`root, tr`shape, Nodes(tr.shape), tr.sentinel`parent
    ensures tr.Linked() && tr.shape == Plug(Gap(p, t).0, Gap(p, t).1) && temp.parent == Gap(p, t).0.node
  {
    if subst == node {
      SpliceOut(tr, node, temp, p, t, RootRemoved(t));
    } else {
      SpliceMin(tr, node, subst, temp, p, t);
    }
    tr.Focus(Gap(p, t).0, Gap(p, t).1);
  }

  /** `s'` is `s` without its element at position `k`, which is `node`. */
  ghost predicate DeletedAt(s: seq<Node>, s': seq<Node>, node: Node, k: nat) {
    k < |s| && s[k] == node && s' == s[..k] + s[k + 1..]
  }

  lemma {:induction false} GapOrder(p: Path, t: Tree) returns (k: nat)
    requires t.Fork? && Distinct(Plug(p, t)) && Sorted(InOrder(Plug(p, t)))
    ensures var gap := Plug(p, RootRemoved(t)); Sorted(InOrder(gap)) && Nodes(gap) == Nodes(Plug(p, t)) - {t.node}
    ensures DeletedAt(InOrder(Plug(p, t)), InOrder(Plug(p, RootRemoved(t))), t.node, k)
  {
    RootRemovedOrder(p, t);
    k := |Before(p)| + |InOrder(t.left)|;
    DroppedSorted(InOrder(Plug(p, t)), k);
  }

  /** What the shape with the gap looks like, for every node of a sorted red-black tree. */
  lemma {:induction false} GapFacts(shape: Tree, node: Node) returns (p: Path, t: Tree, k: nat)
    requires Distinct(shape) && RedBlack(shape) && Sorted(InOrder(shape)) && node in Nodes(shape)
    ensures shape == Plug(p, t) && t.Fork? && t.node == node
    ensures var gap := Plug(p, RootRemoved(t)); Sorted(InOrder(gap)) && Nodes(gap) == Nodes(shape) - {node}
    ensures DeletedAt(InOrder(shape), InOrder(Plug(p, RootRemoved(t))), node, k)
    ensures var (q, u) := Gap(p, t);
      Plug(q, u) == Plug(p, RootRemoved(t)) && if GapRed(t) then RedBlack(Plug(q, u)) else Deficient(q, u)
  {
    p, t := Find(shape, node).0, Find(shape, node).1;
    k := GapOrder(p, t);
    GapColors(p, t);
  }

  method Delete(tr: RbTree, node: Node) returns (ghost k: nat)
    requires tr.Valid() && node in Nodes(tr.shape)
    modifies tr`root, tr`shape, Nodes(tr.shape), tr.sentinel`parent, tr.sentinel`red
    ensures tr.Valid() && Nodes(tr.shape) == old(Nodes(tr.shape)) - {node}
    ensures DeletedAt(old(InOrder(tr.shape)), InOrder(tr.shape), node, k)
  {
    ghost var p, t;
    p, t, k := GapFacts(tr.shape, node);
    var subst, temp := Choose(tr, node, p, t);
    if subst == tr.root {
      DeleteRoot(tr, temp);
      return;
    }
    var red := subst.red;
    Splice(tr, node, subst, temp, p, t);
    if red {
      return;
    }
    Fixup(tr, temp, Gap(p, t).0, Gap(p, t).1);
  }
}
