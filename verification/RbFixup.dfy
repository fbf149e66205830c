/** The fixup loop of deletion on the pointer structure. */
module RbFixup {
  import opened RbShape
  import opened RbHeap
  import opened RbRotate
  import opened RbRemove

  lemma {:induction false} SiblingPointers(tr: RbTree, p: Path, t: Tree)
    requires tr.Linked() && tr.shape == Plug(p, t) && t.Fork?
    ensures t.node.left == Ptr(t.left, tr.sentinel) && t.node.left != null && t.node.left.red == !Black(t.left)
    ensures t.node.right == Ptr(t.right, tr.sentinel) && t.node.right != null && t.node.right.red == !Black(t.right)
  {
    tr.Focus(p, t);
    tr.Focus(InLeft(p, t.node, t.red, t.right), t.left);
    tr.Focus(InRight(p, t.left, t.node, t.red), t.right);
  }

  /** A red sibling turns black and is rotated above the parent, which turns red. */
  method LiftLeft(tr: RbTree, temp: Node, w: Node, ghost p: Path, ghost t: Tree)
    requires tr.Linked() && tr.shape == Plug(p, t) && temp == Ptr(t, tr.sentinel)
    requires p.InLeft? && Steppable(p) && p.right.red && w == p.right.node && temp.parent == p.node
    modifies tr`root, tr`shape, Nodes(tr.shape)
    ensures tr.Linked() && tr.shape == Plug(Lifted(p), t) && temp.parent == p.node
    ensures InOrder(tr.shape) == old(InOrder(tr.shape)) && Nodes(tr.shape) == old(Nodes(tr.shape))
  {
    ghost var s := p.right.(red := false);
    SetColor(tr, w, false, InRight(p.up, t, p.node, p.red), p.right);
    SetColor(tr, temp.parent, true, p.up, Fork(t, p.node, p.red, s));
    LeftRotate(tr, temp.parent, p.up, Fork(t, p.node, true, s));
    tr.Focus(Lifted(p), t);
  }

  /** The red near child of a black sibling is rotated above it. */
  method TurnLeft(tr: RbTree, w: Node, ghost p: Path, ghost t: Tree)
    requires tr.Linked() && tr.shape == Plug(p, t)
    requires p.InLeft? && p.right.Fork? && w == p.right.node && p.right.left.Fork? && Black(p.right.right)
    requires p.right.left.red && !p.right.red
    modifies tr`root, tr`shape, Nodes(tr.shape)
    ensures tr.Linked() && tr.shape == Plug(p.(right := Turned(true, p.right)), t)
    ensures InOrder(tr.shape) == old(InOrder(tr.shape)) && Nodes(tr.shape) == old(Nodes(tr.shape))
  {
    ghost var q, s := InRight(p.up, t, p.node, p.red), p.right;
    tr.Focus(q, s);
    SetColor(tr, w.left, false, InLeft(q, s.node, s.red, s.right), s.left);
    SetColor(tr, w, true, q, s.(left := s.left.(red := false)));
    RightRotate(tr, w, q, s.(red := true, left := s.left.(red := false)));
  }

  /** The sibling takes the parent's place and colour; parent and far child turn black. */
  method BorrowLeft(tr: RbTree, temp: Node, w: Node, ghost p: Path, ghost t: Tree)
    requires tr.Linked() && tr.shape == Plug(p, t)
    requires p.InLeft? && p.right.Fork? && w == p.right.node && p.right.right.Fork? && temp.parent == p.node
    modifies tr`root, tr`shape, Nodes(tr.shape)
    ensures tr.Linked() && tr.shape == Plug(p.up, Borrowed(p, t, p.right))
    ensures InOrder(tr.shape) == old(InOrder(tr.shape)) && Nodes(tr.shape) == old(Nodes(tr.shape))
  {
    ghost var q, s := InRight(p.up, t, p.node, p.red), p.right;
    tr.Focus(p, t);
    tr.Focus(q, s);
    SetColor(tr, w, temp.parent.red, q, s);
    SetColor(tr, temp.parent, false, p.up, Fork(t, p.node, p.red, s.(red := p.red)));
    SetColor(tr, w.right, false, InRight(InRight(p.up, t, p.node, false), s.left, s.node, p.red), s.right);
    LeftRotate(tr, temp.parent, p.up, Fork(t, p.node, false, s.(red := p.red, right := s.right.(red := false))));
  }

  /** A black sibling with a red child makes up for the missing black node. */
  method RestoreLeft(tr: RbTree, temp: Node, sibling: Node, ghost p: Path, ghost t: Tree)
    requires tr.Linked() && tr.shape == Plug(p, t) && temp == Ptr(t, tr.sentinel)
    requires p.InLeft? && p.right.Fork? && !p.right.red && sibling == p.right.node && temp.parent == p.node
    requires !BothBlack(p.right)
    modifies tr`root, tr`shape, Nodes(tr.shape)
    ensures tr.Linked() && tr.shape == Plug(p.up, Borrowed(p, t, Turned(true, p.right)))
    ensures InOrder(tr.shape) == old(InOrder(tr.shape)) && Nodes(tr.shape) == old(Nodes(tr.shape))
  {
    var w := sibling;
    ghost var s := p.right;
    SiblingPointers(tr, InRight(p.up, t, p.node, p.red), s);
    if !w.right.red {
      TurnLeft(tr, w, p, t);
      s := Turned(true, s);
      tr.Focus(p.(right := s), t);
      w := temp.parent.right;
    }
    BorrowLeft(tr, temp, w, p.(right := s), t);
  }

  /** One turn of the fixup loop for a deficient left subtree. */
  method FixLeft(tr: RbTree, temp: Node, ghost p: Path, ghost t: Tree) returns (next: Node)
    requires tr.Linked() && tr.shape == Plug(p, t) && temp == Ptr(t, tr.sentinel)
    requires p.InLeft? && Steppable(p) && temp.parent == p.node
    requires p.right.red ==> Black(p.right.left)
    modifies tr`root, tr`shape, Nodes(tr.shape)
    ensures tr.Linked() && var (p', t') := DeleteStep(p, t); tr.shape == Plug(p', t') && next == Ptr(t', tr.sentinel)
    ensures InOrder(tr.shape) == old(InOrder(tr.shape)) && Nodes(tr.shape) == old(Nodes(tr.shape))
  {
    ghost var q := Lifted(p);
    tr.Focus(p, t);
    tr.Focus(InRight(p.up, t, p.node, p.red), p.right);
    var w := temp.parent.right;
    if w.red {
      LiftLeft(tr, temp, w, p, t);
      tr.Focus(q, t);
      w := temp.parent.right;
    }
    next := FinishLeft(tr, temp, w, q, t);
  }

  method FinishLeft(tr: RbTree, temp: Node, w: Node, ghost p: Path, ghost t: Tree) returns (next: Node)
    requires tr.Linked() && tr.shape == Plug(p, t) && temp == Ptr(t, tr.sentinel)
    requires p.InLeft? && p.right.Fork? && !p.right.red && w == p.right.node && temp.parent == p.node
    modifies tr`root, tr`shape, Nodes(tr.shape)
    ensures tr.Linked() && var (p', t') := DeleteStep(p, t); tr.shape == Plug(p', t') && next == Ptr(t', tr.sentinel)
    ensures InOrder(tr.shape) == old(InOrder(tr.shape)) && Nodes(tr.shape) == old(Nodes(tr.shape))
  {
    ghost var q := InRight(p.up, t, p.node, p.red);
    SiblingPointers(tr, q, p.right);
    if !w.left.red && !w.right.red {
      SetColor(tr, w, true, q, p.right);
      next := temp.parent;
    } else {
      RestoreLeft(tr, temp, w, p, t);
      next := tr.root;
      tr.Focus(Top, tr.shape);
    }
  }

  /** A red sibling turns black and is rotated above the parent, which turns red. */
  method LiftRight(tr: RbTree, temp: Node, w: Node, ghost p: Path, ghost t: Tree)
    requires tr.Linked() && tr.shape == Plug(p, t) && temp == Ptr(t, tr.sentinel)
    requires p.InRight? && Steppable(p) && p.left.red && w == p.left.node && temp.parent == p.node
    modifies tr`root, tr`shape, Nodes(tr.shape)
    ensures tr.Linked() && tr.shape == Plug(Lifted(p), t) && temp.parent == p.node
    ensures InOrder(tr.shape) == old(InOrder(tr.shape)) && Nodes(tr.shape) == old(Nodes(tr.shape))
  {
    ghost var s := p.left.(red := false);
    SetColor(tr, w, false, InLeft(p.up, p.node, p.red, t), p.left);
    SetColor(tr, temp.parent, true, p.up, Fork(s, p.node, p.red, t));
    RightRotate(tr, temp.parent, p.up, Fork(s, p.node, true, t));
    tr.Focus(Lifted(p), t);
  }

  /** The red near child of a black sibling is rotated above it. */
  method TurnRight(tr: RbTree, w: Node, ghost p: Path, ghost t: Tree)
    requires tr.Linked() && tr.shape == Plug(p, t)
    requires p.InRight? && p.left.Fork? && w == p.left.node && p.left.right.Fork? && Black(p.left.left)
    requires p.left.right.red && !p.left.red
    modifies tr`root, tr`shape, Nodes(tr.shape)
    ensures tr.Linked() && tr.shape == Plug(p.(left := Turned(false, p.left)), t)
    ensures InOrder(tr.shape) == old(InOrder(tr.shape)) && Nodes(tr.shape) == old(Nodes(tr.shape))
  {
    ghost var q, s := InLeft(p.up, p.node, p.red, t), p.left;
    tr.Focus(q, s);
    SetColor(tr, w.right, false, InRight(q, s.left, s.node, s.red), s.right);
    SetColor(tr, w, true, q, s.(right := s.right.(red := false)));
    LeftRotate(tr, w, q, s.(red := true, right := s.right.(red := false)));
  }

  /** The sibling takes the parent's place and colour; parent and far child turn black. */
  method BorrowRight(tr: RbTree, temp: Node, w: Node, ghost p: Path, ghost t: Tree)
    requires tr.Linked() && tr.shape == Plug(p, t)
    requires p.InRight? && p.left.Fork? && w == p.left.node && p.left.left.Fork? && temp.parent == p.node
    modifies tr`root, tr`shape, Nodes(tr.shape)
    ensures tr.Linked() && tr.shape == Plug(p.up, Borrowed(p, t, p.left))
    ensures InOrder(tr.shape) == old(InOrder(tr.shape)) && Nodes(tr.shape) == old(Nodes(tr.shape))
  {
    ghost var q, s := InLeft(p.up, p.node, p.red, t), p.left;
    tr.Focus(p, t);
    tr.Focus(q, s);
    SetColor(tr, w, temp.parent.red, q, s);
    SetColor(tr, temp.parent, false, p.up, Fork(s.(red := p.red), p.node, p.red, t));
    SetColor(tr, w.left, false, InLeft(InLeft(p.up, p.node, false, t), s.node, p.red, s.right), s.left);
    RightRotate(tr, temp.parent, p.up, Fork(s.(red := p.red, left := s.left.(red := false)), p.node, false, t));
  }

  /** A black sibling with a red child makes up for the missing black node. */
  method RestoreRight(tr: RbTree, temp: Node, sibling: Node, ghost p: Path, ghost t: Tree)
    requires tr.Linked() && tr.shape == Plug(p, t) && temp == Ptr(t, tr.sentinel)
    requires p.InRight? && p.left.Fork? && !p.left.red && sibling == p.left.node && temp.parent == p.node
    requires !BothBlack(p.left)
    modifies tr`root, tr`shape, Nodes(tr.shape)
    ensures tr.Linked() && tr.shape == Plug(p.up, Borrowed(p, t, Turned(false, p.left)))
    ensures InOrder(tr.shape) == old(InOrder(tr.shape)) && Nodes(tr.shape) == old(Nodes(tr.shape))
  {
    var w := sibling;
    ghost var s := p.left;
    SiblingPointers(tr, InLeft(p.up, p.node, p.red, t), s);
    if !w.left.red {
      TurnRight(tr, w, p, t);
      s := Turned(false, s);
      tr.Focus(p.(left := s), t);
      w := temp.parent.left;
    }
    BorrowRight(tr, temp, w, p.(left := s), t);
  }

  /** One turn of the fixup loop for a deficient right subtree. */
  method FixRight(tr: RbTree, temp: Node, ghost p: Path, ghost t: Tree) returns (next: Node)
    requires tr.Linked() && tr.shape == Plug(p, t) && temp == Ptr(t, tr.sentinel)
    requires p.InRight? && Steppable(p) && temp.parent == p.node
    requires p.left.red ==> Black(p.left.right)
    modifies tr`root, tr`shape, Nodes(tr.shape)
    ensures tr.Linked() && var (p', t') := DeleteStep(p, t); tr.shape == Plug(p', t') && next == Ptr(t', tr.sentinel)
    ensures InOrder(tr.shape) == old(InOrder(tr.shape)) && Nodes(tr.shape) == old(Nodes(tr.shape))
  {
    ghost var q := Lifted(p);
    tr.Focus(p, t);
    tr.Focus(InLeft(p.up, p.node, p.red, t), p.left);
    var w := temp.parent.left;
    if w.red {
      LiftRight(tr, temp, w, p, t);
      tr.Focus(q, t);
      w := temp.parent.left;
    }
    next := FinishRight(tr, temp, w, q, t);
  }

  method FinishRight(tr: RbTree, temp: Node, w: Node, ghost p: Path, ghost t: Tree) returns (next: Node)
    requires tr.Linked() && tr.shape == Plug(p, t) && temp == Ptr(t, tr.sentinel)
    requires p.InRight? && p.left.Fork? && !p.left.red && w == p.left.node && temp.parent == p.node
    modifies tr`root, tr`shape, Nodes(tr.shape)
    ensures tr.Linked() && var (p', t') := DeleteStep(p, t); tr.shape == Plug(p', t') && next == Ptr(t', tr.sentinel)
    ensures InOrder(tr.shape) == old(InOrder(tr.shape)) && Nodes(tr.shape) == old(Nodes(tr.shape))
  {
    ghost var q := InLeft(p.up, p.node, p.red, t);
    SiblingPointers(tr, q, p.left);
    if !w.left.red && !w.right.red {
      SetColor(tr, w, true, q, p.left);
      next := temp.parent;
    } else {
      RestoreRight(tr, temp, w, p, t);
      next := tr.root;
      tr.Focus(Top, tr.shape);
    }
  }

  /** Repairs a tree that is one black node short on every way down through the focus. */
  method Fixup(tr: RbTree, gap: Node, ghost p0: Path, ghost t0: Tree)
    requires tr.Linked() && tr.shape == Plug(p0, t0) && Deficient(p0, t0) && gap == Ptr(t0, tr.sentinel)
    requires !p0.Top? ==> gap.parent == p0.node
    modifies tr`root, tr`shape, Nodes(tr.shape), tr.sentinel`red
    ensures tr.Linked() && RedBlack(tr.shape)
    ensures InOrder(tr.shape) == old(InOrder(tr.shape)) && Nodes(tr.shape) == old(Nodes(tr.shape))
  {
    var temp := gap;
    ghost var p, t := p0, t0;
    tr.Focus(p, t);
    while temp != tr.root && !temp.red
      invariant tr.Linked() && tr.shape == Plug(p, t) && Deficient(p, t) && temp == Ptr(t, tr.sentinel)
      invariant (!p.Top? ==> temp.parent == p.node) && (p.Top? <==> temp == tr.root)
      invariant temp.red == !Black(t)
      invariant InOrder(tr.shape) == old(InOrder(tr.shape)) && Nodes(tr.shape) == old(Nodes(tr.shape))
      decreases Measure(p, t)
    {
      DeleteStepKeeps(p, t);
      temp := Step(tr, temp, p, t);
      p, t := DeleteStep(p, t).0, DeleteStep(p, t).1;
      tr.Focus(p, t);
    }
    DeficientDone(p, t);
    if temp == tr.sentinel {
      temp.red := false;
    } else {
      SetColor(tr, temp, false, p, t);
    }
  }

  method Step(tr: RbTree, temp: Node, ghost p: Path, ghost t: Tree) returns (next: Node)
    requires tr.Linked() && tr.shape == Plug(p, t) && temp == Ptr(t, tr.sentinel) && Deficient(p, t)
    requires !p.Top? && Steppable(p) && temp.parent == p.node
    modifies tr`root, tr`shape, Nodes(tr.shape)
    ensures tr.Linked() && var (p', t') := DeleteStep(p, t); tr.shape == Plug(p', t') && next == Ptr(t', tr.sentinel)
    ensures InOrder(tr.shape) == old(InOrder(tr.shape)) && Nodes(tr.shape) == old(Nodes(tr.shape))
  {
    tr.Focus(p, t);
    tr.Focus(p.up, Up(p, t));
    assert Sibling(p).red ==> Black(Near(p.InLeft?, Sibling(p)));
    if temp == temp.parent.left {
      next := FixLeft(tr, temp, p, t);
    } else {
      next := FixRight(tr, temp, p, t);
    }
  }
}
