/** Deletion on shapes: which subtree is spliced out, and how the missing black node is made up for. */
module RbRemove {
  import opened RbShape

  // ---- Splicing ----

  ghost function MinNode(t: Tree): Node
    requires t.Fork?
  {
    if t.left.Leaf? then t.node else MinNode(t.left)
  }

  ghost function RemoveMin(t: Tree): Tree
    requires t.Fork?
  {
    if t.left.Leaf? then t.right else Fork(RemoveMin(t.left), t.node, t.red, t.right)
  }

  /** Brings the leftmost node of `t` into focus. */
  ghost function MinFocus(p: Path, t: Tree): (r: (Path, Tree))
    requires t.Fork?
    ensures r.1.Fork? && r.1.left.Leaf? && r.1.node == MinNode(t)
    ensures Plug(r.0, r.1) == Plug(p, t) && Plug(r.0, r.1.right) == Plug(p, RemoveMin(t))
    ensures !p.Top? ==> !r.0.Top?
    decreases t
  {
    if t.left.Leaf? then (p, t) else MinFocus(InLeft(p, t.node, t.red, t.right), t.left)
  }

  /** The focus of the leftmost node below two different contexts differs only in the context. */
  lemma {:induction false} MinFocusSame(p: Path, p': Path, t: Tree)
    requires t.Fork?
    ensures MinFocus(p, t).1 == MinFocus(p', t).1
    ensures t.left.Leaf? ==> MinFocus(p, t).0 == p
    ensures t.left.Fork? ==>
      var q, q' := MinFocus(p, t).0, MinFocus(p', t).0; q.InLeft? && q'.InLeft? && q.node == q'.node
    decreases t
  {
    if t.left.Fork? {
      MinFocusSame(InLeft(p, t.node, t.red, t.right), InLeft(p', t.node, t.red, t.right), t.left);
    }
  }

  lemma {:induction false} MinFirst(t: Tree)
    requires t.Fork?
    ensures InOrder(t) == [MinNode(t)] + InOrder(RemoveMin(t))
    ensures Nodes(t) == {MinNode(t)} + Nodes(RemoveMin(t))
    ensures Distinct(t) ==> Distinct(RemoveMin(t)) && MinNode(t) !in Nodes(RemoveMin(t))
  {
    if t.left.Fork? {
      MinFirst(t.left);
      assert InOrder(t) == [MinNode(t)] + (InOrder(RemoveMin(t.left)) + [t.node] + InOrder(t.right));
    }
  }

  /** The tree that takes the place of `t` once its topmost node is deleted. */
  ghost function RootRemoved(t: Tree): Tree
    requires t.Fork?
  {
    if t.left.Leaf? then t.right
    else if t.right.Leaf? then t.left
    else Fork(t.left, MinNode(t.right), t.red, RemoveMin(t.right))
  }

  /** The place where a node goes missing when the topmost node of `t` is deleted. */
  ghost function Gap(p: Path, t: Tree): (r: (Path, Tree))
    requires t.Fork?
    ensures Plug(r.0, r.1) == Plug(p, RootRemoved(t))
    ensures !p.Top? || (t.left.Fork? && t.right.Fork?) ==> !r.0.Top?
  {
    if t.left.Leaf? then (p, t.right)
    else if t.right.Leaf? then (p, t.left)
    else
      var m := MinFocus(InRight(p, t.left, MinNode(t.right), t.red), t.right);
      (m.0, m.1.right)
  }

  /** The colour of the node that goes missing. */
  ghost function GapRed(t: Tree): bool
    requires t.Fork?
  {
    if t.left.Leaf? || t.right.Leaf? then t.red else MinFocus(Top, t.right).1.red
  }

  lemma {:induction false} RootRemovedNodes(t: Tree)
    requires t.Fork? && Distinct(t)
    ensures InOrder(RootRemoved(t)) == InOrder(t.left) + InOrder(t.right)
    ensures Nodes(RootRemoved(t)) == Nodes(t) - {t.node} && Distinct(RootRemoved(t))
  {
    if t.left.Fork? && t.right.Fork? {
      MinFirst(t.right);
    }
  }

  lemma {:induction false} DropOne<T>(a: seq<T>, l: seq<T>, x: T, r: seq<T>, b: seq<T>)
    ensures var s, k := a + (l + [x] + r) + b, |a| + |l|;
      s[k] == x && s[..k] + s[k + 1..] == a + (l + r) + b
  {
    var s, k := a + (l + [x] + r) + b, |a| + |l|;
    assert s[..k] == a + l;
    assert s[k + 1..] == r + b;
  }

  /** Deletion removes exactly one node and keeps the order of the others. */
  lemma {:induction false} RootRemovedOrder(p: Path, t: Tree)
    requires t.Fork? && Distinct(Plug(p, t))
    ensures var k := |Before(p)| + |InOrder(t.left)|; var s := InOrder(Plug(p, t));
      k < |s| && s[k] == t.node && InOrder(Plug(p, RootRemoved(t))) == s[..k] + s[k + 1..]
    ensures Nodes(Plug(p, RootRemoved(t))) == Nodes(Plug(p, t)) - {t.node}
    ensures Distinct(Plug(p, RootRemoved(t)))
  {
    NodesPlug(p, t);
    NodesPlug(p, RootRemoved(t));
    RootRemovedNodes(t);
    InOrderPlug(p, t);
    InOrderPlug(p, RootRemoved(t));
    DropOne(Before(p), InOrder(t.left), t.node, InOrder(t.right), After(p));
  }

  // ---- The fixup loop ----

  /**
    A red-black tree, except that every way down through the hole is one black node short.
    A red node in focus is about to be blackened, so its children may be red.
   */
  ghost predicate Deficient(p: Path, t: Tree) {
    && (t.Fork? ==> NoRedRed(t.(red := false))) && Balanced(t)
    && PathNoRedRed(p) && PathBalanced(p, BlackHeight(t) + 1) && PathRootBlack(p)
  }

  /** Taking out a node with at most one child: harmless when it is red. */
  lemma {:induction false} HoleColors(p: Path, m: Tree, u: Tree)
    requires m.Fork? && RedBlack(Plug(p, m))
    requires (m.left.Leaf? && u == m.right) || (m.right.Leaf? && u == m.left)
    ensures m.red ==> RedBlack(Plug(p, u))
    ensures !m.red ==> Deficient(p, u)
  {
    BalancedPlug(p, m);
    NoRedRedPlug(p, m);
    RootBlackPlug(p, m);
    BalancedPlug(p, u);
    NoRedRedPlug(p, u);
    RootBlackPlug(p, u);
  }

  /** Renaming the node in focus changes no colour and no height. */
  lemma {:induction false} RenameColors(p: Path, t: Tree, n: Node)
    requires t.Fork? && RedBlack(Plug(p, t))
    ensures RedBlack(Plug(p, t.(node := n)))
  {
    BalancedPlug(p, t);
    NoRedRedPlug(p, t);
    RootBlackPlug(p, t);
    BalancedPlug(p, t.(node := n));
    NoRedRedPlug(p, t.(node := n));
    RootBlackPlug(p, t.(node := n));
  }

  lemma {:induction false} GapColors(p: Path, t: Tree)
    requires t.Fork? && RedBlack(Plug(p, t))
    ensures var (q, u) := Gap(p, t); GapRed(t) ==> RedBlack(Plug(q, u))
    ensures var (q, u) := Gap(p, t); !GapRed(t) ==> Deficient(q, u)
  {
    if t.left.Leaf? || t.right.Leaf? {
      HoleColors(p, t, Gap(p, t).1);
    } else {
      var n := MinNode(t.right);
      RenameColors(p, t, n);
      var q := InRight(p, t.left, n, t.red);
      MinFocusSame(q, Top, t.right);
      HoleColors(MinFocus(q, t.right).0, MinFocus(q, t.right).1, Gap(p, t).1);
    }
  }

  // The loop treats left and right alike; `onLeft` says on which side of its parent the hole is,
  // and "near" and "far" are meant as seen from the hole.

  ghost function Join(onLeft: bool, near: Tree, n: Node, red: bool, far: Tree): (r: Tree)
    ensures r.Fork?
  {
    if onLeft then Fork(near, n, red, far) else Fork(far, n, red, near)
  }

  ghost function Ctx(onLeft: bool, up: Path, n: Node, red: bool, far: Tree): (r: Path)
    ensures !r.Top? && r.up == up && r.node == n && r.red == red && Sibling(r) == far
  {
    if onLeft then InLeft(up, n, red, far) else InRight(up, far, n, red)
  }

  ghost function Near(onLeft: bool, w: Tree): Tree
    requires w.Fork?
  {
    if onLeft then w.left else w.right
  }

  ghost function Far(onLeft: bool, w: Tree): Tree
    requires w.Fork?
  {
    if onLeft then w.right else w.left
  }

  /** The context after a red sibling was rotated above the parent. */
  ghost function Lifted(p: Path): Path
    requires !p.Top? && Sibling(p).Fork?
  {
    var w, onLeft := Sibling(p), p.InLeft?;
    if w.red then Ctx(onLeft, Ctx(onLeft, p.up, w.node, false, Far(onLeft, w)), p.node, true, Near(onLeft, w)) else p
  }

  /** A black sibling after its red near child was rotated above it, unless its far child is red. */
  ghost function Turned(onLeft: bool, w: Tree): Tree
    requires w.Fork? && (!Black(Near(onLeft, w)) || !Black(Far(onLeft, w)))
  {
    var near := Near(onLeft, w);
    if Black(Far(onLeft, w)) then
      Join(onLeft, Near(onLeft, near), near.node, false, Join(onLeft, Far(onLeft, near), w.node, true, Far(onLeft, w)))
    else w
  }

  /** The parent's subtree after the sibling was rotated above the parent for good. */
  ghost function Borrowed(p: Path, t: Tree, w: Tree): Tree
    requires !p.Top? && w.Fork? && Far(p.InLeft?, w).Fork?
  {
    var onLeft := p.InLeft?;
    var far := Far(onLeft, w);
    Join(onLeft, Join(onLeft, t, p.node, false, Near(onLeft, w)), w.node, p.red, far.(red := false))
  }

  ghost predicate Steppable(p: Path) {
    && !p.Top? && Sibling(p).Fork?
    && (Sibling(p).red ==> Near(p.InLeft?, Sibling(p)).Fork?)
  }

  ghost predicate BothBlack(w: Tree)
    requires w.Fork?
  {
    Black(w.left) && Black(w.right)
  }

  /** One turn of the fixup loop. */
  ghost function DeleteStep(p: Path, t: Tree): (Path, Tree)
    requires Steppable(p)
  {
    var q := Lifted(p);
    var w := Sibling(q);
    if BothBlack(w) then
      (q.up, Join(q.InLeft?, t, q.node, q.red, w.(red := true)))
    else
      (Top, Plug(q.up, Borrowed(q, t, Turned(q.InLeft?, w))))
  }

  ghost function Measure(p: Path, t: Tree): nat {
    if Black(t) then Depth(p) else 0
  }

  /** The sibling of a deficient black subtree is never the sentinel. */
  lemma {:induction false} SiblingExists(p: Path, t: Tree)
    requires Deficient(p, t) && !p.Top?
    ensures Steppable(p)
  {
  }

  lemma {:induction false} LiftedKeeps(p: Path, t: Tree)
    requires Deficient(p, t) && !p.Top?
    ensures Steppable(p) && var q := Lifted(p);
      && Deficient(q, t) && Steppable(q) && Black(Sibling(q)) && (q == p || q.red)
  {
    SiblingExists(p, t);
    assert PathNoRedRed(p.up) && PathBalanced(p.up, BlackHeight(t) + 1 + Weight(p.red));
    var w := Sibling(p);
    if w.red {
      assert !p.red;
      var q := Lifted(p);
      assert Balanced(Near(p.InLeft?, w)) && Balanced(Far(p.InLeft?, w));
      assert PathBalanced(q.up, BlackHeight(t) + 1);
      SiblingExists(q, t);
    }
  }

  lemma {:induction false} PassedUpKeeps(p: Path, t: Tree)
    requires Deficient(p, t) && !p.Top? && Black(t) && Sibling(p).Fork? && Black(Sibling(p)) && BothBlack(Sibling(p))
    ensures var w := Sibling(p); Deficient(p.up, Join(p.InLeft?, t, p.node, p.red, w.(red := true)))
  {
    assert PathNoRedRed(p.up) && PathBalanced(p.up, BlackHeight(t) + 1 + Weight(p.red));
  }

  lemma {:induction false} TurnedKeeps(onLeft: bool, w: Tree)
    requires w.Fork? && Black(w) && NoRedRed(w) && Balanced(w) && !BothBlack(w)
    ensures var w' := Turned(onLeft, w);
      && w'.Fork? && Black(w') && NoRedRed(w') && Balanced(w') && BlackHeight(w') == BlackHeight(w)
      && !Black(Far(onLeft, w'))
  {
    assert Balanced(w.left) && Balanced(w.right);
    if Black(Far(onLeft, w)) {
      var n := Near(onLeft, w);
      var far := Join(onLeft, Far(onLeft, n), w.node, true, Far(onLeft, w));
      assert Balanced(far) && NoRedRed(far);
    }
  }

  lemma {:induction false} BorrowedKeeps(p: Path, t: Tree, w: Tree)
    requires Deficient(p, t) && !p.Top? && Black(t)
    requires w.Fork? && Black(w) && NoRedRed(w) && Balanced(w) && BlackHeight(w) == BlackHeight(t) + 1
    requires !Black(Far(p.InLeft?, w))
    ensures RedBlack(Plug(p.up, Borrowed(p, t, w)))
  {
    assert PathNoRedRed(p.up) && PathBalanced(p.up, BlackHeight(t) + 1 + Weight(p.red));
    var onLeft, far, b := p.InLeft?, Far(p.InLeft?, w), Borrowed(p, t, w);
    var near' := Join(onLeft, t, p.node, false, Near(onLeft, w));
    assert Balanced(near') && NoRedRed(near') && BlackHeight(near') == BlackHeight(t) + 1;
    assert Balanced(far.(red := false)) && NoRedRed(far.(red := false));
    BalancedPlug(p.up, b);
    NoRedRedPlug(p.up, b);
    RootBlackPlug(p.up, b);
  }

  /** A turn of the fixup loop keeps its invariant and makes progress. */
  lemma {:induction false} DeleteStepKeeps(p: Path, t: Tree)
    requires Deficient(p, t) && !p.Top? && Black(t)
    ensures Steppable(p) && var (p', t') := DeleteStep(p, t);
      Deficient(p', t') && Measure(p', t') < Measure(p, t)
  {
    LiftedKeeps(p, t);
    var q := Lifted(p);
    var w := Sibling(q);
    if BothBlack(w) {
      PassedUpKeeps(q, t);
    } else {
      TurnedKeeps(q.InLeft?, w);
      BorrowedKeeps(q, t, Turned(q.InLeft?, w));
    }
  }

  /** When the loop stops, blackening the focus completes the red-black tree. */
  lemma {:induction false} DeficientDone(p: Path, t: Tree)
    requires Deficient(p, t) && (p.Top? || !Black(t))
    ensures t.Fork? ==> RedBlack(Plug(p, t.(red := false)))
    ensures t.Leaf? ==> RedBlack(Plug(p, t))
  {
    if t.Fork? {
      var t' := t.(red := false);
      BalancedPlug(p, t');
      NoRedRedPlug(p, t');
      RootBlackPlug(p, t');
    }
  }
}
