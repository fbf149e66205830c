/** Walks over the tree that change nothing: extremes, neighbours and nearest keys. */
module RbSearch {
  import opened RbShape
  import opened RbHeap
  import opened RbRemove

  // ---- Extremes ----

  ghost function MaxNode(t: Tree): Node
    requires t.Fork?
  {
    if t.right.Leaf? then t.node else MaxNode(t.right)
  }

  lemma {:induction false} MaxLast(t: Tree)
    requires t.Fork?
    ensures var s := InOrder(t); |s| > 0 && s[|s| - 1] == MaxNode(t)
  {
    if t.right.Fork? {
      MaxLast(t.right);
    }
  }

  /** The leftmost node below `from`. */
  method Minimum(tr: RbTree, from: Node, ghost p0: Path, ghost t0: Tree) returns (node: Node)
    requires tr.Linked() && tr.shape == Plug(p0, t0) && t0.Fork? && t0.node == from
    ensures tr.Linked() && node == MinNode(t0)
  {
    node := from;
    ghost var p, t := p0, t0;
    tr.Focus(p, t);
    while node.left != tr.sentinel
      invariant tr.Linked() && tr.shape == Plug(p, t) && t.Fork? && t.node == node && MinNode(t) == MinNode(t0)
      invariant node.left == Ptr(t.left, tr.sentinel) && (t.left.Leaf? <==> node.left == tr.sentinel)
      decreases t
    {
      p, t := InLeft(p, t.node, t.red, t.right), t.left;
      node := node.left;
      tr.Focus(p, t);
    }
  }

  /** The rightmost node below `from`. */
  method Maximum(tr: RbTree, from: Node, ghost p0: Path, ghost t0: Tree) returns (node: Node)
    requires tr.Linked() && tr.shape == Plug(p0, t0) && t0.Fork? && t0.node == from
    ensures tr.Linked() && node == MaxNode(t0)
  {
    node := from;
    ghost var p, t := p0, t0;
    tr.Focus(p, t);
    while node.right != tr.sentinel
      invariant tr.Linked() && tr.shape == Plug(p, t) && t.Fork? && t.node == node && MaxNode(t) == MaxNode(t0)
      invariant node.right == Ptr(t.right, tr.sentinel) && (t.right.Leaf? <==> node.right == tr.sentinel)
      decreases t
    {
      p, t := InRight(p, t.left, t.node, t.red), t.right;
      node := node.right;
      tr.Focus(p, t);
    }
  }

  /** Which end of the tree, or which side of a key, a search is after. */
  datatype Side = LEFT | RIGHT | EXACT

  ghost function HeadOrNull(s: seq<Node>): Node? {
    if s == [] then null else s[0]
  }

  ghost function LastOrNull(s: seq<Node>): Node? {
    if s == [] then null else s[|s| - 1]
  }

  method MinMax(tr: RbTree, lr: Side) returns (r: Node?)
    requires tr.Linked()
    ensures tr.Linked() && (r == null <==> tr.shape == Leaf)
    ensures lr == LEFT ==> r == HeadOrNull(InOrder(tr.shape))
    ensures lr == RIGHT ==> r == LastOrNull(InOrder(tr.shape))
  {
    tr.Focus(Top, tr.shape);
    r := null;
    if tr.root == tr.sentinel {
      return;
    }
    MinFirst(tr.shape);
    MaxLast(tr.shape);
    r := tr.root;
    if lr == LEFT {
      r := Minimum(tr, tr.root, Top, tr.shape);
    } else if lr == RIGHT {
      r := Maximum(tr, tr.root, Top, tr.shape);
    }
  }

  // ---- Neighbours ----

  lemma {:induction false} InOrderNodes(t: Tree)
    ensures forall n <- InOrder(t) :: n in Nodes(t)
    ensures forall n <- Nodes(t) :: n in InOrder(t)
  {
    if t.Fork? {
      InOrderNodes(t.left);
      InOrderNodes(t.right);
    }
  }

  lemma {:induction false} InOrderDistinct(t: Tree)
    requires Distinct(t)
    ensures forall i, j | 0 <= i < j < |InOrder(t)| :: InOrder(t)[i] != InOrder(t)[j]
  {
    if t.Fork? {
      InOrderDistinct(t.left);
      InOrderDistinct(t.right);
      InOrderNodes(t.left);
      InOrderNodes(t.right);
      var l, r, s := InOrder(t.left), InOrder(t.right), InOrder(t);
      forall i, j | 0 <= i < j < |s|
        ensures s[i] != s[j]
      {
        assert i < |l| ==> s[i] == l[i] && l[i] in Nodes(t.left);
        assert j < |l| ==> s[j] == l[j];
        assert i > |l| ==> s[i] == r[i - |l| - 1];
        assert j > |l| ==> s[j] == r[j - |l| - 1] && s[j] in Nodes(t.right);
      }
    }
  }

  /** The position of the node in focus, and what stands on either side of it. */
  lemma {:induction false} Neighbours(p: Path, t: Tree, k: nat)
    requires t.Fork? && Distinct(Plug(p, t)) && k < |InOrder(Plug(p, t))| && InOrder(Plug(p, t))[k] == t.node
    ensures InOrder(Plug(p, t))[..k] == Before(p) + InOrder(t.left)
    ensures InOrder(Plug(p, t))[k + 1..] == InOrder(t.right) + After(p)
  {
    var s, l, r := InOrder(Plug(p, t)), InOrder(t.left), InOrder(t.right);
    InOrderPlug(p, t);
    assert s == (Before(p) + l) + [t.node] + (r + After(p));
    var i := |Before(p) + l|;
    assert s[i] == t.node;
    InOrderDistinct(Plug(p, t));
    assert i == k;
  }

  ghost predicate IsNext(s: seq<Node>, node: Node, r: Node?) {
    forall k | 0 <= k < |s| && s[k] == node :: r == if k + 1 < |s| then s[k + 1] else null
  }

  ghost predicate IsPrev(s: seq<Node>, node: Node, r: Node?) {
    forall k | 0 <= k < |s| && s[k] == node :: r == if 0 < k then s[k - 1] else null
  }

  lemma {:induction false} NextIs(p: Path, t: Tree)
    requires t.Fork? && Distinct(Plug(p, t))
    ensures IsNext(InOrder(Plug(p, t)), t.node, HeadOrNull(InOrder(t.right) + After(p)))
    ensures IsPrev(InOrder(Plug(p, t)), t.node, LastOrNull(Before(p) + InOrder(t.left)))
  {
    var s := InOrder(Plug(p, t));
    forall k | 0 <= k < |s| && s[k] == t.node
      ensures s[..k] == Before(p) + InOrder(t.left) && s[k + 1..] == InOrder(t.right) + After(p)
    {
      Neighbours(p, t, k);
    }
  }

  method Next(tr: RbTree, start: Node) returns (r: Node?)
    requires tr.Linked() && start in Nodes(tr.shape)
    ensures tr.Linked() && IsNext(InOrder(tr.shape), start, r)
  {
    ghost var p, t := Find(tr.shape, start).0, Find(tr.shape, start).1;
    NextIs(p, t);
    tr.Focus(p, t);
    if start.right != tr.sentinel {
      tr.Focus(InRight(p, t.left, t.node, t.red), t.right);
      MinFirst(t.right);
      r := Minimum(tr, start.right, InRight(p, t.left, t.node, t.red), t.right);
      return;
    }
    ghost var after := After(p);
    assert InOrder(t.right) + After(p) == after;
    var root, node := tr.root, start;
    while true
      invariant tr.Linked() && tr.shape == Plug(p, t) && t.Fork? && t.node == node && After(p) == after
      decreases Depth(p)
    {
      tr.Focus(p, t);
      var parent := node.parent;
      if node == root {
        return null;
      }
      tr.Focus(p.up, Up(p, t));
      if node == parent.left {
        return parent;
      }
      node := parent;
      p, t := p.up, Up(p, t);
    }
  }

  method Prev(tr: RbTree, start: Node) returns (r: Node?)
    requires tr.Linked() && start in Nodes(tr.shape)
    ensures tr.Linked() && IsPrev(InOrder(tr.shape), start, r)
  {
    ghost var p, t := Find(tr.shape, start).0, Find(tr.shape, start).1;
    NextIs(p, t);
    tr.Focus(p, t);
    if start.left != tr.sentinel {
      tr.Focus(InLeft(p, t.node, t.red, t.right), t.left);
      MaxLast(t.left);
      r := Maximum(tr, start.left, InLeft(p, t.node, t.red, t.right), t.left);
      return;
    }
    ghost var before := Before(p);
    assert Before(p) + InOrder(t.left) == before;
    var root, node := tr.root, start;
    while true
      invariant tr.Linked() && tr.shape == Plug(p, t) && t.Fork? && t.node == node && Before(p) == before
      decreases Depth(p)
    {
      tr.Focus(p, t);
      var parent := node.parent;
      if node == root {
        return null;
      }
      tr.Focus(p.up, Up(p, t));
      if node == parent.right {
        return parent;
      }
      node := parent;
      p, t := p.up, Up(p, t);
    }
  }

  // ---- Nearest keys ----

  /** `r` is the element of the sorted sequence `s` that a search for `key` on side `lr` must find. */
  ghost predicate IsNearest(s: seq<Node>, key: Key, fields: Fields, lr: Side, r: Node?) {
    match lr
    case RIGHT =>
      if r == null then forall n <- s :: KeyCompare(fields, key, n.key) > 0
      else && r in s && KeyCompare(fields, key, r.key) <= 0
           && forall n <- s :: KeyCompare(fields, key, n.key) <= 0 ==> KeyCompare(fields, r.key, n.key) <= 0
    case LEFT =>
      if r == null then forall n <- s :: KeyCompare(fields, key, n.key) < 0
      else && r in s && KeyCompare(fields, key, r.key) >= 0
           && forall n <- s :: KeyCompare(fields, key, n.key) >= 0 ==> KeyCompare(fields, r.key, n.key) >= 0
    case EXACT =>
      if r == null then forall n <- s :: KeyCompare(fields, key, n.key) != 0
      else r in s && KeyCompare(fields, key, r.key) == 0
  }

  /** What a search finds right of the key, unless it is an equal one, is the first of the sequence above the key. */
  ghost predicate FirstAbove(s: seq<Node>, key: Key, fields: Fields, r: Node?) {
    r != null && KeyCompare(fields, key, r.key) != 0 ==>
      exists i | 0 <= i < |s| :: s[i] == r && forall j | 0 <= j < i :: KeyCompare(fields, key, s[j].key) > 0
  }

  /** What a search that comes to `t` with the candidate `best` ends with. */
  ghost function Nearest(t: Tree, key: Key, fields: Fields, lr: Side, best: Node?): Node? {
    if t.Leaf? then best
    else if KeyCompare(fields, key, t.node.key) < 0 then
      Nearest(t.left, key, fields, lr, if lr == RIGHT then t.node else best)
    else if KeyCompare(fields, key, t.node.key) > 0 then
      Nearest(t.right, key, fields, lr, if lr == LEFT then t.node else best)
    else t.node
  }

  /** The key lies strictly between what stands before and what stands after the hole. */
  ghost predicate Brackets(p: Path, key: Key, fields: Fields) {
    && (forall n <- Before(p) :: KeyCompare(fields, key, n.key) > 0)
    && (forall n <- After(p) :: KeyCompare(fields, key, n.key) < 0)
  }

  /** The best candidate seen on the way down to the hole. */
  ghost function Candidate(p: Path, lr: Side): Node? {
    match lr
    case LEFT => LastOrNull(Before(p))
    case RIGHT => HeadOrNull(After(p))
    case EXACT => null
  }

  lemma {:induction false} BracketsDown(p: Path, t: Tree, key: Key, fields: Fields)
    requires t.Fork? && Sorted(InOrder(Plug(p, t))) && Brackets(p, key, fields) && fields.addr
    ensures KeyCompare(fields, key, t.node.key) < 0 ==> Brackets(InLeft(p, t.node, t.red, t.right), key, fields)
    ensures KeyCompare(fields, key, t.node.key) > 0 ==> Brackets(InRight(p, t.left, t.node, t.red), key, fields)
  {
    SortedPlug(p, t);
    assert forall x <- Before(InRight(p, t.left, t.node, t.red)) ::
      x in Before(p) || x in InOrder(t.left) || x == t.node;
    assert forall x <- After(InLeft(p, t.node, t.red, t.right)) ::
      x in After(p) || x in InOrder(t.right) || x == t.node;
  }

  lemma {:induction false} CandidateDown(p: Path, t: Tree, lr: Side)
    requires t.Fork?
    ensures Candidate(InLeft(p, t.node, t.red, t.right), lr) == if lr == RIGHT then t.node else Candidate(p, lr)
    ensures Candidate(InRight(p, t.left, t.node, t.red), lr) == if lr == LEFT then t.node else Candidate(p, lr)
  {
  }

  lemma {:induction false} NearestFound(t: Tree, node: Node, key: Key, fields: Fields, lr: Side)
    requires node in Nodes(t) && KeyCompare(fields, key, node.key) == 0
    ensures IsNearest(InOrder(t), key, fields, lr, node)
  {
    InOrderNodes(t);
  }

  lemma {:induction false} NearestSplit(b: seq<Node>, a: seq<Node>, key: Key, fields: Fields)
    requires Sorted(b + a) && fields.addr
    requires (forall n <- b :: KeyCompare(fields, key, n.key) > 0)
      && (forall n <- a :: KeyCompare(fields, key, n.key) < 0)
    ensures IsNearest(b + a, key, fields, RIGHT, HeadOrNull(a))
    ensures IsNearest(b + a, key, fields, LEFT, LastOrNull(b))
    ensures IsNearest(b + a, key, fields, EXACT, null)
  {
    var s := b + a;
    assert forall n <- s :: n in b || n in a;
    if a != [] {
      assert s[|b|] == a[0];
      forall n <- a
        ensures KeyCompare(fields, a[0].key, n.key) <= 0
      {
        var i :| 0 <= i < |a| && a[i] == n;
        assert s[|b| + i] == n;
      }
    }
    if b != [] {
      forall n <- b
        ensures KeyCompare(fields, b[|b| - 1].key, n.key) >= 0
      {
        var i :| 0 <= i < |b| && b[i] == n;
        assert s[i] == n && s[|b| - 1] == b[|b| - 1];
      }
    }
  }

  lemma {:induction false} FirstAboveSplit(b: seq<Node>, a: seq<Node>, key: Key, fields: Fields)
    requires forall n <- b :: KeyCompare(fields, key, n.key) > 0
    ensures FirstAbove(b + a, key, fields, HeadOrNull(a))
  {
    if a != [] {
      assert (b + a)[|b|] == HeadOrNull(a);
    }
  }

  lemma {:induction false} NearestLeaf(p: Path, key: Key, fields: Fields, lr: Side)
    requires Sorted(InOrder(Plug(p, Leaf))) && Brackets(p, key, fields) && fields.addr
    ensures IsNearest(InOrder(Plug(p, Leaf)), key, fields, lr, Candidate(p, lr))
    ensures lr == RIGHT ==> FirstAbove(InOrder(Plug(p, Leaf)), key, fields, Candidate(p, lr))
  {
    InOrderPlug(p, Leaf);
    assert InOrder(Plug(p, Leaf)) == Before(p) + After(p);
    NearestSplit(Before(p), After(p), key, fields);
    FirstAboveSplit(Before(p), After(p), key, fields);
  }

  method LookupNearest(tr: RbTree, key: Key, fields: Fields, lr: Side) returns (n: Node?)
    requires tr.Linked() && Sorted(InOrder(tr.shape)) && fields.addr
    ensures tr.Linked() && IsNearest(InOrder(tr.shape), key, fields, lr, n)
    ensures n == Nearest(tr.shape, key, fields, lr, null)
    ensures lr == RIGHT ==> FirstAbove(InOrder(tr.shape), key, fields, n)
  {
    ghost var p, t := Top, tr.shape;
    tr.Focus(p, t);
    n := null;
    var node := tr.root;
    while node != tr.sentinel
      invariant tr.Linked() && tr.shape == Plug(p, t)
      invariant node == Ptr(t, tr.sentinel) && (t.Leaf? <==> node == tr.sentinel)
      invariant Brackets(p, key, fields) && n == Candidate(p, lr)
      invariant Nearest(t, key, fields, lr, n) == Nearest(tr.shape, key, fields, lr, null)
      decreases t
    {
      BracketsDown(p, t, key, fields);
      CandidateDown(p, t, lr);
      tr.Focus(p, t);
      var rc := KeyCompare(fields, key, node.key);
      if rc < 0 {
        if lr == RIGHT {
          n := node;
        }
        node := node.left;
        p, t := InLeft(p, t.node, t.red, t.right), t.left;
      } else if rc > 0 {
        if lr == LEFT {
          n := node;
        }
        node := node.right;
        p, t := InRight(p, t.left, t.node, t.red), t.right;
      } else {
        NearestFound(tr.shape, node, key, fields, lr);
        return node;
      }
      tr.Focus(p, t);
    }
    NearestLeaf(p, key, fields, lr);
  }

  // ---- Height ----

  ghost function Height(t: Tree): nat {
    if t.Leaf? then 0 else 1 + if Height(t.left) > Height(t.right) then Height(t.left) else Height(t.right)
  }

  ghost function Pow2(n: nat): nat {
    if n == 0 then 1 else 2 * Pow2(n - 1)
  }

  lemma {:induction false} BlackHeightCounts(t: Tree)
    requires NoRedRed(t) && Balanced(t)
    ensures Height(t) <= 2 * BlackHeight(t) + (if Black(t) then 0 else 1)
    ensures Pow2(BlackHeight(t)) <= |InOrder(t)| + 1
  {
    if t.Fork? {
      BlackHeightCounts(t.left);
      BlackHeightCounts(t.right);
    }
  }

  lemma {:induction false} Pow2Double(n: nat)
    ensures Pow2(2 * n) == Pow2(n) * Pow2(n)
  {
    if n > 0 {
      Pow2Double(n - 1);
      assert Pow2(2 * n) == 2 * Pow2(2 * n - 1) == 4 * Pow2(2 * (n - 1));
    }
  }

  lemma {:induction false} Pow2Monotonic(m: nat, n: nat)
    requires m <= n
    ensures Pow2(m) <= Pow2(n)
    decreases n
  {
    if m < n {
      Pow2Monotonic(m, n - 1);
    }
  }

  lemma {:induction false} SquareMonotonic(b: nat, n: nat)
    requires b <= n
    ensures b * b <= n * n
  {
    assert b * b <= b * n;
    assert b * n <= n * n;
  }

  /** The height of a red-black tree with `n` nodes is at most 2 * log2(n + 1). */
  lemma {:induction false} HeightBound(t: Tree)
    requires RedBlack(t)
    ensures Pow2(Height(t)) <= (|InOrder(t)| + 1) * (|InOrder(t)| + 1)
  {
    BlackHeightCounts(t);
    Pow2Monotonic(Height(t), 2 * BlackHeight(t));
    Pow2Double(BlackHeight(t));
    SquareMonotonic(Pow2(BlackHeight(t)), |InOrder(t)| + 1);
  }
}
