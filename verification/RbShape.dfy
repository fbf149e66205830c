/**
  Red-black trees as values: the shape that a pointer structure represents, one-hole
  contexts of such shapes, and the colour, height and order facts that rebalancing relies on.
  Nothing in this module reads the heap.
 */
module RbShape {
  import opened Machine

  /** Search key of a node; `hsakmt` orders by address and then by size. */
  datatype Key = Key(addr: U64, size: U64)

  /** Which key fields a comparison looks at. */
  datatype Fields = Fields(addr: bool, size: bool)

  const LKP_ALL := Fields(true, true)

  function KeyCompare(fields: Fields, a: Key, b: Key): int {
    if fields.addr && a.addr != b.addr then
      if a.addr > b.addr then 1 else -1
    else if fields.size && a.size != b.size then
      if a.size > b.size then 1 else -1
    else
      0
  }

  class Node {
    const key: Key
    var left: Node?
    var right: Node?
    var parent: Node?
    var red: bool

    constructor (key: Key)
      ensures this.key == key
    {
      this.key := key;
    }
  }

  datatype Tree = Leaf | Fork(left: Tree, node: Node, red: bool, right: Tree)

  /** A tree with one subtree missing, seen from the hole upwards. */
  datatype Path =
    | Top
    | InLeft(up: Path, node: Node, red: bool, right: Tree)
    | InRight(up: Path, left: Tree, node: Node, red: bool)

  ghost function Plug(p: Path, t: Tree): Tree {
    match p
    case Top => t
    case InLeft(up, n, c, r) => Plug(up, Fork(t, n, c, r))
    case InRight(up, l, n, c) => Plug(up, Fork(l, n, c, t))
  }

  /** The subtree in focus together with its parent. */
  ghost function Up(p: Path, t: Tree): (r: Tree)
    requires !p.Top?
    ensures r.Fork? && Plug(p.up, r) == Plug(p, t)
  {
    if p.InLeft? then Fork(t, p.node, p.red, p.right) else Fork(p.left, p.node, p.red, t)
  }

  /** The subtree beside the hole. */
  ghost function Sibling(p: Path): Tree
    requires !p.Top?
  {
    if p.InLeft? then p.right else p.left
  }

  /** The context of the left or right subtree of the tree in focus. */
  ghost function Down(p: Path, t: Tree, goLeft: bool): (r: Path)
    requires t.Fork?
    ensures Plug(r, if goLeft then t.left else t.right) == Plug(p, t)
    ensures !r.Top? && r.node == t.node && (r.InLeft? <==> goLeft)
  {
    if goLeft then InLeft(p, t.node, t.red, t.right) else InRight(p, t.left, t.node, t.red)
  }

  ghost function Depth(p: Path): nat {
    if p.Top? then 0 else 1 + Depth(p.up)
  }

  // ---- Nodes and order ----

  ghost function Nodes(t: Tree): set<Node> {
    match t
    case Leaf => {}
    case Fork(l, n, _, r) => Nodes(l) + {n} + Nodes(r)
  }

  ghost function PathNodes(p: Path): set<Node> {
    match p
    case Top => {}
    case InLeft(up, n, _, r) => PathNodes(up) + {n} + Nodes(r)
    case InRight(up, l, n, _) => PathNodes(up) + {n} + Nodes(l)
  }

  ghost function InOrder(t: Tree): seq<Node> {
    match t
    case Leaf => []
    case Fork(l, n, _, r) => InOrder(l) + [n] + InOrder(r)
  }

  /** The nodes that come before the hole, in order. */
  ghost function Before(p: Path): seq<Node> {
    match p
    case Top => []
    case InLeft(up, _, _, _) => Before(up)
    case InRight(up, l, n, _) => Before(up) + InOrder(l) + [n]
  }

  /** The nodes that come after the hole, in order. */
  ghost function After(p: Path): seq<Node> {
    match p
    case Top => []
    case InLeft(up, n, _, r) => [n] + InOrder(r) + After(up)
    case InRight(up, _, _, _) => After(up)
  }

  lemma {:induction false} Regroup<T>(a: seq<T>, b: seq<T>, c: seq<T>, d: seq<T>, e: seq<T>)
    ensures a + (b + c + d) + e == a + b + (c + d + e)
    ensures a + (b + c + d) + e == (a + b + c) + d + e
  {
  }

  lemma {:induction false} InOrderPlug(p: Path, t: Tree)
    ensures InOrder(Plug(p, t)) == Before(p) + InOrder(t) + After(p)
  {
    match p
    case Top =>
    case InLeft(up, n, c, r) =>
      InOrderPlug(up, Fork(t, n, c, r));
      Regroup(Before(up), InOrder(t), [n], InOrder(r), After(up));
    case InRight(up, l, n, c) =>
      InOrderPlug(up, Fork(l, n, c, t));
      Regroup(Before(up), InOrder(l), [n], InOrder(t), After(up));
  }

  ghost predicate Sorted(s: seq<Node>) {
    forall i, j | 0 <= i < j < |s| :: KeyCompare(LKP_ALL, s[i].key, s[j].key) <= 0
  }

  lemma {:induction false} SortedAround(a: seq<Node>, n: Node, b: seq<Node>)
    requires Sorted(a + [n] + b)
    ensures forall x <- a :: KeyCompare(LKP_ALL, x.key, n.key) <= 0
    ensures forall x <- b :: KeyCompare(LKP_ALL, n.key, x.key) <= 0
  {
    var s := a + [n] + b;
    assert s[|a|] == n;
    assert forall i | 0 <= i < |a| :: s[i] == a[i];
    assert forall i | 0 <= i < |b| :: s[|a| + 1 + i] == b[i];
  }

  lemma {:induction false} SortedPlug(p: Path, t: Tree)
    requires t.Fork? && Sorted(InOrder(Plug(p, t)))
    ensures forall x <- InOrder(t.left) :: KeyCompare(LKP_ALL, x.key, t.node.key) <= 0
    ensures forall x <- InOrder(t.right) :: KeyCompare(LKP_ALL, t.node.key, x.key) <= 0
  {
    var l, r := InOrder(t.left), InOrder(t.right);
    InOrderPlug(p, t);
    assert InOrder(Plug(p, t)) == (Before(p) + l) + [t.node] + (r + After(p));
    SortedAround(Before(p) + l, t.node, r + After(p));
    assert forall x <- l :: x in Before(p) + l;
    assert forall x <- r :: x in r + After(p);
  }

  /** No node occurs twice. */
  ghost predicate Distinct(t: Tree) {
    match t
    case Leaf => true
    case Fork(l, n, _, r) =>
      && n !in Nodes(l) && n !in Nodes(r) && Nodes(l) !! Nodes(r)
      && Distinct(l) && Distinct(r)
  }

  ghost predicate DistinctPath(p: Path) {
    match p
    case Top => true
    case InLeft(up, n, _, r) =>
      && n !in PathNodes(up) && n !in Nodes(r) && PathNodes(up) !! Nodes(r)
      && DistinctPath(up) && Distinct(r)
    case InRight(up, l, n, _) =>
      && n !in PathNodes(up) && n !in Nodes(l) && PathNodes(up) !! Nodes(l)
      && DistinctPath(up) && Distinct(l)
  }

  lemma {:induction false} NodesPlug(p: Path, t: Tree)
    ensures Nodes(Plug(p, t)) == PathNodes(p) + Nodes(t)
    ensures Distinct(Plug(p, t)) <==> DistinctPath(p) && Distinct(t) && PathNodes(p) !! Nodes(t)
  {
    match p
    case Top =>
    case InLeft(up, n, c, r) =>
      var t' := Fork(t, n, c, r);
      NodesPlug(up, t');
      assert Nodes(t') == Nodes(t) + {n} + Nodes(r);
    case InRight(up, l, n, c) =>
      var t' := Fork(l, n, c, t);
      NodesPlug(up, t');
      assert Nodes(t') == Nodes(l) + {n} + Nodes(t);
  }

  /** Every node of a tree can be brought into focus. */
  ghost function Find(t: Tree, x: Node): (r: (Path, Tree))
    requires x in Nodes(t)
    ensures Plug(r.0, r.1) == t && r.1.Fork? && r.1.node == x
  {
    FindIn(Top, t, x)
  }

  ghost function FindIn(p: Path, t: Tree, x: Node): (r: (Path, Tree))
    requires x in Nodes(t)
    ensures Plug(r.0, r.1) == Plug(p, t) && r.1.Fork? && r.1.node == x
    decreases t
  {
    if x == t.node then (p, t)
    else if x in Nodes(t.left) then FindIn(InLeft(p, t.node, t.red, t.right), t.left, x)
    else FindIn(InRight(p, t.left, t.node, t.red), t.right, x)
  }

  // ---- Colours and heights ----

  ghost predicate Black(t: Tree) {
    t.Leaf? || !t.red
  }

  ghost predicate NoRedRed(t: Tree) {
    match t
    case Leaf => true
    case Fork(l, _, c, r) => (c ==> Black(l) && Black(r)) && NoRedRed(l) && NoRedRed(r)
  }

  ghost function Weight(red: bool): nat {
    if red then 0 else 1
  }

  /** Number of black nodes on the leftmost way down; on every way down when `Balanced`. */
  ghost function BlackHeight(t: Tree): nat {
    if t.Leaf? then 0 else BlackHeight(t.left) + Weight(t.red)
  }

  ghost predicate Balanced(t: Tree) {
    match t
    case Leaf => true
    case Fork(l, _, _, r) => BlackHeight(l) == BlackHeight(r) && Balanced(l) && Balanced(r)
  }

  ghost predicate RedBlack(t: Tree) {
    Black(t) && NoRedRed(t) && Balanced(t)
  }

  /** The context is balanced once a tree of black height `h` fills the hole. */
  ghost predicate PathBalanced(p: Path, h: int) {
    match p
    case Top => true
    case InLeft(up, _, c, r) => Balanced(r) && BlackHeight(r) == h && PathBalanced(up, h + Weight(c))
    case InRight(up, l, _, c) => Balanced(l) && BlackHeight(l) == h && PathBalanced(up, h + Weight(c))
  }

  /** No red node of the context has a red child, the hole aside. */
  ghost predicate PathNoRedRed(p: Path) {
    match p
    case Top => true
    case InLeft(up, _, c, r) => (c ==> Black(r) && PathBlack(up)) && NoRedRed(r) && PathNoRedRed(up)
    case InRight(up, l, _, c) => (c ==> Black(l) && PathBlack(up)) && NoRedRed(l) && PathNoRedRed(up)
  }

  /** The hole hangs below a black node, or is the whole tree. */
  ghost predicate PathBlack(p: Path) {
    p.Top? || !p.red
  }

  /** The root of the tree belongs to the context and is black, or the hole is the whole tree. */
  ghost predicate PathRootBlack(p: Path) {
    p.Top? || (if p.up.Top? then !p.red else PathRootBlack(p.up))
  }

  lemma {:induction false} BalancedUp(p: Path, t: Tree)
    requires !p.Top?
    ensures BlackHeight(Up(p, t)) == (if p.InLeft? then BlackHeight(t) else BlackHeight(p.left)) + Weight(p.red)
    ensures Balanced(Up(p, t)) <==> Balanced(t) && Balanced(Sibling(p)) && BlackHeight(Sibling(p)) == BlackHeight(t)
    ensures forall h: int :: PathBalanced(p, h) <==>
      Balanced(Sibling(p)) && BlackHeight(Sibling(p)) == h && PathBalanced(p.up, h + Weight(p.red))
  {
  }

  lemma {:induction false} BalancedPlug(p: Path, t: Tree)
    ensures Balanced(Plug(p, t)) <==> Balanced(t) && PathBalanced(p, BlackHeight(t))
  {
    if !p.Top? {
      BalancedUp(p, t);
      BalancedPlug(p.up, Up(p, t));
    }
  }

  lemma {:induction false} NoRedRedPlug(p: Path, t: Tree)
    ensures NoRedRed(Plug(p, t)) <==> NoRedRed(t) && PathNoRedRed(p) && (Black(t) || PathBlack(p))
  {
    match p
    case Top =>
    case InLeft(up, n, c, r) => NoRedRedPlug(up, Fork(t, n, c, r));
    case InRight(up, l, n, c) => NoRedRedPlug(up, Fork(l, n, c, t));
  }

  lemma {:induction false} RootBlackPlug(p: Path, t: Tree)
    ensures Black(Plug(p, t)) <==> if p.Top? then Black(t) else PathRootBlack(p)
  {
    match p
    case Top =>
    case InLeft(up, n, c, r) => RootBlackPlug(up, Fork(t, n, c, r));
    case InRight(up, l, n, c) => RootBlackPlug(up, Fork(l, n, c, t));
  }

  // ---- Rotations ----

  ghost function RotatedLeft(t: Tree): Tree
    requires t.Fork? && t.right.Fork?
  {
    Fork(Fork(t.left, t.node, t.red, t.right.left), t.right.node, t.right.red, t.right.right)
  }

  ghost function RotatedRight(t: Tree): Tree
    requires t.Fork? && t.left.Fork?
  {
    Fork(t.left.left, t.left.node, t.left.red, Fork(t.left.right, t.node, t.red, t.right))
  }

  lemma {:induction false} RotatedLeftSame(t: Tree)
    requires t.Fork? && t.right.Fork?
    ensures InOrder(RotatedLeft(t)) == InOrder(t)
    ensures Nodes(RotatedLeft(t)) == Nodes(t)
    ensures Distinct(RotatedLeft(t)) <==> Distinct(t)
  {
    var a, b, d := t.left, t.right.left, t.right.right;
    var t' := RotatedLeft(t);
    assert Nodes(t.right) == Nodes(b) + {t.right.node} + Nodes(d);
    assert Nodes(t'.left) == Nodes(a) + {t.node} + Nodes(b);
    assert InOrder(t) == InOrder(a) + [t.node] + InOrder(b) + [t.right.node] + InOrder(d);
  }

  lemma {:induction false} RotatedRightSame(t: Tree)
    requires t.Fork? && t.left.Fork?
    ensures InOrder(RotatedRight(t)) == InOrder(t)
    ensures Nodes(RotatedRight(t)) == Nodes(t)
    ensures Distinct(RotatedRight(t)) <==> Distinct(t)
  {
    RotatedLeftSame(RotatedRight(t));
  }
}
