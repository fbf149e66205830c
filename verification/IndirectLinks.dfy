/**
  Indirect links of the topology: for every pair of nodes that reach each other only through
  CPUs, a link is appended to the very arrays that are searched for direct links. `Search` is
  what one search finds in given arrays; `Rows` is what the whole construction yields when every
  search is made in the original arrays.
 */
module IndirectLinks {
  import opened Machine

  datatype Kind = Undefined | PciExpress | Qpi | Other(code: nat)

  datatype Link = Link(kind: Kind, from: nat, to: nat, weight: U32)

  datatype HeapType = FrameBufferPublic | OtherHeap

  /** A node without a GPU id is a CPU. */
  datatype Node = Node(gpu: bool, hive: U64, banks: seq<HeapType>)

  /** What a search reports; a weight of 0 means that there is no indirect link. */
  datatype Found = Found(kind: Kind, weight: U32)

  const NOTHING := Found(Undefined, 0)

  // ---- One search ----

  /** The first link to the node, or the length of the list. */
  function FirstTo(links: seq<Link>, node: nat): (i: nat)
    ensures i <= |links| && (i < |links| ==> links[i].to == node)
    ensures forall j | 0 <= j < i :: links[j].to != node
  {
    if links == [] || links[0].to == node then 0 else 1 + FirstTo(links[1..], node)
  }

  /** Heavier PCIe links lead through a CPU to another GPU. */
  predicate ToCpu(l: Link) {
    l.kind == PciExpress && l.weight <= 20
  }

  /** The first link by which a GPU is attached to a CPU, or the length of the list. */
  function FirstToCpu(links: seq<Link>): (i: nat)
    ensures i <= |links| && (i < |links| ==> ToCpu(links[i]))
    ensures forall j | 0 <= j < i :: !ToCpu(links[j])
  {
    if links == [] || ToCpu(links[0]) then 0 else 1 + FirstToCpu(links[1..])
  }

  /** The CPU that a node is attached to; -1 for a CPU and for a GPU that is not attached. */
  function CpuOf(nodes: seq<Node>, links: seq<seq<Link>>, k: nat): int
    requires k < |nodes| == |links|
  {
    var i := FirstToCpu(links[k]);
    if nodes[k].gpu && i < |links[k]| then links[k][i].to else -1
  }

  /** The CPUs that GPUs are attached to exist. */
  predicate InRange(nodes: seq<Node>, links: seq<seq<Link>>) {
    && |nodes| == |links|
    && forall k | 0 <= k < |nodes| :: CpuOf(nodes, links, k) < |nodes|
  }

  predicate Connected(links: seq<seq<Link>>, a: nat, b: nat) {
    a < |links| && FirstTo(links[a], b) < |links[a]|
  }

  function Direct(links: seq<seq<Link>>, a: nat, b: nat): Link
    requires Connected(links, a, b)
  {
    links[a][FirstTo(links[a], b)]
  }

  predicate LargeBar(n: Node) {
    FrameBufferPublic in n.banks
  }

  /** Node pairs that never get an indirect link: CPUs, GPUs of one hive, GPUs hidden from the host. */
  predicate Excluded(nodes: seq<Node>, a: nat, b: nat)
    requires a < |nodes| && b < |nodes|
  {
    || a == b || (!nodes[a].gpu && !nodes[b].gpu)
    || (nodes[a].hive != 0 && nodes[b].hive != 0 && nodes[a].hive == nodes[b].hive)
    || (nodes[b].gpu && !LargeBar(nodes[b]))
  }

  function Sum(w1: U32, w2: U32, w3: U32): U32 {
    (w1 + w2 + w3) % TWO_32
  }

  /** The new link takes over the kind of the hop in the middle. */
  function Joined(w1: U32, middle: Link, w3: U32): Found {
    Found(middle.kind, Sum(w1, middle.weight, w3))
  }

  function Search(nodes: seq<Node>, links: seq<seq<Link>>, a: nat, b: nat): Found
    requires InRange(nodes, links) && a < |nodes| && b < |nodes|
  {
    var c1, c2 := CpuOf(nodes, links, a), CpuOf(nodes, links, b);
    if Excluded(nodes, a, b) || (c1 < 0 && c2 < 0) then NOTHING
    else if c1 < 0 then
      if Connected(links, a, c2) && Connected(links, c2, b)
      then Joined(0, Direct(links, a, c2), Direct(links, c2, b).weight) else NOTHING
    else if !Connected(links, a, c1) then NOTHING
    else if c2 < 0 || c1 == c2 then
      if Connected(links, c1, b) then Joined(Direct(links, a, c1).weight, Direct(links, c1, b), 0) else NOTHING
    else if !Connected(links, c1, c2) || Remote(Direct(links, c1, c2)) || !Connected(links, c2, b) then NOTHING
    else Joined(Direct(links, a, c1).weight, Direct(links, c1, c2), Direct(links, c2, b).weight)
  }

  /** CPUs in different sockets, whose GPUs cannot reach each other. */
  predicate Remote(l: Link) {
    l.kind == Qpi && l.weight > 20
  }

  // ---- The construction, with all searches in the original arrays ----

  /** What the searches between all pairs of nodes find. */
  type Table = t: seq<seq<Found>> | Square(t)

  predicate Square(t: seq<seq<Found>>) {
    forall a | 0 <= a < |t| :: |t[a]| == |t|
  }

  function Searches(nodes: seq<Node>, links: seq<seq<Link>>): (t: Table)
    requires InRange(nodes, links)
    ensures |t| == |nodes|
    ensures forall a, b | 0 <= a < |nodes| && 0 <= b < |nodes| :: t[a][b] == Search(nodes, links, a, b)
  {
    seq(|nodes|, a requires 0 <= a < |nodes| =>
      seq(|nodes|, b requires 0 <= b < |nodes| => Search(nodes, links, a, b)))
  }

  /** A link is added if the search found one and there is room. */
  function Extended(t: Table, links: seq<seq<Link>>, a: nat, b: nat): (r: seq<seq<Link>>)
    requires |links| == |t| && a < |t| && b < |t|
    ensures |r| == |links|
  {
    if t[a][b].weight == 0 || |links[a]| >= |t| - 1 then links
    else links[a := links[a] + [Link(t[a][b].kind, a, b, t[a][b].weight)]]
  }

  /** Both directions of one pair. */
  function Pair(t: Table, links: seq<seq<Link>>, i: nat, j: nat): (r: seq<seq<Link>>)
    requires |links| == |t| && i < |t| && j < |t|
    ensures |r| == |links|
  {
    Extended(t, Extended(t, links, i, j), j, i)
  }

  /** The pairs of node `i` with node `j` and the nodes behind it. */
  function Row(t: Table, links: seq<seq<Link>>, i: nat, j: nat): (r: seq<seq<Link>>)
    requires |links| == |t| && i < j <= |t|
    ensures |r| == |links|
    decreases |t| - j
  {
    if j == |t| then links else Row(t, Pair(t, links, i, j), i, j + 1)
  }

  /** The pairs of node `i` and the nodes behind it. */
  function Rows(t: Table, links: seq<seq<Link>>, i: nat): (r: seq<seq<Link>>)
    requires |links| == |t| && i <= |t|
    ensures |r| == |links|
    decreases |t| - i
  {
    if i == |t| then links else Rows(t, Row(t, links, i, i + 1), i + 1)
  }

  // ---- What it yields ----

  /** Adding another hop to a PCIe link of the node does not make its weight wrap around. */
  ghost predicate SumsFit(links: seq<seq<Link>>, k: nat)
    requires k < |links|
  {
    forall l <- links[k] | l.kind == PciExpress ::
      forall c: nat, m | Hop(links, c, m) :: l.weight + m.weight < TWO_32
  }

  /** What the node is attached to, if it is, is a CPU. */
  predicate ToACpu(nodes: seq<Node>, links: seq<seq<Link>>, k: nat)
    requires InRange(nodes, links) && k < |nodes|
  {
    var c := CpuOf(nodes, links, k);
    c < 0 || !nodes[c].gpu
  }

  /** There is a direct link, or no search finds another one. */
  predicate Settled(nodes: seq<Node>, links: seq<seq<Link>>, a: nat, b: nat)
    requires InRange(nodes, links) && a < |nodes| && b < |nodes|
  {
    Connected(links, a, b) || Search(nodes, links, a, b).weight == 0
  }

  /** Where a search from or to the node passes: what it is attached to, else the node itself. */
  function Gate(nodes: seq<Node>, links: seq<seq<Link>>, k: nat): nat
    requires InRange(nodes, links) && k < |nodes|
  {
    if CpuOf(nodes, links, k) < 0 then k else CpuOf(nodes, links, k)
  }

  /**
    Not too many links, and what a GPU is attached to is a CPU, or is settled with all gates. For a
    GPU that is attached to nothing, no sum of weights may look like a link to a CPU.
   */
  ghost predicate AcceptableAt(nodes: seq<Node>, links: seq<seq<Link>>, k: nat)
    requires InRange(nodes, links) && k < |nodes|
  {
    && |links[k]| <= |nodes| - 1
    && (nodes[k].gpu && CpuOf(nodes, links, k) < 0 ==> SumsFit(links, k))
    && (ToACpu(nodes, links, k) || GatesSettled(nodes, links, CpuOf(nodes, links, k)))
  }

  ghost predicate GatesSettled(nodes: seq<Node>, links: seq<seq<Link>>, c: nat)
    requires InRange(nodes, links) && c < |nodes|
  {
    forall x | 0 <= x < |nodes| ::
      var g := Gate(nodes, links, x);
      g < |nodes| && Settled(nodes, links, c, g) && Settled(nodes, links, g, c)
  }

  ghost predicate Acceptable(nodes: seq<Node>, links: seq<seq<Link>>) {
    && InRange(nodes, links) && 0 < |nodes| < 0x8000_0000
    && forall k | 0 <= k < |nodes| :: AcceptableAt(nodes, links, k)
  }

  /** The link is one hop of the graph. */
  predicate Hop(links: seq<seq<Link>>, a: nat, l: Link) {
    a < |links| && l in links[a]
  }

  predicate IsCpu(nodes: seq<Node>, k: nat) {
    k < |nodes| && !nodes[k].gpu
  }

  predicate TwoHops(nodes: seq<Node>, links: seq<seq<Link>>, a: nat, b: nat, x: Link, y: Link) {
    Hop(links, a, x) && IsCpu(nodes, x.to) && Hop(links, x.to, y) && y.to == b
  }

  predicate ThreeHops(nodes: seq<Node>, links: seq<seq<Link>>, a: nat, b: nat, x: Link, y: Link, z: Link) {
    TwoHops(nodes, links, a, y.to, x, y) && IsCpu(nodes, y.to) && Hop(links, y.to, z) && z.to == b
  }

  /** Two or three hops from `a` to `b` through CPUs, with the sum of their weights. */
  ghost predicate Chain(nodes: seq<Node>, links: seq<seq<Link>>, a: nat, b: nat, weight: U32) {
    || (exists x, y :: TwoHops(nodes, links, a, b, x, y) && weight == Sum(x.weight, y.weight, 0))
    || (exists x, y, z ::
          ThreeHops(nodes, links, a, b, x, y, z) && weight == Sum(x.weight, y.weight, z.weight))
  }

  /** A new link of `k`, with the chain that it stands for. */
  ghost predicate IsChained(nodes: seq<Node>, links: seq<seq<Link>>, k: nat, l: Link)
    requires InRange(nodes, links) && k < |nodes|
  {
    && l.from == k != l.to && l.to < |nodes|
    && (ToACpu(nodes, links, k) && ToACpu(nodes, links, l.to) ==> Chain(nodes, links, k, l.to, l.weight))
  }

  lemma {:induction false} DirectIsHop(links: seq<seq<Link>>, a: nat, b: nat)
    requires Connected(links, a, b)
    ensures Hop(links, a, Direct(links, a, b)) && Direct(links, a, b).to == b
  {
  }

  lemma {:induction false} TwoHopsChain(nodes: seq<Node>, links: seq<seq<Link>>, a: nat, c: nat, b: nat)
    requires Connected(links, a, c) && IsCpu(nodes, c) && Connected(links, c, b)
    ensures Chain(nodes, links, a, b, Sum(Direct(links, a, c).weight, Direct(links, c, b).weight, 0))
  {
    DirectIsHop(links, a, c);
    DirectIsHop(links, c, b);
    assert TwoHops(nodes, links, a, b, Direct(links, a, c), Direct(links, c, b));
  }

  lemma {:induction false} ThreeHopsChain(nodes: seq<Node>, links: seq<seq<Link>>, a: nat, c: nat, d: nat, b: nat)
    requires Connected(links, a, c) && IsCpu(nodes, c) && Connected(links, c, d) && IsCpu(nodes, d)
      && Connected(links, d, b)
    ensures Chain(nodes, links, a, b,
      Sum(Direct(links, a, c).weight, Direct(links, c, d).weight, Direct(links, d, b).weight))
  {
    DirectIsHop(links, a, c);
    DirectIsHop(links, c, d);
    DirectIsHop(links, d, b);
    assert ThreeHops(nodes, links, a, b, Direct(links, a, c), Direct(links, c, d), Direct(links, d, b));
  }

  lemma {:induction false} SearchIsChain(nodes: seq<Node>, links: seq<seq<Link>>, a: nat, b: nat)
    requires InRange(nodes, links) && a < |nodes| && b < |nodes| && Search(nodes, links, a, b).weight != 0
    requires ToACpu(nodes, links, a) && ToACpu(nodes, links, b)
    ensures Chain(nodes, links, a, b, Search(nodes, links, a, b).weight)
  {
    var c1, c2 := CpuOf(nodes, links, a), CpuOf(nodes, links, b);
    if c1 < 0 {
      TwoHopsChain(nodes, links, a, c2, b);
      assert forall x: U32, y: U32 :: Sum(x, y, 0) == Sum(0, x, y);
    } else if c2 < 0 || c1 == c2 {
      TwoHopsChain(nodes, links, a, c1, b);
    } else {
      ThreeHopsChain(nodes, links, a, c1, c2, b);
    }
  }

  /** A light PCIe link that ends at a GPU is taken for one to a CPU, and the search goes through that GPU. */
  lemma {:induction false} SearchThroughGpu(gpu: Node, nodes: seq<Node>, links: seq<seq<Link>>)
    requires gpu == Node(true, 0, [FrameBufferPublic]) && nodes == [gpu, gpu, gpu]
    requires links == [[Link(PciExpress, 0, 1, 20)], [Link(PciExpress, 1, 2, 20)], [Link(PciExpress, 2, 1, 20)]]
    ensures InRange(nodes, links) && !ToACpu(nodes, links, 0) && Search(nodes, links, 0, 2) == Found(PciExpress, 40)
    ensures forall w :: !Chain(nodes, links, 0, 2, w)
  {
    assert FirstToCpu(links[0]) == 0 && FirstToCpu(links[1]) == 0 && FirstToCpu(links[2]) == 0;
    assert CpuOf(nodes, links, 0) == 1 && CpuOf(nodes, links, 2) == 1 && CpuOf(nodes, links, 1) == 2;
    assert Direct(links, 0, 1) == links[0][0] && Direct(links, 1, 2) == links[1][0];
    assert FrameBufferPublic in nodes[2].banks;
  }

  /** The link is one that the table lists. */
  predicate Listed(t: Table, a: nat, l: Link)
    requires a < |t|
  {
    l.from == a && l.to < |t| && l.weight != 0 && t[a][l.to] == Found(l.kind, l.weight)
  }

  /** Original links first, then listed ones. */
  predicate DerivedAt(t: Table, from: seq<seq<Link>>, links: seq<seq<Link>>, k: nat)
    requires |from| == |links| == |t| && k < |t|
  {
    && from[k] <= links[k] && |links[k]| <= |t| - 1
    && forall l <- links[k][|from[k]|..] :: Listed(t, k, l)
  }

  /** The arrays after some of the pairs. */
  predicate Derived(t: Table, from: seq<seq<Link>>, links: seq<seq<Link>>) {
    |from| == |links| == |t| && forall k | 0 <= k < |t| :: DerivedAt(t, from, links, k)
  }

  lemma {:induction false} ExtendedDerived(t: Table, from: seq<seq<Link>>, links: seq<seq<Link>>, a: nat, b: nat)
    requires Derived(t, from, links) && a < |t| && b < |t|
    ensures Derived(t, from, Extended(t, links, a, b))
  {
    var r := Extended(t, links, a, b);
    forall k | 0 <= k < |t|
      ensures DerivedAt(t, from, r, k)
    {
      assert DerivedAt(t, from, links, k);
      if r[k] != links[k] {
        assert r[k][|from[k]|..] == links[k][|from[k]|..] + [Link(t[a][b].kind, a, b, t[a][b].weight)];
      }
    }
  }

  lemma {:induction false} PairDerived(t: Table, from: seq<seq<Link>>, links: seq<seq<Link>>, i: nat, j: nat)
    requires Derived(t, from, links) && i < |t| && j < |t|
    ensures Derived(t, from, Pair(t, links, i, j))
  {
    ExtendedDerived(t, from, links, i, j);
    ExtendedDerived(t, from, Extended(t, links, i, j), j, i);
  }

  lemma {:induction false} RowDerived(t: Table, from: seq<seq<Link>>, links: seq<seq<Link>>, i: nat, j: nat)
    requires Derived(t, from, links) && i < j <= |t|
    ensures Derived(t, from, Row(t, links, i, j))
    decreases |t| - j
  {
    if j < |t| {
      PairDerived(t, from, links, i, j);
      RowDerived(t, from, Pair(t, links, i, j), i, j + 1);
    }
  }

  lemma {:induction false} RowsDerived(t: Table, from: seq<seq<Link>>, links: seq<seq<Link>>, i: nat)
    requires Derived(t, from, links) && i <= |t|
    ensures Derived(t, from, Rows(t, links, i))
    decreases |t| - i
  {
    if i < |t| {
      RowDerived(t, from, links, i, i + 1);
      RowsDerived(t, from, Row(t, links, i, i + 1), i + 1);
    }
  }

  lemma {:induction false} OriginalDerived(nodes: seq<Node>, from: seq<seq<Link>>)
    requires Acceptable(nodes, from)
    ensures Derived(Searches(nodes, from), from, from)
  {
    forall k | 0 <= k < |nodes|
      ensures DerivedAt(Searches(nodes, from), from, from, k)
    {
      assert AcceptableAt(nodes, from, k);
    }
  }

  /**
    The original links stay in front, no node gets more links than there are other nodes, and each
    new link is a chain of two or three original hops through CPUs, if its ends are attached to CPUs.
   */
  lemma {:induction false} IndirectLinksAreChains(nodes: seq<Node>, from: seq<seq<Link>>, k: nat)
    requires Acceptable(nodes, from) && k < |nodes|
    ensures var r := Rows(Searches(nodes, from), from, 0)[k];
      && from[k] <= r && |r| <= |nodes| - 1
      && forall l <- r[|from[k]|..] :: IsChained(nodes, from, k, l)
  {
    var t := Searches(nodes, from);
    OriginalDerived(nodes, from);
    RowsDerived(t, from, from, 0);
    var r := Rows(t, from, 0);
    assert DerivedAt(t, from, r, k);
    forall l <- r[k][|from[k]|..]
      ensures IsChained(nodes, from, k, l)
    {
      assert Listed(t, k, l);
      if ToACpu(nodes, from, k) && ToACpu(nodes, from, l.to) {
        SearchIsChain(nodes, from, k, l.to);
      }
    }
  }

  // ---- Nothing is left out ----

  /** What the table lists for `a` and `b` is among the links of `a`, unless these are full. */
  predicate Served(t: Table, links: seq<seq<Link>>, a: nat, b: nat)
    requires |links| == |t| && a < |t| && b < |t|
  {
    t[a][b].weight == 0 || |links[a]| >= |t| - 1 || Link(t[a][b].kind, a, b, t[a][b].weight) in links[a]
  }

  lemma {:induction false} ExtendedServes(t: Table, links: seq<seq<Link>>, i: nat, j: nat, a: nat, b: nat)
    requires |links| == |t| && i < |t| && j < |t| && a < |t| && b < |t|
    requires (a == i && b == j) || Served(t, links, a, b)
    ensures Served(t, Extended(t, links, i, j), a, b)
  {
  }

  lemma {:induction false} PairServes(t: Table, links: seq<seq<Link>>, i: nat, j: nat, a: nat, b: nat)
    requires |links| == |t| && i < |t| && j < |t| && a < |t| && b < |t|
    requires (a == i && b == j) || (a == j && b == i) || Served(t, links, a, b)
    ensures Served(t, Pair(t, links, i, j), a, b)
  {
    if (a == i && b == j) || Served(t, links, a, b) {
      ExtendedServes(t, links, i, j, a, b);
    }
    ExtendedServes(t, Extended(t, links, i, j), j, i, a, b);
  }

  lemma {:induction false} RowServes(t: Table, links: seq<seq<Link>>, i: nat, j: nat, a: nat, b: nat)
    requires |links| == |t| && i < j <= |t| && a < |t| && b < |t|
    requires (a == i && j <= b) || (b == i && j <= a) || Served(t, links, a, b)
    ensures Served(t, Row(t, links, i, j), a, b)
    decreases |t| - j
  {
    if j < |t| {
      if (a == i && b == j) || (a == j && b == i) || Served(t, links, a, b) {
        PairServes(t, links, i, j, a, b);
      }
      RowServes(t, Pair(t, links, i, j), i, j + 1, a, b);
    }
  }

  /** Every indirect link that the original graph has is added as long as there is room. */
  lemma {:induction false} RowsServe(t: Table, links: seq<seq<Link>>, i: nat, a: nat, b: nat)
    requires |links| == |t| && i <= |t| && a < |t| && b < |t| && a != b
      && ((i <= a && i <= b) || Served(t, links, a, b))
    ensures Served(t, Rows(t, links, i), a, b)
    decreases |t| - i
  {
    if i < |t| {
      if a == i || b == i || Served(t, links, a, b) {
        RowServes(t, links, i, i + 1, a, b);
      }
      RowsServe(t, Row(t, links, i, i + 1), i + 1, a, b);
    }
  }

  lemma {:induction false} FoundIsAdded(nodes: seq<Node>, from: seq<seq<Link>>, a: nat, b: nat)
    requires InRange(nodes, from) && a < |nodes| && b < |nodes| && a != b && Search(nodes, from, a, b).weight != 0
    ensures var r, f := Rows(Searches(nodes, from), from, 0)[a], Search(nodes, from, a, b);
      |r| >= |nodes| - 1 || Link(f.kind, a, b, f.weight) in r
  {
    RowsServe(Searches(nodes, from), from, 0, a, b);
  }

  // ---- Searching the arrays that are being extended ----

  lemma {:induction false} FirstToPrefix(links: seq<Link>, more: seq<Link>, node: nat)
    requires links <= more && (FirstTo(links, node) < |links| || forall l <- more[|links|..] :: l.to != node)
    ensures if FirstTo(links, node) < |links| then FirstTo(more, node) == FirstTo(links, node)
      else FirstTo(more, node) == |more|
  {
    forall i | |links| <= i < |more|
      ensures more[i] in more[|links|..]
    {
      assert more[i] == more[|links|..][i - |links|];
    }
  }

  /** No indirect link of a GPU that is attached to nothing looks like one to a CPU. */
  lemma {:induction false} UnattachedStays(nodes: seq<Node>, from: seq<seq<Link>>, k: nat, l: Link)
    requires Acceptable(nodes, from) && k < |nodes| && nodes[k].gpu && CpuOf(nodes, from, k) < 0
    requires Listed(Searches(nodes, from), k, l)
    ensures !ToCpu(l)
  {
    assert AcceptableAt(nodes, from, k);
    var c := CpuOf(nodes, from, l.to);
    assert Search(nodes, from, k, l.to) == Found(l.kind, l.weight);
    assert c >= 0 && Connected(from, k, c) && Connected(from, c, l.to);
    var x, y := Direct(from, k, c), Direct(from, c, l.to);
    DirectIsHop(from, k, c);
    DirectIsHop(from, c, l.to);
    assert !ToCpu(x);
    assert x.kind == PciExpress ==> l.weight == x.weight + y.weight;
  }

  lemma {:induction false} SameCpuOf(nodes: seq<Node>, from: seq<seq<Link>>, links: seq<seq<Link>>, k: nat)
    requires Acceptable(nodes, from) && Derived(Searches(nodes, from), from, links) && k < |nodes|
    ensures CpuOf(nodes, links, k) == CpuOf(nodes, from, k)
  {
    assert DerivedAt(Searches(nodes, from), from, links, k);
    if nodes[k].gpu && CpuOf(nodes, from, k) < 0 {
      forall i | |from[k]| <= i < |links[k]|
        ensures !ToCpu(links[k][i])
      {
        assert links[k][i] == links[k][|from[k]|..][i - |from[k]|];
        UnattachedStays(nodes, from, k, links[k][i]);
      }
    }
  }

  /** New links do not connect nodes that were connected or that no search connects. */
  lemma {:induction false} SameDirect(nodes: seq<Node>, from: seq<seq<Link>>, links: seq<seq<Link>>, a: nat, b: nat)
    requires Acceptable(nodes, from) && Derived(Searches(nodes, from), from, links) && a < |nodes| && b < |nodes|
    requires Connected(from, a, b) || Search(nodes, from, a, b).weight == 0
    ensures Connected(links, a, b) <==> Connected(from, a, b)
    ensures Connected(from, a, b) ==> Direct(links, a, b) == Direct(from, a, b)
  {
    assert DerivedAt(Searches(nodes, from), from, links, a);
    FirstToPrefix(from[a], links[a], b);
  }

  /** The links between a GPU and its CPU exist, or no search finds another one. */
  lemma {:induction false} CpuHops(nodes: seq<Node>, from: seq<seq<Link>>, a: nat)
    requires InRange(nodes, from) && a < |nodes| && CpuOf(nodes, from, a) >= 0
    ensures var c := CpuOf(nodes, from, a); Connected(from, a, c) && Settled(nodes, from, c, a)
  {
    var c := CpuOf(nodes, from, a);
    assert from[a][FirstToCpu(from[a])].to == c;
  }

  /** So do those between the CPUs of two nodes. */
  lemma {:induction false} CpusSettled(nodes: seq<Node>, from: seq<seq<Link>>, a: nat, b: nat)
    requires Acceptable(nodes, from) && a < |nodes| && b < |nodes|
    requires CpuOf(nodes, from, a) >= 0 && CpuOf(nodes, from, b) >= 0
    ensures Settled(nodes, from, CpuOf(nodes, from, a), CpuOf(nodes, from, b))
  {
    assert AcceptableAt(nodes, from, a) && AcceptableAt(nodes, from, b);
    assert Gate(nodes, from, a) == CpuOf(nodes, from, a) && Gate(nodes, from, b) == CpuOf(nodes, from, b);
  }

  /** And those between a CPU and a node without one. */
  lemma {:induction false} CpuSettled(nodes: seq<Node>, from: seq<seq<Link>>, a: nat, b: nat)
    requires Acceptable(nodes, from) && a < |nodes| && b < |nodes|
    requires CpuOf(nodes, from, a) >= 0 && CpuOf(nodes, from, b) < 0
    ensures Settled(nodes, from, CpuOf(nodes, from, a), b) && Settled(nodes, from, b, CpuOf(nodes, from, a))
  {
    assert AcceptableAt(nodes, from, a);
    assert Gate(nodes, from, b) == b;
  }

  /** A search in the extended arrays finds what it would find in the original ones. */
  lemma {:induction false} SameSearch(nodes: seq<Node>, from: seq<seq<Link>>, links: seq<seq<Link>>, a: nat, b: nat)
    requires Acceptable(nodes, from) && Derived(Searches(nodes, from), from, links) && a < |nodes| && b < |nodes|
    ensures InRange(nodes, links) && Search(nodes, links, a, b) == Search(nodes, from, a, b)
  {
    forall k | 0 <= k < |nodes|
      ensures CpuOf(nodes, links, k) == CpuOf(nodes, from, k)
    {
      SameCpuOf(nodes, from, links, k);
    }
    var c1, c2 := CpuOf(nodes, from, a), CpuOf(nodes, from, b);
    if !Excluded(nodes, a, b) {
      if c1 >= 0 {
        CpuHops(nodes, from, a);
        SameDirect(nodes, from, links, a, c1);
      }
      if c2 >= 0 {
        CpuHops(nodes, from, b);
        SameDirect(nodes, from, links, c2, b);
      }
      if c1 >= 0 && c2 >= 0 {
        CpusSettled(nodes, from, a, b);
        SameDirect(nodes, from, links, c1, c2);
      } else if c1 >= 0 {
        CpuSettled(nodes, from, a, b);
        SameDirect(nodes, from, links, c1, b);
      } else if c2 >= 0 {
        CpuSettled(nodes, from, b, a);
        SameDirect(nodes, from, links, a, c2);
      }
    }
  }

  /** GPUs 3 and 4 are attached to GPUs 0 and 1, which reach each other through CPU 2. */
  predicate TwoTiers(nodes: seq<Node>, links: seq<seq<Link>>) {
    var gpu := Node(true, 0, [FrameBufferPublic]);
    && nodes == [gpu, gpu, Node(false, 0, []), gpu, gpu]
    && links == [[Link(PciExpress, 0, 2, 20)], [Link(PciExpress, 1, 2, 20), Link(PciExpress, 1, 4, 20)],
                 [Link(PciExpress, 2, 0, 20), Link(PciExpress, 2, 1, 20)],
                 [Link(PciExpress, 3, 0, 20)], [Link(PciExpress, 4, 1, 20)]]
  }

  lemma {:induction false} TwoTiersCpus(nodes: seq<Node>, links: seq<seq<Link>>)
    requires TwoTiers(nodes, links)
    ensures InRange(nodes, links) && CpuOf(nodes, links, 0) == CpuOf(nodes, links, 1) == 2
    ensures CpuOf(nodes, links, 3) == 0 && CpuOf(nodes, links, 4) == 1
  {
  }

  lemma {:induction false} TwoTiersLinks(nodes: seq<Node>, links: seq<seq<Link>>)
    requires TwoTiers(nodes, links)
    ensures Connected(links, 0, 2) && Direct(links, 0, 2) == links[0][0]
    ensures Connected(links, 2, 1) && Direct(links, 2, 1) == links[2][1]
    ensures Connected(links, 3, 0) && Direct(links, 3, 0) == links[3][0]
    ensures Connected(links, 1, 4) && Direct(links, 1, 4) == links[1][1]
    ensures !Connected(links, 0, 1)
  {
    assert FirstTo(links[2][1..], 1) == 0 && FirstTo(links[1][1..], 4) == 0;
  }

  lemma {:induction false} TwoTiersSearch(nodes: seq<Node>, links: seq<seq<Link>>)
    requires TwoTiers(nodes, links)
    ensures InRange(nodes, links)
    ensures Search(nodes, links, 0, 1) == Found(PciExpress, 40) && Search(nodes, links, 3, 4) == NOTHING
  {
    TwoTiersCpus(nodes, links);
    TwoTiersLinks(nodes, links);
    assert LargeBar(nodes[1]) && LargeBar(nodes[4]);
  }

  /** Where GPUs are attached to GPUs, a search can find what only a link added before makes possible. */
  lemma {:induction false} SearchUsesNewLink(nodes: seq<Node>, from: seq<seq<Link>>, links: seq<seq<Link>>)
    requires TwoTiers(nodes, from) && links == from[0 := from[0] + [Link(PciExpress, 0, 1, 40)]]
    ensures InRange(nodes, from) && InRange(nodes, links) && links == Extended(Searches(nodes, from), from, 0, 1)
    ensures Search(nodes, from, 3, 4) == NOTHING && Search(nodes, links, 3, 4) == Found(PciExpress, 80)
  {
    TwoTiersSearch(nodes, from);
    TwoTiersCpus(nodes, from);
    TwoTiersLinks(nodes, from);
    FirstToPrefix(from[0], links[0], 2);
    assert FirstTo(links[0], 1) == 1 by {
      assert FirstTo(links[0][1..], 1) == 0;
    }
    assert CpuOf(nodes, links, 0) == 2;
    assert Direct(links, 0, 1) == Link(PciExpress, 0, 1, 40);
    assert LargeBar(nodes[4]);
  }

  // ---- The arrays ----

  class Topology {
    const nodes: seq<Node>
    var links: seq<seq<Link>>

    constructor (nodes: seq<Node>, links: seq<seq<Link>>)
      ensures this.nodes == nodes && this.links == links
    {
      this.nodes, this.links := nodes, links;
    }

    method DirectCpu(k: nat) returns (c: int)
      requires InRange(nodes, links) && k < |nodes|
      ensures c == CpuOf(nodes, links, k)
    {
      if !nodes[k].gpu || |links[k]| == 0 {
        return -1;
      }
      for i := 0 to |links[k]|
        invariant forall j | 0 <= j < i :: !ToCpu(links[k][j])
      {
        if ToCpu(links[k][i]) {
          return links[k][i].to;
        }
      }
      return -1;
    }

    method DirectLink(a: nat, b: nat) returns (ok: bool, l: Link)
      requires a < |links|
      ensures ok <==> Connected(links, a, b)
      ensures ok ==> l == Direct(links, a, b)
    {
      for i := 0 to |links[a]|
        invariant forall j | 0 <= j < i :: links[a][j].to != b
      {
        if links[a][i].to == b {
          return true, links[a][i];
        }
      }
      return false, Link(Undefined, a, b, 0);
    }

    method IndirectLink(a: nat, b: nat) returns (weight: U32, kind: Kind)
      requires InRange(nodes, links) && a < |nodes| && b < |nodes|
      ensures weight == Search(nodes, links, a, b).weight
      ensures weight != 0 ==> kind == Search(nodes, links, a, b).kind
    {
      weight, kind := 0, Undefined;
      if a == b || (!nodes[a].gpu && !nodes[b].gpu) {
        return;
      }
      if nodes[a].hive != 0 && nodes[b].hive != 0 && nodes[a].hive == nodes[b].hive {
        return;
      }
      var c1, c2 := -1, -1;
      if nodes[a].gpu {
        c1 := DirectCpu(a);
      }
      if nodes[b].gpu {
        c2 := DirectCpu(b);
      }
      if c1 < 0 && c2 < 0 {
        return;
      }
      if nodes[b].gpu && !LargeBar(nodes[b]) {
        return;
      }
      if c1 < 0 {
        var ok, l2 := DirectLink(a, c2);
        kind := l2.kind;
        if ok {
          var ok3, l3 := DirectLink(c2, b);
          weight := if ok3 then Sum(0, l2.weight, l3.weight) else 0;
        }
        return;
      }
      var ok, l1 := DirectLink(a, c1);
      if !ok {
        return;
      }
      if c2 < 0 || c1 == c2 {
        var ok2, l2 := DirectLink(c1, b);
        kind := l2.kind;
        weight := if ok2 then Sum(l1.weight, l2.weight, 0) else 0;
        return;
      }
      var ok2, l2 := DirectLink(c1, c2);
      kind := l2.kind;
      if !ok2 || Remote(l2) {
        return;
      }
      var ok3, l3 := DirectLink(c2, b);
      weight := if ok3 then Sum(l1.weight, l2.weight, l3.weight) else 0;
    }

    method AddLink(a: nat, kind: Kind, b: nat, weight: U32) returns (ok: bool)
      requires a < |links|
      modifies this
      ensures ok <==> |old(links)[a]| < |old(links)| - 1
      ensures links == if ok then old(links)[a := old(links)[a] + [Link(kind, a, b, weight)]] else old(links)
    {
      if |links[a]| >= |links| - 1 {
        return false;
      }
      links := links[a := links[a] + [Link(kind, a, b, weight)]];
      return true;
    }

    /** One direction of a pair; the search is made in the arrays as they are now. */
    method AddIndirect(a: nat, b: nat, ghost t: Table, ghost from: seq<seq<Link>>)
      requires Acceptable(nodes, from) && t == Searches(nodes, from) && Derived(t, from, links)
      requires a < |nodes| && b < |nodes|
      modifies this
      ensures links == Extended(t, old(links), a, b)
    {
      SameSearch(nodes, from, links, a, b);
      var weight, kind := IndirectLink(a, b);
      if weight != 0 {
        var _ := AddLink(a, kind, b, weight);
      }
    }

    method AddPair(i: nat, j: nat, ghost t: Table, ghost from: seq<seq<Link>>)
      requires Acceptable(nodes, from) && t == Searches(nodes, from) && Derived(t, from, links)
      requires i < |nodes| && j < |nodes|
      modifies this
      ensures links == Pair(t, old(links), i, j)
    {
      ExtendedDerived(t, from, links, i, j);
      AddIndirect(i, j, t, from);
      AddIndirect(j, i, t, from);
    }

    method AddRow(i: nat, ghost t: Table, ghost from: seq<seq<Link>>)
      requires Acceptable(nodes, from) && t == Searches(nodes, from) && Derived(t, from, links) && i < |nodes|
      modifies this
      ensures links == Row(t, old(links), i, i + 1) && Derived(t, from, links)
    {
      for j := i + 1 to |nodes|
        invariant Derived(t, from, links) && Row(t, links, i, j) == Row(t, old(links), i, i + 1)
      {
        PairDerived(t, from, links, i, j);
        AddPair(i, j, t, from);
      }
    }

    /** The result is what searches in the original arrays would have given. */
    method CreateIndirectLinks()
      requires Acceptable(nodes, links)
      modifies this
      ensures links == Rows(Searches(nodes, old(links)), old(links), 0)
    {
      OriginalDerived(nodes, links);
      ghost var t := Searches(nodes, links);
      for i := 0 to |nodes| - 1
        invariant Derived(t, old(links), links) && Rows(t, links, i) == Rows(t, old(links), 0)
      {
        AddRow(i, t, old(links));
      }
    }
  }
}
