/**
  The indirect links of the topology, said with hops: which routes over existing links make an
  indirect link, of which kind and weight, and that exactly these are found and added.
 */
module IndirectRoutes {
  import opened Machine
  import opened IndirectLinks

  // ---- Routes ----

  /** The first link of `a` that ends at `b`. */
  ghost predicate DirectHop(links: seq<seq<Link>>, a: nat, b: nat, l: Link) {
    && a < |links| && l.to == b
    && exists i | 0 <= i < |links[a]| :: links[a][i] == l && forall j | 0 <= j < i :: links[a][j].to != b
  }

  /** A PCIe link of weight at most 20, by which a GPU is attached. */
  predicate Light(l: Link) {
    l.kind == PciExpress && l.weight <= 20
  }

  /** `c` is where the first light PCIe link of the GPU ends. */
  ghost predicate AttachedTo(nodes: seq<Node>, links: seq<seq<Link>>, k: nat, c: nat) {
    && k < |nodes| == |links| && nodes[k].gpu
    && exists i | 0 <= i < |links[k]| ::
         links[k][i].to == c && Light(links[k][i]) && forall j | 0 <= j < i :: !Light(links[k][j])
  }

  /** A CPU, or a GPU without a light PCIe link. */
  ghost predicate Unattached(nodes: seq<Node>, links: seq<seq<Link>>, k: nat) {
    k < |nodes| == |links| && (nodes[k].gpu ==> forall l <- links[k] :: !Light(l))
  }

  /** The four topologies that make an indirect link. */
  datatype Route =
    | GpuCpuGpu(c: nat, x: Link, y: Link)
    | GpuCpuCpuGpu(c: nat, d: nat, x: Link, y: Link, z: Link)
    | GpuCpuCpu(c: nat, x: Link, y: Link)
    | CpuCpuGpu(d: nat, y: Link, z: Link)

  ghost predicate Leads(nodes: seq<Node>, links: seq<seq<Link>>, a: nat, b: nat, r: Route) {
    match r
    case GpuCpuGpu(c, x, y) =>
      && AttachedTo(nodes, links, a, c) && AttachedTo(nodes, links, b, c)
      && DirectHop(links, a, c, x) && DirectHop(links, c, b, y)
    case GpuCpuCpuGpu(c, d, x, y, z) =>
      && AttachedTo(nodes, links, a, c) && AttachedTo(nodes, links, b, d) && c != d
      && DirectHop(links, a, c, x) && DirectHop(links, c, d, y) && DirectHop(links, d, b, z)
      && !(y.kind == Qpi && y.weight > 20)
    case GpuCpuCpu(c, x, y) =>
      && AttachedTo(nodes, links, a, c) && Unattached(nodes, links, b)
      && DirectHop(links, a, c, x) && DirectHop(links, c, b, y)
    case CpuCpuGpu(d, y, z) =>
      && Unattached(nodes, links, a) && AttachedTo(nodes, links, b, d)
      && DirectHop(links, a, d, y) && DirectHop(links, d, b, z)
  }

  /** The sum of the hops' weights, in 32 bits. */
  function WeightOf(r: Route): U32 {
    match r
    case GpuCpuGpu(_, x, y) => (x.weight + y.weight) % TWO_32
    case GpuCpuCpuGpu(_, _, x, y, z) => (x.weight + y.weight + z.weight) % TWO_32
    case GpuCpuCpu(_, x, y) => (x.weight + y.weight) % TWO_32
    case CpuCpuGpu(_, y, z) => (y.weight + z.weight) % TWO_32
  }

  /** The kind of the hop between CPUs, or of the one from the CPU to the second GPU. */
  function KindOf(r: Route): Kind {
    r.y.kind
  }

  /** Not two CPUs, not GPUs of one hive, and a GPU at the end is visible to the host. */
  predicate Eligible(nodes: seq<Node>, a: nat, b: nat) {
    && a < |nodes| && b < |nodes| && a != b && (nodes[a].gpu || nodes[b].gpu)
    && (nodes[a].hive == 0 || nodes[a].hive != nodes[b].hive)
    && (nodes[b].gpu ==> FrameBufferPublic in nodes[b].banks)
  }

  // ---- Searches ----

  lemma {:induction false} HopIsDirect(links: seq<seq<Link>>, a: nat, b: nat, l: Link)
    requires a < |links|
    ensures DirectHop(links, a, b, l) <==> Connected(links, a, b) && Direct(links, a, b) == l
  {
    var i := FirstTo(links[a], b);
    if DirectHop(links, a, b, l) {
      var j :| 0 <= j < |links[a]| && links[a][j] == l && forall m | 0 <= m < j :: links[a][m].to != b;
      assert i == j;
    }
  }

  lemma {:induction false} AttachedIsCpuOf(nodes: seq<Node>, links: seq<seq<Link>>, k: nat, c: nat)
    requires k < |nodes| == |links|
    ensures AttachedTo(nodes, links, k, c) <==> CpuOf(nodes, links, k) == c
    ensures Unattached(nodes, links, k) <==> CpuOf(nodes, links, k) < 0
  {
    var i := FirstToCpu(links[k]);
    assert i < |links[k]| ==> links[k][i] in links[k];
    if AttachedTo(nodes, links, k, c) {
      var j :| 0 <= j < |links[k]| && links[k][j].to == c && Light(links[k][j])
            && forall m | 0 <= m < j :: !Light(links[k][m]);
      assert ToCpu(links[k][j]) && i == j;
    }
    if CpuOf(nodes, links, k) == c {
      assert Light(links[k][i]);
    }
  }

  lemma {:induction false} EligibleIs(nodes: seq<Node>, a: nat, b: nat)
    requires a < |nodes| && b < |nodes|
    ensures Eligible(nodes, a, b) <==> !Excluded(nodes, a, b)
  {
  }

  /** Every route between eligible nodes is found, with its weight and kind. */
  lemma {:induction false} RouteFound(nodes: seq<Node>, links: seq<seq<Link>>, a: nat, b: nat, r: Route)
    requires InRange(nodes, links) && Eligible(nodes, a, b) && Leads(nodes, links, a, b, r)
    ensures Search(nodes, links, a, b) == Found(KindOf(r), WeightOf(r))
  {
    EligibleIs(nodes, a, b);
    match r
    case GpuCpuGpu(c, x, y) =>
      AttachedIsCpuOf(nodes, links, a, c);
      AttachedIsCpuOf(nodes, links, b, c);
      HopIsDirect(links, a, c, x);
      HopIsDirect(links, c, b, y);
    case GpuCpuCpuGpu(c, d, x, y, z) =>
      AttachedIsCpuOf(nodes, links, a, c);
      AttachedIsCpuOf(nodes, links, b, d);
      HopIsDirect(links, a, c, x);
      HopIsDirect(links, c, d, y);
      HopIsDirect(links, d, b, z);
    case GpuCpuCpu(c, x, y) =>
      AttachedIsCpuOf(nodes, links, a, c);
      AttachedIsCpuOf(nodes, links, b, c);
      HopIsDirect(links, a, c, x);
      HopIsDirect(links, c, b, y);
    case CpuCpuGpu(d, y, z) =>
      AttachedIsCpuOf(nodes, links, a, d);
      AttachedIsCpuOf(nodes, links, b, d);
      HopIsDirect(links, a, d, y);
      HopIsDirect(links, d, b, z);
  }

  lemma {:induction false} HopOf(links: seq<seq<Link>>, a: nat, b: nat) returns (l: Link)
    requires Connected(links, a, b)
    ensures l == Direct(links, a, b) && DirectHop(links, a, b, l)
  {
    l := Direct(links, a, b);
    HopIsDirect(links, a, b, l);
  }

  /** What is found is a route, and only eligible nodes have one. */
  lemma {:induction false} FoundIsRoute(nodes: seq<Node>, links: seq<seq<Link>>, a: nat, b: nat) returns (r: Route)
    requires InRange(nodes, links) && a < |nodes| && b < |nodes| && Search(nodes, links, a, b) != NOTHING
    ensures Eligible(nodes, a, b) && Leads(nodes, links, a, b, r)
    ensures Search(nodes, links, a, b) == Found(KindOf(r), WeightOf(r))
  {
    EligibleIs(nodes, a, b);
    var c1, c2 := CpuOf(nodes, links, a), CpuOf(nodes, links, b);
    AttachedIsCpuOf(nodes, links, a, if c1 < 0 then 0 else c1);
    AttachedIsCpuOf(nodes, links, b, if c2 < 0 then 0 else c2);
    if c1 < 0 {
      var y := HopOf(links, a, c2);
      var z := HopOf(links, c2, b);
      r := CpuCpuGpu(c2, y, z);
    } else if c2 < 0 || c1 == c2 {
      var x := HopOf(links, a, c1);
      var y := HopOf(links, c1, b);
      r := if c2 < 0 then GpuCpuCpu(c1, x, y) else GpuCpuGpu(c1, x, y);
    } else {
      var x := HopOf(links, a, c1);
      var y := HopOf(links, c1, c2);
      var z := HopOf(links, c2, b);
      r := GpuCpuCpuGpu(c1, c2, x, y, z);
    }
  }

  /** A search finds the weight and kind of every route, and nothing if and only if there is none. */
  lemma {:induction false} SearchExactly(nodes: seq<Node>, links: seq<seq<Link>>, a: nat, b: nat)
    requires InRange(nodes, links) && a < |nodes| && b < |nodes|
    ensures forall r | Eligible(nodes, a, b) && Leads(nodes, links, a, b, r) ::
      Search(nodes, links, a, b) == Found(KindOf(r), WeightOf(r))
    ensures !Eligible(nodes, a, b) || (forall r :: !Leads(nodes, links, a, b, r)) ==>
      Search(nodes, links, a, b) == NOTHING
  {
    forall r | Eligible(nodes, a, b) && Leads(nodes, links, a, b, r)
      ensures Search(nodes, links, a, b) == Found(KindOf(r), WeightOf(r))
    {
      RouteFound(nodes, links, a, b, r);
    }
    if Search(nodes, links, a, b) != NOTHING {
      var r := FoundIsRoute(nodes, links, a, b);
    }
  }

  // ---- The construction ----

  /** Every route of the original graph becomes a link unless the array of its first node is full. */
  lemma {:induction false} IndirectLinksAreComplete(nodes: seq<Node>, from: seq<seq<Link>>, a: nat, b: nat, r: Route)
    requires InRange(nodes, from) && Eligible(nodes, a, b) && Leads(nodes, from, a, b, r) && WeightOf(r) != 0
    ensures var result := Rows(Searches(nodes, from), from, 0)[a];
      |result| >= |nodes| - 1 || Link(KindOf(r), a, b, WeightOf(r)) in result
  {
    RouteFound(nodes, from, a, b, r);
    FoundIsAdded(nodes, from, a, b);
  }

  /** Behind the original links there are only links for routes of the original graph. */
  lemma {:induction false} IndirectLinksAreRoutes(nodes: seq<Node>, from: seq<seq<Link>>, k: nat, l: Link)
    requires Acceptable(nodes, from) && k < |nodes|
    requires var result := Rows(Searches(nodes, from), from, 0)[k]; from[k] <= result && l in result[|from[k]|..]
    ensures l.from == k && Eligible(nodes, k, l.to)
    ensures exists r :: Leads(nodes, from, k, l.to, r) && l.kind == KindOf(r) && l.weight == WeightOf(r) != 0
  {
    var t := Searches(nodes, from);
    OriginalDerived(nodes, from);
    RowsDerived(t, from, from, 0);
    assert DerivedAt(t, from, Rows(t, from, 0), k);
    assert Listed(t, k, l);
    var r := FoundIsRoute(nodes, from, k, l.to);
  }
}
