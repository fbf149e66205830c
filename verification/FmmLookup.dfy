/** In every reachable state of the memory manager the searches in its trees find what is there. */
module FmmLookup {
  import opened Machine
  import opened Areas
  import opened RbShape
  import opened Fmm
  import opened FmmInvariant
  import opened FmmRuns
  import opened FmmTrees
  import ObjectLookup

  // ---- The user tree ----

  /** In every state that meets the invariant only empty user pointers have equal keys. */
  lemma {:induction false} UserKeysRepeat(s: State, nodes: seq<Node>, owner: map<Node, nat>)
    requires Indexed(s) && Indexes(nodes, owner, s.userTree)
    ensures ObjectLookup.OnlyEmptyRepeat(nodes)
  {
    forall i, j | 0 <= i < j < |nodes| && nodes[i].key == nodes[j].key
      ensures nodes[i].key.size == 0
    {
      assert nodes[i] in nodes && nodes[j] in nodes;
      assert owner[nodes[i]] != owner[nodes[j]];
    }
  }

  lemma {:induction false} OwnedOnce(nodes: seq<Node>, owner: map<Node, nat>, index: map<nat, Key>, n: Node, m: Node)
    requires Indexes(nodes, owner, index) && n in nodes && m in nodes
    ensures n in owner && m in owner && (owner[n] == owner[m] ==> n == m)
  {
    var i :| 0 <= i < |nodes| && nodes[i] == n;
    var j :| 0 <= j < |nodes| && nodes[j] == m;
    if i != j {
      OwnersDiffer(nodes, owner, index, i, j);
    }
  }

  lemma {:induction false} OnlyAtNode(nodes: seq<Node>, owner: map<Node, nat>, index: map<nat, Key>, addr: U64, id: nat)
    requires Indexes(nodes, owner, index) && OnlyAt(index, addr, id)
    ensures exists n <- nodes :: n.key.addr == addr && forall m <- nodes :: m.key.addr == addr ==> m == n
  {
    var n :| n in nodes && n in owner && owner[n] == id;
    forall m <- nodes | m.key.addr == addr
      ensures m == n
    {
      OwnedOnce(nodes, owner, index, n, m);
    }
  }

  /** An exact search in the user tree is the lookup that registration relies on. */
  lemma {:induction false} UserLookup(s: State, nodes: seq<Node>, owner: map<Node, nat>, addr: U64, size: U64, r: Node?)
    requires Indexes(nodes, owner, s.userTree) && ObjectLookup.IsKeyAt(nodes, addr, size, r)
    ensures LooksUpKey(s, Key(addr, size), if r == null then None else Some(owner[r]))
  {
    forall id <- s.userTree
      ensures exists n <- nodes :: n in owner && owner[n] == id && n.key == s.userTree[id]
    {
      var n :| n in nodes && owner[n] == id;
    }
    forall id | OnlyAt(s.userTree, addr, id)
      ensures exists n <- nodes :: n.key.addr == addr && forall m <- nodes :: m.key.addr == addr ==> m == n
    {
      OnlyAtNode(nodes, owner, s.userTree, addr, id);
    }
  }

  predicate GoalNonempty(pc: Pc) {
    match pc
    case Missed(goal) => goal.UserMemory? ==> goal.size != 0
    case Reserved(_, _, goal) => goal.UserMemory? ==> goal.size != 0
    case Created(_, goal) => goal.UserMemory? ==> goal.size != 0
    case _ => true
  }

  /** No user pointer is empty, registered or on its way to be. */
  ghost predicate UsersNonempty(s: State) {
    && (forall id <- s.userTree :: s.userTree[id].size != 0)
    && (forall t <- s.pcs :: GoalNonempty(s.pcs[t]))
  }

  /** A thread moves on towards a goal that is not empty. */
  ghost predicate GoesOn(s: State, s2: State, t: nat) {
    t in s2.pcs && s2.pcs == s.pcs[t := s2.pcs[t]] && GoalNonempty(s2.pcs[t])
  }

  lemma {:induction false} ReserveGoal(ap: Aperture, s: State, t: nat, rq: Request, goal: Goal)
    requires Alignable(ap, rq) && (goal.UserMemory? ==> goal.size != 0)
    ensures GoesOn(s, Reserve(ap, s, t, rq, goal), t)
  {
  }

  lemma {:induction false} ReserveVaGoal(ap: Aperture, s: State, t: nat, rq: Request, memory: bool)
    requires Alignable(ap, rq)
    ensures GoesOn(s, ReserveVa(ap, s, t, rq, memory), t)
  {
    ReserveGoal(ap, s, t, rq, DeviceMemory);
    var pcs := Reserve(ap, s, t, rq, DeviceMemory).pcs;
    assert pcs[t := Idle] == s.pcs[t := Idle];
  }

  /** The step does not register an empty user pointer. */
  predicate AsksNonempty(step: Step) {
    step.FindUser? && step.goal.UserMemory? ==> step.goal.size != 0
  }

  lemma {:induction false} OthersGoal(ap: Aperture, s: State, step: Step)
    requires ap.pageSize > 0 && Enabled(ap, s, step) && GoalNonempty(s.pcs[step.t]) && AsksNonempty(step)
    requires !step.AllocDevice? && !step.AllocVa? && !step.AllocUser?
    ensures GoesOn(s, Next(ap, s, step), step.t)
  {
  }

  lemma {:induction false} NextGoal(ap: Aperture, s: State, step: Step)
    requires ap.pageSize > 0 && Enabled(ap, s, step) && GoalNonempty(s.pcs[step.t]) && AsksNonempty(step)
    ensures GoesOn(s, Next(ap, s, step), step.t)
  {
    match step
    case AllocDevice(t, rq) => ReserveGoal(ap, s, t, rq, DeviceMemory);
    case AllocVa(t, rq, memory) => ReserveVaGoal(ap, s, t, rq, memory);
    case AllocUser(t) => ReserveGoal(ap, s, t, UserRequest(ap, s.pcs[t].goal), s.pcs[t].goal);
    case _ => OthersGoal(ap, s, step);
  }

  lemma {:induction false} PublishUser(ap: Aperture, s: State, step: Step, id: nat)
    requires ap.pageSize > 0 && UsersNonempty(s) && Enabled(ap, s, step) && step.Publish?
      && id in Next(ap, s, step).userTree
    ensures Next(ap, s, step).userTree[id].size != 0
  {
    assert GoalNonempty(s.pcs[step.t]);
  }

  /** The other steps add nothing to the user tree. */
  lemma {:induction false} OthersUser(ap: Aperture, s: State, step: Step, id: nat)
    requires ap.pageSize > 0 && Enabled(ap, s, step) && !step.Publish? && id in Next(ap, s, step).userTree
    ensures id in s.userTree && Next(ap, s, step).userTree[id] == s.userTree[id]
  {
  }

  lemma {:induction false} NextNonempty(ap: Aperture, s: State, step: Step)
    requires ap.pageSize > 0 && UsersNonempty(s) && Enabled(ap, s, step) && AsksNonempty(step)
    ensures UsersNonempty(Next(ap, s, step))
  {
    NextGoal(ap, s, step);
    forall id <- Next(ap, s, step).userTree
      ensures Next(ap, s, step).userTree[id].size != 0
    {
      if step.Publish? {
        PublishUser(ap, s, step, id);
      } else {
        OthersUser(ap, s, step, id);
      }
    }
  }

  lemma {:induction false} RunNonempty(ap: Aperture, s: State, steps: seq<Step>)
    requires ap.pageSize > 0 && UsersNonempty(s) && EnabledRun(ap, s, steps)
    requires forall step <- steps :: AsksNonempty(step)
    ensures UsersNonempty(FmmRuns.After(ap, s, steps))
    decreases |steps|
  {
    if steps != [] {
      assert steps[0] in steps;
      NextNonempty(ap, s, steps[0]);
      RunNonempty(ap, Next(ap, s, steps[0]), steps[1..]);
    }
  }

  /** The index holds a key around the address. */
  ghost predicate Around(index: map<nat, Key>, id: nat, address: U64) {
    id in index && ObjectLookup.Contains(index[id], address)
  }

  /**
    An empty user pointer at the address, one that starts there and contains it, and none that
    starts before and contains it.
   */
  ghost predicate Shadowed(index: map<nat, Key>, address: U64) {
    && (exists id <- index :: index[id] == Key(address, 0))
    && (exists id <- index :: index[id].addr == address && Around(index, id, address))
    && (forall id <- index | index[id].addr < address :: !Around(index, id, address))
  }

  lemma {:induction false} NodeOf(
      nodes: seq<Node>, owner: map<Node, nat>, index: map<nat, Key>, id: nat) returns (n: Node)
    requires Indexes(nodes, owner, index) && id in index
    ensures n in nodes && n in owner && owner[n] == id && n.key == index[id]
  {
    n :| n in nodes && n in owner && owner[n] == id;
  }

  lemma {:induction false} ShadowedIsHidden(nodes: seq<Node>, owner: map<Node, nat>, index: map<nat, Key>, address: U64)
    requires Indexes(nodes, owner, index) && Shadowed(index, address)
    ensures ObjectLookup.Hidden(nodes, address)
  {
    var e :| e in index && index[e] == Key(address, 0);
    var o :| o in index && index[o].addr == address && Around(index, o, address);
    var n := NodeOf(nodes, owner, index, e);
    var m := NodeOf(nodes, owner, index, o);
    forall x <- nodes | x.key.addr < address
      ensures !ObjectLookup.Contains(x.key, address)
    {
      assert !Around(index, owner[x], address);
    }
  }

  lemma {:induction false} HiddenIsShadowed(nodes: seq<Node>, owner: map<Node, nat>, index: map<nat, Key>, address: U64)
    requires Indexes(nodes, owner, index) && ObjectLookup.Hidden(nodes, address)
    ensures Shadowed(index, address)
  {
    var n :| n in nodes && n.key == Key(address, 0);
    var m :| m in nodes && m.key.addr == address && ObjectLookup.Contains(m.key, address);
    assert owner[n] in index && Around(index, owner[m], address);
    forall id <- index | index[id].addr < address
      ensures !Around(index, id, address)
    {
      var x := NodeOf(nodes, owner, index, id);
    }
  }

  lemma {:induction false} UserRange(nodes: seq<Node>, owner: map<Node, nat>, index: map<nat, Key>, address: U64)
    requires Sorted(nodes) && Indexes(nodes, owner, index)
    ensures var r := ObjectLookup.RangeLookup(nodes, address, true);
      r != null ==> r in owner && Around(index, owner[r], address)
    ensures ObjectLookup.RangeLookup(nodes, address, true) == null && (exists id :: Around(index, id, address))
       <==> Shadowed(index, address)
  {
    ObjectLookup.UserRangeLookupExactly(nodes, address);
    if Shadowed(index, address) {
      ShadowedIsHidden(nodes, owner, index, address);
    }
    if id :| Around(index, id, address) {
      var n := NodeOf(nodes, owner, index, id);
      if ObjectLookup.Hidden(nodes, address) {
        HiddenIsShadowed(nodes, owner, index, address);
      }
    }
  }

  /**
    In every reachable state the range lookup in the user tree yields a user pointer around the
    address, and misses one if and only if an empty user pointer stands in front of it.
   */
  lemma {:induction false} ReachableUserRange(
      ap: Aperture, threads: set<nat>, steps: seq<Step>, trees: seq<Trees>, address: U64)
    requires ap.pageSize > 0 && EnabledRun(ap, Start(threads), steps)
    requires TreesRun(ap, Start(threads), steps, trees) && trees[0] == NO_TREES
    ensures var index, x := FmmRuns.After(ap, Start(threads), steps).userTree, trees[|steps|].users;
      var r := ObjectLookup.RangeLookup(x.nodes, address, true);
      && (r != null ==> r in x.owner && Around(index, x.owner[r], address))
      && (r == null && (exists id :: Around(index, id, address)) <==> Shadowed(index, address))
  {
    TreesRunLists(ap, Start(threads), steps, trees);
    var x := trees[|steps|].users;
    UserRange(x.nodes, x.owner, FmmRuns.After(ap, Start(threads), steps).userTree, address);
  }

  /** As long as no call registers an empty user pointer, one around the address is found if there is one. */
  lemma {:induction false} ReachableUserRangeFinds(
      ap: Aperture, threads: set<nat>, steps: seq<Step>, trees: seq<Trees>, address: U64)
    requires ap.pageSize > 0 && EnabledRun(ap, Start(threads), steps) && forall step <- steps :: AsksNonempty(step)
    requires TreesRun(ap, Start(threads), steps, trees) && trees[0] == NO_TREES
    ensures var index, x := FmmRuns.After(ap, Start(threads), steps).userTree, trees[|steps|].users;
      var r := ObjectLookup.RangeLookup(x.nodes, address, true);
      if r == null then forall id :: !Around(index, id, address) else r in x.owner && Around(index, x.owner[r], address)
  {
    RunNonempty(ap, Start(threads), steps);
    ReachableUserRange(ap, threads, steps, trees, address);
  }

  // ---- The address tree ----

  predicate NoWrap(ap: Aperture, size: U64) {
    size + Guards(ap) < TWO_64
  }

  /** Guard pages never make the size of an object or of an allocation in flight wrap around. */
  ghost predicate Sized(ap: Aperture, s: State) {
    && (forall id <- s.heap :: NoWrap(ap, s.heap[id].size))
    && (forall t <- s.pcs | s.pcs[t].Reserved? || s.pcs[t].GivingBack? :: NoWrap(ap, s.pcs[t].size))
  }

  lemma {:induction false} ReserveSized(ap: Aperture, s: State, t: nat, rq: Request, goal: Goal)
    requires Sized(ap, s) && t in s.pcs && FirstFit.Harmless(ap, s.areas, rq)
    ensures Sized(ap, Reserve(ap, s, t, rq, goal))
  {
  }

  lemma {:induction false} ReserveVaSized(ap: Aperture, s: State, t: nat, rq: Request, memory: bool)
    requires Sized(ap, s) && t in s.pcs && FirstFit.Harmless(ap, s.areas, rq)
    ensures Sized(ap, ReserveVa(ap, s, t, rq, memory))
  {
    ReserveSized(ap, s, t, rq, DeviceMemory);
  }

  lemma {:induction false} ReleaseSized(ap: Aperture, s: State, t: nat, id: nat, freed: bool, pc: Pc)
    requires Sized(ap, s) && !pc.Reserved? && !pc.GivingBack?
    ensures Sized(ap, Goto(ReleaseObject(ap, s, id, freed), t, pc))
  {
  }

  /** Steps other than allocations and releases make no new sizes. */
  lemma {:induction false} OthersSized(ap: Aperture, s: State, step: Step)
    requires ap.pageSize > 0 && Sized(ap, s) && Enabled(ap, s, step)
    requires !step.AllocDevice? && !step.AllocVa? && !step.AllocUser? && !step.Drop? && !step.Release?
    ensures Sized(ap, Next(ap, s, step))
  {
  }

  lemma {:induction false} NextSized(ap: Aperture, s: State, step: Step)
    requires ap.pageSize > 0 && Sized(ap, s) && Enabled(ap, s, step)
    ensures Sized(ap, Next(ap, s, step))
  {
    match step
    case AllocDevice(t, rq) => ReserveSized(ap, s, t, rq, DeviceMemory);
    case AllocVa(t, rq, memory) => ReserveVaSized(ap, s, t, rq, memory);
    case AllocUser(t) => ReserveSized(ap, s, t, UserRequest(ap, s.pcs[t].goal), s.pcs[t].goal);
    case Drop(t, freed) => ReleaseSized(ap, s, t, s.pcs[t].id, freed, AfterNote(s.pcs[t].found, s.pcs[t].nodes));
    case Release(t, freed) => ReleaseSized(ap, s, t, s.pcs[t].id, freed, Idle);
    case _ => OthersSized(ap, s, step);
  }

  lemma {:induction false} RunSized(ap: Aperture, s: State, steps: seq<Step>)
    requires ap.pageSize > 0 && Sized(ap, s) && EnabledRun(ap, s, steps)
    ensures Sized(ap, FmmRuns.After(ap, s, steps))
    decreases |steps|
  {
    if steps != [] {
      NextSized(ap, s, steps[0]);
      RunSized(ap, Next(ap, s, steps[0]), steps[1..]);
    }
  }

  lemma {:induction false} BlocksDisjoint(ap: Aperture, s: State, a: nat, b: nat)
    requires Accounted(ap, s) && Sized(ap, s) && a in s.heap && b in s.heap && a != b
      && s.heap[a].start <= s.heap[b].start
    ensures s.heap[a].start < s.heap[b].start
    ensures s.heap[a].start + s.heap[a].size + ap.guardPages * ap.pageSize <= s.heap[b].start
  {
    assert BlockOf(ap, s, OfObject(a)).Some? && BlockOf(ap, s, OfObject(b)).Some?;
  }

  lemma {:induction false} NodesDisjoint(
      ap: Aperture, s: State, nodes: seq<Node>, owner: map<Node, nat>, i: nat, j: nat)
    requires Invariant(ap, s) && Sized(ap, s) && Indexes(nodes, owner, s.tree) && Sorted(nodes) && i < j < |nodes|
    ensures nodes[i].key.addr < nodes[j].key.addr && nodes[i].key.addr + nodes[i].key.size <= nodes[j].key.addr
  {
    assert nodes[i] in nodes && nodes[j] in nodes && owner[nodes[i]] != owner[nodes[j]];
    assert KeyCompare(LKP_ALL, nodes[i].key, nodes[j].key) <= 0;
    BlocksDisjoint(ap, s, owner[nodes[i]], owner[nodes[j]]);
  }

  /** In every reachable state there are guard pages behind each object before the next one starts. */
  lemma {:induction false} GuardPagesBetween(ap: Aperture, threads: set<nat>, steps: seq<Step>, a: nat, b: nat)
    requires ap.pageSize > 0 && EnabledRun(ap, Start(threads), steps) && a != b
    requires var s := FmmRuns.After(ap, Start(threads), steps);
      a in s.tree && b in s.tree && s.tree[a].addr <= s.tree[b].addr
    ensures var s := FmmRuns.After(ap, Start(threads), steps);
      s.tree[a].addr + s.tree[a].size + ap.guardPages * ap.pageSize <= s.tree[b].addr
  {
    StartKeeps(ap, threads);
    RunKeeps(ap, Start(threads), steps);
    RunSized(ap, Start(threads), steps);
    BlocksDisjoint(ap, FmmRuns.After(ap, Start(threads), steps), a, b);
  }

  /** In every reachable state the objects in the address tree are disjoint, as its range search requires. */
  lemma {:induction false} AddressesDisjoint(
      ap: Aperture, threads: set<nat>, steps: seq<Step>, trees: seq<Trees>)
    requires ap.pageSize > 0 && EnabledRun(ap, Start(threads), steps)
    requires TreesRun(ap, Start(threads), steps, trees) && trees[0] == NO_TREES
    ensures var nodes := trees[|steps|].objects.nodes;
      Sorted(nodes) && ObjectLookup.DisjointObjects(nodes) && ObjectLookup.DistinctKeys(nodes)
  {
    var s, x := FmmRuns.After(ap, Start(threads), steps), trees[|steps|].objects;
    TreesRunLists(ap, Start(threads), steps, trees);
    StartKeeps(ap, threads);
    RunKeeps(ap, Start(threads), steps);
    RunSized(ap, Start(threads), steps);
    forall i, j | 0 <= i < j < |x.nodes|
      ensures x.nodes[i].key.addr < x.nodes[j].key.addr
        && x.nodes[i].key.addr + x.nodes[i].key.size <= x.nodes[j].key.addr
    {
      NodesDisjoint(ap, s, x.nodes, x.owner, i, j);
    }
  }

  /** In every reachable state the lookup in the address tree finds the only object around an address, if any. */
  lemma {:induction false} ReachableAddressRange(
      ap: Aperture, threads: set<nat>, steps: seq<Step>, trees: seq<Trees>, address: U64)
    requires ap.pageSize > 0 && EnabledRun(ap, Start(threads), steps)
    requires TreesRun(ap, Start(threads), steps, trees) && trees[0] == NO_TREES
    ensures var index, x := FmmRuns.After(ap, Start(threads), steps).tree, trees[|steps|].objects;
      var r := ObjectLookup.RangeLookup(x.nodes, address, false);
      if r == null then forall id :: !Around(index, id, address)
      else
        && r in x.owner && Around(index, x.owner[r], address)
        && forall id | Around(index, id, address) :: id == x.owner[r]
  {
    var index, x := FmmRuns.After(ap, Start(threads), steps).tree, trees[|steps|].objects;
    TreesRunLists(ap, Start(threads), steps, trees);
    AddressesDisjoint(ap, threads, steps, trees);
    ObjectLookup.RangeLookupFinds(x.nodes, address);
    forall id | Around(index, id, address)
      ensures exists n <- x.nodes :: n in x.owner && x.owner[n] == id && ObjectLookup.Contains(n.key, address)
    {
      var n := NodeOf(x.nodes, x.owner, index, id);
    }
  }
}
