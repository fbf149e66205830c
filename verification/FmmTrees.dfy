/** The trees behind the memory manager's indexes: inserting and deleting nodes keeps them in step with its state. */
module FmmTrees {
  import opened Machine
  import opened RbShape
  import opened RbInsert
  import opened RbDelete
  import opened Fmm
  import opened FmmInvariant
  import FmmRuns
  import opened Areas

  /** The nodes of a tree in order, each the node of one object under the object's key, and no object left out. */
  ghost predicate Indexes(nodes: seq<Node>, owner: map<Node, nat>, index: map<nat, Key>) {
    && (forall n <- nodes :: n in owner && owner[n] in index && index[owner[n]] == n.key)
    && (forall i, j | 0 <= i < j < |nodes| ::
          nodes[i] in owner && nodes[j] in owner && owner[nodes[i]] != owner[nodes[j]])
    && (forall id <- index :: exists n <- nodes :: n in owner && owner[n] == id)
  }

  // ---- Updates ----

  lemma {:induction false} InsertedMembers(s: seq<Node>, s': seq<Node>, node: Node, k: nat)
    requires InsertedAt(s, s', node, k)
    ensures |s'| == |s| + 1
    ensures forall i | 0 <= i < |s'| :: s'[i] == if i < k then s[i] else if i == k then node else s[i - 1]
    ensures forall n :: n in s' <==> n in s || n == node
  {
    forall n | n in s
      ensures n in s'
    {
      var i :| 0 <= i < |s| && s[i] == n;
      assert s'[if i < k then i else i + 1] == n;
    }
    assert s'[k] == node;
  }

  lemma {:induction false} InsertedOwner(
      s: seq<Node>, owner: map<Node, nat>, index: map<nat, Key>, node: Node, id: nat, i: nat)
    requires Indexes(s, owner, index) && node !in s && id !in index && i < |s|
    ensures s[i] != node && s[i] in owner && owner[s[i]] != id
  {
    assert s[i] in s;
  }

  lemma {:induction false} InsertedPairs(
      s: seq<Node>, s': seq<Node>, node: Node, k: nat,
      owner: map<Node, nat>, index: map<nat, Key>, id: nat, i: nat, j: nat)
    requires Indexes(s, owner, index) && InsertedAt(s, s', node, k) && node !in s && id !in index && i < j < |s'|
    ensures var owner' := owner[node := id]; s'[i] in owner' && s'[j] in owner' && owner'[s'[i]] != owner'[s'[j]]
  {
    InsertedMembers(s, s', node, k);
    var i', j' := if i < k then i else i - 1, if j < k then j else j - 1;
    if i != k {
      InsertedOwner(s, owner, index, node, id, i');
    }
    if j != k {
      InsertedOwner(s, owner, index, node, id, j');
    }
    if i != k && j != k {
      OwnersDiffer(s, owner, index, i', j');
    }
  }

  lemma {:induction false} InsertedComplete(
      s: seq<Node>, s': seq<Node>, node: Node, k: nat, owner: map<Node, nat>, index: map<nat, Key>, id: nat, x: nat)
    requires Indexes(s, owner, index) && InsertedAt(s, s', node, k) && node !in s && (x == id || x in index)
    ensures var owner' := owner[node := id]; exists n <- s' :: n in owner' && owner'[n] == x
  {
    InsertedMembers(s, s', node, k);
    if x == id {
      assert node in s';
    } else {
      var n :| n in s && n in owner && owner[n] == x;
      assert n in s';
    }
  }

  lemma {:induction false} InsertedKeys(
      s: seq<Node>, s': seq<Node>, node: Node, k: nat, owner: map<Node, nat>, index: map<nat, Key>, id: nat, n: Node)
    requires Indexes(s, owner, index) && InsertedAt(s, s', node, k) && node !in s && id !in index && n in s'
    ensures var owner', index' := owner[node := id], index[id := node.key];
      n in owner' && owner'[n] in index' && index'[owner'[n]] == n.key
  {
    InsertedMembers(s, s', node, k);
  }

  /** Inserting a node for a new object indexes that object in addition. */
  lemma {:induction false} InsertedIndexes(
      s: seq<Node>, s': seq<Node>, node: Node, k: nat, owner: map<Node, nat>, index: map<nat, Key>, id: nat)
    requires Indexes(s, owner, index) && InsertedAt(s, s', node, k) && node !in s && id !in index
    ensures Indexes(s', owner[node := id], index[id := node.key])
  {
    var owner', index' := owner[node := id], index[id := node.key];
    forall n <- s'
      ensures n in owner' && owner'[n] in index' && index'[owner'[n]] == n.key
    {
      InsertedKeys(s, s', node, k, owner, index, id, n);
    }
    forall i, j | 0 <= i < j < |s'|
      ensures s'[i] in owner' && s'[j] in owner' && owner'[s'[i]] != owner'[s'[j]]
    {
      InsertedPairs(s, s', node, k, owner, index, id, i, j);
    }
    forall x <- index'
      ensures exists n <- s' :: n in owner' && owner'[n] == x
    {
      InsertedComplete(s, s', node, k, owner, index, id, x);
    }
  }

  lemma {:induction false} DeletedMembers(s: seq<Node>, s': seq<Node>, node: Node, k: nat)
    requires DeletedAt(s, s', node, k)
    ensures |s'| == |s| - 1 && forall i | 0 <= i < |s'| :: s'[i] == if i < k then s[i] else s[i + 1]
    ensures forall n | n in s' :: n in s
    ensures forall n | n in s && n != node :: n in s'
  {
    forall n | n in s && n != node
      ensures n in s'
    {
      var i :| 0 <= i < |s| && s[i] == n;
      assert s'[if i < k then i else i - 1] == n;
    }
  }

  lemma {:induction false} OwnersDiffer(s: seq<Node>, owner: map<Node, nat>, index: map<nat, Key>, i: nat, j: nat)
    requires Indexes(s, owner, index) && i < |s| && j < |s| && i != j
    ensures s[i] in s && s[j] in s && s[i] in owner && s[j] in owner && owner[s[i]] != owner[s[j]]
  {
    if i < j {
      assert owner[s[i]] != owner[s[j]];
    } else {
      assert owner[s[j]] != owner[s[i]];
    }
  }

  lemma {:induction false} DeletedOwners(
      s: seq<Node>, s': seq<Node>, node: Node, k: nat, owner: map<Node, nat>, index: map<nat, Key>, i: nat)
    requires Indexes(s, owner, index) && DeletedAt(s, s', node, k) && i < |s'|
    ensures s'[i] in s && s'[i] in owner && node in owner && owner[s'[i]] != owner[node]
  {
    var j := if i < k then i else i + 1;
    assert s'[i] == s[j];
    OwnersDiffer(s, owner, index, j, k);
  }

  lemma {:induction false} DeletedPairs(
      s: seq<Node>, s': seq<Node>, node: Node, k: nat, owner: map<Node, nat>, index: map<nat, Key>, i: nat, j: nat)
    requires Indexes(s, owner, index) && DeletedAt(s, s', node, k) && i < j < |s'|
    ensures s'[i] in owner && s'[j] in owner && owner[s'[i]] != owner[s'[j]]
  {
    var i', j' := if i < k then i else i + 1, if j < k then j else j + 1;
    assert s[i'] == s'[i] && s[j'] == s'[j];
    OwnersDiffer(s, owner, index, i', j');
  }

  lemma {:induction false} DeletedComplete(
      s: seq<Node>, s': seq<Node>, node: Node, k: nat, owner: map<Node, nat>, index: map<nat, Key>, id: nat)
    requires Indexes(s, owner, index) && DeletedAt(s, s', node, k) && id in index && node in owner && owner[node] != id
    ensures exists n <- s' :: n in owner && owner[n] == id
  {
    DeletedMembers(s, s', node, k);
    var n :| n in s && owner[n] == id;
    assert n in s';
  }

  /** Deleting the node of an object takes that object out of the index. */
  lemma {:induction false} DeletedIndexes(
      s: seq<Node>, s': seq<Node>, node: Node, k: nat, owner: map<Node, nat>, index: map<nat, Key>)
    requires Indexes(s, owner, index) && DeletedAt(s, s', node, k)
    ensures node in owner && Indexes(s', owner, index - {owner[node]})
  {
    assert s[k] == node && node in s;
    forall n <- s'
      ensures n in s && owner[n] != owner[node]
    {
      var i :| 0 <= i < |s'| && s'[i] == n;
      DeletedOwners(s, s', node, k, owner, index, i);
    }
    forall i, j | 0 <= i < j < |s'|
      ensures s'[i] in owner && s'[j] in owner && owner[s'[i]] != owner[s'[j]]
    {
      DeletedPairs(s, s', node, k, owner, index, i, j);
    }
    forall id <- index - {owner[node]}
      ensures exists n <- s' :: n in owner && owner[n] == id
    {
      DeletedComplete(s, s', node, k, owner, index, id);
    }
  }

  /** A new object's node in the address tree. */
  lemma {:induction false} ObjectInserted(
      s: State, nodes: seq<Node>, nodes': seq<Node>, node: Node, k: nat, owner: map<Node, nat>,
      start: U64, size: U64, handle: U64)
    requires Indexed(s) && Indexes(nodes, owner, s.tree) && node !in nodes && node.key == Key(start, size)
    requires InsertedAt(nodes, nodes', node, k)
    ensures Indexes(nodes', owner[node := s.nextId], AddObject(s, start, size, handle).tree)
  {
    assert s.nextId !in s.heap && s.nextId !in s.tree;
    InsertedIndexes(nodes, nodes', node, k, owner, s.tree, s.nextId);
  }

  /** A registered object's user node in the user tree. */
  lemma {:induction false} UserInserted(
      s: State, nodes: seq<Node>, nodes': seq<Node>, node: Node, k: nat, owner: map<Node, nat>,
      t: nat, id: nat, goal: Goal)
    requires Indexed(s) && Indexes(nodes, owner, s.userTree) && node !in nodes && InsertedAt(nodes, nodes', node, k)
    requires goal.UserMemory? && node.key == Key(goal.addr, goal.size) && id in s.heap && s.heap[id].userptr == 0
    ensures Indexes(nodes', owner[node := id], Registered(s, t, id, goal).userTree)
  {
    InsertedIndexes(nodes, nodes', node, k, owner, s.userTree, id);
  }

  /** The nodes of an object that goes: out of the address tree, and out of the user tree if it has a user pointer. */
  lemma {:induction false} ObjectRemoved(
      s: State, nodes: seq<Node>, nodes': seq<Node>, node: Node, k: nat, owner: map<Node, nat>,
      users: seq<Node>, users': seq<Node>, user: Node, m: nat, userOwner: map<Node, nat>, id: nat)
    requires id in s.heap
    requires Indexes(nodes, owner, s.tree) && DeletedAt(nodes, nodes', node, k) && node in owner && owner[node] == id
    requires Indexes(users, userOwner, s.userTree)
    requires if s.heap[id].userptr == 0 then users' == users
      else DeletedAt(users, users', user, m) && user in userOwner && userOwner[user] == id
    ensures Indexes(nodes', owner, RemoveObject(s, id).tree) && Indexes(users', userOwner, RemoveObject(s, id).userTree)
  {
    DeletedIndexes(nodes, nodes', node, k, owner, s.tree);
    if s.heap[id].userptr != 0 {
      DeletedIndexes(users, users', user, m, userOwner, s.userTree);
    }
  }

  // ---- Runs ----

  /** The nodes of a tree in order, and the objects whose nodes they are. */
  datatype Listing = Listing(nodes: seq<Node>, owner: map<Node, nat>)

  datatype Trees = Trees(objects: Listing, users: Listing)

  const NO_TREES := Trees(Listing([], map[]), Listing([], map[]))

  /** The listing is sorted, and of the objects in the index. */
  ghost predicate Lists(x: Listing, index: map<nat, Key>) {
    Sorted(x.nodes) && Indexes(x.nodes, x.owner, index)
  }

  ghost predicate Enters(x: Listing, x': Listing, index: map<nat, Key>, index': map<nat, Key>, k: nat, id: nat) {
    k < |x'.nodes| && var node := x'.nodes[k];
    && id !in index && index' == index[id := node.key]
    && node !in x.nodes && InsertedAt(x.nodes, x'.nodes, node, k) && x'.owner == x.owner[node := id]
  }

  ghost predicate Leaves(x: Listing, x': Listing, index: map<nat, Key>, index': map<nat, Key>, k: nat, id: nat) {
    k < |x.nodes| && var node := x.nodes[k];
    && node in x.owner && x.owner[node] == id && index' == index - {id}
    && DeletedAt(x.nodes, x'.nodes, node, k) && x'.owner == x.owner
  }

  /** The tree stays as it is, or has one node inserted or deleted, just as its index changes. */
  ghost predicate Follows(x: Listing, x': Listing, index: map<nat, Key>, index': map<nat, Key>) {
    || (x' == x && index' == index)
    || (exists k: nat, id: nat :: Enters(x, x', index, index', k, id))
    || (exists k: nat, id: nat :: Leaves(x, x', index, index', k, id))
  }

  lemma {:induction false} EntersLists(
      x: Listing, x': Listing, index: map<nat, Key>, index': map<nat, Key>, k: nat, id: nat)
    requires Lists(x, index) && Enters(x, x', index, index', k, id)
    ensures Lists(x', index')
  {
    InsertedIndexes(x.nodes, x'.nodes, x'.nodes[k], k, x.owner, index, id);
    InsertedSorted(x.nodes, x'.nodes, x'.nodes[k], k);
  }

  lemma {:induction false} LeavesLists(
      x: Listing, x': Listing, index: map<nat, Key>, index': map<nat, Key>, k: nat, id: nat)
    requires Lists(x, index) && Leaves(x, x', index, index', k, id)
    ensures Lists(x', index')
  {
    DeletedIndexes(x.nodes, x'.nodes, x.nodes[k], k, x.owner, index);
    DroppedSorted(x.nodes, k);
  }

  lemma {:induction false} FollowsLists(x: Listing, x': Listing, index: map<nat, Key>, index': map<nat, Key>)
    requires Lists(x, index) && Follows(x, x', index, index')
    ensures Lists(x', index')
  {
    if k: nat, id: nat :| Enters(x, x', index, index', k, id) {
      EntersLists(x, x', index, index', k, id);
    } else if k: nat, id: nat :| Leaves(x, x', index, index', k, id) {
      LeavesLists(x, x', index, index', k, id);
    }
  }

  /** Both trees follow the run, step by step. */
  ghost predicate TreesRun(ap: Aperture, s: State, steps: seq<Step>, trees: seq<Trees>)
    requires ap.pageSize > 0 && FmmRuns.EnabledRun(ap, s, steps)
    decreases |steps|
  {
    && |trees| == |steps| + 1
    && (steps != [] ==>
          var s' := Next(ap, s, steps[0]);
          && Follows(trees[0].objects, trees[1].objects, s.tree, s'.tree)
          && Follows(trees[0].users, trees[1].users, s.userTree, s'.userTree)
          && TreesRun(ap, s', steps[1..], trees[1..]))
  }

  /** In every state of a run the trees are sorted and hold the nodes of just the objects in the two indexes. */
  lemma {:induction false} TreesRunLists(ap: Aperture, s: State, steps: seq<Step>, trees: seq<Trees>)
    requires ap.pageSize > 0 && FmmRuns.EnabledRun(ap, s, steps) && TreesRun(ap, s, steps, trees)
    requires Lists(trees[0].objects, s.tree) && Lists(trees[0].users, s.userTree)
    ensures var s', last := FmmRuns.After(ap, s, steps), trees[|steps|];
      Lists(last.objects, s'.tree) && Lists(last.users, s'.userTree)
    decreases |steps|
  {
    if steps != [] {
      var s' := Next(ap, s, steps[0]);
      FollowsLists(trees[0].objects, trees[1].objects, s.tree, s'.tree);
      FollowsLists(trees[0].users, trees[1].users, s.userTree, s'.userTree);
      TreesRunLists(ap, s', steps[1..], trees[1..]);
    }
  }

  /** The index stays as it is, gains a new object, or loses one. */
  ghost predicate OneChange(index: map<nat, Key>, index': map<nat, Key>) {
    || index' == index
    || (exists id <- index' :: id !in index && index' == index[id := index'[id]])
    || (exists id <- index :: index' == index - {id})
  }

  lemma {:induction false} ReleaseChangesOne(ap: Aperture, s: State, id: nat, freed: bool)
    requires Indexed(s)
    ensures var s' := ReleaseObject(ap, s, id, freed); OneChange(s.tree, s'.tree) && OneChange(s.userTree, s'.userTree)
  {
    if id in s.heap {
      assert id in s.tree;
    }
  }

  lemma {:induction false} AddObjectChangesOne(s: State, start: U64, size: U64, handle: U64)
    requires Indexed(s)
    ensures var s' := AddObject(s, start, size, handle); OneChange(s.tree, s'.tree) && s'.userTree == s.userTree
  {
    assert s.nextId !in s.tree && s.nextId in AddObject(s, start, size, handle).tree;
  }

  lemma {:induction false} RegisteredChangesOne(s: State, t: nat, id: nat, goal: Goal)
    requires Indexed(s) && id in s.heap && s.heap[id].userptr == 0 && goal.UserMemory?
    ensures var s' := Registered(s, t, id, goal); s'.tree == s.tree && OneChange(s.userTree, s'.userTree)
  {
    assert id !in s.userTree && id in Registered(s, t, id, goal).userTree;
  }

  lemma {:induction false} ReserveChangesNone(ap: Aperture, s: State, t: nat, rq: Request, goal: Goal)
    requires Alignable(ap, rq)
    ensures var s' := Reserve(ap, s, t, rq, goal);
      s'.tree == s.tree && s'.userTree == s.userTree && s'.heap == s.heap && s'.nextId == s.nextId
  {
  }

  lemma {:induction false} ReserveVaChangesOne(ap: Aperture, s: State, t: nat, rq: Request, memory: bool)
    requires Alignable(ap, rq) && Indexed(s)
    ensures var s' := ReserveVa(ap, s, t, rq, memory); OneChange(s.tree, s'.tree) && s'.userTree == s.userTree
  {
    var s1 := Reserve(ap, s, t, rq, DeviceMemory);
    ReserveChangesNone(ap, s, t, rq, DeviceMemory);
    if t in s1.pcs && s1.pcs[t].Reserved? {
      AddObjectChangesOne(s1, s1.pcs[t].start, s1.pcs[t].size, 0);
    }
  }

  lemma {:induction false} OthersChangeNone(ap: Aperture, s: State, step: Step)
    requires ap.pageSize > 0 && Enabled(ap, s, step)
    requires !step.AllocVa? && !step.MakeObject? && !step.Publish? && !step.Drop? && !step.Release?
    ensures Next(ap, s, step).tree == s.tree && Next(ap, s, step).userTree == s.userTree
  {
  }

  lemma {:induction false} PublishChangesOne(ap: Aperture, s: State, step: Step)
    requires ap.pageSize > 0 && Indexed(s) && Claimed(s) && Enabled(ap, s, step) && step.Publish?
    ensures var s' := Next(ap, s, step); s'.tree == s.tree && OneChange(s.userTree, s'.userTree)
  {
    assert Sound(s, s.pcs[step.t]);
    RegisteredChangesOne(s, step.t, s.pcs[step.t].id, s.pcs[step.t].goal);
  }

  /** Every step changes either index in a way that a tree can follow with one insertion or deletion. */
  lemma {:induction false} StepChangesOne(ap: Aperture, s: State, step: Step)
    requires ap.pageSize > 0 && Indexed(s) && Claimed(s) && Enabled(ap, s, step)
    ensures var s' := Next(ap, s, step); OneChange(s.tree, s'.tree) && OneChange(s.userTree, s'.userTree)
  {
    match step
    case AllocVa(t, rq, memory) => ReserveVaChangesOne(ap, s, t, rq, memory);
    case MakeObject(t, handle, _) => AddObjectChangesOne(s, s.pcs[t].start, s.pcs[t].size, handle);
    case Publish(_, _) => PublishChangesOne(ap, s, step);
    case Drop(t, freed) => ReleaseChangesOne(ap, s, s.pcs[t].id, freed);
    case Release(t, freed) => ReleaseChangesOne(ap, s, s.pcs[t].id, freed);
    case _ => OthersChangeNone(ap, s, step);
  }

  /** How many nodes an insertion goes behind. */
  ghost function Position(nodes: seq<Node>, key: Key): (k: nat)
    ensures k <= |nodes| && (forall i | 0 <= i < k :: KeyCompare(LKP_ALL, nodes[i].key, key) <= 0)
    ensures k < |nodes| ==> KeyCompare(LKP_ALL, key, nodes[k].key) < 0
  {
    if nodes == [] || KeyCompare(LKP_ALL, key, nodes[0].key) < 0 then 0 else 1 + Position(nodes[1..], key)
  }

  lemma {:induction false} PositionInserts(s: seq<Node>, node: Node)
    requires Sorted(s)
    ensures var k := Position(s, node.key); InsertedAt(s, s[..k] + [node] + s[k..], node, k)
  {
    var k := Position(s, node.key);
    forall i | k <= i < |s|
      ensures KeyCompare(LKP_ALL, node.key, s[i].key) < 0
    {
      assert k < i ==> KeyCompare(LKP_ALL, s[k].key, s[i].key) <= 0;
    }
  }

  lemma {:induction false} EntersPossible(x: Listing, index: map<nat, Key>, node: Node, id: nat) returns (x': Listing)
    requires Lists(x, index) && id !in index && node !in x.nodes
    ensures Follows(x, x', index, index[id := node.key])
  {
    var k := Position(x.nodes, node.key);
    x' := Listing(x.nodes[..k] + [node] + x.nodes[k..], x.owner[node := id]);
    PositionInserts(x.nodes, node);
    assert Enters(x, x', index, index[id := node.key], k, id);
  }

  lemma {:induction false} LeavesPossible(x: Listing, index: map<nat, Key>, id: nat) returns (x': Listing)
    requires Lists(x, index) && id in index
    ensures Follows(x, x', index, index - {id})
  {
    var n :| n in x.nodes && n in x.owner && x.owner[n] == id;
    var k: nat :| k < |x.nodes| && x.nodes[k] == n;
    x' := Listing(x.nodes[..k] + x.nodes[k + 1..], x.owner);
    assert Leaves(x, x', index, index - {id}, k, id);
  }

  /** A tree that lists the index can follow each such change, with a new node for a new object. */
  lemma {:induction false} FollowsPossible(
      x: Listing, index: map<nat, Key>, index': map<nat, Key>, node: Node) returns (x': Listing)
    requires Lists(x, index) && OneChange(index, index') && node !in x.nodes
    requires forall id <- index' | id !in index :: index'[id] == node.key
    ensures Follows(x, x', index, index')
  {
    if index' == index {
      x' := x;
    } else if id :| id in index' && id !in index {
      x' := EntersPossible(x, index, node, id);
    } else {
      var id :| id in index && index' == index - {id};
      x' := LeavesPossible(x, index, id);
    }
  }
}
