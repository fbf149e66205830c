/**
  Whole calls of one thread, other threads standing by: what an allocation and a registration leave
  behind, that the matching release restores everything, and that a failure leaves nothing behind.
 */
module FmmCalls {
  import opened Machine
  import opened Areas
  import opened RbShape
  import opened Fmm
  import opened FmmInvariant
  import FirstFit
  import FmmRuns

  // ---- Runs ----

  /** The steps are possible one after the other, and lead from `s` to `s'`. */
  ghost predicate Takes(ap: Aperture, s: State, steps: seq<Step>, s': State)
    requires ap.pageSize > 0
  {
    FmmRuns.EnabledRun(ap, s, steps) && FmmRuns.After(ap, s, steps) == s'
  }

  lemma {:induction false} TakesOne(ap: Aperture, s: State, step: Step)
    requires ap.pageSize > 0 && Enabled(ap, s, step)
    ensures Takes(ap, s, [step], Next(ap, s, step))
  {
    assert [step][1..] == [];
  }

  lemma {:induction false} TakesBoth(ap: Aperture, s: State, a: seq<Step>, s1: State, b: seq<Step>, s2: State)
    requires ap.pageSize > 0 && Takes(ap, s, a, s1) && Takes(ap, s1, b, s2)
    ensures Takes(ap, s, a + b, s2)
    decreases |a|
  {
    if a == [] {
      assert a + b == b;
    } else {
      assert (a + b)[1..] == a[1..] + b;
      TakesBoth(ap, Next(ap, s, a[0]), a[1..], s1, b, s2);
    }
  }

  // ---- Reserving and giving back ----

  /** A thread that is about to reserve addresses for a request that has a place. */
  ghost predicate Served(ap: Aperture, s: State, t: nat, rq: Request, i: nat, a: U64) {
    && ap.pageSize > 0 && Usable(ap) && Invariant(ap, s) && t in s.pcs
    && FirstFit.Harmless(ap, s.areas, rq) && Place(ap, s.areas, rq) == Some((i, a))
  }

  function Taken(ap: Aperture, s: State, rq: Request, i: nat, a: U64): State
    requires i <= |s.areas|
  {
    s.(areas := Placed(s.areas, i, a, Padded(ap, rq.size)))
  }

  lemma {:induction false} ReserveTakes(ap: Aperture, s: State, t: nat, rq: Request, goal: Goal, i: nat, a: U64)
    requires Served(ap, s, t, rq, i, a)
    ensures i <= |s.areas| && Reserve(ap, s, t, rq, goal) == Goto(Taken(ap, s, rq, i, a), t, Reserved(a, rq.size, goal))
  {
    PlaceNotNull(ap, s.areas, rq);
  }

  /** A block given back where it was taken leaves the list as it was. */
  lemma {:induction false} GivenBack(ap: Aperture, s: State, t: nat, rq: Request, i: nat, a: U64)
    requires Served(ap, s, t, rq, i, a)
    ensures i <= |s.areas| && Unreserve(ap, Taken(ap, s, rq, i, a), a, rq.size) == s
  {
    FirstFit.ClearFits(ap, s.areas, rq);
    PlacedReleased(s.areas, i, Block(a, Padded(ap, rq.size)));
  }

  lemma {:induction false} AddedRemoved<V>(m: map<nat, V>, id: nat, v: V)
    requires id !in m
    ensures m[id := v] - {id} == m
  {
  }

  lemma {:induction false} UpdatedRemoved<V>(m: map<nat, V>, id: nat, other: nat, v: V)
    requires id != other
    ensures m[other := v] - {id} == (m - {id})[other := v]
  {
  }

  lemma {:induction false} SamePc(s: State, t: nat, pc: Pc)
    requires t in s.pcs && s.pcs[t].Idle?
    ensures Goto(Goto(s, t, pc), t, Idle) == s
  {
    assert s.pcs[t := pc][t := Idle] == s.pcs;
  }

  // ---- Device memory ----

  /** The state with one more object. */
  function Made(ap: Aperture, s: State, rq: Request, i: nat, a: U64, handle: U64): State
    requires i <= |s.areas|
  {
    AddObject(Taken(ap, s, rq, i, a), a, rq.size, handle)
  }

  /** An allocation with a place, memory and a willing kernel makes an object there. */
  lemma {:induction false} AllocateCall(ap: Aperture, s: State, t: nat, rq: Request, i: nat, a: U64, handle: U64)
    requires Served(ap, s, t, rq, i, a) && s.pcs[t].Idle?
    ensures i <= |s.areas|
    ensures Takes(ap, s, [AllocDevice(t, rq)] + [MakeObject(t, handle, true)], Made(ap, s, rq, i, a, handle))
  {
    ReserveTakes(ap, s, t, rq, DeviceMemory, i, a);
    var s1 := Goto(Taken(ap, s, rq, i, a), t, Reserved(a, rq.size, DeviceMemory));
    TakesOne(ap, s, AllocDevice(t, rq));
    TakesOne(ap, s1, MakeObject(t, handle, true));
    SamePc(Made(ap, s, rq, i, a, handle), t, Reserved(a, rq.size, DeviceMemory));
    TakesBoth(ap, s, [AllocDevice(t, rq)], s1, [MakeObject(t, handle, true)], Made(ap, s, rq, i, a, handle));
  }

  /** If the kernel refuses, or there is no memory for the object, everything is as before. */
  lemma {:induction false} AllocateFails(ap: Aperture, s: State, t: nat, rq: Request, i: nat, a: U64, fail: Step)
    requires Served(ap, s, t, rq, i, a) && s.pcs[t].Idle?
    requires fail == KernelRefuses(t) || (fail.MakeObject? && fail.t == t && !fail.memory)
    ensures Takes(ap, s, [AllocDevice(t, rq)] + ([fail] + [GiveBack(t)]), s)
  {
    ReserveTakes(ap, s, t, rq, DeviceMemory, i, a);
    var s0 := Taken(ap, s, rq, i, a);
    var s1, s2 := Goto(s0, t, Reserved(a, rq.size, DeviceMemory)), Goto(s0, t, GivingBack(a, rq.size));
    TakesOne(ap, s, AllocDevice(t, rq));
    TakesOne(ap, s1, fail);
    assert Next(ap, s1, fail) == s2;
    TakesOne(ap, s2, GiveBack(t));
    GivenBack(ap, s, t, rq, i, a);
    SamePc(s, t, GivingBack(a, rq.size));
    TakesBoth(ap, s1, [fail], s2, [GiveBack(t)], s);
    TakesBoth(ap, s, [AllocDevice(t, rq)], s1, [fail] + [GiveBack(t)], s);
  }

  /** Addresses without memory: one section makes the object, or undoes the reservation if there is no memory for it. */
  lemma {:induction false} AllocateVaCall(ap: Aperture, s: State, t: nat, rq: Request, i: nat, a: U64, memory: bool)
    requires Served(ap, s, t, rq, i, a) && s.pcs[t].Idle?
    ensures i <= |s.areas|
    ensures Takes(ap, s, [AllocVa(t, rq, memory)], if memory then Made(ap, s, rq, i, a, 0) else s)
  {
    ReserveTakes(ap, s, t, rq, DeviceMemory, i, a);
    GivenBack(ap, s, t, rq, i, a);
    SamePc(s, t, Reserved(a, rq.size, DeviceMemory));
    SamePc(Made(ap, s, rq, i, a, 0), t, Reserved(a, rq.size, DeviceMemory));
    TakesOne(ap, s, AllocVa(t, rq, memory));
  }

  /** Nobody holds a pointer to the object, and one release is due: it was allocated, or registered once. */
  ghost predicate ReleasedNext(ap: Aperture, s: State, t: nat, id: nat) {
    && ap.pageSize > 0 && t in s.pcs && s.pcs[t].Idle? && id in s.heap && Users(s, id) == {}
    && (s.heap[id].userptr != 0 ==> s.heap[id].count == 1)
  }

  function Gone(ap: Aperture, s: State, id: nat): State
    requires id in s.heap
  {
    RemoveObject(Unreserve(ap, s, s.heap[id].start, s.heap[id].size), id)
  }

  /** The last release takes the object away. */
  lemma {:induction false} ReleaseCall(ap: Aperture, s: State, t: nat, id: nat)
    requires ReleasedNext(ap, s, t, id)
    ensures Takes(ap, s, [FindRelease(t, id)] + [Release(t, true)], Gone(ap, s, id))
  {
    var s1 := Goto(s, t, Releasing(id));
    TakesOne(ap, s, FindRelease(t, id));
    TakesOne(ap, s1, Release(t, true));
    assert Frees(s.heap[id], true);
    SamePc(Gone(ap, s, id), t, Releasing(id));
    assert Next(ap, s1, Release(t, true)) == Gone(ap, s, id);
    TakesBoth(ap, s, [FindRelease(t, id)], s1, [Release(t, true)], Gone(ap, s, id));
  }

  lemma {:induction false} NewUnused(s: State, s2: State)
    requires Indexed(s) && Claimed(s) && s2.pcs == s.pcs
    ensures s.nextId !in s.heap && s.nextId !in s.tree && s.nextId !in s.userTree && Users(s2, s.nextId) == {}
  {
  }

  lemma {:induction false} MadeGone(ap: Aperture, s: State, t: nat, rq: Request, i: nat, a: U64, handle: U64)
    requires Served(ap, s, t, rq, i, a)
    ensures i <= |s.areas| && Gone(ap, Made(ap, s, rq, i, a, handle), s.nextId) == s.(nextId := s.nextId + 1)
  {
    NewUnused(s, s);
    GivenBack(ap, s, t, rq, i, a);
    AddedRemoved(s.heap, s.nextId, Object(a, rq.size, handle, 0, 0, 0, []));
    AddedRemoved(s.tree, s.nextId, Key(a, rq.size));
  }

  /** Allocating and releasing device memory leaves areas, objects and indexes as they were. */
  lemma {:induction false} AllocateAndRelease(ap: Aperture, s: State, t: nat, rq: Request, i: nat, a: U64, handle: U64)
    requires Served(ap, s, t, rq, i, a) && s.pcs[t].Idle?
    ensures Takes(ap, s, ([AllocDevice(t, rq)] + [MakeObject(t, handle, true)])
                       + ([FindRelease(t, s.nextId)] + [Release(t, true)]), s.(nextId := s.nextId + 1))
  {
    AllocateCall(ap, s, t, rq, i, a, handle);
    var s1 := Made(ap, s, rq, i, a, handle);
    NewUnused(s, s1);
    ReleaseCall(ap, s1, t, s.nextId);
    MadeGone(ap, s, t, rq, i, a, handle);
    TakesBoth(ap, s, [AllocDevice(t, rq)] + [MakeObject(t, handle, true)], s1,
              [FindRelease(t, s.nextId)] + [Release(t, true)], s.(nextId := s.nextId + 1));
  }

  // ---- User memory ----

  /** A thread that is about to register user memory that no lookup finds and that has a place. */
  ghost predicate Registers(ap: Aperture, s: State, t: nat, goal: Goal, i: nat, a: U64) {
    && ap.pageSize > 0 && goal.UserMemory? && goal.addr != 0 && LooksUpKey(s, Key(goal.addr, goal.size), None)
    && Served(ap, s, t, UserRequest(ap, goal), i, a) && s.pcs[t].Idle?
  }

  /** The state with one more object, registered once and for the nodes asked for. */
  function Known(ap: Aperture, s: State, goal: Goal, i: nat, a: U64, handle: U64): State
    requires ap.pageSize > 0 && goal.UserMemory? && i <= |s.areas|
  {
    var size := UserRequest(ap, goal).size;
    Taken(ap, s, UserRequest(ap, goal), i, a).(
      heap := s.heap[s.nextId := Object(a, size, handle, goal.addr, goal.size, 1, goal.nodes)],
      tree := s.tree[s.nextId := Key(a, size)],
      userTree := s.userTree[s.nextId := Key(goal.addr, goal.size)],
      nextId := s.nextId + 1)
  }

  function NoteSteps(t: nat, goal: Goal): seq<Step>
    requires goal.UserMemory?
  {
    if goal.nodes == [] then [] else [Note(t)]
  }

  function RegisterSteps(t: nat, goal: Goal, handle: U64): seq<Step>
    requires goal.UserMemory?
  {
    [FindUser(t, goal, None)]
    + ([AllocUser(t)] + ([MakeObject(t, handle, true)] + ([Publish(t, None)] + NoteSteps(t, goal))))
  }

  /** The state when the object has been registered but not yet noted for its nodes. */
  function Unnoted(ap: Aperture, s: State, goal: Goal, i: nat, a: U64, handle: U64): State
    requires ap.pageSize > 0 && goal.UserMemory? && i <= |s.areas|
  {
    var k := Known(ap, s, goal, i, a, handle);
    k.(heap := k.heap[s.nextId := k.heap[s.nextId].(nodes := [])])
  }

  lemma {:induction false} NoteTakes(ap: Aperture, s: State, t: nat, goal: Goal, i: nat, a: U64, handle: U64)
    requires Registers(ap, s, t, goal, i, a) && i <= |s.areas|
    ensures var s1 := Goto(Unnoted(ap, s, goal, i, a, handle), t, AfterNote(s.nextId, goal.nodes));
      Takes(ap, s1, NoteSteps(t, goal), Known(ap, s, goal, i, a, handle))
  {
    var k, u := Known(ap, s, goal, i, a, handle), Unnoted(ap, s, goal, i, a, handle);
    var s1 := Goto(u, t, AfterNote(s.nextId, goal.nodes));
    if goal.nodes == [] {
      assert k.heap == u.heap && s.pcs[t := Idle] == s.pcs;
      assert s1 == k;
    } else {
      assert u.heap[s.nextId := k.heap[s.nextId]] == k.heap;
      SamePc(k, t, Noting(s.nextId, goal.nodes));
      assert Next(ap, s1, Note(t)) == k;
      TakesOne(ap, s1, Note(t));
    }
  }

  lemma {:induction false} PublishMakes(ap: Aperture, s: State, t: nat, goal: Goal, i: nat, a: U64, handle: U64)
    requires ap.pageSize > 0 && goal.UserMemory? && i <= |s.areas|
    ensures var s1 := Goto(Made(ap, s, UserRequest(ap, goal), i, a, handle), t, Created(s.nextId, goal));
      Fmm.Registered(s1, t, s.nextId, goal)
        == Goto(Unnoted(ap, s, goal, i, a, handle), t, AfterNote(s.nextId, goal.nodes))
  {
    var m, u := Made(ap, s, UserRequest(ap, goal), i, a, handle), Unnoted(ap, s, goal, i, a, handle);
    var next := AfterNote(s.nextId, goal.nodes);
    assert m.heap[s.nextId := u.heap[s.nextId]] == u.heap;
    assert s.pcs[t := Created(s.nextId, goal)][t := next] == s.pcs[t := next];
  }

  lemma {:induction false} PublishTakes(ap: Aperture, s: State, t: nat, goal: Goal, i: nat, a: U64, handle: U64)
    requires Registers(ap, s, t, goal, i, a) && i <= |s.areas|
    ensures var s1 := Goto(Made(ap, s, UserRequest(ap, goal), i, a, handle), t, Created(s.nextId, goal));
      && Enabled(ap, s1, Publish(t, None))
      && Next(ap, s1, Publish(t, None)) == Goto(Unnoted(ap, s, goal, i, a, handle), t, AfterNote(s.nextId, goal.nodes))
  {
    PublishMakes(ap, s, t, goal, i, a, handle);
  }

  lemma {:induction false} PublishAndNote(ap: Aperture, s: State, t: nat, goal: Goal, i: nat, a: U64, handle: U64)
    requires Registers(ap, s, t, goal, i, a) && i <= |s.areas|
    ensures var s1 := Goto(Made(ap, s, UserRequest(ap, goal), i, a, handle), t, Created(s.nextId, goal));
      Takes(ap, s1, [Publish(t, None)] + NoteSteps(t, goal), Known(ap, s, goal, i, a, handle))
  {
    var s1 := Goto(Made(ap, s, UserRequest(ap, goal), i, a, handle), t, Created(s.nextId, goal));
    PublishTakes(ap, s, t, goal, i, a, handle);
    NoteTakes(ap, s, t, goal, i, a, handle);
    TakesOne(ap, s1, Publish(t, None));
    TakesBoth(ap, s1, [Publish(t, None)], Next(ap, s1, Publish(t, None)),
              NoteSteps(t, goal), Known(ap, s, goal, i, a, handle));
  }

  lemma {:induction false} MakeTakes(ap: Aperture, s: State, t: nat, goal: Goal, i: nat, a: U64, handle: U64)
    requires Registers(ap, s, t, goal, i, a) && i <= |s.areas|
    ensures var rq := UserRequest(ap, goal); var s1 := Goto(Taken(ap, s, rq, i, a), t, Reserved(a, rq.size, goal));
      && Enabled(ap, s1, MakeObject(t, handle, true))
      && Next(ap, s1, MakeObject(t, handle, true)) == Goto(Made(ap, s, rq, i, a, handle), t, Created(s.nextId, goal))
  {
    var rq := UserRequest(ap, goal);
    assert s.pcs[t := Reserved(a, rq.size, goal)][t := Created(s.nextId, goal)] == s.pcs[t := Created(s.nextId, goal)];
  }

  lemma {:induction false} AllocTakes(ap: Aperture, s: State, t: nat, goal: Goal, i: nat, a: U64)
    requires Registers(ap, s, t, goal, i, a)
    ensures i <= |s.areas| && Enabled(ap, Goto(s, t, Missed(goal)), AllocUser(t))
    ensures var rq := UserRequest(ap, goal);
      Next(ap, Goto(s, t, Missed(goal)), AllocUser(t)) == Goto(Taken(ap, s, rq, i, a), t, Reserved(a, rq.size, goal))
  {
    var rq := UserRequest(ap, goal);
    ReserveTakes(ap, s, t, rq, goal, i, a);
    assert s.pcs[t := Missed(goal)][t := Reserved(a, rq.size, goal)] == s.pcs[t := Reserved(a, rq.size, goal)];
  }

  /** A registration makes an object that is registered once, under its user pointer and for the nodes asked for. */
  lemma {:induction false} RegisterCall(ap: Aperture, s: State, t: nat, goal: Goal, i: nat, a: U64, handle: U64)
    requires Registers(ap, s, t, goal, i, a)
    ensures i <= |s.areas| && Takes(ap, s, RegisterSteps(t, goal, handle), Known(ap, s, goal, i, a, handle))
  {
    AllocTakes(ap, s, t, goal, i, a);
    MakeTakes(ap, s, t, goal, i, a, handle);
    PublishAndNote(ap, s, t, goal, i, a, handle);
    var rq, last := UserRequest(ap, goal), Known(ap, s, goal, i, a, handle);
    var s1, s2 := Goto(s, t, Missed(goal)), Goto(Taken(ap, s, rq, i, a), t, Reserved(a, rq.size, goal));
    var s3 := Goto(Made(ap, s, rq, i, a, handle), t, Created(s.nextId, goal));
    var end := [Publish(t, None)] + NoteSteps(t, goal);
    TakesOne(ap, s, FindUser(t, goal, None));
    TakesOne(ap, s1, AllocUser(t));
    TakesOne(ap, s2, MakeObject(t, handle, true));
    TakesBoth(ap, s2, [MakeObject(t, handle, true)], s3, end, last);
    TakesBoth(ap, s1, [AllocUser(t)], s2, [MakeObject(t, handle, true)] + end, last);
    TakesBoth(ap, s, [FindUser(t, goal, None)], s1, [AllocUser(t)] + ([MakeObject(t, handle, true)] + end), last);
  }

  lemma {:induction false} KnownGone(ap: Aperture, s: State, t: nat, goal: Goal, i: nat, a: U64, handle: U64)
    requires Registers(ap, s, t, goal, i, a)
    ensures i <= |s.areas| && Gone(ap, Known(ap, s, goal, i, a, handle), s.nextId) == s.(nextId := s.nextId + 1)
  {
    var rq, id := UserRequest(ap, goal), s.nextId;
    NewUnused(s, s);
    GivenBack(ap, s, t, rq, i, a);
    AddedRemoved(s.heap, id, Object(a, rq.size, handle, goal.addr, goal.size, 1, goal.nodes));
    AddedRemoved(s.tree, id, Key(a, rq.size));
    AddedRemoved(s.userTree, id, Key(goal.addr, goal.size));
  }

  /** Registering and releasing user memory leaves areas, objects and both indexes as they were. */
  lemma {:induction false} RegisterAndRelease(ap: Aperture, s: State, t: nat, goal: Goal, i: nat, a: U64, handle: U64)
    requires Registers(ap, s, t, goal, i, a)
    ensures Takes(ap, s, RegisterSteps(t, goal, handle) + ([FindRelease(t, s.nextId)] + [Release(t, true)]),
                  s.(nextId := s.nextId + 1))
  {
    RegisterCall(ap, s, t, goal, i, a, handle);
    var s1 := Known(ap, s, goal, i, a, handle);
    NewUnused(s, s1);
    ReleaseCall(ap, s1, t, s.nextId);
    KnownGone(ap, s, t, goal, i, a, handle);
    TakesBoth(ap, s, RegisterSteps(t, goal, handle), s1,
              [FindRelease(t, s.nextId)] + [Release(t, true)], s.(nextId := s.nextId + 1));
  }

  // ---- Losing a race ----

  /** The state without the thread's own object, and with one registration more of the other one. */
  function Yields(ap: Aperture, s: State, t: nat, id: nat, found: nat): State
    requires id in s.heap && found in s.heap
  {
    Goto(Gone(ap, s, id), t, Idle).(heap := (s.heap - {id})[found := Counted(s.heap[found])])
  }

  lemma {:induction false} DropTakes(ap: Aperture, s: State, t: nat, id: nat, found: nat)
    requires ap.pageSize > 0 && t in s.pcs && id in s.heap && found in s.heap && id != found && s.heap[id].userptr == 0
    ensures var s1 := Yielded(s, t, id, found, []);
      Enabled(ap, s1, Drop(t, true)) && Next(ap, s1, Drop(t, true)) == Yields(ap, s, t, id, found)
  {
    UpdatedRemoved(s.heap, id, found, Counted(s.heap[found]));
    assert s.pcs[t := Dropping(id, found, [])][t := Idle] == s.pcs[t := Idle];
    assert Frees(s.heap[id], true);
  }

  /** A thread that finds its user pointer registered by another gives its own object back and counts the other's. */
  lemma {:induction false} LostRace(ap: Aperture, s: State, t: nat, found: nat)
    requires ap.pageSize > 0 && Indexed(s) && Claimed(s) && t in s.pcs && s.pcs[t].Created?
    requires Enabled(ap, s, Publish(t, Some(found))) && s.pcs[t].goal.nodes == []
    ensures s.pcs[t].id in s.heap && found in s.heap
    ensures Takes(ap, s, [Publish(t, Some(found))] + [Drop(t, true)], Yields(ap, s, t, s.pcs[t].id, found))
  {
    var id := s.pcs[t].id;
    assert Sound(s, s.pcs[t]);
    var s1 := Yielded(s, t, id, found, []);
    DropTakes(ap, s, t, id, found);
    TakesOne(ap, s, Publish(t, Some(found)));
    TakesOne(ap, s1, Drop(t, true));
    TakesBoth(ap, s, [Publish(t, Some(found))], s1, [Drop(t, true)], Yields(ap, s, t, id, found));
  }

  // ---- Nodes ----

  lemma {:induction false} ReleaseKeepsNodes(ap: Aperture, s: State, id: nat, other: nat, freed: bool)
    requires id in s.heap && id in ReleaseObject(ap, s, other, freed).heap
    ensures ReleaseObject(ap, s, other, freed).heap[id].nodes == s.heap[id].nodes
  {
  }

  lemma {:induction false} ReleasesKeepNodes(ap: Aperture, s: State, step: Step, id: nat)
    requires ap.pageSize > 0 && Enabled(ap, s, step) && (step.Drop? || step.Release?)
    requires id in s.heap && id in Next(ap, s, step).heap
    ensures Next(ap, s, step).heap[id].nodes == s.heap[id].nodes
  {
    ReleaseKeepsNodes(ap, s, id, s.pcs[step.t].id, step.freed);
  }

  lemma {:induction false} RegistersKeepNodes(ap: Aperture, s: State, step: Step, id: nat)
    requires ap.pageSize > 0 && Enabled(ap, s, step) && (step.FindUser? || step.Publish? || step.Note?)
    requires id in s.heap && s.heap[id].nodes != [] && id in Next(ap, s, step).heap
    ensures Next(ap, s, step).heap[id].nodes == s.heap[id].nodes
  {
  }

  lemma {:induction false} OthersKeepNodes(ap: Aperture, s: State, step: Step, id: nat)
    requires ap.pageSize > 0 && s.nextId !in s.heap && Enabled(ap, s, step)
    requires id in s.heap && id in Next(ap, s, step).heap
    requires !step.FindUser? && !step.Publish? && !step.Note? && !step.Drop? && !step.Release?
    ensures Next(ap, s, step).heap[id].nodes == s.heap[id].nodes
  {
  }

  /** Once an object is registered for nodes, no step changes them, whatever other nodes later calls ask for. */
  lemma {:induction false} NodesStay(ap: Aperture, s: State, step: Step, id: nat)
    requires ap.pageSize > 0 && Indexed(s) && Enabled(ap, s, step)
    requires id in s.heap && s.heap[id].nodes != [] && id in Next(ap, s, step).heap
    ensures Next(ap, s, step).heap[id].nodes == s.heap[id].nodes
  {
    if step.Drop? || step.Release? {
      ReleasesKeepNodes(ap, s, step, id);
    } else if step.FindUser? || step.Publish? || step.Note? {
      RegistersKeepNodes(ap, s, step, id);
    } else {
      OthersKeepNodes(ap, s, step, id);
    }
  }
}
