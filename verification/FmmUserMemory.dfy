/** Registered user memory has GPU addresses for all of its bytes, in just the pages that it touches. */
module FmmUserMemory {
  import opened Machine
  import opened Align
  import opened Areas
  import opened RbShape
  import opened Fmm
  import opened FmmInvariant
  import FirstFit
  import FmmRuns

  /** The bytes from the start of the first page to the end of the user memory. */
  function Extent(ap: Aperture, addr: U64, size: U64): int
    requires ap.pageSize > 0
  {
    addr % ap.pageSize + size
  }

  /**
    `size` is the least number of whole pages that hold the user memory, if their size in bytes has
    64 bits; otherwise it is too small.
   */
  predicate Holds(ap: Aperture, size: U64, addr: U64, userSize: U64)
    requires ap.pageSize > 0
  {
    var need := Extent(ap, addr, userSize);
    && (need <= size <==> need + ap.pageSize <= TWO_64)
    && (need + ap.pageSize <= TWO_64 ==> Divides(ap.pageSize, size) && size - ap.pageSize < need)
  }

  lemma {:induction false} RoundedHolds(need: int, page: int)
    requires 0 < page < TWO_64 && 0 <= need < TWO_64 + page
    ensures var size := AlignUp(Wrap(need), page);
      && (need <= size <==> need + page <= TWO_64)
      && (need + page <= TWO_64 ==> Divides(page, size) && size - page < need)
  {
    if need + page <= TWO_64 {
      AlignUpIs(need, page);
    } else if need < TWO_64 {
      FirstFit.AlignUpWraps(need, page);
    }
  }

  lemma {:induction false} RequestHolds(ap: Aperture, goal: Goal)
    requires 0 < ap.pageSize < TWO_64 && goal.UserMemory?
    ensures Holds(ap, UserRequest(ap, goal).size, goal.addr, goal.size)
  {
    RoundedHolds(Extent(ap, goal.addr, goal.size), ap.pageSize);
  }

  // ---- Every step ----

  /** An allocation on its way to become user memory has the size for it. */
  predicate PcHolds(ap: Aperture, s: State, pc: Pc)
    requires ap.pageSize > 0
  {
    match pc
    case Reserved(_, size, goal) => goal.UserMemory? ==> Holds(ap, size, goal.addr, goal.size)
    case Created(id, goal) =>
      goal.UserMemory? && id in s.heap ==> Holds(ap, s.heap[id].size, goal.addr, goal.size)
    case _ => true
  }

  ghost predicate ObjectHolds(ap: Aperture, s: State, id: nat)
    requires ap.pageSize > 0 && id in s.heap
  {
    id in s.userTree ==> Holds(ap, s.heap[id].size, s.heap[id].userptr, s.heap[id].userSize)
  }

  ghost predicate AllHold(ap: Aperture, s: State)
    requires ap.pageSize > 0
  {
    && (forall id <- s.heap :: ObjectHolds(ap, s, id))
    && (forall t <- s.pcs :: PcHolds(ap, s, s.pcs[t]))
  }

  /** The objects are the old ones with their sizes and user pointers, and a thread moves on. */
  ghost predicate SameSizes(s: State, s2: State, t: nat) {
    && t in s2.pcs && s2.pcs == s.pcs[t := s2.pcs[t]]
    && (forall id <- s2.heap ::
          && id in s.heap && s2.heap[id].size == s.heap[id].size
          && (id in s2.userTree ==>
                && id in s.userTree && s2.heap[id].userptr == s.heap[id].userptr
                && s2.heap[id].userSize == s.heap[id].userSize))
  }

  lemma {:induction false} SameSizesHold(ap: Aperture, s: State, s2: State, t: nat)
    requires ap.pageSize > 0 && AllHold(ap, s) && SameSizes(s, s2, t) && PcHolds(ap, s2, s2.pcs[t])
    ensures AllHold(ap, s2)
  {
    forall id <- s2.heap
      ensures ObjectHolds(ap, s2, id)
    {
      assert ObjectHolds(ap, s, id);
    }
    forall u <- s2.pcs
      ensures PcHolds(ap, s2, s2.pcs[u])
    {
      if u != t {
        assert PcHolds(ap, s, s.pcs[u]);
      }
    }
  }

  lemma {:induction false} ReserveHolds(ap: Aperture, s: State, t: nat, rq: Request, goal: Goal)
    requires ap.pageSize > 0 && AllHold(ap, s) && t in s.pcs && Alignable(ap, rq)
    requires goal.UserMemory? ==> Holds(ap, rq.size, goal.addr, goal.size)
    ensures AllHold(ap, Reserve(ap, s, t, rq, goal))
  {
    SameSizesHold(ap, s, Reserve(ap, s, t, rq, goal), t);
  }

  /** A new object of the size that its thread reserved. */
  lemma {:induction false} AddObjectHolds(ap: Aperture, s: State, t: nat, handle: U64, pc: Pc)
    requires ap.pageSize > 0 && AllHold(ap, s) && Indexed(s) && Claimed(s) && t in s.pcs && s.pcs[t].Reserved?
    requires pc == if s.pcs[t].goal.UserMemory? then Created(s.nextId, s.pcs[t].goal) else Idle
    ensures AllHold(ap, Goto(AddObject(s, s.pcs[t].start, s.pcs[t].size, handle), t, pc))
  {
    var s2 := Goto(AddObject(s, s.pcs[t].start, s.pcs[t].size, handle), t, pc);
    assert PcHolds(ap, s, s.pcs[t]);
    forall id <- s2.heap
      ensures ObjectHolds(ap, s2, id)
    {
      assert id != s.nextId ==> ObjectHolds(ap, s, id);
    }
    forall u <- s2.pcs
      ensures PcHolds(ap, s2, s2.pcs[u])
    {
      if u != t {
        assert PcHolds(ap, s, s.pcs[u]) && Sound(s, s.pcs[u]);
      }
    }
  }

  lemma {:induction false} ReserveVaHolds(ap: Aperture, s: State, t: nat, rq: Request, memory: bool)
    requires ap.pageSize > 0 && AllHold(ap, s) && Invariant(ap, s) && t in s.pcs && s.pcs[t].Idle?
    requires FirstFit.Harmless(ap, s.areas, rq)
    ensures AllHold(ap, ReserveVa(ap, s, t, rq, memory))
  {
    var s1 := Reserve(ap, s, t, rq, DeviceMemory);
    ReserveHolds(ap, s, t, rq, DeviceMemory);
    ReserveKeeps(ap, s, t, rq, DeviceMemory);
    if s1.pcs[t].Reserved? {
      if memory {
        AddObjectHolds(ap, s1, t, 0, Idle);
      } else {
        SameSizesHold(ap, s1, Goto(Unreserve(ap, s1, s1.pcs[t].start, s1.pcs[t].size), t, Idle), t);
      }
    }
  }

  lemma {:induction false} RegisteredHolds(ap: Aperture, s: State, t: nat, goal: Goal)
    requires ap.pageSize > 0 && AllHold(ap, s) && Claimed(s) && t in s.pcs && s.pcs[t].Created? && s.pcs[t].goal == goal
    ensures goal.UserMemory? && AllHold(ap, Registered(s, t, s.pcs[t].id, goal))
  {
    var id := s.pcs[t].id;
    assert Sound(s, s.pcs[t]) && PcHolds(ap, s, s.pcs[t]);
    var s2 := Registered(s, t, id, goal);
    forall i <- s2.heap
      ensures ObjectHolds(ap, s2, i)
    {
      assert ObjectHolds(ap, s, i);
    }
    forall u <- s2.pcs
      ensures PcHolds(ap, s2, s2.pcs[u])
    {
      if u != t {
        assert PcHolds(ap, s, s.pcs[u]);
      }
    }
  }

  lemma {:induction false} ReleaseHolds(ap: Aperture, s: State, t: nat, id: nat, freed: bool, pc: Pc)
    requires ap.pageSize > 0 && AllHold(ap, s) && t in s.pcs && !pc.Reserved? && !pc.Created?
    ensures AllHold(ap, Goto(ReleaseObject(ap, s, id, freed), t, pc))
  {
    SameSizesHold(ap, s, Goto(ReleaseObject(ap, s, id, freed), t, pc), t);
  }

  /** The other steps make no user memory and move no thread on towards it. */
  predicate Plain(step: Step) {
    step.KernelRefuses? || step.GiveBack? || step.FindUser? || step.Note? || step.FindRelease?
  }

  lemma {:induction false} PlainHolds(ap: Aperture, s: State, step: Step)
    requires ap.pageSize > 0 && AllHold(ap, s) && Indexed(s) && Enabled(ap, s, step) && Plain(step)
    ensures AllHold(ap, Next(ap, s, step))
  {
    PlainSame(ap, s, step);
    SameSizesHold(ap, s, Next(ap, s, step), step.t);
  }

  lemma {:induction false} FindUserSame(ap: Aperture, s: State, step: Step)
    requires ap.pageSize > 0 && Indexed(s) && Enabled(ap, s, step) && step.FindUser?
    ensures var s2 := Next(ap, s, step); SameSizes(s, s2, step.t) && PcHolds(ap, s2, s2.pcs[step.t])
  {
  }

  lemma {:induction false} NoteSame(ap: Aperture, s: State, step: Step)
    requires ap.pageSize > 0 && Enabled(ap, s, step) && step.Note?
    ensures var s2 := Next(ap, s, step); SameSizes(s, s2, step.t) && PcHolds(ap, s2, s2.pcs[step.t])
  {
  }

  lemma {:induction false} PlainSame(ap: Aperture, s: State, step: Step)
    requires ap.pageSize > 0 && Indexed(s) && Enabled(ap, s, step) && Plain(step)
    ensures var s2 := Next(ap, s, step); SameSizes(s, s2, step.t) && PcHolds(ap, s2, s2.pcs[step.t])
  {
    if step.FindUser? {
      FindUserSame(ap, s, step);
    } else if step.Note? {
      NoteSame(ap, s, step);
    }
  }

  lemma {:induction false} YieldedHolds(ap: Aperture, s: State, t: nat, id: nat, found: nat, nodes: seq<U32>)
    requires ap.pageSize > 0 && AllHold(ap, s) && t in s.pcs && found in s.heap
    ensures AllHold(ap, Yielded(s, t, id, found, nodes))
  {
    SameSizesHold(ap, s, Yielded(s, t, id, found, nodes), t);
  }

  lemma {:induction false} NextHolds(ap: Aperture, s: State, step: Step)
    requires 0 < ap.pageSize < TWO_64 && AllHold(ap, s) && Invariant(ap, s) && Enabled(ap, s, step)
    ensures AllHold(ap, Next(ap, s, step))
  {
    var t, pc := step.t, s.pcs[step.t];
    assert Sound(s, pc);
    match step
    case AllocDevice(_, rq) => ReserveHolds(ap, s, t, rq, DeviceMemory);
    case AllocVa(_, rq, memory) => ReserveVaHolds(ap, s, t, rq, memory);
    case AllocUser(_) =>
      RequestHolds(ap, pc.goal);
      ReserveHolds(ap, s, t, UserRequest(ap, pc.goal), pc.goal);
    case MakeObject(_, handle, memory) =>
      if memory {
        AddObjectHolds(ap, s, t, handle, if pc.goal.UserMemory? then Created(s.nextId, pc.goal) else Idle);
      } else {
        SameSizesHold(ap, s, Goto(s, t, GivingBack(pc.start, pc.size)), t);
      }
    case Publish(_, found) =>
      if found.Some? {
        YieldedHolds(ap, s, t, pc.id, found.value, pc.goal.nodes);
      } else {
        RegisteredHolds(ap, s, t, pc.goal);
      }
    case Drop(_, freed) => ReleaseHolds(ap, s, t, pc.id, freed, AfterNote(pc.found, pc.nodes));
    case Release(_, freed) => ReleaseHolds(ap, s, t, pc.id, freed, Idle);
    case _ => PlainHolds(ap, s, step);
  }

  lemma {:induction false} PlacedAligned(ap: Aperture, areas: seq<Area>, rq: Request)
    requires PowersOfTwo(ap, rq) && rq.address == 0 && rq.align == ap.align > 0 && Place(ap, areas, rq).Some?
    ensures EdgeAligned(ap, Place(ap, areas, rq).value.1, rq.size)
  {
    var a, start := Alignment(ap, rq), Place(ap, areas, rq).value.1;
    FirstFit.PlaceAligned(ap, areas, rq);
    DividesTransitive(ap.align, a, if ap.align > ap.pageSize then start else start + rq.size);
  }

  /** A block starts at a multiple of the aperture's alignment, or, up to page alignment, ends at one. */
  predicate EdgeAligned(ap: Aperture, start: U64, size: U64) {
    if ap.align > ap.pageSize then Divides(ap.align, start) else Divides(ap.align, start + size)
  }

  lemma {:induction false} ReserveAligned(ap: Aperture, s: State, t: nat, rq: Request, goal: Goal)
    requires PowersOfTwo(ap, rq) && rq.address == 0 && rq.align == ap.align > 0
    requires Reserve(ap, s, t, rq, goal).pcs[t].Reserved?
    ensures var pc := Reserve(ap, s, t, rq, goal).pcs[t]; EdgeAligned(ap, pc.start, pc.size)
  {
    PlacedAligned(ap, s.areas, rq);
  }

  /** The block reserved for user memory is aligned like that. */
  lemma {:induction false} UserBlockAligned(ap: Aperture, s: State, t: nat)
    requires ap.pageSize > 0 && ap.align > 0 && Enabled(ap, s, AllocUser(t))
    requires Next(ap, s, AllocUser(t)).pcs[t].Reserved?
    ensures var pc := Next(ap, s, AllocUser(t)).pcs[t]; EdgeAligned(ap, pc.start, pc.size)
  {
    ReserveAligned(ap, s, t, UserRequest(ap, s.pcs[t].goal), s.pcs[t].goal);
  }

  // ---- Every run ----

  lemma {:induction false} RunHolds(ap: Aperture, s: State, steps: seq<Step>)
    requires 0 < ap.pageSize < TWO_64 && AllHold(ap, s) && Invariant(ap, s) && FmmRuns.EnabledRun(ap, s, steps)
    ensures AllHold(ap, FmmRuns.After(ap, s, steps))
    decreases |steps|
  {
    if steps != [] {
      NextKeeps(ap, s, steps[0]);
      NextHolds(ap, s, steps[0]);
      RunHolds(ap, Next(ap, s, steps[0]), steps[1..]);
    }
  }

  /**
    In every reachable state the object of a user pointer has the least number of whole pages that
    hold its user memory, and so has every allocation on its way there, unless the size overflows.
   */
  lemma {:induction false} UserMemoryHeld(ap: Aperture, threads: set<nat>, steps: seq<Step>)
    requires 0 < ap.pageSize < TWO_64 && FmmRuns.EnabledRun(ap, FmmRuns.Start(threads), steps)
    ensures var s := FmmRuns.After(ap, FmmRuns.Start(threads), steps);
      && (forall id <- s.userTree ::
            id in s.heap && Holds(ap, s.heap[id].size, s.userTree[id].addr, s.userTree[id].size))
      && (forall t <- s.pcs :: PcHolds(ap, s, s.pcs[t]))
  {
    var s0 := FmmRuns.Start(threads);
    FmmRuns.StartKeeps(ap, threads);
    FmmRuns.RunKeeps(ap, s0, steps);
    RunHolds(ap, s0, steps);
    var s := FmmRuns.After(ap, s0, steps);
    forall id <- s.userTree
      ensures id in s.heap && Holds(ap, s.heap[id].size, s.userTree[id].addr, s.userTree[id].size)
    {
      assert ObjectHolds(ap, s, id);
    }
  }

  /**
    Each byte of the user memory has a GPU address inside the object, at the same offset from the
    page, if and only if the size in whole pages does not overflow.
   */
  lemma {:induction false} EveryByteHasAddress(ap: Aperture, threads: set<nat>, steps: seq<Step>, id: nat)
    requires 0 < ap.pageSize < TWO_64 && FmmRuns.EnabledRun(ap, FmmRuns.Start(threads), steps)
    requires id in FmmRuns.After(ap, FmmRuns.Start(threads), steps).userTree
    ensures var s := FmmRuns.After(ap, FmmRuns.Start(threads), steps);
      && id in s.heap
      && var o, k := s.heap[id], s.userTree[id]; var first := o.start + k.addr % ap.pageSize;
      && o.start <= first
      && (first + k.size <= o.start + o.size <==> Extent(ap, k.addr, k.size) + ap.pageSize <= TWO_64)
  {
    UserMemoryHeld(ap, threads, steps);
  }
}
