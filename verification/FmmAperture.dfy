/**
  Concurrent callers of one aperture, once more without looking at the list of areas: if requests
  are modest and their searches end in range, nothing wraps around and everything stays inside.
 */
module FmmAperture {
  import opened Machine
  import opened Areas
  import opened FirstFit
  import AreaRuns
  import opened Fmm
  import opened FmmInvariant
  import opened FmmRuns

  /** The request that a step makes to the allocator. */
  ghost function RequestOf(ap: Aperture, s: State, step: Step): Option<Request>
    requires ap.pageSize > 0
  {
    match step
    case AllocDevice(_, rq) => Some(rq)
    case AllocVa(_, rq, _) => Some(rq)
    case AllocUser(t) =>
      if t in s.pcs && s.pcs[t].Missed? && s.pcs[t].goal.UserMemory? then Some(UserRequest(ap, s.pcs[t].goal)) else None
    case _ => None
  }

  ghost predicate Within(ap: Aperture, s: State, step: Step)
    requires ap.pageSize > 0
  {
    var rq := RequestOf(ap, s, step);
    rq.Some? ==> AreaRuns.Inward(ap, s.areas, rq.value)
  }

  /** What the model asks of allocations is met by modest requests. */
  lemma {:induction false} ModestHarmless(ap: Aperture, areas: seq<Area>, rq: Request)
    requires WellFormed(areas) && InAperture(ap, areas) && AreaRuns.Modest(ap, rq)
    ensures Harmless(ap, areas, rq)
  {
    AreaRuns.ModestClear(ap, areas, rq);
  }

  lemma {:induction false} ReserveStays(ap: Aperture, s: State, t: nat, rq: Request, goal: Goal)
    requires WellFormed(s.areas) && InAperture(ap, s.areas) && AreaRuns.Inward(ap, s.areas, rq)
    ensures InAperture(ap, Reserve(ap, s, t, rq, goal).areas)
  {
    if Place(ap, s.areas, rq).Some? {
      var (i, a) := Place(ap, s.areas, rq).value;
      AreaRuns.ModestClear(ap, s.areas, rq);
      ClearFits(ap, s.areas, rq);
      if rq.address == 0 {
        PlaceInAperture(ap, s.areas, rq);
      }
      AreaRuns.PlacedInAperture(ap, s.areas, i, Block(a, Padded(ap, rq.size)));
    }
  }

  lemma {:induction false} UnreserveStays(ap: Aperture, s: State, o: Owner, start: U64, size: U64)
    requires Accounted(ap, s) && InAperture(ap, s.areas) && BlockOf(ap, s, o) == Some(Block(start, Padded(ap, size)))
    ensures InAperture(ap, Unreserve(ap, s, start, size).areas)
  {
    AreaRuns.ReleasedInAperture(ap, s.areas, Block(start, Padded(ap, size)));
  }

  lemma {:induction false} ReleaseStays(ap: Aperture, s: State, id: nat, freed: bool)
    requires Accounted(ap, s) && InAperture(ap, s.areas)
    ensures InAperture(ap, ReleaseObject(ap, s, id, freed).areas)
  {
    if id in s.heap {
      UnreserveStays(ap, s, OfObject(id), s.heap[id].start, s.heap[id].size);
    }
  }

  lemma {:induction false} ReserveVaStays(ap: Aperture, s: State, t: nat, rq: Request, memory: bool)
    requires Invariant(ap, s) && t in s.pcs && s.pcs[t].Idle? && Harmless(ap, s.areas, rq)
    requires InAperture(ap, s.areas) && AreaRuns.Inward(ap, s.areas, rq)
    ensures InAperture(ap, ReserveVa(ap, s, t, rq, memory).areas)
  {
    var s1 := Reserve(ap, s, t, rq, DeviceMemory);
    ReserveStays(ap, s, t, rq, DeviceMemory);
    ReserveKeeps(ap, s, t, rq, DeviceMemory);
    if s1.pcs[t].Reserved? {
      UnreserveStays(ap, s1, OfThread(t), s1.pcs[t].start, s1.pcs[t].size);
    }
  }

  /** The other steps leave the areas alone. */
  lemma {:induction false} OthersStay(ap: Aperture, s: State, step: Step)
    requires ap.pageSize > 0 && Enabled(ap, s, step)
    requires !step.AllocDevice? && !step.AllocVa? && !step.AllocUser? && !step.GiveBack? && !step.Drop?
      && !step.Release?
    ensures Next(ap, s, step).areas == s.areas
  {
  }

  lemma {:induction false} NextStays(ap: Aperture, s: State, step: Step)
    requires ap.pageSize > 0 && Invariant(ap, s) && InAperture(ap, s.areas) && Enabled(ap, s, step)
      && Within(ap, s, step)
    ensures InAperture(ap, Next(ap, s, step).areas)
  {
    match step
    case AllocDevice(t, rq) => ReserveStays(ap, s, t, rq, DeviceMemory);
    case AllocVa(t, rq, memory) => ReserveVaStays(ap, s, t, rq, memory);
    case AllocUser(t) => ReserveStays(ap, s, t, UserRequest(ap, s.pcs[t].goal), s.pcs[t].goal);
    case GiveBack(t) => UnreserveStays(ap, s, OfThread(t), s.pcs[t].start, s.pcs[t].size);
    case Drop(t, freed) => ReleaseStays(ap, s, s.pcs[t].id, freed);
    case Release(t, freed) => ReleaseStays(ap, s, s.pcs[t].id, freed);
    case _ => OthersStay(ap, s, step);
  }

  ghost predicate WithinRun(ap: Aperture, s: State, steps: seq<Step>)
    requires ap.pageSize > 0 && EnabledRun(ap, s, steps)
    decreases |steps|
  {
    steps == [] || (Within(ap, s, steps[0]) && WithinRun(ap, Next(ap, s, steps[0]), steps[1..]))
  }

  lemma {:induction false} RunStays(ap: Aperture, s: State, steps: seq<Step>)
    requires ap.pageSize > 0 && Invariant(ap, s) && InAperture(ap, s.areas)
    requires EnabledRun(ap, s, steps) && WithinRun(ap, s, steps)
    ensures Invariant(ap, After(ap, s, steps)) && InAperture(ap, After(ap, s, steps).areas)
    decreases |steps|
  {
    if steps != [] {
      NextKeeps(ap, s, steps[0]);
      NextStays(ap, s, steps[0]);
      RunStays(ap, Next(ap, s, steps[0]), steps[1..]);
    }
  }

  /**
    In every interleaving of modest requests that end in range, every object lies inside the
    aperture with its guard pages, and whatever modest request comes next is harmless.
   */
  lemma {:induction false} ObjectsInAperture(ap: Aperture, threads: set<nat>, steps: seq<Step>, id: nat, rq: Request)
    requires ap.pageSize > 0 && Usable(ap)
    requires EnabledRun(ap, Start(threads), steps) && WithinRun(ap, Start(threads), steps)
    ensures var s := After(ap, Start(threads), steps);
      && (id in s.heap ==>
            ap.base <= s.heap[id].start && s.heap[id].start + Padded(ap, s.heap[id].size) <= ap.limit + 1)
      && (AreaRuns.Modest(ap, rq) ==> Harmless(ap, s.areas, rq))
  {
    var s := After(ap, Start(threads), steps);
    StartKeeps(ap, threads);
    RunStays(ap, Start(threads), steps);
    if id in s.heap {
      assert BlockOf(ap, s, OfObject(id)).Some?;
    }
    if AreaRuns.Modest(ap, rq) {
      ModestHarmless(ap, s.areas, rq);
    }
  }
}
