/** Whole runs of the memory manager: what holds in every reachable state, and what the counters mean. */
module FmmRuns {
  import opened Machine
  import opened Areas
  import opened Fmm
  import opened FmmInvariant

  ghost predicate EnabledRun(ap: Aperture, s: State, steps: seq<Step>)
    requires ap.pageSize > 0
    decreases |steps|
  {
    steps == [] || (Enabled(ap, s, steps[0]) && EnabledRun(ap, Next(ap, s, steps[0]), steps[1..]))
  }

  ghost function After(ap: Aperture, s: State, steps: seq<Step>): State
    requires ap.pageSize > 0 && EnabledRun(ap, s, steps)
    decreases |steps|
  {
    if steps == [] then s else After(ap, Next(ap, s, steps[0]), steps[1..])
  }

  function Start(threads: set<nat>): State {
    State([], map[], map[], map[], map t | t in threads :: Idle, 0)
  }

  lemma {:induction false} StartKeeps(ap: Aperture, threads: set<nat>)
    ensures Invariant(ap, Start(threads))
  {
    assert forall o :: BlockOf(ap, Start(threads), o).None?;
  }

  /** In every interleaving areas, objects and indexes agree. */
  lemma {:induction false} RunKeeps(ap: Aperture, s: State, steps: seq<Step>)
    requires ap.pageSize > 0 && Invariant(ap, s) && EnabledRun(ap, s, steps)
    ensures Invariant(ap, After(ap, s, steps))
    decreases |steps|
  {
    if steps != [] {
      NextKeeps(ap, s, steps[0]);
      RunKeeps(ap, Next(ap, s, steps[0]), steps[1..]);
    }
  }

  /** No two objects overlap, not even by their guard pages. */
  lemma {:induction false} ObjectsApart(ap: Aperture, threads: set<nat>, steps: seq<Step>, i: nat, j: nat)
    requires ap.pageSize > 0 && EnabledRun(ap, Start(threads), steps) && i != j
    requires var s := After(ap, Start(threads), steps); i in s.tree && j in s.tree
    ensures var s := After(ap, Start(threads), steps);
      && i in s.heap && j in s.heap
      && Disjoint(Block(s.tree[i].addr, Padded(ap, s.tree[i].size)), Block(s.tree[j].addr, Padded(ap, s.tree[j].size)))
  {
    StartKeeps(ap, threads);
    RunKeeps(ap, Start(threads), steps);
    var s := After(ap, Start(threads), steps);
    assert BlockOf(ap, s, OfObject(i)).Some? && BlockOf(ap, s, OfObject(j)).Some?;
  }

  /** A pointer that a thread is going to use is never dangling. */
  lemma {:induction false} NoDanglingPointer(ap: Aperture, threads: set<nat>, steps: seq<Step>, t: nat, id: nat)
    requires ap.pageSize > 0 && EnabledRun(ap, Start(threads), steps)
    requires var s := After(ap, Start(threads), steps); t in s.pcs && Uses(s.pcs[t], id)
    ensures id in After(ap, Start(threads), steps).heap
  {
    StartKeeps(ap, threads);
    RunKeeps(ap, Start(threads), steps);
  }

  /** An allocation that fails gives back exactly its own block. */
  lemma {:induction false} FailureUncovers(ap: Aperture, s: State, t: nat, x: int)
    requires ap.pageSize > 0 && Invariant(ap, s) && t in s.pcs && s.pcs[t].GivingBack?
    ensures var b := Block(s.pcs[t].start, Padded(ap, s.pcs[t].size));
      Covered(Next(ap, s, GiveBack(t)).areas, x) <==> Covered(s.areas, x) && !Has(b, x)
  {
    var b := Block(s.pcs[t].start, Padded(ap, s.pcs[t].size));
    assert BlockOf(ap, s, OfThread(t)) == Some(b);
    ReleasedKeeps(s.areas, b);
  }

  // ---- What the registration counter counts ----

  /** The registrations of the object; none while it has no user pointer. */
  function Registrations(s: State, id: nat): nat {
    if id in s.heap && s.heap[id].userptr != 0 then s.heap[id].count else 0
  }

  /** The step creates or matches the object for a register call, accepted or rejected. */
  predicate Registers(s: State, step: Step, id: nat) {
    match step
    case FindUser(_, _, found) => found == Some(id)
    case Publish(t, found) =>
      if found.Some? then found.value == id else t in s.pcs && s.pcs[t].Created? && s.pcs[t].id == id
    case _ => false
  }

  /** The step releases the object while it is registered. */
  predicate Unregisters(s: State, step: Step, id: nat) {
    step.Release? && step.t in s.pcs && s.pcs[step.t] == Releasing(id) && id in s.heap && s.heap[id].userptr != 0
  }

  ghost function RegisterCalls(ap: Aperture, s: State, steps: seq<Step>, id: nat): nat
    requires ap.pageSize > 0 && EnabledRun(ap, s, steps)
    decreases |steps|
  {
    if steps == [] then 0
    else (if Registers(s, steps[0], id) then 1 else 0) + RegisterCalls(ap, Next(ap, s, steps[0]), steps[1..], id)
  }

  ghost function ReleaseCalls(ap: Aperture, s: State, steps: seq<Step>, id: nat): nat
    requires ap.pageSize > 0 && EnabledRun(ap, s, steps)
    decreases |steps|
  {
    if steps == [] then 0
    else (if Unregisters(s, steps[0], id) then 1 else 0) + ReleaseCalls(ap, Next(ap, s, steps[0]), steps[1..], id)
  }

  lemma {:induction false} ReleaseCounts(ap: Aperture, s: State, t: nat, freed: bool, id: nat)
    requires Claimed(s) && t in s.pcs && s.pcs[t].Releasing?
    ensures var r := ReleaseObject(ap, s, s.pcs[t].id, freed);
      Registrations(r, id) == Registrations(s, id) - (if Unregisters(s, Release(t, freed), id) then 1 else 0)
  {
    assert Uses(s.pcs[t], s.pcs[t].id);
    ClaimLeft(s, t, s.pcs[t].id);
  }

  lemma {:induction false} DropCounts(ap: Aperture, s: State, t: nat, freed: bool, id: nat)
    requires Claimed(s) && t in s.pcs && s.pcs[t].Dropping?
    ensures Registrations(ReleaseObject(ap, s, s.pcs[t].id, freed), id) == Registrations(s, id)
  {
    assert Sound(s, s.pcs[t]);
  }

  lemma {:induction false} FindUserCounts(ap: Aperture, s: State, step: Step, id: nat)
    requires ap.pageSize > 0 && Indexed(s) && Enabled(ap, s, step) && step.FindUser?
    ensures Registrations(Next(ap, s, step), id) == Registrations(s, id) + (if Registers(s, step, id) then 1 else 0)
  {
  }

  lemma {:induction false} CountedCounts(s: State, t: nat, id: nat, found: nat, pc: Pc)
    requires found in s.heap && s.heap[found].userptr != 0 && s.heap[found].count + 1 < TWO_32
    ensures var r := Goto(s.(heap := s.heap[found := Counted(s.heap[found])]), t, pc);
      Registrations(r, id) == Registrations(s, id) + (if found == id then 1 else 0)
  {
  }

  lemma {:induction false} RegisteredCounts(s: State, t: nat, id: nat, o: nat, goal: Goal)
    requires o in s.heap && s.heap[o].userptr == 0 && goal.UserMemory? && goal.addr != 0
    ensures Registrations(Registered(s, t, o, goal), id) == Registrations(s, id) + (if o == id then 1 else 0)
  {
  }

  lemma {:induction false} PublishCounts(ap: Aperture, s: State, step: Step, id: nat)
    requires ap.pageSize > 0 && Indexed(s) && Claimed(s) && Enabled(ap, s, step) && step.Publish?
    ensures Registrations(Next(ap, s, step), id) == Registrations(s, id) + (if Registers(s, step, id) then 1 else 0)
  {
    var pc := s.pcs[step.t];
    assert Sound(s, pc);
    if step.found.Some? {
      CountedCounts(s, step.t, id, step.found.value, Dropping(pc.id, step.found.value, pc.goal.nodes));
    } else {
      RegisteredCounts(s, step.t, id, pc.id, pc.goal);
    }
  }

  /** The other steps leave the counters alone. */
  lemma {:induction false} OthersDoNotCount(ap: Aperture, s: State, step: Step, id: nat)
    requires ap.pageSize > 0 && s.nextId !in s.heap && Enabled(ap, s, step)
    requires !step.FindUser? && !step.Publish? && !step.Release? && !step.Drop?
    ensures Registrations(Next(ap, s, step), id) == Registrations(s, id)
  {
  }

  lemma {:induction false} StepCounts(ap: Aperture, s: State, step: Step, id: nat)
    requires ap.pageSize > 0 && Indexed(s) && Claimed(s) && Enabled(ap, s, step)
    ensures Registrations(Next(ap, s, step), id)
         == Registrations(s, id) + (if Registers(s, step, id) then 1 else 0)
                                 - (if Unregisters(s, step, id) then 1 else 0)
  {
    match step
    case FindUser(_, _, _) => FindUserCounts(ap, s, step, id);
    case Publish(_, _) => PublishCounts(ap, s, step, id);
    case Release(t, freed) => ReleaseCounts(ap, s, t, freed, id);
    case Drop(t, freed) => DropCounts(ap, s, t, freed, id);
    case _ => OthersDoNotCount(ap, s, step, id);
  }

  /** In every run the counter is the number of register calls that created or matched the object, less its releases. */
  lemma {:induction false} RunCounts(ap: Aperture, s: State, steps: seq<Step>, id: nat)
    requires ap.pageSize > 0 && Invariant(ap, s) && EnabledRun(ap, s, steps)
    ensures Registrations(After(ap, s, steps), id)
         == Registrations(s, id) + RegisterCalls(ap, s, steps, id) - ReleaseCalls(ap, s, steps, id)
    decreases |steps|
  {
    if steps != [] {
      NextKeeps(ap, s, steps[0]);
      StepCounts(ap, s, steps[0], id);
      RunCounts(ap, Next(ap, s, steps[0]), steps[1..], id);
    }
  }

  /** The kernel frees whatever it is asked to free. */
  predicate KernelFrees(step: Step) {
    (step.Release? ==> step.freed) && (step.Drop? ==> step.freed)
  }

  ghost predicate NoneLeftOver(s: State) {
    forall id <- s.userTree :: Registrations(s, id) > 0
  }

  lemma {:induction false} OnlyRegistersEnter(ap: Aperture, s: State, step: Step, id: nat)
    requires ap.pageSize > 0 && Enabled(ap, s, step) && id in Next(ap, s, step).userTree && id !in s.userTree
    ensures Registers(s, step, id)
  {
  }

  lemma {:induction false} StepLeaves(ap: Aperture, s: State, step: Step, id: nat)
    requires ap.pageSize > 0 && Indexed(s) && Claimed(s) && Enabled(ap, s, step) && NoneLeftOver(s) && KernelFrees(step)
    requires id in Next(ap, s, step).userTree
    ensures Registrations(Next(ap, s, step), id) > 0
  {
    StepCounts(ap, s, step, id);
    if id !in s.userTree {
      OnlyRegistersEnter(ap, s, step, id);
    } else if Unregisters(s, step, id) {
      LastReleaseLeaves(ap, s, step.t, id);
    }
  }

  lemma {:induction false} StepLeavesNone(ap: Aperture, s: State, step: Step)
    requires ap.pageSize > 0 && Invariant(ap, s) && Enabled(ap, s, step) && NoneLeftOver(s) && KernelFrees(step)
    ensures NoneLeftOver(Next(ap, s, step))
  {
    forall id <- Next(ap, s, step).userTree
      ensures Registrations(Next(ap, s, step), id) > 0
    {
      StepLeaves(ap, s, step, id);
    }
  }

  lemma {:induction false} RunLeavesNone(ap: Aperture, s: State, steps: seq<Step>)
    requires ap.pageSize > 0 && Invariant(ap, s) && EnabledRun(ap, s, steps) && NoneLeftOver(s)
    requires forall step <- steps :: KernelFrees(step)
    ensures NoneLeftOver(After(ap, s, steps))
    decreases |steps|
  {
    if steps != [] {
      assert steps[0] in steps;
      NextKeeps(ap, s, steps[0]);
      StepLeavesNone(ap, s, steps[0]);
      RunLeavesNone(ap, Next(ap, s, steps[0]), steps[1..]);
    }
  }

  /** A user pointer is in both trees exactly while more registrations than releases were made of it. */
  lemma {:induction false} InTreesWhileRegistered(ap: Aperture, threads: set<nat>, steps: seq<Step>, id: nat)
    requires ap.pageSize > 0 && EnabledRun(ap, Start(threads), steps) && forall step <- steps :: KernelFrees(step)
    ensures var s, s0 := After(ap, Start(threads), steps), Start(threads);
      && (id in s.userTree <==> RegisterCalls(ap, s0, steps, id) > ReleaseCalls(ap, s0, steps, id))
      && (id in s.userTree ==> id in s.tree)
  {
    StartKeeps(ap, threads);
    RunKeeps(ap, Start(threads), steps);
    RunCounts(ap, Start(threads), steps, id);
    RunLeavesNone(ap, Start(threads), steps);
  }

  lemma {:induction false} FreesAtOne(s: State, t: nat, id: nat)
    requires Claimed(s) && t in s.pcs && s.pcs[t] == Releasing(id)
    ensures id in s.heap && (Frees(s.heap[id], true) <==> Registrations(s, id) <= 1)
  {
    assert Uses(s.pcs[t], id);
    ClaimLeft(s, t, id);
  }

  lemma {:induction false} LastReleaseLeaves(ap: Aperture, s: State, t: nat, id: nat)
    requires Indexed(s) && Claimed(s) && t in s.pcs && s.pcs[t] == Releasing(id)
    ensures var s2 := ReleaseObject(ap, s, id, true);
      && id in s.heap
      && (id in s2.tree <==> Registrations(s, id) > 1) && (id in s2.userTree <==> Registrations(s, id) > 1)
      && s2.areas == if Registrations(s, id) > 1 then s.areas
                     else Released(s.areas, s.heap[id].start, Padded(ap, s.heap[id].size))
  {
    FreesAtOne(s, t, id);
  }

  /** The release that brings the counter to zero takes the object out of both trees and uncovers exactly its block. */
  lemma {:induction false} LastReleaseRemoves(ap: Aperture, s: State, t: nat, id: nat)
    requires ap.pageSize > 0 && Invariant(ap, s) && t in s.pcs && s.pcs[t] == Releasing(id)
    ensures id in s.heap
    ensures var s2, b := Next(ap, s, Release(t, true)), Block(s.heap[id].start, Padded(ap, s.heap[id].size));
      && (id in s2.tree <==> Registrations(s, id) > 1)
      && (id in s2.userTree <==> Registrations(s, id) > 1)
      && (forall x :: Covered(s2.areas, x) <==> Covered(s.areas, x) && (Registrations(s, id) > 1 || !Has(b, x)))
  {
    LastReleaseLeaves(ap, s, t, id);
    var b := Block(s.heap[id].start, Padded(ap, s.heap[id].size));
    assert BlockOf(ap, s, OfObject(id)) == Some(b);
    ReleasedKeeps(s.areas, b);
  }
}
