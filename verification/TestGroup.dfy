/**
  The start/wait protocol of a test group: any number of workers and one controlling thread share
  a mutex and a condition variable. A step is one section under the mutex or one access outside
  of it. `Asleep` is a thread in the condition variable; a broadcast or a spurious wake-up makes
  it `Woken`, after which it has to take the mutex and look again.
 */
module TestGroup {
  datatype WorkerPc = Entering | Asleep | Woken | Leaving | Running | Ran | Stopping | Finished

  /** `flag` is the worker's own copy of the run flag. */
  datatype Worker = Worker(pc: WorkerPc, flag: bool)

  datatype ControlPc = Idle | Starting | Waiting | Sleeping | Joining | Done

  /** `waited` tells that no start was made since the last completed wait. */
  datatype State = State(
    workers: seq<Worker>, runFlag: bool, exitFlag: bool, running: int, control: ControlPc, waited: bool)

  datatype Step =
    | Check(i: nat)
    | Spurious(i: nat)
    | Decide(i: nat)
    | RunTest(i: nat)
    | Finish(i: nat)
    | Stop(i: nat)
    | TryStart
    | CommitStart
    | CallWait
    | CheckWait
    | SpuriousWait
    | Exit
    | Join

  predicate OfWorker(step: Step) {
    step.Check? || step.Spurious? || step.Decide? || step.RunTest? || step.Finish? || step.Stop?
  }

  // ---- Steps ----

  function WokenUp(w: Worker): Worker {
    if w.pc.Asleep? then w.(pc := Woken) else w
  }

  function AllWoken(ws: seq<Worker>): (r: seq<Worker>)
    ensures |r| == |ws| && forall i | 0 <= i < |ws| :: r[i] == WokenUp(ws[i])
  {
    if ws == [] then [] else [WokenUp(ws[0])] + AllWoken(ws[1..])
  }

  function Broadcast(s: State): State {
    s.(workers := AllWoken(s.workers), control := if s.control.Sleeping? then Waiting else s.control)
  }

  function Goto(s: State, i: nat, pc: WorkerPc): State
    requires i < |s.workers|
  {
    s.(workers := s.workers[i := s.workers[i].(pc := pc)])
  }

  predicate Enabled(s: State, step: Step) {
    if OfWorker(step) then
      step.i < |s.workers| && var pc := s.workers[step.i].pc;
      match step
      case Check(_) => pc.Entering? || pc.Woken?
      case Spurious(_) => pc.Asleep?
      case Decide(_) => pc.Leaving?
      case RunTest(_) => pc.Running?
      case Finish(_) => pc.Ran?
      case Stop(_) => pc.Stopping?
    else
      match step
      case TryStart => s.control.Idle?
      case CommitStart => s.control.Starting?
      case CallWait => s.control.Idle?
      case CheckWait => s.control.Waiting?
      case SpuriousWait => s.control.Sleeping?
      case Exit => s.control.Idle? && s.waited
      case Join => s.control.Joining? && forall w <- s.workers :: w.pc.Finished?
  }

  function Next(s: State, step: Step): State
    requires Enabled(s, step)
  {
    match step
    case Check(i) => Goto(s, i, if s.workers[i].flag == s.runFlag && !s.exitFlag then Asleep else Leaving)
    case Spurious(i) => Goto(s, i, Woken)
    case Decide(i) =>
      s.(workers := s.workers[i := Worker(if s.exitFlag then Finished else Running, !s.workers[i].flag)])
    case RunTest(i) => Goto(s, i, Ran)
    case Finish(i) =>
      var s1 := Goto(s, i, Stopping).(running := s.running - 1);
      if s1.running == 0 then Broadcast(s1) else s1
    case Stop(i) => Goto(s, i, Entering)
    case TryStart => if s.running != 0 then s else s.(control := Starting)
    case CommitStart => Broadcast(s.(runFlag := !s.runFlag, running := |s.workers|, control := Idle, waited := false))
    case CallWait => s.(control := Waiting)
    case CheckWait => if s.running != 0 then s.(control := Sleeping) else s.(control := Idle, waited := true)
    case SpuriousWait => s.(control := Waiting)
    case Exit => Broadcast(s.(exitFlag := true, control := Joining))
    case Join => s.(control := Done)
  }

  function Start(n: nat): State {
    State(seq(n, _ => Worker(Entering, false)), false, false, 0, Idle, true)
  }

  // ---- What every step keeps ----

  /** The worker has not finished the current round. */
  predicate Pending(w: Worker, runFlag: bool) {
    w.pc.Running? || w.pc.Ran? || (!w.pc.Finished? && w.flag != runFlag)
  }

  function PendingCount(ws: seq<Worker>, runFlag: bool): nat {
    if ws == [] then 0 else (if Pending(ws[0], runFlag) then 1 else 0) + PendingCount(ws[1..], runFlag)
  }

  /**
    A worker that sleeps has a reason to, one that left the wait loop has a round to run unless
    the group is exiting, and one that runs is in the current round.
   */
  predicate Orderly(w: Worker, runFlag: bool, exitFlag: bool) {
    && (w.pc.Asleep? ==> w.flag == runFlag && !exitFlag)
    && (w.pc.Leaving? ==> exitFlag || w.flag != runFlag)
    && (w.pc.Running? || w.pc.Ran? ==> w.flag == runFlag)
    && (w.pc.Finished? ==> exitFlag)
  }

  predicate ControlOrderly(s: State) {
    && (s.control.Idle? && s.waited ==> s.running == 0)
    && (s.control.Starting? ==> s.running == 0)
    && (s.control.Sleeping? ==> s.running != 0)
    && (s.exitFlag <==> s.control.Joining? || s.control.Done?)
    && (s.exitFlag ==> s.running == 0)
    && (s.control.Done? ==> forall w <- s.workers :: w.pc.Finished?)
  }

  /** The counter of running tests is the number of workers that have not finished the round. */
  predicate Invariant(s: State) {
    && s.running == PendingCount(s.workers, s.runFlag)
    && (forall w <- s.workers :: Orderly(w, s.runFlag, s.exitFlag))
    && ControlOrderly(s)
  }

  lemma {:induction false} CountUpdated(ws: seq<Worker>, runFlag: bool, i: nat, w: Worker)
    requires i < |ws|
    ensures PendingCount(ws[i := w], runFlag)
         == PendingCount(ws, runFlag) + (if Pending(w, runFlag) then 1 else 0)
                                      - (if Pending(ws[i], runFlag) then 1 else 0)
    decreases i
  {
    var r := ws[i := w];
    if i == 0 {
      assert r[1..] == ws[1..];
    } else {
      CountUpdated(ws[1..], runFlag, i - 1, w);
      assert r[1..] == ws[1..][i - 1 := w];
    }
  }

  lemma {:induction false} CountWoken(ws: seq<Worker>, runFlag: bool)
    ensures PendingCount(AllWoken(ws), runFlag) == PendingCount(ws, runFlag)
  {
    if ws != [] {
      CountWoken(ws[1..], runFlag);
      assert AllWoken(ws)[1..] == AllWoken(ws[1..]);
    }
  }

  lemma {:induction false} CountZero(ws: seq<Worker>, runFlag: bool)
    ensures PendingCount(ws, runFlag) == 0 <==> forall w <- ws :: !Pending(w, runFlag)
  {
    if ws != [] {
      CountZero(ws[1..], runFlag);
      assert ws == [ws[0]] + ws[1..];
    }
  }

  lemma {:induction false} CountAll(ws: seq<Worker>, runFlag: bool)
    requires forall w <- ws :: Pending(w, runFlag)
    ensures PendingCount(ws, runFlag) == |ws|
  {
    if ws != [] {
      assert ws[0] in ws;
      CountAll(ws[1..], runFlag);
    }
  }

  /** Waking threads up never hurts. */
  lemma {:induction false} BroadcastKeeps(s: State)
    requires s.running == PendingCount(s.workers, s.runFlag)
    requires forall w <- s.workers :: Orderly(WokenUp(w), s.runFlag, s.exitFlag)
    requires ControlOrderly(Broadcast(s))
    ensures Invariant(Broadcast(s))
  {
    CountWoken(s.workers, s.runFlag);
  }

  /** One worker moves on and stays in or out of the round. */
  lemma {:induction false} MovedKeeps(s: State, i: nat, w: Worker)
    requires Invariant(s) && i < |s.workers| && Orderly(w, s.runFlag, s.exitFlag) && !s.workers[i].pc.Finished?
    requires Pending(w, s.runFlag) == Pending(s.workers[i], s.runFlag)
    ensures Invariant(s.(workers := s.workers[i := w]))
  {
    CountUpdated(s.workers, s.runFlag, i, w);
    assert s.workers[i] in s.workers;
  }

  lemma {:induction false} WorkerKeeps(s: State, step: Step)
    requires Invariant(s) && Enabled(s, step) && OfWorker(step) && !step.Finish?
    ensures Invariant(Next(s, step))
  {
    var i := step.i;
    assert s.workers[i] in s.workers;
    CountZero(s.workers, s.runFlag);
    MovedKeeps(s, i, Next(s, step).workers[i]);
    assert Next(s, step) == s.(workers := s.workers[i := Next(s, step).workers[i]]);
  }

  lemma {:induction false} FinishKeeps(s: State, i: nat)
    requires Invariant(s) && Enabled(s, Finish(i))
    ensures Invariant(Next(s, Finish(i)))
  {
    var w := s.workers[i];
    assert w in s.workers;
    var s1 := Goto(s, i, Stopping).(running := s.running - 1);
    CountZero(s.workers, s.runFlag);
    CountUpdated(s.workers, s.runFlag, i, s1.workers[i]);
    if s1.running == 0 {
      BroadcastKeeps(s1);
    }
  }

  lemma {:induction false} StartKeeps(s: State)
    requires Invariant(s) && Enabled(s, CommitStart)
    ensures Invariant(Next(s, CommitStart))
  {
    var s1 := s.(runFlag := !s.runFlag, running := |s.workers|, control := Idle, waited := false);
    CountZero(s.workers, s.runFlag);
    CountAll(s1.workers, s1.runFlag);
    BroadcastKeeps(s1);
  }

  lemma {:induction false} ExitKeeps(s: State)
    requires Invariant(s) && Enabled(s, Exit)
    ensures Invariant(Next(s, Exit))
  {
    BroadcastKeeps(s.(exitFlag := true, control := Joining));
  }

  lemma {:induction false} NextKeeps(s: State, step: Step)
    requires Invariant(s) && Enabled(s, step)
    ensures Invariant(Next(s, step))
  {
    match step
    case Finish(i) => FinishKeeps(s, i);
    case CommitStart => StartKeeps(s);
    case Exit => ExitKeeps(s);
    case _ =>
      if OfWorker(step) {
        WorkerKeeps(s, step);
      }
  }

  // ---- Runs ----

  predicate EnabledRun(s: State, steps: seq<Step>)
    decreases |steps|
  {
    steps == [] || (Enabled(s, steps[0]) && EnabledRun(Next(s, steps[0]), steps[1..]))
  }

  function After(s: State, steps: seq<Step>): State
    requires EnabledRun(s, steps)
    decreases |steps|
  {
    if steps == [] then s else After(Next(s, steps[0]), steps[1..])
  }

  lemma {:induction false} StartHolds(n: nat)
    ensures Invariant(Start(n))
  {
    CountZero(Start(n).workers, false);
  }

  /** Every reachable state meets the invariant. */
  lemma {:induction false} RunKeeps(s: State, steps: seq<Step>)
    requires Invariant(s) && EnabledRun(s, steps)
    ensures Invariant(After(s, steps)) && |After(s, steps).workers| == |s.workers|
    decreases |steps|
  {
    if steps != [] {
      NextKeeps(s, steps[0]);
      RunKeeps(Next(s, steps[0]), steps[1..]);
    }
  }

  /** How often a step occurs in a run. */
  function Occurrences(steps: seq<Step>, step: Step): nat {
    if steps == [] then 0 else (if steps[0] == step then 1 else 0) + Occurrences(steps[1..], step)
  }

  /** The worker still has to run its test for the current round. */
  function Owes(s: State, i: nat): nat
    requires i < |s.workers|
  {
    if Pending(s.workers[i], s.runFlag) && !s.workers[i].pc.Ran? then 1 else 0
  }

  lemma {:induction false} WorkerOwes(s: State, step: Step, i: nat)
    requires Enabled(s, step) && OfWorker(step) && i < |s.workers| && Orderly(s.workers[i], s.runFlag, s.exitFlag)
    requires s.exitFlag ==> !Pending(s.workers[i], s.runFlag)
    ensures Owes(Next(s, step), i) == Owes(s, i) - (if step == RunTest(i) then 1 else 0)
  {
  }

  lemma {:induction false} StepOwes(s: State, step: Step, i: nat)
    requires Invariant(s) && Enabled(s, step) && i < |s.workers|
    ensures Owes(Next(s, step), i)
      == Owes(s, i) + (if step.CommitStart? then 1 else 0) - (if step == RunTest(i) then 1 else 0)
  {
    assert s.workers[i] in s.workers;
    CountZero(s.workers, s.runFlag);
    if OfWorker(step) {
      WorkerOwes(s, step, i);
    }
  }

  lemma {:induction false} RunOwes(s: State, steps: seq<Step>, i: nat)
    requires Invariant(s) && EnabledRun(s, steps) && i < |s.workers|
    ensures |After(s, steps).workers| == |s.workers|
    ensures Owes(After(s, steps), i) == Owes(s, i) + Occurrences(steps, CommitStart) - Occurrences(steps, RunTest(i))
    decreases |steps|
  {
    if steps != [] {
      NextKeeps(s, steps[0]);
      StepOwes(s, steps[0], i);
      RunOwes(Next(s, steps[0]), steps[1..], i);
    }
  }

  /**
    In every run, whatever the number of workers: each worker ran its test once for each accepted
    start, except that the one for the current round may still be due; and the counter of running
    tests is the number of workers not done with it.
   */
  lemma {:induction false} OncePerStart(n: nat, steps: seq<Step>, i: nat)
    requires EnabledRun(Start(n), steps) && i < n
    ensures var s := After(Start(n), steps);
      && |s.workers| == n && s.running == PendingCount(s.workers, s.runFlag)
      && Occurrences(steps, RunTest(i)) + Owes(s, i) == Occurrences(steps, CommitStart)
  {
    StartHolds(n);
    RunKeeps(Start(n), steps);
    RunOwes(Start(n), steps, i);
  }

  /** A wait returns only when no worker is left in the round and all of them ran once for each start. */
  lemma {:induction false} WaitReturnsWhenDone(n: nat, steps: seq<Step>, i: nat)
    requires EnabledRun(Start(n), steps) && i < n
    requires var s := After(Start(n), steps); Enabled(s, CheckWait) && Next(s, CheckWait).control.Idle?
    ensures var s := After(Start(n), steps);
      && |s.workers| == n && !Pending(s.workers[i], s.runFlag)
      && Occurrences(steps, RunTest(i)) == Occurrences(steps, CommitStart)
  {
    OncePerStart(n, steps, i);
    var s := After(Start(n), steps);
    CountZero(s.workers, s.runFlag);
    assert s.workers[i] in s.workers;
  }

  /** The same when a start is accepted, so that no round begins before the one before it is over. */
  lemma {:induction false} StartAcceptedWhenDone(n: nat, steps: seq<Step>, i: nat)
    requires EnabledRun(Start(n), steps) && i < n && Enabled(After(Start(n), steps), CommitStart)
    ensures Occurrences(steps, RunTest(i)) == Occurrences(steps, CommitStart)
  {
    StartHolds(n);
    RunKeeps(Start(n), steps);
    OncePerStart(n, steps, i);
    var s := After(Start(n), steps);
    CountZero(s.workers, s.runFlag);
    assert s.workers[i] in s.workers;
  }

  // ---- Progress ----

  /** No wake-up is lost: a thread asleep still has to wait for what it waits for. */
  lemma {:induction false} NoLostWakeUp(n: nat, steps: seq<Step>)
    requires EnabledRun(Start(n), steps)
    ensures var s := After(Start(n), steps);
      && (s.control.Sleeping? ==> s.running != 0)
      && (forall w <- s.workers | w.pc.Asleep? :: w.flag == s.runFlag && !s.exitFlag)
  {
    StartHolds(n);
    RunKeeps(Start(n), steps);
  }

  /** The next step of a worker that is neither asleep nor finished. */
  function NextOf(s: State, i: nat): Step
    requires i < |s.workers| && !s.workers[i].pc.Asleep? && !s.workers[i].pc.Finished?
  {
    match s.workers[i].pc
    case Entering => Check(i)
    case Woken => Check(i)
    case Leaving => Decide(i)
    case Running => RunTest(i)
    case Ran => Finish(i)
    case Stopping => Stop(i)
  }

  /** While tests are running, some worker that has not finished the round can go on. */
  lemma {:induction false} SomeWorkerCanStep(n: nat, steps: seq<Step>)
    requires EnabledRun(Start(n), steps) && After(Start(n), steps).running > 0
    ensures var s := After(Start(n), steps);
      exists i | 0 <= i < |s.workers| ::
        && Pending(s.workers[i], s.runFlag) && !s.workers[i].pc.Asleep? && !s.workers[i].pc.Finished?
        && Enabled(s, NextOf(s, i))
  {
    StartHolds(n);
    RunKeeps(Start(n), steps);
    var s := After(Start(n), steps);
    CountZero(s.workers, s.runFlag);
    var i :| 0 <= i < |s.workers| && Pending(s.workers[i], s.runFlag);
    assert s.workers[i] in s.workers;
    assert Enabled(s, NextOf(s, i));
  }

  /** Bounds the steps of a worker until it sleeps, finishes its round or ends. */
  function Distance(w: Worker): nat {
    match w.pc
    case Asleep => 0
    case Finished => 0
    case Ran => 1
    case Running => 2
    case Leaving => 3
    case Stopping => 5
    case _ => 4
  }

  function TotalDistance(ws: seq<Worker>): (r: nat)
    ensures r <= 5 * |ws|
  {
    if ws == [] then 0 else Distance(ws[0]) + TotalDistance(ws[1..])
  }

  lemma {:induction false} DistanceUpdated(ws: seq<Worker>, i: nat, w: Worker)
    requires i < |ws|
    ensures TotalDistance(ws[i := w]) == TotalDistance(ws) + Distance(w) - Distance(ws[i])
    decreases i
  {
    var r := ws[i := w];
    if i == 0 {
      assert r[1..] == ws[1..];
    } else {
      DistanceUpdated(ws[1..], i - 1, w);
      assert r[1..] == ws[1..][i - 1 := w];
    }
  }

  /** Rounds still to be finished by workers weigh more than any number of other steps. */
  function Rank(s: State): int {
    s.running * (5 * |s.workers| + 1) + TotalDistance(s.workers)
  }

  lemma {:induction false} FewerWeighLess(running: int, n: nat)
    ensures (running - 1) * (5 * n + 1) + 5 * n < running * (5 * n + 1)
  {
  }

  lemma {:induction false} StepDescends(s: State, step: Step)
    requires Invariant(s) && Enabled(s, step) && OfWorker(step) && !step.Spurious?
    ensures Rank(Next(s, step)) < Rank(s)
  {
    var s2 := Next(s, step);
    if step.Finish? {
      FewerWeighLess(s.running, |s.workers|);
    } else {
      DistanceUpdated(s.workers, step.i, s2.workers[step.i]);
      assert s2.workers == s.workers[step.i := s2.workers[step.i]];
    }
  }

  /**
    Left alone, the workers complete the round: they take no more steps than the rank allows,
    whatever their order, and when none of them can go on the counter is zero.
   */
  lemma {:induction false} RoundCompletes(s: State, steps: seq<Step>)
    requires Invariant(s) && EnabledRun(s, steps) && forall step <- steps :: OfWorker(step) && !step.Spurious?
    ensures |steps| <= Rank(s)
    ensures var s2 := After(s, steps);
      (forall w <- s2.workers :: w.pc.Asleep? || w.pc.Finished?) ==> s2.running == 0
    decreases |steps|
  {
    if steps == [] {
      CountZero(s.workers, s.runFlag);
    } else {
      assert steps[0] in steps;
      NextKeeps(s, steps[0]);
      StepDescends(s, steps[0]);
      RoundCompletes(Next(s, steps[0]), steps[1..]);
    }
  }
}
