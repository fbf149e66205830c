/** The controller of a test group gets on: starts are accepted, waits return and exits complete. */
module TestGroupProgress {
  import opened TestGroup

  // ---- Runs one after the other ----

  lemma {:induction false} RunConcat(s: State, a: seq<Step>, b: seq<Step>)
    requires EnabledRun(s, a) && EnabledRun(After(s, a), b)
    ensures EnabledRun(s, a + b) && After(s, a + b) == After(After(s, a), b)
    decreases |a|
  {
    if a == [] {
      assert a + b == b;
    } else {
      assert (a + b)[1..] == a[1..] + b;
      RunConcat(Next(s, a[0]), a[1..], b);
    }
  }

  lemma {:induction false} OccurrencesConcat(a: seq<Step>, b: seq<Step>, step: Step)
    ensures Occurrences(a + b, step) == Occurrences(a, step) + Occurrences(b, step)
  {
    if a == [] {
      assert a + b == b;
    } else {
      assert (a + b)[1..] == a[1..] + b;
      OccurrencesConcat(a[1..], b, step);
    }
  }

  lemma {:induction false} RunOne(s: State, step: Step)
    requires Enabled(s, step)
    ensures EnabledRun(s, [step]) && After(s, [step]) == Next(s, step)
  {
    assert [step][1..] == [];
    assert EnabledRun(Next(s, step), []);
  }

  predicate OfWorkers(steps: seq<Step>) {
    forall step <- steps :: OfWorker(step)
  }

  lemma {:induction false} WorkersDoNotStart(steps: seq<Step>)
    requires OfWorkers(steps)
    ensures Occurrences(steps, CommitStart) == 0
  {
    if steps != [] {
      assert steps[0] in steps;
      WorkersDoNotStart(steps[1..]);
    }
  }

  // ---- The workers come to rest ----

  /** No worker can go on before it is woken up. */
  predicate AtRest(s: State) {
    forall w <- s.workers :: w.pc.Asleep? || w.pc.Finished?
  }

  /** A broadcast by the last worker wakes the controller; the workers change nothing else about it. */
  predicate SameControl(s: State, s': State) {
    && (s'.control == s.control || (s.control.Sleeping? && s'.control.Waiting?))
    && s'.exitFlag == s.exitFlag && s'.waited == s.waited && s'.runFlag == s.runFlag && |s'.workers| == |s.workers|
  }

  lemma {:induction false} WorkerControl(s: State, step: Step)
    requires Enabled(s, step) && OfWorker(step)
    ensures SameControl(s, Next(s, step))
  {
  }

  lemma {:induction false} SomeStep(s: State) returns (step: Step)
    requires !AtRest(s)
    ensures OfWorker(step) && !step.Spurious? && Enabled(s, step)
  {
    var i :| 0 <= i < |s.workers| && !s.workers[i].pc.Asleep? && !s.workers[i].pc.Finished?;
    step := NextOf(s, i);
  }

  lemma {:induction false} RankNatural(s: State)
    requires Invariant(s)
    ensures Rank(s) >= 0
  {
    assert s.running * (5 * |s.workers| + 1) >= 0;
  }

  /** From every state some steps of the workers bring all of them to rest, with no test running. */
  lemma {:induction false} Settle(s: State) returns (steps: seq<Step>)
    requires Invariant(s)
    ensures EnabledRun(s, steps) && OfWorkers(steps) && SameControl(s, After(s, steps))
    ensures var s' := After(s, steps); Invariant(s') && AtRest(s') && s'.running == 0
    decreases Rank(s)
  {
    if AtRest(s) {
      steps := [];
      RoundCompletes(s, []);
    } else {
      var step := SomeStep(s);
      NextKeeps(s, step);
      StepDescends(s, step);
      WorkerControl(s, step);
      RankNatural(Next(s, step));
      var rest := Settle(Next(s, step));
      RunOne(s, step);
      RunConcat(s, [step], rest);
      steps := [step] + rest;
    }
  }

  // ---- Waiting ----

  /** A wait returns if and only if no worker is left in the round. */
  lemma {:induction false} WaitReturnsExactly(s: State)
    requires Invariant(s) && Enabled(s, CheckWait)
    ensures var s' := Next(s, CheckWait);
      s'.control.Idle? && s'.waited <==> forall w <- s.workers :: !Pending(w, s.runFlag)
  {
    CountZero(s.workers, s.runFlag);
  }

  /** A pending wait can be completed by steps of the workers alone and a last look at the counter. */
  lemma {:induction false} WaitCompletes(s: State) returns (steps: seq<Step>)
    requires Invariant(s) && (s.control.Waiting? || s.control.Sleeping?)
    ensures OfWorkers(steps) && EnabledRun(s, steps + [CheckWait])
    ensures var s' := After(s, steps + [CheckWait]);
      Invariant(s') && s'.control.Idle? && s'.waited && s'.running == 0 && !s'.exitFlag && |s'.workers| == |s.workers|
  {
    steps := Settle(s);
    var s1 := After(s, steps);
    RunOne(s1, CheckWait);
    NextKeeps(s1, CheckWait);
    RunConcat(s, steps, [CheckWait]);
  }

  /** The controller is between calls and every round is over. */
  predicate Resting(s: State) {
    Invariant(s) && s.control.Idle? && s.waited && s.running == 0 && !s.exitFlag
  }

  lemma {:induction false} CallAndWait(s: State) returns (steps: seq<Step>)
    requires Invariant(s) && s.control.Idle?
    ensures OfWorkers(steps) && EnabledRun(s, [CallWait] + (steps + [CheckWait]))
    ensures var s' := After(s, [CallWait] + (steps + [CheckWait])); Resting(s') && |s'.workers| == |s.workers|
  {
    NextKeeps(s, CallWait);
    RunOne(s, CallWait);
    steps := WaitCompletes(Next(s, CallWait));
    RunConcat(s, [CallWait], steps + [CheckWait]);
  }

  /** From every state in which the group is not exiting the controller can come to rest. */
  lemma {:induction false} Rests(s: State) returns (steps: seq<Step>)
    requires Invariant(s) && !s.exitFlag
    ensures EnabledRun(s, steps) && Resting(After(s, steps)) && |After(s, steps).workers| == |s.workers|
  {
    if s.control.Waiting? || s.control.Sleeping? {
      var workers := WaitCompletes(s);
      steps := workers + [CheckWait];
    } else if s.control.Idle? {
      var workers := CallAndWait(s);
      steps := [CallWait] + (workers + [CheckWait]);
    } else {
      NextKeeps(s, CommitStart);
      RunOne(s, CommitStart);
      var s1 := Next(s, CommitStart);
      var workers := CallAndWait(s1);
      steps := [CommitStart] + ([CallWait] + (workers + [CheckWait]));
      RunConcat(s, [CommitStart], [CallWait] + (workers + [CheckWait]));
    }
  }

  // ---- Starting ----

  /** In every reachable state a start is accepted if and only if no worker is left in the round before. */
  lemma {:induction false} StartAcceptedExactly(n: nat, steps: seq<Step>)
    requires EnabledRun(Start(n), steps) && Enabled(After(Start(n), steps), TryStart)
    ensures var s := After(Start(n), steps);
      Next(s, TryStart).control.Starting? <==> forall w <- s.workers :: !Pending(w, s.runFlag)
  {
    StartHolds(n);
    RunKeeps(Start(n), steps);
    var s := After(Start(n), steps);
    CountZero(s.workers, s.runFlag);
  }

  lemma {:induction false} TwoSteps(s: State)
    requires Resting(s)
    ensures EnabledRun(s, [TryStart, CommitStart])
    ensures var s' := After(s, [TryStart, CommitStart]);
      Invariant(s') && s'.control.Idle? && |s'.workers| == |s.workers|
  {
    NextKeeps(s, TryStart);
    NextKeeps(Next(s, TryStart), CommitStart);
    RunOne(s, TryStart);
    RunOne(Next(s, TryStart), CommitStart);
    RunConcat(s, [TryStart], [CommitStart]);
    assert [TryStart] + [CommitStart] == [TryStart, CommitStart];
  }

  /** The steps of a round: a start, then a wait. */
  function Round(workers: seq<Step>): seq<Step> {
    [TryStart, CommitStart] + ([CallWait] + (workers + [CheckWait]))
  }

  lemma {:induction false} RoundStartsOnce(workers: seq<Step>)
    requires OfWorkers(workers)
    ensures Occurrences(Round(workers), CommitStart) == 1
  {
    WorkersDoNotStart(workers);
    OccurrencesConcat(workers, [CheckWait], CommitStart);
    OccurrencesConcat([CallWait], workers + [CheckWait], CommitStart);
    OccurrencesConcat([TryStart, CommitStart], [CallWait] + (workers + [CheckWait]), CommitStart);
    assert Occurrences([TryStart, CommitStart], CommitStart) == 1 by {
      assert [TryStart, CommitStart][1..] == [CommitStart];
      assert Occurrences([CommitStart], CommitStart) == 1;
    }
  }

  lemma {:induction false} NothingOwed(s: State, i: nat)
    requires Invariant(s) && s.running == 0 && i < |s.workers|
    ensures Owes(s, i) == 0
  {
    CountZero(s.workers, s.runFlag);
    assert s.workers[i] in s.workers;
  }

  /** From rest a whole round is possible: one start, each worker runs its test once, and the controller rests again. */
  lemma {:induction false} RoundPossible(s: State) returns (workers: seq<Step>)
    requires Resting(s)
    ensures OfWorkers(workers) && EnabledRun(s, Round(workers)) && Resting(After(s, Round(workers)))
    ensures |After(s, Round(workers)).workers| == |s.workers| && Occurrences(Round(workers), CommitStart) == 1
    ensures forall i | 0 <= i < |s.workers| :: Occurrences(Round(workers), RunTest(i)) == 1
  {
    TwoSteps(s);
    var s1 := After(s, [TryStart, CommitStart]);
    workers := CallAndWait(s1);
    RunConcat(s, [TryStart, CommitStart], [CallWait] + (workers + [CheckWait]));
    RoundStartsOnce(workers);
    forall i | 0 <= i < |s.workers|
      ensures Occurrences(Round(workers), RunTest(i)) == 1
    {
      RunOwes(s, Round(workers), i);
      NothingOwed(s, i);
      NothingOwed(After(s, Round(workers)), i);
    }
  }

  // ---- Exiting ----

  /** Once the group is exiting, the workers alone finish, and the controller can join them. */
  lemma {:induction false} JoinCompletes(s: State) returns (steps: seq<Step>)
    requires Invariant(s) && s.control.Joining?
    ensures OfWorkers(steps) && EnabledRun(s, steps + [Join]) && After(s, steps + [Join]).control.Done?
    ensures forall w <- After(s, steps + [Join]).workers :: w.pc.Finished?
  {
    steps := Settle(s);
    RunOne(After(s, steps), Join);
    RunConcat(s, steps, [Join]);
  }

  /** From rest the group can exit. */
  lemma {:induction false} ExitPossible(s: State) returns (steps: seq<Step>)
    requires Resting(s)
    ensures EnabledRun(s, [Exit] + (steps + [Join])) && After(s, [Exit] + (steps + [Join])).control.Done?
  {
    NextKeeps(s, Exit);
    RunOne(s, Exit);
    steps := JoinCompletes(Next(s, Exit));
    RunConcat(s, [Exit], steps + [Join]);
  }

  /**
    From every reachable state in which the group is not exiting: some run completes a pending wait,
    from there one more round can be started in which each worker runs its test once more, and from
    there the group can exit with all workers finished.
   */
  lemma {:induction false} GroupProgress(n: nat, steps: seq<Step>)
      returns (wait: seq<Step>, workers: seq<Step>, last: seq<Step>)
    requires EnabledRun(Start(n), steps) && !After(Start(n), steps).exitFlag
    ensures var s := After(Start(n), steps);
      && EnabledRun(s, wait) && Resting(After(s, wait)) && |After(s, wait).workers| == n
    ensures var s1 := After(After(Start(n), steps), wait);
      && EnabledRun(s1, Round(workers)) && Resting(After(s1, Round(workers)))
      && Occurrences(Round(workers), CommitStart) == 1
      && (forall i | 0 <= i < n :: Occurrences(Round(workers), RunTest(i)) == 1)
    ensures var s2 := After(After(After(Start(n), steps), wait), Round(workers));
      EnabledRun(s2, [Exit] + (last + [Join])) && After(s2, [Exit] + (last + [Join])).control.Done?
  {
    StartHolds(n);
    RunKeeps(Start(n), steps);
    var s := After(Start(n), steps);
    wait := Rests(s);
    workers := RoundPossible(After(s, wait));
    last := ExitPossible(After(After(s, wait), Round(workers)));
  }

  /** In every reachable state in which the group is exiting, the exit can complete. */
  lemma {:induction false} ExitCompletes(n: nat, steps: seq<Step>) returns (more: seq<Step>)
    requires EnabledRun(Start(n), steps) && After(Start(n), steps).control.Joining?
    ensures OfWorkers(more) && EnabledRun(After(Start(n), steps), more + [Join])
    ensures After(After(Start(n), steps), more + [Join]).control.Done?
  {
    StartHolds(n);
    RunKeeps(Start(n), steps);
    more := JoinCompletes(After(Start(n), steps));
  }
}
