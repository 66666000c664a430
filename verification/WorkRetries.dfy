/**
  How often the work-I/O thread tries, when it gives up, and how everything comes to an end then.
  */
module WorkRetries {
  import opened WorkProtocol
  import opened WorkProgress

  // ----- retries

  /** The failed calls among the first `i` steps since a command was last taken off the work queue. */
  ghost function FailedCalls(steps: seq<Step>, i: nat): nat
    requires i <= |steps|
  {
    if i == 0 || steps[i - 1].IoTake? || steps[i - 1].IoResume? then 0
    else FailedCalls(steps, i - 1) + if steps[i - 1] == IoCall(false) then 1 else 0
  }

  /** What the place of the thread says about the calls made so far. */
  ghost predicate Tried(io: Io, failed: nat, retries: int) {
    && (io.Working? ==> io.failures == failed && (retries >= 0 ==> failed <= retries))
    && (io.Freeing? && !io.ok ==> retries >= 0 && failed == retries + 1)
  }

  lemma {:induction false} EveryTry(n: nat, retries: int, steps: seq<Step>, states: seq<State>, i: nat)
    requires Run(n, retries, steps, states) && i <= |steps|
    ensures Tried(states[i].io, FailedCalls(steps, i), retries)
  {
    hide Next, Enabled, Tried;
    if i == 0 {
      NothingTried(n, retries);
    } else {
      EveryTry(n, retries, steps, states, i - 1);
      assert Moves(states[i - 1], steps[i - 1], retries, states[i - 1 + 1]);
      TryStep(states[i - 1], steps[i - 1], FailedCalls(steps, i - 1), retries);
    }
  }

  lemma NothingTried(n: nat, retries: int)
    ensures Tried(Initial(n).io, 0, retries)
  {
  }

  lemma TryStep(s: State, step: Step, failed: nat, retries: int)
    requires Enabled(s, step) && Tried(s.io, failed, retries)
    ensures Tried(Next(s, step, retries).io,
      if step.IoTake? || step.IoResume? then 0 else failed + if step == IoCall(false) then 1 else 0, retries)
  {
    if !IoStep(step) {
      MinersLeaveIo(s, step, retries);
    }
  }

  lemma MinersLeaveIo(s: State, step: Step, retries: int)
    requires Enabled(s, step) && !IoStep(step)
    ensures Next(s, step, retries).io == s.io
  {
  }

  /**
    The thread gives up on a command exactly when the number of retries is limited and one call more
    than that has failed for it. A failed call before that leaves it with the same command.
    */
  lemma GivesUpIff(n: nat, retries: int, steps: seq<Step>, states: seq<State>, i: nat)
    requires Run(n, retries, steps, states) && i < |steps| && states[i].io.Working?
    ensures var c, io := states[i].io.cmd, states[i + 1].io;
      && (io == Freeing(c, false) <==> steps[i].IoCall? && retries >= 0 && FailedCalls(steps, i + 1) == retries + 1)
      && (io == Freeing(c, true) <==> steps[i] == IoCall(true))
      && (io.Freeing? || (io.Working? && io.cmd == c))
  {
    EveryTry(n, retries, steps, states, i);
    assert Moves(states[i], steps[i], retries, states[i + 1]);
    if !IoStep(steps[i]) {
      MinersLeaveIo(states[i], steps[i], retries);
    }
  }

  /** The thread stops serving when it cannot start, when a wake-up without a signal finds the queue empty, or when it gives up. */
  lemma StopsIff(n: nat, retries: int, steps: seq<Step>, states: seq<State>, i: nat)
    requires Run(n, retries, steps, states) && i < |steps| && IoRuns(states[i])
    ensures IoRuns(states[i + 1]) <==>
      && steps[i] != IoStart(false)
      && !(steps[i].IoResume? && states[i].w.items == [])
      && !(steps[i] == IoCall(false) && retries >= 0 && FailedCalls(steps, i + 1) == retries + 1)
  {
    EveryTry(n, retries, steps, states, i);
    assert Moves(states[i], steps[i], retries, states[i + 1]);
    if !IoStep(steps[i]) {
      MinersLeaveIo(states[i], steps[i], retries);
    }
  }

  // ----- the end

  /** How many steps miner `m` can still make when the work queue is frozen. */
  ghost function StepsLeft(s: State, m: nat): nat
    requires m < |s.q| == |s.miners|
  {
    match s.miners[m]
    case Gone => 0
    case Quitting => 1
    case Idle => 2
    case Mining => 3
    case Waiting => if s.q[m].nap == Awake then 6 else if s.q[m].nap == Asleep then 5 else 4
  }

  /** Once the work queue is frozen, every step of a miner brings its end nearer, and no other step puts it off. */
  lemma WindsDown(s: State, step: Step, retries: int, m: nat)
    requires Naps(s) && Enabled(s, step) && s.w.frozen && m < |s.q|
    ensures var s' := Next(s, step, retries); s'.w.frozen && m < |s'.q| == |s'.miners|
    ensures !IoStep(step) && step.m == m ==> StepsLeft(Next(s, step, retries), m) < StepsLeft(s, m)
    ensures IoStep(step) || step.m != m ==> StepsLeft(Next(s, step, retries), m) <= StepsLeft(s, m)
  {
    if IoStep(step) {
      IoPutsNothingOff(s, step, retries, m);
    } else if step.m == m {
      OneStepLess(s, step, retries, m);
    } else {
      OthersUntouched(s, step, retries, m);
    }
  }

  lemma IoPutsNothingOff(s: State, step: Step, retries: int, m: nat)
    requires Enabled(s, step) && IoStep(step) && s.w.frozen && m < |s.q| == |s.miners|
    ensures var s' := Next(s, step, retries);
      s'.w.frozen && m < |s'.q| == |s'.miners| && s'.miners == s.miners && StepsLeft(s', m) <= StepsLeft(s, m)
  {
  }

  lemma OneStepLess(s: State, step: Step, retries: int, m: nat)
    requires Naps(s) && Enabled(s, step) && !IoStep(step) && step.m == m && s.w.frozen && m < |s.q|
    ensures var s' := Next(s, step, retries); s'.w.frozen && m < |s'.q| == |s'.miners| && StepsLeft(s', m) < StepsLeft(s, m)
  {
    if step.RequestWork? || step.Scan? {
      hide TakeWork;
    } else {
      hide PushCmd;
    }
  }

  lemma OthersUntouched(s: State, step: Step, retries: int, m: nat)
    requires Enabled(s, step) && !IoStep(step) && step.m != m && s.w.frozen && m < |s.q| == |s.miners|
    ensures var s' := Next(s, step, retries);
      s'.w.frozen && m < |s'.q| == |s'.miners| && s'.q[m] == s.q[m] && s'.miners[m] == s.miners[m]
  {
  }

  /** How many of the steps are steps of miner `m`. */
  ghost function StepsOf(steps: seq<Step>, m: nat): nat {
    if steps == [] then 0 else (if !IoStep(steps[0]) && steps[0].m == m then 1 else 0) + StepsOf(steps[1..], m)
  }

  /** After the work queue was frozen, whatever happens, a miner makes at most six more steps. */
  lemma {:induction false} AtMostSixSteps(s: State, retries: int, steps: seq<Step>, states: seq<State>, m: nat)
    requires Inv(s) && s.w.frozen && m < |s.q| == |s.miners| && Path(s, retries, steps, states)
    ensures StepsOf(steps, m) <= StepsLeft(s, m) <= 6
    decreases |steps|
  {
    hide Inv, Next, Enabled, StepsLeft;
    StepsBound(s, m);
    if steps != [] {
      PathTail(s, retries, steps, states);
      InvKept(s, steps[0], retries);
      HasNaps(s);
      WindsDown(s, steps[0], retries, m);
      AtMostSixSteps(states[1], retries, steps[1..], states[1..], m);
    }
  }

  lemma StepsBound(s: State, m: nat)
    requires m < |s.q| == |s.miners|
    ensures StepsLeft(s, m) <= 6
  {
  }

  lemma HasNaps(s: State)
    requires Inv(s)
    ensures Naps(s)
  {
  }

  /** A miner turns to its end exactly when the frozen work queue refuses its command, or a wake-up without a signal finds its queue empty. */
  lemma QuitsIff(s: State, step: Step, retries: int, m: nat)
    requires Enabled(s, step) && m < |s.q| == |s.miners| && s.miners[m] != Quitting
    ensures m < |Next(s, step, retries).miners|
    ensures Next(s, step, retries).miners[m] == Quitting <==>
      || (step == RequestWork(m) && s.w.frozen)
      || (step == Scan(m, true) && s.w.frozen)
      || (step == ResumeMiner(m) && s.q[m].items == [])
  {
    if IoStep(step) {
      IoLeavesMiners(s, step, retries);
    } else if step.RequestWork? || step.Scan? {
      hide TakeWork;
    } else {
      hide PushCmd;
    }
  }

  lemma IoLeavesMiners(s: State, step: Step, retries: int)
    requires Enabled(s, step) && IoStep(step)
    ensures Next(s, step, retries).miners == s.miners
  {
  }
}
