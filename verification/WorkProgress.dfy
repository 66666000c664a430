/**
  What a miner that waits for work can count on: how far away its answer is, that no other thread
  pushes it further away, and that giving up by the work-I/O thread is the only way to lose it.
  */
module WorkProgress {
  import opened WorkProtocol

  /** Miner `m` waits, its answer has not come yet, and the work-I/O thread has not given up. */
  ghost predicate Unanswered(s: State, m: nat) {
    m < |s.q| == |s.miners| && s.miners[m] == Waiting && s.q[m].items == [] && IoRuns(s)
  }

  /** The place of the first GET of miner `m` among `cs`. */
  ghost function Place(cs: seq<Cmd>, m: nat): (k: nat)
    requires Gets(cs, m) > 0
    ensures k < |cs|
  {
    if cs[0].Get? && cs[0].m == m then 0 else 1 + Place(cs[1..], m)
  }

  /**
    The steps the work-I/O thread has to make, apart from calls that fail and are tried again,
    before the answer to miner `m` is in its queue.
    */
  ghost function Distance(s: State, m: nat): nat
    requires Inv(s) && Unanswered(s, m)
  {
    assert TokenOf(s, m);
    if Held(s, m) then 1
    else 2 + 3 * Place(s.w.items, m) + if s.io.Working? then 2 else if s.io.Freeing? || s.io == Starting then 1 else 0
  }

  /** A step of the work-I/O thread that is not a failed call to be tried again. */
  predicate Advances(s: State, step: Step, retries: int) {
    IoStep(step) && (step == IoCall(false) && s.io.Working? ==> retries >= 0 && s.io.failures + 1 > retries)
  }

  lemma {:induction false} PlaceAppend(cs: seq<Cmd>, c: Cmd, m: nat)
    requires Gets(cs, m) > 0
    ensures Gets(cs + [c], m) > 0 && Place(cs + [c], m) == Place(cs, m)
  {
    GetsAppend(cs, c, m);
    assert (cs + [c])[1..] == cs[1..] + [c];
    if !(cs[0].Get? && cs[0].m == m) {
      PlaceAppend(cs[1..], c, m);
    }
  }

  /** Steps of miners, that of `m` included, leave the distance as it is: later commands queue up behind the request. */
  lemma MinerKeepsDistance(s: State, step: Step, retries: int, m: nat)
    requires Inv(s) && Unanswered(s, m) && Enabled(s, step) && !IoStep(step)
    requires Unanswered(Next(s, step, retries), m)
    ensures Inv(Next(s, step, retries)) && Distance(Next(s, step, retries), m) == Distance(s, m)
  {
    InvKept(s, step, retries);
    assert TokenOf(s, m);
    hide Inv, TokenOf;
    if !Held(s, m) && (step.RequestWork? || (step.Scan? && step.hit)) && !s.w.frozen {
      PlaceAppend(s.w.items, if step.RequestWork? then Get(step.m, s.next) else Submit(step.m, s.next, s.next + 1), m);
    }
  }

  /** Every other step of the work-I/O thread brings the answer nearer, or is the one that gives up. */
  lemma IoNearer(s: State, step: Step, retries: int, m: nat)
    requires Inv(s) && Unanswered(s, m) && Enabled(s, step) && IoStep(step)
    requires Unanswered(Next(s, step, retries), m)
    ensures Inv(Next(s, step, retries))
    ensures Distance(Next(s, step, retries), m) == Distance(s, m) - if Advances(s, step, retries) then 1 else 0
  {
    InvKept(s, step, retries);
    assert TokenOf(s, m) && Naps(s);
    hide Inv, TokenOf;
  }

  /** While its answer is missing, the work-I/O thread can make a step that is not a failed call. */
  lemma IoCanAdvance(s: State, retries: int, m: nat) returns (step: Step)
    requires Inv(s) && Unanswered(s, m)
    ensures Enabled(s, step) && Advances(s, step, retries) && step != IoCall(false) && step != IoStart(false)
    ensures !Held(s, m) ==> Unanswered(Next(s, step, retries), m)
    ensures Held(s, m) ==> var s' := Next(s, step, retries); |s'.q| == |s.q| == |s'.miners| && s'.miners[m] == Waiting && s'.q[m].items != []
  {
    assert TokenOf(s, m) && Naps(s) && Addressed(s);
    step :=
      if s.io == Starting then IoStart(true)
      else if s.io.Working? then IoCall(true)
      else if s.io.Freeing? then IoFree
      else if s.w.nap == Woken then IoResume
      else IoTake;
  }

  // ----- bounded response

  /** A run from `s` on. */
  ghost predicate Path(s: State, retries: int, steps: seq<Step>, states: seq<State>) {
    && |states| == |steps| + 1
    && states[0] == s
    && forall i :: 0 <= i < |steps| ==> Moves(states[i], steps[i], retries, states[i + 1])
  }

  /** How many of the steps are steps of the work-I/O thread other than failed calls to be tried again. */
  ghost function Advanced(steps: seq<Step>, states: seq<State>, retries: int): nat
    requires |states| == |steps| + 1
  {
    if steps == [] then 0
    else (if Advances(states[0], steps[0], retries) then 1 else 0) + Advanced(steps[1..], states[1..], retries)
  }

  lemma PathTail(s: State, retries: int, steps: seq<Step>, states: seq<State>)
    requires Path(s, retries, steps, states) && steps != []
    ensures Moves(s, steps[0], retries, states[1]) && Path(states[1], retries, steps[1..], states[1..])
  {
    hide Moves;
    assert Moves(states[0], steps[0], retries, states[0 + 1]);
    forall i | 0 <= i < |steps[1..]| ensures Moves(states[1..][i], steps[1..][i], retries, states[1..][i + 1]) {
      assert Moves(states[i + 1], steps[i + 1], retries, states[i + 1 + 1]);
    }
  }

  /**
    As long as the answer is missing, the distance goes down by exactly one for each step of the
    work-I/O thread that is not a failed call to be tried again, whatever the other threads do; so
    there are at most three such steps for each command queued when the wait began.
    */
  lemma {:induction false} BoundedResponse(s: State, retries: int, steps: seq<Step>, states: seq<State>, m: nat)
    requires Inv(s) && Path(s, retries, steps, states)
    requires forall i :: 0 <= i < |states| ==> Unanswered(states[i], m)
    ensures Inv(states[|steps|])
    ensures Advanced(steps, states, retries) + Distance(states[|steps|], m) == Distance(s, m) <= 3 * |s.w.items| + 1
    decreases |steps|
  {
    hide Inv, Unanswered, Distance, Advances, Next;
    assert Unanswered(states[0], m);
    DistanceBound(s, m);
    if steps != [] {
      PathTail(s, retries, steps, states);
      assert Unanswered(states[1], m);
      OneStep(s, steps[0], retries, m);
      BoundedResponse(states[1], retries, steps[1..], states[1..], m);
    }
  }

  lemma DistanceBound(s: State, m: nat)
    requires Inv(s) && Unanswered(s, m)
    ensures Distance(s, m) <= 3 * |s.w.items| + 1
  {
    assert TokenOf(s, m);
    hide Inv, TokenOf;
  }

  lemma OneStep(s: State, step: Step, retries: int, m: nat)
    requires Inv(s) && Unanswered(s, m) && Enabled(s, step) && Unanswered(Next(s, step, retries), m)
    ensures Inv(Next(s, step, retries))
    ensures Distance(Next(s, step, retries), m) == Distance(s, m) - if Advances(s, step, retries) then 1 else 0
  {
    hide Inv, Unanswered, Distance, Next;
    if IoStep(step) {
      IoNearer(s, step, retries, m);
    } else {
      MinerKeepsDistance(s, step, retries, m);
    }
  }

  // ----- which waiting miners can still be served

  /** The answer has come: the miner can take it in its next step. */
  lemma AnswerTaken(s: State, retries: int, m: nat) returns (step: Step)
    requires Inv(s) && m < |s.q| && s.miners[m] == Waiting && s.q[m].items != []
    ensures Enabled(s, step) && (step == AwaitWork(m) || step == ResumeMiner(m))
    ensures var s' := Next(s, step, retries); |s'.miners| == |s.miners| && s'.miners[m] == Mining
  {
    assert Naps(s);
    step := if s.q[m].nap == Woken then ResumeMiner(m) else AwaitWork(m);
  }

  ghost predicate MinesAtEnd(states: seq<State>, m: nat) {
    states != [] && var last := states[|states| - 1]; m < |last.miners| && last.miners[m] == Mining
  }

  lemma LongerPath(s: State, step: Step, retries: int, steps: seq<Step>, states: seq<State>)
    requires Enabled(s, step) && Path(Next(s, step, retries), retries, steps, states)
    ensures Path(s, retries, [step] + steps, [s] + states)
  {
    hide Enabled, Next;
    var steps', states' := [step] + steps, [s] + states;
    forall i | 0 <= i < |steps'| ensures Moves(states'[i], steps'[i], retries, states'[i + 1]) {
      if i > 0 {
        assert Moves(states[i - 1], steps[i - 1], retries, states[i - 1 + 1]);
      }
    }
  }

  lemma {:induction false} Serve(s: State, retries: int, m: nat) returns (steps: seq<Step>, states: seq<State>)
    requires Inv(s) && m < |s.q| == |s.miners| && s.miners[m] == Waiting && (IoRuns(s) || s.q[m].items != [])
    ensures Path(s, retries, steps, states) && MinesAtEnd(states, m)
    decreases if s.q[m].items != [] then 0 else Distance(s, m)
  {
    if s.q[m].items != [] {
      var step := AnswerTaken(s, retries, m);
      hide Inv, Next, Enabled;
      steps, states := [step], [s, Next(s, step, retries)];
    } else {
      var step := IoCanAdvance(s, retries, m);
      hide Inv, Next, Enabled, Advances, Distance;
      var s' := Next(s, step, retries);
      InvKept(s, step, retries);
      if !Held(s, m) {
        IoNearer(s, step, retries, m);
      }
      AtLeastOne(s, m);
      var steps', states' := Serve(s', retries, m);
      LongerPath(s, step, retries, steps', states');
      steps, states := [step] + steps', [s] + states';
    }
  }

  lemma AtLeastOne(s: State, m: nat)
    requires Inv(s) && Unanswered(s, m)
    ensures Distance(s, m) > 0
  {
  }

  /** Miner `m` waits, or has stopped waiting, without an answer after the work-I/O thread has given up. */
  ghost predicate Lost(s: State, m: nat) {
    && m < |s.q| == |s.miners| && !IoRuns(s)
    && (s.miners[m] == Waiting || s.miners[m] == Quitting || s.miners[m] == Gone)
    && (s.miners[m] == Waiting ==> s.q[m].items == [])
  }

  /** Nothing but a wake-up without a signal gets a lost miner out of its sleep. */
  lemma LostKept(s: State, step: Step, retries: int, m: nat)
    requires Lost(s, m) && Enabled(s, step)
    ensures Lost(Next(s, step, retries), m)
    ensures s.miners[m] == Waiting && s.q[m].nap == Asleep && step != WakeMiner(m) ==>
      var s' := Next(s, step, retries); s'.miners[m] == Waiting && s'.q[m].nap == Asleep
  {
    if IoStep(step) {
      LostKeptByIo(s, step, retries, m);
    } else if step.RequestWork? || step.Scan? {
      LostKeptByPush(s, step, retries, m);
    } else {
      hide PushCmd;
    }
  }

  lemma LostKeptByIo(s: State, step: Step, retries: int, m: nat)
    requires Lost(s, m) && Enabled(s, step) && IoStep(step)
    ensures var s' := Next(s, step, retries); Lost(s', m) && s'.miners == s.miners && s'.q == s.q
  {
  }

  lemma LostKeptByPush(s: State, step: Step, retries: int, m: nat)
    requires Lost(s, m) && Enabled(s, step) && (step.RequestWork? || step.Scan?)
    ensures var s' := Next(s, step, retries); Lost(s', m) && s'.miners[m] == s.miners[m] && s'.q == s.q
  {
  }

  lemma {:induction false} StaysLost(s: State, retries: int, steps: seq<Step>, states: seq<State>, m: nat)
    requires Lost(s, m) && Path(s, retries, steps, states)
    ensures Lost(states[|steps|], m)
    ensures s.miners[m] == Waiting && s.q[m].nap == Asleep && WakeMiner(m) !in steps ==>
      var last := states[|steps|]; last.miners[m] == Waiting && last.q[m].nap == Asleep
    decreases |steps|
  {
    if steps != [] {
      hide Next, Enabled;
      PathTail(s, retries, steps, states);
      LostKept(s, steps[0], retries, m);
      StaysLost(states[1], retries, steps[1..], states[1..], m);
    }
  }

  /**
    A waiting miner can still get work if and only if its answer has come or the work-I/O thread
    has not given up.
    */
  lemma ServedIff(s: State, retries: int, m: nat)
    requires Inv(s) && m < |s.q| == |s.miners| && s.miners[m] == Waiting
    ensures (exists steps, states :: Path(s, retries, steps, states) && MinesAtEnd(states, m))
      <==> IoRuns(s) || s.q[m].items != []
  {
    hide Inv, Path;
    if IoRuns(s) || s.q[m].items != [] {
      var steps, states := Serve(s, retries, m);
    } else {
      forall steps, states | Path(s, retries, steps, states) ensures !MinesAtEnd(states, m) {
        PathEnds(s, retries, steps, states);
        StaysLost(s, retries, steps, states, m);
      }
    }
  }

  lemma PathEnds(s: State, retries: int, steps: seq<Step>, states: seq<State>)
    requires Path(s, retries, steps, states)
    ensures |states| == |steps| + 1
  {
  }

  /** A run of one miner without retries in which the only call fails. */
  ghost function FailingSteps(): seq<Step> {
    [RequestWork(0), AwaitWork(0), IoStart(true), IoTake, IoCall(false), IoFree, IoEnd]
  }

  ghost function FailingState(w: Queue<Cmd>, nap: Nap, io: Io, next: nat, freed: multiset<Id>): State {
    State(w, [Queue([], false, nap)], [Waiting], io, next, freed, [Get(0, 0)], [])
  }

  ghost function FailingStates(): seq<State> {
    var c := Get(0, 0);
    var none := Queue([], false, Awake);
    [ Initial(1),
      FailingState(Queue([c], false, Awake), Awake, Starting, 1, multiset{}),
      FailingState(Queue([c], false, Awake), Asleep, Starting, 1, multiset{}),
      FailingState(Queue([c], false, Awake), Asleep, Popping, 1, multiset{}),
      FailingState(none, Asleep, Working(c, 0, 1), 2, multiset{}),
      FailingState(none, Asleep, Freeing(c, false), 2, multiset{1}),
      FailingState(none, Asleep, Leaving, 2, multiset{1, 0}),
      FailingState(Queue([], true, Awake), Asleep, Ended, 2, multiset{1, 0}) ]
  }

  lemma FirstFailingStep()
    ensures Moves(Initial(1), RequestWork(0), 0, FailingState(Queue([Get(0, 0)], false, Awake), Awake, Starting, 1, multiset{}))
  {
    var s := Initial(1);
    assert s.miners == [Idle] && s.q == [Queue([], false, Awake)];
    assert s.w.items + [Get(0, 0)] == [Get(0, 0)];
    assert s.miners[0 := Waiting] == [Waiting];
  }

  lemma FailingMoves(i: nat)
    requires i < 7
    ensures Moves(FailingStates()[i], FailingSteps()[i], 0, FailingStates()[i + 1])
  {
    if i == 0 {
      FirstFailingStep();
    } else if i < 4 {
      FailingStart(i);
    } else {
      FailingEnd(i);
    }
  }

  lemma FailingStart(i: nat)
    requires 1 <= i < 4
    ensures Moves(FailingStates()[i], FailingSteps()[i], 0, FailingStates()[i + 1])
  {
    var s := FailingStates()[i];
    assert [s.q[0]][0 := s.q[0].(nap := Asleep)] == [s.q[0].(nap := Asleep)];
    assert [Get(0, 0)][1..] == [];
  }

  lemma FailingEnd(i: nat)
    requires 4 <= i < 7
    ensures Moves(FailingStates()[i], FailingSteps()[i], 0, FailingStates()[i + 1])
  {
    assert multiset{1} + multiset{0} == multiset{1, 0};
  }

  /** With no retries and one miner, a single failed call leaves the miner asleep for good. */
  lemma LeftAsleep()
    ensures Run(1, 0, FailingSteps(), FailingStates())
    ensures var last := FailingStates()[|FailingSteps()|];
      Lost(last, 0) && last.miners[0] == Waiting && last.q[0].nap == Asleep && last.io == Ended
  {
    hide Moves;
    forall i | 0 <= i < |FailingSteps()| ensures Moves(FailingStates()[i], FailingSteps()[i], 0, FailingStates()[i + 1]) {
      FailingMoves(i);
    }
  }
}
