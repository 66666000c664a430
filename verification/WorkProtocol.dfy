/**
  The protocol between the miner threads and the work-I/O thread of `cpu-miner.c`, over the
  queues of `util.c`, as a machine of atomic steps. A queue operation runs under the queue's mutex
  and is one step; a thread asleep on the condition variable may wake without a signal.
  */
module WorkProtocol {
  import Machine = QueueMachine

  type Id = nat

  /** A `workio_cmd` of miner `m`; `id` is its own memory block, `block` the `struct work` it owns. */
  datatype Cmd = Get(m: nat, id: Id) | Submit(m: nat, id: Id, block: Id)

  /** The consumer of a queue: not waiting, waiting, or woken up and about to take the mutex again. */
  datatype Nap = Awake | Asleep | Woken

  datatype Queue<T> = Queue(items: seq<T>, frozen: bool, nap: Nap)

  function Signal(nap: Nap): Nap {
    if nap == Asleep then Woken else nap
  }

  /** `tq_push`; the answer is whether the item was accepted. */
  function Push<T>(q: Queue<T>, x: T): (Queue<T>, bool) {
    (Queue(if q.frozen then q.items else q.items + [x], q.frozen, Signal(q.nap)), !q.frozen)
  }

  /** `tq_freeze`. */
  function Freeze<T>(q: Queue<T>): Queue<T> {
    Queue(q.items, true, Signal(q.nap))
  }

  function Rest<T>(q: Queue<T>): Queue<T>
    requires q.items != []
  {
    Queue(q.items[1..], q.frozen, Awake)
  }

  // ----- every queue here is the queue machine with a single consumer

  ghost predicate OneConsumer<T>(q: Machine.Queue<T>, t: nat) {
    q.sleepers <= {t} && q.woken <= {t} && q.sleepers !! q.woken
  }

  /** A queue of the machine with a single consumer, as this protocol sees it. */
  ghost function View<T>(q: Machine.Queue<T>): Queue<T> {
    Queue(q.contents, q.frozen, if q.sleepers != {} then Asleep else if q.woken != {} then Woken else Awake)
  }

  /** What this protocol makes of a queue in each step of the machine. */
  ghost function Stepped<T>(q: Queue<T>, step: Machine.Step<T>): Queue<T> {
    match step
    case PushStep(x, _) => Push(q, x).0
    case PopStep(_) => if q.items != [] then Rest(q) else q.(nap := Asleep)
    case WakeStep(_) => q.(nap := Woken)
    case ResumeStep(_) => if q.items != [] then Rest(q) else q.(nap := Awake)
    case FreezeStep(frozen, _) => if frozen then Freeze(q) else q.(frozen := false, nap := Signal(q.nap))
  }

  /** The steps of the machine and the queue operations of this protocol agree. */
  lemma StepsAgree<T>(q: Machine.Queue<T>, step: Machine.Step<T>, t: nat)
    requires OneConsumer(q, t) && Machine.Enabled(q, step) && (step.PopStep? ==> step.t == t)
    ensures OneConsumer(Machine.Next(q, step), t)
    ensures View(Machine.Next(q, step)) == Stepped(View(q), step)
    ensures step.PushStep? ==> (Push(View(q), step.x).1 <==> Machine.Next(q, step).accepted == q.accepted + [step.x])
  {
    assert q.sleepers == {} || q.sleepers == {t};
    assert q.woken == {} || q.woken == {t};
    if step.PushStep? {
      assert |q.accepted + [step.x]| == |q.accepted| + 1;
    }
  }

  /** Where a miner thread is: before `get_work`, in its `tq_pop`, scanning, at `out:`, ended. */
  datatype Miner = Idle | Waiting | Mining | Quitting | Gone

  /**
    Where the work-I/O thread is: before `curl_easy_init`, in its `tq_pop`, in the RPC loop for a command (for a GET with
    the block it has allocated), before `workio_cmd_free`, after the loop, ended.
    */
  datatype Io =
    | Starting
    | Popping
    | Working(cmd: Cmd, failures: nat, answer: Id)
    | Freeing(cmd: Cmd, ok: bool)
    | Leaving
    | Ended

  /**
    `pushed` lists the commands accepted by the work queue, `done` those carried out with success.
    `next` is the next unused memory block; `freed` the blocks freed so far.
    */
  datatype State = State(
    w: Queue<Cmd>, q: seq<Queue<Id>>, miners: seq<Miner>, io: Io,
    next: Id, freed: multiset<Id>, pushed: seq<Cmd>, done: seq<Cmd>)

  datatype Step =
    | RequestWork(m: nat)
    | AwaitWork(m: nat)
    | WakeMiner(m: nat)
    | ResumeMiner(m: nat)
    | Scan(m: nat, hit: bool)
    | QuitMiner(m: nat)
    | IoStart(ok: bool)
    | IoTake
    | WakeIo
    | IoResume
    | IoCall(success: bool)
    | IoFree
    | IoEnd

  ghost function Initial(n: nat): State {
    State(Queue([], false, Awake), seq(n, _ => Queue([], false, Awake)), seq(n, _ => Idle), Starting, 0, multiset{}, [], [])
  }

  /** In the beginning every queue is a queue of the machine in its beginning. */
  lemma StartsAgree(n: nat)
    ensures Initial(n).w == View(Machine.Empty<Cmd>())
    ensures |Initial(n).q| == n && forall m :: 0 <= m < n ==> Initial(n).q[m] == View(Machine.Empty<Id>())
  {
  }

  /** The memory blocks of a command. */
  function CmdBlocks(c: Cmd): multiset<Id> {
    if c.Get? then multiset{c.id} else multiset{c.id, c.block}
  }

  /** The thread that has to make the step is where the step starts. */
  predicate Enabled(s: State, step: Step) {
    match step
    case RequestWork(m) => m < |s.miners| && s.miners[m] == Idle
    case AwaitWork(m) => m < |s.miners| && |s.q| == |s.miners| && s.miners[m] == Waiting && s.q[m].nap == Awake
    case WakeMiner(m) => m < |s.q| && s.q[m].nap == Asleep
    case ResumeMiner(m) => m < |s.miners| && |s.q| == |s.miners| && s.miners[m] == Waiting && s.q[m].nap == Woken
    case Scan(m, _) => m < |s.miners| && s.miners[m] == Mining
    case QuitMiner(m) => m < |s.miners| && |s.q| == |s.miners| && s.miners[m] == Quitting
    case IoStart(_) => s.io == Starting
    case IoTake => s.io == Popping && s.w.nap == Awake
    case WakeIo => s.w.nap == Asleep
    case IoResume => s.io == Popping && s.w.nap == Woken
    case IoCall(_) => s.io.Working? && (s.io.cmd.Get? ==> s.io.cmd.m < |s.q|)
    case IoFree => s.io.Freeing?
    case IoEnd => s.io == Leaving
  }

  /** A command pushed to the work queue by miner `m`, using `count` new blocks. */
  function PushCmd(s: State, m: nat, c: Cmd, count: nat, accepted: Miner): State
    requires m < |s.miners|
  {
    var (w, ok) := Push(s.w, c);
    if ok then s.(w := w, miners := s.miners[m := accepted], next := s.next + count, pushed := s.pushed + [c])
    else s.(w := w, miners := s.miners[m := Quitting], next := s.next + count, freed := s.freed + CmdBlocks(c))
  }

  /** The miner copies the block at the head of its queue and frees it. */
  function TakeWork(s: State, m: nat): State
    requires m < |s.miners| == |s.q| && s.q[m].items != []
  {
    s.(q := s.q[m := Rest(s.q[m])], miners := s.miners[m := Mining], freed := s.freed + multiset{s.q[m].items[0]})
  }

  /** The work-I/O thread starts on the command at the head of its queue; for a GET it allocates a block. */
  function TakeCmd(s: State): State
    requires s.w.items != []
  {
    var c := s.w.items[0];
    s.(w := Rest(s.w), io := Working(c, 0, s.next), next := if c.Get? then s.next + 1 else s.next)
  }

  /** The RPC succeeded: a GET is answered, a refused answer freed. */
  function Succeed(s: State): State
    requires s.io.Working? && (s.io.cmd.Get? ==> s.io.cmd.m < |s.q|)
  {
    var c := s.io.cmd;
    var s1 := s.(io := Freeing(c, true), done := s.done + [c]);
    if c.Submit? then s1
    else
      var (q, ok) := Push(s.q[c.m], s.io.answer);
      s1.(q := s.q[c.m := q], freed := if ok then s.freed else s.freed + multiset{s.io.answer})
  }

  /** The RPC failed: once more, or give up when the retries are used up (never, if `retries` is negative). */
  function Fail(s: State, retries: int): State
    requires s.io.Working?
  {
    var c := s.io.cmd;
    if retries >= 0 && s.io.failures + 1 > retries
    then s.(io := Freeing(c, false), freed := if c.Get? then s.freed + multiset{s.io.answer} else s.freed)
    else s.(io := Working(c, s.io.failures + 1, s.io.answer))
  }

  function Next(s: State, step: Step, retries: int): State
    requires Enabled(s, step)
  {
    match step
    case RequestWork(m) => PushCmd(s, m, Get(m, s.next), 1, Waiting)
    case AwaitWork(m) => if s.q[m].items != [] then TakeWork(s, m) else s.(q := s.q[m := s.q[m].(nap := Asleep)])
    case WakeMiner(m) => s.(q := s.q[m := s.q[m].(nap := Woken)])
    case ResumeMiner(m) =>
      if s.q[m].items != [] then TakeWork(s, m)
      else s.(q := s.q[m := s.q[m].(nap := Awake)], miners := s.miners[m := Quitting])
    case Scan(m, hit) =>
      if hit then PushCmd(s, m, Submit(m, s.next, s.next + 1), 2, Idle) else s.(miners := s.miners[m := Idle])
    case QuitMiner(m) => s.(q := s.q[m := Freeze(s.q[m])], miners := s.miners[m := Gone])
    case IoStart(ok) => s.(io := if ok then Popping else Ended)
    case IoTake => if s.w.items != [] then TakeCmd(s) else s.(w := s.w.(nap := Asleep))
    case WakeIo => s.(w := s.w.(nap := Woken))
    case IoResume => if s.w.items != [] then TakeCmd(s) else s.(w := s.w.(nap := Awake), io := Leaving)
    case IoCall(success) => if success then Succeed(s) else Fail(s, retries)
    case IoFree => s.(io := if s.io.ok then Popping else Leaving, freed := s.freed + CmdBlocks(s.io.cmd))
    case IoEnd => s.(w := Freeze(s.w), io := Ended)
  }

  // ----- threads and naps

  /** Only the consumer of a queue naps on it, and it sleeps unsignalled only while the queue is empty. */
  ghost predicate Naps(s: State) {
    && |s.q| == |s.miners|
    && (s.w.nap != Awake ==> s.io == Popping)
    && (s.w.nap == Asleep ==> s.w.items == [])
    && (forall m :: 0 <= m < |s.q| ==> s.q[m].nap != Awake ==> s.miners[m] == Waiting)
    && (forall m :: 0 <= m < |s.q| ==> s.q[m].nap == Asleep ==> s.q[m].items == [])
  }

  predicate IoStep(step: Step) {
    step.IoStart? || step.IoTake? || step.WakeIo? || step.IoResume? || step.IoCall? || step.IoFree? || step.IoEnd?
  }

  lemma NapsKept(s: State, step: Step, retries: int)
    requires Naps(s) && Enabled(s, step)
    ensures Naps(Next(s, step, retries))
  {
    if IoStep(step) {
      NapsKeptByIo(s, step, retries);
    } else {
      NapsKeptByMiner(s, step, retries);
    }
  }

  lemma NapsKeptByIo(s: State, step: Step, retries: int)
    requires Naps(s) && Enabled(s, step) && IoStep(step)
    ensures Naps(Next(s, step, retries))
  {
  }

  lemma NapsKeptByMiner(s: State, step: Step, retries: int)
    requires Naps(s) && Enabled(s, step) && !IoStep(step)
    ensures Naps(Next(s, step, retries))
  {
    hide PushCmd, TakeWork;
    match step {
      case RequestWork(m) => NapsPushed(s, m, Get(m, s.next), 1, Waiting);
      case Scan(m, hit) => NapsPushed(s, m, Submit(m, s.next, s.next + 1), 2, Idle);
      case AwaitWork(m) => NapsTaken(s, m);
      case ResumeMiner(m) => NapsTaken(s, m);
      case _ =>
    }
  }

  lemma NapsPushed(s: State, m: nat, c: Cmd, count: nat, accepted: Miner)
    requires Naps(s) && m < |s.miners| && s.miners[m] != Waiting
    ensures Naps(PushCmd(s, m, c, count, accepted))
  {
  }

  lemma NapsTaken(s: State, m: nat)
    requires Naps(s) && m < |s.miners|
    ensures s.q[m].items != [] ==> Naps(TakeWork(s, m))
  {
  }

  // ----- tokens

  /** How many GET commands of miner `m` are among `cs`. */
  ghost function Gets(cs: seq<Cmd>, m: nat): nat {
    if cs == [] then 0 else (if cs[0].Get? && cs[0].m == m then 1 else 0) + Gets(cs[1..], m)
  }

  lemma {:induction false} GetsAppend(cs: seq<Cmd>, c: Cmd, m: nat)
    ensures Gets(cs + [c], m) == Gets(cs, m) + if c.Get? && c.m == m then 1 else 0
  {
    if cs != [] {
      GetsAppend(cs[1..], c, m);
      assert (cs + [c])[1..] == cs[1..] + [c];
    }
  }

  /** The work-I/O thread is looking for an answer to a GET of miner `m`. */
  ghost predicate Held(s: State, m: nat) {
    s.io.Working? && s.io.cmd.Get? && s.io.cmd.m == m
  }

  /** GET commands of `m` in the work queue or in hand, and answers in its own queue. */
  ghost function Tokens(s: State, m: nat): nat
    requires m < |s.q|
  {
    Gets(s.w.items, m) + (if Held(s, m) then 1 else 0) + |s.q[m].items|
  }

  /** The work-I/O thread has not given up. */
  ghost predicate IoRuns(s: State) {
    s.io == Starting || s.io == Popping || s.io.Working? || (s.io.Freeing? && s.io.ok)
  }

  ghost predicate TokenOf(s: State, m: nat)
    requires m < |s.q| == |s.miners|
  {
    && Tokens(s, m) <= 1
    && (s.miners[m] == Waiting && IoRuns(s) ==> Tokens(s, m) == 1)
    && (s.miners[m] == Idle || s.miners[m] == Mining ==> Tokens(s, m) == 0)
  }

  ghost predicate OneToken(s: State) {
    && |s.q| == |s.miners|
    && (forall m :: 0 <= m < |s.q| ==> TokenOf(s, m))
    && (forall m :: 0 <= m < |s.q| ==> (s.q[m].frozen <==> s.miners[m] == Gone))
  }

  lemma TokenKept(s: State, step: Step, retries: int, m: nat)
    requires OneToken(s) && Enabled(s, step) && m < |s.q|
    ensures m < |Next(s, step, retries).q| == |Next(s, step, retries).miners|
    ensures TokenOf(Next(s, step, retries), m)
  {
    if IoStep(step) {
      TokenKeptByIo(s, step, retries, m);
    } else {
      TokenKeptByMiner(s, step, retries, m);
    }
  }

  lemma TokenKeptByIo(s: State, step: Step, retries: int, m: nat)
    requires OneToken(s) && Enabled(s, step) && m < |s.q| && IoStep(step)
    ensures m < |Next(s, step, retries).q| == |Next(s, step, retries).miners|
    ensures TokenOf(Next(s, step, retries), m)
  {
    assert TokenOf(s, m);
  }

  lemma TokenKeptByMiner(s: State, step: Step, retries: int, m: nat)
    requires OneToken(s) && Enabled(s, step) && m < |s.q| && !IoStep(step)
    ensures m < |Next(s, step, retries).q| == |Next(s, step, retries).miners|
    ensures TokenOf(Next(s, step, retries), m)
  {
    hide PushCmd, TakeWork;
    assert TokenOf(s, m);
    match step {
      case RequestWork(k) => TokenPushed(s, k, Get(k, s.next), 1, Waiting, m);
      case Scan(k, hit) => TokenPushed(s, k, Submit(k, s.next, s.next + 1), 2, Idle, m);
      case AwaitWork(k) => TokenTaken(s, k, m);
      case ResumeMiner(k) => TokenTaken(s, k, m);
      case _ =>
    }
  }

  /** A miner without a request makes one, or hands in a solution and goes back. */
  lemma TokenPushed(s: State, k: nat, c: Cmd, count: nat, accepted: Miner, m: nat)
    requires OneToken(s) && m < |s.q| && k < |s.q| && c.m == k
    requires s.miners[k] == Idle || s.miners[k] == Mining
    requires accepted == if c.Get? then Waiting else Idle
    ensures var s' := PushCmd(s, k, c, count, accepted); m < |s'.q| == |s'.miners| && TokenOf(s', m)
  {
    GetsAppend(s.w.items, c, m);
    assert TokenOf(s, k) && TokenOf(s, m);
  }

  /** A miner takes its answer. */
  lemma TokenTaken(s: State, k: nat, m: nat)
    requires OneToken(s) && m < |s.q| && k < |s.q| && s.miners[k] == Waiting
    ensures s.q[k].items != [] ==> var s' := TakeWork(s, k); m < |s'.q| == |s'.miners| && TokenOf(s', m)
  {
    assert TokenOf(s, k) && TokenOf(s, m);
  }

  lemma OneTokenKept(s: State, step: Step, retries: int)
    requires OneToken(s) && Enabled(s, step)
    ensures OneToken(Next(s, step, retries))
  {
    hide TokenOf, Next;
    var s' := Next(s, step, retries);
    SameQueues(s, step, retries);
    FrozenIsGone(s, step, retries);
    forall m | 0 <= m < |s'.q| ensures TokenOf(s', m) {
      TokenKept(s, step, retries, m);
    }
  }

  lemma FrozenIsGone(s: State, step: Step, retries: int)
    requires Enabled(s, step) && |s.q| == |s.miners| && forall m :: 0 <= m < |s.q| ==> (s.q[m].frozen <==> s.miners[m] == Gone)
    ensures var s' := Next(s, step, retries);
      |s'.q| == |s'.miners| && forall m :: 0 <= m < |s'.q| ==> (s'.q[m].frozen <==> s'.miners[m] == Gone)
  {
    hide Next, Enabled;
    var s' := Next(s, step, retries);
    SameQueues(s, step, retries);
    forall m | 0 <= m < |s'.q| ensures s'.q[m].frozen <==> s'.miners[m] == Gone {
      FrozenMinerGone(s, step, retries, m);
    }
  }

  lemma FrozenMinerGone(s: State, step: Step, retries: int, m: nat)
    requires Enabled(s, step) && m < |s.q| == |s.miners| && (s.q[m].frozen <==> s.miners[m] == Gone)
    ensures var s' := Next(s, step, retries); m < |s'.q| == |s'.miners| && (s'.q[m].frozen <==> s'.miners[m] == Gone)
  {
    if IoStep(step) {
      IoFreezesNoMiner(s, step, retries);
    } else {
      hide Succeed, Fail, TakeCmd;
    }
  }

  lemma IoFreezesNoMiner(s: State, step: Step, retries: int)
    requires Enabled(s, step) && IoStep(step)
    ensures var s' := Next(s, step, retries);
      s'.miners == s.miners && |s'.q| == |s.q| && forall m :: 0 <= m < |s.q| ==> s'.q[m].frozen == s.q[m].frozen
  {
  }

  lemma SameQueues(s: State, step: Step, retries: int)
    requires Enabled(s, step) && |s.q| == |s.miners|
    ensures var s' := Next(s, step, retries); |s'.q| == |s.q| == |s'.miners|
  {
  }

  // ----- order

  /** The commands the work-I/O thread has accepted and not yet carried out, the one in hand first. */
  ghost function Pending(s: State): seq<Cmd> {
    (if s.io.Working? then [s.io.cmd] else if s.io.Freeing? && !s.io.ok then [s.io.cmd] else []) + s.w.items
  }

  /** After a GET of a miner there is no other command of that miner. */
  ghost predicate GetsLast(cs: seq<Cmd>) {
    forall i, j :: 0 <= i < j < |cs| && cs[i].Get? ==> cs[j].m != cs[i].m
  }

  ghost predicate InOrder(s: State) {
    IoRuns(s) ==> s.pushed == s.done + Pending(s) && GetsLast(Pending(s))
  }

  lemma {:induction false} NoGets(cs: seq<Cmd>, m: nat)
    requires Gets(cs, m) == 0
    ensures forall i :: 0 <= i < |cs| && cs[i].Get? ==> cs[i].m != m
  {
    if cs != [] {
      NoGets(cs[1..], m);
      forall i | 0 <= i < |cs| && cs[i].Get? ensures cs[i].m != m {
        if i > 0 {
          assert cs[1..][i - 1] == cs[i];
        }
      }
    }
  }

  /** A miner that may push a command has no GET outstanding. */
  lemma PusherHasNoGet(s: State, m: nat)
    requires OneToken(s) && m < |s.q| && (s.miners[m] == Idle || s.miners[m] == Mining) && IoRuns(s)
    ensures forall i :: 0 <= i < |Pending(s)| && Pending(s)[i].Get? ==> Pending(s)[i].m != m
  {
    assert TokenOf(s, m);
    NoGets(s.w.items, m);
  }

  lemma AppendInOrder(cs: seq<Cmd>, c: Cmd)
    requires GetsLast(cs) && forall i :: 0 <= i < |cs| && cs[i].Get? ==> cs[i].m != c.m
    ensures GetsLast(cs + [c])
  {
  }

  lemma PushInOrder(s: State, s': State, c: Cmd)
    requires InOrder(s) && IoRuns(s) && s'.io == s.io && s'.w.items == s.w.items + [c]
    requires s'.pushed == s.pushed + [c] && s'.done == s.done
    requires forall i :: 0 <= i < |Pending(s)| && Pending(s)[i].Get? ==> Pending(s)[i].m != c.m
    ensures InOrder(s')
  {
    AppendInOrder(Pending(s), c);
    assert Pending(s') == Pending(s) + [c];
    assert s'.pushed == s'.done + Pending(s');
  }

  lemma InOrderKeptByMiner(s: State, step: Step, retries: int)
    requires OneToken(s) && InOrder(s) && Enabled(s, step) && !IoStep(step)
    ensures InOrder(Next(s, step, retries))
  {
    var s' := Next(s, step, retries);
    if IoRuns(s) && (step.RequestWork? || (step.Scan? && step.hit)) && !s.w.frozen {
      PusherHasNoGet(s, step.m);
      PushInOrder(s, s', if step.RequestWork? then Get(step.m, s.next) else Submit(step.m, s.next, s.next + 1));
    } else if IoRuns(s) {
      assert Pending(s') == Pending(s);
    }
  }

  lemma InOrderKeptByIo(s: State, step: Step, retries: int)
    requires InOrder(s) && Enabled(s, step) && IoStep(step)
    ensures InOrder(Next(s, step, retries))
  {
    match step {
      case IoTake => TakeInOrder(s);
      case IoResume => TakeInOrder(s);
      case IoCall(success) =>
        if success {
          SucceedInOrder(s);
        } else {
          FailInOrder(s, retries);
        }
      case _ =>
    }
  }

  lemma TakeInOrder(s: State)
    requires InOrder(s) && s.io == Popping
    ensures s.w.items != [] ==> InOrder(TakeCmd(s))
  {
    if s.w.items != [] {
      assert s.w.items == [s.w.items[0]] + s.w.items[1..];
      assert Pending(TakeCmd(s)) == Pending(s);
    }
  }

  lemma SucceedInOrder(s: State)
    requires InOrder(s) && s.io.Working? && (s.io.cmd.Get? ==> s.io.cmd.m < |s.q|)
    ensures InOrder(Succeed(s))
  {
    hide GetsLast;
    var c, items := s.io.cmd, s.w.items;
    assert Pending(s) == [c] + items && Pending(s)[1..] == items && Pending(Succeed(s)) == items;
    TailInOrder(Pending(s));
    Regroup(s.done, c, items);
  }

  lemma Regroup(done: seq<Cmd>, c: Cmd, items: seq<Cmd>)
    ensures done + ([c] + items) == done + [c] + items
  {
  }

  lemma FailInOrder(s: State, retries: int)
    requires InOrder(s) && s.io.Working?
    ensures InOrder(Fail(s, retries))
  {
    assert Pending(Fail(s, retries)) == Pending(s);
  }

  lemma TailInOrder(cs: seq<Cmd>)
    requires GetsLast(cs) && cs != []
    ensures GetsLast(cs[1..])
  {
  }

  // ----- memory blocks

  ghost function QueuedCmds(cs: seq<Cmd>): multiset<Id> {
    if cs == [] then multiset{} else CmdBlocks(cs[0]) + QueuedCmds(cs[1..])
  }

  lemma {:induction false} QueuedAppend(cs: seq<Cmd>, c: Cmd)
    ensures QueuedCmds(cs + [c]) == QueuedCmds(cs) + CmdBlocks(c)
  {
    if cs == [] {
      assert cs + [c] == [c];
      assert [c][1..] == [];
    } else {
      QueuedAppend(cs[1..], c);
      assert (cs + [c])[1..] == cs[1..] + [c];
    }
  }

  ghost function QueuedAnswers(q: seq<Queue<Id>>): multiset<Id> {
    if q == [] then multiset{} else multiset(q[0].items) + QueuedAnswers(q[1..])
  }

  lemma {:induction false} QueuedUpdate(q: seq<Queue<Id>>, m: nat, x: Queue<Id>, id: Id)
    requires m < |q|
    ensures QueuedAnswers(q[m := x])[id] + multiset(q[m].items)[id] == QueuedAnswers(q)[id] + multiset(x.items)[id]
  {
    if m == 0 {
      assert q[m := x][1..] == q[1..];
    } else {
      QueuedUpdate(q[1..], m - 1, x, id);
      assert q[m := x][1..] == q[1..][m - 1 := x];
    }
  }

  /** The blocks the work-I/O thread has in hand. */
  ghost function InHand(io: Io): multiset<Id> {
    match io
    case Working(c, _, answer) => CmdBlocks(c) + if c.Get? then multiset{answer} else multiset{}
    case Freeing(c, _) => CmdBlocks(c)
    case _ => multiset{}
  }

  /** How often block `id` is freed, queued or in a thread's hands. */
  ghost function Uses(s: State, id: Id): nat {
    s.freed[id] + QueuedCmds(s.w.items)[id] + QueuedAnswers(s.q)[id] + InHand(s.io)[id]
  }

  /** Every block that was ever allocated is in exactly one of these places. */
  ghost predicate Accounted(s: State) {
    forall id: Id :: Uses(s, id) == if id < s.next then 1 else 0
  }

  lemma PushUses(s: State, m: nat, c: Cmd, count: nat, accepted: Miner, id: Id)
    requires m < |s.miners|
    ensures Uses(PushCmd(s, m, c, count, accepted), id) == Uses(s, id) + CmdBlocks(c)[id]
    ensures PushCmd(s, m, c, count, accepted).next == s.next + count
  {
    QueuedAppend(s.w.items, c);
  }

  lemma TakeUses(s: State, m: nat, id: Id)
    requires m < |s.miners| == |s.q| && s.q[m].items != []
    ensures Uses(TakeWork(s, m), id) == Uses(s, id) && TakeWork(s, m).next == s.next
  {
    QueuedUpdate(s.q, m, Rest(s.q[m]), id);
    assert s.q[m].items == [s.q[m].items[0]] + s.q[m].items[1..];
  }

  lemma AccountedKeptByMiner(s: State, step: Step, retries: int)
    requires Accounted(s) && Enabled(s, step) && !IoStep(step)
    ensures Accounted(Next(s, step, retries))
  {
    hide Uses, PushCmd, TakeWork;
    var s' := Next(s, step, retries);
    forall id: Id ensures Uses(s', id) == if id < s'.next then 1 else 0 {
      MinerUses(s, step, retries, id);
    }
  }

  /** Napping, waking and freezing move no block. */
  lemma QueueUses(s: State, s': State, m: nat, id: Id)
    requires m < |s.q| && |s'.q| == |s.q| && s'.q == s.q[m := s'.q[m]] && s'.q[m].items == s.q[m].items
    requires s'.w == s.w && s'.io == s.io && s'.freed == s.freed
    ensures Uses(s', id) == Uses(s, id)
  {
    QueuedUpdate(s.q, m, s'.q[m], id);
  }

  lemma MinerUses(s: State, step: Step, retries: int, id: Id)
    requires Enabled(s, step) && !IoStep(step) && Uses(s, id) == (if id < s.next then 1 else 0)
    ensures var s' := Next(s, step, retries); Uses(s', id) == if id < s'.next then 1 else 0
  {
    hide Uses, PushCmd, TakeWork;
    var s' := Next(s, step, retries);
    match step {
      case RequestWork(m) => PushUses(s, m, Get(m, s.next), 1, Waiting, id);
      case Scan(m, hit) =>
        if hit {
          PushUses(s, m, Submit(m, s.next, s.next + 1), 2, Idle, id);
        } else {
          SameUses(s, s', id);
        }
      case AwaitWork(m) =>
        if s.q[m].items != [] {
          TakeUses(s, m, id);
        } else {
          QueueUses(s, s', m, id);
        }
      case ResumeMiner(m) =>
        if s.q[m].items != [] {
          TakeUses(s, m, id);
        } else {
          QueueUses(s, s', m, id);
        }
      case WakeMiner(m) => QueueUses(s, s', m, id);
      case QuitMiner(m) => QueueUses(s, s', m, id);
    }
  }

  lemma SameUses(s: State, s': State, id: Id)
    requires s'.w.items == s.w.items && s'.q == s.q && InHand(s'.io) == InHand(s.io) && s'.freed == s.freed
    ensures Uses(s', id) == Uses(s, id)
  {
  }

  lemma FreeUses(s: State, s': State, id: Id)
    requires s.io.Freeing? && s'.w == s.w && s'.q == s.q && InHand(s'.io) == multiset{} && s'.freed == s.freed + CmdBlocks(s.io.cmd)
    ensures Uses(s', id) == Uses(s, id)
  {
  }

  lemma AccountedKeptByIo(s: State, step: Step, retries: int)
    requires Accounted(s) && Enabled(s, step) && IoStep(step)
    ensures Accounted(Next(s, step, retries))
  {
    hide Uses, TakeCmd, Succeed, Fail;
    var s' := Next(s, step, retries);
    forall id: Id ensures Uses(s', id) == if id < s'.next then 1 else 0 {
      IoUses(s, step, retries, id);
    }
  }

  lemma IoUses(s: State, step: Step, retries: int, id: Id)
    requires Enabled(s, step) && IoStep(step) && Uses(s, id) == (if id < s.next then 1 else 0)
    ensures var s' := Next(s, step, retries); Uses(s', id) == if id < s'.next then 1 else 0
  {
    hide Uses, CmdBlocks;
    var s' := Next(s, step, retries);
    match step {
      case IoStart(_) => SameUses(s, s', id);
      case IoTake => TakeOrNotUses(s, s', id);
      case IoResume => TakeOrNotUses(s, s', id);
      case IoCall(success) =>
        if success {
          SucceedUses(s, id);
        } else {
          FailUses(s, retries, id);
        }
      case IoFree => FreeUses(s, s', id);
      case WakeIo => SameUses(s, s', id);
      case IoEnd => SameUses(s, s', id);
    }
  }

  lemma TakeOrNotUses(s: State, s': State, id: Id)
    requires s.io == Popping && Uses(s, id) == (if id < s.next then 1 else 0)
    requires if s.w.items != [] then s' == TakeCmd(s) else s'.w.items == [] && s'.q == s.q && InHand(s'.io) == multiset{} && s'.freed == s.freed && s'.next == s.next
    ensures Uses(s', id) == if id < s'.next then 1 else 0
  {
    hide Uses;
    if s.w.items != [] {
      TakeCmdUses(s, id);
    } else {
      SameUses(s, s', id);
    }
  }

  lemma TakeCmdUses(s: State, id: Id)
    requires s.io == Popping
    ensures s.w.items != [] ==> Uses(TakeCmd(s), id) == Uses(s, id) + if s.w.items[0].Get? && id == s.next then 1 else 0
  {
  }

  lemma SucceedUses(s: State, id: Id)
    requires s.io.Working? && (s.io.cmd.Get? ==> s.io.cmd.m < |s.q|)
    ensures Uses(Succeed(s), id) == Uses(s, id)
  {
    hide QueuedCmds, QueuedAnswers, CmdBlocks;
    if s.io.cmd.Get? {
      var m, answer := s.io.cmd.m, s.io.answer;
      var items := s.q[m].items;
      QueuedUpdate(s.q, m, Push(s.q[m], answer).0, id);
      assert multiset(items + [answer]) == multiset(items) + multiset{answer};
    }
  }

  lemma FailUses(s: State, retries: int, id: Id)
    requires s.io.Working?
    ensures Uses(Fail(s, retries), id) == Uses(s, id)
  {
  }

  // ----- every run

  /** Commands come from miners that exist. */
  ghost predicate Addressed(s: State) {
    (s.io.Working? ==> s.io.cmd.m < |s.q|) && forall i :: 0 <= i < |s.w.items| ==> s.w.items[i].m < |s.q|
  }

  lemma AddressedKept(s: State, step: Step, retries: int)
    requires Addressed(s) && Enabled(s, step) && |s.q| == |s.miners|
    ensures Addressed(Next(s, step, retries))
  {
  }

  ghost predicate Inv(s: State) {
    Naps(s) && OneToken(s) && InOrder(s) && Accounted(s) && Addressed(s)
  }

  lemma InitialInv(n: nat)
    ensures Inv(Initial(n))
  {
    var s := Initial(n);
    forall m | 0 <= m < n ensures TokenOf(s, m) {
    }
    forall id: Id ensures Uses(s, id) == 0 {
      NoAnswers(s.q, id);
    }
  }

  lemma {:induction false} NoAnswers(q: seq<Queue<Id>>, id: Id)
    requires forall m :: 0 <= m < |q| ==> q[m].items == []
    ensures QueuedAnswers(q)[id] == 0
  {
    if q != [] {
      NoAnswers(q[1..], id);
    }
  }

  lemma InvKept(s: State, step: Step, retries: int)
    requires Inv(s) && Enabled(s, step)
    ensures Inv(Next(s, step, retries))
  {
    assert |s.q| == |s.miners|;
    hide Naps, OneToken, InOrder, Accounted, Addressed, Next;
    AddressedKept(s, step, retries);
    NapsKept(s, step, retries);
    OneTokenKept(s, step, retries);
    if IoStep(step) {
      InOrderKeptByIo(s, step, retries);
      AccountedKeptByIo(s, step, retries);
    } else {
      InOrderKeptByMiner(s, step, retries);
      AccountedKeptByMiner(s, step, retries);
    }
  }

  ghost predicate Moves(s: State, step: Step, retries: int, s': State) {
    Enabled(s, step) && s' == Next(s, step, retries)
  }

  /** A run of `n` miners: the states it goes through, each reached by an enabled step from the one before. */
  ghost predicate Run(n: nat, retries: int, steps: seq<Step>, states: seq<State>) {
    && |states| == |steps| + 1
    && states[0] == Initial(n)
    && forall i :: 0 <= i < |steps| ==> Moves(states[i], steps[i], retries, states[i + 1])
  }

  lemma {:induction false} EveryRun(n: nat, retries: int, steps: seq<Step>, states: seq<State>, i: nat)
    requires Run(n, retries, steps, states) && i < |states|
    ensures Inv(states[i]) && |states[i].q| == n
  {
    hide Next;
    if i == 0 {
      InitialInv(n);
    } else {
      EveryRun(n, retries, steps, states, i - 1);
      assert Moves(states[i - 1], steps[i - 1], retries, states[i - 1 + 1]);
      InvKept(states[i - 1], steps[i - 1], retries);
      SameQueues(states[i - 1], steps[i - 1], retries);
    }
  }

  // ----- what this means

  /** While a miner waits and the work-I/O thread has not given up, exactly one request of the miner is under way. */
  lemma WaitingMinerHasOneToken(n: nat, retries: int, steps: seq<Step>, states: seq<State>, i: nat, m: nat)
    requires Run(n, retries, steps, states) && i < |states| && m < n
    ensures var s := states[i]; n == |s.q| == |s.miners| && Tokens(s, m) <= 1 && (s.miners[m] == Waiting && IoRuns(s) ==> Tokens(s, m) == 1)
  {
    var s := states[i];
    EveryRun(n, retries, steps, states, i);
    assert TokenOf(s, m);
  }

  /** When the work-I/O thread looks for work for a miner, it has submitted all that miner's solutions. */
  lemma SubmitsDoneBeforeGet(n: nat, retries: int, steps: seq<Step>, states: seq<State>, i: nat, c: Cmd)
    requires Run(n, retries, steps, states) && i < |states|
    requires var s := states[i]; s.io.Working? && s.io.cmd.Get?
    requires var s := states[i]; c in s.pushed && c.Submit? && c.m == s.io.cmd.m
    ensures c in states[i].done
  {
    var s := states[i];
    EveryRun(n, retries, steps, states, i);
    NotBehindGet(s, c);
    assert c in s.done + Pending(s);
  }

  lemma NotBehindGet(s: State, c: Cmd)
    requires InOrder(s) && s.io.Working? && s.io.cmd.Get? && c.Submit? && c.m == s.io.cmd.m
    ensures c !in Pending(s)
  {
    var p := Pending(s);
    assert p[0] == s.io.cmd;
    forall j | 0 <= j < |p| ensures p[j] != c {
    }
  }

  /** Commands are carried out in the order in which the work queue accepted them. */
  lemma DoneInOrder(n: nat, retries: int, steps: seq<Step>, states: seq<State>, i: nat)
    requires Run(n, retries, steps, states) && i < |states|
    requires var s := states[i]; IoRuns(s)
    ensures states[i].done <= states[i].pushed
  {
    var s := states[i];
    EveryRun(n, retries, steps, states, i);
  }

  /** No block is freed twice; a freed block is in no queue and in nobody's hands; none is lost. */
  lemma FreedOnce(n: nat, retries: int, steps: seq<Step>, states: seq<State>, i: nat, id: Id)
    requires Run(n, retries, steps, states) && i < |states|
    ensures var s := states[i]; s.freed[id] <= 1
    ensures var s := states[i]; id in s.freed ==> id !in QueuedCmds(s.w.items) && id !in QueuedAnswers(s.q) && id !in InHand(s.io)
    ensures var s := states[i]; id < s.next ==> id in s.freed || id in QueuedCmds(s.w.items) || id in QueuedAnswers(s.q) || id in InHand(s.io)
  {
    var s := states[i];
    EveryRun(n, retries, steps, states, i);
    assert Uses(s, id) == if id < s.next then 1 else 0;
  }

  /** A miner and the work-I/O thread are never both asleep without a signal on its way. */
  lemma NoDeadlock(n: nat, retries: int, steps: seq<Step>, states: seq<State>, i: nat, m: nat)
    requires Run(n, retries, steps, states) && i < |states| && m < n
    ensures var s := states[i]; n == |s.q| && !(s.w.nap == Asleep && s.q[m].nap == Asleep)
  {
    var s := states[i];
    EveryRun(n, retries, steps, states, i);
    assert TokenOf(s, m);
  }
}
