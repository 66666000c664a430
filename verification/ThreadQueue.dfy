/** One queue of `util.c` with any number of producers and consumers, as a machine of atomic steps. */
module QueueMachine {
  import opened Bytes

  /** The list after `tq_push`: a frozen queue refuses the item. */
  function AfterPush<T>(contents: seq<T>, frozen: bool, x: T): seq<T> {
    if frozen then contents else contents + [x]
  }

  /** What a consumer that finds the list as it is returns, and the list it leaves. */
  function AfterPop<T>(contents: seq<T>): (Option<T>, seq<T>) {
    if contents == [] then (None, []) else (Some(contents[0]), contents[1..])
  }

  /**
    `sleepers` wait on the condition variable; `woken` were signalled, or woke without a signal,
    and have yet to take the mutex again. The last three fields record the history.
    */
  datatype Queue<T> = Queue(
    contents: seq<T>, frozen: bool, sleepers: set<nat>, woken: set<nat>, accepted: seq<T>, refused: seq<T>, popped: seq<T>)

  /** `wake` is the sleeper a signal reaches. */
  datatype Step<T> =
    | PushStep(x: T, wake: Option<nat>)
    | PopStep(t: nat)
    | WakeStep(t: nat)
    | ResumeStep(t: nat)
    | FreezeStep(frozen: bool, wake: Option<nat>)

  function Empty<T>(): Queue<T> {
    Queue([], false, {}, {}, [], [], [])
  }

  /** `pthread_cond_signal` reaches exactly one sleeper if there is one. */
  predicate Reaches<T>(q: Queue<T>, wake: Option<nat>) {
    if q.sleepers == {} then wake == None else wake.Some? && wake.value in q.sleepers
  }

  function Signalled<T>(q: Queue<T>, wake: Option<nat>): Queue<T> {
    if wake == None then q else q.(sleepers := q.sleepers - {wake.value}, woken := q.woken + {wake.value})
  }

  predicate Enabled<T>(q: Queue<T>, step: Step<T>) {
    match step
    case PushStep(_, wake) => Reaches(q, wake)
    case PopStep(t) => t !in q.sleepers && t !in q.woken
    case WakeStep(t) => t in q.sleepers
    case ResumeStep(t) => t in q.woken
    case FreezeStep(_, wake) => Reaches(q, wake)
  }

  function Popped<T>(q: Queue<T>): Queue<T>
    requires q.contents != []
  {
    q.(contents := AfterPop(q.contents).1, popped := q.popped + [q.contents[0]])
  }

  function Next<T>(q: Queue<T>, step: Step<T>): Queue<T>
    requires Enabled(q, step)
  {
    match step
    case PushStep(x, wake) =>
      Signalled(
        q.(contents := AfterPush(q.contents, q.frozen, x),
           accepted := if q.frozen then q.accepted else q.accepted + [x],
           refused := if q.frozen then q.refused + [x] else q.refused), wake)
    case PopStep(t) => if q.contents != [] then Popped(q) else q.(sleepers := q.sleepers + {t})
    case WakeStep(t) => q.(sleepers := q.sleepers - {t}, woken := q.woken + {t})
    case ResumeStep(t) => (if q.contents != [] then Popped(q) else q).(woken := q.woken - {t})
    case FreezeStep(frozen, wake) => Signalled(q.(frozen := frozen), wake)
  }

  /**
    What was accepted is what was popped and then what is still there, in order; a thread asleep
    without a signal means that every item has its own thread on the way to it.
    */
  ghost predicate Inv<T>(q: Queue<T>) {
    && q.accepted == q.popped + q.contents
    && q.sleepers !! q.woken
    && (q.sleepers != {} ==> |q.contents| <= |q.woken|)
  }

  lemma InvKept<T>(q: Queue<T>, step: Step<T>)
    requires Inv(q) && Enabled(q, step)
    ensures Inv(Next(q, step))
  {
    match step {
      case PushStep(x, wake) => PushKeeps(q, x, wake);
      case PopStep(t) => PoppedKeeps(q);
      case WakeStep(t) => assert |q.woken + {t}| == |q.woken| + 1;
      case ResumeStep(t) =>
        PoppedKeeps(q);
        assert |q.woken - {t}| == |q.woken| - 1;
      case FreezeStep(_, wake) =>
        if wake.Some? {
          assert |q.woken + {wake.value}| == |q.woken| + 1;
        }
    }
  }

  lemma PushKeeps<T>(q: Queue<T>, x: T, wake: Option<nat>)
    requires Inv(q) && Reaches(q, wake)
    ensures Inv(Next(q, PushStep(x, wake)))
  {
    if wake.Some? {
      assert |q.woken + {wake.value}| == |q.woken| + 1;
    }
  }

  lemma PoppedKeeps<T>(q: Queue<T>)
    requires Inv(q)
    ensures q.contents != [] ==> Popped(q).accepted == Popped(q).popped + Popped(q).contents
  {
    if q.contents != [] {
      assert q.contents == [q.contents[0]] + q.contents[1..];
    }
  }

  ghost predicate Run<T>(steps: seq<Step<T>>, states: seq<Queue<T>>) {
    && |states| == |steps| + 1
    && states[0] == Empty()
    && forall i :: 0 <= i < |steps| ==> Moves(states[i], steps[i], states[i + 1])
  }

  ghost predicate Moves<T>(q: Queue<T>, step: Step<T>, q': Queue<T>) {
    Enabled(q, step) && q' == Next(q, step)
  }

  lemma {:induction false} EveryRun<T>(steps: seq<Step<T>>, states: seq<Queue<T>>, i: nat)
    requires Run(steps, states) && i < |states|
    ensures Inv(states[i])
  {
    hide Inv, Next;
    if i == 0 {
      EmptyInv<T>();
    } else {
      EveryRun(steps, states, i - 1);
      assert Moves(states[i - 1], steps[i - 1], states[i - 1 + 1]);
      InvKept(states[i - 1], steps[i - 1]);
    }
  }

  lemma EmptyInv<T>()
    ensures Inv(Empty<T>())
  {
  }

  /** The pushes of a run that a queue not frozen at the time accepted. */
  ghost function AcceptedBy<T>(steps: seq<Step<T>>, states: seq<Queue<T>>, n: nat): seq<T>
    requires Run(steps, states) && n <= |steps|
  {
    if n == 0 then []
    else AcceptedBy(steps, states, n - 1) + if steps[n - 1].PushStep? && !states[n - 1].frozen then [steps[n - 1].x] else []
  }

  lemma {:induction false} AcceptedPushes<T>(steps: seq<Step<T>>, states: seq<Queue<T>>, i: nat)
    requires Run(steps, states) && i < |states|
    ensures states[i].accepted == AcceptedBy(steps, states, i)
  {
    if i > 0 {
      AcceptedPushes(steps, states, i - 1);
      assert Moves(states[i - 1], steps[i - 1], states[i - 1 + 1]);
    }
  }

  /**
    After any interleaving, with spurious wake-ups, freezing and thawing: the items pushed while
    the queue was not frozen are, in order, those handed out and those still there. Pushes that
    met a frozen queue are in neither.
    */
  lemma NothingLostOrInvented<T>(steps: seq<Step<T>>, states: seq<Queue<T>>, i: nat)
    requires Run(steps, states) && i < |states|
    ensures AcceptedBy(steps, states, i) == states[i].popped + states[i].contents
  {
    EveryRun(steps, states, i);
    AcceptedPushes(steps, states, i);
  }

  /** No lost wake-up: with one consumer, being asleep without a signal means that the queue is empty. */
  lemma NoLostWakeup<T>(steps: seq<Step<T>>, states: seq<Queue<T>>, i: nat, t: nat)
    requires Run(steps, states) && i < |states| && t in states[i].sleepers
    ensures |states[i].contents| <= |states[i].woken|
    ensures (forall u :: u in states[i].woken ==> u == t) ==> states[i].contents == []
  {
    EveryRun(steps, states, i);
    if forall u :: u in states[i].woken ==> u == t {
      assert states[i].woken == {};
    }
  }
}

/** The queue functions of `util.c` on the list of `elist.h`. */
module ThreadQueues {
  import opened Bytes
  import opened CircularLists
  import QueueMachine

  type Ent<T> = Node<(), T>

  // ----- elist.h

  /** `list_add_tail`. */
  method ListAddTail<T>(node: Ent<T>, head: Ent<T>, ghost nodes: seq<Ent<T>>)
    requires Ring(head, nodes) && node !in Circle(head, nodes)
    modifies head`next, head`prev, nodes`next, nodes`prev, node`next, node`prev
    ensures Ring(head, nodes + [node])
  {
    hide Ring;
    LastPlace(head, nodes);
    Link(node, head.prev, head, head, nodes, |nodes|);
    InsertedLast(nodes, node);
  }

  lemma InsertedLast<A>(s: seq<A>, x: A)
    ensures Inserted(s, |s|, x) == s + [x]
  {
  }

  lemma LastPlace<T>(head: Ent<T>, nodes: seq<Ent<T>>)
    requires Ring(head, nodes)
    ensures var c := Circle(head, nodes); head.prev == c[|nodes|] && head.prev in [head] + nodes && c[Succ(|c|, |nodes|)] == head
  {
    var c := Circle(head, nodes);
    assert CircularLists.Next(|c|, |nodes|, 0);
  }

  /** `list_del`: the entry leaves its list and its pointers become null. */
  method ListDel<T>(entry: Ent<T>, ghost head: Ent<T>, ghost nodes: seq<Ent<T>>, ghost p: nat)
    requires Ring(head, nodes) && p < |nodes| && nodes[p] == entry
    modifies head`next, head`prev, nodes`next, nodes`prev
    ensures Ring(head, Removed(nodes, p)) && entry.next == null && entry.prev == null
  {
    hide Ring, Linked;
    Around(head, nodes, p);
    Unlink(entry.prev, entry.next, head, nodes, p);
    Outside(head, nodes, p);
    entry.next := null;
    entry.prev := null;
  }

  lemma Outside<T>(head: Ent<T>, nodes: seq<Ent<T>>, p: nat)
    requires Distinct(Circle(head, nodes)) && p < |nodes|
    ensures nodes[p] != head && nodes[p] !in Removed(nodes, p)
  {
    var c := Circle(head, nodes);
    assert c[p + 1] == nodes[p];
    var r := Removed(nodes, p);
    forall k | 0 <= k < |r| ensures r[k] != nodes[p] {
      assert r[k] == c[if k < p then k + 1 else k + 2];
    }
  }

  lemma Around<T>(head: Ent<T>, nodes: seq<Ent<T>>, p: nat)
    requires Ring(head, nodes) && p < |nodes|
    ensures Distinct(Circle(head, nodes))
    ensures nodes[p].prev == Circle(head, nodes)[p] && nodes[p].next == Circle(head, nodes)[Succ(|nodes| + 1, p + 1)]
    ensures nodes[p].prev in [head] + nodes && nodes[p].next in [head] + nodes
  {
    var c := Circle(head, nodes);
    assert CircularLists.Next(|c|, p, p + 1) && c[p + 1] == nodes[p];
    assert CircularLists.Next(|c|, p + 1, Succ(|c|, p + 1));
  }

  /** `list_empty`. */
  method ListEmpty<T>(head: Ent<T>, ghost nodes: seq<Ent<T>>) returns (empty: bool)
    requires Ring(head, nodes)
    ensures empty <==> nodes == []
    ensures !empty ==> head.next == nodes[0]
  {
    First(head, nodes);
    empty := head.next == head;
  }

  lemma First<T>(head: Ent<T>, nodes: seq<Ent<T>>)
    requires Ring(head, nodes)
    ensures head.next == (if nodes == [] then head else nodes[0]) && head !in nodes
  {
    var c := Circle(head, nodes);
    assert CircularLists.Next(|c|, 0, Succ(|c|, 0));
    assert forall k :: 0 <= k < |nodes| ==> nodes[k] == c[k + 1] != c[0];
  }

  // ----- util.c

  ghost predicate Loaded<T>(nodes: seq<Ent<T>>)
    reads nodes`data
  {
    forall i :: 0 <= i < |nodes| ==> nodes[i].data.Some?
  }

  ghost function Items<T>(nodes: seq<Ent<T>>): (r: seq<T>)
    requires Loaded(nodes)
    reads nodes`data
    ensures |r| == |nodes| && forall i :: 0 <= i < |nodes| ==> r[i] == nodes[i].data.value
  {
    if nodes == [] then [] else [nodes[0].data.value] + Items(nodes[1..])
  }

  class ThreadQueue<T> {
    const q: Ent<T>
    var frozen: bool
    ghost var nodes: seq<Ent<T>>

    ghost predicate Valid()
      reads this, q, nodes
    {
      Ring(q, nodes) && Loaded(nodes)
    }

    /** The items in the order in which they will be popped. */
    ghost function Contents(): seq<T>
      requires Valid()
      reads this, q, nodes
    {
      Items(nodes)
    }

    /** `tq_new`. */
    constructor ()
      ensures Valid() && Contents() == [] && !frozen
      ensures var start := QueueMachine.Empty<T>(); Contents() == start.contents && frozen == start.frozen
      ensures fresh(q) && nodes == []
    {
      q := new Node.Head();
      frozen := false;
      nodes := [];
    }

    /** `tq_push`, under the mutex. */
    method Push(data: T) returns (rc: bool)
      requires Valid()
      modifies this`nodes, q`next, q`prev, nodes`next, nodes`prev
      ensures Valid() && rc == !frozen && Contents() == QueueMachine.AfterPush(old(Contents()), frozen, data)
      ensures forall i :: 0 <= i < |nodes| ==> nodes[i] in old(nodes) || fresh(nodes[i])
    {
      hide Ring, Circle, Loaded, Items;
      var ent := new Node.Item((), data);
      if frozen {
        rc := false;
        return;
      }
      ghost var was := Contents();
      NewEnt(q, nodes, ent);
      ListAddTail(ent, q, nodes);
      assert Items(nodes) == was;
      ItemsAppend(nodes, ent);
      nodes := nodes + [ent];
      rc := true;
    }

    /** What `tq_pop` does with the list, at once or after waiting; `None` stands for the null pointer. */
    method PopHead() returns (rval: Option<T>)
      requires Valid()
      modifies this`nodes, q`next, q`prev, nodes`next, nodes`prev
      ensures Valid() && (rval, Contents()) == QueueMachine.AfterPop(old(Contents()))
      ensures forall i :: 0 <= i < |nodes| ==> nodes[i] in old(nodes)
      ensures rval.Some? ==> |nodes| < |old(nodes)|
    {
      hide Ring, Loaded, Items;
      var empty := ListEmpty(q, nodes);
      if empty {
        NoItems(nodes);
        rval := None;
        return;
      }
      ghost var was := Contents();
      var ent: Ent<T> := q.next;
      rval := ent.data;
      ListDel(ent, q, nodes, 0);
      assert Loaded(nodes) && Items(nodes) == was;
      ItemsTail(nodes);
      nodes := nodes[1..];
    }

    /** `tq_freezethaw`. */
    method FreezeThaw(frozen: bool)
      requires Valid()
      modifies this`frozen
      ensures Valid() && this.frozen == frozen && Contents() == old(Contents())
    {
      this.frozen := frozen;
    }

    /** The loop of `tq_free`; the items themselves are dropped. */
    method Drain() returns (dropped: seq<T>)
      requires Valid()
      modifies this`nodes, q`next, q`prev, nodes`next, nodes`prev
      ensures Valid() && Contents() == [] && dropped == old(Contents())
    {
      hide ThreadQueue.Valid, ThreadQueue.Contents;
      dropped := [];
      ghost var all := nodes;
      assert dropped + Contents() == Contents();
      while true
        invariant Valid() && dropped + Contents() == old(Contents())
        invariant forall i :: 0 <= i < |nodes| ==> nodes[i] in all
        decreases |nodes|
      {
        ghost var was := Contents();
        var item := PopHead();
        PopSplits(was, dropped);
        if item == None {
          break;
        }
        dropped := dropped + [item.value];
      }
    }
  }

  lemma PopSplits<T>(contents: seq<T>, dropped: seq<T>)
    ensures var (item, rest) := QueueMachine.AfterPop(contents);
      if item == None then rest == [] && dropped + contents == dropped
      else dropped + contents == dropped + [item.value] + rest
  {
  }

  lemma NewEnt<T>(head: Ent<T>, nodes: seq<Ent<T>>, ent: Ent<T>)
    requires ent != head && ent !in nodes
    ensures ent !in Circle(head, nodes)
  {
  }

  lemma ItemsAppend<T>(nodes: seq<Ent<T>>, ent: Ent<T>)
    requires Loaded(nodes) && ent.data.Some?
    ensures Loaded(nodes + [ent]) && Items(nodes + [ent]) == Items(nodes) + [ent.data.value]
  {
  }

  lemma ItemsTail<T>(nodes: seq<Ent<T>>)
    requires Loaded(nodes) && nodes != []
    ensures Loaded(nodes[1..]) && nodes[0].data == Some(Items(nodes)[0]) && Items(nodes[1..]) == Items(nodes)[1..]
    ensures Removed(nodes, 0) == nodes[1..]
  {
  }

  lemma NoItems<T>(nodes: seq<Ent<T>>)
    requires nodes == []
    ensures Loaded(nodes) && Items(nodes) == []
  {
  }
}
