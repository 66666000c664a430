/**
  Intrusive circular doubly linked lists with a head node, as in `elist.h` and at the top of
  `compat/jansson/hashtable.c`. The structure a list node is embedded in is the node itself:
  `tag` holds its fields that never change, `data` the one that does; a head has neither.
  */
module CircularLists {
  import opened Bytes

  class Node<T, V> {
    var next: Node?<T, V>
    var prev: Node?<T, V>
    const tag: Option<T>
    var data: Option<V>

    /** A head, linked to itself. */
    constructor Head()
      ensures Ring(this, []) && tag == None
    {
      tag, data := None, None;
      next, prev := this, this;
    }

    constructor Item(tag: T, data: V)
      ensures this.tag == Some(tag) && this.data == Some(data)
    {
      this.tag, this.data := Some(tag), Some(data);
      next, prev := this, this;
    }
  }

  /** The head and then the nodes. */
  ghost function Circle<T, V>(head: Node<T, V>, nodes: seq<Node<T, V>>): (r: seq<Node<T, V>>)
    ensures |r| == |nodes| + 1 && r[0] == head
    ensures forall k :: 0 <= k < |nodes| ==> r[k + 1] == nodes[k]
    ensures forall k :: 0 < k < |r| ==> r[k] == nodes[k - 1]
  {
    [head] + nodes
  }

  /** On a circle of `n` places, place `j` comes right after place `i`. */
  ghost predicate Next(n: nat, i: int, j: int) {
    0 <= i < n && 0 <= j < n && (j == i + 1 || (j == 0 && i == n - 1))
  }

  ghost predicate Distinct<A>(s: seq<A>) {
    forall i, j :: 0 <= i < j < |s| ==> s[i] != s[j]
  }

  /** Following `next` from `head` visits exactly `nodes`, in order, and comes back; `prev` runs the other way. */
  ghost predicate Ring<T, V>(head: Node<T, V>, nodes: seq<Node<T, V>>)
    reads head`next, head`prev, nodes`next, nodes`prev
  {
    Distinct(Circle(head, nodes)) && Linked(Circle(head, nodes))
  }

  ghost predicate Linked<T, V>(c: seq<Node<T, V>>)
    reads c`next, c`prev
  {
    forall i, j :: 0 <= i < |c| && 0 <= j < |c| && Next(|c|, i, j) ==> c[i].next == c[j] && c[j].prev == c[i]
  }

  lemma DistinctInserted<A>(s: seq<A>, p: nat, x: A)
    requires Distinct(s) && x !in s && p <= |s|
    ensures Distinct(Inserted(s, p, x))
  {
  }

  lemma DistinctRemoved<A>(s: seq<A>, p: nat)
    requires Distinct(s) && p < |s|
    ensures Distinct(Removed(s, p))
  {
  }

  ghost function Inserted<A>(s: seq<A>, p: nat, x: A): (r: seq<A>)
    requires p <= |s|
    ensures |r| == |s| + 1
    ensures forall k :: 0 <= k < |r| ==> r[k] == if k < p then s[k] else if k == p then x else s[k - 1]
  {
    s[..p] + [x] + s[p..]
  }

  ghost function Removed<A>(s: seq<A>, p: nat): (r: seq<A>)
    requires p < |s|
    ensures |r| == |s| - 1
    ensures forall k :: 0 <= k < |r| ==> r[k] == if k < p then s[k] else s[k + 1]
  {
    s[..p] + s[p + 1..]
  }

  lemma InsertedMultiset<A>(s: seq<A>, p: nat, x: A)
    requires p <= |s|
    ensures multiset(Inserted(s, p, x)) == multiset(s) + multiset{x}
  {
    assert s == s[..p] + s[p..];
  }

  lemma CircleInserted<T, V>(head: Node<T, V>, nodes: seq<Node<T, V>>, p: nat, node: Node<T, V>)
    requires p <= |nodes|
    ensures Circle(head, Inserted(nodes, p, node)) == Inserted(Circle(head, nodes), p + 1, node)
  {
  }

  lemma CircleRemoved<T, V>(head: Node<T, V>, nodes: seq<Node<T, V>>, p: nat)
    requires p < |nodes|
    ensures Circle(head, Removed(nodes, p)) == Removed(Circle(head, nodes), p + 1)
  {
  }

  /** The place after place `i`. */
  ghost function Succ(n: nat, i: nat): (j: nat)
    requires i < n
    ensures Next(n, i, j)
  {
    if i == n - 1 then 0 else i + 1
  }

  lemma DistinctAt<A>(s: seq<A>, i: nat, j: nat)
    requires Distinct(s) && i < |s| && j < |s|
    ensures s[i] == s[j] <==> i == j
  {
  }

  ghost function Nexts<T, V>(c: seq<Node<T, V>>): (r: seq<Node?<T, V>>)
    reads c
    ensures |r| == |c| && forall i :: 0 <= i < |c| ==> r[i] == c[i].next
  {
    seq(|c|, i requires 0 <= i < |c| reads c => c[i].next)
  }

  ghost function Prevs<T, V>(c: seq<Node<T, V>>): (r: seq<Node?<T, V>>)
    reads c
    ensures |r| == |c| && forall i :: 0 <= i < |c| ==> r[i] == c[i].prev
  {
    seq(|c|, i requires 0 <= i < |c| reads c => c[i].prev)
  }

  lemma RingValues<T, V>(head: Node<T, V>, nodes: seq<Node<T, V>>)
    requires Ring(head, nodes)
    ensures var c := Circle(head, nodes); Distinct(c) && WereLinked(c, Nexts(c), Prevs(c))
  {
  }

  /** `next` and `prev` are the links of a circle before a change. */
  ghost predicate WereLinked<T, V>(c: seq<Node<T, V>>, next: seq<Node?<T, V>>, prev: seq<Node?<T, V>>) {
    && |next| == |prev| == |c|
    && forall i, j :: 0 <= i < |c| && 0 <= j < |c| && Next(|c|, i, j) ==> next[i] == c[j] && prev[j] == c[i]
  }

  lemma LinkedIf<T, V>(c: seq<Node<T, V>>)
    requires forall i :: 0 <= i < |c| ==> c[i].next == c[Succ(|c|, i)] && c[Succ(|c|, i)].prev == c[i]
    ensures Linked(c)
  {
    forall i, j | 0 <= i < |c| && 0 <= j < |c| && Next(|c|, i, j) ensures c[i].next == c[j] && c[j].prev == c[i] {
      assert j == Succ(|c|, i);
    }
  }

  /** Neighbours in the list without place `p` that were neighbours before. */
  lemma RemovedPlaces<A>(c: seq<A>, p: nat, i: nat) returns (i0: nat, j0: nat)
    requires Distinct(c) && 0 < p < |c| && i < |c| - 1 && i != p - 1
    ensures j0 < |c| && Next(|c|, i0, j0)
    ensures Removed(c, p)[i] == c[i0] && Removed(c, p)[Succ(|c| - 1, i)] == c[j0]
    ensures c[i0] != c[p - 1] && c[j0] != c[Succ(|c|, p)]
  {
    i0 := if i < p then i else i + 1;
    j0 := Succ(|c|, i0);
    DistinctAt(c, i0, p - 1);
    DistinctAt(c, j0, Succ(|c|, p));
  }

  lemma InsertedPlaces<A>(c: seq<A>, p: nat, x: A, i: nat) returns (i0: nat, j0: nat)
    requires Distinct(c) && 0 < p <= |c| && i < |c| + 1 && i != p - 1 && i != p
    ensures j0 < |c| && Next(|c|, i0, j0)
    ensures Inserted(c, p, x)[i] == c[i0] && Inserted(c, p, x)[Succ(|c| + 1, i)] == c[j0]
    ensures c[i0] != c[p - 1] && c[j0] != c[Succ(|c|, p - 1)]
  {
    i0 := if i < p then i else i - 1;
    j0 := Succ(|c|, i0);
    DistinctAt(c, i0, p - 1);
    DistinctAt(c, j0, Succ(|c|, p - 1));
  }

  /** The four assignments both list insertions consist of put `node` at place `p`. */
  method Link<T, V>(node: Node<T, V>, before: Node<T, V>, after: Node<T, V>, ghost head: Node<T, V>, ghost nodes: seq<Node<T, V>>, ghost p: nat)
    requires Ring(head, nodes) && node !in Circle(head, nodes) && p <= |nodes|
    requires before == Circle(head, nodes)[p] && after == Circle(head, nodes)[Succ(|nodes| + 1, p)]
    modifies node`next, node`prev, before`next, after`prev
    ensures Ring(head, Inserted(nodes, p, node))
  {
    hide Circle, Distinct, Removed, Inserted, Next, Linked, Ring, WereLinked;
    ghost var c := Circle(head, nodes);
    ghost var next, prev := Nexts(c), Prevs(c);
    RingValues(head, nodes);
    after.prev := node;
    node.next := after;
    node.prev := before;
    before.next := node;
    LinkKeepsRing(node, before, after, head, nodes, p, next, prev);
  }

  lemma LinkKeepsRing<T, V>(node: Node<T, V>, before: Node<T, V>, after: Node<T, V>, head: Node<T, V>, nodes: seq<Node<T, V>>, p: nat,
                            next: seq<Node?<T, V>>, prev: seq<Node?<T, V>>)
    requires p <= |nodes| && node !in Circle(head, nodes)
    requires var c := Circle(head, nodes);
      && Distinct(c) && WereLinked(c, next, prev) && before == c[p] && after == c[Succ(|c|, p)]
      && OnlyChanged(c, before, after, next, prev)
    requires after.prev == node && node.next == after && node.prev == before && before.next == node
    ensures Ring(head, Inserted(nodes, p, node))
  {
    hide Circle, Distinct, Removed, Inserted, Next, Linked, WereLinked, OnlyChanged;
    var c := Circle(head, nodes);
    var c' := Inserted(c, p + 1, node);
    CircleInserted(head, nodes, p, node);
    DistinctInserted(c, p + 1, node);
    SuccAtInserted(c, p + 1, node);
    forall i | 0 <= i < |c'| ensures c'[i].next == c'[Succ(|c'|, i)] && c'[Succ(|c'|, i)].prev == c'[i] {
      if i != p && i != p + 1 {
        var i0, j0 := InsertedPlaces(c, p + 1, node, i);
        StillLinked(c, before, after, next, prev, i0, j0);
      }
    }
    LinkedIf(c');
  }

  method Unlink<T, V>(before: Node<T, V>, after: Node<T, V>, ghost head: Node<T, V>, ghost nodes: seq<Node<T, V>>, ghost p: nat)
    requires Ring(head, nodes) && p < |nodes|
    requires before == Circle(head, nodes)[p] && after == Circle(head, nodes)[Succ(|nodes| + 1, p + 1)]
    modifies before`next, after`prev
    ensures Ring(head, Removed(nodes, p))
  {
    hide Circle, Distinct, Removed, Inserted, Next, Linked, Ring, WereLinked;
    ghost var c := Circle(head, nodes);
    ghost var next, prev := Nexts(c), Prevs(c);
    RingValues(head, nodes);
    after.prev := before;
    before.next := after;
    UnlinkKeepsRing(before, after, head, nodes, p, next, prev);
  }

  lemma UnlinkKeepsRing<T, V>(before: Node<T, V>, after: Node<T, V>, head: Node<T, V>, nodes: seq<Node<T, V>>, p: nat,
                              next: seq<Node?<T, V>>, prev: seq<Node?<T, V>>)
    requires p < |nodes|
    requires var c := Circle(head, nodes);
      && Distinct(c) && WereLinked(c, next, prev) && before == c[p] && after == c[Succ(|c|, p + 1)]
      && OnlyChanged(c, before, after, next, prev)
    requires after.prev == before && before.next == after
    ensures Ring(head, Removed(nodes, p))
  {
    hide Circle, Distinct, Removed, Inserted, Next, Linked, WereLinked, OnlyChanged;
    var c := Circle(head, nodes);
    var c' := Removed(c, p + 1);
    CircleRemoved(head, nodes, p);
    DistinctRemoved(c, p + 1);
    forall i | 0 <= i < |c'| ensures c'[i].next == c'[Succ(|c'|, i)] && c'[Succ(|c'|, i)].prev == c'[i] {
      if i == p {
        SuccAtRemoved(c, p + 1);
      } else {
        var i0, j0 := RemovedPlaces(c, p + 1, i);
        StillLinked(c, before, after, next, prev, i0, j0);
      }
    }
    LinkedIf(c');
  }

  lemma SuccAtRemoved<A>(c: seq<A>, p: nat)
    requires 0 < p < |c|
    ensures Removed(c, p)[p - 1] == c[p - 1] && Removed(c, p)[Succ(|c| - 1, p - 1)] == c[Succ(|c|, p)]
  {
  }

  lemma SuccAtInserted<A>(c: seq<A>, p: nat, x: A)
    requires 0 < p <= |c|
    ensures var r := Inserted(c, p, x); r[p - 1] == c[p - 1] && r[Succ(|r|, p - 1)] == x == r[p] && r[Succ(|r|, p)] == c[Succ(|c|, p - 1)]
  {
  }

  /** Only `before.next` and `after.prev` differ from the links recorded in `next` and `prev`. */
  ghost predicate OnlyChanged<T, V>(c: seq<Node<T, V>>, before: Node<T, V>, after: Node<T, V>, next: seq<Node?<T, V>>, prev: seq<Node?<T, V>>)
    requires |next| == |prev| == |c|
    reads c`next, c`prev
  {
    forall i :: 0 <= i < |c| ==> (c[i] != before ==> c[i].next == next[i]) && (c[i] != after ==> c[i].prev == prev[i])
  }

  lemma StillLinked<T, V>(c: seq<Node<T, V>>, before: Node<T, V>, after: Node<T, V>, next: seq<Node?<T, V>>, prev: seq<Node?<T, V>>, i: nat, j: nat)
    requires WereLinked(c, next, prev) && OnlyChanged(c, before, after, next, prev)
    requires Next(|c|, i, j) && c[i] != before && c[j] != after
    ensures c[i].next == c[j] && c[j].prev == c[i]
  {
  }
}
