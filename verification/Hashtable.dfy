/**
  The hash table of `compat/jansson/hashtable.c`: every pair is on one circular list, and the
  pairs of a bucket are a contiguous stretch of it.
  */
module BucketLayout {
  import opened Bytes
  import opened CircularLists

  /** The fields of a pair that never change; `serial` belongs to the key of an object member. */
  datatype Tag = Tag(key: seq<byte>, serial: nat, hash: nat)

  type Pair<V> = Node<Tag, V>

  /** The first and the last pair of a bucket, or twice the head of the list when it has none. */
  datatype Bucket<!V> = Bucket(first: Pair<V>, last: Pair<V>)

  ghost predicate Tagged<V>(nodes: seq<Pair<V>>) {
    forall i :: 0 <= i < |nodes| ==> nodes[i].tag.Some?
  }

  ghost function Index<V>(node: Pair<V>, size: nat): int
    requires node.tag.Some? && size > 0
  {
    node.tag.value.hash % size
  }

  /** No pair belongs to bucket `b`. */
  ghost predicate NoneIn<V>(nodes: seq<Pair<V>>, size: nat, b: int)
    requires Tagged(nodes) && size > 0
  {
    forall k :: 0 <= k < |nodes| ==> Index(nodes[k], size) != b
  }

  /** The pairs of bucket `b` are exactly those at places `i` to `j`. */
  ghost predicate Stretch<V>(nodes: seq<Pair<V>>, size: nat, b: int, i: int, j: int)
    requires Tagged(nodes) && size > 0
  {
    0 <= i <= j < |nodes| && forall k :: 0 <= k < |nodes| ==> (Index(nodes[k], size) == b <==> i <= k <= j)
  }

  ghost predicate Spans<V>(nodes: seq<Pair<V>>, size: nat, b: int, bucket: Bucket<V>, i: int, j: int)
    requires Tagged(nodes) && size > 0
  {
    Stretch(nodes, size, b, i, j) && bucket.first == nodes[i] && bucket.last == nodes[j]
  }

  /** The first place of bucket `b`, or the end. */
  ghost function FirstIn<V>(nodes: seq<Pair<V>>, size: nat, b: int): (p: nat)
    requires Tagged(nodes) && size > 0
    ensures p <= |nodes|
  {
    if nodes == [] || Index(nodes[0], size) == b then 0 else 1 + FirstIn(nodes[1..], size, b)
  }

  lemma {:induction false} FirstInNone<V>(nodes: seq<Pair<V>>, size: nat, b: int)
    requires Tagged(nodes) && size > 0 && NoneIn(nodes, size, b)
    ensures FirstIn(nodes, size, b) == |nodes|
  {
    hide Index;
    if nodes != [] {
      assert forall k :: 0 <= k < |nodes[1..]| ==> nodes[1..][k] == nodes[k + 1];
      FirstInNone(nodes[1..], size, b);
    }
  }

  lemma {:induction false} FirstInStretch<V>(nodes: seq<Pair<V>>, size: nat, b: int, i: int, j: int)
    requires Tagged(nodes) && size > 0 && Stretch(nodes, size, b, i, j)
    ensures FirstIn(nodes, size, b) == i
  {
    hide Index;
    if i > 0 {
      assert forall k :: 0 <= k < |nodes[1..]| ==> nodes[1..][k] == nodes[k + 1];
      FirstInStretch(nodes[1..], size, b, i - 1, j - 1);
    }
  }

  /** The list after the pairs `nodes` were put in one by one. */
  ghost function LaidPairs<V>(nodes: seq<Pair<V>>, size: nat): (r: seq<Pair<V>>)
    requires Tagged(nodes) && size > 0
    ensures |r| == |nodes| && Tagged(r)
  {
    if nodes == [] then []
    else
      var n := |nodes| - 1;
      var front := LaidPairs(nodes[..n], size);
      TaggedInserted(front, FirstIn(front, size, Index(nodes[n], size)), nodes[n]);
      Inserted(front, FirstIn(front, size, Index(nodes[n], size)), nodes[n])
  }

  /** `bucket` describes the stretch of pairs whose hash modulo `size` is `b`. */
  ghost predicate Describes<V>(bucket: Bucket<V>, nodes: seq<Pair<V>>, size: nat, b: int, head: Pair<V>)
    requires Tagged(nodes) && size > 0
  {
    || (bucket.first == bucket.last == head && NoneIn(nodes, size, b))
    || exists i, j :: Spans(nodes, size, b, bucket, i, j)
  }

  ghost predicate Table<V>(nodes: seq<Pair<V>>, buckets: seq<Bucket<V>>, head: Pair<V>) {
    && |buckets| > 0
    && Tagged(nodes)
    && forall b :: 0 <= b < |buckets| ==> Describes(buckets[b], nodes, |buckets|, b, head)
  }

  // ----- what inserting and removing a pair does to a stretch

  lemma TaggedInserted<V>(nodes: seq<Pair<V>>, p: nat, node: Pair<V>)
    requires Tagged(nodes) && p <= |nodes| && node.tag.Some?
    ensures Tagged(Inserted(nodes, p, node))
  {
  }

  lemma TaggedRemoved<V>(nodes: seq<Pair<V>>, p: nat)
    requires Tagged(nodes) && p < |nodes|
    ensures Tagged(Removed(nodes, p))
  {
  }

  lemma NoneInInserted<V>(nodes: seq<Pair<V>>, size: nat, b: int, p: nat, node: Pair<V>)
    requires Tagged(nodes) && size > 0 && p <= |nodes| && node.tag.Some? && Index(node, size) != b
    requires NoneIn(nodes, size, b)
    ensures Tagged(Inserted(nodes, p, node)) && NoneIn(Inserted(nodes, p, node), size, b)
  {
    hide Index;
  }

  lemma StretchInserted<V>(nodes: seq<Pair<V>>, size: nat, b: int, i: int, j: int, p: nat, node: Pair<V>)
    requires Tagged(nodes) && size > 0 && p <= |nodes| && node.tag.Some? && Index(node, size) != b
    requires Stretch(nodes, size, b, i, j) && (p == |nodes| || Index(nodes[p], size) != b)
    ensures Tagged(Inserted(nodes, p, node))
    ensures var d := if p <= i then 1 else 0; var longer := Inserted(nodes, p, node);
      Stretch(longer, size, b, i + d, j + d) && longer[i + d] == nodes[i] && longer[j + d] == nodes[j]
  {
    hide Index;
    assert p <= i || p > j;
  }

  lemma OwnStretchInserted<V>(nodes: seq<Pair<V>>, size: nat, b: int, i: int, j: int, node: Pair<V>)
    requires Tagged(nodes) && size > 0 && node.tag.Some? && Index(node, size) == b && Stretch(nodes, size, b, i, j)
    ensures Tagged(Inserted(nodes, i, node))
    ensures var longer := Inserted(nodes, i, node); Stretch(longer, size, b, i, j + 1) && longer[i] == node && longer[j + 1] == nodes[j]
  {
    hide Index;
  }

  lemma FirstOfBucketInserted<V>(nodes: seq<Pair<V>>, size: nat, b: int, node: Pair<V>)
    requires Tagged(nodes) && size > 0 && node.tag.Some? && Index(node, size) == b && NoneIn(nodes, size, b)
    ensures var n := |nodes|; var longer := Inserted(nodes, n, node);
      Tagged(longer) && Stretch(longer, size, b, n, n) && longer[n] == node
  {
    hide Index;
  }

  lemma NoneInRemoved<V>(nodes: seq<Pair<V>>, size: nat, b: int, p: nat)
    requires Tagged(nodes) && size > 0 && p < |nodes| && NoneIn(nodes, size, b)
    ensures Tagged(Removed(nodes, p)) && NoneIn(Removed(nodes, p), size, b)
  {
    hide Index;
  }

  lemma StretchRemoved<V>(nodes: seq<Pair<V>>, size: nat, b: int, i: int, j: int, p: nat)
    requires Tagged(nodes) && size > 0 && p < |nodes| && Stretch(nodes, size, b, i, j) && Index(nodes[p], size) != b
    ensures Tagged(Removed(nodes, p))
    ensures var d := if p < i then 1 else 0; var shorter := Removed(nodes, p);
      Stretch(shorter, size, b, i - d, j - d) && shorter[i - d] == nodes[i] && shorter[j - d] == nodes[j]
  {
    hide Index;
    assert p < i || p > j;
  }

  lemma OwnStretchRemoved<V>(nodes: seq<Pair<V>>, size: nat, b: int, i: int, j: int, p: nat)
    requires Tagged(nodes) && size > 0 && i <= p <= j && Stretch(nodes, size, b, i, j)
    ensures Tagged(Removed(nodes, p))
    ensures i == j ==> NoneIn(Removed(nodes, p), size, b)
    ensures i < j ==> var shorter := Removed(nodes, p);
      && Stretch(shorter, size, b, i, j - 1)
      && shorter[i] == (if p == i then nodes[i + 1] else nodes[i])
      && shorter[j - 1] == (if p == j then nodes[j - 1] else nodes[j])
  {
    hide Index;
  }

  // ----- and to the whole table

  /** Where `insert_to_bucket` puts a pair: at the end of the list, or before the first of its bucket. */
  ghost predicate GoesTo<V>(nodes: seq<Pair<V>>, size: nat, b: int, was: Bucket<V>, node: Pair<V>, p: nat, bucket: Bucket<V>)
    requires Tagged(nodes) && size > 0
  {
    || (NoneIn(nodes, size, b) && p == |nodes| && bucket == Bucket(node, node))
    || exists j :: Spans(nodes, size, b, was, p, j) && bucket == Bucket(node, was.last)
  }

  lemma TableInserted<V>(nodes: seq<Pair<V>>, buckets: seq<Bucket<V>>, head: Pair<V>, b: nat, node: Pair<V>, p: nat, bucket: Bucket<V>)
    requires Table(nodes, buckets, head) && b < |buckets| && node.tag.Some? && Index(node, |buckets|) == b
    requires p <= |nodes| && GoesTo(nodes, |buckets|, b, buckets[b], node, p, bucket)
    ensures Table(Inserted(nodes, p, node), buckets[b := bucket], head)
  {
    hide Index, NoneIn, Stretch, Inserted, GoesTo, Describes;
    var size, longer := |buckets|, Inserted(nodes, p, node);
    var buckets' := buckets[b := bucket];
    TaggedInserted(nodes, p, node);
    forall c | 0 <= c < size ensures Describes(buckets'[c], longer, size, c, head) {
      if c == b {
        OwnInserted(nodes, size, b, buckets[b], head, node, p, bucket);
      } else {
        GoesToOwn(nodes, size, b, buckets[b], node, p, bucket);
        OtherInserted(nodes, size, c, buckets[c], head, p, node);
      }
    }
  }

  lemma GoesToOwn<V>(nodes: seq<Pair<V>>, size: nat, b: int, was: Bucket<V>, node: Pair<V>, p: nat, bucket: Bucket<V>)
    requires Tagged(nodes) && size > 0 && p <= |nodes| && GoesTo(nodes, size, b, was, node, p, bucket)
    ensures p == |nodes| || Index(nodes[p], size) == b
  {
    hide Index;
  }

  lemma OwnInserted<V>(nodes: seq<Pair<V>>, size: nat, b: nat, was: Bucket<V>, head: Pair<V>, node: Pair<V>, p: nat, bucket: Bucket<V>)
    requires Tagged(nodes) && size > 0 && node.tag.Some? && Index(node, size) == b
    requires p <= |nodes| && GoesTo(nodes, size, b, was, node, p, bucket)
    ensures Tagged(Inserted(nodes, p, node)) && Describes(bucket, Inserted(nodes, p, node), size, b, head)
  {
    hide Index, NoneIn, Stretch, Inserted;
    if NoneIn(nodes, size, b) && p == |nodes| && bucket == Bucket(node, node) {
      FirstOfBucketInserted(nodes, size, b, node);
      assert Spans(Inserted(nodes, p, node), size, b, bucket, p, p);
    } else {
      var j :| Spans(nodes, size, b, was, p, j) && bucket == Bucket(node, was.last);
      OwnStretchInserted(nodes, size, b, p, j, node);
      assert Spans(Inserted(nodes, p, node), size, b, bucket, p, j + 1);
    }
  }

  lemma StretchAt<V>(nodes: seq<Pair<V>>, size: nat, b: int, i: int, j: int, k: int)
    requires Tagged(nodes) && size > 0 && Stretch(nodes, size, b, i, j) && 0 <= k < |nodes|
    ensures Index(nodes[k], size) == b <==> i <= k <= j
  {
  }

  lemma OtherInserted<V>(nodes: seq<Pair<V>>, size: nat, c: int, bucket: Bucket<V>, head: Pair<V>, p: nat, node: Pair<V>)
    requires Tagged(nodes) && size > 0 && p <= |nodes| && node.tag.Some? && Index(node, size) != c
    requires Describes(bucket, nodes, size, c, head) && (p == |nodes| || Index(nodes[p], size) != c)
    ensures Tagged(Inserted(nodes, p, node)) && Describes(bucket, Inserted(nodes, p, node), size, c, head)
  {
    hide Index, NoneIn, Stretch, Inserted;
    if i, j :| Spans(nodes, size, c, bucket, i, j) {
      StretchInserted(nodes, size, c, i, j, p, node);
      var d := if p <= i then 1 else 0;
      assert Spans(Inserted(nodes, p, node), size, c, bucket, i + d, j + d);
    } else {
      NoneInInserted(nodes, size, c, p, node);
    }
  }

  /** What `hashtable_do_del` makes of the bucket of the pair it removes. */
  ghost function BucketWithout<V>(bucket: Bucket<V>, pair: Pair<V>, before: Pair<V>, after: Pair<V>, head: Pair<V>): Bucket<V> {
    if pair == bucket.first && pair == bucket.last then Bucket(head, head)
    else if pair == bucket.first then Bucket(after, bucket.last)
    else if pair == bucket.last then Bucket(bucket.first, before)
    else bucket
  }

  lemma TableRemoved<V>(nodes: seq<Pair<V>>, buckets: seq<Bucket<V>>, head: Pair<V>, b: nat, p: nat, before: Pair<V>, after: Pair<V>)
    requires Table(nodes, buckets, head) && Distinct(nodes) && b < |buckets| && p < |nodes| && Index(nodes[p], |buckets|) == b
    requires (p > 0 ==> before == nodes[p - 1]) && (p < |nodes| - 1 ==> after == nodes[p + 1])
    ensures Table(Removed(nodes, p), buckets[b := BucketWithout(buckets[b], nodes[p], before, after, head)], head)
  {
    hide Index, NoneIn, Stretch, Removed, Distinct, Describes, BucketWithout;
    var size, shorter := |buckets|, Removed(nodes, p);
    var bucket := BucketWithout(buckets[b], nodes[p], before, after, head);
    var buckets' := buckets[b := bucket];
    TaggedRemoved(nodes, p);
    forall c | 0 <= c < size ensures Describes(buckets'[c], shorter, size, c, head) {
      if c == b {
        OwnRemoved(nodes, size, b, buckets[b], head, p, before, after);
      } else {
        OtherRemoved(nodes, size, c, buckets[c], head, p);
      }
    }
  }

  lemma OwnRemoved<V>(nodes: seq<Pair<V>>, size: nat, b: nat, bucket: Bucket<V>, head: Pair<V>, p: nat, before: Pair<V>, after: Pair<V>)
    requires Tagged(nodes) && size > 0 && p < |nodes| && Distinct(nodes) && Index(nodes[p], size) == b
    requires Describes(bucket, nodes, size, b, head)
    requires (p > 0 ==> before == nodes[p - 1]) && (p < |nodes| - 1 ==> after == nodes[p + 1])
    ensures Tagged(Removed(nodes, p)) && Describes(BucketWithout(bucket, nodes[p], before, after, head), Removed(nodes, p), size, b, head)
  {
    hide Index, Stretch, Removed, Distinct;
    assert !NoneIn(nodes, size, b);
    var i, j :| Spans(nodes, size, b, bucket, i, j);
    StretchAt(nodes, size, b, i, j, p);
    StretchBounds(nodes, size, b, i, j);
    DistinctAt(nodes, i, p);
    DistinctAt(nodes, j, p);
    OwnStretchRemoved(nodes, size, b, i, j, p);
    if i < j {
      assert Spans(Removed(nodes, p), size, b, BucketWithout(bucket, nodes[p], before, after, head), i, j - 1);
    }
  }

  lemma StretchBounds<V>(nodes: seq<Pair<V>>, size: nat, b: int, i: int, j: int)
    requires Tagged(nodes) && size > 0 && Stretch(nodes, size, b, i, j)
    ensures 0 <= i <= j < |nodes|
  {
  }

  lemma OtherRemoved<V>(nodes: seq<Pair<V>>, size: nat, c: int, bucket: Bucket<V>, head: Pair<V>, p: nat)
    requires Tagged(nodes) && size > 0 && p < |nodes| && Index(nodes[p], size) != c && Describes(bucket, nodes, size, c, head)
    ensures Tagged(Removed(nodes, p)) && Describes(bucket, Removed(nodes, p), size, c, head)
  {
    hide Index, NoneIn, Stretch, Removed;
    if i, j :| Spans(nodes, size, c, bucket, i, j) {
      StretchRemoved(nodes, size, c, i, j, p);
      var d := if p < i then 1 else 0;
      assert Spans(Removed(nodes, p), size, c, bucket, i - d, j - d);
    } else {
      NoneInRemoved(nodes, size, c, p);
    }
  }

  lemma EmptyTable<V>(buckets: seq<Bucket<V>>, head: Pair<V>)
    requires |buckets| > 0 && forall b :: 0 <= b < |buckets| ==> buckets[b] == Bucket(head, head)
    ensures Table([], buckets, head)
  {
  }
}

/** Which order a table iterates in, as a function of what was put into it. */
module TableOrder {
  import opened Bytes
  import opened JsonValue
  import opened CircularLists

  ghost predicate SameBucket(hashKey: seq<byte> -> nat, size: nat, a: seq<byte>, b: seq<byte>)
    requires size > 0
  {
    hashKey(a) % size == hashKey(b) % size
  }

  /** Where a new key goes: in front of the first of its bucket, or to the end. */
  ghost function Spot<V>(es: seq<Entry<V>>, hashKey: seq<byte> -> nat, size: nat, key: seq<byte>): (p: nat)
    requires size > 0
    ensures p <= |es|
  {
    if es == [] || SameBucket(hashKey, size, es[0].key, key) then 0 else 1 + Spot(es[1..], hashKey, size, key)
  }

  /** The order after a rehash, which puts in the members one by one. */
  ghost function Laid<V>(es: seq<Entry<V>>, hashKey: seq<byte> -> nat, size: nat): (r: seq<Entry<V>>)
    requires size > 0
    ensures |r| == |es|
  {
    if es == [] then []
    else
      var n := |es| - 1;
      var front := Laid(es[..n], hashKey, size);
      Inserted(front, Spot(front, hashKey, size, es[n].key), es[n])
  }

  /** The order after a key was set. */
  ghost function AfterSet<V>(es: seq<Entry<V>>, hashKey: seq<byte> -> nat, size: nat, key: seq<byte>, serial: nat, value: V): seq<Entry<V>>
    requires size > 0
  {
    var p := PlaceOf(es, key);
    if p < |es| then es[p := es[p].(value := value)] else Inserted(es, Spot(es, hashKey, size, key), Entry(key, serial, value))
  }

  lemma SetThere<V>(es: seq<Entry<V>>, hashKey: seq<byte> -> nat, size: nat, key: seq<byte>, serial: nat, value: V, p: nat)
    requires size > 0 && DistinctKeys(es) && p < |es| && es[p].key == key
    ensures AfterSet(es, hashKey, size, key, serial, value) == es[p := es[p].(value := value)]
  {
  }

  lemma SetNotThere<V>(es: seq<Entry<V>>, hashKey: seq<byte> -> nat, size: nat, key: seq<byte>, serial: nat, value: V)
    requires size > 0 && key !in KeySet(es)
    ensures AfterSet(es, hashKey, size, key, serial, value) == Inserted(es, Spot(es, hashKey, size, key), Entry(key, serial, value))
  {
  }
}

module Hashtables {
  import opened Bytes
  import opened JsonValue
  import opened CircularLists
  import opened BucketLayout
  import opened TableOrder
  import JsonOrder

  const PRIMES: seq<nat> := [
    5, 13, 23, 53, 97, 193, 389, 769, 1543, 3079, 6151, 12289, 24593,
    49157, 98317, 196613, 393241, 786433, 1572869, 3145739, 6291469,
    12582917, 25165843, 50331653, 100663319, 201326611, 402653189,
    805306457, 1610612741
  ]

  lemma PrimesGrow(i: nat)
    requires i + 1 < |PRIMES|
    ensures 0 < PRIMES[i] < PRIMES[i + 1]
  {
  }

  // ----- the list functions

  /** `list_insert`: `node` goes right before `list`. */
  method ListInsert<V>(list: Pair<V>, node: Pair<V>, ghost head: Pair<V>, ghost nodes: seq<Pair<V>>, ghost p: nat)
    requires Ring(head, nodes) && node !in Circle(head, nodes) && p <= |nodes|
    requires list == Circle(head, nodes)[Succ(|nodes| + 1, p)]
    modifies head`next, head`prev, nodes`next, nodes`prev, node`next, node`prev
    ensures Ring(head, Inserted(nodes, p, node))
  {
    hide Circle, Distinct, Removed, Inserted, Next, Linked, Ring, WereLinked;
    ghost var next, prev := Nexts(Circle(head, nodes)), Prevs(Circle(head, nodes));
    RingValues(head, nodes);
    BeforePlace(head, nodes, p);
    ghost var before := list.prev;
    node.next := list;
    node.prev := list.prev;
    list.prev.next := node;
    list.prev := node;
    LinkKeepsRing(node, before, list, head, nodes, p, next, prev);
  }

  lemma BeforePlace<V>(head: Pair<V>, nodes: seq<Pair<V>>, p: nat)
    requires Ring(head, nodes) && p <= |nodes|
    ensures var c := Circle(head, nodes); var list := c[Succ(|c|, p)];
            list.prev == c[p] && c[p] in [head] + nodes && list in [head] + nodes
  {
  }

  /** `list_remove`. */
  method ListRemove<V>(list: Pair<V>, ghost head: Pair<V>, ghost nodes: seq<Pair<V>>, ghost p: nat)
    requires Ring(head, nodes) && p < |nodes| && list == nodes[p]
    modifies head`next, head`prev, nodes`next, nodes`prev
    ensures Ring(head, Removed(nodes, p))
    ensures list.prev == old(list.prev) && list.next == old(list.next)
  {
    hide Circle, Distinct, Removed, Inserted, Next, Linked, Ring, WereLinked;
    ghost var next, prev := Nexts(Circle(head, nodes)), Prevs(Circle(head, nodes));
    RingValues(head, nodes);
    AroundPlace(head, nodes, p);
    var before, after := list.prev, list.next;
    list.prev.next := list.next;
    list.next.prev := list.prev;
    UnlinkKeepsRing(before, after, head, nodes, p, next, prev);
  }

  lemma AroundPlace<V>(head: Pair<V>, nodes: seq<Pair<V>>, p: nat)
    requires Ring(head, nodes) && p < |nodes|
    ensures nodes[p].prev == Circle(head, nodes)[p] && nodes[p].next == Circle(head, nodes)[Succ(|nodes| + 1, p + 1)]
    ensures nodes[p].prev != nodes[p] && nodes[p].next != nodes[p]
    ensures nodes[p].prev in [head] + nodes && nodes[p].next in [head] + nodes
    ensures p > 0 ==> nodes[p].prev == nodes[p - 1]
    ensures nodes[p].next == if p == |nodes| - 1 then head else nodes[p + 1]
  {
    var c := Circle(head, nodes);
    assert Next(|c|, p, p + 1) && c[p + 1] == nodes[p];
    assert Next(|c|, p + 1, Succ(|c|, p + 1));
    assert c[p + 1] != c[p] && c[Succ(|c|, p + 1)] != c[p + 1];
  }

  lemma FirstPlace<V>(head: Pair<V>, nodes: seq<Pair<V>>)
    requires Ring(head, nodes)
    ensures head.next == if nodes == [] then head else nodes[0]
  {
    var c := Circle(head, nodes);
    assert Next(|c|, 0, Succ(|c|, 0));
  }

  predicate BucketIsEmpty<V>(bucket: Bucket<V>, list: Pair<V>) {
    bucket.first == list && bucket.first == bucket.last
  }

  lemma EmptyOrNot<V>(bucket: Bucket<V>, nodes: seq<Pair<V>>, size: nat, b: int, head: Pair<V>)
    requires Tagged(nodes) && size > 0 && Describes(bucket, nodes, size, b, head) && head !in nodes
    ensures BucketIsEmpty(bucket, head) <==> NoneIn(nodes, size, b)
    ensures !BucketIsEmpty(bucket, head) ==> exists i, j :: Spans(nodes, size, b, bucket, i, j)
  {
    hide Index;
    if i, j :| Spans(nodes, size, b, bucket, i, j) {
      assert Index(nodes[i], size) == b;
    }
  }

  /** `insert_to_bucket`; returns the place on the list the pair got. */
  method InsertToBucket<V>(list: Pair<V>, buckets: array<Bucket<V>>, b: nat, node: Pair<V>, ghost nodes: seq<Pair<V>>) returns (ghost p: nat)
    requires Ring(list, nodes) && node !in Circle(list, nodes) && node.tag.Some?
    requires b < buckets.Length && Table(nodes, buckets[..], list) && Index(node, buckets.Length) == b
    modifies list`next, list`prev, nodes`next, nodes`prev, node`next, node`prev, buckets
    ensures p <= |nodes| && Ring(list, Inserted(nodes, p, node)) && Table(Inserted(nodes, p, node), buckets[..], list)
    ensures Tagged(nodes) && p == FirstIn(nodes, buckets.Length, b)
  {
    hide Ring, Circle, Distinct, Inserted, Next, Linked, Describes, Index, NoneIn, Stretch, FirstIn;
    ghost var was := buckets[..];
    var bucket := buckets[b];
    HeadNotInside(list, nodes);
    EmptyOrNot(bucket, nodes, buckets.Length, b, list);
    if BucketIsEmpty(bucket, list) {
      p := |nodes|;
      FirstInNone(nodes, buckets.Length, b);
      EndOfCircle(list, nodes);
      ListInsert(list, node, list, nodes, p);
      buckets[b] := Bucket(node, node);
    } else {
      ghost var i, j :| Spans(nodes, buckets.Length, b, bucket, i, j);
      StretchBounds(nodes, buckets.Length, b, i, j);
      p := i;
      FirstInStretch(nodes, buckets.Length, b, i, j);
      MiddleOfCircle(list, nodes, p);
      ListInsert(bucket.first, node, list, nodes, p);
      buckets[b] := Bucket(node, bucket.last);
    }
    assert buckets[..] == was[b := buckets[b]];
    TableInserted(nodes, was, list, b, node, p, buckets[b]);
  }

  lemma HeadNotInside<V>(head: Pair<V>, nodes: seq<Pair<V>>)
    requires Ring(head, nodes)
    ensures head !in nodes && Distinct(nodes)
  {
    var c := Circle(head, nodes);
    assert forall i :: 0 <= i < |nodes| ==> nodes[i] == c[i + 1] != c[0];
  }

  lemma EndOfCircle<V>(head: Pair<V>, nodes: seq<Pair<V>>)
    ensures Circle(head, nodes)[Succ(|nodes| + 1, |nodes|)] == head
  {
  }

  lemma MiddleOfCircle<V>(head: Pair<V>, nodes: seq<Pair<V>>, p: nat)
    requires p < |nodes|
    ensures Circle(head, nodes)[Succ(|nodes| + 1, p)] == nodes[p]
  {
  }

  // ----- keys

  /** Every pair carries the hash of its key and no two pairs have the same key. */
  ghost predicate Keyed<V>(nodes: seq<Pair<V>>, hashKey: seq<byte> -> nat) {
    && (forall n :: n in nodes ==> n.tag.Some? && n.tag.value.hash == hashKey(n.tag.value.key))
    && forall m, n :: m in nodes && n in nodes && m.tag.value.key == n.tag.value.key ==> m == n
  }

  ghost predicate Filled<V>(nodes: seq<Pair<V>>)
    reads nodes`data
  {
    forall n :: n in nodes ==> n.data.Some?
  }

  /** The finite map the pairs stand for: from a key to its serial and value. */
  ghost function Assoc<V>(nodes: seq<Pair<V>>, hashKey: seq<byte> -> nat): (m: map<seq<byte>, (nat, V)>)
    requires Keyed(nodes, hashKey) && Filled(nodes)
    reads nodes`data
  {
    map n | n in nodes :: n.tag.value.key := (n.tag.value.serial, n.data.value)
  }

  /** The pairs in iteration order. */
  ghost function Members<V>(nodes: seq<Pair<V>>): (es: seq<Entry<V>>)
    requires Tagged(nodes) && Filled(nodes)
    reads nodes`data
    ensures |es| == |nodes|
    ensures forall i :: 0 <= i < |nodes| ==> es[i] == Entry(nodes[i].tag.value.key, nodes[i].tag.value.serial, nodes[i].data.value)
  {
    if nodes == [] then []
    else
      var n := nodes[0];
      assert forall m :: m in nodes[1..] ==> m in nodes;
      [Entry(n.tag.value.key, n.tag.value.serial, n.data.value)] + Members(nodes[1..])
  }

  /** The list starting with the first of `rest`: each node leads to the next and the last to `head`. */
  ghost predicate Chain<V>(rest: seq<Pair<V>>, head: Pair<V>)
    reads rest`next
  {
    && (forall i, j :: 0 <= i < |rest| && 0 <= j < |rest| && j == i + 1 ==> rest[i].next == rest[j])
    && (rest != [] ==> rest[|rest| - 1].next == head)
  }

  ghost function FirstOf<V>(rest: seq<Pair<V>>, head: Pair<V>): Pair<V> {
    if rest == [] then head else rest[0]
  }

  ghost predicate Absent<V>(nodes: seq<Pair<V>>, key: seq<byte>)
    requires Tagged(nodes)
  {
    forall i :: 0 <= i < |nodes| ==> nodes[i].tag.value.key != key
  }

  lemma NotInEmpty<V>(nodes: seq<Pair<V>>, hashKey: seq<byte> -> nat, size: nat, key: seq<byte>)
    requires Tagged(nodes) && Keyed(nodes, hashKey) && size > 0 && NoneIn(nodes, size, hashKey(key) % size)
    ensures Absent(nodes, key)
  {
    forall k | 0 <= k < |nodes| ensures nodes[k].tag.value.key != key {
      assert nodes[k] in nodes;
      assert Index(nodes[k], size) != hashKey(key) % size;
    }
  }

  lemma NotInStretch<V>(nodes: seq<Pair<V>>, hashKey: seq<byte> -> nat, size: nat, key: seq<byte>, i: int, j: int)
    requires Tagged(nodes) && Keyed(nodes, hashKey) && size > 0 && Stretch(nodes, size, hashKey(key) % size, i, j)
    requires NotAmong(nodes, i, j + 1, key)
    ensures Absent(nodes, key)
  {
    forall k | 0 <= k < |nodes| ensures nodes[k].tag.value.key != key {
      assert nodes[k] in nodes;
      StretchAt(nodes, size, hashKey(key) % size, i, j, k);
    }
  }

  /** None of the pairs `i` to `j - 1` has the key. */
  ghost predicate NotAmong<V>(nodes: seq<Pair<V>>, i: int, j: int, key: seq<byte>)
    requires Tagged(nodes)
  {
    0 <= i <= j <= |nodes| && forall k :: i <= k < j ==> nodes[k].tag.value.key != key
  }

  lemma OneMorePassed<V>(nodes: seq<Pair<V>>, i: int, j: int, key: seq<byte>)
    requires Tagged(nodes) && NotAmong(nodes, i, j, key) && j < |nodes| && nodes[j].tag.value.key != key
    ensures NotAmong(nodes, i, j + 1, key)
  {
  }

  lemma NothingPassed<V>(nodes: seq<Pair<V>>, i: int, key: seq<byte>)
    requires Tagged(nodes) && 0 <= i <= |nodes|
    ensures NotAmong(nodes, i, i, key)
  {
  }

  /** `hashtable_find_pair`: walks the list from the first to the last pair of the bucket. */
  method FindPair<V>(list: Pair<V>, bucket: Bucket<V>, key: seq<byte>, hash: nat, ghost nodes: seq<Pair<V>>, ghost size: nat, ghost hashKey: seq<byte> -> nat)
    returns (pair: Node?<Tag, V>, ghost place: nat)
    requires Ring(list, nodes) && Tagged(nodes) && Keyed(nodes, hashKey) && size > 0
    requires hash == hashKey(key) && Describes(bucket, nodes, size, hash % size, list)
    ensures pair == null <==> Absent(nodes, key)
    ensures pair != null ==> place < |nodes| && nodes[place] == pair && pair.tag.value.key == key
  {
    hide Ring, NoneIn, Stretch, Describes, Keyed, Index, NotAmong, Absent, Distinct, Tagged;
    pair, place := null, 0;
    HeadNotInside(list, nodes);
    EmptyOrNot(bucket, nodes, size, hash % size, list);
    if BucketIsEmpty(bucket, list) {
      NotInEmpty(nodes, hashKey, size, key);
      return;
    }
    ghost var i, j :| Spans(nodes, size, hash % size, bucket, i, j);
    StretchBounds(nodes, size, hash % size, i, j);
    var cur: Node<Tag, V> := bucket.first;
    place := i;
    NothingPassed(nodes, i, key);
    while true
      invariant i <= place <= j && cur == nodes[place]
      invariant NotAmong(nodes, i, place, key)
      decreases j - place
    {
      PresentAt(nodes, place);
      KeyedHash(nodes, hashKey, place);
      if cur.tag.value.hash == hash && cur.tag.value.key == key {
        pair := cur;
        return;
      }
      OneMorePassed(nodes, i, place, key);
      if cur == bucket.last {
        break;
      }
      NextAt(list, nodes, place);
      cur := cur.next;
      place := place + 1;
    }
    DistinctAt(nodes, place, j);
    NotInStretch(nodes, hashKey, size, key, i, j);
  }

  lemma KeyedHash<V>(nodes: seq<Pair<V>>, hashKey: seq<byte> -> nat, i: nat)
    requires Tagged(nodes) && Keyed(nodes, hashKey) && i < |nodes|
    ensures nodes[i].tag.value.hash == hashKey(nodes[i].tag.value.key)
  {
    assert nodes[i] in nodes;
  }

  lemma NextAt<V>(head: Pair<V>, nodes: seq<Pair<V>>, p: nat)
    requires Ring(head, nodes) && p < |nodes|
    ensures nodes[p].next == if p == |nodes| - 1 then head else nodes[p + 1]
  {
    hide Ring;
    AroundPlace(head, nodes, p);
  }

  lemma PresentAt<V>(nodes: seq<Pair<V>>, i: nat)
    requires Tagged(nodes) && i < |nodes|
    ensures nodes[i].tag.Some? && !Absent(nodes, nodes[i].tag.value.key)
  {
  }

  // ----- what operations do to the map and to the iteration order

  /** The map depends on which pairs are on the list, not on their order. */
  lemma SamePairsSameMap<V>(nodes: seq<Pair<V>>, others: seq<Pair<V>>, hashKey: seq<byte> -> nat)
    requires Keyed(nodes, hashKey) && Filled(nodes) && multiset(nodes) == multiset(others)
    ensures Keyed(others, hashKey) && Filled(others) && Tagged(others) && Assoc(others, hashKey) == Assoc(nodes, hashKey)
    ensures |others| == |nodes|
  {
    JsonOrder.SameElements(nodes, others);
  }

  lemma InInserted<A>(s: seq<A>, p: nat, x: A)
    requires p <= |s|
    ensures forall y :: y in Inserted(s, p, x) <==> y in s || y == x
  {
    var r := Inserted(s, p, x);
    forall y | y in s ensures y in r {
      var k :| 0 <= k < |s| && s[k] == y;
      assert r[if k < p then k else k + 1] == y;
    }
    assert r[p] == x;
  }

  lemma InRemoved<A>(s: seq<A>, p: nat)
    requires p < |s| && Distinct(s)
    ensures forall y :: y in Removed(s, p) <==> y in s && y != s[p]
  {
    var r := Removed(s, p);
    forall y | y in s && y != s[p] ensures y in r {
      var k :| 0 <= k < |s| && s[k] == y;
      assert r[if k < p then k else k - 1] == y;
    }
  }

  /** A new pair adds its key to the map. */
  lemma MapInserted<V>(nodes: seq<Pair<V>>, hashKey: seq<byte> -> nat, p: nat, node: Pair<V>)
    requires Tagged(nodes) && Keyed(nodes, hashKey) && Filled(nodes) && p <= |nodes|
    requires node.tag.Some? && node.tag.value.hash == hashKey(node.tag.value.key) && node.data.Some? && Absent(nodes, node.tag.value.key)
    ensures var longer := Inserted(nodes, p, node); var Tag(key, serial, _) := node.tag.value;
      && Keyed(longer, hashKey) && Filled(longer) && Tagged(longer)
      && Assoc(longer, hashKey) == Assoc(nodes, hashKey)[key := (serial, node.data.value)]
      && Members(longer) == Inserted(Members(nodes), p, Entry(key, serial, node.data.value))
  {
    InInserted(nodes, p, node);
    TaggedInserted(nodes, p, node);
    AbsentMeans(nodes, node.tag.value.key);
    KeyedWith(nodes, Inserted(nodes, p, node), hashKey, node);
    AssocWith(nodes, Inserted(nodes, p, node), hashKey, node);
    MembersInserted(nodes, p, node);
  }

  lemma AbsentMeans<V>(nodes: seq<Pair<V>>, key: seq<byte>)
    requires Tagged(nodes) && Absent(nodes, key)
    ensures forall n :: n in nodes ==> n.tag.Some? && n.tag.value.key != key
  {
  }

  /** `more` has the pairs of `nodes` and `node`. */
  ghost predicate With<V>(nodes: seq<Pair<V>>, more: seq<Pair<V>>, node: Pair<V>) {
    && node in more
    && (forall n :: n in nodes ==> n in more)
    && forall n :: n in more ==> n in nodes || n == node
  }

  lemma KeyedWith<V>(nodes: seq<Pair<V>>, more: seq<Pair<V>>, hashKey: seq<byte> -> nat, node: Pair<V>)
    requires Keyed(nodes, hashKey) && Filled(nodes) && With(nodes, more, node)
    requires node.tag.Some? && node.tag.value.hash == hashKey(node.tag.value.key) && node.data.Some?
    requires forall n :: n in nodes ==> n.tag.value.key != node.tag.value.key
    ensures Keyed(more, hashKey) && Filled(more)
  {
  }

  lemma AssocWith<V>(nodes: seq<Pair<V>>, more: seq<Pair<V>>, hashKey: seq<byte> -> nat, node: Pair<V>)
    requires Keyed(nodes, hashKey) && Filled(nodes) && Keyed(more, hashKey) && Filled(more) && With(nodes, more, node) && node !in nodes
    ensures node in more && node.tag.Some? && node.data.Some?
    ensures Assoc(more, hashKey) == Assoc(nodes, hashKey)[node.tag.value.key := (node.tag.value.serial, node.data.value)]
  {
    var was, now := Assoc(nodes, hashKey), Assoc(more, hashKey);
    assert node in more;
    var want := was[node.tag.value.key := (node.tag.value.serial, node.data.value)];
    forall key ensures key in now <==> key in want {
      if key in was {
        var n :| n in nodes && n.tag.value.key == key;
        assert n in more;
      }
      if key in now {
        var n :| n in more && n.tag.value.key == key;
        assert n in nodes || n == node;
      }
    }
    forall key | key in now ensures now[key] == want[key] {
      var n :| n in more && n.tag.value.key == key;
      assert n in nodes || n == node;
    }
  }

  lemma MembersInserted<V>(nodes: seq<Pair<V>>, p: nat, node: Pair<V>)
    requires Tagged(nodes) && Filled(nodes) && p <= |nodes| && node.tag.Some? && node.data.Some?
    requires Tagged(Inserted(nodes, p, node)) && Filled(Inserted(nodes, p, node))
    ensures Members(Inserted(nodes, p, node)) == Inserted(Members(nodes), p, Entry(node.tag.value.key, node.tag.value.serial, node.data.value))
  {
    hide Members, Filled, Tagged;
  }

  /** Without a pair its key is gone from the map. */
  lemma MapRemoved<V>(nodes: seq<Pair<V>>, hashKey: seq<byte> -> nat, p: nat)
    requires Tagged(nodes) && Keyed(nodes, hashKey) && Filled(nodes) && Distinct(nodes) && p < |nodes|
    ensures var shorter := Removed(nodes, p);
      && Keyed(shorter, hashKey) && Filled(shorter) && Tagged(shorter)
      && Assoc(shorter, hashKey) == Assoc(nodes, hashKey) - {nodes[p].tag.value.key}
      && Members(shorter) == Removed(Members(nodes), p)
  {
    hide Distinct, Members, Removed, Assoc;
    InRemoved(nodes, p);
    TaggedRemoved(nodes, p);
    KeyedWithout(nodes, Removed(nodes, p), hashKey, nodes[p]);
    AssocWith(Removed(nodes, p), nodes, hashKey, nodes[p]);
    MapMinus(Assoc(Removed(nodes, p), hashKey), Assoc(nodes, hashKey), nodes[p].tag.value.key, (nodes[p].tag.value.serial, nodes[p].data.value));
    MembersRemoved(nodes, p);
  }

  lemma MapMinus<K, T>(less: map<K, T>, more: map<K, T>, k: K, v: T)
    requires more == less[k := v] && k !in less
    ensures less == more - {k}
  {
  }

  lemma KeyedWithout<V>(nodes: seq<Pair<V>>, less: seq<Pair<V>>, hashKey: seq<byte> -> nat, node: Pair<V>)
    requires Keyed(nodes, hashKey) && Filled(nodes) && node in nodes && forall n :: n in less <==> n in nodes && n != node
    ensures Keyed(less, hashKey) && Filled(less) && With(less, nodes, node)
    ensures node.tag.value.key !in Assoc(less, hashKey)
  {
  }

  lemma MembersRemoved<V>(nodes: seq<Pair<V>>, p: nat)
    requires Tagged(nodes) && Filled(nodes) && p < |nodes| && Tagged(Removed(nodes, p)) && Filled(Removed(nodes, p))
    ensures Members(Removed(nodes, p)) == Removed(Members(nodes), p)
  {
    hide Members, Filled, Tagged;
  }

  lemma KeyInMap<V>(nodes: seq<Pair<V>>, hashKey: seq<byte> -> nat, key: seq<byte>)
    requires Tagged(nodes) && Keyed(nodes, hashKey) && Filled(nodes)
    ensures Absent(nodes, key) <==> key !in Assoc(nodes, hashKey)
  {
    if n :| n in nodes && n.tag.value.key == key {
      var i :| 0 <= i < |nodes| && nodes[i] == n;
    }
  }

  lemma NoPairs<V>(nodes: seq<Pair<V>>, hashKey: seq<byte> -> nat)
    requires nodes == []
    ensures Keyed(nodes, hashKey) && Filled(nodes) && Tagged(nodes) && Assoc(nodes, hashKey) == map[] && Members(nodes) == []
  {
  }

  lemma MembersAt<V>(nodes: seq<Pair<V>>, place: nat)
    requires Tagged(nodes) && Filled(nodes) && place < |nodes|
    ensures nodes[place] in nodes && nodes[place].data.Some?
    ensures Members(nodes)[place] == Entry(nodes[place].tag.value.key, nodes[place].tag.value.serial, nodes[place].data.value)
  {
  }

  lemma PairInMap<V>(nodes: seq<Pair<V>>, hashKey: seq<byte> -> nat, place: nat)
    requires Tagged(nodes) && Keyed(nodes, hashKey) && Filled(nodes) && place < |nodes|
    ensures var n := nodes[place]; var m := Assoc(nodes, hashKey);
            n.data.Some? && n.tag.value.key in m && m[n.tag.value.key] == (n.tag.value.serial, n.data.value)
  {
    assert nodes[place] in nodes;
  }

  /** `pair->value = value`: the key keeps its serial. */
  method Overwrite<V>(pair: Pair<V>, value: V, ghost nodes: seq<Pair<V>>, ghost hashKey: seq<byte> -> nat, ghost place: nat) returns (freed: Option<V>)
    requires Tagged(nodes) && Keyed(nodes, hashKey) && Filled(nodes) && Distinct(nodes) && place < |nodes| && nodes[place] == pair
    modifies pair`data
    ensures Filled(nodes)
    ensures var Tag(key, serial, _) := pair.tag.value;
      && key in old(Assoc(nodes, hashKey)) && old(Assoc(nodes, hashKey))[key].0 == serial
      && freed == Some(old(Assoc(nodes, hashKey))[key].1)
      && Assoc(nodes, hashKey) == old(Assoc(nodes, hashKey))[key := (serial, value)]
      && Members(nodes) == old(Members(nodes))[place := Entry(key, serial, value)]
  {
    hide Distinct, Members;
    assert pair in nodes;
    ghost var was := Members(nodes);
    freed := pair.data;
    pair.data := Some(value);
    forall i | 0 <= i < |nodes| ensures Members(nodes)[i] == was[place := Entry(pair.tag.value.key, pair.tag.value.serial, value)][i] {
      DistinctAt(nodes, i, place);
    }
  }

  /** The nodes of `rest` are still to be moved to the new list `done`. */
  ghost predicate ToMove<V>(rest: seq<Pair<V>>, done: seq<Pair<V>>, list: Pair<V>) {
    Distinct(rest) && Tagged(rest) && list !in rest && forall i :: 0 <= i < |rest| ==> rest[i] !in done
  }

  /** The loop of `hashtable_do_rehash`: every node is taken off the old list and put in its new bucket. */
  method Relink<V>(list: Pair<V>, buckets: array<Bucket<V>>, ghost nodes: seq<Pair<V>>) returns (ghost done: seq<Pair<V>>)
    requires Ring(list, nodes) && Tagged(nodes)
    requires buckets.Length > 0 && forall b :: 0 <= b < buckets.Length ==> buckets[b] == Bucket(list, list)
    modifies list`next, list`prev, nodes`next, nodes`prev, buckets
    ensures Ring(list, done) && Table(done, buckets[..], list) && multiset(done) == multiset(nodes)
    ensures done == LaidPairs(nodes, buckets.Length)
  {
    hide Ring, Table, Circle, Describes, ToMove, Chain, Distinct, LaidPairs;
    var cur: Node<Tag, V> := StartRelink(list, nodes);
    EmptyTable(buckets[..], list);
    done := [];
    ghost var rest, n := nodes, 0;
    NothingLaid(nodes, buckets.Length);
    while cur != list
      invariant n + |rest| == |nodes| && rest == nodes[n..] && done == LaidPairs(nodes[..n], buckets.Length)
      invariant Ring(list, done) && Table(done, buckets[..], list)
      invariant Chain(rest, list) && ToMove(rest, done, list) && cur == FirstOf(rest, list)
      invariant rest == [] <==> cur == list
      invariant forall i :: 0 <= i < |rest| ==> rest[i] in nodes
      invariant forall i :: 0 <= i < |done| ==> done[i] in nodes
      invariant multiset(nodes) == multiset(done) + multiset(rest)
      decreases |rest|
    {
      cur, done := RelinkOne(cur, list, buckets, done, rest);
      OneMoreLaid(nodes, n, buckets.Length);
      assert rest == [rest[0]] + rest[1..];
      rest, n := rest[1..], n + 1;
    }
    assert nodes[..n] == nodes;
  }

  lemma NothingLaid<V>(nodes: seq<Pair<V>>, size: nat)
    requires Tagged(nodes) && size > 0
    ensures nodes[0..] == nodes && LaidPairs(nodes[..0], size) == []
  {
  }

  lemma OneMoreLaid<V>(nodes: seq<Pair<V>>, n: nat, size: nat)
    requires Tagged(nodes) && size > 0 && n < |nodes|
    ensures nodes[n..] == [nodes[n]] + nodes[n + 1..] && nodes[n..][1..] == nodes[n + 1..]
    ensures var front := LaidPairs(nodes[..n], size);
      LaidPairs(nodes[..n + 1], size) == Inserted(front, FirstIn(front, size, Index(nodes[n], size)), nodes[n])
  {
    assert nodes[..n + 1][..n] == nodes[..n];
  }

  method RelinkOne<V>(cur: Pair<V>, list: Pair<V>, buckets: array<Bucket<V>>, ghost done: seq<Pair<V>>, ghost rest: seq<Pair<V>>)
    returns (next: Pair<V>, ghost longer: seq<Pair<V>>)
    requires Ring(list, done) && buckets.Length > 0 && Table(done, buckets[..], list)
    requires Chain(rest, list) && ToMove(rest, done, list) && cur == FirstOf(rest, list) && cur != list
    modifies list`next, list`prev, done`next, done`prev, cur`next, cur`prev, buckets
    ensures rest != [] && Chain(rest[1..], list) && ToMove(rest[1..], longer, list) && next == FirstOf(rest[1..], list)
    ensures rest[1..] == [] <==> next == list
    ensures Ring(list, longer) && Table(longer, buckets[..], list)
    ensures multiset(longer) == multiset(done) + multiset{cur}
    ensures Tagged(done) && longer == Inserted(done, FirstIn(done, buckets.Length, Index(rest[0], buckets.Length)), rest[0])
    ensures forall i :: 0 <= i < |longer| ==> longer[i] == cur || longer[i] in done
  {
    hide Ring, Table, Circle, FirstIn, Index;
    ChainStep(rest, list);
    next := cur.next;
    var index := cur.tag.value.hash % buckets.Length;
    IndexIs(cur, buckets.Length);
    NotInCircle(list, done, cur);
    ghost var p := InsertToBucket(list, buckets, index, cur, done);
    longer := Inserted(done, p, cur);
    InInserted(done, p, cur);
    InsertedMultiset(done, p, cur);
  }

  lemma IndexIs<V>(node: Pair<V>, size: nat)
    requires node.tag.Some? && size > 0
    ensures Index(node, size) == node.tag.value.hash % size
  {
  }

  lemma NotInCircle<V>(head: Pair<V>, nodes: seq<Pair<V>>, node: Pair<V>)
    requires node != head && node !in nodes
    ensures node !in Circle(head, nodes)
  {
  }

  lemma ChainStep<V>(rest: seq<Pair<V>>, head: Pair<V>)
    requires Chain(rest, head) && FirstOf(rest, head) != head
    ensures rest != [] && rest[0] == FirstOf(rest, head) && rest[0] in rest
    ensures Chain(rest[1..], head) && rest[0].next == FirstOf(rest[1..], head)
  {
  }

  method StartRelink<V>(list: Pair<V>, ghost nodes: seq<Pair<V>>) returns (cur: Pair<V>)
    requires Ring(list, nodes)
    modifies list`next, list`prev
    ensures cur == FirstOf(nodes, list) && Chain(nodes, list) && Ring(list, [])
    ensures nodes == [] <==> cur == list
    ensures Tagged(nodes) ==> ToMove(nodes, [], list)
  {
    HeadNotInside(list, nodes);
    FirstPlace(list, nodes);
    RingIsChain(list, nodes);
    hide Ring, Distinct, Circle, Next;
    cur := list.next;
    list.next := list;
    list.prev := list;
    EmptyRing(list);
  }

  lemma EmptyRing<V>(list: Pair<V>)
    requires list.next == list && list.prev == list
    ensures Ring(list, [])
  {
  }

  lemma RingIsChain<V>(list: Pair<V>, nodes: seq<Pair<V>>)
    requires Ring(list, nodes)
    ensures Chain(nodes, list)
  {
    forall i | 0 <= i < |nodes| ensures nodes[i].next == if i == |nodes| - 1 then list else nodes[i + 1] {
      AroundPlace(list, nodes, i);
    }
  }

  lemma TableParts<V>(nodes: seq<Pair<V>>, buckets: seq<Bucket<V>>, head: Pair<V>)
    requires Table(nodes, buckets, head)
    ensures Tagged(nodes) && |buckets| > 0
    ensures forall b :: 0 <= b < |buckets| ==> Describes(buckets[b], nodes, |buckets|, b, head)
  {
  }

  /** The number of buckets is the current prime, and there are at least as many buckets as pairs. */
  ghost predicate Sized(numBuckets: nat, length: nat, size: nat) {
    numBuckets < |PRIMES| && length == PRIMES[numBuckets] && size <= length
  }

  lemma SizedChange(numBuckets: nat, length: nat, size: nat, size': nat)
    requires Sized(numBuckets, length, size) && size' <= length
    ensures Sized(numBuckets, length, size')
  {
  }

  lemma SizedBound(numBuckets: nat, length: nat, size: nat)
    requires Sized(numBuckets, length, size)
    ensures size <= length && numBuckets < |PRIMES|
  {
  }

  lemma SizedGrow(numBuckets: nat, length: nat, size: nat)
    requires Sized(numBuckets, length, size) && numBuckets + 1 < |PRIMES|
    ensures 0 < length < PRIMES[numBuckets + 1] && Sized(numBuckets + 1, PRIMES[numBuckets + 1], size)
  {
    PrimesGrow(numBuckets);
  }

  /** A new pair in its bucket. */
  method NewPair<V>(list: Pair<V>, buckets: array<Bucket<V>>, tag: Tag, value: V, ghost nodes: seq<Pair<V>>) returns (node: Pair<V>, ghost place: nat)
    requires Ring(list, nodes) && buckets.Length > 0 && Table(nodes, buckets[..], list)
    modifies list`next, list`prev, nodes`next, nodes`prev, buckets
    ensures fresh(node) && node.tag == Some(tag) && node.data == Some(value)
    ensures place <= |nodes| && Ring(list, Inserted(nodes, place, node)) && Table(Inserted(nodes, place, node), buckets[..], list)
    ensures Tagged(nodes) && place == FirstIn(nodes, buckets.Length, tag.hash % buckets.Length)
  {
    hide Ring, Table;
    var index := tag.hash % buckets.Length;
    node := new Node.Item(tag, value);
    IndexIs(node, buckets.Length);
    NotInCircle(list, nodes, node);
    place := InsertToBucket(list, buckets, index, node, nodes);
  }

  lemma {:induction false} FirstInSpot<V>(nodes: seq<Pair<V>>, hashKey: seq<byte> -> nat, size: nat, key: seq<byte>)
    requires Tagged(nodes) && Keyed(nodes, hashKey) && Filled(nodes) && size > 0
    ensures FirstIn(nodes, size, hashKey(key) % size) == Spot(Members(nodes), hashKey, size, key)
  {
    if nodes != [] {
      assert nodes[0] in nodes && forall n :: n in nodes[1..] ==> n in nodes;
      assert Members(nodes)[1..] == Members(nodes[1..]);
      KeyedHash(nodes, hashKey, 0);
      FirstInSpot(nodes[1..], hashKey, size, key);
    }
  }

  lemma {:induction false} SamePairsLaid<V>(nodes: seq<Pair<V>>, size: nat)
    requires Tagged(nodes) && size > 0
    ensures forall n :: n in LaidPairs(nodes, size) ==> n in nodes
  {
    hide FirstIn, Index;
    if nodes != [] {
      var n := |nodes| - 1;
      var front := LaidPairs(nodes[..n], size);
      SamePairsLaid(nodes[..n], size);
      InInserted(front, FirstIn(front, size, Index(nodes[n], size)), nodes[n]);
    }
  }

  /** A rehash lays the pairs out as `Laid` says. */
  lemma {:induction false} LaidMembers<V>(nodes: seq<Pair<V>>, hashKey: seq<byte> -> nat, size: nat)
    requires Tagged(nodes) && Keyed(nodes, hashKey) && Filled(nodes) && size > 0
    ensures Keyed(LaidPairs(nodes, size), hashKey) && Filled(LaidPairs(nodes, size))
    ensures Members(LaidPairs(nodes, size)) == Laid(Members(nodes), hashKey, size)
  {
    hide Members, Spot, FirstIn, Keyed, Filled, Index, Inserted;
    SamePairsLaid(nodes, size);
    FewerPairs(nodes, LaidPairs(nodes, size), hashKey);
    if nodes == [] {
      NoPairs(nodes, hashKey);
    } else {
      var n := |nodes| - 1;
      assert forall m :: m in nodes[..n] ==> m in nodes;
      FewerPairs(nodes, nodes[..n], hashKey);
      LaidMembers(nodes[..n], hashKey, size);
      MembersInit(nodes);
      LaidStep(nodes, n, LaidPairs(nodes[..n], size), hashKey, size);
    }
  }

  lemma FewerPairs<V>(nodes: seq<Pair<V>>, some: seq<Pair<V>>, hashKey: seq<byte> -> nat)
    requires Keyed(nodes, hashKey) && Filled(nodes) && forall n :: n in some ==> n in nodes
    ensures Keyed(some, hashKey) && Filled(some) && Tagged(some)
  {
  }

  lemma LaidStep<V>(nodes: seq<Pair<V>>, n: nat, front: seq<Pair<V>>, hashKey: seq<byte> -> nat, size: nat)
    requires Tagged(nodes) && Keyed(nodes, hashKey) && Filled(nodes) && n < |nodes| && size > 0
    requires Tagged(front) && Keyed(front, hashKey) && Filled(front)
    requires Filled(Inserted(front, FirstIn(front, size, Index(nodes[n], size)), nodes[n]))
    ensures var node, es := nodes[n], Members(front);
      && node.data.Some? && Tagged(Inserted(front, FirstIn(front, size, Index(node, size)), node))
      && Members(Inserted(front, FirstIn(front, size, Index(node, size)), node))
         == Inserted(es, Spot(es, hashKey, size, node.tag.value.key), Entry(node.tag.value.key, node.tag.value.serial, node.data.value))
  {
    hide Members, Spot, FirstIn, Inserted;
    var node := nodes[n];
    assert node in nodes;
    KeyedHash(nodes, hashKey, n);
    FirstInSpot(front, hashKey, size, node.tag.value.key);
    TaggedInserted(front, FirstIn(front, size, Index(node, size)), node);
    MembersInserted(front, FirstIn(front, size, Index(node, size)), node);
  }

  lemma MembersInit<V>(nodes: seq<Pair<V>>)
    requires Tagged(nodes) && Filled(nodes) && nodes != []
    ensures var n := |nodes| - 1;
      && nodes[n] in nodes && Filled(nodes[..n]) && |Members(nodes)| == n + 1 && Members(nodes)[..n] == Members(nodes[..n])
      && Members(nodes)[n] == Entry(nodes[n].tag.value.key, nodes[n].tag.value.serial, nodes[n].data.value)
  {
    assert forall m :: m in nodes[..|nodes| - 1] ==> m in nodes;
  }

  /** The same with what it means for the map and for iteration. */
  method InsertPair<V>(list: Pair<V>, buckets: array<Bucket<V>>, tag: Tag, value: V, ghost nodes: seq<Pair<V>>, ghost hashKey: seq<byte> -> nat)
    returns (node: Pair<V>, ghost place: nat)
    requires Ring(list, nodes) && buckets.Length > 0 && Table(nodes, buckets[..], list) && Keyed(nodes, hashKey) && Filled(nodes)
    requires Tagged(nodes) && Absent(nodes, tag.key) && tag.hash == hashKey(tag.key)
    modifies list`next, list`prev, nodes`next, nodes`prev, buckets
    ensures fresh(node) && place <= |nodes| && place == Spot(old(Members(nodes)), hashKey, buckets.Length, tag.key)
    ensures var longer := Inserted(nodes, place, node);
      && Ring(list, longer) && Table(longer, buckets[..], list) && Keyed(longer, hashKey) && Filled(longer) && Tagged(longer)
      && Assoc(longer, hashKey) == old(Assoc(nodes, hashKey))[tag.key := (tag.serial, value)]
      && Members(longer) == Inserted(old(Members(nodes)), place, Entry(tag.key, tag.serial, value))
  {
    hide Ring, Table, Keyed, Filled, Assoc, Absent, Members, Inserted;
    ghost var map0, entries0 := Assoc(nodes, hashKey), Members(nodes);
    node, place := NewPair(list, buckets, tag, value, nodes);
    assert Assoc(nodes, hashKey) == map0 && Members(nodes) == entries0;
    FirstInSpot(nodes, hashKey, buckets.Length, tag.key);
    MapInserted(nodes, hashKey, place, node);
  }

  /** `hashtable_do_del` on a pair it has found. */
  method TakePair<V>(list: Pair<V>, buckets: array<Bucket<V>>, pair: Pair<V>, ghost nodes: seq<Pair<V>>, ghost hashKey: seq<byte> -> nat, ghost place: nat)
    requires Ring(list, nodes) && buckets.Length > 0 && Table(nodes, buckets[..], list) && Keyed(nodes, hashKey) && Filled(nodes)
    requires Tagged(nodes) && place < |nodes| && nodes[place] == pair && pair.tag.Some?
    modifies list`next, list`prev, nodes`next, nodes`prev, buckets
    ensures var shorter := Removed(nodes, place);
      && Ring(list, shorter) && Table(shorter, buckets[..], list) && Keyed(shorter, hashKey) && Filled(shorter) && Tagged(shorter)
      && Assoc(shorter, hashKey) == old(Assoc(nodes, hashKey)) - {pair.tag.value.key}
      && Members(shorter) == Removed(old(Members(nodes)), place)
  {
    hide Ring, Table, Keyed, Filled, Assoc, Members, Removed;
    ghost var map0, entries0 := Assoc(nodes, hashKey), Members(nodes);
    DropFromBucket(list, buckets, pair, nodes, place);
    HeadNotInside(list, nodes);
    ListRemove(pair, list, nodes, place);
    assert Assoc(nodes, hashKey) == map0 && Members(nodes) == entries0;
    MapRemoved(nodes, hashKey, place);
  }

  /** `hashtable_do_rehash` with `size` new buckets. */
  method Rebuild<V>(list: Pair<V>, size: nat, ghost nodes: seq<Pair<V>>, ghost hashKey: seq<byte> -> nat)
    returns (buckets: array<Bucket<V>>, ghost done: seq<Pair<V>>)
    requires Ring(list, nodes) && Tagged(nodes) && Keyed(nodes, hashKey) && Filled(nodes) && size > 0
    modifies list`next, list`prev, nodes`next, nodes`prev
    ensures fresh(buckets) && buckets.Length == size
    ensures Ring(list, done) && Tagged(done) && Table(done, buckets[..], list) && Keyed(done, hashKey) && Filled(done)
    ensures Assoc(done, hashKey) == old(Assoc(nodes, hashKey)) && multiset(done) == multiset(nodes) && |done| == |nodes|
    ensures forall i :: 0 <= i < |done| ==> done[i] in nodes
    ensures Members(done) == Laid(old(Members(nodes)), hashKey, size)
  {
    hide Ring, Table, Keyed, Filled, Assoc, Members, Laid, LaidPairs;
    ghost var map0, entries0 := Assoc(nodes, hashKey), Members(nodes);
    buckets := new Bucket<V>[size](_ => Bucket(list, list));
    done := Relink(list, buckets, nodes);
    assert Assoc(nodes, hashKey) == map0 && Members(nodes) == entries0;
    LaidMembers(nodes, hashKey, size);
    SamePairsSameMap(nodes, done, hashKey);
    JsonOrder.SameElements(nodes, done);
    TableParts(done, buckets[..], list);
  }

  /** The bucket part of `hashtable_do_del`. */
  method DropFromBucket<V>(list: Pair<V>, buckets: array<Bucket<V>>, pair: Pair<V>, ghost nodes: seq<Pair<V>>, ghost place: nat)
    requires Ring(list, nodes) && Table(nodes, buckets[..], list) && place < |nodes| && nodes[place] == pair && pair.tag.Some? && buckets.Length > 0
    modifies buckets
    ensures Table(Removed(nodes, place), buckets[..], list)
  {
    hide Ring, Table, Distinct, Describes, Index;
    ghost var was := buckets[..];
    var index := pair.tag.value.hash % buckets.Length;
    IndexIs(pair, buckets.Length);
    HeadNotInside(list, nodes);
    AroundPlace(list, nodes, place);
    var bucket := buckets[index];
    if pair == bucket.first && pair == bucket.last {
      buckets[index] := Bucket(list, list);
    } else if pair == bucket.first {
      buckets[index] := Bucket(pair.next, bucket.last);
    } else if pair == bucket.last {
      buckets[index] := Bucket(bucket.first, pair.prev);
    }
    assert buckets[..] == was[index := BucketWithout(bucket, pair, pair.prev, pair.next, list)];
    TableRemoved(nodes, was, list, index, place, pair.prev, pair.next);
  }

  /** `hashtable_do_clear`: the values handed to `free_value`, in order. */
  method DoClear<V>(list: Pair<V>, ghost nodes: seq<Pair<V>>) returns (freed: seq<V>)
    requires Ring(list, nodes) && Filled(nodes)
    ensures |freed| == |nodes| && forall i :: 0 <= i < |nodes| ==> nodes[i].data == Some(freed[i])
  {
    hide Ring, Distinct;
    HeadNotInside(list, nodes);
    FirstPlace(list, nodes);
    freed := [];
    var cur: Node<Tag, V> := list.next;
    while cur != list
      invariant |freed| <= |nodes|
      invariant cur == if |freed| == |nodes| then list else nodes[|freed|]
      invariant forall i :: 0 <= i < |freed| ==> nodes[i].data == Some(freed[i])
      decreases |nodes| - |freed|
    {
      AroundPlace(list, nodes, |freed|);
      assert cur in nodes;
      var next: Node<Tag, V> := cur.next;
      freed := freed + [cur.data.value];
      cur := next;
    }
    assert forall i :: 0 <= i < |nodes| ==> nodes[i] != list;
  }

  /** Every bucket becomes empty. */
  method EmptyBuckets<V>(buckets: array<Bucket<V>>, list: Pair<V>)
    requires buckets.Length > 0
    modifies buckets
    ensures Table([], buckets[..], list)
  {
    var i := 0;
    while i < buckets.Length
      invariant 0 <= i <= buckets.Length
      invariant forall b :: 0 <= b < i ==> buckets[b] == Bucket(list, list)
    {
      buckets[i] := Bucket(list, list);
      i := i + 1;
    }
    EmptyTable(buckets[..], list);
  }

  class Hashtable<V> {
    var size: nat
    var buckets: array<Bucket<V>>
    /** An index into `PRIMES`. */
    var numBuckets: nat
    const list: Pair<V>
    const hashKey: seq<byte> -> nat
    ghost var nodes: seq<Pair<V>>

    ghost predicate Valid()
      reads this, buckets, list, nodes
    {
      && size == |nodes|
      && Sized(numBuckets, buckets.Length, size)
      && Ring(list, nodes)
      && Table(nodes, buckets[..], list)
      && Keyed(nodes, hashKey)
      && Filled(nodes)
    }

    /** The finite map this table implements. */
    ghost function Map(): map<seq<byte>, (nat, V)>
      requires Valid()
      reads this, buckets, list, nodes
    {
      Assoc(nodes, hashKey)
    }

    /** What iteration yields, in order. */
    ghost function Entries(): seq<Entry<V>>
      requires Valid()
      reads this, buckets, list, nodes
    {
      Members(nodes)
    }

    lemma Parts()
      requires Valid()
      ensures size == |nodes| && Sized(numBuckets, buckets.Length, size) && buckets.Length > 0
      ensures Ring(list, nodes) && Table(nodes, buckets[..], list) && Tagged(nodes) && Keyed(nodes, hashKey) && Filled(nodes)
      ensures Map() == Assoc(nodes, hashKey) && Entries() == Members(nodes)
    {
      hide Ring, Table, Keyed, Filled, Assoc, Members, Sized;
      TableParts(nodes, buckets[..], list);
    }

    lemma Room()
      requires Valid()
      ensures numBuckets < |PRIMES| && size <= buckets.Length && buckets.Length > 0
    {
      hide Ring, Table, Keyed, Filled;
    }

    lemma FromParts()
      requires size == |nodes| && Sized(numBuckets, buckets.Length, size)
      requires Ring(list, nodes) && Table(nodes, buckets[..], list) && Tagged(nodes) && Keyed(nodes, hashKey) && Filled(nodes)
      ensures Valid() && Map() == Assoc(nodes, hashKey) && Entries() == Members(nodes)
    {
      hide Ring, Table, Keyed, Filled, Assoc, Members, Sized;
    }

    /** `hashtable_init`. */
    constructor (hashKey: seq<byte> -> nat)
      ensures Valid() && Map() == map[] && Entries() == [] && this.hashKey == hashKey
      ensures numBuckets == 0 && size == 0 && buckets.Length == PRIMES[0]
      ensures fresh(buckets) && fresh(list) && nodes == []
    {
      this.hashKey := hashKey;
      size := 0;
      numBuckets := 0;
      var head := new Node.Head();
      list := head;
      buckets := new Bucket<V>[PRIMES[0]](_ => Bucket(head, head));
      nodes := [];
      new;
      EmptyTable(buckets[..], list);
    }

    /** `hashtable_do_rehash`. */
    method DoRehash()
      requires Valid() && numBuckets + 1 < |PRIMES|
      modifies this, list, nodes
      ensures Valid() && fresh(buckets) && numBuckets == old(numBuckets) + 1 && size < buckets.Length
      ensures size == old(size) && Map() == old(Map()) && multiset(nodes) == multiset(old(nodes))
      ensures buckets.Length == PRIMES[numBuckets] && Entries() == Laid(old(Entries()), hashKey, buckets.Length)
      ensures forall i :: 0 <= i < |nodes| ==> nodes[i] in old(nodes)
    {
      hide Valid, Map, Entries, Ring, Table, Keyed, Filled, Assoc, Sized, Members;
      Parts();
      SizedBound(numBuckets, buckets.Length, size);
      SizedGrow(numBuckets, buckets.Length, size);
      numBuckets := numBuckets + 1;
      buckets, nodes := Rebuild(list, PRIMES[numBuckets], nodes, hashKey);
      FromParts();
    }

    /** The lookup that starts `hashtable_get`, `hashtable_set`, `hashtable_iter_at` and `hashtable_do_del`. */
    method Find(key: seq<byte>) returns (pair: Node?<Tag, V>, ghost place: nat)
      requires Valid()
      ensures Tagged(nodes)
      ensures pair == null <==> key !in Map()
      ensures pair == null <==> Absent(nodes, key)
      ensures pair != null ==> place < |nodes| && nodes[place] == pair && pair.tag.value.key == key
      ensures pair != null ==> pair.data.Some? && Map()[key] == (pair.tag.value.serial, pair.data.value)
    {
      hide Ring, Table, Keyed, Filled, Assoc, Absent, Describes;
      var hash := hashKey(key);
      TableParts(nodes, buckets[..], list);
      var bucket := buckets[hash % buckets.Length];
      pair, place := FindPair(list, bucket, key, hash, nodes, buckets.Length, hashKey);
      KeyInMap(nodes, hashKey, key);
      if pair != null {
        PairInMap(nodes, hashKey, place);
      }
    }

    /** `hashtable_get`; `None` stands for the null pointer. */
    method Get(key: seq<byte>) returns (value: Option<V>)
      requires Valid()
      ensures value == if key in Map() then Some(Map()[key].1) else None
    {
      hide Ring, Table, Keyed, Filled, Assoc, Absent;
      var pair, place := Find(key);
      value := if pair == null then None else pair.data;
    }

    /** `hashtable_set`; `freed` is the value handed to `free_value`. An overwritten pair keeps its old key. */
    method Set(key: seq<byte>, serial: nat, value: V) returns (freed: Option<V>)
      requires Valid()
      requires size < buckets.Length || numBuckets + 1 < |PRIMES|
      modifies this, buckets, list, nodes
      ensures Valid()
      ensures fresh(buckets) || buckets == old(buckets)
      ensures forall i :: 0 <= i < |nodes| ==> nodes[i] in old(nodes) || fresh(nodes[i])
      ensures freed == if key in old(Map()) then Some(old(Map())[key].1) else None
      ensures size <= old(size) + 1
      ensures Map() == old(Map())[key := (if key in old(Map()) then old(Map())[key].0 else serial, value)]
      ensures buckets.Length > 0 && buckets.Length == if old(size < buckets.Length) then old(buckets.Length) else PRIMES[old(numBuckets) + 1]
      ensures key in old(Map()) ==> multiset(nodes) == multiset(old(nodes)) && (old(size < buckets.Length) ==> nodes == old(nodes))
      ensures key in old(Map()) ==> size == old(size)
      ensures old(size) < buckets.Length
      ensures var es := if old(size < buckets.Length) then old(Entries()) else Laid(old(Entries()), hashKey, buckets.Length);
        Entries() == AfterSet(es, hashKey, buckets.Length, key, serial, value)
    {
      hide Valid, Map, Entries, Absent, Laid, AfterSet, DistinctKeys, KeySet, Inserted;
      Room();
      if size >= buckets.Length {
        DoRehash();
      }
      KeysAreMap();
      ghost var es := Entries();
      var pair, place := Find(key);
      if pair != null {
        freed := Replace(pair, value, place);
        SetThere(es, hashKey, buckets.Length, key, serial, value, place);
      } else {
        freed := None;
        SetNotThere(es, hashKey, buckets.Length, key, serial, value);
        place := AddPair(key, serial, value);
      }
    }

    /** The first branch of `hashtable_set`: `pair->value = value`. */
    method Replace(pair: Node<Tag, V>, value: V, ghost place: nat) returns (freed: Option<V>)
      requires Valid() && place < |nodes| && nodes[place] == pair && pair.tag.Some?
      modifies nodes`data
      ensures Valid()
      ensures var key := pair.tag.value.key;
        && key in old(Map()) && freed == Some(old(Map())[key].1)
        && place < |old(Entries())| && old(Entries())[place].key == key
        && Entries() == old(Entries())[place := old(Entries())[place].(value := value)]
        && Map() == old(Map())[key := (old(Map())[key].0, value)]
    {
      hide Ring, Table, Keyed, Filled, Assoc, Absent, Distinct, Members, Sized;
      TableParts(nodes, buckets[..], list);
      HeadNotInside(list, nodes);
      freed := Overwrite(pair, value, nodes, hashKey, place);
    }

    /** The second branch of `hashtable_set`. */
    method AddPair(key: seq<byte>, serial: nat, value: V) returns (ghost place: nat)
      requires Valid() && size < buckets.Length && Tagged(nodes) && Absent(nodes, key)
      modifies this`size, this`nodes, buckets, list, nodes
      ensures Valid() && size == old(size) + 1 && Map() == old(Map())[key := (serial, value)]
      ensures forall i :: 0 <= i < |nodes| ==> nodes[i] in old(nodes) || fresh(nodes[i])
      ensures buckets.Length > 0 && place == Spot(old(Entries()), hashKey, buckets.Length, key)
      ensures Entries() == Inserted(old(Entries()), place, Entry(key, serial, value))
    {
      hide Valid, Map, Entries, Ring, Table, Keyed, Filled, Assoc, Absent, Members, Sized, Tagged, Spot;
      Parts();
      var node;
      node, place := InsertPair(list, buckets, Tag(key, serial, hashKey(key)), value, nodes, hashKey);
      InInserted(nodes, place, node);
      nodes := Inserted(nodes, place, node);
      SizedChange(numBuckets, buckets.Length, size, size + 1);
      size := size + 1;
      FromParts();
    }

    /** `hashtable_del`; `freed` is the value handed to `free_value`, `None` when there is no such key. */
    method Del(key: seq<byte>) returns (freed: Option<V>, ghost place: nat)
      requires Valid()
      modifies this`size, this`nodes, buckets, list, nodes
      ensures Valid()
      ensures forall i :: 0 <= i < |nodes| ==> nodes[i] in old(nodes)
      ensures freed == if key in old(Map()) then Some(old(Map())[key].1) else None
      ensures size <= old(size)
      ensures Map() == old(Map()) - {key}
      ensures freed.Some? ==> place < |old(Entries())| && old(Entries())[place].key == key && Entries() == Removed(old(Entries()), place)
      ensures freed.None? ==> Entries() == old(Entries())
    {
      hide Ring, Table, Keyed, Filled, Assoc, Absent, Distinct, Members, Sized;
      var pair;
      pair, place := Find(key);
      if pair == null {
        freed := None;
        return;
      }
      freed := pair.data;
      RemovePair(pair, place);
    }

    method RemovePair(pair: Node<Tag, V>, ghost place: nat)
      requires Valid() && place < |nodes| && nodes[place] == pair && pair.tag.Some?
      modifies this`size, this`nodes, buckets, list, nodes
      ensures Valid() && size < old(size)
      ensures forall i :: 0 <= i < |nodes| ==> nodes[i] in old(nodes)
      ensures Map() == old(Map()) - {pair.tag.value.key}
      ensures Entries() == Removed(old(Entries()), place)
    {
      hide Valid, Map, Entries, Ring, Table, Keyed, Filled, Assoc, Members, Sized;
      Parts();
      TakePair(list, buckets, pair, nodes, hashKey, place);
      nodes := Removed(nodes, place);
      SizedBound(numBuckets, buckets.Length, size);
      SizedChange(numBuckets, buckets.Length, size, size - 1);
      size := size - 1;
      FromParts();
    }

    /** `hashtable_clear`; the bucket count stays. */
    method Clear() returns (freed: seq<V>)
      requires Valid()
      modifies this`size, this`nodes, buckets, list
      ensures Valid() && size == 0 && nodes == [] && Map() == map[] && Entries() == []
      ensures |freed| == |old(Entries())| && forall i :: 0 <= i < |freed| ==> freed[i] == old(Entries())[i].value
    {
      hide Ring, Table, Filled, Sized;
      TableParts(nodes, buckets[..], list);
      freed := DoClear(list, nodes);
      EmptyBuckets(buckets, list);
      list.next := list;
      list.prev := list;
      EmptyRing(list);
      SizedBound(numBuckets, buckets.Length, size);
      SizedChange(numBuckets, buckets.Length, size, 0);
      size := 0;
      nodes := [];
      NoPairs(nodes, hashKey);
    }

    /** `hashtable_iter`: the first pair. */
    method Iter() returns (iter: Node?<Tag, V>)
      requires Valid()
      ensures iter == if nodes == [] then null else nodes[0]
    {
      hide Ring, Table, Keyed, Filled, Sized;
      HeadNotInside(list, nodes);
      FirstPlace(list, nodes);
      iter := if list.next == list then null else list.next;
    }

    /** `hashtable_iter_next`: from the pair at a place to the pair at the next one. */
    method IterNext(iter: Node<Tag, V>, ghost place: nat) returns (next: Node?<Tag, V>)
      requires Valid() && place < |nodes| && iter == nodes[place]
      ensures next == if place + 1 == |nodes| then null else nodes[place + 1]
    {
      hide Ring, Table, Keyed, Filled, Sized, Distinct;
      HeadNotInside(list, nodes);
      AroundPlace(list, nodes, place);
      next := if iter.next == list then null else iter.next;
    }

    /** `hashtable_iter_at`: where iteration meets a key. */
    method IterAt(key: seq<byte>) returns (iter: Node?<Tag, V>, ghost place: nat)
      requires Valid()
      ensures iter == null <==> key !in Map()
      ensures iter != null ==> place < |nodes| && iter == nodes[place] && Entries()[place].key == key
    {
      iter, place := Find(key);
    }

    /** `hashtable_iter_set`. */
    method IterSet(iter: Node<Tag, V>, value: V, ghost place: nat) returns (freed: Option<V>)
      requires Valid() && place < |nodes| && iter == nodes[place]
      modifies nodes`data
      ensures Valid() && freed == Some(old(Entries())[place].value)
      ensures Entries() == old(Entries())[place := old(Entries())[place].(value := value)]
      ensures var e := old(Entries())[place]; Map() == old(Map())[e.key := (e.serial, value)]
    {
      hide Ring, Table, Keyed, Filled, Assoc, Distinct, Members, Sized;
      TableParts(nodes, buckets[..], list);
      HeadNotInside(list, nodes);
      MembersAt(nodes, place);
      PairInMap(nodes, hashKey, place);
      freed := Overwrite(iter, value, nodes, hashKey, place);
    }

    lemma EntriesSize()
      requires Valid()
      ensures |Entries()| == |nodes| == size
    {
    }

    /** What the pair at a place of the iteration holds. */
    lemma EntryAt(place: nat)
      requires Valid() && place < |nodes|
      ensures |Entries()| == |nodes| && nodes[place].tag.Some? && nodes[place].data.Some?
      ensures Entries()[place] == Entry(nodes[place].tag.value.key, nodes[place].tag.value.serial, nodes[place].data.value)
    {
      hide Ring;
      assert nodes[place] in nodes;
    }

    lemma RoomLeft()
      requires Valid()
      ensures size < PRIMES[|PRIMES| - 1] ==> size < buckets.Length || numBuckets + 1 < |PRIMES|
    {
    }

    /** `size` counts the live keys, however many operations there were. */
    lemma SizeIsMap()
      requires Valid()
      ensures size == |Map()|
    {
      EntriesAreMap();
      EntriesSize();
      KeySetSize(Entries());
      hide Valid, Map, Entries;
      assert |Map().Keys| == |Map()|;
    }

    lemma KeysAreMap()
      requires Valid()
      ensures DistinctKeys(Entries()) && KeySet(Entries()) == Map().Keys
    {
      EntriesAreMap();
    }

    /** Iteration meets every member of the map once, and nothing else. */
    lemma EntriesAreMap()
      requires Valid()
      ensures DistinctKeys(Entries()) && KeySet(Entries()) == Map().Keys
      ensures forall i :: 0 <= i < |Entries()| ==> Map()[Entries()[i].key] == (Entries()[i].serial, Entries()[i].value)
    {
    }
  }

  // ----- any history of operations

  datatype Op<V> = SetOp(key: seq<byte>, serial: nat, value: V) | GetOp(key: seq<byte>) | DelOp(key: seq<byte>) | ClearOp

  /** What an operation does to the finite map. */
  ghost function MapStep<V>(m: map<seq<byte>, (nat, V)>, op: Op<V>): map<seq<byte>, (nat, V)> {
    match op
    case SetOp(key, serial, value) => m[key := (if key in m then m[key].0 else serial, value)]
    case GetOp(_) => m
    case DelOp(key) => m - {key}
    case ClearOp => map[]
  }

  /** What an operation answers: the value found, replaced or deleted. */
  ghost function MapAnswer<V>(m: map<seq<byte>, (nat, V)>, op: Op<V>): Option<V> {
    if op.ClearOp? || op.key !in m then None else Some(m[op.key].1)
  }

  ghost function MapAfter<V>(ops: seq<Op<V>>): map<seq<byte>, (nat, V)> {
    if ops == [] then map[] else MapStep(MapAfter(ops[..|ops| - 1]), ops[|ops| - 1])
  }

  /**
    Whatever the hash function, a table answers every operation of every history as the finite
    map does, and is that map in the end, as long as there are fewer live keys than the last prime.
    */
  method RunHistory<V>(hashKey: seq<byte> -> nat, ops: seq<Op<V>>) returns (answers: seq<Option<V>>, table: Hashtable<V>)
    requires forall i :: 0 <= i < |ops| ==> |MapAfter(ops[..i])| < PRIMES[|PRIMES| - 1]
    ensures fresh(table) && table.Valid() && table.Map() == MapAfter(ops)
    ensures |answers| == |ops|
    ensures forall i :: 0 <= i < |ops| ==> answers[i] == MapAnswer(MapAfter(ops[..i]), ops[i])
  {
    hide Hashtable.Valid, Hashtable.Map, MapStep, MapAnswer;
    table := new Hashtable(hashKey);
    answers := [];
    while |answers| < |ops|
      invariant |answers| <= |ops| && table.Valid()
      invariant fresh(table) && fresh(table.buckets) && fresh(table.list) && forall i :: 0 <= i < |table.nodes| ==> fresh(table.nodes[i])
      invariant table.Map() == MapAfter(ops[..|answers|])
      invariant forall i :: 0 <= i < |answers| ==> answers[i] == MapAnswer(MapAfter(ops[..i]), ops[i])
    {
      var done := |answers|;
      assert ops[..done + 1][..done] == ops[..done];
      table.SizeIsMap();
      var answer := OneOperation(table, ops[done]);
      answers := answers + [answer];
    }
    assert ops[..|answers|] == ops;
  }

  method OneOperation<V>(table: Hashtable<V>, op: Op<V>) returns (answer: Option<V>)
    requires table.Valid() && table.size < PRIMES[|PRIMES| - 1]
    modifies table, table.buckets, table.list, table.nodes
    ensures table.Valid()
    ensures fresh(table.buckets) || table.buckets == old(table.buckets)
    ensures forall i :: 0 <= i < |table.nodes| ==> table.nodes[i] in old(table.nodes) || fresh(table.nodes[i])
    ensures table.Map() == MapStep(old(table.Map()), op) && answer == MapAnswer(old(table.Map()), op)
  {
    hide Hashtable.Valid, Hashtable.Map, Hashtable.Entries, Laid, AfterSet, Removed;
    table.RoomLeft();
    match op {
      case SetOp(key, serial, value) => answer := table.Set(key, serial, value);
      case GetOp(key) => answer := table.Get(key);
      case DelOp(key) =>
        ghost var place;
        answer, place := table.Del(key);
      case ClearOp =>
        var freed := table.Clear();
        answer := None;
    }
  }
}
