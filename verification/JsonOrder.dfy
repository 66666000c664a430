/** The orders in which `do_dump` can print the members of an object. */
module JsonOrder {
  import opened Bytes
  import opened Utf8
  import opened JsonValue

  /** JSON_SORT_KEYS wins over JSON_PRESERVE_ORDER; without either the hash table's own order is used. */
  datatype Order = ByKey | BySerial | AsIs

  /** `strcmp(a, b) < 0` for terminated strings of unsigned bytes. */
  predicate KeyLess(a: seq<byte>, b: seq<byte>) {
    if b == [] then false
    else if a == [] then true
    else a[0] < b[0] || (a[0] == b[0] && KeyLess(a[1..], b[1..]))
  }

  /** The keys agree in the first `k` places and then `a` ends, or has the smaller byte. */
  ghost predicate DiffersAt(a: seq<byte>, b: seq<byte>, k: nat) {
    k <= |a| && k < |b| && a[..k] == b[..k] && (k == |a| || a[k] < b[k])
  }

  /** The first differing place decides, and a proper prefix comes first. */
  lemma {:induction false} KeyLessIff(a: seq<byte>, b: seq<byte>)
    ensures KeyLess(a, b) <==> exists k: nat :: DiffersAt(a, b, k)
    decreases |a|
  {
    if a == [] || b == [] {
      assert b != [] ==> DiffersAt(a, b, 0);
    } else {
      KeyLessIff(a[1..], b[1..]);
      if k: nat :| DiffersAt(a, b, k) {
        assert k > 0 ==> a[..k][0] == b[..k][0] && a[..k][1..] == a[1..][..k - 1] && b[..k][1..] == b[1..][..k - 1];
        assert k > 0 ==> DiffersAt(a[1..], b[1..], k - 1);
      }
      if a[0] < b[0] {
        assert DiffersAt(a, b, 0);
      } else if a[0] == b[0] && KeyLess(a[1..], b[1..]) {
        var k: nat :| DiffersAt(a[1..], b[1..], k);
        assert a[..k + 1] == [a[0]] + a[1..][..k] && b[..k + 1] == [b[0]] + b[1..][..k];
        assert DiffersAt(a, b, k + 1);
      }
    }
  }

  predicate Before<T>(a: Entry<T>, b: Entry<T>, order: Order) {
    match order
    case ByKey => KeyLess(a.key, b.key)
    case BySerial => a.serial < b.serial
    case AsIs => true
  }

  ghost predicate Ordered<T>(es: seq<Entry<T>>, order: Order) {
    forall i, j :: 0 <= i < j < |es| ==> Before(es[i], es[j], order)
  }

  lemma {:induction false} KeyLessStrict(a: seq<byte>, b: seq<byte>, c: seq<byte>)
    ensures !KeyLess(a, a)
    ensures KeyLess(a, b) ==> !KeyLess(b, a)
    ensures KeyLess(a, b) || KeyLess(b, a) || a == b
    ensures KeyLess(a, b) && KeyLess(b, c) ==> KeyLess(a, c)
    decreases |a|
  {
    if a != [] {
      KeyLessStrict(a[1..], if b == [] then [] else b[1..], if c == [] then [] else c[1..]);
      if b != [] && a[0] == b[0] && a[1..] == b[1..] {
        assert a == [a[0]] + a[1..] == b;
      }
    }
  }

  // ----- sorting

  function Insert<T>(e: Entry<T>, es: seq<Entry<T>>, order: Order): seq<Entry<T>> {
    if es == [] || Before(e, es[0], order) then [e] + es else [es[0]] + Insert(e, es[1..], order)
  }

  /** The members in order, see `OnlySortedPermutation`. */
  function Sort<T>(es: seq<Entry<T>>, order: Order): seq<Entry<T>> {
    if order == AsIs || es == [] then es else Insert(es[0], Sort(es[1..], order), order)
  }

  ghost predicate Comparable<T>(es: seq<Entry<T>>, order: Order) {
    match order
    case ByKey => DistinctKeys(es)
    case BySerial => DistinctSerials(es)
    case AsIs => true
  }

  lemma {:induction false} InsertPermutes<T>(e: Entry<T>, es: seq<Entry<T>>, order: Order)
    ensures multiset(Insert(e, es, order)) == multiset([e] + es)
  {
    if es != [] && !Before(e, es[0], order) {
      InsertPermutes(e, es[1..], order);
      assert es == [es[0]] + es[1..];
      assert multiset([e] + es) == multiset([es[0]]) + multiset([e] + es[1..]);
    }
  }

  lemma {:induction false} SortPermutes<T>(es: seq<Entry<T>>, order: Order)
    ensures multiset(Sort(es, order)) == multiset(es)
    ensures |Sort(es, order)| == |es|
  {
    if order != AsIs && es != [] {
      SortPermutes(es[1..], order);
      InsertPermutes(es[0], Sort(es[1..], order), order);
      assert es == [es[0]] + es[1..];
    }
    assert |multiset(Sort(es, order))| == |Sort(es, order)|;
  }

  lemma SortMembers<T>(es: seq<Entry<T>>, order: Order)
    ensures forall e :: e in Sort(es, order) <==> e in es
  {
    SortPermutes(es, order);
    assert forall e :: e in es <==> e in multiset(es);
    assert forall e :: e in Sort(es, order) <==> e in multiset(Sort(es, order));
  }

  lemma BeforeOrder<T>(a: Entry<T>, b: Entry<T>, c: Entry<T>, order: Order)
    requires order != AsIs
    ensures !Before(a, a, order)
    ensures Before(a, b, order) && Before(b, c, order) ==> Before(a, c, order)
    ensures Before(a, b, order) || Before(b, a, order) || (if order == ByKey then a.key == b.key else a.serial == b.serial)
  {
    KeyLessStrict(a.key, b.key, c.key);
  }

  lemma {:induction false} InsertKeepsOrder<T>(e: Entry<T>, es: seq<Entry<T>>, order: Order)
    requires order != AsIs && Ordered(es, order)
    requires forall i :: 0 <= i < |es| ==> Before(e, es[i], order) || Before(es[i], e, order)
    ensures Ordered(Insert(e, es, order), order)
  {
    hide Before;
    if es == [] || Before(e, es[0], order) {
      forall i | 0 <= i < |es| ensures Before(e, es[i], order) {
        if i > 0 {
          BeforeOrder(e, es[0], es[i], order);
        }
      }
      InFront(e, es, order);
    } else {
      var r := Insert(e, es[1..], order);
      InsertKeepsOrder(e, es[1..], order);
      InsertPermutes(e, es[1..], order);
      forall j | 0 <= j < |r| ensures Before(es[0], r[j], order) {
        assert r[j] in multiset([e] + es[1..]);
        assert r[j] in [e] + es[1..];
      }
      InFront(es[0], r, order);
    }
  }

  lemma InFront<T>(e: Entry<T>, es: seq<Entry<T>>, order: Order)
    requires Ordered(es, order) && forall i :: 0 <= i < |es| ==> Before(e, es[i], order)
    ensures Ordered([e] + es, order)
  {
  }

  lemma {:induction false} SortOrders<T>(es: seq<Entry<T>>, order: Order)
    requires Comparable(es, order)
    ensures Ordered(Sort(es, order), order)
  {
    if order != AsIs && es != [] {
      assert Comparable(es[1..], order);
      SortOrders(es[1..], order);
      var rest := Sort(es[1..], order);
      SortPermutes(es[1..], order);
      forall i | 0 <= i < |rest| ensures Before(es[0], rest[i], order) || Before(rest[i], es[0], order) {
        assert rest[i] in multiset(rest);
        assert rest[i] in multiset(es[1..]);
        assert rest[i] in es[1..];
        var j :| 0 <= j < |es[1..]| && es[1..][j] == rest[i];
        assert es[0].key != es[j + 1].key || order != ByKey;
        BeforeOrder(es[0], rest[i], rest[i], order);
      }
      InsertKeepsOrder(es[0], rest, order);
    }
  }

  lemma SameElements<A>(s: seq<A>, t: seq<A>)
    requires multiset(s) == multiset(t)
    ensures |s| == |t| && forall x :: x in s <==> x in t
  {
    assert |multiset(s)| == |s| && |multiset(t)| == |t|;
    forall x ensures x in s <==> x in t {
      assert x in s <==> x in multiset(s);
      assert x in t <==> x in multiset(t);
    }
  }

  lemma StillIn<A>(s: seq<A>, t: seq<A>, x: A)
    requires multiset(s) == multiset(t) && x in s
    ensures x in t
  {
    assert x in multiset(t);
  }

  lemma TailMultiset<A>(p: seq<A>)
    requires p != []
    ensures p == [p[0]] + p[1..] && multiset(p[1..]) == multiset(p) - multiset{p[0]}
  {
    assert p == [p[0]] + p[1..];
  }

  lemma {:induction false} OrderedUnique<T>(p: seq<Entry<T>>, q: seq<Entry<T>>, order: Order)
    requires order != AsIs && Ordered(p, order) && Ordered(q, order)
    requires multiset(p) == multiset(q)
    ensures p == q
  {
    hide Before;
    assert |multiset(p)| == |p| && |multiset(q)| == |q|;
    if p != [] {
      assert p[0] in multiset(q) && q[0] in multiset(p);
      assert p[0] in q && q[0] in p;
      if p[0] != q[0] {
        BeforeOrder(p[0], q[0], p[0], order);
      }
      TailMultiset(p);
      TailMultiset(q);
      OrderedUnique(p[1..], q[1..], order);
    }
  }

  /** With distinct keys or serials there is one sorted permutation. */
  lemma OnlySortedPermutation<T>(es: seq<Entry<T>>, sorted: seq<Entry<T>>, order: Order)
    requires order != AsIs && Comparable(es, order)
    requires multiset(sorted) == multiset(es) && Ordered(sorted, order)
    ensures sorted == Sort(es, order)
  {
    SortPermutes(es, order);
    SortOrders(es, order);
    OrderedUnique(sorted, Sort(es, order), order);
  }

  // ----- a tree with every object in printing order

  /** Every object's members in printing order, with serials 0, 1, 2, ... */
  ghost function Arrange(v: Json, order: Order): Json
    decreases v, 1, 0
  {
    match v
    case Array(elems) => Array(ArrangeAll(elems, order))
    case Object(es) =>
      SortMembers(es, order);
      var sorted := Sort(es, order);
      assert forall i :: 0 <= i < |sorted| ==> sorted[i] in sorted;
      Object(ArrangeMembers(v, [], sorted, order))
    case _ => v
  }

  ghost function ArrangeAll(vs: seq<Json>, order: Order): (r: seq<Json>)
    ensures |r| == |vs|
    ensures forall i :: 0 <= i < |vs| ==> r[i] == Arrange(vs[i], order)
    decreases vs, 0
  {
    if vs == [] then [] else [Arrange(vs[0], order)] + ArrangeAll(vs[1..], order)
  }

  /** The members `es` behind those already placed. */
  ghost function ArrangeMembers(v: Json, done: seq<Entry<Json>>, es: seq<Entry<Json>>, order: Order): (r: seq<Entry<Json>>)
    requires v.Object? && forall i :: 0 <= i < |es| ==> es[i] in v.entries
    ensures |r| == |done| + |es|
    decreases v, 0, |es|
  {
    if es == [] then done
    else
      assert es[0] in v.entries;
      ArrangeMembers(v, done + [Entry(es[0].key, |done|, Arrange(es[0].value, order))], es[1..], order)
  }

  lemma {:induction false} ArrangedMember(v: Json, done: seq<Entry<Json>>, es: seq<Entry<Json>>, order: Order, i: nat)
    requires v.Object? && forall j :: 0 <= j < |es| ==> es[j] in v.entries
    requires i < |done| + |es|
    ensures i >= |done| ==> es[i - |done|] in v.entries
    ensures ArrangeMembers(v, done, es, order)[i] ==
            if i < |done| then done[i] else Entry(es[i - |done|].key, i, Arrange(es[i - |done|].value, order))
    decreases |es|
  {
    if es != [] {
      assert es[0] in v.entries;
      ArrangedMember(v, done + [Entry(es[0].key, |done|, Arrange(es[0].value, order))], es[1..], order, i);
    }
  }
}
