/** What putting the members of every object in printing order keeps, and what it makes unique. */
module Canonical {
  import opened Bytes
  import opened Utf8
  import opened JsonValue
  import opened JsonOrder
  import opened KeySort
  import opened JsonPrint

  lemma MemberOf<T>(es: seq<T>, e: T) returns (i: nat)
    requires e in es
    ensures i < |es| && es[i] == e
  {
    i :| 0 <= i < |es| && es[i] == e;
  }

  lemma SortedMember<T>(es: seq<Entry<T>>, order: Order, i: nat)
    requires i < |Sort(es, order)|
    ensures Sort(es, order)[i] in es
  {
    SortPermutes(es, order);
    assert Sort(es, order)[i] in multiset(Sort(es, order));
    assert Sort(es, order)[i] in multiset(es);
  }

  lemma ArrangeObject(v: Json, order: Order)
    requires v.Object? && forall i :: 0 <= i < |Sort(v.entries, order)| ==> Sort(v.entries, order)[i] in v.entries
    ensures Arrange(v, order) == Object(ArrangeMembers(v, [], Sort(v.entries, order), order))
  {
    hide Sort;
  }

  /** The arranged members, one by one. */
  lemma ArrangedEntries(v: Json, order: Order)
    requires v.Object?
    ensures var sorted := Sort(v.entries, order); var r := Arrange(v, order);
            && r.Object? && |r.entries| == |sorted| == |v.entries|
            && forall i :: 0 <= i < |sorted| ==>
                 sorted[i] in v.entries && r.entries[i] == Entry(sorted[i].key, i, Arrange(sorted[i].value, order))
  {
    var sorted := Sort(v.entries, order);
    SortPermutes(v.entries, order);
    forall i | 0 <= i < |sorted| ensures sorted[i] in v.entries {
      SortedMember(v.entries, order, i);
    }
    hide Sort, Arrange;
    assert Arrange(v, order) == Object(ArrangeMembers(v, [], sorted, order)) by { ArrangeObject(v, order); }
    forall i | 0 <= i < |sorted|
      ensures sorted[i] in v.entries && Arrange(v, order).entries[i] == Entry(sorted[i].key, i, Arrange(sorted[i].value, order))
    {
      ArrangedMember(v, [], sorted, order, i);
    }
  }

  // ----- printing sees only the arranged tree

  /** `u` is `v` with the members of every object in printing order; serials do not matter. */
  ghost predicate Follows(v: Json, u: Json, order: Order)
    decreases v
  {
    match (v, u)
    case (Array(a), Array(b)) => |a| == |b| && forall i :: 0 <= i < |a| ==> Follows(a[i], b[i], order)
    case (Object(a), Object(b)) =>
      SortMembers(a, order);
      var sorted := Sort(a, order);
      |b| == |sorted| && forall i :: 0 <= i < |sorted| ==>
        && sorted[i] in a
        && b[i].key == sorted[i].key && Follows(sorted[i].value, b[i].value, order)
    case (_, _) => v == u
  }

  lemma FollowsObject(v: Json, es: seq<Entry<Json>>, order: Order)
    requires v.Object? && |es| == |Sort(v.entries, order)|
    requires var sorted := Sort(v.entries, order); forall i :: 0 <= i < |sorted| ==>
      sorted[i] in v.entries && es[i].key == sorted[i].key && Follows(sorted[i].value, es[i].value, order)
    ensures Follows(v, Object(es), order)
  {
    hide Sort;
  }

  /** Sorting while printing is the same as sorting first and printing the result as it is. */
  lemma {:induction false} FollowsPrint(v: Json, u: Json, f: Flags, depth: nat)
    requires Follows(v, u, f.Order())
    ensures Print(v, f, depth) == Print(u, f.Unordered(), depth)
    decreases v, 1, 0
  {
    match (v, u) {
      case (Array(a), Array(b)) => FollowsPrintElems(a, b, f, depth);
      case (Object(a), Object(b)) =>
        var sorted := Sort(a, f.Order());
        forall i | 0 <= i < |sorted| ensures Print(sorted[i].value, f, depth + 1) == Print(b[i].value, f.Unordered(), depth + 1) {
          assert sorted[i] in a;
          var j := MemberOf(a, sorted[i]);
          FollowsPrint(a[j].value, b[i].value, f, depth + 1);
        }
        FollowsPrintObject(v, u, f, depth);
      case (_, _) =>
    }
  }

  lemma FollowsPrintObject(v: Json, u: Json, f: Flags, depth: nat)
    requires v.Object? && u.Object? && Follows(v, u, f.Order())
    requires var sorted := Sort(v.entries, f.Order());
             |sorted| == |u.entries| && forall i :: 0 <= i < |sorted| ==>
               sorted[i] in v.entries && u.entries[i].key == sorted[i].key
               && Print(sorted[i].value, f, depth + 1) == Print(u.entries[i].value, f.Unordered(), depth + 1)
    ensures Print(v, f, depth) == Print(u, f.Unordered(), depth)
  {
    hide PrintMembers, PrintElems, Follows, Sort;
    var sorted := Sort(v.entries, f.Order());
    assert forall i :: 0 <= i < |u.entries| ==> u.entries[i] in u.entries;
    SortPermutes(v.entries, f.Order());
    AsItIs(u.entries);
    SameMembersSameText(v, sorted, f, u, u.entries, f.Unordered(), depth);
  }

  lemma AsItIs<T>(es: seq<Entry<T>>)
    ensures Sort(es, AsIs) == es
  {
  }

  lemma {:induction false} FollowsPrintElems(a: seq<Json>, b: seq<Json>, f: Flags, depth: nat)
    requires |a| == |b| && forall i :: 0 <= i < |a| ==> Follows(a[i], b[i], f.Order())
    ensures PrintElems(a, f, depth) == PrintElems(b, f.Unordered(), depth)
    decreases a, 0, 0
  {
    if a != [] {
      FollowsPrint(a[0], b[0], f, depth + 1);
      FollowsPrintElems(a[1..], b[1..], f, depth);
    }
  }

  lemma {:induction false} ArrangeFollows(v: Json, order: Order)
    ensures Follows(v, Arrange(v, order), order)
    decreases v
  {
    match v
    case Array(elems) =>
      forall i | 0 <= i < |elems| ensures Follows(elems[i], Arrange(elems[i], order), order) {
        ArrangeFollows(elems[i], order);
      }
    case Object(es) =>
      var sorted := Sort(es, order);
      ArrangedEntries(v, order);
      forall i | 0 <= i < |sorted| ensures sorted[i] in es && Follows(sorted[i].value, Arrange(sorted[i].value, order), order) {
        var j := MemberOf(es, sorted[i]);
        ArrangeFollows(es[j].value, order);
      }
    case _ =>
  }

  lemma PrintArranged(v: Json, f: Flags, depth: nat)
    ensures Print(v, f, depth) == Print(Arrange(v, f.Order()), f.Unordered(), depth)
  {
    ArrangeFollows(v, f.Order());
    FollowsPrint(v, Arrange(v, f.Order()), f, depth);
  }

  lemma {:induction false} SameMembersSameText(v: Json, a: seq<Entry<Json>>, f: Flags, w: Json, b: seq<Entry<Json>>, g: Flags, depth: nat)
    requires v.Object? && forall i :: 0 <= i < |a| ==> a[i] in v.entries
    requires w.Object? && forall i :: 0 <= i < |b| ==> b[i] in w.entries
    requires g == f.Unordered() && |a| == |b|
    requires forall i :: 0 <= i < |a| ==> a[i].key == b[i].key && Print(a[i].value, f, depth + 1) == Print(b[i].value, g, depth + 1)
    ensures PrintMembers(v, a, f, depth) == PrintMembers(w, b, g, depth)
    decreases |a|
  {
    hide Print, StringText, Sort;
    if a != [] {
      SameMembersSameText(v, a[1..], f, w, b[1..], g, depth);
      assert Indent(f, depth, false) == Indent(g, depth, false) && Indent(f, depth + 1, true) == Indent(g, depth + 1, true);
    }
  }

  // ----- the meaning stays

  lemma SameEntriesSameMap(a: seq<Entry<Json>>, b: seq<Entry<Json>>)
    requires DistinctKeys(a) && DistinctKeys(b) && |a| == |b|
    requires forall i :: 0 <= i < |b| ==> b[i].key in KeySet(a) && Denote(b[i].value) == DenoteEntries(a)[b[i].key]
    ensures DenoteEntries(a) == DenoteEntries(b)
  {
    var m, n := DenoteEntries(a), DenoteEntries(b);
    KeySetSize(a);
    KeySetSize(b);
    forall k | k in n.Keys ensures k in m.Keys && m[k] == n[k] {
      var i := LookupAt(b, k);
    }
    SubsetOfSameSize(n.Keys, m.Keys);
    SameMap(m, n);
  }

  lemma SortedKeysDistinct(es: seq<Entry<Json>>, order: Order)
    requires DistinctKeys(es)
    ensures DistinctKeys(Sort(es, order))
  {
    SortPermutes(es, order);
    StillComparable(es, Sort(es, order), ByKey);
  }

  lemma {:induction false} ArrangeKeepsMeaning(v: Json, order: Order)
    requires Proper(v)
    ensures Denote(Arrange(v, order)) == Denote(v)
    decreases v
  {
    match v
    case Array(elems) =>
      forall i | 0 <= i < |elems| ensures Denote(Arrange(elems[i], order)) == Denote(elems[i]) {
        ArrangeKeepsMeaning(elems[i], order);
      }
      assert DenoteAll(ArrangeAll(elems, order)) == DenoteAll(elems);
    case Object(es) =>
      var sorted := Sort(es, order);
      var r := Arrange(v, order).entries;
      ArrangedEntries(v, order);
      SortedKeysDistinct(es, order);
      forall i | 0 <= i < |r| ensures r[i].key in KeySet(es) && Denote(r[i].value) == DenoteEntries(es)[r[i].key] {
        assert sorted[i] in v.entries;
        var j := MemberOf(es, sorted[i]);
        ArrangeKeepsMeaning(es[j].value, order);
      }
      SameEntriesSameMap(es, r);
    case _ =>
  }

  lemma {:induction false} ArrangeKeepsWellFormed(v: Json, order: Order)
    requires WellFormed(v)
    ensures WellFormed(Arrange(v, order))
    decreases v
  {
    match v
    case Array(elems) =>
      forall i | 0 <= i < |elems| ensures WellFormed(Arrange(elems[i], order)) {
        ArrangeKeepsWellFormed(elems[i], order);
      }
    case Object(es) =>
      var sorted := Sort(es, order);
      var r := Arrange(v, order).entries;
      ArrangedEntries(v, order);
      SortedKeysDistinct(es, order);
      forall i | 0 <= i < |r| ensures GoodText(r[i].key) && WellFormed(r[i].value) {
        assert sorted[i] in v.entries;
        var j := MemberOf(es, sorted[i]);
        ArrangeKeepsWellFormed(es[j].value, order);
      }
    case _ =>
  }

  lemma {:induction false} ArrangeKeepsProper(v: Json, order: Order)
    requires Proper(v)
    ensures Proper(Arrange(v, order))
    decreases v
  {
    match v
    case Array(elems) =>
      forall i | 0 <= i < |elems| ensures Proper(Arrange(elems[i], order)) {
        ArrangeKeepsProper(elems[i], order);
      }
    case Object(es) =>
      var sorted := Sort(es, order);
      var r := Arrange(v, order).entries;
      ArrangedEntries(v, order);
      SortedKeysDistinct(es, order);
      forall i | 0 <= i < |r| ensures Proper(r[i].value) {
        assert sorted[i] in v.entries;
        var j := MemberOf(es, sorted[i]);
        ArrangeKeepsProper(es[j].value, order);
      }
    case _ =>
  }

  // ----- arranging again changes nothing

  lemma SortOfArranged(v: Json, order: Order, again: Order)
    requires Proper(v) && v.Object? && (again == order || again != ByKey)
    ensures Sort(Arrange(v, order).entries, again) == Arrange(v, order).entries
  {
    var r, sorted := Arrange(v, order).entries, Sort(v.entries, order);
    if again != AsIs {
      ArrangedEntries(v, order);
      SortOrders(v.entries, order);
      SortedKeysDistinct(v.entries, order);
      forall i, j | 0 <= i < j < |r| ensures Before(r[i], r[j], again) {
        assert Before(sorted[i], sorted[j], order);
      }
      OnlySortedPermutation(r, r, again);
    }
  }

  lemma {:induction false} ArrangeTwice(v: Json, order: Order, again: Order)
    requires Proper(v) && (again == order || again != ByKey)
    ensures Arrange(Arrange(v, order), again) == Arrange(v, order)
    decreases v
  {
    match v
    case Array(elems) =>
      var r := ArrangeAll(elems, order);
      forall i | 0 <= i < |elems| ensures ArrangeAll(r, again)[i] == r[i] {
        ArrangeTwice(elems[i], order, again);
      }
      assert ArrangeAll(r, again) == r;
    case Object(es) =>
      var w := Arrange(v, order);
      var sorted := Sort(es, order);
      ArrangedEntries(v, order);
      SortOfArranged(v, order, again);
      ArrangedEntries(w, again);
      var x := Arrange(w, again).entries;
      forall i | 0 <= i < |es| ensures x[i] == w.entries[i] {
        assert sorted[i] in v.entries;
        var j := MemberOf(es, sorted[i]);
        ArrangeTwice(es[j].value, order, again);
      }
      assert x == w.entries;
    case _ =>
  }

  // ----- uniqueness

  /** Two lists in key order with the same keys have them at the same places. */
  lemma {:induction false} SameKeysSamePlaces(p: seq<Entry<Json>>, q: seq<Entry<Json>>)
    requires Ordered(p, ByKey) && Ordered(q, ByKey) && KeySet(p) == KeySet(q)
    ensures |p| == |q| && forall i :: 0 <= i < |p| ==> p[i].key == q[i].key
  {
    NoKeys(p);
    NoKeys(q);
    if p != [] {
      FirstKeyLeast(p, q);
      FirstKeyLeast(q, p);
      KeyLessStrict(p[0].key, q[0].key, p[0].key);
      KeysBehindFirst(p);
      KeysBehindFirst(q);
      SameKeysSamePlaces(p[1..], q[1..]);
    }
  }

  lemma NoKeys(p: seq<Entry<Json>>)
    ensures KeySet(p) == {} <==> p == []
  {
    if p != [] {
      assert p[0].key in KeySet(p);
    }
  }

  lemma FirstKeyLeast(p: seq<Entry<Json>>, q: seq<Entry<Json>>)
    requires p != [] && q != [] && Ordered(p, ByKey) && KeySet(p) == KeySet(q)
    ensures p[0].key == q[0].key || KeyLess(p[0].key, q[0].key)
  {
    assert q[0].key in KeySet(p);
    var i :| 0 <= i < |p| && p[i].key == q[0].key;
    if i > 0 {
      assert Before(p[0], p[i], ByKey);
    }
  }

  lemma KeysBehindFirst(p: seq<Entry<Json>>)
    requires p != [] && Ordered(p, ByKey)
    ensures KeySet(p[1..]) == KeySet(p) - {p[0].key}
  {
    forall i | 1 <= i < |p| ensures p[i].key != p[0].key {
      assert Before(p[0], p[i], ByKey);
      KeyLessStrict(p[0].key, p[i].key, p[i].key);
    }
    forall k | k in KeySet(p) - {p[0].key} ensures k in KeySet(p[1..]) {
      var i :| 0 <= i < |p| && p[i].key == k;
      assert p[1..][i - 1].key == k;
    }
    forall k | k in KeySet(p[1..]) ensures k in KeySet(p) - {p[0].key} {
      var i :| 0 <= i < |p[1..]| && p[1..][i].key == k;
      assert p[i + 1].key == k;
    }
  }

  lemma SortKeepsKeySet(es: seq<Entry<Json>>, order: Order)
    ensures KeySet(Sort(es, order)) == KeySet(es)
  {
    var sorted := Sort(es, order);
    SortMembers(es, order);
    forall k | k in KeySet(es) ensures k in KeySet(sorted) {
      var i :| 0 <= i < |es| && es[i].key == k;
      assert es[i] in es && es[i] in sorted;
      var j := MemberOf(sorted, es[i]);
    }
    forall k | k in KeySet(sorted) ensures k in KeySet(es) {
      var i :| 0 <= i < |sorted| && sorted[i].key == k;
      SortedMember(es, order, i);
      var j := MemberOf(es, sorted[i]);
    }
  }

  /** With sorted keys the text is a function of the meaning alone. */
  lemma {:induction false} SortedKeysCanonical(v: Json, w: Json)
    requires Proper(v) && Proper(w) && Denote(v) == Denote(w)
    ensures Arrange(v, ByKey) == Arrange(w, ByKey)
    decreases v
  {
    match (v, w) {
      case (Array(a), Array(b)) =>
        assert |a| == |DenoteAll(a)| == |DenoteAll(b)| == |b|;
        forall i | 0 <= i < |a| ensures ArrangeAll(a, ByKey)[i] == ArrangeAll(b, ByKey)[i] {
          assert DenoteAll(a)[i] == DenoteAll(b)[i];
          SortedKeysCanonical(a[i], b[i]);
        }
        assert ArrangeAll(a, ByKey) == ArrangeAll(b, ByKey);
      case (Object(a), Object(b)) =>
        assert DenoteEntries(a) == DenoteEntries(b);
        forall i, j | 0 <= i < |a| && 0 <= j < |b| && a[i].key == b[j].key ensures Arrange(a[i].value, ByKey) == Arrange(b[j].value, ByKey) {
          assert Denote(a[i].value) == DenoteEntries(a)[a[i].key] == DenoteEntries(b)[b[j].key] == Denote(b[j].value);
          SortedKeysCanonical(a[i].value, b[j].value);
        }
        SortedObjectsCanonical(v, w);
      case (_, _) =>
    }
  }

  lemma SortedObjectsCanonical(v: Json, w: Json)
    requires v.Object? && w.Object? && DistinctKeys(v.entries) && DistinctKeys(w.entries) && KeySet(v.entries) == KeySet(w.entries)
    requires var a, b := v.entries, w.entries;
      forall i, j :: 0 <= i < |a| && 0 <= j < |b| && a[i].key == b[j].key ==> Arrange(a[i].value, ByKey) == Arrange(b[j].value, ByKey)
    ensures Arrange(v, ByKey) == Arrange(w, ByKey)
  {
    hide Sort, Arrange, KeySet;
    var a, b := v.entries, w.entries;
    var p, q := Sort(a, ByKey), Sort(b, ByKey);
    SortKeepsKeySet(a, ByKey);
    SortKeepsKeySet(b, ByKey);
    SortOrders(a, ByKey);
    SortOrders(b, ByKey);
    SameKeysSamePlaces(p, q);
    ArrangedEntries(v, ByKey);
    ArrangedEntries(w, ByKey);
    var x, y := Arrange(v, ByKey).entries, Arrange(w, ByKey).entries;
    forall i | 0 <= i < |x| ensures x[i] == y[i] {
      assert p[i] in a && q[i] in b;
      var j := MemberOf(a, p[i]);
      var k := MemberOf(b, q[i]);
      assert a[j].key == b[k].key;
    }
    assert x == y;
  }

  /** `w` is `v` with the iteration order of every hash table changed. */
  ghost predicate Shuffled(v: Json, w: Json)
    decreases v
  {
    match (v, w)
    case (Array(a), Array(b)) => |a| == |b| && forall i :: 0 <= i < |a| ==> Shuffled(a[i], b[i])
    case (Object(a), Object(b)) =>
      |a| == |b| && DistinctKeys(b) && DistinctSerials(b) && forall i :: 0 <= i < |a| ==> Partner(a[i], b, PlaceOf(b, a[i].key))
    case (_, _) => v == w
  }

  /** Member `j` of `b` is the member `e`, with a shuffled value. */
  ghost predicate Partner(e: Entry<Json>, b: seq<Entry<Json>>, j: int) {
    0 <= j < |b| && e.key == b[j].key && e.serial == b[j].serial && Shuffled(e.value, b[j].value)
  }

  ghost function SerialSet(es: seq<Entry<Json>>): set<nat> {
    set i | 0 <= i < |es| :: es[i].serial
  }

  /** Two lists in serial order with the same serials have them at the same places. */
  lemma {:induction false} SameSerialsSamePlaces(p: seq<Entry<Json>>, q: seq<Entry<Json>>)
    requires Ordered(p, BySerial) && Ordered(q, BySerial) && SerialSet(p) == SerialSet(q)
    ensures |p| == |q| && forall i :: 0 <= i < |p| ==> p[i].serial == q[i].serial
  {
    NoSerials(p);
    NoSerials(q);
    if p != [] {
      FirstSerialLeast(p, q);
      FirstSerialLeast(q, p);
      SerialsBehindFirst(p);
      SerialsBehindFirst(q);
      SameSerialsSamePlaces(p[1..], q[1..]);
    }
  }

  lemma NoSerials(p: seq<Entry<Json>>)
    ensures SerialSet(p) == {} <==> p == []
  {
    if p != [] {
      assert p[0].serial in SerialSet(p);
    }
  }

  lemma FirstSerialLeast(p: seq<Entry<Json>>, q: seq<Entry<Json>>)
    requires p != [] && q != [] && Ordered(p, BySerial) && SerialSet(p) == SerialSet(q)
    ensures p[0].serial <= q[0].serial
  {
    assert q[0].serial in SerialSet(p);
    var i :| 0 <= i < |p| && p[i].serial == q[0].serial;
    if i > 0 {
      assert Before(p[0], p[i], BySerial);
    }
  }

  lemma SerialsBehindFirst(p: seq<Entry<Json>>)
    requires p != [] && Ordered(p, BySerial)
    ensures SerialSet(p[1..]) == SerialSet(p) - {p[0].serial}
  {
    forall i | 1 <= i < |p| ensures p[i].serial != p[0].serial {
      assert Before(p[0], p[i], BySerial);
    }
    forall k | k in SerialSet(p) - {p[0].serial} ensures k in SerialSet(p[1..]) {
      var i :| 0 <= i < |p| && p[i].serial == k;
      assert p[1..][i - 1].serial == k;
    }
    forall k | k in SerialSet(p[1..]) ensures k in SerialSet(p) - {p[0].serial} {
      var i :| 0 <= i < |p[1..]| && p[1..][i].serial == k;
      assert p[i + 1].serial == k;
    }
  }

  lemma SortKeepsSerialSet(es: seq<Entry<Json>>, order: Order)
    ensures SerialSet(Sort(es, order)) == SerialSet(es)
  {
    var sorted := Sort(es, order);
    SortMembers(es, order);
    forall k | k in SerialSet(es) ensures k in SerialSet(sorted) {
      var i :| 0 <= i < |es| && es[i].serial == k;
      assert es[i] in es && es[i] in sorted;
      var j := MemberOf(sorted, es[i]);
    }
    forall k | k in SerialSet(sorted) ensures k in SerialSet(es) {
      var i :| 0 <= i < |sorted| && sorted[i].serial == k;
      SortedMember(es, order, i);
      var j := MemberOf(es, sorted[i]);
    }
  }

  lemma ShuffledSerials(a: seq<Entry<Json>>, b: seq<Entry<Json>>)
    requires Shuffled(Object(a), Object(b)) && DistinctSerials(a)
    ensures SerialSet(a) == SerialSet(b)
  {
    forall k | k in SerialSet(a) ensures k in SerialSet(b) {
      var i :| 0 <= i < |a| && a[i].serial == k;
      var j := PlaceOf(b, a[i].key);
          assert Partner(a[i], b, j);
    }
    SerialSetSize(a);
    SerialSetSize(b);
    SubsetOfSameSize(SerialSet(a), SerialSet(b));
  }

  lemma ShuffledPartner(a: seq<Entry<Json>>, b: seq<Entry<Json>>, j: nat, e: Entry<Json>)
    requires Shuffled(Object(a), Object(b)) && j < |a| && e in b && e.serial == a[j].serial
    ensures a[j].key == e.key && Shuffled(a[j].value, e.value)
  {
    var k := MemberOf(b, e);
    var l :| 0 <= l < |b| && a[j].key == b[l].key && a[j].serial == b[l].serial && Shuffled(a[j].value, b[l].value);
    assert k == l;
  }

  /** With preserved order the text does not depend on the iteration order of the hash tables. */
  lemma {:induction false} PreservedOrderCanonical(v: Json, w: Json)
    requires Proper(v) && Shuffled(v, w)
    ensures Arrange(v, BySerial) == Arrange(w, BySerial)
    decreases v
  {
    hide Sort;
    match (v, w) {
      case (Array(a), Array(b)) =>
        forall i | 0 <= i < |a| ensures ArrangeAll(a, BySerial)[i] == ArrangeAll(b, BySerial)[i] {
          PreservedOrderCanonical(a[i], b[i]);
        }
        assert ArrangeAll(a, BySerial) == ArrangeAll(b, BySerial);
      case (Object(a), Object(b)) =>
        var p, q := Sort(a, BySerial), Sort(b, BySerial);
        assert |p| == |q| && forall i :: 0 <= i < |p| ==> p[i].serial == q[i].serial by {
          ShuffledSerials(a, b);
          SortKeepsSerialSet(a, BySerial);
          SortKeepsSerialSet(b, BySerial);
          SortOrders(a, BySerial);
          SortOrders(b, BySerial);
          SameSerialsSamePlaces(p, q);
        }
        ArrangedEntries(v, BySerial);
        ArrangedEntries(w, BySerial);
        var x, y := Arrange(v, BySerial).entries, Arrange(w, BySerial).entries;
        forall i | 0 <= i < |x| ensures x[i] == y[i] {
          assert p[i] in a && q[i] in b;
          var j := MemberOf(a, p[i]);
          ShuffledPartner(a, b, j, q[i]);
          PreservedOrderCanonical(a[j].value, q[i].value);
        }
        assert x == y;
      case (_, _) =>
    }
  }

  lemma {:induction false} ShuffledProper(v: Json, w: Json)
    requires Proper(v) && Shuffled(v, w)
    ensures Proper(w)
    decreases v
  {
    match (v, w) {
      case (Array(a), Array(b)) =>
        forall i | 0 <= i < |a| ensures Proper(b[i]) {
          ShuffledProper(a[i], b[i]);
        }
      case (Object(a), Object(b)) =>
        ShuffledSerials(a, b);
        forall j | 0 <= j < |b| ensures Proper(b[j].value) {
          assert b[j].serial in SerialSet(a);
          var i :| 0 <= i < |a| && a[i].serial == b[j].serial;
          ShuffledPartner(a, b, i, b[j]);
          ShuffledProper(a[i].value, b[j].value);
        }
      case (_, _) =>
    }
  }

  /** Shuffling keeps the meaning. */
  lemma {:induction false} ShuffledSameMeaning(v: Json, w: Json)
    requires Proper(v) && Shuffled(v, w)
    ensures Denote(v) == Denote(w)
    decreases v
  {
    match (v, w) {
      case (Array(a), Array(b)) =>
        forall i | 0 <= i < |a| ensures DenoteAll(a)[i] == DenoteAll(b)[i] {
          ShuffledSameMeaning(a[i], b[i]);
        }
        assert DenoteAll(a) == DenoteAll(b);
      case (Object(a), Object(b)) =>
        forall i | 0 <= i < |a| ensures a[i].key in KeySet(b) && Denote(a[i].value) == DenoteEntries(b)[a[i].key] {
          var j := PlaceOf(b, a[i].key);
          assert Partner(a[i], b, j);
          ShuffledSameMeaning(a[i].value, b[j].value);
        }
        SameEntriesSameMap(b, a);
      case (_, _) =>
    }
  }

  // ----- serials the comparator puts in order

  /** Every object's serials are told apart rightly. */
  ghost predicate Fits(v: Json) {
    match v
    case Array(elems) => forall i :: 0 <= i < |elems| ==> Fits(elems[i])
    case Object(es) => SerialsFit(es) && forall i :: 0 <= i < |es| ==> Fits(es[i].value)
    case _ => true
  }

  /** Fresh serials 0, 1, 2, ... fit whenever the old ones did. */
  lemma {:induction false} ArrangeKeepsFit(v: Json, order: Order)
    requires Proper(v) && Fits(v)
    ensures Fits(Arrange(v, order))
    decreases v
  {
    match v
    case Array(elems) =>
      forall i | 0 <= i < |elems| ensures Fits(Arrange(elems[i], order)) {
        ArrangeKeepsFit(elems[i], order);
      }
    case Object(es) =>
      hide Sort, Arrange, SerialsFit;
      var sorted := Sort(es, order);
      var r := Arrange(v, order).entries;
      ArrangedEntries(v, order);
      forall i | 0 <= i < |r| ensures Fits(r[i].value) && r[i].serial < |r| {
        assert sorted[i] in v.entries;
        var j := MemberOf(es, sorted[i]);
        ArrangeKeepsFit(es[j].value, order);
      }
      FittingAreFew(es);
      SmallSerialsFit(r);
    case _ =>
  }

  lemma SmallSerialsFit<T>(es: seq<Entry<T>>)
    requires |es| <= 0x8000_0000 && forall i :: 0 <= i < |es| ==> es[i].serial < |es|
    ensures SerialsFit(es)
  {
  }

  lemma {:induction false} ShuffledFits(v: Json, w: Json)
    requires Proper(v) && Fits(v) && Shuffled(v, w)
    ensures Fits(w)
    decreases v
  {
    match (v, w) {
      case (Array(a), Array(b)) =>
        forall i | 0 <= i < |a| ensures Fits(b[i]) {
          ShuffledFits(a[i], b[i]);
        }
      case (Object(a), Object(b)) =>
        ShuffledSerials(a, b);
        forall j | 0 <= j < |b| ensures Fits(b[j].value) {
          assert b[j].serial in SerialSet(a);
          var i :| 0 <= i < |a| && a[i].serial == b[j].serial;
          ShuffledPartner(a, b, i, b[j]);
          ShuffledFits(a[i].value, b[j].value);
        }
        SameSerialsFit(a, b);
      case (_, _) =>
    }
  }

  lemma SameSerialsFit(a: seq<Entry<Json>>, b: seq<Entry<Json>>)
    requires SerialsFit(a) && SerialSet(a) == SerialSet(b)
    ensures SerialsFit(b)
  {
    forall x, y | x in b && y in b ensures Close(x.serial, y.serial) {
      var i := MemberOf(b, x);
      var j := MemberOf(b, y);
      assert b[i].serial in SerialSet(a) && b[j].serial in SerialSet(a);
      var k :| 0 <= k < |a| && a[k].serial == x.serial;
      var l :| 0 <= l < |a| && a[l].serial == y.serial;
      assert Close(a[k].serial, a[l].serial);
    }
  }
}
