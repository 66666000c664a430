/** The round trip without a word about sorting: what is loaded, member by member and in which order. */
module PrintedOrder {
  import opened Bytes
  import opened JsonValue
  import opened JsonOrder
  import opened JsonPrint
  import opened JsonParse
  import opened RoundTrip
  import opened RoundTripTheorems
  import opened Canonical

  /**
    `d` is printed before `e`, which stand at the places `p` and `q` of the same table: by the first byte in
    which their keys differ with JSON_SORT_KEYS, else by their serials with JSON_PRESERVE_ORDER, else as they come.
    */
  ghost predicate Precedes(d: Entry<Json>, p: int, e: Entry<Json>, q: int, f: Flags) {
    if f.sortKeys then exists k: nat :: DiffersAt(d.key, e.key, k)
    else if f.preserveOrder then d.serial < e.serial
    else p < q
  }

  predicate Moved(d: Entry<Json>, e: Entry<Json>) {
    d.key == e.key
  }

  /** The members `r` are those of `es`, recognized by their keys, in the order the flags ask for, numbered from 0. */
  ghost predicate Ranked(es: seq<Entry<Json>>, r: seq<Entry<Json>>, f: Flags) {
    && |r| == |es|
    && (forall i :: 0 <= i < |es| ==> r[i].serial == i)
    && forall i, j, p, q :: 0 <= i < j < |es| && 0 <= p < |es| && 0 <= q < |es| && Moved(es[p], r[i]) && Moved(es[q], r[j])
         ==> Precedes(es[p], p, es[q], q, f)
  }

  /** `w` is `v` with the members of every object so ordered. */
  ghost predicate InOrder(v: Json, w: Json, f: Flags)
    decreases v
  {
    match v
    case Array(elems) =>
      w.Array? && |w.elems| == |elems| && forall i :: 0 <= i < |elems| ==> InOrder(elems[i], w.elems[i], f)
    case Object(es) =>
      && w.Object?
      && Ranked(es, w.entries, f)
      && forall i :: 0 <= i < |es| ==>
           exists p :: 0 <= p < |es| && Moved(es[p], w.entries[i]) && InOrder(es[p].value, w.entries[i].value, f)
    case _ => w == v
  }

  lemma SortPrecedes(es: seq<Entry<Json>>, f: Flags, i: nat, j: nat, p: nat, q: nat)
    requires DistinctKeys(es) && DistinctSerials(es) && i < j < |es| && p < |es| && q < |es|
    requires |Sort(es, f.Order())| == |es| && Sort(es, f.Order())[i] == es[p] && Sort(es, f.Order())[j] == es[q]
    ensures Precedes(es[p], p, es[q], q, f)
  {
    var order := f.Order();
    SortOrders(es, order);
    assert Before(es[p], es[q], order);
    hide Sort;
    if f.sortKeys {
      KeyLessIff(es[p].key, es[q].key);
    } else if !f.preserveOrder {
      assert Sort(es, order) == es by { AsItIs(es); }
      assert p == i && q == j;
    }
  }

  lemma KeyedOnce(es: seq<Entry<Json>>, p: nat, q: nat)
    requires DistinctKeys(es) && p < |es| && q < |es| && es[p].key == es[q].key
    ensures p == q
  {
  }

  lemma ArrangedRanked(v: Json, f: Flags)
    requires WellFormed(v) && v.Object?
    ensures Arrange(v, f.Order()).Object? && Ranked(v.entries, Arrange(v, f.Order()).entries, f)
  {
    hide Sort, Precedes, Arrange;
    var es := v.entries;
    ArrangedEntries(v, f.Order());
    var sorted, r := Sort(es, f.Order()), Arrange(v, f.Order()).entries;
    forall i, j, p, q | 0 <= i < j < |es| && 0 <= p < |es| && 0 <= q < |es| && Moved(es[p], r[i]) && Moved(es[q], r[j])
      ensures Precedes(es[p], p, es[q], q, f)
    {
      var p' := MemberOf(es, sorted[i]);
      var q' := MemberOf(es, sorted[j]);
      KeyedOnce(es, p, p');
      KeyedOnce(es, q, q');
      SortPrecedes(es, f, i, j, p, q);
    }
  }

  lemma {:induction false} ArrangedInOrder(v: Json, f: Flags)
    requires WellFormed(v)
    ensures InOrder(v, Arrange(v, f.Order()), f)
    decreases v
  {
    hide Sort, Ranked;
    match v
    case Array(elems) =>
      forall i | 0 <= i < |elems| ensures InOrder(elems[i], Arrange(elems[i], f.Order()), f) {
        ArrangedInOrder(elems[i], f);
      }
    case Object(es) =>
      var r := Arrange(v, f.Order()).entries;
      ArrangedRanked(v, f);
      ArrangedEntries(v, f.Order());
      forall i | 0 <= i < |es| ensures exists p :: 0 <= p < |es| && Moved(es[p], r[i]) && InOrder(es[p].value, r[i].value, f) {
        var p := MemberOf(es, Sort(es, f.Order())[i]);
        ArrangedInOrder(es[p].value, f);
        assert Moved(es[p], r[i]);
      }
    case _ =>
  }

  /** Loading what was printed gives the value back, the members of every object in the order they were asked for. */
  lemma LoadsDumpsInOrder(v: Json, f: Flags)
    requires WellFormed(v) && Container(v)
    ensures Loads(Dumps(v, f)).Some? && InOrder(v, Loads(Dumps(v, f)).value, f)
  {
    hide Loads, Dumps, Arrange, InOrder, WellFormed;
    LoadsDumps(v, f);
    ArrangedInOrder(v, f);
  }
}
