/** `json_deep_copy` of `compat/jansson/value.c`, on values as trees. */
module DeepCopy {
  import opened Bytes
  import opened JsonValue
  import opened JsonOrder
  import opened KeySort
  import opened JsonPrint
  import opened JsonParse
  import opened Canonical
  import opened RoundTrip
  import opened RoundTripTheorems

  /** Whatever the hash table of a copied object looks like, the copy equals the original. */
  lemma DeepCopyEqual(v: Json, w: Json)
    requires Proper(v) && Shuffled(Arrange(v, AsIs), w)
    ensures Proper(w) && Equal(v, w) && Equal(w, v)
  {
    var copy := Arrange(v, AsIs);
    ArrangeKeepsProper(v, AsIs);
    ArrangeKeepsMeaning(v, AsIs);
    ShuffledProper(copy, w);
    ShuffledSameMeaning(copy, w);
    EqualIffSameMeaning(v, w);
    EqualIffSameMeaning(w, v);
  }

  // ----- what becomes of the insertion order

  /** In every object, iteration meets the members in the order of their insertion. */
  ghost predicate IteratesInOrder(v: Json) {
    match v
    case Array(elems) => forall i :: 0 <= i < |elems| ==> IteratesInOrder(elems[i])
    case Object(es) => Ordered(es, BySerial) && forall i :: 0 <= i < |es| ==> IteratesInOrder(es[i].value)
    case _ => true
  }

  lemma SortedAlready(es: seq<Entry<Json>>)
    requires DistinctSerials(es)
    ensures Ordered(es, BySerial) <==> Sort(es, BySerial) == es
  {
    SortOrders(es, BySerial);
    if Ordered(es, BySerial) {
      OnlySortedPermutation(es, es, BySerial);
    }
  }

  lemma {:induction false} SameArrangement(v: Json)
    requires Proper(v)
    ensures Arrange(v, BySerial) == Arrange(v, AsIs) <==> IteratesInOrder(v)
    decreases v
  {
    match v {
      case Array(elems) =>
        forall i | 0 <= i < |elems| ensures Arrange(elems[i], BySerial) == Arrange(elems[i], AsIs) <==> IteratesInOrder(elems[i]) {
          SameArrangement(elems[i]);
        }
        var a, b := ArrangeAll(elems, BySerial), ArrangeAll(elems, AsIs);
        assert a == b <==> forall i :: 0 <= i < |elems| ==> a[i] == b[i];
      case Object(es) =>
        forall i | 0 <= i < |es| ensures Arrange(es[i].value, BySerial) == Arrange(es[i].value, AsIs) <==> IteratesInOrder(es[i].value) {
          SameArrangement(es[i].value);
        }
        SameObjectArrangement(v);
      case _ =>
    }
  }

  lemma SameObjectArrangement(v: Json)
    requires Proper(v) && v.Object?
    requires forall i :: 0 <= i < |v.entries| ==> (Arrange(v.entries[i].value, BySerial) == Arrange(v.entries[i].value, AsIs) <==> IteratesInOrder(v.entries[i].value))
    ensures Arrange(v, BySerial) == Arrange(v, AsIs) <==> IteratesInOrder(v)
  {
    var es := v.entries;
    assert DistinctKeys(es) && DistinctSerials(es);
    var sorted := Sort(es, BySerial);
    ArrangedEntries(v, BySerial);
    ArrangedEntries(v, AsIs);
    SortedAlready(es);
    var a, b := Arrange(v, BySerial).entries, Arrange(v, AsIs).entries;
    if a == b {
      forall i | 0 <= i < |es| ensures sorted[i] == es[i] {
        assert a[i].key == b[i].key;
        SameKeySameEntry(es, sorted[i], es[i]);
      }
      assert sorted == es;
      forall i | 0 <= i < |es| ensures Arrange(es[i].value, BySerial) == Arrange(es[i].value, AsIs) {
        assert a[i].value == b[i].value;
      }
    }
    if IteratesInOrder(v) {
      assert sorted == es;
      assert a == b;
    }
  }

  lemma SameKeySameEntry(es: seq<Entry<Json>>, d: Entry<Json>, e: Entry<Json>)
    requires DistinctKeys(es) && d in es && e in es && d.key == e.key
    ensures d == e
  {
  }

  /**
    With JSON_PRESERVE_ORDER a deep copy prints like its original exactly when the original's
    hash tables happen to iterate in insertion order: copying takes the order of iteration for
    the order of insertion.
    */
  lemma DeepCopyKeepsOrderIff(v: Json, w: Json, f: Flags)
    requires WellFormed(v) && Container(v) && f.Order() == BySerial && Fits(v) && Shuffled(Arrange(v, AsIs), w)
    ensures Fits(w) && (Dumps(w, f) == Dumps(v, f) <==> IteratesInOrder(v))
  {
    var copy := Arrange(v, AsIs);
    ArrangeKeepsWellFormed(v, AsIs);
    ShuffledWellFormed(copy, w);
    ArrangeTwice(v, AsIs, BySerial);
    ArrangeKeepsFit(v, AsIs);
    ShuffledFits(copy, w);
    PreservedOrderCanonical(copy, w);
    LoadsDumps(v, f);
    LoadsDumps(w, f);
    PrintArranged(v, f, 0);
    PrintArranged(w, f, 0);
    SameArrangement(v);
  }

  /** An object whose hash table iterates over its second member first; `JsonObjects.SecondInFront` makes one. */
  lemma DeepCopyOrderCounterexample(f: Flags)
    requires f.Order() == BySerial
    ensures var v := Object([Entry([0x66], 1, Null), Entry([0x61], 0, Null)]);
            WellFormed(v) && Fits(v) && !IteratesInOrder(v) && Dumps(Arrange(v, AsIs), f) != Dumps(v, f)
  {
    hide WellFormed, Arrange, Shuffled, Dumps, Fits, IteratesInOrder;
    var v := Object([Entry([0x66], 1, Null), Entry([0x61], 0, Null)]);
    SecondFirst(v.entries);
    ArrangeKeepsWellFormed(v, AsIs);
    ShuffledSelf(Arrange(v, AsIs));
    DeepCopyKeepsOrderIff(v, Arrange(v, AsIs), f);
  }

  lemma SecondFirst(es: seq<Entry<Json>>)
    requires es == [Entry([0x66], 1, Null), Entry([0x61], 0, Null)]
    ensures WellFormed(Object(es)) && Container(Object(es)) && Fits(Object(es)) && !IteratesInOrder(Object(es))
  {
    hide SerialsFit;
    GoodAsciiText([0x61]);
    GoodAsciiText([0x66]);
    SmallSerialsFit(es);
    assert !Before(es[0], es[1], BySerial);
  }

  lemma {:induction false} ShuffledSelf(v: Json)
    requires Proper(v)
    ensures Shuffled(v, v)
    decreases v
  {
    match v {
      case Array(elems) =>
        forall i | 0 <= i < |elems| ensures Shuffled(elems[i], elems[i]) {
          ShuffledSelf(elems[i]);
        }
      case Object(es) =>
        forall i | 0 <= i < |es| ensures Shuffled(es[i].value, es[i].value) {
          ShuffledSelf(es[i].value);
        }
        SamePlaces(es);
      case _ =>
    }
  }

  lemma SamePlaces(es: seq<Entry<Json>>)
    requires DistinctKeys(es) && DistinctSerials(es) && forall i :: 0 <= i < |es| ==> Shuffled(es[i].value, es[i].value)
    ensures Shuffled(Object(es), Object(es))
  {
    forall i | 0 <= i < |es| ensures Partner(es[i], es, PlaceOf(es, es[i].key)) {
      assert PlaceOf(es, es[i].key) == i;
    }
  }
}
