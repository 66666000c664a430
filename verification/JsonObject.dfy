/** JSON objects of `compat/jansson/value.c`: a hash table whose keys carry the serial of their insertion. */
module JsonObjects {
  import opened Bytes
  import opened JsonValue
  import opened JsonOrder
  import opened CircularLists
  import opened BucketLayout
  import opened TableOrder
  import opened Hashtables
  import opened KeySort

  /** `hash_key`: a byte from 0x80 on is a negative `char`, and everything is modulo 2^32. */
  function HashFrom(hash: nat, key: seq<byte>): nat
    decreases |key|
  {
    if key == [] then hash
    else
      var c := if key[0] < 0x80 then key[0] as nat else key[0] as nat + 0xFFFF_FF00;
      HashFrom((hash * 33 + c) % 0x1_0000_0000, key[1..])
  }

  function HashKey(key: seq<byte>): nat {
    HashFrom(5381, key)
  }

  // ----- members in the order of their insertion

  /** `order` lists the members of `m`, each once. */
  ghost predicate Lists<V>(order: seq<Entry<V>>, m: map<seq<byte>, (nat, V)>) {
    && DistinctKeys(order)
    && m.Keys == KeySet(order)
    && forall i :: 0 <= i < |order| ==> m[order[i].key] == (order[i].serial, order[i].value)
  }

  /** Serials increase and stay below the counter. */
  ghost predicate Increasing<V>(order: seq<Entry<V>>, counter: nat) {
    && (forall i, j :: 0 <= i < j < |order| ==> order[i].serial < order[j].serial)
    && forall i :: 0 <= i < |order| ==> order[i].serial < counter
  }

  lemma KeysOfMap<V>(order: seq<Entry<V>>, m: map<seq<byte>, (nat, V)>)
    requires Lists(order, m)
    ensures m.Keys == KeySet(order)
  {
  }

  ghost function Drop<V>(order: seq<Entry<V>>, key: seq<byte>): seq<Entry<V>> {
    if order == [] then []
    else if order[0].key == key then order[1..]
    else [order[0]] + Drop(order[1..], key)
  }

  /** `SetMember` at a place that holds the key, or behind the last place. */
  lemma {:induction false} PutAt<V>(order: seq<Entry<V>>, key: seq<byte>, serial: nat, value: V) returns (p: nat)
    ensures p <= |order| && forall i :: 0 <= i < p ==> order[i].key != key
    ensures if p < |order| then order[p].key == key && SetMember(order, key, serial, value) == order[p := order[p].(value := value)]
            else SetMember(order, key, serial, value) == order + [Entry(key, serial, value)]
  {
    if order == [] || order[0].key == key {
      p := 0;
    } else {
      var q := PutAt(order[1..], key, serial, value);
      p := q + 1;
      forall i | 0 <= i < p ensures order[i].key != key {
        if i > 0 {
          assert order[1..][i - 1] == order[i];
        }
      }
    }
  }

  lemma RemovedCons<A>(s: seq<A>, q: nat)
    requires s != [] && q < |s| - 1
    ensures Removed(s, q + 1) == [s[0]] + Removed(s[1..], q)
  {
  }

  lemma {:induction false} DropAt<V>(order: seq<Entry<V>>, key: seq<byte>) returns (p: nat)
    ensures p <= |order| && forall i :: 0 <= i < p ==> order[i].key != key
    ensures if p < |order| then order[p].key == key && Drop(order, key) == Removed(order, p) else Drop(order, key) == order
  {
    if order == [] || order[0].key == key {
      p := 0;
    } else {
      var q := DropAt(order[1..], key);
      p := q + 1;
      if q < |order| - 1 {
        RemovedCons(order, q);
      }
      forall i | 0 <= i < p ensures order[i].key != key {
        if i > 0 {
          assert order[1..][i - 1] == order[i];
        }
      }
    }
  }

  lemma PutLists<V>(order: seq<Entry<V>>, m: map<seq<byte>, (nat, V)>, key: seq<byte>, serial: nat, value: V)
    requires Lists(order, m)
    ensures Lists(SetMember(order, key, serial, value), m[key := (if key in m then m[key].0 else serial, value)])
  {
    hide SetMember, Lists;
    var p := PutAt(order, key, serial, value);
    if p < |order| {
      OverwrittenLists(order, m, p, value);
    } else {
      AppendedLists(order, m, key, serial, value);
    }
  }

  lemma OverwrittenLists<V>(order: seq<Entry<V>>, m: map<seq<byte>, (nat, V)>, p: nat, value: V)
    requires Lists(order, m) && p < |order|
    ensures var e := order[p]; e.key in m && Lists(order[p := e.(value := value)], m[e.key := (m[e.key].0, value)])
  {
    var e := order[p];
    assert e.key in KeySet(order);
    var r := order[p := e.(value := value)];
    assert forall i :: 0 <= i < |r| ==> r[i].key == order[i].key && r[i].serial == order[i].serial;
    assert KeySet(r) == KeySet(order);
  }

  lemma AppendedLists<V>(order: seq<Entry<V>>, m: map<seq<byte>, (nat, V)>, key: seq<byte>, serial: nat, value: V)
    requires Lists(order, m) && forall i :: 0 <= i < |order| ==> order[i].key != key
    ensures key !in m && Lists(order + [Entry(key, serial, value)], m[key := (serial, value)])
  {
    KeyAbsent(order, key);
    var r := order + [Entry(key, serial, value)];
    assert forall i :: 0 <= i < |order| ==> r[i] == order[i];
    assert KeySet(r) == KeySet(order) + {key} by {
      assert r[|order|].key == key;
    }
    forall i | 0 <= i < |order| ensures order[i].key in m && order[i].key != key {
      assert order[i].key in KeySet(order);
    }
  }

  lemma PutIncreasing<V>(order: seq<Entry<V>>, key: seq<byte>, counter: nat, value: V)
    requires Increasing(order, counter)
    ensures Increasing(SetMember(order, key, counter, value), counter + 1)
  {
    var p := PutAt(order, key, counter, value);
  }

  lemma KeysRemoved<V>(order: seq<Entry<V>>, p: nat)
    requires DistinctKeys(order) && p < |order|
    ensures DistinctKeys(Removed(order, p)) && KeySet(Removed(order, p)) == KeySet(order) - {order[p].key}
  {
    var r := Removed(order, p);
    forall k | k in KeySet(order) - {order[p].key} ensures k in KeySet(r) {
      var i :| 0 <= i < |order| && order[i].key == k;
      assert r[if i < p then i else i - 1].key == k;
    }
    forall i | 0 <= i < |r| ensures r[i].key in KeySet(order) - {order[p].key} {
      assert r[i] == order[if i < p then i else i + 1];
    }
  }

  lemma DropLists<V>(order: seq<Entry<V>>, m: map<seq<byte>, (nat, V)>, key: seq<byte>)
    requires Lists(order, m)
    ensures Lists(Drop(order, key), m - {key})
  {
    hide Drop, DistinctKeys;
    var p := DropAt(order, key);
    if p < |order| {
      KeysRemoved(order, p);
      var r, m' := Removed(order, p), m - {key};
      forall i | 0 <= i < |r| ensures m'[r[i].key] == (r[i].serial, r[i].value) {
        assert r[i].key in KeySet(r);
      }
    } else {
      KeyAbsent(order, key);
      assert m - {key} == m;
    }
  }

  lemma KeyAbsent<V>(order: seq<Entry<V>>, key: seq<byte>)
    requires forall i :: 0 <= i < |order| ==> order[i].key != key
    ensures key !in KeySet(order)
  {
  }

  lemma DropIncreasing<V>(order: seq<Entry<V>>, key: seq<byte>, counter: nat)
    requires Increasing(order, counter)
    ensures Increasing(Drop(order, key), counter)
  {
    var p := DropAt(order, key);
  }

  // ----- what is printed

  lemma ListedElement<V>(order: seq<Entry<V>>, m: map<seq<byte>, (nat, V)>, e: Entry<V>)
    requires Lists(order, m)
    ensures e in order <==> e.key in m && m[e.key] == (e.serial, e.value)
  {
    if e.key in m {
      var i :| 0 <= i < |order| && order[i].key == e.key;
    }
  }

  lemma {:induction false} DistinctCount<A>(s: seq<A>, x: A)
    requires Distinct(s)
    ensures multiset(s)[x] == if x in s then 1 else 0
  {
    if s != [] {
      DistinctCount(s[1..], x);
      assert s == [s[0]] + s[1..];
    }
  }

  lemma SameMembersSameMultiset<V>(a: seq<Entry<V>>, b: seq<Entry<V>>, m: map<seq<byte>, (nat, V)>)
    requires Lists(a, m) && Lists(b, m)
    ensures multiset(a) == multiset(b)
  {
    forall e: Entry<V> ensures multiset(a)[e] == multiset(b)[e] {
      ListedElement(a, m, e);
      ListedElement(b, m, e);
      DistinctCount(a, e);
      DistinctCount(b, e);
    }
  }

  /** Whatever the layout of the table, its members sorted by serial are those of `order`. */
  lemma SortedIsOrder<V>(entries: seq<Entry<V>>, order: seq<Entry<V>>, m: map<seq<byte>, (nat, V)>, counter: nat)
    requires Lists(entries, m) && Lists(order, m) && Increasing(order, counter)
    ensures Sort(entries, BySerial) == order
  {
    SameMembersSameMultiset(entries, order, m);
    SortPermutes(order, BySerial);
    InOrderAlready(order, counter);
    SerialsDiffer(entries, order, m, counter);
    OnlySortedPermutation(entries, order, BySerial);
  }

  lemma InOrderAlready<V>(order: seq<Entry<V>>, counter: nat)
    requires Increasing(order, counter)
    ensures Ordered(order, BySerial)
  {
  }

  lemma SerialsDiffer<V>(entries: seq<Entry<V>>, order: seq<Entry<V>>, m: map<seq<byte>, (nat, V)>, counter: nat)
    requires Lists(entries, m) && Lists(order, m) && Increasing(order, counter)
    ensures DistinctSerials(entries) && forall i :: 0 <= i < |entries| ==> entries[i].serial < counter
  {
    forall i | 0 <= i < |entries| ensures entries[i] in order {
      ListedElement(entries, m, entries[i]);
      ListedElement(order, m, entries[i]);
    }
    forall i, j | 0 <= i < j < |entries| ensures entries[i].serial != entries[j].serial {
      var k :| 0 <= k < |order| && order[k] == entries[i];
      var l :| 0 <= l < |order| && order[l] == entries[j];
    }
  }

  // ----- the object

  class JsonObject<V> {
    const table: Hashtable<V>
    var serial: nat
    /** The members in the order of their first insertion since they were last absent. */
    ghost var order: seq<Entry<V>>

    ghost predicate Valid()
      reads this, table, table.buckets, table.list, table.nodes
    {
      table.Valid() && Lists(order, table.Map()) && Increasing(order, serial)
    }

    /** `json_object`. */
    constructor (hashKey: seq<byte> -> nat)
      ensures Valid() && order == [] && serial == 0
      ensures fresh(table) && fresh(table.buckets) && fresh(table.list) && table.nodes == [] && table.size == 0
      ensures table.hashKey == hashKey && table.Entries() == [] && table.buckets.Length == PRIMES[0]
    {
      table := new Hashtable(hashKey);
      serial := 0;
      order := [];
    }

    /** `json_object_set_new_nocheck` on an object other than `value`: a serial is used up even when the key is there already. */
    method Set(key: seq<byte>, value: V) returns (freed: Option<V>)
      requires Valid() && (table.size < table.buckets.Length || table.numBuckets + 1 < |PRIMES|)
      modifies this, table, table.buckets, table.list, table.nodes
      ensures Valid() && serial == old(serial) + 1 && order == SetMember(old(order), key, old(serial), value)
      ensures table.size <= old(table.size) + 1
      ensures fresh(table.buckets) || table.buckets == old(table.buckets)
      ensures forall i :: 0 <= i < |table.nodes| ==> table.nodes[i] in old(table.nodes) || fresh(table.nodes[i])
      ensures key in KeySet(old(order)) ==>
        && multiset(table.nodes) == multiset(old(table.nodes)) && table.size == old(table.size)
        && (old(table.size < table.buckets.Length) ==> table.nodes == old(table.nodes))
      ensures old(table.size) < table.buckets.Length
      ensures table.buckets.Length > 0 && (old(table.size < table.buckets.Length) ==> table.buckets.Length == old(table.buckets.Length))
      ensures var es := if old(table.size < table.buckets.Length) then old(table.Entries()) else Laid(old(table.Entries()), table.hashKey, table.buckets.Length);
        table.Entries() == AfterSet(es, table.hashKey, table.buckets.Length, key, old(serial), value)
    {
      hide Hashtable.Valid, Hashtable.Map, Hashtable.Entries, SetMember, Lists, Increasing, Laid, AfterSet, KeySet;
      KeysOfMap(order, table.Map());
      PutLists(order, table.Map(), key, serial, value);
      PutIncreasing(order, key, serial, value);
      freed := table.Set(key, serial, value);
      order := SetMember(order, key, serial, value);
      serial := serial + 1;
    }

    /** `json_object_del`. */
    method Del(key: seq<byte>) returns (freed: Option<V>)
      requires Valid()
      modifies this, table, table.buckets, table.list, table.nodes
      ensures Valid() && serial == old(serial) && order == Drop(old(order), key)
      ensures table.size <= old(table.size) && table.buckets == old(table.buckets)
      ensures forall i :: 0 <= i < |table.nodes| ==> table.nodes[i] in old(table.nodes)
    {
      hide Hashtable.Valid, Hashtable.Map, Hashtable.Entries, Drop, Lists, Increasing, Removed;
      DropLists(order, table.Map(), key);
      DropIncreasing(order, key, serial);
      ghost var place;
      freed, place := table.Del(key);
      order := Drop(order, key);
    }

    /** `json_object_clear`; the counter goes on. */
    method Clear() returns (freed: seq<V>)
      requires Valid()
      modifies this, table, table.buckets, table.list
      ensures Valid() && serial == old(serial) && order == []
      ensures table.size == 0 && table.buckets == old(table.buckets) && table.nodes == []
    {
      hide Hashtable.Valid, Hashtable.Map;
      freed := table.Clear();
      order := [];
    }

    /** What `qsort` may make of the members of the table is what it may make of them in order of insertion. */
    lemma SameSorting(sorted: seq<Entry<V>>)
      requires Valid()
      ensures DistinctSerials(order) && Sort(order, BySerial) == order
      ensures MayGive(table.Entries(), BySerial, sorted) <==> MayGive(order, BySerial, sorted)
    {
      table.EntriesAreMap();
      SameMembersSameMultiset(table.Entries(), order, table.Map());
      SortedIsOrder(order, order, table.Map(), serial);
      hide MayGive;
      SameSortingOf(table.Entries(), order, sorted);
    }

    /** With JSON_PRESERVE_ORDER the members are printed in the order of their first insertion, if the comparator tells the serials apart. */
    lemma PrintedInOrder(sorted: seq<Entry<V>>)
      requires Valid() && MayGive(table.Entries(), BySerial, sorted) && SerialsFit(order)
      ensures sorted == order
    {
      hide Valid, MayGive, SerialsFit;
      SameSorting(sorted);
      GivesSorted(order, BySerial, sorted);
    }

    /** A pair of the table is a member. */
    lemma EntryInOrder(place: nat)
      requires Valid() && place < |table.Entries()|
      ensures DistinctKeys(order)
      ensures exists i :: 0 <= i < |order| && order[i].key == table.Entries()[place].key && order[i].value == table.Entries()[place].value
    {
      table.EntriesAreMap();
      hide Hashtable.Valid, Hashtable.Map, Hashtable.Entries, Increasing;
      var e := table.Entries()[place];
      assert e.key in KeySet(table.Entries()) && e.key in KeySet(order);
      var i :| 0 <= i < |order| && order[i].key == e.key;
    }

    lemma SizeIsOrder()
      requires Valid()
      ensures table.size == |order|
    {
      hide Hashtable.Valid, Hashtable.Map, Increasing;
      table.SizeIsMap();
      KeySetSize(order);
      assert |table.Map().Keys| == |table.Map()|;
    }
  }

  lemma SameSortingOf<V>(a: seq<Entry<V>>, b: seq<Entry<V>>, sorted: seq<Entry<V>>)
    requires multiset(a) == multiset(b)
    ensures MayGive(a, BySerial, sorted) <==> MayGive(b, BySerial, sorted)
  {
    hide Compare;
    SameElements(a, b);
  }

  /** The loop of `do_dump` that collects the keys of an object, and the sorting behind it. */
  method CollectAndSort<V>(json: JsonObject<V>, order: Order) returns (sorted: seq<Entry<V>>)
    requires json.Valid()
    ensures MayGive(json.table.Entries(), order, sorted)
  {
    var keys := Collect(json.table);
    QsortMayGive(keys, order);
    sorted := Qsort(keys, order);
  }

  /** Two plain sets with the library's hash function: both keys are in bucket 0 of 5, and the second goes in front. */
  method SecondInFront<V>(x: V, y: V) returns (json: JsonObject<V>)
    ensures json.Valid() && json.order == [Entry([0x61], 0, x), Entry([0x66], 1, y)]
    ensures json.table.Entries() == [Entry([0x66], 1, y), Entry([0x61], 0, x)]
  {
    hide Hashtable.Valid, Hashtable.Map, Hashtable.Entries, Lists, Increasing;
    json := new JsonObject(HashKey);
    json.SizeIsOrder();
    var freed := json.Set([0x61], x);
    OneMember(HashKey, [0x61], 0, x);
    assert json.table.Entries() == [Entry([0x61], 0, x)];
    json.SizeIsOrder();
    freed := json.Set([0x66], y);
    TwoMembers(x, y);
  }

  lemma OneMember<V>(hashKey: seq<byte> -> nat, key: seq<byte>, serial: nat, x: V)
    ensures AfterSet([], hashKey, 5, key, serial, x) == [Entry(key, serial, x)]
    ensures SetMember([], key, serial, x) == [Entry(key, serial, x)]
  {
  }

  lemma TwoMembers<V>(x: V, y: V)
    ensures var a, f := Entry([0x61], 0, x), Entry([0x66], 1, y);
      AfterSet([a], HashKey, 5, [0x66], 1, y) == [f, a] && SetMember([a], [0x66], 1, y) == [a, f]
  {
    assert HashFrom(5381, [0x61]) == 177670;
    assert HashFrom(5381, [0x66]) == 177675;
  }

  method Collect<V>(table: Hashtable<V>) returns (keys: seq<Entry<V>>)
    requires table.Valid()
    ensures keys == table.Entries()
  {
    hide Hashtable.Valid, Hashtable.Map, Hashtable.Entries;
    keys := [];
    var iter := table.Iter();
    table.EntriesSize();
    while iter != null
      invariant |keys| <= |table.nodes| && iter == (if |keys| == |table.nodes| then null else table.nodes[|keys|])
      invariant keys == table.Entries()[..|keys|]
      decreases |table.nodes| - |keys|
    {
      table.EntryAt(|keys|);
      var Tag(key, serial, _) := iter.tag.value;
      var next := table.IterNext(iter, |keys|);
      keys := keys + [Entry(key, serial, iter.data.value)];
      iter := next;
    }
  }

  // ----- any history of an object

  datatype ObjectOp<V> = SetKey(key: seq<byte>, value: V) | DelMember(key: seq<byte>) | ClearMembers

  /** The `set` call by which a key that is there now came in. */
  ghost function InsertedAt<V>(ops: seq<ObjectOp<V>>, key: seq<byte>): Option<nat> {
    if ops == [] then None
    else
      var n := |ops| - 1;
      var before := InsertedAt(ops[..n], key);
      match ops[n]
      case SetKey(k, _) => if k == key && before == None then Some(n) else before
      case DelMember(k) => if k == key then None else before
      case ClearMembers => None
  }

  /** The value the key has now: that of the last `set` call for it. */
  ghost function ValueAfter<V>(ops: seq<ObjectOp<V>>, key: seq<byte>): Option<V> {
    if ops == [] then None
    else
      var n := |ops| - 1;
      var before := ValueAfter(ops[..n], key);
      match ops[n]
      case SetKey(k, v) => if k == key then Some(v) else before
      case DelMember(k) => if k == key then None else before
      case ClearMembers => None
  }

  ghost predicate AllThere<V>(order: seq<Entry<V>>, ops: seq<ObjectOp<V>>) {
    forall key :: InsertedAt(ops, key).Some? ==> key in KeySet(order)
  }

  ghost predicate Current<V>(order: seq<Entry<V>>, ops: seq<ObjectOp<V>>) {
    forall i :: 0 <= i < |order| ==> InsertedAt(ops, order[i].key).Some? && ValueAfter(ops, order[i].key) == Some(order[i].value)
  }

  ghost predicate Rising<V>(order: seq<Entry<V>>, ops: seq<ObjectOp<V>>)
    requires Current(order, ops)
  {
    forall i, j :: 0 <= i < j < |order| ==> InsertedAt(ops, order[i].key).value < InsertedAt(ops, order[j].key).value
  }

  /** The members are those that came in and were not deleted since, with their last values, in the order in which they came in. */
  ghost predicate InsertionOrder<V>(order: seq<Entry<V>>, ops: seq<ObjectOp<V>>) {
    AllThere(order, ops) && Current(order, ops) && Rising(order, ops)
  }

  /** How many keys were set, which is the counter. */
  ghost function Sets<V>(ops: seq<ObjectOp<V>>): nat {
    if ops == [] then 0 else Sets(ops[..|ops| - 1]) + if ops[|ops| - 1].SetKey? then 1 else 0
  }

  /** The serial of a key that is there now. */
  ghost function SerialAfter<V>(ops: seq<ObjectOp<V>>, key: seq<byte>): Option<nat> {
    var at := InsertedAt(ops, key);
    InsertedBefore(ops, key);
    if at.Some? then Some(Sets(ops[..at.value])) else None
  }

  ghost predicate Dated<V>(order: seq<Entry<V>>, ops: seq<ObjectOp<V>>) {
    forall i :: 0 <= i < |order| ==> SerialAfter(ops, order[i].key) == Some(order[i].serial)
  }

  /** The keys that are there now. */
  ghost function LiveKeys<V>(ops: seq<ObjectOp<V>>): set<seq<byte>> {
    if ops == [] then {}
    else
      var before := LiveKeys(ops[..|ops| - 1]);
      match ops[|ops| - 1]
      case SetKey(k, _) => before + {k}
      case DelMember(k) => before - {k}
      case ClearMembers => {}
  }

  lemma {:induction false} LiveIff<V>(ops: seq<ObjectOp<V>>, key: seq<byte>)
    ensures key in LiveKeys(ops) <==> InsertedAt(ops, key).Some?
  {
    if ops != [] {
      LiveIff(ops[..|ops| - 1], key);
    }
  }

  /** Between the insertions of any two live keys, the number of keys set is positive and below 2^31 modulo 2^32. */
  ghost predicate SetsFit<V>(ops: seq<ObjectOp<V>>) {
    forall k, l :: k in LiveKeys(ops) && l in LiveKeys(ops) && SerialAfter(ops, k).Some? && SerialAfter(ops, l).Some? ==>
      Close(SerialAfter(ops, k).value, SerialAfter(ops, l).value)
  }

  lemma FitIff<V>(order: seq<Entry<V>>, ops: seq<ObjectOp<V>>)
    requires InsertionOrder(order, ops) && Dated(order, ops)
    ensures SerialsFit(order) <==> SetsFit(ops)
  {
    hide InsertedAt, LiveKeys, Close, SerialAfter;
    forall k ensures k in LiveKeys(ops) <==> k in KeySet(order) {
      LiveIff(ops, k);
      if k in KeySet(order) {
        var i :| 0 <= i < |order| && order[i].key == k;
        assert InsertedAt(ops, order[i].key).Some?;
      }
    }
    if SetsFit(ops) {
      forall a, b | a in order && b in order ensures Close(a.serial, b.serial) {
        var i :| 0 <= i < |order| && order[i] == a;
        var j :| 0 <= j < |order| && order[j] == b;
        assert SerialAfter(ops, order[i].key) == Some(a.serial) && SerialAfter(ops, order[j].key) == Some(b.serial);
        assert order[i].key in KeySet(order) && order[j].key in KeySet(order);
      }
    }
    if SerialsFit(order) {
      forall k, l | k in LiveKeys(ops) && l in LiveKeys(ops) && SerialAfter(ops, k).Some? && SerialAfter(ops, l).Some?
        ensures Close(SerialAfter(ops, k).value, SerialAfter(ops, l).value)
      {
        assert k in KeySet(order) && l in KeySet(order);
        var i :| 0 <= i < |order| && order[i].key == k;
        var j :| 0 <= j < |order| && order[j].key == l;
        assert order[i] in order && order[j] in order;
      }
    }
  }

  lemma LiveSize<V>(order: seq<Entry<V>>, ops: seq<ObjectOp<V>>)
    requires InsertionOrder(order, ops) && DistinctKeys(order)
    ensures |LiveKeys(ops)| == |order|
  {
    hide InsertedAt, LiveKeys, ValueAfter;
    forall k ensures k in LiveKeys(ops) <==> k in KeySet(order) {
      LiveIff(ops, k);
      if k in KeySet(order) {
        var i :| 0 <= i < |order| && order[i].key == k;
        assert InsertedAt(ops, order[i].key).Some?;
      }
    }
    KeySetSize(order);
    assert LiveKeys(ops) == KeySet(order);
  }

  /** A step that keeps the history of a key keeps its serial. */
  lemma SameSerial<V>(ops: seq<ObjectOp<V>>, op: ObjectOp<V>, key: seq<byte>)
    requires InsertedAt(ops + [op], key) == InsertedAt(ops, key)
    ensures SerialAfter(ops + [op], key) == SerialAfter(ops, key)
  {
    hide InsertedAt;
    InsertedBefore(ops, key);
    if InsertedAt(ops, key).Some? {
      var n := InsertedAt(ops, key).value;
      assert (ops + [op])[..n] == ops[..n];
    }
  }

  lemma PutDated<V>(order: seq<Entry<V>>, ops: seq<ObjectOp<V>>, key: seq<byte>, value: V)
    requires InsertionOrder(order, ops) && Dated(order, ops) && DistinctKeys(order)
    ensures Dated(SetMember(order, key, Sets(ops), value), ops + [SetKey(key, value)])
  {
    hide SetMember, InsertedAt, ValueAfter, InsertionOrder, SerialAfter, Sets, DistinctKeys;
    var p := PutAt(order, key, Sets(ops), value);
    var r, op := SetMember(order, key, Sets(ops), value), SetKey(key, value);
    KeyAbsentFrom(order, ops, key, p);
    forall i | 0 <= i < |r| ensures SerialAfter(ops + [op], r[i].key) == Some(r[i].serial) {
      PutStep(ops, key, value, r[i].key);
      if i < |order| {
        IsDated(order, ops, i);
        SameSerial(ops, op, r[i].key);
      } else {
        NewSerial(ops, key, value);
      }
    }
  }

  lemma IsDated<V>(order: seq<Entry<V>>, ops: seq<ObjectOp<V>>, i: nat)
    requires Dated(order, ops) && i < |order|
    ensures SerialAfter(ops, order[i].key) == Some(order[i].serial) && InsertedAt(ops, order[i].key).Some?
  {
  }

  lemma NewSerial<V>(ops: seq<ObjectOp<V>>, key: seq<byte>, value: V)
    requires InsertedAt(ops, key) == None
    ensures SerialAfter(ops + [SetKey(key, value)], key) == Some(Sets(ops))
  {
    PutStep(ops, key, value, key);
    hide InsertedAt, Sets;
    assert (ops + [SetKey(key, value)])[..|ops|] == ops;
  }

  lemma DropDated<V>(order: seq<Entry<V>>, ops: seq<ObjectOp<V>>, key: seq<byte>)
    requires Dated(order, ops) && DistinctKeys(order)
    ensures Dated(Drop(order, key), ops + [DelMember(key)])
  {
    hide Drop, InsertedAt, ValueAfter, SerialAfter, Sets;
    var p := DropAt(order, key);
    var r := Drop(order, key);
    forall i | 0 <= i < |r| ensures SerialAfter(ops + [DelMember(key)], r[i].key) == Some(r[i].serial) {
      var j := if i < p then i else i + 1;
      assert j < |order| && r[i] == order[j] && order[j].key != key;
      IsDated(order, ops, j);
      DropStep(ops, key, order[j].key);
      SameSerial(ops, DelMember(key), order[j].key);
    }
  }

  lemma MoreSets<V>(ops: seq<ObjectOp<V>>, op: ObjectOp<V>)
    ensures Sets(ops + [op]) == Sets(ops) + if op.SetKey? then 1 else 0
  {
    assert (ops + [op])[..|ops|] == ops;
  }

  lemma {:induction false} InsertedBefore<V>(ops: seq<ObjectOp<V>>, key: seq<byte>)
    ensures InsertedAt(ops, key).Some? ==> InsertedAt(ops, key).value < |ops|
  {
    if ops != [] {
      InsertedBefore(ops[..|ops| - 1], key);
    }
  }

  lemma PutInsertionOrder<V>(order: seq<Entry<V>>, ops: seq<ObjectOp<V>>, key: seq<byte>, serial: nat, value: V)
    requires InsertionOrder(order, ops) && DistinctKeys(order)
    ensures InsertionOrder(SetMember(order, key, serial, value), ops + [SetKey(key, value)])
  {
    hide SetMember, InsertedAt, ValueAfter, InsertionOrder, DistinctKeys;
    var p := PutAt(order, key, serial, value);
    forall k ensures AfterPut(ops, key, value, k) {
      PutStep(ops, key, value, k);
    }
    KeyAbsentFrom(order, ops, key, p);
    if p < |order| {
      OverwrittenOrder(order, ops, key, value, p);
    } else {
      AppendedOrder(order, ops, key, serial, value);
    }
  }

  /** Setting a key leaves the other keys' histories alone and dates the key only if it is new. */
  ghost predicate AfterPut<V>(ops: seq<ObjectOp<V>>, key: seq<byte>, value: V, k: seq<byte>) {
    var ops' := ops + [SetKey(key, value)];
    && InsertedAt(ops', k) == (if k == key && InsertedAt(ops, k) == None then Some(|ops|) else InsertedAt(ops, k))
    && ValueAfter(ops', k) == (if k == key then Some(value) else ValueAfter(ops, k))
    && (InsertedAt(ops, k).Some? ==> InsertedAt(ops, k).value < |ops|)
  }

  lemma PutStep<V>(ops: seq<ObjectOp<V>>, key: seq<byte>, value: V, k: seq<byte>)
    ensures AfterPut(ops, key, value, k)
  {
    var ops' := ops + [SetKey(key, value)];
    assert ops'[..|ops|] == ops;
    InsertedBefore(ops, k);
  }

  lemma OverwrittenOrder<V>(order: seq<Entry<V>>, ops: seq<ObjectOp<V>>, key: seq<byte>, value: V, p: nat)
    requires InsertionOrder(order, ops) && DistinctKeys(order) && p < |order| && order[p].key == key
    requires forall k :: AfterPut(ops, key, value, k)
    ensures InsertionOrder(order[p := order[p].(value := value)], ops + [SetKey(key, value)])
  {
    hide InsertedAt, ValueAfter;
    var r := order[p := order[p].(value := value)];
    forall i | 0 <= i < |r| ensures r[i].key == order[i].key && AfterPut(ops, key, value, r[i].key) {
    }
    forall k | InsertedAt(ops + [SetKey(key, value)], k).Some? ensures k in KeySet(r) {
      assert AfterPut(ops, key, value, k);
      assert key in KeySet(order);
      var i :| 0 <= i < |order| && order[i].key == k;
      assert r[i].key == k;
    }
  }

  lemma AppendedOrder<V>(order: seq<Entry<V>>, ops: seq<ObjectOp<V>>, key: seq<byte>, serial: nat, value: V)
    requires InsertionOrder(order, ops) && InsertedAt(ops, key) == None
    requires forall k :: AfterPut(ops, key, value, k)
    ensures InsertionOrder(order + [Entry(key, serial, value)], ops + [SetKey(key, value)])
  {
    hide InsertedAt, ValueAfter, AllThere;
    var r, ops' := order + [Entry(key, serial, value)], ops + [SetKey(key, value)];
    AppendedAllThere(order, ops, key, serial, value);
    forall i | 0 <= i < |order| ensures r[i] == order[i] && r[i].key != key && AfterPut(ops, key, value, r[i].key) {
    }
    assert AfterPut(ops, key, value, key);
    forall i | 0 <= i < |r| ensures InsertedAt(ops', r[i].key).Some? && ValueAfter(ops', r[i].key) == Some(r[i].value) {
    }
    assert Current(r, ops');
    forall i, j | 0 <= i < j < |r| ensures InsertedAt(ops', r[i].key).value < InsertedAt(ops', r[j].key).value {
    }
  }

  lemma AppendedAllThere<V>(order: seq<Entry<V>>, ops: seq<ObjectOp<V>>, key: seq<byte>, serial: nat, value: V)
    requires AllThere(order, ops) && forall k :: AfterPut(ops, key, value, k)
    ensures AllThere(order + [Entry(key, serial, value)], ops + [SetKey(key, value)])
  {
    hide InsertedAt, ValueAfter;
    var r := order + [Entry(key, serial, value)];
    forall k | InsertedAt(ops + [SetKey(key, value)], k).Some? ensures k in KeySet(r) {
      assert AfterPut(ops, key, value, k);
      if k != key {
        var i :| 0 <= i < |order| && order[i].key == k;
        assert r[i].key == k;
      } else {
        assert r[|order|].key == k;
      }
    }
  }

  lemma KeyAbsentFrom<V>(order: seq<Entry<V>>, ops: seq<ObjectOp<V>>, key: seq<byte>, p: nat)
    requires InsertionOrder(order, ops) && p <= |order| && forall i :: 0 <= i < p ==> order[i].key != key
    ensures p == |order| ==> InsertedAt(ops, key) == None
  {
    if p == |order| {
      KeyAbsent(order, key);
    }
  }

  lemma DropInsertionOrder<V>(order: seq<Entry<V>>, ops: seq<ObjectOp<V>>, key: seq<byte>)
    requires InsertionOrder(order, ops) && DistinctKeys(order)
    ensures InsertionOrder(Drop(order, key), ops + [DelMember(key)])
  {
    hide Drop, InsertedAt, ValueAfter, InsertionOrder, DistinctKeys;
    var p := DropAt(order, key);
    forall k ensures AfterDrop(ops, key, k) {
      DropStep(ops, key, k);
    }
    if p < |order| {
      RemovedOrder(order, ops, key, p);
    } else {
      SameOrder(order, ops, key);
    }
  }

  /** Deleting a key leaves the other keys' histories alone. */
  ghost predicate AfterDrop<V>(ops: seq<ObjectOp<V>>, key: seq<byte>, k: seq<byte>) {
    var ops' := ops + [DelMember(key)];
    && InsertedAt(ops', k) == (if k == key then None else InsertedAt(ops, k))
    && ValueAfter(ops', k) == (if k == key then None else ValueAfter(ops, k))
  }

  lemma DropStep<V>(ops: seq<ObjectOp<V>>, key: seq<byte>, k: seq<byte>)
    ensures AfterDrop(ops, key, k)
  {
    var ops' := ops + [DelMember(key)];
    assert ops'[..|ops|] == ops;
  }

  lemma SameOrder<V>(order: seq<Entry<V>>, ops: seq<ObjectOp<V>>, key: seq<byte>)
    requires InsertionOrder(order, ops) && forall i :: 0 <= i < |order| ==> order[i].key != key
    requires forall k :: AfterDrop(ops, key, k)
    ensures InsertionOrder(order, ops + [DelMember(key)])
  {
    hide InsertedAt, ValueAfter;
    forall i | 0 <= i < |order| ensures AfterDrop(ops, key, order[i].key) {
    }
    forall k | InsertedAt(ops + [DelMember(key)], k).Some? ensures k in KeySet(order) {
      assert AfterDrop(ops, key, k);
    }
  }

  lemma RemovedOrder<V>(order: seq<Entry<V>>, ops: seq<ObjectOp<V>>, key: seq<byte>, p: nat)
    requires InsertionOrder(order, ops) && DistinctKeys(order) && p < |order| && order[p].key == key
    requires forall k :: AfterDrop(ops, key, k)
    ensures InsertionOrder(Removed(order, p), ops + [DelMember(key)])
  {
    hide InsertedAt, ValueAfter;
    var r := Removed(order, p);
    KeysRemoved(order, p);
    forall i | 0 <= i < |r| ensures r[i].key != key && AfterDrop(ops, key, r[i].key) {
      assert r[i].key in KeySet(r);
    }
    forall k | InsertedAt(ops + [DelMember(key)], k).Some? ensures k in KeySet(r) {
      assert AfterDrop(ops, key, k);
    }
    forall i | 0 <= i < |r| ensures r[i] == order[if i < p then i else i + 1] {
    }
  }

  /**
    An object after any history of sets, deletes and clears, through all rehashes, with fewer live
    keys than the last prime: `order` has the members that survived in the order in which they came
    in, and `sorted` is what `qsort` makes of them for JSON_PRESERVE_ORDER. The two are the same if
    the history fits; see `PrintedAfterIff` for the converse.
    */
  method PrintedAfter<V>(hashKey: seq<byte> -> nat, ops: seq<ObjectOp<V>>) returns (sorted: seq<Entry<V>>, ghost order: seq<Entry<V>>)
    requires forall i :: 0 <= i < |ops| ==> |LiveKeys(ops[..i])| < PRIMES[|PRIMES| - 1]
    ensures InsertionOrder(order, ops) && Dated(order, ops) && DistinctKeys(order) && Increasing(order, Sets(ops))
    ensures MayGive(order, BySerial, sorted)
    ensures SetsFit(ops) ==> InsertionOrder(sorted, ops)
  {
    hide Hashtable.Valid, Hashtable.Map, Hashtable.Entries, InsertionOrder, Increasing, Dated, LiveKeys, Sets, SetsFit, SerialsFit, MayGive;
    var json := new JsonObject(hashKey);
    NothingInserted<V>();
    var n := 0;
    while n < |ops|
      invariant n <= |ops| && json.Valid() && json.serial == Sets(ops[..n])
      invariant fresh(json) && fresh(json.table) && fresh(json.table.buckets) && fresh(json.table.list)
      invariant forall i :: 0 <= i < |json.table.nodes| ==> fresh(json.table.nodes[i])
      invariant InsertionOrder(json.order, ops[..n]) && Dated(json.order, ops[..n])
    {
      assert ops[..n + 1] == ops[..n] + [ops[n]];
      json.SizeIsOrder();
      LiveSize(json.order, ops[..n]);
      OneObjectOp(json, ops[n], ops[..n]);
      n := n + 1;
    }
    assert ops[..n] == ops;
    order := json.order;
    sorted := CollectAndSort(json, BySerial);
    json.SameSorting(sorted);
    FitIff(order, ops);
    if SetsFit(ops) {
      GivesSorted(order, BySerial, sorted);
    }
  }

  /** For members with increasing serials: insertion order is certain exactly when the history fits. */
  lemma PrintedAfterIff<V(!new)>(order: seq<Entry<V>>, ops: seq<ObjectOp<V>>, counter: nat)
    requires InsertionOrder(order, ops) && Dated(order, ops) && Increasing(order, counter)
    ensures (forall r :: MayGive(order, BySerial, r) ==> r == order) <==> SetsFit(ops)
  {
    hide InsertionOrder, Dated, SetsFit, SerialsFit, MayGive;
    FitIff(order, ops);
    InOrderAlready(order, counter);
    OnlySortedPermutation(order, order, BySerial);
    SerialOrderIff(order);
  }

  /** One key is set 2^31 + 1 times and then another. */
  ghost function LongHistory<V>(n: nat, x: V): seq<ObjectOp<V>> {
    seq(n, _ => SetKey([0x61], x))
  }

  lemma {:induction false} LongHistoryOf<V>(n: nat, x: V, k: seq<byte>)
    requires n > 0
    ensures InsertedAt(LongHistory(n, x), k) == if k == [0x61] then Some(0) else None
    ensures Sets(LongHistory(n, x)) == n
  {
    if n > 1 {
      LongHistoryOf(n - 1, x, k);
      assert LongHistory(n, x)[..n - 1] == LongHistory(n - 1, x);
    }
  }

  lemma LongHistoryLength<V>(n: nat, x: V)
    ensures |LongHistory(n, x)| == n
  {
  }

  lemma FirstSerial<V>(past: seq<ObjectOp<V>>)
    requires InsertedAt(past, [0x61]) == Some(0)
    ensures SerialAfter(past, [0x61]) == Some(0)
  {
    hide InsertedAt;
    InsertedBefore(past, [0x61]);
    assert past[..0] == [];
  }

  lemma TwoLive<V>(order: seq<Entry<V>>, ops: seq<ObjectOp<V>>)
    requires InsertionOrder(order, ops) && DistinctKeys(order) && |ops| > 0
    requires forall k :: InsertedAt(ops, k).Some? <==> k == [0x61] || k == [0x62]
    requires InsertedAt(ops, [0x61]).value < InsertedAt(ops, [0x62]).value
    ensures |order| == 2 && order[0].key == [0x61] && order[1].key == [0x62]
  {
    hide InsertedAt, ValueAfter;
    assert KeySet(order) == {[0x61], [0x62]} by {
      assert forall i :: 0 <= i < |order| ==> InsertedAt(ops, order[i].key).Some?;
    }
    KeySetSize(order);
    assert order[0].key in KeySet(order) && order[1].key in KeySet(order);
  }

  lemma LongSerials<V>(past: seq<ObjectOp<V>>, x: V, y: V, ops: seq<ObjectOp<V>>)
    requires past == LongHistory(0x8000_0001, x) && ops == past + [SetKey([0x62], y)]
    ensures forall k :: InsertedAt(ops, k) == if k == [0x61] then Some(0) else if k == [0x62] then Some(0x8000_0001) else None
    ensures SerialAfter(ops, [0x61]) == Some(0) && SerialAfter(ops, [0x62]) == Some(0x8000_0001)
  {
    hide LongHistory, InsertedAt, ValueAfter, Sets, SerialAfter;
    LongHistoryLength(0x8000_0001, x);
    forall k ensures InsertedAt(ops, k) == if k == [0x61] then Some(0) else if k == [0x62] then Some(0x8000_0001) else None {
      LongHistoryOf(0x8000_0001, x, k);
      PutStep(past, [0x62], y, k);
    }
    LongHistoryOf(0x8000_0001, x, [0x61]);
    LongHistoryOf(0x8000_0001, x, [0x62]);
    FirstSerial(past);
    SameSerial(past, SetKey([0x62], y), [0x61]);
    NewSerial(past, [0x62], y);
  }

  /** A history of two keys, one of them overwritten 2^31 times, after which the members are printed the wrong way round. */
  lemma PrintedAfterCounterexample<V>(x: V, y: V, order: seq<Entry<V>>, sorted: seq<Entry<V>>)
    requires var ops := LongHistory(0x8000_0001, x) + [SetKey([0x62], y)];
      InsertionOrder(order, ops) && Dated(order, ops) && DistinctKeys(order) && MayGive(order, BySerial, sorted)
    ensures |order| == 2 && order[0].key == [0x61] && order[1].key == [0x62]
    ensures sorted == [order[1], order[0]]
  {
    hide LongHistory, InsertedAt, ValueAfter, MayGive, Sets, InsertionOrder, SerialAfter, Dated;
    var past := LongHistory(0x8000_0001, x);
    var ops := past + [SetKey([0x62], y)];
    LongSerials(past, x, y, ops);
    TwoLive(order, ops);
    IsDated(order, ops, 0);
    IsDated(order, ops, 1);
    assert order == [Entry([0x61], 0, order[0].value), Entry([0x62], 0x8000_0001, order[1].value)];
    SerialOrderCounterexample(order[0].value, order[1].value, sorted);
  }

  lemma NothingInserted<V>()
    ensures InsertionOrder<V>([], []) && Dated<V>([], []) && Sets<V>([]) == 0
  {
  }

  lemma ClearedOrder<V>(ops: seq<ObjectOp<V>>)
    ensures InsertionOrder([], ops + [ClearMembers]) && Dated([], ops + [ClearMembers])
  {
  }

  method OneObjectOp<V>(json: JsonObject<V>, op: ObjectOp<V>, ghost ops: seq<ObjectOp<V>>)
    requires json.Valid() && json.table.size < PRIMES[|PRIMES| - 1]
    requires InsertionOrder(json.order, ops) && Dated(json.order, ops) && json.serial == Sets(ops)
    modifies json, json.table, json.table.buckets, json.table.list, json.table.nodes
    ensures json.Valid()
    ensures fresh(json.table.buckets) || json.table.buckets == old(json.table.buckets)
    ensures forall i :: 0 <= i < |json.table.nodes| ==> json.table.nodes[i] in old(json.table.nodes) || fresh(json.table.nodes[i])
    ensures InsertionOrder(json.order, ops + [op]) && Dated(json.order, ops + [op]) && json.serial == Sets(ops + [op])
  {
    hide Hashtable.Valid, Hashtable.Map, Hashtable.Entries, InsertionOrder, Increasing, Dated, Sets, Laid, AfterSet;
    MoreSets(ops, op);
    json.table.RoomLeft();
    match op {
      case SetKey(key, value) =>
        PutInsertionOrder(json.order, ops, key, json.serial, value);
        PutDated(json.order, ops, key, value);
        var freed := json.Set(key, value);
      case DelMember(key) =>
        DropInsertionOrder(json.order, ops, key);
        DropDated(json.order, ops, key);
        var freed := json.Del(key);
      case ClearMembers =>
        ClearedOrder(ops);
        var freed := json.Clear();
    }
  }

  // ----- json_object_update

  /** Setting members one after the other, with serials from `serial` on. */
  ghost function SetAll<V>(order: seq<Entry<V>>, serial: nat, es: seq<Entry<V>>): seq<Entry<V>>
    decreases |es|
  {
    if es == [] then order
    else SetAll(SetMember(order, es[0].key, serial, es[0].value), serial + 1, es[1..])
  }

  /** Two objects that share no memory. */
  ghost predicate Apart<V>(a: Hashtable<V>, b: Hashtable<V>)
    reads a, b
  {
    && a != b && a.buckets != b.buckets && a.list != b.list && a.list !in b.nodes && b.list !in a.nodes
    && forall i :: 0 <= i < |a.nodes| ==> a.nodes[i] !in b.nodes
  }

  /** One member of `other` is set; `other` is not touched. */
  method SetOne<V>(json: JsonObject<V>, other: JsonObject<V>, key: seq<byte>, value: V)
    requires json.Valid() && other.table.Valid() && json != other && Apart(json.table, other.table)
    requires json.table.size < PRIMES[|PRIMES| - 1]
    modifies json, json.table, json.table.buckets, json.table.list, json.table.nodes
    ensures json.Valid() && json.serial == old(json.serial) + 1 && json.order == SetMember(old(json.order), key, old(json.serial), value)
    ensures json.table.size <= old(json.table.size) + 1
    ensures fresh(json.table.buckets) || json.table.buckets == old(json.table.buckets)
    ensures forall k :: 0 <= k < |json.table.nodes| ==> json.table.nodes[k] in old(json.table.nodes) || fresh(json.table.nodes[k])
    ensures other.table.Valid() && other.table.Entries() == old(other.table.Entries()) && other.table.nodes == old(other.table.nodes)
    ensures Apart(json.table, other.table)
  {
    hide Hashtable.Valid, Hashtable.Map, Hashtable.Entries, Lists, Increasing, SetMember;
    json.table.RoomLeft();
    var freed := json.Set(key, value);
  }

  /**
    `json_object_update` with another object: its members are set in its iteration order, so
    members new to `json` come behind the old ones in that order.
    */
  method Update<V>(json: JsonObject<V>, other: JsonObject<V>)
    requires json.Valid() && other.Valid() && json != other && Apart(json.table, other.table)
    requires json.table.size + other.table.size <= PRIMES[|PRIMES| - 1]
    modifies json, json.table, json.table.buckets, json.table.list, json.table.nodes
    ensures json.Valid() && other.table.Valid() && other.table.Entries() == old(other.table.Entries())
    ensures json.serial == old(json.serial) + |other.table.Entries()|
    ensures json.order == SetAll(old(json.order), old(json.serial), other.table.Entries())
  {
    hide Hashtable.Valid, Hashtable.Map, Hashtable.Entries, Lists, Increasing, SetMember;
    ghost var es := other.table.Entries();
    other.table.EntriesSize();
    var iter := other.table.Iter();
    ghost var i := 0;
    assert es[0..] == es;
    while iter != null
      invariant 0 <= i <= |es| == |other.table.nodes| && iter == (if i == |es| then null else other.table.nodes[i])
      invariant json.Valid() && other.table.Valid() && other.table.Entries() == es
      invariant json.serial == old(json.serial) + i && json.table.size <= old(json.table.size) + i
      invariant SetAll(json.order, json.serial, es[i..]) == SetAll(old(json.order), old(json.serial), es)
      invariant Apart(json.table, other.table)
      invariant fresh(json.table.buckets) || json.table.buckets == old(json.table.buckets)
      invariant forall k :: 0 <= k < |json.table.nodes| ==> json.table.nodes[k] in old(json.table.nodes) || fresh(json.table.nodes[k])
      decreases |es| - i
    {
      other.table.EntryAt(i);
      assert es[i..][0] == es[i] && es[i..][1..] == es[i + 1..];
      SetOne(json, other, iter.tag.value.key, iter.data.value);
      var next := other.table.IterNext(iter, i);
      iter := next;
      i := i + 1;
    }
    assert es[i..] == [];
  }

  /**
    `json_object_update` of an object with itself. The first set may rehash the table that is being
    iterated over; the iteration goes on from the same pair in the new order, so members may be left
    out. Members and order stay as they are; only the counter goes on, once for each member visited.
    */
  method UpdateSelf<V>(json: JsonObject<V>)
    requires json.Valid() && (json.table.size < json.table.buckets.Length || json.table.numBuckets + 1 < |PRIMES|)
    modifies json, json.table, json.table.buckets, json.table.list, json.table.nodes
    ensures json.Valid() && json.order == old(json.order)
    ensures old(json.serial) <= json.serial <= old(json.serial) + |json.order|
    ensures json.order != [] ==> json.serial > old(json.serial)
  {
    hide Hashtable.Valid, Hashtable.Map, Hashtable.Entries, Lists, Increasing, SetMember, KeySet, Laid, AfterSet;
    json.SizeIsOrder();
    json.table.EntriesSize();
    var iter := json.table.Iter();
    ghost var place: nat := 0;
    while iter != null
      invariant json.Valid() && json.order == old(json.order) && |json.table.nodes| == |json.order| == json.table.size
      invariant if iter == null then place == |json.order| else place < |json.order| && iter == json.table.nodes[place]
      invariant json.table.size < json.table.buckets.Length || json.table.numBuckets + 1 < |PRIMES|
      invariant old(json.serial) <= json.serial && json.serial + (|json.order| - place) <= old(json.serial) + |json.order|
      invariant if place == 0 then json.serial == old(json.serial) else json.table.size < json.table.buckets.Length && json.serial > old(json.serial)
      invariant fresh(json.table.buckets) || json.table.buckets == old(json.table.buckets)
      invariant multiset(json.table.nodes) == multiset(old(json.table.nodes))
      invariant forall k :: 0 <= k < |json.table.nodes| ==> json.table.nodes[k] in old(json.table.nodes)
      decreases if json.table.size < json.table.buckets.Length then 0 else 1, |json.order| - place
    {
      json.table.EntryAt(place);
      var key, value := iter.tag.value.key, iter.data.value;
      json.EntryInOrder(place);
      SetSame(json.order, key, json.serial, value);
      ghost var nodes := json.table.nodes;
      var freed := json.Set(key, value);
      SameElements(json.table.nodes, old(json.table.nodes));
      StillIn(nodes, json.table.nodes, iter);
      json.SizeIsOrder();
      json.table.EntriesSize();
      place := if nodes == json.table.nodes then place else PlaceIn(json.table.nodes, iter);
      iter := json.table.IterNext(iter, place);
      place := place + 1;
    }
  }

  ghost function PlaceIn<A>(s: seq<A>, x: A): (p: nat)
    requires x in s
    ensures p < |s| && s[p] == x
  {
    if s[0] == x then 0 else 1 + PlaceIn(s[1..], x)
  }

  lemma {:induction false} SetSame<V>(order: seq<Entry<V>>, key: seq<byte>, serial: nat, value: V)
    requires exists i :: 0 <= i < |order| && order[i].key == key && order[i].value == value
    requires DistinctKeys(order)
    ensures SetMember(order, key, serial, value) == order && key in KeySet(order)
  {
    var i :| 0 <= i < |order| && order[i].key == key && order[i].value == value;
    var p := PutAt(order, key, serial, value);
    assert p == i;
    assert order[p := order[p].(value := value)] == order;
  }

  /** After an update every key of `es` has its value from there, and every other key what it had. */
  lemma {:induction false} UpdatedValues<V>(order: seq<Entry<V>>, serial: nat, es: seq<Entry<V>>, key: seq<byte>)
    requires DistinctKeys(order) && DistinctKeys(es)
    ensures DistinctKeys(SetAll(order, serial, es))
    ensures Lookup(SetAll(order, serial, es), key) == if key in KeySet(es) then Lookup(es, key) else Lookup(order, key)
    decreases |es|
  {
    if es != [] {
      var e := es[0];
      var order' := SetMember(order, e.key, serial, e.value);
      LookupSet(order, e.key, serial, e.value, key);
      UpdatedValues(order', serial + 1, es[1..], key);
      FirstKey(es, key);
    }
  }

  lemma FirstKey<V>(es: seq<Entry<V>>, key: seq<byte>)
    requires es != [] && DistinctKeys(es)
    ensures DistinctKeys(es[1..]) && es[0].key !in KeySet(es[1..])
    ensures key in KeySet(es) <==> key == es[0].key || key in KeySet(es[1..])
  {
    assert forall i :: 0 <= i < |es[1..]| ==> es[1..][i] == es[i + 1];
    assert forall i :: 0 < i < |es| ==> es[i] == es[1..][i - 1];
  }

  lemma {:induction false} LookupSet<V>(order: seq<Entry<V>>, k: seq<byte>, serial: nat, value: V, key: seq<byte>)
    requires DistinctKeys(order)
    ensures DistinctKeys(SetMember(order, k, serial, value))
    ensures Lookup(SetMember(order, k, serial, value), key) == if key == k then Some(value) else Lookup(order, key)
  {
    var p := PutAt(order, k, serial, value);
    if order != [] && order[0].key != k {
      FirstKey(order, key);
      LookupSet(order[1..], k, serial, value, key);
    }
  }
}
