/**
  JSON values as finite trees. An object lists its members in the iteration order of its
  hash table; a member keeps the serial number it got when its key was inserted.
  */
module JsonValue {
  import opened Bytes
  import opened Utf8

  datatype Entry<+T> = Entry(key: seq<byte>, serial: nat, value: T)

  datatype Json =
    | Null
    | True
    | False
    | Integer(i: int)
    | Real(text: seq<byte>)
    | String(s: seq<byte>)
    | Array(elems: seq<Json>)
    | Object(entries: seq<Entry<Json>>)

  const INT_MIN := -0x8000_0000
  const INT_MAX := 0x7FFF_FFFF

  /** What `json_string` and `json_object_set_new` ask of text. */
  ghost predicate GoodText(s: seq<byte>) {
    Valid(s) && NulFree(s)
  }

  ghost predicate DistinctKeys<T>(es: seq<Entry<T>>) {
    forall i, j :: 0 <= i < j < |es| ==> es[i].key != es[j].key
  }

  ghost predicate DistinctSerials<T>(es: seq<Entry<T>>) {
    forall i, j :: 0 <= i < j < |es| ==> es[i].serial != es[j].serial
  }

  /** Any value without reals: the keys of an object are distinct, and so are their serials. */
  ghost predicate Proper(v: Json) {
    match v
    case Real(_) => false
    case Array(elems) => forall i :: 0 <= i < |elems| ==> Proper(elems[i])
    case Object(es) => DistinctKeys(es) && DistinctSerials(es) && forall i :: 0 <= i < |es| ==> Proper(es[i].value)
    case _ => true
  }

  /** A value a caller can build with the checked constructors, without reals. */
  ghost predicate WellFormed(v: Json): (b: bool)
    ensures b ==> Proper(v)
  {
    match v
    case Null => true
    case True => true
    case False => true
    case Integer(i) => INT_MIN <= i <= INT_MAX
    case Real(_) => false
    case String(s) => GoodText(s)
    case Array(elems) => forall i :: 0 <= i < |elems| ==> WellFormed(elems[i])
    case Object(es) =>
      && DistinctKeys(es)
      && DistinctSerials(es)
      && (forall i :: 0 <= i < |es| ==> GoodText(es[i].key))
      && (forall i :: 0 <= i < |es| ==> WellFormed(es[i].value))
  }

  // ----- meaning: objects as finite maps

  datatype Meaning =
    | Atom(v: Json)
    | List(elems: seq<Meaning>)
    | Dict(members: map<seq<byte>, Meaning>)

  ghost function Denote(v: Json): Meaning
    decreases v, 1
  {
    match v
    case Array(elems) => List(DenoteAll(elems))
    case Object(es) => Dict(DenoteEntries(es))
    case _ => Atom(v)
  }

  ghost function DenoteAll(vs: seq<Json>): (r: seq<Meaning>)
    ensures |r| == |vs|
    ensures forall i :: 0 <= i < |vs| ==> r[i] == Denote(vs[i])
    decreases vs, 0
  {
    if vs == [] then [] else [Denote(vs[0])] + DenoteAll(vs[1..])
  }

  ghost function KeySet<T>(es: seq<Entry<T>>): set<seq<byte>> {
    set i | 0 <= i < |es| :: es[i].key
  }

  lemma KeySetCons<T>(es: seq<Entry<T>>)
    requires es != []
    ensures KeySet(es) == KeySet(es[1..]) + {es[0].key}
  {
    assert forall i :: 0 < i < |es| ==> es[i] == es[1..][i - 1];
    assert forall i :: 0 <= i < |es[1..]| ==> es[1..][i] == es[i + 1];
  }

  ghost function DenoteEntries(es: seq<Entry<Json>>): (m: map<seq<byte>, Meaning>)
    ensures m.Keys == KeySet(es)
    ensures DistinctKeys(es) ==> forall i :: 0 <= i < |es| ==> m[es[i].key] == Denote(es[i].value)
    decreases es, 0
  {
    if es == [] then map[]
    else
      var m := DenoteEntries(es[1..]);
      KeySetCons(es);
      assert forall i :: 0 < i < |es| ==> es[i] == es[1..][i - 1];
      m[es[0].key := Denote(es[0].value)]
  }

  // ----- json_equal

  function Lookup<T>(es: seq<Entry<T>>, key: seq<byte>): (r: Option<T>)
    ensures r.Some? <==> key in KeySet(es)
    ensures DistinctKeys(es) ==> forall i :: 0 <= i < |es| && es[i].key == key ==> r == Some(es[i].value)
  {
    if es == [] then None
    else if es[0].key == key then Some(es[0].value)
    else
      assert forall i :: 0 < i < |es| ==> es[i] == es[1..][i - 1];
      assert forall i :: 0 <= i < |es[1..]| ==> es[1..][i] == es[i + 1];
      Lookup(es[1..], key)
  }

  /** The place of the member with a key, or the number of members. */
  ghost function PlaceOf<T>(es: seq<Entry<T>>, key: seq<byte>): (p: nat)
    ensures p <= |es| && (p < |es| ==> es[p].key == key)
    ensures DistinctKeys(es) ==> forall i :: 0 <= i < |es| && es[i].key == key ==> p == i
  {
    if es == [] || es[0].key == key then 0
    else
      assert forall i :: 0 < i < |es| ==> es[i] == es[1..][i - 1];
      assert forall i :: 0 <= i < |es[1..]| ==> es[1..][i] == es[i + 1];
      1 + PlaceOf(es[1..], key)
  }

  /** `json_object_set_nocheck` on the members in order of insertion: an old key keeps its place and serial, a new one comes last. */
  function SetMember<T>(es: seq<Entry<T>>, key: seq<byte>, serial: nat, value: T): seq<Entry<T>> {
    if es == [] then [Entry(key, serial, value)]
    else if es[0].key == key then [es[0].(value := value)] + es[1..]
    else [es[0]] + SetMember(es[1..], key, serial, value)
  }

  lemma {:induction false} SetNewMember<T>(es: seq<Entry<T>>, key: seq<byte>, serial: nat, value: T)
    requires forall i :: 0 <= i < |es| ==> es[i].key != key
    ensures SetMember(es, key, serial, value) == es + [Entry(key, serial, value)]
  {
    if es != [] {
      forall i | 0 <= i < |es[1..]| ensures es[1..][i].key != key {
        assert es[1..][i] == es[i + 1];
      }
      SetNewMember(es[1..], key, serial, value);
    }
  }

  /** `json_equal` on trees. */
  predicate Equal(v: Json, w: Json)
    decreases v
  {
    match (v, w)
    case (Array(a), Array(b)) => |a| == |b| && forall i :: 0 <= i < |a| ==> Equal(a[i], b[i])
    case (Object(a), Object(b)) =>
      |a| == |b| &&
      forall i :: 0 <= i < |a| ==>
        var other := Lookup(b, a[i].key); other.Some? && Equal(a[i].value, other.value)
    case (_, _) => v == w
  }

  lemma KeySetSize<T>(es: seq<Entry<T>>)
    requires DistinctKeys(es)
    ensures |KeySet(es)| == |es|
  {
    if es != [] {
      var init := es[..|es| - 1];
      KeySetSize(init);
      assert KeySet(es) == KeySet(init) + {es[|es| - 1].key};
    } else {
      assert KeySet(es) == {};
    }
  }

  lemma SubsetOfSameSize<T>(a: set<T>, b: set<T>)
    requires a <= b && |a| == |b|
    ensures a == b
  {
    assert |b - a| == 0;
  }

  /** Equality is exactly equality of meaning, whatever the two hash table layouts. */
  lemma {:induction false} EqualIffSameMeaning(v: Json, w: Json)
    requires Proper(v) && Proper(w)
    ensures Equal(v, w) <==> Denote(v) == Denote(w)
    decreases v
  {
    match (v, w) {
      case (Array(a), Array(b)) =>
        if |a| == |b| {
          forall i | 0 <= i < |a| ensures Equal(a[i], b[i]) <==> Denote(a[i]) == Denote(b[i]) {
            EqualIffSameMeaning(a[i], b[i]);
          }
          assert Denote(v) == Denote(w) ==> forall i :: 0 <= i < |a| ==> DenoteAll(a)[i] == DenoteAll(b)[i];
        } else {
          assert |DenoteAll(a)| != |DenoteAll(b)|;
        }
      case (Object(a), Object(b)) =>
        forall i, j | 0 <= i < |a| && 0 <= j < |b| ensures Equal(a[i].value, b[j].value) <==> Denote(a[i].value) == Denote(b[j].value) {
          EqualIffSameMeaning(a[i].value, b[j].value);
        }
        EqualObjects(a, b);
      case (_, _) =>
    }
  }

  lemma LookupAt<T>(es: seq<Entry<T>>, key: seq<byte>) returns (i: nat)
    requires DistinctKeys(es) && key in KeySet(es)
    ensures i < |es| && es[i].key == key && Lookup(es, key) == Some(es[i].value)
  {
    i :| 0 <= i < |es| && es[i].key == key;
  }

  lemma EqualObjects(a: seq<Entry<Json>>, b: seq<Entry<Json>>)
    requires DistinctKeys(a) && DistinctKeys(b)
    requires forall i, j :: 0 <= i < |a| && 0 <= j < |b| ==>
      (Equal(a[i].value, b[j].value) <==> Denote(a[i].value) == Denote(b[j].value))
    ensures Equal(Object(a), Object(b)) <==> DenoteEntries(a) == DenoteEntries(b)
  {
    KeySetSize(a);
    KeySetSize(b);
    if Equal(Object(a), Object(b)) {
      EqualThenSameMap(a, b);
    }
    if DenoteEntries(a) == DenoteEntries(b) {
      SameMapThenEqual(a, b);
    }
  }

  lemma EqualThenSameMap(a: seq<Entry<Json>>, b: seq<Entry<Json>>)
    requires DistinctKeys(a) && DistinctKeys(b)
    requires forall i, j :: 0 <= i < |a| && 0 <= j < |b| ==>
      (Equal(a[i].value, b[j].value) <==> Denote(a[i].value) == Denote(b[j].value))
    requires Equal(Object(a), Object(b))
    ensures DenoteEntries(a) == DenoteEntries(b)
  {
    assert |a| == |b| && forall i :: 0 <= i < |a| ==> Lookup(b, a[i].key).Some? && Equal(a[i].value, Lookup(b, a[i].key).value);
    hide Denote, Equal, Lookup;
    var m, n := DenoteEntries(a), DenoteEntries(b);
    forall k | k in m.Keys ensures k in n.Keys && m[k] == n[k] {
      var i := LookupAt(a, k);
      assert Lookup(b, a[i].key).Some?;
      var j := LookupAt(b, k);
      assert Equal(a[i].value, b[j].value);
    }
    KeySetSize(a);
    KeySetSize(b);
    SubsetOfSameSize(m.Keys, n.Keys);
    SameMap(m, n);
  }

  lemma SameMap<K, V>(m: map<K, V>, n: map<K, V>)
    requires m.Keys == n.Keys && forall k :: k in m.Keys ==> m[k] == n[k]
    ensures m == n
  {
  }

  lemma SameMapThenEqual(a: seq<Entry<Json>>, b: seq<Entry<Json>>)
    requires DistinctKeys(a) && DistinctKeys(b)
    requires forall i, j :: 0 <= i < |a| && 0 <= j < |b| ==>
      (Equal(a[i].value, b[j].value) <==> Denote(a[i].value) == Denote(b[j].value))
    requires DenoteEntries(a) == DenoteEntries(b)
    ensures Equal(Object(a), Object(b))
  {
    var m, n := DenoteEntries(a), DenoteEntries(b);
    KeySetSize(a);
    KeySetSize(b);
    assert KeySet(a) == m.Keys == n.Keys == KeySet(b);
    forall i | 0 <= i < |a| ensures Lookup(b, a[i].key).Some? && Equal(a[i].value, Lookup(b, a[i].key).value) {
      assert a[i].key in KeySet(a);
      var j := LookupAt(b, a[i].key);
      assert m[a[i].key] == n[b[j].key];
    }
  }

  /** On trees the relation is an equivalence. */
  lemma EqualIsEquivalence(u: Json, v: Json, w: Json)
    requires Proper(u) && Proper(v) && Proper(w)
    ensures Equal(u, u)
    ensures Equal(u, v) ==> Equal(v, u)
    ensures Equal(u, v) && Equal(v, w) ==> Equal(u, w)
  {
    EqualIffSameMeaning(u, u);
    EqualIffSameMeaning(u, v);
    EqualIffSameMeaning(v, u);
    EqualIffSameMeaning(v, w);
    EqualIffSameMeaning(u, w);
  }
}
