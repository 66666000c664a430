/** What the members of an object text come to: each key once, where it came first, with the value it came with last. */
module GrammarMembers {
  import opened Bytes
  import opened JsonValue
  import opened LoadedText
  import G = JsonGrammar

  /** One member of a text. */
  datatype Pair = Pair(key: seq<byte>, value: Json)

  ghost function PairOf(m: G.Member): Pair
    requires G.MemberOk(m)
  {
    Pair(G.CharsBytes(m.key), G.ItemValue(m.value))
  }

  /** The members as they come. */
  ghost function Listed(ms: G.Members): seq<Pair>
    requires G.MembersOk(ms)
  {
    match ms
    case LastMember(m) => [PairOf(m)]
    case MoreMembers(m, rest) => [PairOf(m)] + Listed(rest)
  }

  predicate FirstWith(l: seq<Pair>, i: int, key: seq<byte>) {
    0 <= i < |l| && l[i].key == key && forall j :: 0 <= j < i ==> l[j].key != key
  }

  predicate LastWith(l: seq<Pair>, i: int, key: seq<byte>) {
    0 <= i < |l| && l[i].key == key && forall j :: i < j < |l| ==> l[j].key != key
  }

  /** The entry of a key: numbered by its first occurrence, with the value of its last one. */
  ghost predicate TellsOf(l: seq<Pair>, e: Entry<Json>) {
    && FirstWith(l, e.serial, e.key)
    && exists n :: LastWith(l, n, e.key) && e.value == l[n].value
  }

  ghost predicate Increasing(es: seq<Entry<Json>>) {
    forall i, j :: 0 <= i < j < |es| ==> es[i].serial < es[j].serial
  }

  predicate Has(es: seq<Entry<Json>>, key: seq<byte>) {
    exists i :: 0 <= i < |es| && es[i].key == key
  }

  ghost predicate Tells(l: seq<Pair>, es: seq<Entry<Json>>) {
    && DistinctKeys(es)
    && Increasing(es)
    && (forall i :: 0 <= i < |es| ==> TellsOf(l, es[i]))
    && forall j :: 0 <= j < |l| ==> Has(es, l[j].key)
  }

  /** A further member leaves the entries of the other keys alone. */
  lemma OtherKey(l: seq<Pair>, p: Pair, e: Entry<Json>)
    requires TellsOf(l, e) && e.key != p.key
    ensures TellsOf(l + [p], e)
  {
    var n :| LastWith(l, n, e.key) && e.value == l[n].value;
    assert LastWith(l + [p], n, e.key);
  }

  lemma SameKey(l: seq<Pair>, p: Pair, e: Entry<Json>)
    requires TellsOf(l, e) && e.key == p.key
    ensures TellsOf(l + [p], e.(value := p.value))
  {
    assert LastWith(l + [p], |l|, e.key);
  }

  lemma NewKey(l: seq<Pair>, p: Pair)
    requires forall j :: 0 <= j < |l| ==> l[j].key != p.key
    ensures TellsOf(l + [p], Entry(p.key, |l|, p.value))
  {
    assert LastWith(l + [p], |l|, p.key);
  }

  lemma OneMore(l: seq<Pair>, p: Pair, es: seq<Entry<Json>>)
    requires Tells(l, es)
    ensures Tells(l + [p], SetMember(es, p.key, |l|, p.value))
  {
    hide SetMember, TellsOf, Has;
    var r := SetMember(es, p.key, |l|, p.value);
    SetMemberPlaces(es, p.key, |l|, p.value);
    forall i | 0 <= i < |es| ensures TellsOf(l + [p], r[i]) {
      if es[i].key == p.key {
        SameKey(l, p, es[i]);
      } else {
        OtherKey(l, p, es[i]);
      }
    }
    if |r| > |es| {
      NotYet(l, p, es);
      NewKey(l, p);
    }
    OrderKept(l, p, es);
    KeysKept(l, p, es);
  }

  lemma NotYet(l: seq<Pair>, p: Pair, es: seq<Entry<Json>>)
    requires forall j :: 0 <= j < |l| ==> Has(es, l[j].key)
    requires forall i :: 0 <= i < |es| ==> es[i].key != p.key
    ensures forall j :: 0 <= j < |l| ==> l[j].key != p.key
  {
  }

  lemma OrderKept(l: seq<Pair>, p: Pair, es: seq<Entry<Json>>)
    requires DistinctKeys(es) && Increasing(es) && forall i :: 0 <= i < |es| ==> TellsOf(l, es[i])
    ensures var r := SetMember(es, p.key, |l|, p.value); DistinctKeys(r) && Increasing(r)
  {
    hide SetMember, LastWith, DistinctKeys, Increasing;
    SetMemberPlaces(es, p.key, |l|, p.value);
    forall i | 0 <= i < |es| ensures es[i].serial < |l| {
      assert TellsOf(l, es[i]);
    }
    hide TellsOf;
    var r := SetMember(es, p.key, |l|, p.value);
    if |r| > |es| {
      Appended(es, Entry(p.key, |l|, p.value));
    } else {
      Replaced(es, r);
    }
  }

  lemma Appended(es: seq<Entry<Json>>, e: Entry<Json>)
    requires DistinctKeys(es) && Increasing(es)
    requires forall i :: 0 <= i < |es| ==> es[i].key != e.key && es[i].serial < e.serial
    ensures DistinctKeys(es + [e]) && Increasing(es + [e])
  {
  }

  lemma Replaced(es: seq<Entry<Json>>, r: seq<Entry<Json>>)
    requires DistinctKeys(es) && Increasing(es)
    requires |r| == |es| && forall i :: 0 <= i < |es| ==> r[i].key == es[i].key && r[i].serial == es[i].serial
    ensures DistinctKeys(r) && Increasing(r)
  {
  }

  lemma KeysKept(l: seq<Pair>, p: Pair, es: seq<Entry<Json>>)
    requires DistinctKeys(es) && forall j :: 0 <= j < |l| ==> Has(es, l[j].key)
    ensures var r := SetMember(es, p.key, |l|, p.value); forall j :: 0 <= j < |l + [p]| ==> Has(r, (l + [p])[j].key)
  {
    hide SetMember;
    var r := SetMember(es, p.key, |l|, p.value);
    SetMemberPlaces(es, p.key, |l|, p.value);
    forall j | 0 <= j < |l + [p]| ensures Has(r, (l + [p])[j].key) {
      if j < |l| {
        var i :| 0 <= i < |es| && es[i].key == l[j].key;
        assert r[i].key == es[i].key;
      } else if |r| > |es| {
        assert r[|es|].key == p.key;
      } else {
        var i :| 0 <= i < |es| && es[i].key == p.key;
        assert r[i].key == p.key;
      }
    }
  }

  lemma {:induction false} MembersTold(ms: G.Members, l: seq<Pair>, es: seq<Entry<Json>>)
    requires G.MembersOk(ms) && Tells(l, es)
    ensures Tells(l + Listed(ms), G.MembersValue(ms, es, |l|))
    decreases ms
  {
    hide Tells, SetMember;
    match ms
    case LastMember(m) => OneMore(l, PairOf(m), es);
    case MoreMembers(m, rest) =>
      var p := PairOf(m);
      OneMore(l, p, es);
      MembersTold(rest, l + [p], SetMember(es, p.key, |l|, p.value));
      assert l + [p] + Listed(rest) == l + Listed(ms);
  }

  /** The members of the value of an object text. */
  lemma MembersTell(ms: G.Members)
    requires G.MembersOk(ms)
    ensures Tells(Listed(ms), G.MembersValue(ms, [], 0))
  {
    MembersTold(ms, [], []);
    assert [] + Listed(ms) == Listed(ms);
  }
}
