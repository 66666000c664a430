/**
  What `qsort` makes of the members of an object with the comparators of `compat/jansson/dump.c`.
  The serial comparator cuts a 64-bit difference down to an `int`, so it need not be an order.
  */
module KeySort {
  import opened Bytes
  import opened JsonValue
  import opened JsonOrder

  const INT_RANGE := 0x1_0000_0000

  /** `object_key_compare_serials`. */
  function CompareSerials(a: nat, b: nat): int {
    var low := (a - b) % INT_RANGE;
    if low < 0x8000_0000 then low else low - INT_RANGE
  }

  /** The answer of the comparator `do_dump` hands to `qsort`. */
  function Compare<T>(a: Entry<T>, b: Entry<T>, order: Order): int {
    match order
    case ByKey => if KeyLess(a.key, b.key) then -1 else if KeyLess(b.key, a.key) then 1 else 0
    case BySerial => CompareSerials(a.serial, b.serial)
    case AsIs => 0
  }

  /** What `qsort` asks of its comparator: opposite answers both ways round, and no circle. */
  ghost predicate Consistent<T>(es: seq<Entry<T>>, order: Order) {
    && (forall a, b :: a in es && b in es ==> (Compare(a, b, order) < 0 <==> Compare(b, a, order) > 0))
    && (forall a, b, c :: a in es && b in es && c in es && Compare(a, b, order) <= 0 && Compare(b, c, order) <= 0 ==>
         Compare(a, c, order) <= 0)
  }

  ghost predicate Arranged<T>(r: seq<Entry<T>>, order: Order) {
    forall i, j :: 0 <= i < j < |r| ==> Compare(r[i], r[j], order) <= 0
  }

  /** Whatever `qsort` may leave: the same members, in order if the comparator is consistent on them. */
  ghost predicate MayGive<T>(es: seq<Entry<T>>, order: Order, r: seq<Entry<T>>) {
    multiset(r) == multiset(es) && (Consistent(es, order) ==> Arranged(r, order))
  }

  /** Of two serials, the comparator puts the smaller first. */
  predicate Close(a: nat, b: nat) {
    a < b ==> 0 < (b - a) % INT_RANGE < 0x8000_0000
  }

  ghost predicate SerialsFit<T>(es: seq<Entry<T>>) {
    forall a, b :: a in es && b in es ==> Close(a.serial, b.serial)
  }

  // ----- the comparators

  lemma CompareSerialsCases(a: nat, b: nat)
    requires a < b
    ensures var low := (b - a) % INT_RANGE;
      && (low == 0 ==> CompareSerials(a, b) == 0 == CompareSerials(b, a))
      && (0 < low < 0x8000_0000 ==> CompareSerials(a, b) < 0 < CompareSerials(b, a))
      && (low == 0x8000_0000 ==> CompareSerials(a, b) < 0 && CompareSerials(b, a) < 0)
      && (low > 0x8000_0000 ==> CompareSerials(b, a) < 0 < CompareSerials(a, b))
  {
    var low := (b - a) % INT_RANGE;
    var n := (b - a) / INT_RANGE;
    if low == 0 {
      assert a - b == -n * INT_RANGE;
      assert (a - b) % INT_RANGE == 0;
    } else {
      assert a - b == (-n - 1) * INT_RANGE + (INT_RANGE - low);
      assert (a - b) % INT_RANGE == INT_RANGE - low;
    }
  }

  /** The comparator tells two members the way their serials do, both ways round, exactly when the serials are close. */
  lemma CompareSerialsAgrees(a: nat, b: nat)
    requires a < b
    ensures CompareSerials(a, b) < 0 < CompareSerials(b, a) <==> Close(a, b)
  {
    CompareSerialsCases(a, b);
  }

  lemma FittingSigns<T>(es: seq<Entry<T>>, a: Entry<T>, b: Entry<T>)
    requires SerialsFit(es) && a in es && b in es
    ensures Compare(a, b, BySerial) <= 0 <==> a.serial <= b.serial
    ensures Compare(a, b, BySerial) < 0 <==> a.serial < b.serial
  {
    assert Close(a.serial, b.serial) && Close(b.serial, a.serial);
    if a.serial < b.serial {
      CompareSerialsCases(a.serial, b.serial);
    } else if b.serial < a.serial {
      CompareSerialsCases(b.serial, a.serial);
    }
  }

  lemma FittingConsistent<T>(es: seq<Entry<T>>)
    requires SerialsFit(es)
    ensures Consistent(es, BySerial)
  {
    hide Compare, SerialsFit;
    forall a, b | a in es && b in es
      ensures Compare(a, b, BySerial) <= 0 <==> a.serial <= b.serial
      ensures Compare(a, b, BySerial) < 0 <==> a.serial < b.serial
    {
      FittingSigns(es, a, b);
    }
  }

  lemma KeysConsistent<T>(es: seq<Entry<T>>)
    ensures Consistent(es, ByKey)
  {
    hide KeyLess;
    forall a, b, c | a in es && b in es && c in es
      ensures Compare(a, b, ByKey) < 0 <==> Compare(b, a, ByKey) > 0
      ensures Compare(a, b, ByKey) <= 0 && Compare(b, c, ByKey) <= 0 ==> Compare(a, c, ByKey) <= 0
    {
      KeyLessStrict(a.key, b.key, c.key);
      KeyLessStrict(b.key, c.key, a.key);
      KeyLessStrict(c.key, a.key, b.key);
    }
  }

  // ----- with a good comparator

  lemma TwiceInMultiset<A>(s: seq<A>, i: nat, j: nat)
    requires i < j < |s| && s[i] == s[j]
    ensures multiset(s)[s[i]] >= 2
  {
    assert s == s[..j] + s[j..];
    assert s[i] in s[..j] && s[j] in s[j..];
    assert s[i] in multiset(s[..j]) && s[j] in multiset(s[j..]);
  }

  lemma {:induction false} OnceInMultiset<A>(s: seq<A>, k: nat)
    requires k < |s| && forall i :: 0 <= i < |s| && i != k ==> s[i] != s[k]
    ensures multiset(s)[s[k]] == 1
  {
    assert s == s[..k] + [s[k]] + s[k + 1..];
    assert s[k] !in s[..k] && s[k] !in s[k + 1..];
  }

  /** Two members of a permutation with the same key or serial would be one member twice. */
  lemma StillComparable<T>(es: seq<Entry<T>>, r: seq<Entry<T>>, order: Order)
    requires Comparable(es, order) && multiset(r) == multiset(es)
    ensures Comparable(r, order)
  {
    SameElements(r, es);
    forall i, j | 0 <= i < j < |r|
      ensures order == ByKey ==> r[i].key != r[j].key
      ensures order == BySerial ==> r[i].serial != r[j].serial
    {
      assert r[i] in es && r[j] in es;
      var k :| 0 <= k < |es| && es[k] == r[i];
      if order != AsIs {
        OnceInMultiset(es, k);
      }
      if r[i] == r[j] {
        TwiceInMultiset(r, i, j);
      }
    }
  }

  /** When the comparator tells members apart the way the order does, `qsort` gives the members in order. */
  lemma GivesSorted<T>(es: seq<Entry<T>>, order: Order, r: seq<Entry<T>>)
    requires order != AsIs && Comparable(es, order) && MayGive(es, order, r)
    requires order == BySerial ==> SerialsFit(es)
    ensures r == Sort(es, order)
  {
    if order == ByKey {
      KeysConsistent(es);
    } else {
      FittingConsistent(es);
    }
    SameElements(r, es);
    StillComparable(es, r, order);
    forall i, j | 0 <= i < j < |r| ensures Before(r[i], r[j], order) {
      assert r[i] in es && r[j] in es && Compare(r[i], r[j], order) <= 0;
      if order == BySerial {
        FittingSigns(es, r[i], r[j]);
      } else {
        KeyLessStrict(r[i].key, r[j].key, r[i].key);
      }
    }
    OnlySortedPermutation(es, r, order);
  }

  // ----- an algorithm that meets the contract

  function Place<T>(e: Entry<T>, es: seq<Entry<T>>, order: Order): seq<Entry<T>> {
    if es == [] || Compare(e, es[0], order) <= 0 then [e] + es else [es[0]] + Place(e, es[1..], order)
  }

  function Qsort<T>(es: seq<Entry<T>>, order: Order): seq<Entry<T>> {
    if es == [] then [] else Place(es[0], Qsort(es[1..], order), order)
  }

  lemma {:induction false} PlacePermutes<T>(e: Entry<T>, es: seq<Entry<T>>, order: Order)
    ensures multiset(Place(e, es, order)) == multiset([e] + es)
  {
    if es != [] && Compare(e, es[0], order) > 0 {
      PlacePermutes(e, es[1..], order);
      assert es == [es[0]] + es[1..];
      assert multiset([e] + es) == multiset([es[0]]) + multiset([e] + es[1..]);
    }
  }

  lemma InFrontArranged<T>(e: Entry<T>, es: seq<Entry<T>>, order: Order)
    requires Arranged(es, order) && forall x :: x in es ==> Compare(e, x, order) <= 0
    ensures Arranged([e] + es, order)
  {
    hide Compare;
    assert forall j :: 0 <= j < |es| ==> es[j] in es;
  }

  lemma FirstLeast<T>(es: seq<Entry<T>>, x: Entry<T>, order: Order)
    requires es != [] && Arranged(es, order) && x in es[1..]
    ensures Compare(es[0], x, order) <= 0
  {
    hide Compare;
    var k :| 0 <= k < |es[1..]| && es[1..][k] == x;
    assert es[k + 1] == x;
  }

  lemma Chain<T>(all: seq<Entry<T>>, a: Entry<T>, b: Entry<T>, c: Entry<T>, order: Order)
    requires Consistent(all, order) && a in all && b in all && c in all
    ensures Compare(a, b, order) < 0 <==> Compare(b, a, order) > 0
    ensures Compare(a, b, order) <= 0 && Compare(b, c, order) <= 0 ==> Compare(a, c, order) <= 0
  {
    hide Compare;
  }

  lemma {:induction false} PlaceArranges<T>(all: seq<Entry<T>>, e: Entry<T>, es: seq<Entry<T>>, order: Order)
    requires Consistent(all, order) && e in all && forall x :: x in es ==> x in all
    requires Arranged(es, order)
    ensures Arranged(Place(e, es, order), order)
  {
    hide Compare, Consistent, Arranged;
    if es == [] {
      InFrontArranged(e, es, order);
    } else if Compare(e, es[0], order) <= 0 {
      forall x | x in es ensures Compare(e, x, order) <= 0 {
        if x != es[0] {
          assert x in es[1..];
          FirstLeast(es, x, order);
          Chain(all, e, es[0], x, order);
        }
      }
      InFrontArranged(e, es, order);
    } else {
      var r := Place(e, es[1..], order);
      TailArranged(es, order);
      PlaceArranges(all, e, es[1..], order);
      PlacePermutes(e, es[1..], order);
      Chain(all, es[0], e, e, order);
      forall x | x in r ensures Compare(es[0], x, order) <= 0 {
        StillIn(r, [e] + es[1..], x);
        if x != e {
          FirstLeast(es, x, order);
        }
      }
      InFrontArranged(es[0], r, order);
    }
  }

  lemma TailArranged<T>(es: seq<Entry<T>>, order: Order)
    requires es != [] && Arranged(es, order)
    ensures Arranged(es[1..], order)
  {
    hide Compare;
    assert forall i :: 0 <= i < |es[1..]| ==> es[1..][i] == es[i + 1];
  }

  lemma {:induction false} QsortArranges<T>(all: seq<Entry<T>>, es: seq<Entry<T>>, order: Order)
    requires forall x :: x in es ==> x in all
    ensures multiset(Qsort(es, order)) == multiset(es)
    ensures Consistent(all, order) ==> Arranged(Qsort(es, order), order)
  {
    hide Compare, Consistent, Place;
    if es != [] {
      var rest := Qsort(es[1..], order);
      QsortArranges(all, es[1..], order);
      PlacePermutes(es[0], rest, order);
      assert es == [es[0]] + es[1..];
      if Consistent(all, order) {
        forall x | x in rest ensures x in all {
          StillIn(rest, es[1..], x);
        }
        PlaceArranges(all, es[0], rest, order);
      }
    }
  }

  lemma QsortMayGive<T>(es: seq<Entry<T>>, order: Order)
    ensures MayGive(es, order, Qsort(es, order))
  {
    QsortArranges(es, es, order);
  }

  // ----- when is insertion order certain

  lemma SwapPermutes<A>(s: seq<A>, p: nat)
    requires p + 1 < |s|
    ensures multiset(s[p := s[p + 1]][p + 1 := s[p]]) == multiset(s)
  {
    var r := s[p := s[p + 1]][p + 1 := s[p]];
    assert s == s[..p] + [s[p], s[p + 1]] + s[p + 2..];
    assert r == s[..p] + [s[p + 1], s[p]] + s[p + 2..];
  }

  /** A tie between two members somewhere gives a second result. */
  lemma TieGivesOther<T>(es: seq<Entry<T>>, s: seq<Entry<T>>, order: Order, p: nat, q: nat) returns (r: seq<Entry<T>>)
    requires Consistent(es, order) && multiset(s) == multiset(es) && Arranged(s, order)
    requires p < q < |s| && Compare(s[p], s[q], order) == 0 && s[p] != s[p + 1]
    ensures MayGive(es, order, r) && r != s
  {
    hide Compare, Consistent;
    r := s[p := s[p + 1]][p + 1 := s[p]];
    SwapPermutes(s, p);
    StillIn(s, es, s[p]);
    StillIn(s, es, s[p + 1]);
    StillIn(s, es, s[q]);
    Chain(es, s[q], s[p], s[p], order);
    Chain(es, s[p], s[q], s[p], order);
    assert q > p + 1 ==> Compare(s[p + 1], s[q], order) <= 0;
    Chain(es, s[p + 1], s[q], s[p], order);
    SwapArranged(s, order, p);
  }

  lemma SwapArranged<T>(s: seq<Entry<T>>, order: Order, p: nat)
    requires Arranged(s, order) && p + 1 < |s| && Compare(s[p + 1], s[p], order) <= 0
    ensures Arranged(s[p := s[p + 1]][p + 1 := s[p]], order)
  {
    hide Compare;
    var r := s[p := s[p + 1]][p + 1 := s[p]];
    forall i, j | 0 <= i < j < |r| ensures Compare(r[i], r[j], order) <= 0 {
      var i0 := if i == p then p + 1 else if i == p + 1 then p else i;
      var j0 := if j == p then p + 1 else if j == p + 1 then p else j;
      assert r[i] == s[i0] && r[j] == s[j0];
    }
  }

  /** Two members that are not told apart rightly let `qsort` leave something other than insertion order. */
  lemma OtherResult<T>(es: seq<Entry<T>>, a: Entry<T>, b: Entry<T>) returns (r: seq<Entry<T>>)
    requires DistinctSerials(es) && a in es && b in es && !Close(a.serial, b.serial)
    ensures MayGive(es, BySerial, r) && r != Sort(es, BySerial)
  {
    var s := Sort(es, BySerial);
    SortPermutes(es, BySerial);
    SortOrders(es, BySerial);
    SameElements(s, es);
    assert a in s && b in s;
    var p :| 0 <= p < |s| && s[p] == a;
    var q :| 0 <= q < |s| && s[q] == b;
    assert p < q;
    assert Before(s[p], s[p + 1], BySerial);
    CompareSerialsCases(a.serial, b.serial);
    if !Consistent(es, BySerial) {
      r := s[p := s[p + 1]][p + 1 := s[p]];
      SwapPermutes(s, p);
      assert r[p] != s[p];
    } else if Arranged(s, BySerial) {
      assert Compare(s[p], s[q], BySerial) <= 0;
      r := TieGivesOther(es, s, BySerial, p, q);
    } else {
      r := Qsort(es, BySerial);
      QsortMayGive(es, BySerial);
    }
  }

  /** `qsort` is sure to give the members in the order of their serials exactly when all serials are close. */
  lemma SerialOrderIff<T(!new)>(es: seq<Entry<T>>)
    requires DistinctSerials(es)
    ensures (forall r :: MayGive(es, BySerial, r) ==> r == Sort(es, BySerial)) <==> SerialsFit(es)
  {
    if SerialsFit(es) {
      forall r | MayGive(es, BySerial, r) ensures r == Sort(es, BySerial) {
        GivesSorted(es, BySerial, r);
      }
    } else {
      var a, b :| a in es && b in es && !Close(a.serial, b.serial);
      var r := OtherResult(es, a, b);
    }
  }

  lemma TwoConsistent<T>(a: Entry<T>, b: Entry<T>)
    requires Compare(a, b, BySerial) > 0 > Compare(b, a, BySerial) && Compare(a, a, BySerial) == 0 == Compare(b, b, BySerial)
    ensures Consistent([a, b], BySerial)
  {
    hide Compare;
  }

  /** Two members, the second set after the counter has gone on by more than 2^31: they come out the wrong way round. */
  lemma SerialOrderCounterexample<T>(x: T, y: T, r: seq<Entry<T>>)
    requires MayGive([Entry([0x61], 0, x), Entry([0x62], 0x8000_0001, y)], BySerial, r)
    ensures r == [Entry([0x62], 0x8000_0001, y), Entry([0x61], 0, x)]
  {
    var a, b := Entry([0x61], 0, x), Entry([0x62], 0x8000_0001, y);
    var es := [a, b];
    CompareSerialsCases(0, 0x8000_0001);
    assert Compare(a, b, BySerial) > 0 > Compare(b, a, BySerial) && Compare(a, a, BySerial) == 0 == Compare(b, b, BySerial);
    TwoConsistent(a, b);
    SameElements(r, es);
    StillComparable(es, r, BySerial);
    assert r[0] in es && r[1] in es && r[0].serial != r[1].serial;
    assert Compare(r[0], r[1], BySerial) <= 0;
  }

  // ----- how many members can fit

  ghost function UpTo(n: nat): (r: set<nat>)
    ensures |r| == n && forall i: nat :: i in r <==> i < n
  {
    if n == 0 then {} else UpTo(n - 1) + {n - 1}
  }

  lemma {:induction false} SerialSetSize<T>(es: seq<Entry<T>>)
    requires DistinctSerials(es)
    ensures |set i | 0 <= i < |es| :: es[i].serial| == |es|
  {
    if es != [] {
      var init := es[..|es| - 1];
      SerialSetSize(init);
      assert (set i | 0 <= i < |es| :: es[i].serial) == (set i | 0 <= i < |init| :: init[i].serial) + {es[|es| - 1].serial};
    }
  }

  lemma SubsetSize<A>(a: set<A>, b: set<A>)
    requires a <= b
    ensures |a| <= |b|
  {
    assert b == a + (b - a);
  }

  /** Distinct numbers below `n` are at most `n`. */
  lemma FewSerials<T>(es: seq<Entry<T>>, n: nat)
    requires DistinctSerials(es) && forall i :: 0 <= i < |es| ==> es[i].serial < n
    ensures |es| <= n
  {
    var used := set i | 0 <= i < |es| :: es[i].serial;
    SerialSetSize(es);
    assert used <= UpTo(n);
    SubsetSize(used, UpTo(n));
  }

  /** A serial counted from a smaller one, modulo 2^32. */
  function Offset(low: nat, serial: nat): nat
    requires low <= serial
  {
    (serial - low) % INT_RANGE
  }

  lemma OffsetsApart(low: nat, x: nat, y: nat)
    requires low <= x < y && Close(x, y)
    ensures Offset(low, x) != Offset(low, y)
  {
    var i, j := x - low, y - low;
    assert y - x == (j / INT_RANGE - i / INT_RANGE) * INT_RANGE + (j % INT_RANGE - i % INT_RANGE);
  }

  lemma OffsetSmall(low: nat, x: nat)
    requires low <= x && Close(low, x)
    ensures Offset(low, x) < 0x8000_0000
  {
  }

  lemma SmallestFirst<T>(es: seq<Entry<T>>) returns (s: seq<Entry<T>>)
    requires DistinctSerials(es)
    ensures |s| == |es| && (forall x :: x in s ==> x in es)
    ensures forall i, j :: 0 <= i < j < |s| ==> s[i].serial < s[j].serial
  {
    s := Sort(es, BySerial);
    SortPermutes(es, BySerial);
    SortOrders(es, BySerial);
    forall x | x in s ensures x in es {
      StillIn(s, es, x);
    }
    assert forall i, j :: 0 <= i < j < |s| ==> Before(s[i], s[j], BySerial);
  }

  /** Close serials differ modulo 2^32 and stay below 2^31 when counted from the smallest. */
  lemma FittingAreFew<T>(es: seq<Entry<T>>)
    requires DistinctSerials(es) && SerialsFit(es)
    ensures |es| <= 0x8000_0000
  {
    hide Close, Offset;
    var s := SmallestFirst(es);
    if s != [] {
      var low := s[0].serial;
      var offsets := seq(|s|, i requires 0 <= i < |s| => s[i].(serial := Offset(low, s[i].serial)));
      forall i | 0 <= i < |s| ensures offsets[i].serial < 0x8000_0000 {
        assert s[0] in es && s[i] in es;
        OffsetSmall(low, s[i].serial);
      }
      forall i, j | 0 <= i < j < |s| ensures offsets[i].serial != offsets[j].serial {
        assert s[i] in es && s[j] in es;
        OffsetsApart(low, s[i].serial, s[j].serial);
      }
      FewSerials(offsets, 0x8000_0000);
    }
  }
}
