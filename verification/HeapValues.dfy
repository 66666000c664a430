/** `json_equal` and `json_deep_copy` of `compat/jansson/value.c` on heap graphs. */
module HeapValues {
  import opened Bytes
  import opened Utf8
  import opened JsonValue
  import opened JsonOrder
  import opened Canonical
  import opened Dumper
  import opened HeapDumps
  import opened DeepCopy

  // ----- finite values

  /** No cycle is reachable from `n`. */
  ghost predicate Finite(n: Node, G: Heap)
    requires Graph(G) && n in G
  {
    Acyclic(n, G, {})
  }

  ghost function Tree(n: Node, G: Heap): Json
    requires Graph(G) && n in G && Finite(n, G)
  {
    Unfold(n, G, {})
  }

  /** `H` is the heap `G` with more nodes, and perhaps other containers open that `n` does not reach. */
  lemma {:induction false} SameUnfolding(n: Node, G: Heap, H: Heap, p: set<Node>, q: set<Node>)
    requires Graph(G) && Graph(H) && n in G && Acyclic(n, G, p)
    requires (forall m :: m in G ==> m in H && H[m] == G[m]) && forall m :: m in q ==> m in p || m !in G
    ensures n in H && Acyclic(n, H, q) && Unfold(n, H, q) == Unfold(n, G, p)
    decreases Rest(G, p)
  {
    if !G[n].Leaf? {
      SmallerRest(G, p, n);
      SmallerRest(H, q, n);
      assert GoodShape(G[n], G);
      var p', q' := p + {n}, q + {n};
      forall i | 0 <= i < |Children(G[n])|
        ensures Children(G[n])[i] in H && Acyclic(Children(G[n])[i], H, q') && Unfold(Children(G[n])[i], H, q') == Unfold(Children(G[n])[i], G, p')
      {
        SameUnfolding(Children(G[n])[i], G, H, p', q');
      }
      assert Acyclic(n, H, q);
      SameChildrenSameTree(n, G, H, p, q);
    }
  }

  lemma SameChildrenSameTree(n: Node, G: Heap, H: Heap, p: set<Node>, q: set<Node>)
    requires Graph(G) && Graph(H) && n in G && n in H && H[n] == G[n] && !G[n].Leaf? && Acyclic(n, G, p) && Acyclic(n, H, q)
    requires forall i :: 0 <= i < |Children(G[n])| ==>
      && Children(G[n])[i] in G && Children(G[n])[i] in H
      && Acyclic(Children(G[n])[i], G, p + {n}) && Acyclic(Children(G[n])[i], H, q + {n})
      && Unfold(Children(G[n])[i], H, q + {n}) == Unfold(Children(G[n])[i], G, p + {n})
    ensures Unfold(n, H, q) == Unfold(n, G, p)
  {
    match G[n] {
      case ArrayOf(elems) =>
        ArrayCase(n, elems, G, p);
        ArrayCase(n, elems, H, q);
        assert Children(G[n]) == elems;
        var a, b := UnfoldElems(elems, G, p + {n}), UnfoldElems(elems, H, q + {n});
        assert forall i :: 0 <= i < |elems| ==> a[i] == b[i];
        assert a == b;
      case ObjectOf(members) =>
        MembersUnfold(n, G, p);
        MembersUnfold(n, H, q);
        var a, b := Unfold(n, G, p).entries, Unfold(n, H, q).entries;
        forall i | 0 <= i < |members| ensures a[i] == b[i] {
          assert MemberUnfolds(members[i], a[i], G, p + {n}) && MemberUnfolds(members[i], b[i], H, q + {n});
          assert members[i].value == Children(G[n])[i];
        }
        assert a == b;
    }
  }

  /** The tree of a finite array or object, in terms of the trees of its children. */
  lemma TreeParts(n: Node, G: Heap)
    requires Graph(G) && n in G && Finite(n, G)
    ensures G[n].Leaf? ==> Tree(n, G) == G[n].v && GoodLeaf(G[n].v)
    ensures G[n].ArrayOf? ==> var elems := G[n].elems;
      && Tree(n, G).Array? && |Tree(n, G).elems| == |elems|
      && forall i :: 0 <= i < |elems| ==> elems[i] in G && Finite(elems[i], G) && Tree(n, G).elems[i] == Tree(elems[i], G)
    ensures G[n].ObjectOf? ==> var members := G[n].members;
      && Tree(n, G).Object? && |Tree(n, G).entries| == |members|
      && (forall i :: 0 <= i < |members| ==> members[i].value in G && Finite(members[i].value, G))
      && (forall i :: 0 <= i < |members| ==> Tree(n, G).entries[i] == Entry(members[i].key, members[i].serial, Tree(members[i].value, G)))
  {
    assert GoodShape(G[n], G);
    match G[n] {
      case Leaf(_) =>
      case ArrayOf(elems) =>
        ArrayCase(n, elems, G, {});
        forall i | 0 <= i < |elems| ensures Finite(elems[i], G) && Tree(n, G).elems[i] == Tree(elems[i], G) {
          SameUnfolding(elems[i], G, G, {} + {n}, {});
        }
      case ObjectOf(members) =>
        MembersUnfold(n, G, {});
        forall i | 0 <= i < |members|
          ensures members[i].value in G && Finite(members[i].value, G)
          ensures Tree(n, G).entries[i] == Entry(members[i].key, members[i].serial, Tree(members[i].value, G))
        {
          assert MemberUnfolds(members[i], Tree(n, G).entries[i], G, {} + {n});
          SameUnfolding(members[i].value, G, G, {} + {n}, {});
        }
    }
  }

  // ----- json_equal

  /** `json_equal`: a shared node equals itself without being looked at. */
  method JsonEqual(a: Node, b: Node, ghost G: Heap) returns (eq: bool)
    requires Graph(G) && Snapshot(G) && RealFree(G) && a in G && b in G && Finite(a, G) && Finite(b, G)
    ensures eq == Equal(Tree(a, G), Tree(b, G))
    decreases Tree(a, G), 1
  {
    hide Graph, Finite, Tree, Proper, RealFree;
    TreeParts(a, G);
    TreeParts(b, G);
    TreeProper(a, G);
    var s, t := a.shape, b.shape;
    if s.Leaf? != t.Leaf? || s.ArrayOf? != t.ArrayOf? {
      return false;
    }
    if a == b {
      EqualIsEquivalence(Tree(a, G), Tree(a, G), Tree(a, G));
      return true;
    }
    if s.ObjectOf? {
      eq := ObjectEqual(a, b, s.members, t.members, G);
    } else if s.ArrayOf? {
      eq := ArrayEqual(a, b, s.elems, t.elems, G);
    } else {
      eq := s.v == t.v;
    }
  }

  lemma TreeProper(n: Node, G: Heap)
    requires Graph(G) && RealFree(G) && n in G && Finite(n, G)
    ensures Proper(Tree(n, G))
  {
    UnfoldProper(n, G, {});
  }

  lemma {:induction false} UnfoldProper(n: Node, G: Heap, open: set<Node>)
    requires Graph(G) && RealFree(G) && n in G && Acyclic(n, G, open)
    ensures Proper(Unfold(n, G, open))
    decreases Rest(G, open)
  {
    assert GoodShape(G[n], G);
    match G[n]
    case Leaf(v) =>
    case ArrayOf(elems) =>
      SmallerRest(G, open, n);
      forall i | 0 <= i < |elems| ensures Proper(Unfold(n, G, open).elems[i]) {
        assert Children(G[n])[i] == elems[i];
        UnfoldProper(elems[i], G, open + {n});
      }
    case ObjectOf(members) =>
      SmallerRest(G, open, n);
      MembersUnfold(n, G, open);
      var es := Unfold(n, G, open).entries;
      forall i | 0 <= i < |es| ensures es[i].key == members[i].key && es[i].serial == members[i].serial && Proper(es[i].value) {
        assert MemberUnfolds(members[i], es[i], G, open + {n});
        UnfoldProper(members[i].value, G, open + {n});
      }
      hide Acyclic, Unfold, Graph;
  }

  /** `json_array_equal`. */
  method ArrayEqual(a: Node, b: Node, x: seq<Node>, y: seq<Node>, ghost G: Heap) returns (eq: bool)
    requires Graph(G) && Snapshot(G) && RealFree(G) && a in G && b in G && Finite(a, G) && Finite(b, G)
    requires G[a] == ArrayOf(x) && G[b] == ArrayOf(y)
    ensures eq == Equal(Tree(a, G), Tree(b, G))
    decreases Tree(a, G), 0
  {
    hide Graph, Finite, Tree, RealFree, Snapshot;
    TreeParts(a, G);
    TreeParts(b, G);
    if |x| != |y| {
      return false;
    }
    var i := 0;
    while i < |x|
      invariant 0 <= i <= |x|
      invariant forall k :: 0 <= k < i ==> Equal(Tree(x[k], G), Tree(y[k], G))
    {
      assert Tree(a, G).elems[i] == Tree(x[i], G);
      var one := JsonEqual(x[i], y[i], G);
      if !one {
        assert !Equal(Tree(a, G).elems[i], Tree(b, G).elems[i]);
        return false;
      }
      i := i + 1;
    }
    forall k | 0 <= k < |x| ensures Equal(Tree(a, G).elems[k], Tree(b, G).elems[k]) {
    }
    eq := true;
  }

  /** `json_object_equal`: every member of the first has an equal partner in the second of the same size. */
  method ObjectEqual(a: Node, b: Node, x: seq<Entry<Node>>, y: seq<Entry<Node>>, ghost G: Heap) returns (eq: bool)
    requires Graph(G) && Snapshot(G) && RealFree(G) && a in G && b in G && Finite(a, G) && Finite(b, G)
    requires G[a] == ObjectOf(x) && G[b] == ObjectOf(y)
    ensures eq == Equal(Tree(a, G), Tree(b, G))
    decreases Tree(a, G), 0
  {
    hide Graph, Finite, Tree, RealFree, Snapshot, Lookup;
    TreeParts(a, G);
    TreeParts(b, G);
    if |x| != |y| {
      return false;
    }
    ghost var es, fs := Tree(a, G).entries, Tree(b, G).entries;
    var i := 0;
    while i < |x|
      invariant 0 <= i <= |x|
      invariant forall k :: 0 <= k < i ==> Lookup(fs, es[k].key).Some? && Equal(es[k].value, Lookup(fs, es[k].key).value)
    {
      assert es[i] == Entry(x[i].key, x[i].serial, Tree(x[i].value, G));
      var other := Lookup(y, x[i].key);
      LookupTree(b, y, G, x[i].key);
      if other == None {
        return false;
      }
      var one := JsonEqual(x[i].value, other.value, G);
      if !one {
        return false;
      }
      i := i + 1;
    }
    eq := true;
  }

  /** Looking a key up in an object and in its tree. */
  lemma LookupTree(n: Node, members: seq<Entry<Node>>, G: Heap, key: seq<byte>)
    requires Graph(G) && n in G && Finite(n, G) && G[n] == ObjectOf(members)
    ensures Tree(n, G).Object?
    ensures var r, t := Lookup(members, key), Lookup(Tree(n, G).entries, key);
      && (r.Some? <==> t.Some?)
      && (r.Some? ==> r.value in G && Finite(r.value, G) && t.value == Tree(r.value, G))
  {
    TreeParts(n, G);
    ObjectChildren(n, G);
    hide Graph, Finite, Tree;
    var es := Tree(n, G).entries;
    assert forall i :: 0 <= i < |es| ==> es[i].key == members[i].key;
    assert KeySet(es) == KeySet(members);
    if Lookup(members, key).Some? {
      var i := LookupAt(members, key);
      assert es[i].key == key;
    }
  }

  // ----- json_deep_copy

  /** `true`, `false` and `null`: one node each for the whole program. */
  predicate Singleton(shape: Shape) {
    shape.Leaf? && (shape.v == Null || shape.v == True || shape.v == False)
  }

  /** The two heaps of copies made one after the other agree where they overlap, on singletons. */
  lemma MergedGraph(H: Heap, K: Heap)
    requires Graph(H) && Graph(K) && Snapshot(H) && Snapshot(K)
    ensures Graph(H + K) && Snapshot(H + K)
    ensures (forall m :: m in H ==> m in H + K && (H + K)[m] == H[m]) && (forall m :: m in K ==> m in H + K && (H + K)[m] == K[m])
  {
    var L := H + K;
    forall m | m in L ensures m.shape == L[m] {
    }
    forall m | m in L ensures GoodShape(L[m], L) {
      assert if m in K then GoodShape(K[m], K) else GoodShape(H[m], H);
    }
  }

  /** A new array around finite values. */
  lemma WrapArray(L: Heap, w: Node, elems: seq<Node>)
    requires Graph(L) && w !in L && forall i :: 0 <= i < |elems| ==> elems[i] in L && Finite(elems[i], L)
    ensures var H := L[w := ArrayOf(elems)];
      && Graph(H) && Finite(w, H) && Tree(w, H).Array? && |Tree(w, H).elems| == |elems|
      && forall i :: 0 <= i < |elems| ==> Tree(w, H).elems[i] == Tree(elems[i], L)
  {
    var H := L[w := ArrayOf(elems)];
    assert Children(H[w]) == elems;
    WiderGraph(L, H, w);
    forall i | 0 <= i < |elems| ensures elems[i] in H && Acyclic(elems[i], H, {} + {w}) && Unfold(elems[i], H, {} + {w}) == Tree(elems[i], L) {
      SameUnfolding(elems[i], L, H, {}, {} + {w});
    }
    ArrayCase(w, elems, H, {});
  }

  lemma WiderGraph(L: Heap, H: Heap, w: Node)
    requires Graph(L) && w !in L && w in H && H == L[w := H[w]] && GoodShape(H[w], H)
    ensures Graph(H)
  {
    forall m | m in H ensures GoodShape(H[m], H) {
      if m != w {
        assert GoodShape(L[m], L);
      }
    }
  }

  /** A new object around finite values. */
  lemma WrapObject(L: Heap, w: Node, members: seq<Entry<Node>>)
    requires Graph(L) && w !in L && forall i :: 0 <= i < |members| ==> members[i].value in L && Finite(members[i].value, L)
    requires DistinctKeys(members) && DistinctSerials(members) && forall i :: 0 <= i < |members| ==> NulFree(members[i].key)
    ensures var H := L[w := ObjectOf(members)];
      && Graph(H) && Finite(w, H) && Tree(w, H).Object? && |Tree(w, H).entries| == |members|
      && forall i :: 0 <= i < |members| ==> Tree(w, H).entries[i] == Entry(members[i].key, members[i].serial, Tree(members[i].value, L))
  {
    var H := L[w := ObjectOf(members)];
    assert forall i :: 0 <= i < |members| ==> Children(H[w])[i] == members[i].value;
    WiderGraph(L, H, w);
    forall i | 0 <= i < |members|
      ensures members[i].value in H && Acyclic(members[i].value, H, {} + {w}) && Unfold(members[i].value, H, {} + {w}) == Tree(members[i].value, L)
    {
      SameUnfolding(members[i].value, L, H, {}, {} + {w});
    }
    assert Acyclic(w, H, {});
    MembersUnfold(w, H, {});
    forall i | 0 <= i < |members| ensures Tree(w, H).entries[i] == Entry(members[i].key, members[i].serial, Tree(members[i].value, L)) {
      assert MemberUnfolds(members[i], Tree(w, H).entries[i], H, {} + {w});
    }
  }

  /** A leaf by itself. */
  lemma LeafGraph(w: Node, v: Json)
    requires GoodLeaf(v)
    ensures var H: Heap := map[w := Leaf(v)]; Graph(H) && Finite(w, H) && Tree(w, H) == v
  {
  }

  /** What was made so far stays what it is when more is added. */
  lemma StillTrees(ns: seq<Node>, L: Heap, M: Heap)
    requires Graph(L) && Graph(M) && (forall m :: m in L ==> m in M && M[m] == L[m])
    requires forall i :: 0 <= i < |ns| ==> ns[i] in L && Finite(ns[i], L)
    ensures forall i :: 0 <= i < |ns| ==> ns[i] in M && Finite(ns[i], M) && Tree(ns[i], M) == Tree(ns[i], L)
  {
    forall i | 0 <= i < |ns| ensures ns[i] in M && Finite(ns[i], M) && Tree(ns[i], M) == Tree(ns[i], L) {
      SameUnfolding(ns[i], L, M, {}, {});
    }
  }

  /**
    `json_deep_copy`. The copy's members are listed in the order in which they were set. Apart
    from the singletons the copy consists of new nodes.
    */
  method CopyNode(n: Node, ghost G: Heap) returns (w: Node, ghost H: Heap)
    requires Graph(G) && Snapshot(G) && RealFree(G) && n in G && Finite(n, G)
    ensures Graph(H) && Snapshot(H) && w in H && Finite(w, H) && Tree(w, H) == Arrange(Tree(n, G), AsIs)
    ensures forall m :: m in H ==> fresh(m) || (m in G && H[m] == G[m] && Singleton(G[m]))
    decreases Tree(n, G), 1
  {
    hide Graph, Finite, Tree, RealFree, Arrange;
    TreeParts(n, G);
    var shape := n.shape;
    if shape.ObjectOf? {
      w, H := CopyObject(n, shape.members, G);
    } else if shape.ArrayOf? {
      w, H := CopyArray(n, shape.elems, G);
    } else {
      LeafOfFinite(n, G);
      LeafGraph(n, shape.v);
      w, H := n, map[n := Leaf(shape.v)];
      if !Singleton(shape) {
        w := new Node(Leaf(shape.v));
        H := map[w := Leaf(shape.v)];
        LeafGraph(w, shape.v);
      }
    }
  }

  lemma LeafOfFinite(n: Node, G: Heap)
    requires Graph(G) && n in G && Finite(n, G) && G[n].Leaf?
    ensures GoodLeaf(G[n].v) && Arrange(Tree(n, G), AsIs) == G[n].v
  {
    assert GoodShape(G[n], G);
  }

  /** `json_array_deep_copy`. */
  method CopyArray(n: Node, elems: seq<Node>, ghost G: Heap) returns (w: Node, ghost H: Heap)
    requires Graph(G) && Snapshot(G) && RealFree(G) && n in G && Finite(n, G) && G[n] == ArrayOf(elems)
    ensures Graph(H) && Snapshot(H) && w in H && Finite(w, H) && Tree(w, H) == Arrange(Tree(n, G), AsIs)
    ensures forall m :: m in H ==> fresh(m) || (m in G && H[m] == G[m] && Singleton(G[m]))
    decreases Tree(n, G), 0
  {
    hide Graph, Finite, Tree, RealFree, Arrange, Singleton;
    TreeParts(n, G);
    var copies: seq<Node>, i := [], 0;
    ghost var L: Heap := map[];
    EmptyGraph();
    while i < |elems|
      invariant 0 <= i <= |elems| && |copies| == i
      invariant Graph(L) && Snapshot(L)
      invariant forall m :: m in L ==> fresh(m) || (m in G && L[m] == G[m] && Singleton(G[m]))
      invariant forall k :: 0 <= k < i ==> copies[k] in L && Finite(copies[k], L)
      invariant forall k :: 0 <= k < i ==> Tree(copies[k], L) == Arrange(Tree(elems[k], G), AsIs)
    {
      assert Tree(n, G).elems[i] == Tree(elems[i], G);
      ghost var K;
      var copy;
      copy, K := CopyNode(elems[i], G);
      MergedGraph(L, K);
      StillTrees(copies, L, L + K);
      StillTrees([copy], K, L + K);
      assert [copy][0] == copy;
      L := L + K;
      copies := copies + [copy];
      i := i + 1;
    }
    w := new Node(ArrayOf(copies));
    WrapArray(L, w, copies);
    H := L[w := ArrayOf(copies)];
    ArrangedArray(Tree(n, G), Tree(w, H));
  }

  lemma EmptyGraph()
    ensures Graph(map[])
  {
  }

  lemma ArrangedArray(v: Json, w: Json)
    requires v.Array? && w.Array? && |w.elems| == |v.elems| && forall i :: 0 <= i < |v.elems| ==> w.elems[i] == Arrange(v.elems[i], AsIs)
    ensures w == Arrange(v, AsIs)
  {
    assert w.elems == ArrangeAll(v.elems, AsIs);
  }

  lemma ArrangedObject(v: Json, w: Json)
    requires v.Object? && w.Object? && |w.entries| == |v.entries|
    requires forall i :: 0 <= i < |v.entries| ==> w.entries[i] == Entry(v.entries[i].key, i, Arrange(v.entries[i].value, AsIs))
    ensures w == Arrange(v, AsIs)
  {
    ArrangedEntries(v, AsIs);
    assert w.entries == Arrange(v, AsIs).entries;
  }

  /** `json_object_deep_copy`. */
  method CopyObject(n: Node, members: seq<Entry<Node>>, ghost G: Heap) returns (w: Node, ghost H: Heap)
    requires Graph(G) && Snapshot(G) && RealFree(G) && n in G && Finite(n, G) && G[n] == ObjectOf(members)
    ensures Graph(H) && Snapshot(H) && w in H && Finite(w, H) && Tree(w, H) == Arrange(Tree(n, G), AsIs)
    ensures forall m :: m in H ==> fresh(m) || (m in G && H[m] == G[m] && Singleton(G[m]))
    decreases Tree(n, G), 0
  {
    hide Graph, Finite, Tree, RealFree, Arrange, Singleton, SetMember, NulFree;
    TreeParts(n, G);
    ObjectChildren(n, G);
    var copied: seq<Entry<Node>>, i := [], 0;
    ghost var L: Heap := map[];
    ghost var nodes: seq<Node> := [];
    EmptyGraph();
    while i < |members|
      invariant 0 <= i <= |members| && |copied| == |nodes| == i
      invariant Graph(L) && Snapshot(L)
      invariant forall m :: m in L ==> fresh(m) || (m in G && L[m] == G[m] && Singleton(G[m]))
      invariant forall k :: 0 <= k < i ==> copied[k] == Entry(members[k].key, k, nodes[k])
      invariant forall k :: 0 <= k < i ==> nodes[k] in L && Finite(nodes[k], L)
      invariant forall k :: 0 <= k < i ==> Tree(nodes[k], L) == Arrange(Tree(members[k].value, G), AsIs)
    {
      assert Tree(n, G).entries[i] == Entry(members[i].key, members[i].serial, Tree(members[i].value, G));
      ghost var K;
      var copy;
      copy, K := CopyNode(members[i].value, G);
      MergedGraph(L, K);
      StillTrees(nodes, L, L + K);
      StillTrees([copy], K, L + K);
      assert [copy][0] == copy;
      L := L + K;
      SetNewMember(copied, members[i].key, i, copy);
      copied := SetMember(copied, members[i].key, i, copy);
      nodes := nodes + [copy];
      i := i + 1;
    }
    w := new Node(ObjectOf(copied));
    WrapObject(L, w, copied);
    H := L[w := ObjectOf(copied)];
    ArrangedObject(Tree(n, G), Tree(w, H));
  }

  /** A deep copy is equal to its original and shares no node with it except singletons. */
  method DeepCopyNode(n: Node, ghost G: Heap) returns (w: Node, ghost H: Heap)
    requires Graph(G) && Snapshot(G) && RealFree(G) && n in G && Finite(n, G)
    ensures Graph(H) && Snapshot(H) && w in H && Finite(w, H)
    ensures Proper(Tree(w, H)) && Equal(Tree(n, G), Tree(w, H))
    ensures forall m :: m in H && m in G ==> Singleton(G[m])
  {
    hide Graph, Finite, Tree, RealFree, Arrange, Singleton, Snapshot;
    w, H := CopyNode(n, G);
    TreeProper(n, G);
    ShuffledSelfArranged(Tree(n, G));
    DeepCopyEqual(Tree(n, G), Tree(w, H));
  }

  lemma ShuffledSelfArranged(v: Json)
    requires Proper(v)
    ensures Shuffled(Arrange(v, AsIs), Arrange(v, AsIs))
  {
    ArrangeKeepsProper(v, AsIs);
    ShuffledSelf(Arrange(v, AsIs));
  }
}
