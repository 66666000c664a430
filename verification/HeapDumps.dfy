/** `json_dumps` on heap graphs: when it succeeds, what it returns, and what parsing makes of it. */
module HeapDumps {
  import opened Bytes
  import opened Utf8
  import opened JsonValue
  import opened JsonOrder
  import opened JsonPrint
  import opened JsonParse
  import opened Canonical
  import opened RoundTrip
  import opened RoundTripTheorems
  import opened KeySort
  import opened Dumper

  // ----- which graphs can be printed

  /** A walk along child pointers. */
  ghost predicate Walk(p: seq<Node>, G: Heap)
    requires Graph(G)
  {
    && p != []
    && (forall i :: 0 <= i < |p| ==> p[i] in G)
    && forall i :: 0 <= i < |p| - 1 ==> p[i + 1] in Children(G[p[i]])
  }

  /** The walk ends in a string that is not UTF-8. */
  ghost predicate EndsInBadString(p: seq<Node>, G: Heap)
    requires Graph(G) && Walk(p, G)
  {
    var last := G[p[|p| - 1]];
    last.Leaf? && last.v.String? && !Valid(last.v.s)
  }

  /** The walk comes back to a node it has visited, or to one of the nodes `open`. */
  ghost predicate ComesBack(p: seq<Node>, G: Heap, open: set<Node>)
    requires Graph(G) && Walk(p, G)
  {
    var last := p[|p| - 1];
    !G[last].Leaf? && (last in open || exists i :: 0 <= i < |p| - 1 && p[i] == last)
  }

  /** A reason why the printer fails below `p[0]` with the containers `open` marked. */
  ghost predicate Obstacle(p: seq<Node>, G: Heap, open: set<Node>)
    requires Graph(G)
  {
    Walk(p, G) && (EndsInBadString(p, G) || ComesBack(p, G, open))
  }

  lemma {:induction false} FindObstacle(n: Node, G: Heap, open: set<Node>) returns (p: seq<Node>)
    requires Graph(G) && n in G && !Dumpable(n, G, open)
    ensures Obstacle(p, G, open) && p[0] == n
    decreases Rest(G, open)
  {
    p := [n];
    if !G[n].Leaf? && n !in open {
      SmallerRest(G, open, n);
      assert GoodShape(G[n], G);
      var i :| 0 <= i < |Children(G[n])| && !Dumpable(Children(G[n])[i], G, open + {n});
      var q := FindObstacle(Children(G[n])[i], G, open + {n});
      hide Dumpable, Graph, Children;
      LongerWalk(n, q, G);
      p := [n] + q;
      LongerObstacle(n, q, G, open);
    }
  }

  lemma LongerWalk(n: Node, q: seq<Node>, G: Heap)
    requires Graph(G) && n in G && Walk(q, G) && q[0] in Children(G[n])
    ensures Walk([n] + q, G)
  {
    var p := [n] + q;
    forall i | 0 <= i < |p| - 1 ensures p[i + 1] in Children(G[p[i]]) {
      if i > 0 {
        assert p[i] == q[i - 1] && p[i + 1] == q[i - 1 + 1];
      }
    }
  }

  lemma LongerObstacle(n: Node, q: seq<Node>, G: Heap, open: set<Node>)
    requires Graph(G) && n in G && !G[n].Leaf? && Walk([n] + q, G) && Walk(q, G)
    ensures Obstacle([n] + q, G, open) <==> Obstacle(q, G, open + {n})
  {
    assert q != [];
    hide Graph, Walk;
    var p := [n] + q;
    var last := q[|q| - 1];
    assert last == p[|p| - 1];
    if i :| 0 <= i < |q| - 1 && q[i] == last {
      assert p[i + 1] == last;
    }
    if i :| 0 <= i < |p| - 1 && p[i] == last {
      assert i > 0 ==> q[i - 1] == last;
      assert i == 0 ==> last == n;
    }
    if last == n {
      assert p[0] == last;
    }
  }

  lemma {:induction false} ObstacleStopsDump(p: seq<Node>, G: Heap, open: set<Node>)
    requires Graph(G) && Obstacle(p, G, open)
    ensures !Dumpable(p[0], G, open)
    decreases |p|
  {
    if |p| > 1 {
      var n, q := p[0], p[1..];
      assert p == [n] + q;
      assert p[0 + 1] in Children(G[p[0]]);
      if n !in open {
        assert Walk(q, G) by {
          forall i | 0 <= i < |q| - 1 ensures q[i + 1] in Children(G[q[i]]) {
            assert p[i + 1 + 1] in Children(G[p[i + 1]]);
          }
        }
        LongerObstacle(n, q, G, open);
        ObstacleStopsDump(q, G, open + {n});
        SmallerRest(G, open, n);
        var i :| 0 <= i < |Children(G[n])| && Children(G[n])[i] == q[0];
      }
    }
  }

  /** A cycle below `n`: a walk from `n` that meets some node twice. */
  ghost predicate CyclicWalk(p: seq<Node>, G: Heap, i: nat, j: nat)
    requires Graph(G)
  {
    Walk(p, G) && i < j < |p| && p[i] == p[j]
  }

  lemma CycleStopsDump(p: seq<Node>, G: Heap, i: nat, j: nat)
    requires Graph(G) && CyclicWalk(p, G, i, j)
    ensures !Dumpable(p[0], G, {})
  {
    hide Dumpable, Graph;
    var q := p[..j + 1];
    assert Walk(q, G) by {
      forall k | 0 <= k < |q| - 1 ensures q[k + 1] in Children(G[q[k]]) {
        assert p[k + 1] in Children(G[p[k]]);
      }
    }
    assert p[i + 1] in Children(G[p[i]]);
    assert q[i] == q[|q| - 1];
    ObstacleStopsDump(q, G, {});
  }

  /** The printer can print `n` exactly when no walk from `n` meets a node twice or ends in a bad string. */
  lemma DumpableIff(n: Node, G: Heap)
    requires Graph(G) && n in G
    ensures Dumpable(n, G, {}) <==>
      !(exists p: seq<Node>, i, j :: CyclicWalk(p, G, i, j) && p[0] == n) &&
      !(exists p: seq<Node> :: Walk(p, G) && EndsInBadString(p, G) && p[0] == n)
  {
    hide Dumpable, Graph;
    if !Dumpable(n, G, {}) {
      var p := FindObstacle(n, G, {});
      if ComesBack(p, G, {}) {
        var i :| 0 <= i < |p| - 1 && p[i] == p[|p| - 1];
        assert CyclicWalk(p, G, i, |p| - 1);
      }
    }
    if p: seq<Node>, i: nat, j: nat :| CyclicWalk(p, G, i, j) && p[0] == n {
      CycleStopsDump(p, G, i, j);
    }
    if p: seq<Node> :| Walk(p, G) && EndsInBadString(p, G) && p[0] == n {
      ObstacleStopsDump(p, G, {});
    }
  }

  // ----- json_dumps

  ghost predicate Unmarked(G: Heap)
    reads G.Keys`visited
  {
    forall n :: n in G ==> !n.visited
  }

  /**
    `json_dumps`; `None` stands for the null pointer. The text is that of `u`, the value with the
    members of every object as `qsort` left them; they are in the asked order when the
    comparator tells the serials apart. `G` may be any part of the heap that is closed under
    children; what is said of its objects need hold of those the root reaches only.
    */
  method JsonDumps(root: Node, f: Flags, ghost G: Heap) returns (r: Option<seq<byte>>, ghost u: Json)
    requires Graph(G) && Snapshot(G) && root in G && Unmarked(G)
    modifies G.Keys`visited
    ensures Unmarked(G)
    ensures r.Some? <==> !G[root].Leaf? && Dumpable(root, G, {})
    ensures r.Some? ==> Shuffled(Unfold(root, G, {}), u)
    ensures r.Some? && TextKeys(G) ==> r.value == Dumps(u, f.Unordered())
    ensures r.Some? && TextKeys(G) && Orderly(G, f) ==> r.value == Dumps(Unfold(root, G, {}), f)
  {
    u := Null;
    if root.shape.Leaf? {
      return None, u;
    }
    hide Graph, Dumpable, Unfold, Print, Shuffled, Follows;
    var sink := new Sink(true);
    var ok;
    ok, u := DoDump(root, f, 0, sink, G, {});
    if !ok {
      return None, u;
    }
    assert [] + sink.out == sink.out;
    var text := sink.buffer.Value();
    r := Some(text);
    if Orderly(G, f) {
      FollowsPrint(Unfold(root, G, {}), u, f, 0);
    }
  }

  /** `json_dumpf` and any other sink: whatever fails, no mark stays behind. */
  method JsonDumpf(root: Node, f: Flags, sink: Sink, ghost G: Heap) returns (ok: bool, ghost u: Json)
    requires Graph(G) && Snapshot(G) && root in G && Unmarked(G)
    requires sink.Valid()
    modifies G.Keys`visited, sink, sink.buffer, sink.buffer.value
    ensures Unmarked(G)
    ensures ok ==> !G[root].Leaf? && Dumpable(root, G, {}) && Shuffled(Unfold(root, G, {}), u)
    ensures !ok ==> sink.Failed() || G[root].Leaf? || !Dumpable(root, G, {})
    ensures ok && !sink.Failed() && TextKeys(G) ==> sink.out == old(sink.out) + Dumps(u, f.Unordered())
    ensures ok && !sink.Failed() && TextKeys(G) && Orderly(G, f) ==> sink.out == old(sink.out) + Dumps(Unfold(root, G, {}), f)
  {
    u := Null;
    if root.shape.Leaf? {
      return false, u;
    }
    hide Graph, Dumpable, Unfold, Print, Shuffled, Follows;
    ok, u := DoDump(root, f, 0, sink, G, {});
    if ok && Orderly(G, f) {
      FollowsPrint(Unfold(root, G, {}), u, f, 0);
    }
  }

  // ----- what was printed is a well-formed tree

  ghost predicate RealFree(G: Heap) {
    forall n :: n in G && G[n].Leaf? ==> !G[n].v.Real?
  }

  /** Keys are UTF-8, integers are `int`s and there are no reals. */
  ghost predicate Printable(G: Heap) {
    TextKeys(G) && RealFree(G) && forall n :: n in G && G[n].Leaf? && G[n].v.Integer? ==> INT_MIN <= G[n].v.i <= INT_MAX
  }

  lemma {:induction false} UnfoldWellFormed(n: Node, G: Heap, open: set<Node>)
    requires Graph(G) && Printable(G) && n in G && Dumpable(n, G, open)
    ensures WellFormed(Unfold(n, G, open))
    decreases Rest(G, open)
  {
    hide Valid, NulFree;
    assert GoodShape(G[n], G);
    match G[n]
    case Leaf(v) =>
    case ArrayOf(elems) =>
      SmallerRest(G, open, n);
      forall i | 0 <= i < |elems| ensures WellFormed(Unfold(n, G, open).elems[i]) {
        assert Children(G[n])[i] == elems[i];
        UnfoldWellFormed(elems[i], G, open + {n});
      }
    case ObjectOf(members) =>
      SmallerRest(G, open, n);
      MembersUnfold(n, G, open);
      var es := Unfold(n, G, open).entries;
      forall i | 0 <= i < |es|
        ensures es[i].key == members[i].key && es[i].serial == members[i].serial && WellFormed(es[i].value)
      {
        assert MemberUnfolds(members[i], es[i], G, open + {n});
        assert Children(G[n])[i] == members[i].value;
        UnfoldWellFormed(members[i].value, G, open + {n});
      }
      hide Dumpable, Unfold, Graph;
  }

  lemma {:induction false} UnfoldFits(n: Node, G: Heap, f: Flags, open: set<Node>)
    requires Graph(G) && n in G && Acyclic(n, G, open) && f.Order() == BySerial && Orderly(G, f)
    ensures Fits(Unfold(n, G, open))
    decreases Rest(G, open)
  {
    assert GoodShape(G[n], G);
    match G[n]
    case Leaf(v) =>
    case ArrayOf(elems) =>
      SmallerRest(G, open, n);
      forall i | 0 <= i < |elems| ensures Fits(Unfold(n, G, open).elems[i]) {
        assert Children(G[n])[i] == elems[i];
        UnfoldFits(elems[i], G, f, open + {n});
      }
    case ObjectOf(members) =>
      SmallerRest(G, open, n);
      MembersUnfold(n, G, open);
      var es := Unfold(n, G, open).entries;
      forall i | 0 <= i < |es| ensures es[i].serial == members[i].serial && Fits(es[i].value) {
        assert MemberUnfolds(members[i], es[i], G, open + {n});
        UnfoldFits(members[i].value, G, f, open + {n});
      }
      hide Dumpable, Unfold, Graph, Close;
      SameSerialsStillFit(members, es);
  }

  lemma SameSerialsStillFit(a: seq<Entry<Node>>, b: seq<Entry<Json>>)
    requires SerialsFit(a) && |a| == |b| && forall i :: 0 <= i < |a| ==> b[i].serial == a[i].serial
    ensures SerialsFit(b)
  {
    hide Close;
    forall x, y | x in b && y in b ensures Close(x.serial, y.serial) {
      var i :| 0 <= i < |b| && b[i] == x;
      var j :| 0 <= j < |b| && b[j] == y;
      assert a[i] in a && a[j] in a;
    }
  }

  /**
    Parsing undoes printing on heap graphs: whatever sharing the graph has, whatever `qsort`
    makes of the members and whatever the layout flags, the text of an acyclic graph is read back as
    a value equal to the graph's unfolding.
    */
  lemma LoadsUndoesJsonDumps(root: Node, f: Flags, G: Heap, u: Json, w: Json)
    requires Graph(G) && Printable(G) && root in G && !G[root].Leaf? && Dumpable(root, G, {})
    requires Shuffled(Unfold(root, G, {}), u)
    requires var back := Loads(Dumps(u, f.Unordered())); back.Some? ==> Shuffled(back.value, w)
    ensures Loads(Dumps(u, f.Unordered())).Some?
    ensures WellFormed(w) && Equal(w, Unfold(root, G, {})) && Equal(Unfold(root, G, {}), w)
  {
    var v := Unfold(root, G, {});
    UnfoldWellFormed(root, G, {});
    ByShapeContainer(root, G);
    hide Unfold, Dumpable, Graph, Printable, Shuffled, WellFormed, Equal, Denote;
    ShuffledWellFormed(v, u);
    ShuffledContainer(v, u);
    LoadsDumpsEqual(u, f.Unordered(), w);
    ShuffledSameMeaning(v, u);
    EqualIffSameMeaning(w, u);
    EqualIffSameMeaning(w, v);
    EqualIffSameMeaning(v, w);
  }

  lemma ByShapeContainer(n: Node, G: Heap)
    requires Graph(G) && n in G && Dumpable(n, G, {}) && !G[n].Leaf?
    ensures Container(Unfold(n, G, {}))
  {
  }

  lemma ShuffledContainer(v: Json, u: Json)
    requires Shuffled(v, u)
    ensures Container(u) <==> Container(v)
  {
  }

  /** With sorted keys, or preserved order and serials that are told apart, printing what was loaded gives the same bytes. */
  lemma JsonDumpsAgain(root: Node, f: Flags, G: Heap, w: Json)
    requires Graph(G) && Printable(G) && root in G && !G[root].Leaf? && Dumpable(root, G, {})
    requires f.Order() != AsIs && Orderly(G, f)
    requires var back := Loads(Dumps(Unfold(root, G, {}), f)); back.Some? ==> Shuffled(back.value, w)
    ensures Dumps(w, f) == Dumps(Unfold(root, G, {}), f)
    ensures f.Order() == BySerial ==> Fits(w)
  {
    UnfoldWellFormed(root, G, {});
    ByShapeContainer(root, G);
    if f.Order() == BySerial {
      UnfoldFits(root, G, f, {});
    }
    hide Unfold, Dumpable, Graph, Printable, Orderly;
    DumpsLoadsDumps(Unfold(root, G, {}), f, w);
  }
}
