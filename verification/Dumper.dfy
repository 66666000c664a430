/** The printer of `compat/jansson/dump.c`, run on an arbitrary heap graph. */
module Dumper {
  import opened Bytes
  import opened Utf8
  import opened JsonValue
  import opened JsonOrder
  import opened JsonPrint
  import opened KeySort
  import opened Canonical
  import opened StrBuffers

  /**
    Where the text goes, the `dump` callback and its `data`. A string buffer takes everything
    (allocation always succeeds); any other sink may refuse a write at any time.
    */
  class Sink {
    const reliable: bool
    /** The string buffer, if it is one. */
    const buffer: StrBuffer
    ghost var out: seq<byte>
    ghost var refused: bool

    ghost predicate Valid()
      reads this, buffer, buffer.value
    {
      buffer.Valid() && (reliable ==> buffer.Contents() == out)
    }

    constructor (reliable: bool)
      ensures Valid() && out == [] && !Failed() && this.reliable == reliable
      ensures fresh(buffer) && fresh(buffer.value)
    {
      this.reliable := reliable;
      buffer := new StrBuffer();
      out := [];
      refused := false;
    }

    /** Some write has failed. */
    ghost predicate Failed()
      reads this
    {
      refused && !reliable
    }

    /** `dump_to_strbuffer`, or another callback. */
    method Write(text: seq<byte>) returns (ok: bool)
      requires Valid()
      modifies this, buffer, buffer.value
      ensures Valid() && (buffer.value == old(buffer.value) || fresh(buffer.value))
      ensures ok ==> out == old(out) + text && Failed() == old(Failed())
      ensures !ok ==> Failed()
    {
      if reliable {
        buffer.AppendBytes(text);
        ok := true;
        out := out + text;
      } else {
        ok := *;
        if ok {
          out := out + text;
        } else {
          refused := true;
        }
      }
    }
  }

  // ----- strings

  /** `done` has been printed, `s[start..pos]` is held back, the rest is still to come. */
  ghost predicate Printed(s: seq<byte>, ascii: bool, done: seq<byte>, start: nat, pos: nat) {
    && start <= pos <= |s|
    && (Valid(s) <==> Valid(s[pos..]))
    && Escaped(s, ascii) == done + s[start..pos] + Escaped(s[pos..], ascii)
  }

  lemma PrintedStart(s: seq<byte>, ascii: bool)
    ensures Printed(s, ascii, [], 0, 0)
  {
    assert s[0..] == s;
    assert [] + s[0..0] + Escaped(s, ascii) == Escaped(s, ascii);
  }

  /** The first code point of `t`, printed, and the rest. */
  lemma EscapedStep(t: seq<byte>, ascii: bool)
    requires t != [] && FirstUnit(t).Some?
    ensures var Unit(cp, count) := FirstUnit(t).value;
            && 0 < count <= |t| && Scalar(cp) && (Valid(t) <==> Valid(t[count..]))
            && Escaped(t, ascii) == (if MustEscape(cp, ascii) then EscapeText(cp) else t[..count]) + Escaped(t[count..], ascii)
  {
    ReadThenEncode(t);
  }

  lemma CopyUnit(s: seq<byte>, ascii: bool, done: seq<byte>, start: nat, pos: nat)
    requires Printed(s, ascii, done, start, pos) && pos < |s| && FirstUnit(s[pos..]).Some?
    requires !MustEscape(FirstUnit(s[pos..]).value.cp, ascii)
    ensures Printed(s, ascii, done, start, pos + FirstUnit(s[pos..]).value.count)
  {
    hide Escaped, FirstUnit, Valid, EscapeText, MustEscape;
    EscapedStep(s[pos..], ascii);
    var n := FirstUnit(s[pos..]).value.count;
    assert s[pos..][n..] == s[pos + n..];
    JoinSlices(s, start, pos, n);
    RegroupMiddle(done, s[start..pos], s[pos..][..n], Escaped(s[pos + n..], ascii));
  }

  lemma JoinSlices(s: seq<byte>, start: nat, pos: nat, n: nat)
    requires start <= pos && pos + n <= |s|
    ensures s[start..pos + n] == s[start..pos] + s[pos..][..n]
  {
  }

  lemma RegroupMiddle(a: seq<byte>, b: seq<byte>, c: seq<byte>, d: seq<byte>)
    ensures a + b + (c + d) == a + (b + c) + d
  {
  }

  lemma EscapeUnit(s: seq<byte>, ascii: bool, done: seq<byte>, start: nat, pos: nat)
    requires Printed(s, ascii, done, start, pos) && pos < |s| && FirstUnit(s[pos..]).Some?
    requires MustEscape(FirstUnit(s[pos..]).value.cp, ascii)
    ensures Scalar(FirstUnit(s[pos..]).value.cp)
    ensures var u := FirstUnit(s[pos..]).value;
            Printed(s, ascii, done + s[start..pos] + EscapeText(u.cp), pos + u.count, pos + u.count)
  {
    hide Escaped, FirstUnit, Valid, EscapeText, MustEscape;
    EscapedStep(s[pos..], ascii);
    var u := FirstUnit(s[pos..]).value;
    assert s[pos..][u.count..] == s[pos + u.count..];
    assert s[pos + u.count..pos + u.count] == [];
    RegroupEmpty(done + s[start..pos], EscapeText(u.cp), Escaped(s[pos + u.count..], ascii));
  }

  lemma RegroupEmpty(a: seq<byte>, b: seq<byte>, c: seq<byte>)
    ensures a + (b + c) == a + b + [] + c
  {
  }

  /** The inner loop of `dump_string`: up to the next character that needs an escape, which ends at `end`, or to the end. */
  method PlainRun(str: seq<byte>, ascii: bool, start: nat, ghost done: seq<byte>) returns (ok: bool, pos: nat, end: nat, codepoint: int)
    requires NulFree(str) && Printed(str, ascii, done, start, start)
    ensures !ok ==> !Valid(str)
    ensures ok ==> Printed(str, ascii, done, start, pos)
    ensures ok && end == pos ==> pos == |str|
    ensures ok && end != pos ==> pos < |str| && end > pos && FirstUnit(str[pos..]) == Some(Unit(codepoint, end - pos)) && MustEscape(codepoint, ascii)
  {
    hide Escaped, FirstUnit, EscapeText, Valid;
    var text := str + [NUL];
    pos, end, codepoint := start, start, 0;
    while text[end] != NUL
      invariant end == pos && Printed(str, ascii, done, start, pos)
      decreases |str| - pos
    {
      var unit := Iterate(text[pos..]);
      assert text[pos..][..|text| - pos - 1] == str[pos..];
      if unit.None? {
        InvalidTail(str, pos);
        return false, pos, end, codepoint;
      }
      codepoint, end := unit.value.cp, pos + unit.value.count;
      UnitIsThere(str[pos..]);
      if MustEscape(codepoint, ascii) {
        return true, pos, end, codepoint;
      }
      CopyUnit(str, ascii, done, start, pos);
      pos := end;
    }
    ok := true;
  }

  lemma UnitIsThere(t: seq<byte>)
    requires t != [] && FirstUnit(t).Some?
    ensures 1 <= FirstUnit(t).value.count <= |t|
  {
  }

  /** `dump_string`: `start`, `pos` and `end` are the pointers `str`, `pos` and `end` of the source. */
  method DumpString(str: seq<byte>, ascii: bool, sink: Sink) returns (ok: bool)
    requires NulFree(str)
    requires sink.Valid()
    modifies sink, sink.buffer, sink.buffer.value
    ensures sink.Valid() && (sink.buffer.value == old(sink.buffer.value) || fresh(sink.buffer.value))
    ensures ok ==> Valid(str) && sink.out == old(sink.out) + StringText(str, ascii) && sink.Failed() == old(sink.Failed())
    ensures !ok ==> sink.Failed() || !Valid(str)
    ensures old(sink.Failed()) ==> sink.Failed()
  {
    hide Escaped, FirstUnit, EscapeText, Valid, Printed, MustEscape, Sink.Failed, Sink.Valid, NulFree;
    ghost var before := sink.out + [QUOTE];
    ok := sink.Write([QUOTE]);
    if !ok {
      return;
    }
    var start := 0;
    ghost var done: seq<byte> := [];
    PrintedStart(str, ascii);
    while true
      invariant start <= |str| && Printed(str, ascii, done, start, start)
      invariant sink.Failed() == old(sink.Failed()) && sink.out == before + done
      invariant sink.Valid() && (sink.buffer.value == old(sink.buffer.value) || fresh(sink.buffer.value))
      decreases |str| - start
    {
      var pos, end, codepoint;
      ok, pos, end, codepoint := PlainRun(str, ascii, start, done);
      if !ok {
        return;
      }
      PrintedBounds(str, ascii, done, start, pos);
      if pos != start {
        ok := sink.Write(str[start..pos]);
        if !ok {
          return;
        }
      }
      Append(before, done, str[start..pos]);
      assert sink.out == before + (done + str[start..pos]);
      if end == pos {
        PrintedAll(str, ascii, done, start, pos);
        ok := sink.Write([QUOTE]);
        Append(old(sink.out), [QUOTE], done + str[start..pos]);
        Append(old(sink.out), [QUOTE] + (done + str[start..pos]), [QUOTE]);
        return;
      }
      EscapeUnit(str, ascii, done, start, pos);
      ok := sink.Write(EscapeText(codepoint));
      if !ok {
        return;
      }
      Append(before, done + str[start..pos], EscapeText(codepoint));
      done := done + str[start..pos] + EscapeText(codepoint);
      start := end;
    }
  }

  lemma PrintedBounds(s: seq<byte>, ascii: bool, done: seq<byte>, start: nat, pos: nat)
    requires Printed(s, ascii, done, start, pos)
    ensures start <= pos <= |s|
  {
  }

  lemma Append(a: seq<byte>, b: seq<byte>, c: seq<byte>)
    ensures a + b + c == a + (b + c)
    ensures c == [] ==> a + b == a + (b + c)
  {
  }

  lemma InvalidTail(s: seq<byte>, pos: nat)
    requires pos < |s| && FirstUnit(s[pos..]).None?
    ensures !Valid(s[pos..])
  {
  }

  lemma PrintedAll(s: seq<byte>, ascii: bool, done: seq<byte>, start: nat, pos: nat)
    requires Printed(s, ascii, done, start, pos) && pos == |s|
    ensures Valid(s) && Escaped(s, ascii) == done + s[start..pos]
  {
    assert s[pos..] == [];
  }

  // ----- the heap graph

  /** A JSON node on the heap; `visited` matters for arrays and objects only. */
  class Node {
    var shape: Shape
    var visited: bool

    constructor (shape: Shape)
      ensures this.shape == shape && !visited
    {
      this.shape := shape;
      visited := false;
    }
  }

  /** A leaf holds a value that is neither array nor object. */
  datatype Shape =
    | Leaf(v: Json)
    | ArrayOf(elems: seq<Node>)
    | ObjectOf(members: seq<Entry<Node>>)

  ghost predicate GoodLeaf(v: Json) {
    !v.Array? && !v.Object? && (v.String? ==> NulFree(v.s))
  }

  /** The shapes of all nodes of a heap graph; the printer changes none of them. */
  type Heap = map<Node, Shape>

  ghost predicate Snapshot(G: Heap)
    reads G.Keys`shape
  {
    forall n :: n in G ==> n.shape == G[n]
  }

  ghost function Children(shape: Shape): seq<Node> {
    match shape
    case Leaf(_) => []
    case ArrayOf(elems) => elems
    case ObjectOf(members) => seq(|members|, i requires 0 <= i < |members| => members[i].value)
  }

  /** Every key is UTF-8. */
  ghost predicate TextKeys(G: Heap) {
    forall n :: n in G && G[n].ObjectOf? ==> forall i :: 0 <= i < |G[n].members| ==> Valid(G[n].members[i].key)
  }

  /** A heap graph: children stay inside; keys are distinct, as a hash table keeps them. */
  ghost predicate Graph(G: Heap) {
    forall n :: n in G ==> GoodShape(G[n], G)
  }

  ghost predicate GoodShape(shape: Shape, G: Heap) {
    && (forall i :: 0 <= i < |Children(shape)| ==> Children(shape)[i] in G)
    && match shape
       case Leaf(v) => GoodLeaf(v)
       case ArrayOf(_) => true
       case ObjectOf(members) =>
         DistinctKeys(members) && DistinctSerials(members) && forall i :: 0 <= i < |members| ==> NulFree(members[i].key)
  }

  /** The nodes with a `visited` mark are exactly those in `path`. */
  ghost predicate Marked(G: Heap, path: set<Node>)
    reads G.Keys`visited
  {
    forall n :: n in G ==> (n.visited <==> n in path)
  }

  /** How many nodes are not open yet. */
  ghost function Rest(G: Heap, path: set<Node>): nat {
    |G.Keys - path|
  }

  lemma SmallerRest(G: Heap, path: set<Node>, n: Node)
    requires n in G && n !in path
    ensures Rest(G, path + {n}) < Rest(G, path)
  {
    assert G.Keys - path == (G.Keys - (path + {n})) + {n};
  }

  /** Below `n`, with the containers in `path` open: no container is met again. */
  ghost predicate Acyclic(n: Node, G: Heap, path: set<Node>)
    requires Graph(G) && n in G
    decreases Rest(G, path)
  {
    if G[n].Leaf? then true
    else if n in path then false
    else
      SmallerRest(G, path, n);
      forall i :: 0 <= i < |Children(G[n])| ==> Acyclic(Children(G[n])[i], G, path + {n})
  }

  /** The same, and every string is UTF-8. */
  ghost predicate Dumpable(n: Node, G: Heap, path: set<Node>): (b: bool)
    requires Graph(G) && n in G
    ensures b ==> Acyclic(n, G, path)
    decreases Rest(G, path)
  {
    if G[n].Leaf? then G[n].v.String? ==> Valid(G[n].v.s)
    else if n in path then false
    else
      SmallerRest(G, path, n);
      forall i :: 0 <= i < |Children(G[n])| ==> Dumpable(Children(G[n])[i], G, path + {n})
  }

  /** The finite tree a node without a cycle below it stands for. */
  ghost function Unfold(n: Node, G: Heap, path: set<Node>): Json
    requires Graph(G) && n in G && Acyclic(n, G, path)
    decreases Rest(G, path), 1, 0
  {
    match G[n]
    case Leaf(v) => v
    case ArrayOf(elems) =>
      SmallerRest(G, path, n);
      assert elems == Children(G[n]);
      Array(UnfoldElems(elems, G, path + {n}))
    case ObjectOf(members) =>
      SmallerRest(G, path, n);
      assert forall i :: 0 <= i < |members| ==> members[i].value == Children(G[n])[i];
      Object(UnfoldMembers(members, G, path + {n}))
  }

  ghost function UnfoldElems(ns: seq<Node>, G: Heap, path: set<Node>): (r: seq<Json>)
    requires Graph(G) && forall i :: 0 <= i < |ns| ==> ns[i] in G && Acyclic(ns[i], G, path)
    ensures |r| == |ns| && forall i :: 0 <= i < |ns| ==> r[i] == Unfold(ns[i], G, path)
    decreases Rest(G, path), 2, |ns|
  {
    if ns == [] then [] else [Unfold(ns[0], G, path)] + UnfoldElems(ns[1..], G, path)
  }

  ghost function UnfoldMembers(ms: seq<Entry<Node>>, G: Heap, path: set<Node>): (r: seq<Entry<Json>>)
    requires Graph(G) && forall i :: 0 <= i < |ms| ==> ms[i].value in G && Acyclic(ms[i].value, G, path)
    ensures |r| == |ms| && forall i :: 0 <= i < |ms| ==> r[i] == Entry(ms[i].key, ms[i].serial, Unfold(ms[i].value, G, path))
    decreases Rest(G, path), 2, |ms|
  {
    if ms == [] then []
    else [Entry(ms[0].key, ms[0].serial, Unfold(ms[0].value, G, path))] + UnfoldMembers(ms[1..], G, path)
  }

  // ----- do_dump

  ghost function Lefts<A, B>(z: seq<Entry<(A, B)>>): (r: seq<Entry<A>>)
    ensures |r| == |z| && forall i :: 0 <= i < |z| ==> r[i] == Entry(z[i].key, z[i].serial, z[i].value.0)
  {
    seq(|z|, i requires 0 <= i < |z| => Entry(z[i].key, z[i].serial, z[i].value.0))
  }

  ghost function Rights<A, B>(z: seq<Entry<(A, B)>>): (r: seq<Entry<B>>)
    ensures |r| == |z| && forall i :: 0 <= i < |z| ==> r[i] == Entry(z[i].key, z[i].serial, z[i].value.1)
  {
    seq(|z|, i requires 0 <= i < |z| => Entry(z[i].key, z[i].serial, z[i].value.1))
  }

  lemma {:induction false} InsertProjects<A, B>(e: Entry<(A, B)>, z: seq<Entry<(A, B)>>, order: Order)
    ensures Insert(Entry(e.key, e.serial, e.value.0), Lefts(z), order) == Lefts(Insert(e, z, order))
    ensures Insert(Entry(e.key, e.serial, e.value.1), Rights(z), order) == Rights(Insert(e, z, order))
  {
    hide KeyLess, Before, Lefts, Rights;
    var l, r := Entry(e.key, e.serial, e.value.0), Entry(e.key, e.serial, e.value.1);
    if z != [] {
      ProjectsKeepOrder(e, z, order);
      ProjectsTail(z);
      if !Before(e, z[0], order) {
        InsertProjects(e, z[1..], order);
        ProjectsCons(z[0], Insert(e, z[1..], order));
        return;
      }
    }
    ProjectsCons(e, z);
  }

  lemma ProjectsKeepOrder<A, B>(e: Entry<(A, B)>, z: seq<Entry<(A, B)>>, order: Order)
    requires z != []
    ensures Lefts(z) != [] && Rights(z) != []
    ensures Before(Entry(e.key, e.serial, e.value.0), Lefts(z)[0], order) <==> Before(e, z[0], order)
    ensures Before(Entry(e.key, e.serial, e.value.1), Rights(z)[0], order) <==> Before(e, z[0], order)
  {
  }

  lemma ProjectsTail<A, B>(z: seq<Entry<(A, B)>>)
    requires z != []
    ensures Lefts(z) == [Entry(z[0].key, z[0].serial, z[0].value.0)] + Lefts(z[1..]) && Lefts(z)[1..] == Lefts(z[1..])
    ensures Rights(z) == [Entry(z[0].key, z[0].serial, z[0].value.1)] + Rights(z[1..]) && Rights(z)[1..] == Rights(z[1..])
  {
  }

  lemma ProjectsCons<A, B>(e: Entry<(A, B)>, z: seq<Entry<(A, B)>>)
    ensures Lefts([e] + z) == [Entry(e.key, e.serial, e.value.0)] + Lefts(z)
    ensures Rights([e] + z) == [Entry(e.key, e.serial, e.value.1)] + Rights(z)
  {
  }

  /** Sorting looks at keys and serials only. */
  lemma {:induction false} SortProjects<A, B>(z: seq<Entry<(A, B)>>, order: Order)
    ensures Sort(Lefts(z), order) == Lefts(Sort(z, order))
    ensures Sort(Rights(z), order) == Rights(Sort(z, order))
  {
    if order != AsIs && z != [] {
      SortProjects(z[1..], order);
      InsertProjects(z[0], Sort(z[1..], order), order);
      assert Lefts(z)[1..] == Lefts(z[1..]) && Rights(z)[1..] == Rights(z[1..]);
    }
  }

  /** A member of an object and the tree it stands for. */
  ghost predicate MemberUnfolds(m: Entry<Node>, e: Entry<Json>, G: Heap, path: set<Node>)
    requires Graph(G)
  {
    m.value in G && Acyclic(m.value, G, path) && e == Entry(m.key, m.serial, Unfold(m.value, G, path))
  }

  lemma MembersUnfold(n: Node, G: Heap, path: set<Node>)
    requires Graph(G) && n in G && Acyclic(n, G, path) && G[n].ObjectOf?
    ensures var v := Unfold(n, G, path); var members := G[n].members;
            v.Object? && |v.entries| == |members| && forall i :: 0 <= i < |members| ==> MemberUnfolds(members[i], v.entries[i], G, path + {n})
  {
    var members := G[n].members;
    assert GoodShape(G[n], G);
    assert forall i :: 0 <= i < |members| ==> members[i].value == Children(G[n])[i];
  }

  ghost function Zip(members: seq<Entry<Node>>, es: seq<Entry<Json>>): (z: seq<Entry<(Node, Json)>>)
    requires |members| == |es|
    ensures |z| == |es| && forall i :: 0 <= i < |z| ==> z[i] == Entry(members[i].key, members[i].serial, (members[i].value, es[i].value))
  {
    seq(|members|, i requires 0 <= i < |members| => Entry(members[i].key, members[i].serial, (members[i].value, es[i].value)))
  }

  lemma SortedPair<A, B>(z: seq<Entry<(A, B)>>, order: Order, i: nat) returns (j: nat)
    requires i < |Sort(z, order)|
    ensures |Sort(z, order)| == |z| && j < |z| && z[j] == Sort(z, order)[i]
    ensures Sort(Lefts(z), order) == Lefts(Sort(z, order)) && Sort(Rights(z), order) == Rights(Sort(z, order))
  {
    SortProjects(z, order);
    SortPermutes(z, order);
    var sz := Sort(z, order);
    assert sz[i] in multiset(sz);
    assert sz[i] in multiset(z);
    assert sz[i] in z;
    j :| 0 <= j < |z| && z[j] == sz[i];
  }

  /** The same in printing order. */
  lemma SortedUnfolds(n: Node, G: Heap, path: set<Node>, order: Order)
    requires Graph(G) && n in G && Acyclic(n, G, path) && G[n].ObjectOf?
    ensures var v := Unfold(n, G, path); var sorted := Sort(G[n].members, order);
      && v.Object? && |Sort(v.entries, order)| == |sorted| == |G[n].members|
      && forall i :: 0 <= i < |sorted| ==> MemberUnfolds(sorted[i], Sort(v.entries, order)[i], G, path + {n}) && Sort(v.entries, order)[i] in v.entries
  {
    MembersUnfold(n, G, path);
    var members, v := G[n].members, Unfold(n, G, path);
    hide Acyclic, Unfold, Sort, Graph, Lefts, Rights;
    SortPermutes(members, order);
    SortPermutes(v.entries, order);
    assert |multiset(Sort(members, order))| == |multiset(members)|;
    assert |multiset(Sort(v.entries, order))| == |multiset(v.entries)|;
    forall i | 0 <= i < |members|
      ensures MemberUnfolds(Sort(members, order)[i], Sort(v.entries, order)[i], G, path + {n}) && Sort(v.entries, order)[i] in v.entries
    {
      SortedUnfold(members, v.entries, G, path + {n}, order, i);
    }
  }

  lemma SortedUnfold(members: seq<Entry<Node>>, es: seq<Entry<Json>>, G: Heap, path: set<Node>, order: Order, i: nat)
    requires Graph(G) && |es| == |members| && forall k :: 0 <= k < |members| ==> MemberUnfolds(members[k], es[k], G, path)
    requires i < |members| && |Sort(members, order)| == |Sort(es, order)| == |members|
    ensures MemberUnfolds(Sort(members, order)[i], Sort(es, order)[i], G, path) && Sort(es, order)[i] in es
  {
    hide Acyclic, Unfold, Sort, Graph;
    var z := Zip(members, es);
    assert Lefts(z) == members;
    assert Rights(z) == es by {
      assert forall k :: 0 <= k < |members| ==> MemberUnfolds(members[k], es[k], G, path);
    }
    SortProjects(z, order);
    var j := SortedPair(z, order, i);
    assert MemberUnfolds(members[j], es[j], G, path);
  }

  /** No node outside `path` is marked. */
  ghost predicate MarkedAtMost(G: Heap, path: set<Node>)
    reads G.Keys`visited
  {
    forall n :: n in G && n.visited ==> n in path
  }

  /** `dump_indent`. */
  method DumpIndent(f: Flags, depth: nat, space: bool, sink: Sink) returns (ok: bool)
    requires sink.Valid()
    modifies sink, sink.buffer, sink.buffer.value
    ensures sink.Valid() && (sink.buffer.value == old(sink.buffer.value) || fresh(sink.buffer.value))
    ensures ok ==> sink.out == old(sink.out) + Indent(f, depth, space) && sink.Failed() == old(sink.Failed())
    ensures !ok ==> sink.Failed()
  {
    ok := true;
    if f.indent > 0 {
      ok := sink.Write([LF]);
      if !ok {
        return;
      }
      var i := 0;
      while i < depth
        invariant 0 <= i <= depth && ok && sink.Failed() == old(sink.Failed())
        invariant sink.Valid() && (sink.buffer.value == old(sink.buffer.value) || fresh(sink.buffer.value))
        invariant sink.out == old(sink.out) + [LF] + Spaces(i * f.indent)
      {
        ok := sink.Write(Spaces(f.indent));
        if !ok {
          return;
        }
        assert (i + 1) * f.indent == i * f.indent + f.indent;
        assert Spaces((i + 1) * f.indent) == Spaces(i * f.indent) + Spaces(f.indent);
        i := i + 1;
      }
    } else if space && !f.compact {
      ok := sink.Write([SPACE]);
    }
  }

  /** The leaf cases of `do_dump`. */
  method DumpLeaf(v: Json, f: Flags, depth: nat, sink: Sink) returns (ok: bool)
    requires GoodLeaf(v)
    requires sink.Valid()
    modifies sink, sink.buffer, sink.buffer.value
    ensures sink.Valid() && (sink.buffer.value == old(sink.buffer.value) || fresh(sink.buffer.value))
    ensures ok ==> (v.String? ==> Valid(v.s)) && sink.out == old(sink.out) + Print(v, f, depth) && sink.Failed() == old(sink.Failed())
    ensures !ok ==> sink.Failed() || (v.String? && !Valid(v.s))
    ensures old(sink.Failed()) ==> sink.Failed()
  {
    match v {
      case Null => ok := sink.Write(NULL_TEXT);
      case True => ok := sink.Write(TRUE_TEXT);
      case False => ok := sink.Write(FALSE_TEXT);
      case Integer(i) => ok := sink.Write(IntegerText(i));
      case Real(text) => ok := sink.Write(text);
      case String(s) => ok := DumpString(s, f.ascii, sink);
    }
  }

  /** The tree `u` was printed for `v`: the members of each object come in some order, and in the asked one if serials are told apart. */
  ghost predicate PrintedAs(v: Json, u: Json, G: Heap, f: Flags) {
    Shuffled(v, u) && (Orderly(G, f) ==> Follows(v, u, f.Order()))
  }

  /** The same for the value `n` stands for. */
  ghost predicate NodePrintedAs(n: Node, u: Json, G: Heap, path: set<Node>, f: Flags)
    requires Graph(G) && n in G
  {
    Acyclic(n, G, path) && PrintedAs(Unfold(n, G, path), u, G, f)
  }

  /** In every object the serials are told apart by the comparator, if it is used. */
  ghost predicate Orderly(G: Heap, f: Flags) {
    f.Order() == BySerial ==> forall n :: n in G && G[n].ObjectOf? ==> SerialsFit(G[n].members)
  }

  /**
    `do_dump`. A container that is already marked is a cycle; its mark is cleared at once, and
    every caller on the way up clears its own. The same happens on the way up from a failed write.
    */
  method DoDump(n: Node, f: Flags, depth: nat, sink: Sink, ghost G: Heap, ghost path: set<Node>) returns (ok: bool, ghost u: Json)
    requires Graph(G) && Snapshot(G) && n in G && path <= G.Keys && Marked(G, path)
    requires sink.Valid()
    modifies G.Keys`visited, sink, sink.buffer, sink.buffer.value
    ensures sink.Valid() && (sink.buffer.value == old(sink.buffer.value) || fresh(sink.buffer.value))
    ensures ok ==> Dumpable(n, G, path) && Marked(G, path) && NodePrintedAs(n, u, G, path, f)
    ensures !ok ==> sink.Failed() || !Dumpable(n, G, path)
    ensures ok && !sink.Failed() && TextKeys(G) ==> sink.out == old(sink.out) + Print(u, f.Unordered(), depth)
    ensures old(sink.Failed()) ==> sink.Failed()
    ensures MarkedAtMost(G, path)
    decreases Rest(G, path), 0
  {
    hide Dumpable, Unfold, Print, Graph, Snapshot, GoodShape, Marked, MarkedAtMost, Rest, PrintedAs;
    var shape := n.shape;
    AtNode(n, G, path);
    ByShape(n, G, path);
    u := Null;
    if shape.Leaf? {
      ok := DumpLeaf(shape.v, f, depth, sink);
      u := shape.v;
      LeafPrintedAs(u, G, f, depth);
      MarkedIsAtMost(G, path);
    } else if n.visited {
      ok := false;
      ClearMark(n, G, path);
    } else {
      SmallerRest(G, path, n);
      ghost var inner := path + {n};
      Mark(n, G, path);
      if shape.ArrayOf? {
        ok, u := DumpArray(n, shape.elems, f, depth, sink, G, path, inner);
      } else {
        ok, u := DumpObject(n, shape.members, f, depth, sink, G, path, inner);
      }
      Unmark(n, G, path);
    }
  }

  lemma LeafPrintedAs(v: Json, G: Heap, f: Flags, depth: nat)
    requires GoodLeaf(v)
    ensures PrintedAs(v, v, G, f) && Print(v, f, depth) == Print(v, f.Unordered(), depth)
  {
  }

  lemma AtNode(n: Node, G: Heap, path: set<Node>)
    requires n in G && Snapshot(G) && Marked(G, path)
    ensures n.shape == G[n] && (n.visited <==> n in path)
  {
  }

  /** A container met again loses its mark, although a caller still has it open. */
  method ClearMark(n: Node, ghost G: Heap, ghost path: set<Node>)
    requires n in G && Marked(G, path)
    modifies n`visited
    ensures Marked(G, path - {n}) && MarkedAtMost(G, path)
  {
    n.visited := false;
  }

  lemma MarkedIsAtMost(G: Heap, path: set<Node>)
    requires Marked(G, path)
    ensures MarkedAtMost(G, path)
  {
  }

  method Mark(n: Node, ghost G: Heap, ghost path: set<Node>)
    requires n in G && Marked(G, path) && !n.visited
    modifies n`visited
    ensures Marked(G, path + {n}) && n !in path
  {
    n.visited := true;
  }

  /** Whatever happened below `n`, its mark goes and the others stay. */
  method Unmark(n: Node, ghost G: Heap, ghost path: set<Node>)
    requires n in G && n !in path && MarkedAtMost(G, path + {n})
    modifies n`visited
    ensures old(Marked(G, path + {n})) ==> Marked(G, path)
    ensures MarkedAtMost(G, path)
  {
    n.visited := false;
  }

  lemma ByShape(n: Node, G: Heap, path: set<Node>)
    requires Graph(G) && n in G
    ensures G[n].Leaf? ==>
      GoodLeaf(G[n].v) && Dumpable(n, G, path) == (G[n].v.String? ==> Valid(G[n].v.s))
      && (Dumpable(n, G, path) ==> Unfold(n, G, path) == G[n].v)
    ensures !G[n].Leaf? && n in path ==> !Dumpable(n, G, path)
  {
    assert GoodShape(G[n], G);
  }

  lemma ArrayCase(n: Node, elems: seq<Node>, G: Heap, path: set<Node>)
    requires Graph(G) && n in G && n !in path && G[n] == ArrayOf(elems)
    ensures forall i :: 0 <= i < |elems| ==> elems[i] in G
    ensures Dumpable(n, G, path) == forall i :: 0 <= i < |elems| ==> Dumpable(elems[i], G, path + {n})
  {
    assert GoodShape(G[n], G) && Children(G[n]) == elems;
  }

  /** Elements printed as the trees `us` make a printed array. */
  lemma ArrayPrintedAs(n: Node, elems: seq<Node>, us: seq<Json>, G: Heap, path: set<Node>, f: Flags)
    requires Graph(G) && n in G && n !in path && G[n] == ArrayOf(elems) && |us| == |elems|
    requires forall k :: 0 <= k < |elems| ==> elems[k] in G && Dumpable(elems[k], G, path + {n}) && NodePrintedAs(elems[k], us[k], G, path + {n}, f)
    ensures Dumpable(n, G, path) && NodePrintedAs(n, Array(us), G, path, f)
  {
    hide Acyclic, Dumpable, Unfold, Graph, PrintedAs;
    ArrayCase(n, elems, G, path);
    UnfoldedArray(n, elems, G, path);
    TreesPrintedAs(UnfoldElems(elems, G, path + {n}), us, G, f);
  }

  lemma UnfoldedArray(n: Node, elems: seq<Node>, G: Heap, path: set<Node>)
    requires Graph(G) && n in G && n !in path && G[n] == ArrayOf(elems)
    requires forall k :: 0 <= k < |elems| ==> elems[k] in G && Acyclic(elems[k], G, path + {n})
    ensures Acyclic(n, G, path) && Unfold(n, G, path) == Array(UnfoldElems(elems, G, path + {n}))
  {
    assert GoodShape(G[n], G) && Children(G[n]) == elems;
  }

  lemma TreesPrintedAs(vs: seq<Json>, us: seq<Json>, G: Heap, f: Flags)
    requires |us| == |vs| && forall k :: 0 <= k < |vs| ==> PrintedAs(vs[k], us[k], G, f)
    ensures PrintedAs(Array(vs), Array(us), G, f)
  {
    hide Orderly;
  }

  /** What follows an element or a member: a comma and a break, or the break before the closing bracket. */
  ghost function Break(f: Flags, depth: nat, more: bool): seq<byte> {
    if more then [0x2C] + Indent(f, depth + 1, true) else Indent(f, depth, false)
  }

  method DumpBreak(f: Flags, depth: nat, more: bool, sink: Sink) returns (ok: bool)
    requires sink.Valid()
    modifies sink, sink.buffer, sink.buffer.value
    ensures sink.Valid() && (sink.buffer.value == old(sink.buffer.value) || fresh(sink.buffer.value))
    ensures ok ==> sink.out == old(sink.out) + Break(f, depth, more) && sink.Failed() == old(sink.Failed())
    ensures !ok ==> sink.Failed()
  {
    if more {
      ok := sink.Write([0x2C]);
      if ok {
        ok := DumpIndent(f, depth + 1, true, sink);
      }
    } else {
      ok := DumpIndent(f, depth, false, sink);
    }
  }

  /** One round of the array loop. */
  method DumpElem(elems: seq<Node>, i: nat, f: Flags, depth: nat, sink: Sink, ghost G: Heap, ghost inner: set<Node>) returns (ok: bool, ghost u: Json)
    requires Graph(G) && Snapshot(G) && i < |elems| && elems[i] in G && inner <= G.Keys && Marked(G, inner)
    requires sink.Valid()
    modifies G.Keys`visited, sink, sink.buffer, sink.buffer.value
    ensures sink.Valid() && (sink.buffer.value == old(sink.buffer.value) || fresh(sink.buffer.value))
    ensures ok ==> Dumpable(elems[i], G, inner) && Marked(G, inner) && NodePrintedAs(elems[i], u, G, inner, f)
    ensures !ok ==> sink.Failed() || !Dumpable(elems[i], G, inner)
    ensures ok && !sink.Failed() && TextKeys(G) ==> sink.out == old(sink.out) + Print(u, f.Unordered(), depth + 1) + Break(f, depth, i < |elems| - 1)
    ensures old(sink.Failed()) ==> sink.Failed()
    ensures MarkedAtMost(G, inner)
    decreases Rest(G, inner), 1
  {
    hide *;
    ok, u := DoDump(elems[i], f, depth + 1, sink, G, inner);
    if ok {
      MarkedIsAtMost(G, inner);
      ok := DumpBreak(f, depth, i < |elems| - 1, sink);
    }
  }

  /** The array case of `do_dump`, with the mark set. */
  method DumpArray(n: Node, elems: seq<Node>, f: Flags, depth: nat, sink: Sink, ghost G: Heap, ghost path: set<Node>, ghost inner: set<Node>) returns (ok: bool, ghost u: Json)
    requires Graph(G) && Snapshot(G) && n in G && n !in path && G[n] == ArrayOf(elems)
    requires inner == path + {n} && inner <= G.Keys && Marked(G, inner)
    requires sink.Valid()
    modifies G.Keys`visited, sink, sink.buffer, sink.buffer.value
    ensures sink.Valid() && (sink.buffer.value == old(sink.buffer.value) || fresh(sink.buffer.value))
    ensures ok ==> Dumpable(n, G, path) && Marked(G, inner) && NodePrintedAs(n, u, G, path, f)
    ensures !ok ==> sink.Failed() || !Dumpable(n, G, path)
    ensures ok && !sink.Failed() && TextKeys(G) ==> sink.out == old(sink.out) + Print(u, f.Unordered(), depth)
    ensures old(sink.Failed()) ==> sink.Failed()
    ensures MarkedAtMost(G, inner)
    decreases Rest(G, inner), 3
  {
    hide *;
    ArrayCase(n, elems, G, path);
    MarkedIsAtMost(G, inner);
    u := Null;
    ghost var us, out := [], sink.out;
    ok := sink.Write([0x5B]);
    if !ok {
      return;
    }
    if |elems| > 0 {
      ok := DumpIndent(f, depth + 1, false, sink);
      if !ok {
        return;
      }
      ok, us := DumpElems(elems, f, depth, sink, G, inner);
      if !ok {
        return;
      }
    }
    ArrayPrintedAs(n, elems, us, G, path, f);
    MarkedIsAtMost(G, inner);
    ok := sink.Write([0x5D]);
    ArrayText(us, f, depth, out);
    u := Array(us);
  }

  /** The loop of the array case. */
  method DumpElems(elems: seq<Node>, f: Flags, depth: nat, sink: Sink, ghost G: Heap, ghost inner: set<Node>) returns (ok: bool, ghost us: seq<Json>)
    requires Graph(G) && Snapshot(G) && (forall k :: 0 <= k < |elems| ==> elems[k] in G) && inner <= G.Keys && Marked(G, inner)
    requires sink.Valid()
    modifies G.Keys`visited, sink, sink.buffer, sink.buffer.value
    ensures sink.Valid() && (sink.buffer.value == old(sink.buffer.value) || fresh(sink.buffer.value))
    ensures ok ==> |us| == |elems| && Marked(G, inner)
    ensures ok ==> forall k :: 0 <= k < |elems| ==> Dumpable(elems[k], G, inner) && NodePrintedAs(elems[k], us[k], G, inner, f)
    ensures !ok ==> sink.Failed() || !(forall k :: 0 <= k < |elems| ==> Dumpable(elems[k], G, inner))
    ensures ok && !sink.Failed() && TextKeys(G) ==> sink.out == old(sink.out) + FrontElems(us, |elems|, f, depth)
    ensures old(sink.Failed()) ==> sink.Failed()
    ensures MarkedAtMost(G, inner)
    decreases Rest(G, inner), 2
  {
    hide *;
    us := [];
    FrontNothing(|elems|, f, depth, sink.out);
    var i := 0;
    while i < |elems|
      invariant 0 <= i <= |elems| && |us| == i && Marked(G, inner)
      invariant forall k :: 0 <= k < i ==> Dumpable(elems[k], G, inner) && NodePrintedAs(elems[k], us[k], G, inner, f)
      invariant old(sink.Failed()) ==> sink.Failed()
      invariant sink.Valid() && (sink.buffer.value == old(sink.buffer.value) || fresh(sink.buffer.value))
      invariant !sink.Failed() && TextKeys(G) ==> sink.out == old(sink.out) + FrontElems(us, |elems|, f, depth)
    {
      ghost var u;
      ok, u := DumpElem(elems, i, f, depth, sink, G, inner);
      if !ok {
        return;
      }
      FrontElem(us, u, |elems|, f, depth, old(sink.out));
      us := us + [u];
      i := i + 1;
    }
    MarkedIsAtMost(G, inner);
    ok := true;
  }

  lemma Regroup(a: seq<byte>, b: seq<byte>, c: seq<byte>)
    ensures a + b + c == a + (b + c)
  {
  }

  lemma RegroupAll(a: seq<byte>, b: seq<byte>, c: seq<byte>, d: seq<byte>, e: seq<byte>)
    ensures a + b + c + d + e == a + (b + c + d + e)
  {
  }

  /** The first of `n` elements, each with what follows it. */
  ghost function FrontElems(us: seq<Json>, n: nat, f: Flags, depth: nat): seq<byte> {
    if us == [] then []
    else
      var k := |us| - 1;
      FrontElems(us[..k], n, f, depth) + (Print(us[k], f.Unordered(), depth + 1) + Break(f, depth, k < n - 1))
  }

  lemma FrontNothing(n: nat, f: Flags, depth: nat, out: seq<byte>)
    ensures out == out + FrontElems([], n, f, depth)
    ensures out == out + FrontMembers([], n, f, depth)
  {
  }

  lemma FrontElem(us: seq<Json>, u: Json, n: nat, f: Flags, depth: nat, out: seq<byte>)
    ensures out + FrontElems(us + [u], n, f, depth)
         == out + FrontElems(us, n, f, depth) + Print(u, f.Unordered(), depth + 1) + Break(f, depth, |us| < n - 1)
  {
    assert (us + [u])[..|us|] == us;
    hide Print, Break;
    RegroupFront(out, FrontElems(us, n, f, depth), Print(u, f.Unordered(), depth + 1), Break(f, depth, |us| < n - 1));
  }

  lemma RegroupFront(a: seq<byte>, b: seq<byte>, c: seq<byte>, d: seq<byte>)
    ensures a + (b + (c + d)) == a + b + c + d
  {
  }

  lemma SameLayout(f: Flags, depth: nat)
    ensures Indent(f.Unordered(), depth, false) == Indent(f, depth, false) && Indent(f.Unordered(), depth, true) == Indent(f, depth, true)
    ensures Separator(f.Unordered()) == Separator(f)
  {
  }

  /** The first `i` elements and then the others are all elements. */
  lemma {:induction false} FrontThenRest(us: seq<Json>, i: nat, f: Flags, depth: nat)
    requires i <= |us|
    ensures FrontElems(us[..i], |us|, f, depth) + PrintElems(us[i..], f.Unordered(), depth) == PrintElems(us, f.Unordered(), depth)
  {
    hide Print, PrintElems, Break;
    var g := f.Unordered();
    if i == 0 {
      assert us[0..] == us;
    } else {
      var k := i - 1;
      FrontThenRest(us, k, f, depth);
      NextElem(us, k, f, depth);
      FrontSplit(us, i, f, depth);
      Regroup(FrontElems(us[..k], |us|, f, depth), Print(us[k], g, depth + 1) + Break(f, depth, k < |us| - 1), PrintElems(us[i..], g, depth));
    }
  }

  lemma FrontSplit(us: seq<Json>, i: nat, f: Flags, depth: nat)
    requires 0 < i <= |us|
    ensures FrontElems(us[..i], |us|, f, depth)
         == FrontElems(us[..i - 1], |us|, f, depth) + (Print(us[i - 1], f.Unordered(), depth + 1) + Break(f, depth, i - 1 < |us| - 1))
  {
    assert us[..i][..i - 1] == us[..i - 1] && us[..i][i - 1] == us[i - 1];
  }

  lemma NextElem(us: seq<Json>, k: nat, f: Flags, depth: nat)
    requires k < |us|
    ensures PrintElems(us[k..], f.Unordered(), depth)
         == Print(us[k], f.Unordered(), depth + 1) + Break(f, depth, k < |us| - 1) + PrintElems(us[k + 1..], f.Unordered(), depth)
  {
    hide Print, Indent;
    SameLayout(f, depth);
    SameLayout(f, depth + 1);
    assert us[k..][0] == us[k] && us[k..][1..] == us[k + 1..];
    var text, rest := Print(us[k], f.Unordered(), depth + 1), PrintElems(us[k + 1..], f.Unordered(), depth);
    if k < |us| - 1 {
      Regroup(text, [0x2C] + Indent(f, depth + 1, true), rest);
    } else {
      assert rest == [] && text + Indent(f, depth, false) + rest == text + Indent(f, depth, false);
    }
  }

  lemma ArrayText(us: seq<Json>, f: Flags, depth: nat, out: seq<byte>)
    ensures out + Print(Array(us), f.Unordered(), depth) ==
      if us == [] then out + [0x5B] + [0x5D]
      else out + [0x5B] + Indent(f, depth + 1, false) + FrontElems(us, |us|, f, depth) + [0x5D]
  {
    hide Indent, FrontElems, PrintElems, Print;
    ArrayPrint(us, f, depth);
    if us == [] {
      Regroup(out, [0x5B], [0x5D]);
    } else {
      AllElems(us, f, depth);
      RegroupAll(out, [0x5B], Indent(f, depth + 1, false), FrontElems(us, |us|, f, depth), [0x5D]);
    }
  }

  lemma ArrayPrint(us: seq<Json>, f: Flags, depth: nat)
    ensures Print(Array(us), f.Unordered(), depth) ==
      if us == [] then [0x5B] + [0x5D] else [0x5B] + Indent(f, depth + 1, false) + PrintElems(us, f.Unordered(), depth) + [0x5D]
  {
    hide Indent, PrintElems;
    SameLayout(f, depth + 1);
    assert [0x5B] + [0x5D] == [0x5B, 0x5D];
  }

  lemma AllElems(us: seq<Json>, f: Flags, depth: nat)
    ensures FrontElems(us, |us|, f, depth) == PrintElems(us, f.Unordered(), depth)
  {
    FrontThenRest(us, |us|, f, depth);
    hide FrontElems;
    assert us[..|us|] == us && us[|us|..] == [];
  }

  ghost function MemberText(key: seq<byte>, u: Json, f: Flags, depth: nat): seq<byte> {
    StringText(key, f.ascii) + Separator(f) + Print(u, f.Unordered(), depth + 1)
  }

  lemma MemberJoined(out: seq<byte>, key: seq<byte>, u: Json, f: Flags, depth: nat, brk: seq<byte>)
    ensures out + (MemberText(key, u, f, depth) + brk) == out + StringText(key, f.ascii) + Separator(f) + Print(u, f.Unordered(), depth + 1) + brk
  {
    hide StringText, Separator, Print;
    RegroupThree(out, StringText(key, f.ascii), Separator(f), Print(u, f.Unordered(), depth + 1));
    Regroup(out, MemberText(key, u, f, depth), brk);
  }

  /** One round of the object loop: key, separator, value, and what follows. */
  method DumpMember(key: seq<byte>, value: Node, more: bool, f: Flags, depth: nat, sink: Sink, ghost G: Heap, ghost inner: set<Node>) returns (ok: bool, ghost u: Json)
    requires Graph(G) && Snapshot(G) && NulFree(key) && value in G && inner <= G.Keys && Marked(G, inner)
    requires sink.Valid()
    modifies G.Keys`visited, sink, sink.buffer, sink.buffer.value
    ensures sink.Valid() && (sink.buffer.value == old(sink.buffer.value) || fresh(sink.buffer.value))
    ensures ok ==> Dumpable(value, G, inner) && Marked(G, inner) && NodePrintedAs(value, u, G, inner, f)
    ensures !ok ==> sink.Failed() || !Dumpable(value, G, inner)
    ensures ok && !sink.Failed() && TextKeys(G) && Valid(key) ==> sink.out == old(sink.out) + (MemberText(key, u, f, depth) + Break(f, depth, more))
    ensures old(sink.Failed()) ==> sink.Failed()
    ensures MarkedAtMost(G, inner)
    decreases Rest(G, inner), 1
  {
    hide *;
    u := Null;
    MarkedIsAtMost(G, inner);
    var keyOk := DumpString(key, f.ascii, sink);
    ok := sink.Write(Separator(f));
    if !ok {
      return;
    }
    ok, u := DoDump(value, f, depth + 1, sink, G, inner);
    if ok {
      MarkedIsAtMost(G, inner);
      ok := DumpBreak(f, depth, more, sink);
    }
    MemberJoined(old(sink.out), key, u, f, depth, Break(f, depth, more));
  }

  /** The object case of `do_dump`, with the mark set; the loop over the sorted keys or over the iterator. */
  method DumpObject(n: Node, members: seq<Entry<Node>>, f: Flags, depth: nat, sink: Sink, ghost G: Heap, ghost path: set<Node>, ghost inner: set<Node>) returns (ok: bool, ghost u: Json)
    requires Graph(G) && Snapshot(G) && n in G && n !in path && G[n] == ObjectOf(members)
    requires inner == path + {n} && inner <= G.Keys && Marked(G, inner)
    requires sink.Valid()
    modifies G.Keys`visited, sink, sink.buffer, sink.buffer.value
    ensures sink.Valid() && (sink.buffer.value == old(sink.buffer.value) || fresh(sink.buffer.value))
    ensures ok ==> Dumpable(n, G, path) && Marked(G, inner) && NodePrintedAs(n, u, G, path, f)
    ensures !ok ==> sink.Failed() || !Dumpable(n, G, path)
    ensures ok && !sink.Failed() && TextKeys(G) ==> sink.out == old(sink.out) + Print(u, f.Unordered(), depth)
    ensures old(sink.Failed()) ==> sink.Failed()
    ensures MarkedAtMost(G, inner)
    decreases Rest(G, inner), 3
  {
    hide *;
    MarkedIsAtMost(G, inner);
    u := Null;
    ghost var es, out := [], sink.out;
    ok := sink.Write([0x7B]);
    if !ok {
      return;
    }
    if |members| == 0 {
      EmptyPrintedAs(n, G, path, f);
    } else {
      ok := DumpIndent(f, depth + 1, false, sink);
      if !ok {
        return;
      }
      ok, es := DumpMembers(n, members, f, depth, sink, G, path, inner);
      if !ok {
        return;
      }
    }
    MarkedIsAtMost(G, inner);
    ok := sink.Write([0x7D]);
    ObjectText(es, f, depth, out);
    u := Object(es);
  }

  /** The loop of the object case. */
  method DumpMembers(n: Node, members: seq<Entry<Node>>, f: Flags, depth: nat, sink: Sink, ghost G: Heap, ghost path: set<Node>, ghost inner: set<Node>)
    returns (ok: bool, ghost es: seq<Entry<Json>>)
    requires Graph(G) && Snapshot(G) && n in G && n !in path && G[n] == ObjectOf(members)
    requires inner == path + {n} && inner <= G.Keys && Marked(G, inner)
    requires sink.Valid()
    modifies G.Keys`visited, sink, sink.buffer, sink.buffer.value
    ensures sink.Valid() && (sink.buffer.value == old(sink.buffer.value) || fresh(sink.buffer.value))
    ensures ok ==> Dumpable(n, G, path) && Marked(G, inner) && |es| == |members| && NodePrintedAs(n, Object(es), G, path, f)
    ensures !ok ==> sink.Failed() || !Dumpable(n, G, path)
    ensures ok && !sink.Failed() && TextKeys(G) ==> sink.out == old(sink.out) + FrontMembers(es, |es|, f, depth)
    ensures old(sink.Failed()) ==> sink.Failed()
    ensures MarkedAtMost(G, inner)
    decreases Rest(G, inner), 2
  {
    hide *;
    es := [];
    var keys := SortedKeys(members, f.Order());
    KeysOf(n, G, keys);
    FrontNothing(|keys|, f, depth, sink.out);
    var i := 0;
    while i < |keys|
      invariant 0 <= i <= |keys| && |es| == i && Marked(G, inner)
      invariant forall k :: 0 <= k < i ==> Dumpable(keys[k].value, G, inner) && es[k].key == keys[k].key && es[k].serial == keys[k].serial
      invariant forall k :: 0 <= k < i ==> NodePrintedAs(keys[k].value, es[k].value, G, inner, f)
      invariant old(sink.Failed()) ==> sink.Failed()
      invariant sink.Valid() && (sink.buffer.value == old(sink.buffer.value) || fresh(sink.buffer.value))
      invariant !sink.Failed() && TextKeys(G) ==> sink.out == old(sink.out) + FrontMembers(es, |keys|, f, depth)
    {
      var value := Lookup(members, keys[i].key).value;
      ghost var u;
      ok, u := DumpMember(keys[i].key, value, i < |keys| - 1, f, depth, sink, G, inner);
      if !ok {
        if !sink.Failed() {
          NotDumpable(n, G, path, keys, i);
        }
        return;
      }
      ghost var e := Entry(keys[i].key, keys[i].serial, u);
      FrontMember(es, e, |keys|, f, depth, old(sink.out));
      es := es + [e];
      i := i + 1;
    }
    MarkedIsAtMost(G, inner);
    AllDumpable(n, G, path, keys);
    ObjectPrintedAs(n, G, path, f, keys, es);
    ok := true;
  }

  /** The keys as they are collected, then handed to `qsort` with the comparator for the order. */
  method SortedKeys(members: seq<Entry<Node>>, order: Order) returns (keys: seq<Entry<Node>>)
    ensures order == AsIs ==> keys == members
    ensures multiset(keys) == multiset(members) && MayGive(members, order, keys)
  {
    if order == AsIs {
      return members;
    }
    QsortMayGive(members, order);
    keys := Qsort(members, order);
  }

  lemma EmptyPrintedAs(n: Node, G: Heap, path: set<Node>, f: Flags)
    requires Graph(G) && n in G && n !in path && G[n].ObjectOf? && G[n].members == []
    ensures Dumpable(n, G, path) && NodePrintedAs(n, Object([]), G, path, f)
  {
    SmallerRest(G, path, n);
    assert Dumpable(n, G, path);
    assert Unfold(n, G, path) == Object([]);
  }

  /** Members printed in the order of `keys` make a printed object. */
  lemma ObjectPrintedAs(n: Node, G: Heap, path: set<Node>, f: Flags, keys: seq<Entry<Node>>, es: seq<Entry<Json>>)
    requires Graph(G) && n in G && n !in path && G[n].ObjectOf? && Dumpable(n, G, path)
    requires multiset(keys) == multiset(G[n].members) && MayGive(G[n].members, f.Order(), keys) && (f.Order() == AsIs ==> keys == G[n].members)
    requires |es| == |keys| && forall k :: 0 <= k < |keys| ==>
      && es[k].key == keys[k].key && es[k].serial == keys[k].serial
      && keys[k].value in G && Dumpable(keys[k].value, G, path + {n}) && NodePrintedAs(keys[k].value, es[k].value, G, path + {n}, f)
    ensures NodePrintedAs(n, Object(es), G, path, f)
  {
    hide Dumpable, Unfold, Graph, Shuffled, Follows, MayGive, Orderly;
    KeysShuffled(n, G, path, f, keys, es);
    if Orderly(G, f) {
      KeysFollow(n, G, path, f, keys, es);
    }
  }

  lemma KeysShuffled(n: Node, G: Heap, path: set<Node>, f: Flags, keys: seq<Entry<Node>>, es: seq<Entry<Json>>)
    requires Graph(G) && n in G && G[n].ObjectOf? && Dumpable(n, G, path) && multiset(keys) == multiset(G[n].members)
    requires |es| == |keys| && forall k :: 0 <= k < |keys| ==>
      && es[k].key == keys[k].key && es[k].serial == keys[k].serial
      && keys[k].value in G && Dumpable(keys[k].value, G, path + {n}) && Shuffled(Unfold(keys[k].value, G, path + {n}), es[k].value)
    ensures Shuffled(Unfold(n, G, path), Object(es))
  {
    MembersUnfold(n, G, path);
    ObjectChildren(n, G);
    var members, a := G[n].members, Unfold(n, G, path).entries;
    hide Dumpable, Unfold, Graph;
    SameElements(keys, members);
    StillComparable(members, keys, ByKey);
    StillComparable(members, keys, BySerial);
    assert DistinctKeys(es) && DistinctSerials(es);
    forall i | 0 <= i < |a| ensures Partner(a[i], es, PlaceOf(es, a[i].key)) {
      assert MemberUnfolds(members[i], a[i], G, path + {n});
      StillIn(members, keys, members[i]);
      var k :| 0 <= k < |keys| && keys[k] == members[i];
      assert es[k].key == a[i].key;
      assert PlaceOf(es, a[i].key) == k;
    }
  }

  lemma KeysFollow(n: Node, G: Heap, path: set<Node>, f: Flags, keys: seq<Entry<Node>>, es: seq<Entry<Json>>)
    requires Graph(G) && n in G && G[n].ObjectOf? && Dumpable(n, G, path) && Orderly(G, f)
    requires MayGive(G[n].members, f.Order(), keys) && (f.Order() == AsIs ==> keys == G[n].members)
    requires |es| == |keys| && forall k :: 0 <= k < |keys| ==>
      && es[k].key == keys[k].key
      && keys[k].value in G && Dumpable(keys[k].value, G, path + {n}) && Follows(Unfold(keys[k].value, G, path + {n}), es[k].value, f.Order())
    ensures Follows(Unfold(n, G, path), Object(es), f.Order())
  {
    hide Dumpable, Unfold, Graph, Sort, MayGive, Orderly, Follows;
    KeysInOrder(n, G, f, keys);
    SortedUnfolds(n, G, path, f.Order());
    var v := Unfold(n, G, path);
    var sorted := Sort(v.entries, f.Order());
    forall i | 0 <= i < |sorted| ensures sorted[i] in v.entries && es[i].key == sorted[i].key && Follows(sorted[i].value, es[i].value, f.Order()) {
      assert MemberUnfolds(keys[i], sorted[i], G, path + {n});
    }
    FollowsObject(v, es, f.Order());
  }

  lemma KeysInOrder(n: Node, G: Heap, f: Flags, keys: seq<Entry<Node>>)
    requires Graph(G) && n in G && G[n].ObjectOf? && MayGive(G[n].members, f.Order(), keys) && Orderly(G, f)
    requires f.Order() == AsIs ==> keys == G[n].members
    ensures keys == Sort(G[n].members, f.Order())
  {
    ObjectChildren(n, G);
    if f.Order() != AsIs {
      GivesSorted(G[n].members, f.Order(), keys);
    }
  }

  lemma ObjectChildren(n: Node, G: Heap)
    requires Graph(G) && n in G && G[n].ObjectOf?
    ensures var members := G[n].members;
      && DistinctKeys(members) && DistinctSerials(members) && |Children(G[n])| == |members|
      && forall i :: 0 <= i < |members| ==> members[i].value == Children(G[n])[i] && members[i].value in G && NulFree(members[i].key)
  {
    var members := G[n].members;
    assert GoodShape(G[n], G);
    forall i | 0 <= i < |members| ensures members[i].value == Children(G[n])[i] && members[i].value in G {
      assert Children(G[n])[i] in G;
    }
  }

  /** Every sorted key is a key of the object, and looking it up finds the member. */
  lemma KeysOf(n: Node, G: Heap, keys: seq<Entry<Node>>)
    requires Graph(G) && n in G && G[n].ObjectOf? && multiset(keys) == multiset(G[n].members)
    ensures var members := G[n].members;
      && |keys| == |members|
      && forall i :: 0 <= i < |keys| ==>
           keys[i] in members && keys[i].value in G && NulFree(keys[i].key) && Lookup(members, keys[i].key) == Some(keys[i].value)
    ensures TextKeys(G) ==> forall i :: 0 <= i < |keys| ==> Valid(keys[i].key)
  {
    var members := G[n].members;
    ObjectChildren(n, G);
    SameElements(keys, members);
    forall i | 0 <= i < |keys|
      ensures keys[i] in members && keys[i].value in G && NulFree(keys[i].key) && Lookup(members, keys[i].key) == Some(keys[i].value)
      ensures TextKeys(G) ==> Valid(keys[i].key)
    {
      StillIn(keys, members, keys[i]);
      var j :| 0 <= j < |members| && members[j] == keys[i];
    }
  }

  lemma NotDumpable(n: Node, G: Heap, path: set<Node>, keys: seq<Entry<Node>>, i: nat)
    requires Graph(G) && n in G && G[n].ObjectOf? && n !in path && multiset(keys) == multiset(G[n].members) && i < |keys|
    requires keys[i].value in G && !Dumpable(keys[i].value, G, path + {n})
    ensures !Dumpable(n, G, path)
  {
    ObjectChildren(n, G);
    StillIn(keys, G[n].members, keys[i]);
    var j :| 0 <= j < |G[n].members| && G[n].members[j] == keys[i];
    assert Children(G[n])[j] == keys[i].value;
  }

  lemma AllDumpable(n: Node, G: Heap, path: set<Node>, keys: seq<Entry<Node>>)
    requires Graph(G) && n in G && G[n].ObjectOf? && n !in path && multiset(keys) == multiset(G[n].members)
    requires forall k :: 0 <= k < |keys| ==> keys[k].value in G && Dumpable(keys[k].value, G, path + {n})
    ensures Dumpable(n, G, path)
  {
    ObjectChildren(n, G);
    var members := G[n].members;
    forall i | 0 <= i < |members| ensures Dumpable(members[i].value, G, path + {n}) {
      StillIn(members, keys, members[i]);
      var k :| 0 <= k < |keys| && keys[k] == members[i];
    }
    SmallerRest(G, path, n);
  }

  /** The first of `n` members, each with what follows it. */
  ghost function FrontMembers(es: seq<Entry<Json>>, n: nat, f: Flags, depth: nat): seq<byte> {
    if es == [] then []
    else
      var k := |es| - 1;
      FrontMembers(es[..k], n, f, depth) + (MemberText(es[k].key, es[k].value, f, depth) + Break(f, depth, k < n - 1))
  }

  lemma FrontMember(es: seq<Entry<Json>>, e: Entry<Json>, n: nat, f: Flags, depth: nat, out: seq<byte>)
    ensures out + FrontMembers(es + [e], n, f, depth)
         == out + FrontMembers(es, n, f, depth) + (MemberText(e.key, e.value, f, depth) + Break(f, depth, |es| < n - 1))
  {
    assert (es + [e])[..|es|] == es;
    hide MemberText, Break;
    Regroup(out, FrontMembers(es, n, f, depth), MemberText(e.key, e.value, f, depth) + Break(f, depth, |es| < n - 1));
  }

  lemma {:induction false} FrontMembersThenRest(v: Json, es: seq<Entry<Json>>, i: nat, f: Flags, depth: nat)
    requires v == Object(es) && i <= |es|
    ensures var r := es[i..]; forall k :: 0 <= k < |r| ==> r[k] in es
    ensures FrontMembers(es[..i], |es|, f, depth) + PrintMembers(v, es[i..], f.Unordered(), depth) == PrintMembers(v, es, f.Unordered(), depth)
  {
    if i == 0 {
      assert es[0..] == es;
    } else {
      var k := i - 1;
      FrontMembersThenRest(v, es, k, f, depth);
      hide FrontMembers, PrintMembers, Break, MemberText;
      MembersSplit(es, i, f, depth);
      NextMember(v, es, k, f, depth);
      Regroup(FrontMembers(es[..k], |es|, f, depth), MemberText(es[k].key, es[k].value, f, depth) + Break(f, depth, k < |es| - 1),
                    PrintMembers(v, es[i..], f.Unordered(), depth));
    }
  }

  lemma MembersSplit(es: seq<Entry<Json>>, i: nat, f: Flags, depth: nat)
    requires 0 < i <= |es|
    ensures FrontMembers(es[..i], |es|, f, depth)
         == FrontMembers(es[..i - 1], |es|, f, depth) + (MemberText(es[i - 1].key, es[i - 1].value, f, depth) + Break(f, depth, i - 1 < |es| - 1))
  {
    assert es[..i][..i - 1] == es[..i - 1] && es[..i][i - 1] == es[i - 1];
  }

  lemma NextMember(v: Json, es: seq<Entry<Json>>, k: nat, f: Flags, depth: nat)
    requires v == Object(es) && k < |es|
    ensures var r := es[k..]; forall j :: 0 <= j < |r| ==> r[j] in es
    ensures var r := es[k + 1..]; forall j :: 0 <= j < |r| ==> r[j] in es
    ensures PrintMembers(v, es[k..], f.Unordered(), depth)
         == MemberText(es[k].key, es[k].value, f, depth) + Break(f, depth, k < |es| - 1) + PrintMembers(v, es[k + 1..], f.Unordered(), depth)
  {
    hide Print, Indent, StringText, Separator;
    SameLayout(f, depth);
    SameLayout(f, depth + 1);
    assert es[k..][0] == es[k] && es[k..][1..] == es[k + 1..];
    var text, rest := MemberText(es[k].key, es[k].value, f, depth), PrintMembers(v, es[k + 1..], f.Unordered(), depth);
    if k < |es| - 1 {
      Regroup(text, [0x2C] + Indent(f, depth + 1, true), rest);
    } else {
      assert rest == [] && text + Indent(f, depth, false) + rest == text + Indent(f, depth, false);
    }
  }

  lemma ObjectText(es: seq<Entry<Json>>, f: Flags, depth: nat, out: seq<byte>)
    ensures out + Print(Object(es), f.Unordered(), depth) ==
      if es == [] then out + [0x7B] + [0x7D]
      else out + [0x7B] + Indent(f, depth + 1, false) + FrontMembers(es, |es|, f, depth) + [0x7D]
  {
    hide Indent, FrontMembers, PrintMembers, Print;
    ObjectPrint(es, f, depth);
    if es == [] {
      Regroup(out, [0x7B], [0x7D]);
    } else {
      AllMembers(es, f, depth);
      RegroupAll(out, [0x7B], Indent(f, depth + 1, false), FrontMembers(es, |es|, f, depth), [0x7D]);
    }
  }

  lemma ObjectPrint(es: seq<Entry<Json>>, f: Flags, depth: nat)
    ensures forall k :: 0 <= k < |es| ==> es[k] in es
    ensures Print(Object(es), f.Unordered(), depth) ==
      if es == [] then [0x7B] + [0x7D]
      else [0x7B] + Indent(f, depth + 1, false) + PrintMembers(Object(es), es, f.Unordered(), depth) + [0x7D]
  {
    hide Indent, PrintMembers;
    SameLayout(f, depth + 1);
    AsItIs(es);
    assert [0x7B] + [0x7D] == [0x7B, 0x7D];
  }

  lemma AllMembers(es: seq<Entry<Json>>, f: Flags, depth: nat)
    ensures forall k :: 0 <= k < |es| ==> es[k] in es
    ensures FrontMembers(es, |es|, f, depth) == PrintMembers(Object(es), es, f.Unordered(), depth)
  {
    FrontMembersThenRest(Object(es), es, |es|, f, depth);
    hide FrontMembers;
    assert es[..|es|] == es && es[|es|..] == [];
  }

  lemma RegroupThree(a: seq<byte>, b: seq<byte>, c: seq<byte>, d: seq<byte>)
    ensures a + (b + c + d) == a + b + c + d
  {
  }
}
