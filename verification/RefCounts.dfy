/**
  Reference counting of `compat/jansson/value.c`. A value is an object of class `Json`; the slots
  of a container are the elements of an array or the values in an object's hash table. Ghost
  arguments say which values are live and which references the callers own.

  A count is an `unsigned int`, and its largest number, (unsigned)-1, means that the value is not
  counted: `true`, `false` and `null` start with it, and any other value gets it when its count
  rises that far. Such a count never changes again; here it is called stuck.
  */
module RefCounts {
  const STUCK := 0xFFFF_FFFF

  type Count = c: int | 0 <= c <= STUCK

  /** What `json_incref` and `json_decref` do to a count. */
  function Up(c: Count): Count {
    if c == STUCK then c else c + 1
  }

  function Down(c: Count): Count {
    if c == STUCK then c else (c - 1) % (STUCK + 1)
  }

  class Json {
    const container: bool
    var refcount: Count
    var slots: seq<Json>

    /** `json_init`: the caller owns the one reference. */
    constructor (container: bool)
      ensures refcount == 1 && slots == [] && this.container == container
    {
      this.container := container;
      refcount := 1;
      slots := [];
    }

    /** The static variable behind `json_true`, `json_false` or `json_null`. */
    constructor Static()
      ensures refcount == STUCK && slots == [] && !container
    {
      container := false;
      refcount := STUCK;
      slots := [];
    }
  }

  /** A live value and what its slots hold. */
  datatype Cell = Cell(node: Json, slots: seq<Json>)

  /** All references held in slots. */
  ghost function Held(cells: seq<Cell>): multiset<Json> {
    if cells == [] then multiset{} else multiset(cells[0].slots) + Held(cells[1..])
  }

  ghost function NodeSet(cells: seq<Cell>): set<Json> {
    set c | c in cells :: c.node
  }

  ghost predicate OneCellEach(cells: seq<Cell>) {
    forall i, j :: 0 <= i < j < |cells| ==> cells[i].node != cells[j].node
  }

  /** How many references to `n` there are, in slots and with callers. */
  ghost function Total(cells: seq<Cell>, refs: multiset<Json>, n: Json): nat {
    Held(cells)[n] + refs[n]
  }

  /** Every count that is not stuck is the number of slots that hold the value plus the references callers own. */
  ghost predicate Counted(cells: seq<Cell>, refs: multiset<Json>)
    reads NodeSet(cells)`refcount
  {
    forall n :: n in NodeSet(cells) && n.refcount != STUCK ==> n.refcount == Total(cells, refs, n)
  }

  /** Slots and callers refer to live values only. */
  ghost predicate Closed(cells: seq<Cell>, refs: multiset<Json>) {
    forall n :: n in Held(cells) + refs ==> n in NodeSet(cells)
  }

  /** The live values with a stuck count. */
  ghost function StuckIn(cells: seq<Cell>): set<Json>
    reads NodeSet(cells)`refcount
  {
    set n | n in NodeSet(cells) && n.refcount == STUCK
  }

  /** The live values whose count says how many references to them there are. */
  ghost function ExactIn(cells: seq<Cell>, refs: multiset<Json>): set<Json>
    reads NodeSet(cells)`refcount
  {
    set n | n in NodeSet(cells) && n.refcount == Total(cells, refs, n) < STUCK
  }

  /** The live values that have so many references that a count could not tell. */
  ghost function Crowded(cells: seq<Cell>, refs: multiset<Json>): set<Json> {
    set n | n in NodeSet(cells) && Total(cells, refs, n) >= STUCK
  }

  ghost predicate Positive(cells: seq<Cell>)
    reads NodeSet(cells)`refcount
  {
    forall n :: n in NodeSet(cells) ==> n.refcount > 0
  }

  ghost predicate Inv(cells: seq<Cell>, refs: multiset<Json>)
    reads NodeSet(cells)`refcount
  {
    OneCellEach(cells) && Counted(cells, refs) && Closed(cells, refs) && Positive(cells)
  }

  /** The slots in memory are those of the cells, except for a container that is just being changed. */
  ghost predicate Physical(cells: seq<Cell>, exempt: Json?)
    reads NodeSet(cells)`slots
  {
    forall i :: 0 <= i < |cells| && cells[i].node != exempt ==> cells[i].node.slots == cells[i].slots
  }

  ghost predicate Within(rest: seq<Cell>, cells: seq<Cell>) {
    |rest| <= |cells| && forall i :: 0 <= i < |rest| ==> rest[i] in cells
  }

  // ----- lemmas on cells

  ghost function Without(cells: seq<Cell>, p: nat): seq<Cell>
    requires p < |cells|
  {
    cells[..p] + cells[p + 1..]
  }

  lemma WithoutLater(cells: seq<Cell>, p: nat)
    requires 0 < p < |cells|
    ensures Held(Without(cells, p)) == multiset(cells[0].slots) + Held(Without(cells[1..], p - 1))
  {
    var r := Without(cells, p);
    assert r[1..] == Without(cells[1..], p - 1);
    assert r[0] == cells[0];
  }

  lemma {:induction false} HeldWithout(cells: seq<Cell>, p: nat)
    requires p < |cells|
    ensures Held(cells) == Held(Without(cells, p)) + multiset(cells[p].slots)
  {
    if p == 0 {
      assert Without(cells, 0) == cells[1..];
    } else {
      HeldWithout(cells[1..], p - 1);
      WithoutLater(cells, p);
      Regroup(multiset(cells[0].slots), Held(Without(cells[1..], p - 1)), multiset(cells[p].slots));
      assert cells[1..][p - 1] == cells[p];
      assert Held(cells) == multiset(cells[0].slots) + Held(cells[1..]);
    }
  }

  lemma Regroup<A>(x: multiset<A>, y: multiset<A>, z: multiset<A>)
    ensures x + (y + z) == x + y + z
  {
  }

  lemma {:induction false} HeldUpdate(cells: seq<Cell>, p: nat, c: Cell)
    requires p < |cells|
    ensures Held(cells[p := c]) + multiset(cells[p].slots) == Held(cells) + multiset(c.slots)
  {
    HeldWithout(cells, p);
    HeldWithout(cells[p := c], p);
    assert Without(cells[p := c], p) == Without(cells, p);
  }

  lemma NodesWithout(cells: seq<Cell>, p: nat)
    requires OneCellEach(cells) && p < |cells|
    ensures OneCellEach(Without(cells, p)) && Within(Without(cells, p), cells) && |Without(cells, p)| == |cells| - 1
    ensures NodeSet(Without(cells, p)) == NodeSet(cells) - {cells[p].node}
  {
    var r := Without(cells, p);
    assert forall i :: 0 <= i < |r| ==> r[i] == cells[if i < p then i else i + 1];
    forall n | n in NodeSet(cells) && n != cells[p].node ensures n in NodeSet(r) {
      var c :| c in cells && c.node == n;
      var i :| 0 <= i < |cells| && cells[i] == c;
      assert r[if i < p then i else i - 1] == c;
    }
  }

  lemma NodesUpdate(cells: seq<Cell>, p: nat, slots: seq<Json>)
    requires OneCellEach(cells) && p < |cells|
    ensures var r := cells[p := Cell(cells[p].node, slots)]; OneCellEach(r) && NodeSet(r) == NodeSet(cells)
  {
    var r := cells[p := Cell(cells[p].node, slots)];
    assert forall i :: 0 <= i < |r| ==> r[i].node == cells[i].node;
    forall n | n in NodeSet(cells) ensures n in NodeSet(r) {
      var c :| c in cells && c.node == n;
      var i :| 0 <= i < |cells| && cells[i] == c;
      assert r[i].node == n;
    }
    forall n | n in NodeSet(r) ensures n in NodeSet(cells) {
      var c :| c in r && c.node == n;
      var i :| 0 <= i < |r| && r[i] == c;
      assert cells[i].node == n;
    }
  }

  lemma CellOf(cells: seq<Cell>, n: Json) returns (p: nat)
    requires n in NodeSet(cells)
    ensures p < |cells| && cells[p].node == n
  {
    var c :| c in cells && c.node == n;
    p :| 0 <= p < |cells| && cells[p] == c;
  }

  lemma WithinNodes(rest: seq<Cell>, cells: seq<Cell>)
    requires Within(rest, cells)
    ensures NodeSet(rest) <= NodeSet(cells)
  {
    forall n | n in NodeSet(rest) ensures n in NodeSet(cells) {
      var c :| c in rest && c.node == n;
      assert c in cells;
    }
  }

  lemma WithinTrans(a: seq<Cell>, b: seq<Cell>, c: seq<Cell>)
    requires Within(a, b) && Within(b, c)
    ensures Within(a, c)
  {
  }

  // ----- containers that can be reached from a caller

  /** A slot of `a` refers to `b`. */
  ghost predicate Edge(cells: seq<Cell>, a: Json, b: Json) {
    exists i :: 0 <= i < |cells| && cells[i].node == a && b in cells[i].slots
  }

  /** `path` leads from a reference a caller owns, through slots of live containers, to `json`. */
  ghost predicate Reaches(json: Json, cells: seq<Cell>, refs: multiset<Json>, path: seq<Json>) {
    && path != [] && path[|path| - 1] == json && path[0] in refs
    && (forall k :: 0 <= k < |path| ==> path[k] in NodeSet(cells))
    && forall k :: 0 <= k < |path| - 1 ==> Edge(cells, path[k], path[k + 1])
  }

  /** The same, and the path meets `json` at its end only. */
  ghost predicate Rooted(json: Json, cells: seq<Cell>, refs: multiset<Json>, path: seq<Json>) {
    Reaches(json, cells, refs, path) && forall k :: 0 <= k < |path| - 1 ==> path[k] != json
  }

  /** Every path can be cut where it first meets `json`. */
  lemma {:induction false} CutPath(json: Json, cells: seq<Cell>, refs: multiset<Json>, path: seq<Json>) returns (cut: seq<Json>)
    requires Reaches(json, cells, refs, path)
    ensures Rooted(json, cells, refs, cut)
    decreases |path|
  {
    cut := path;
    if k :| 0 <= k < |path| - 1 && path[k] == json {
      cut := CutPath(json, cells, refs, path[..k + 1]);
    }
  }

  lemma EdgeHeld(cells: seq<Cell>, a: Json, b: Json)
    requires Edge(cells, a, b)
    ensures b in Held(cells)
  {
    var i :| 0 <= i < |cells| && cells[i].node == a && b in cells[i].slots;
    var k :| 0 <= k < |cells[i].slots| && cells[i].slots[k] == b;
    SlotHeld(cells, i, k);
  }

  /** Nobody on the way to a reachable container has count 0. */
  lemma PathIsCounted(json: Json, cells: seq<Cell>, refs: multiset<Json>, path: seq<Json>, k: nat)
    requires Counted(cells, refs) && Reaches(json, cells, refs, path) && k < |path|
    ensures path[k].refcount > 0
  {
    hide Held;
    CountedAt(cells, refs, path[k]);
    if k > 0 {
      assert Edge(cells, path[k - 1], path[k - 1 + 1]);
      EdgeHeld(cells, path[k - 1], path[k]);
    }
  }

  /** An edge stays while its start is live. */
  lemma EdgeWithin(rest: seq<Cell>, cells: seq<Cell>, a: Json, b: Json)
    requires Within(rest, cells) && OneCellEach(cells) && a in NodeSet(rest) && Edge(cells, a, b)
    ensures Edge(rest, a, b)
  {
    var i :| 0 <= i < |cells| && cells[i].node == a && b in cells[i].slots;
    var p := CellOf(rest, a);
    assert rest[p] in cells;
    var j :| 0 <= j < |cells| && cells[j] == rest[p];
    assert i == j;
  }

  /** When other values are freed, what is still closed under references contains the whole path. */
  lemma {:induction false} PathStays(json: Json, cells: seq<Cell>, refs: multiset<Json>, rest: seq<Cell>, refs': multiset<Json>, path: seq<Json>, k: nat)
    requires Reaches(json, cells, refs, path) && OneCellEach(cells) && Within(rest, cells) && Closed(rest, refs')
    requires path[0] in refs' && k < |path|
    ensures path[k] in NodeSet(rest)
  {
    hide Held;
    if k == 0 {
      assert path[0] in Held(rest) + refs';
    } else {
      PathStays(json, cells, refs, rest, refs', path, k - 1);
      assert Edge(cells, path[k - 1], path[k - 1 + 1]);
      EdgeWithin(rest, cells, path[k - 1], path[k]);
      EdgeHeld(rest, path[k - 1], path[k]);
      assert path[k] in Held(rest) + refs';
    }
  }

  lemma StillRooted(json: Json, cells: seq<Cell>, refs: multiset<Json>, rest: seq<Cell>, refs': multiset<Json>, path: seq<Json>)
    requires Rooted(json, cells, refs, path) && OneCellEach(cells) && Within(rest, cells) && Closed(rest, refs') && path[0] in refs'
    ensures Rooted(json, rest, refs', path)
  {
    forall k | 0 <= k < |path| ensures path[k] in NodeSet(rest) {
      PathStays(json, cells, refs, rest, refs', path, k);
    }
    forall k | 0 <= k < |path| - 1 ensures Edge(rest, path[k], path[k + 1]) {
      EdgeWithin(rest, cells, path[k], path[k + 1]);
    }
  }

  /** The path does not use the slots of `json` itself, so they may change. */
  lemma ChangedRooted(json: Json, cells: seq<Cell>, refs: multiset<Json>, path: seq<Json>, p: nat, slots: seq<Json>)
    requires Rooted(json, cells, refs, path) && OneCellEach(cells) && p < |cells| && cells[p].node == json
    ensures Rooted(json, Changed(cells, p, slots), refs, path)
  {
    NodesUpdate(cells, p, slots);
    forall k | 0 <= k < |path| - 1 ensures Edge(Changed(cells, p, slots), path[k], path[k + 1]) {
      var i :| 0 <= i < |cells| && cells[i].node == path[k] && path[k + 1] in cells[i].slots;
      assert Changed(cells, p, slots)[i] == cells[i];
    }
  }

  lemma MoreRefs(json: Json, cells: seq<Cell>, refs: multiset<Json>, more: multiset<Json>, path: seq<Json>)
    requires Rooted(json, cells, refs, path)
    ensures Rooted(json, cells, refs + more, path)
  {
  }

  /** A path that starts at one of `refs` stays when further references come and go. */
  lemma FewerRefs(json: Json, cells: seq<Cell>, refs: multiset<Json>, rest: seq<Cell>, more: multiset<Json>, path: seq<Json>)
    requires Rooted(json, cells, refs, path) && OneCellEach(cells) && Within(rest, cells) && Inv(rest, refs + more)
    ensures Rooted(json, rest, refs, path)
  {
    hide Held;
    StillRooted(json, cells, refs, rest, refs + more, path);
  }

  /** A container a caller can reach is not the one that is deleted, and stays reachable. */
  lemma RootSurvives(json: Json, cells: seq<Cell>, refs: multiset<Json>, path: seq<Json>, p: nat)
    requires OneCellEach(cells) && Counted(cells, refs) && Rooted(json, cells, refs, path) && p < |cells| && cells[p].node.refcount == 0
    ensures cells[p].node != json && Rooted(json, Without(cells, p), refs, path)
  {
    hide Held;
    NodesWithout(cells, p);
    forall k | 0 <= k < |path| ensures path[k] != cells[p].node {
      PathIsCounted(json, cells, refs, path, k);
    }
    forall k | 0 <= k < |path| - 1 ensures Edge(Without(cells, p), path[k], path[k + 1]) {
      EdgeWithin(Without(cells, p), cells, path[k], path[k + 1]);
    }
  }

  // ----- json_decref and json_delete

  /** `json_decref`: the caller gives up one of its references to `v`. */
  method Decref(v: Json, ghost cells: seq<Cell>, ghost refs: multiset<Json>, ghost exempt: Json?, ghost path: seq<Json>) returns (ghost rest: seq<Cell>)
    requires Inv(cells, refs) && Physical(cells, exempt) && v in refs
    requires exempt != null ==> Rooted(exempt, cells, refs - multiset{v}, path)
    modifies NodeSet(cells)`refcount
    ensures Inv(rest, refs - multiset{v}) && Within(rest, cells) && StuckIn(rest) == old(StuckIn(cells))
    ensures v.refcount == Down(old(v.refcount))
    decreases |cells|, 1
  {
    rest := cells;
    hide Held, Closed, Total, Physical, Rooted;
    OneLess(cells, refs, v);
    if v.refcount != STUCK {
      v.refcount := (v.refcount - 1) % (STUCK + 1);
      if v.refcount == 0 {
        rest := Delete(v, cells, refs - multiset{v}, exempt, path);
      }
    }
  }

  lemma OneLess(cells: seq<Cell>, refs: multiset<Json>, v: Json)
    requires Closed(cells, refs) && v in refs
    ensures Closed(cells, refs - multiset{v}) && v in NodeSet(cells)
    ensures forall n :: n in NodeSet(cells) ==> Total(cells, refs - multiset{v}, n) == Total(cells, refs, n) - if n == v then 1 else 0
  {
    hide Held;
    assert v in Held(cells) + refs;
    forall n: Json | n in Held(cells) + (refs - multiset{v}) ensures n in NodeSet(cells) {
      assert n in Held(cells) + refs;
    }
  }

  /** `json_delete` of a value nobody refers to any more: its slots give up their references, one after the other. */
  method Delete(v: Json, ghost cells: seq<Cell>, ghost refs: multiset<Json>, ghost exempt: Json?, ghost path: seq<Json>) returns (ghost rest: seq<Cell>)
    requires OneCellEach(cells) && Counted(cells, refs) && Closed(cells, refs) && Physical(cells, exempt)
    requires v in NodeSet(cells) && v.refcount == 0 && forall n :: n in NodeSet(cells) && n != v ==> n.refcount > 0
    requires exempt != null ==> Rooted(exempt, cells, refs, path)
    modifies NodeSet(cells)`refcount
    ensures Inv(rest, refs) && Within(rest, cells) && StuckIn(rest) == old(StuckIn(cells))
    ensures v.refcount == 0
    decreases |cells|, 0
  {
    hide Inv, Held, Rooted, Reaches, Physical, Without, StuckIn;
    ghost var p := CellOf(cells, v);
    ghost var slots := cells[p].slots;
    ghost var others := Without(cells, p);
    DropCell(cells, refs, p);
    NodesWithout(cells, p);
    PhysicalWithin(others, cells, exempt);
    if exempt != null {
      RootSurvives(exempt, cells, refs, path, p);
      MoreRefs(exempt, others, refs, multiset(slots), path);
    }
    SlotsAt(cells, p, exempt);
    rest := others;
    var i := 0;
    assert slots[0..] == slots;
    while i < |v.slots|
      invariant 0 <= i <= |slots| && v.slots == slots
      invariant Inv(rest, refs + multiset(slots[i..])) && Within(rest, others) && Physical(rest, exempt)
      invariant exempt != null ==> Rooted(exempt, rest, refs, path)
      invariant StuckIn(rest) == old(StuckIn(cells)) && v.refcount == 0
    {
      ghost var before := rest;
      OneEach(rest, refs + multiset(slots[i..]));
      assert slots[i..] == [slots[i]] + slots[i + 1..];
      WithinNodes(rest, others);
      assert refs + multiset(slots[i..]) - multiset{slots[i]} == refs + multiset(slots[i + 1..]);
      if exempt != null {
        MoreRefs(exempt, rest, refs, multiset(slots[i + 1..]), path);
      }
      rest := Decref(v.slots[i], rest, refs + multiset(slots[i..]), exempt, path);
      if exempt != null {
        FewerRefs(exempt, before, refs, rest, multiset(slots[i + 1..]), path);
      }
      PhysicalWithin(rest, before, exempt);
      WithinTrans(rest, before, others);
      i := i + 1;
    }
    assert refs + multiset(slots[i..]) == refs;
    WithinTrans(rest, others, cells);
  }

  lemma PhysicalWithin(rest: seq<Cell>, cells: seq<Cell>, exempt: Json?)
    requires Within(rest, cells) && Physical(cells, exempt)
    ensures Physical(rest, exempt)
  {
    forall i | 0 <= i < |rest| && rest[i].node != exempt ensures rest[i].node in NodeSet(rest) && rest[i].node.slots == rest[i].slots {
      assert rest[i] in cells;
    }
  }

  lemma DropCell(cells: seq<Cell>, refs: multiset<Json>, p: nat)
    requires OneCellEach(cells) && Counted(cells, refs) && Closed(cells, refs) && p < |cells|
    requires cells[p].node.refcount == 0 && forall n :: n in NodeSet(cells) && n != cells[p].node ==> n.refcount > 0
    ensures Inv(Without(cells, p), refs + multiset(cells[p].slots)) && StuckIn(Without(cells, p)) == StuckIn(cells)
  {
    HeldWithout(cells, p);
    NodesWithout(cells, p);
  }

  // ----- the operations

  /**
    `json_incref`. The count stays exact if and only if it was exact and there are still fewer than
    (unsigned)-1 references; otherwise it is stuck.
    */
  method Incref(v: Json, ghost cells: seq<Cell>, ghost refs: multiset<Json>)
    requires Inv(cells, refs) && v in NodeSet(cells)
    modifies NodeSet(cells)`refcount
    ensures Inv(cells, refs + multiset{v})
    ensures StuckIn(cells) == old(StuckIn(cells)) + Crowded(cells, refs + multiset{v})
    ensures v.refcount == Up(old(v.refcount))
  {
    hide Held;
    assert forall n :: n in NodeSet(cells) ==> Total(cells, refs + multiset{v}, n) == Total(cells, refs, n) + if n == v then 1 else 0;
    if v.refcount != STUCK {
      v.refcount := v.refcount + 1;
    }
  }

  /** A count is exact unless it is stuck. */
  lemma ExactOrStuck(cells: seq<Cell>, refs: multiset<Json>)
    requires Inv(cells, refs)
    ensures ExactIn(cells, refs) == NodeSet(cells) - StuckIn(cells)
  {
    hide Held;
  }

  /** A value with too many references has a stuck count already. */
  lemma CrowdedIsStuck(cells: seq<Cell>, refs: multiset<Json>)
    requires Inv(cells, refs)
    ensures Crowded(cells, refs) <= StuckIn(cells)
  {
    hide Held;
  }

  lemma MoreCrowded(cells: seq<Cell>, refs: multiset<Json>, v: Json)
    ensures Crowded(cells, refs) <= Crowded(cells, refs + multiset{v})
  {
    hide Held;
    assert forall n :: Total(cells, refs, n) <= Total(cells, refs + multiset{v}, n);
  }

  /** The cells after a container's slots changed. */
  ghost function Changed(cells: seq<Cell>, p: nat, slots: seq<Json>): seq<Cell>
    requires p < |cells|
  {
    cells[p := Cell(cells[p].node, slots)]
  }

  /** Moving references between callers and the slots of one container changes no count. */
  lemma ChangedInv(cells: seq<Cell>, refs: multiset<Json>, p: nat, slots: seq<Json>, refs': multiset<Json>)
    requires Inv(cells, refs) && p < |cells|
    requires refs' + multiset(slots) == refs + multiset(cells[p].slots)
    ensures Inv(Changed(cells, p, slots), refs') && NodeSet(Changed(cells, p, slots)) == NodeSet(cells)
  {
    hide Held;
    HeldUpdate(cells, p, Cell(cells[p].node, slots));
    NodesUpdate(cells, p, slots);
    var cells' := Changed(cells, p, slots);
    forall n | n in NodeSet(cells') ensures Total(cells', refs', n) == Total(cells, refs, n) {
      SameCount(Held(cells'), multiset(cells[p].slots), Held(cells), multiset(slots), refs', refs, n);
    }
    StillClosed(cells, refs, cells', refs', multiset(cells[p].slots), multiset(slots));
  }

  lemma StillClosed(cells: seq<Cell>, refs: multiset<Json>, cells': seq<Cell>, refs': multiset<Json>, b: multiset<Json>, d: multiset<Json>)
    requires Closed(cells, refs) && NodeSet(cells') == NodeSet(cells)
    requires Held(cells') + b == Held(cells) + d && refs' + d == refs + b
    ensures Closed(cells', refs')
  {
    forall n: Json | n in Held(cells') + refs' ensures n in NodeSet(cells') {
      InSum(Held(cells'), refs', n);
      SameCount(Held(cells'), b, Held(cells), d, refs', refs, n);
      InSum(Held(cells), refs, n);
      ClosedAt(cells, refs, n);
    }
  }

  lemma InSum(a: multiset<Json>, b: multiset<Json>, n: Json)
    ensures n in a + b <==> a[n] + b[n] > 0
  {
  }

  lemma ClosedAt(cells: seq<Cell>, refs: multiset<Json>, n: Json)
    requires Closed(cells, refs) && n in Held(cells) + refs
    ensures n in NodeSet(cells)
  {
  }

  lemma CountedAt(cells: seq<Cell>, refs: multiset<Json>, n: Json)
    requires Counted(cells, refs) && n in NodeSet(cells)
    ensures n.refcount == STUCK || n.refcount == Held(cells)[n] + refs[n]
  {
  }

  lemma SameCount(a: multiset<Json>, b: multiset<Json>, c: multiset<Json>, d: multiset<Json>, r': multiset<Json>, r: multiset<Json>, n: Json)
    requires a + b == c + d && r' + d == r + b
    ensures a[n] + r'[n] == c[n] + r[n]
  {
    assert (a + b)[n] == (c + d)[n];
    assert (r' + d)[n] == (r + b)[n];
  }

  lemma PhysicalChanged(cells: seq<Cell>, p: nat, slots: seq<Json>)
    requires Physical(cells, null) && p < |cells|
    ensures Physical(Changed(cells, p, slots), cells[p].node)
  {
    var cells' := Changed(cells, p, slots);
    forall i | 0 <= i < |cells'| && cells'[i].node != cells[p].node ensures cells'[i].node.slots == cells'[i].slots {
      assert cells'[i] == cells[i];
    }
  }

  /** What every operation on container `json` keeps: other containers are as before, or freed. */
  ghost predicate OthersKept(rest: seq<Cell>, cells: seq<Cell>, json: Json) {
    forall c :: c in rest && c.node != json ==> c in cells
  }

  /** The assignment that completes an operation: `json` has survived, and the references in `slots` move into its slots. */
  method Store(json: Json, slots: seq<Json>, ghost rest: seq<Cell>, ghost refs: multiset<Json>, ghost refs': multiset<Json>,
               ghost cells: seq<Cell>, ghost p: nat, ghost mid: seq<Json>)
    returns (ghost final: seq<Cell>)
    requires p < |cells| && cells[p].node == json && OneCellEach(cells) && Within(rest, Changed(cells, p, mid))
    requires Inv(rest, refs) && Physical(rest, json) && json in NodeSet(rest)
    requires refs' + multiset(slots) == refs + multiset(mid)
    modifies json`slots
    ensures json.slots == slots && Inv(final, refs') && Physical(final, null) && OthersKept(final, cells, json)
    ensures NodeSet(final) == NodeSet(rest) && StuckIn(final) == old(StuckIn(rest))
  {
    hide Held;
    ghost var k := CellOf(rest, json);
    NodesUpdate(cells, p, mid);
    OnlyCell(Changed(cells, p, mid), rest[k], p);
    ChangedInv(rest, refs, k, slots, refs');
    final := Changed(rest, k, slots);
    KeptOthers(rest, cells, p, mid);
    StoredOthers(final, rest, cells, json, k, slots);
    json.slots := slots;
    StoredPhysical(final, rest, json, k, slots);
  }

  lemma StoredOthers(final: seq<Cell>, rest: seq<Cell>, cells: seq<Cell>, json: Json, k: nat, slots: seq<Json>)
    requires k < |rest| && rest[k].node == json && final == Changed(rest, k, slots) && OthersKept(rest, cells, json)
    ensures OthersKept(final, cells, json)
  {
    forall i | 0 <= i < |final| && final[i].node != json ensures final[i] in cells {
      assert final[i] == rest[i] && rest[i] in rest;
    }
  }

  lemma StoredPhysical(final: seq<Cell>, rest: seq<Cell>, json: Json, k: nat, slots: seq<Json>)
    requires k < |rest| && rest[k].node == json && final == Changed(rest, k, slots) && OneCellEach(rest) && Physical(rest, json) && json.slots == slots
    ensures Physical(final, null)
  {
    forall i | 0 <= i < |final| ensures final[i].node.slots == final[i].slots {
      assert i != k ==> final[i] == rest[i] && rest[i].node != json;
    }
  }

  lemma OnlyCell(cells: seq<Cell>, c: Cell, p: nat)
    requires OneCellEach(cells) && c in cells && p < |cells| && c.node == cells[p].node
    ensures c == cells[p]
  {
  }

  lemma KeptOthers(rest: seq<Cell>, cells: seq<Cell>, p: nat, slots: seq<Json>)
    requires p < |cells| && Within(rest, Changed(cells, p, slots))
    ensures OthersKept(rest, cells, cells[p].node)
  {
    forall i | 0 <= i < |rest| && rest[i].node != cells[p].node ensures rest[i] in cells {
      var j :| 0 <= j < |cells| && Changed(cells, p, slots)[j] == rest[i];
    }
  }

  lemma PhysicalKept(rest: seq<Cell>, cells: seq<Cell>, json: Json)
    requires Within(rest, cells) && Physical(cells, null)
    ensures Physical(rest, null) && OthersKept(rest, cells, json)
  {
    PhysicalWithin(rest, cells, null);
  }

  lemma SlotsAt(cells: seq<Cell>, p: nat, exempt: Json?)
    requires Physical(cells, exempt) && p < |cells| && cells[p].node != exempt
    ensures cells[p].node.slots == cells[p].slots
  {
  }

  lemma SlotsOf(cells: seq<Cell>, p: nat)
    requires Physical(cells, null) && p < |cells|
    ensures cells[p].node in NodeSet(cells) && cells[p].node.slots == cells[p].slots
  {
  }

  /** A caller's reference to `value` goes into the slot that was given up. */
  lemma Replaced(refs: multiset<Json>, slots: seq<Json>, index: nat, value: Json)
    requires index < |slots| && value in refs
    ensures refs - multiset{value} + multiset(slots[index := value]) == refs + multiset(slots[..index] + slots[index + 1..])
  {
    assert slots[index := value] == slots[..index] + [value] + slots[index + 1..];
    assert refs == refs - multiset{value} + multiset{value};
  }

  /**
    `json_array_set_new`, and overwriting a member of an object: on success and on failure, one
    reference of the caller to `value` is used up. When an old element is released, the container
    must be reachable from a reference somebody owns, that to `value` included.
    */
  method SetNew(json: Json, index: nat, value: Json, ghost cells: seq<Cell>, ghost refs: multiset<Json>, ghost path: seq<Json>) returns (ok: bool, ghost rest: seq<Cell>)
    requires Inv(cells, refs) && Physical(cells, null) && value in refs && json in NodeSet(cells)
    requires json.container && json != value && index < |json.slots| ==> Reaches(json, cells, refs, path)
    modifies NodeSet(cells)
    ensures Inv(rest, refs - multiset{value}) && Physical(rest, null) && OthersKept(rest, cells, json) && StuckIn(rest) == old(StuckIn(cells))
    ensures ok == (json.container && json != value && index < |old(json.slots)|)
    ensures json.slots == if ok then old(json.slots)[index := value] else old(json.slots)
    ensures ok ==> json in NodeSet(rest)
  {
    hide Held, Inv, Physical, Reaches;
    ok := json.container && json != value && index < |json.slots|;
    if !ok {
      rest := Decref(value, cells, refs, null, []);
      PhysicalKept(rest, cells, json);
      return;
    }
    ghost var p := CellOf(cells, json);
    SlotsOf(cells, p);
    OneEach(cells, refs);
    ghost var slots := json.slots;
    rest := ReleaseSlot(json, index, cells, refs, path, p);
    Replaced(refs, slots, index, value);
    rest := Store(json, json.slots[index := value], rest, refs, refs - multiset{value}, cells, p, slots[..index] + slots[index + 1..]);
  }

  /** `json_decref` of the element at `index`, which is still in the slots of `json` then. */
  method ReleaseSlot(json: Json, index: nat, ghost cells: seq<Cell>, ghost refs: multiset<Json>, ghost path: seq<Json>, ghost p: nat) returns (ghost rest: seq<Cell>)
    requires Inv(cells, refs) && Physical(cells, null) && Reaches(json, cells, refs, path)
    requires p < |cells| && cells[p].node == json && index < |json.slots|
    modifies NodeSet(cells)`refcount
    ensures var mid := json.slots[..index] + json.slots[index + 1..];
      Inv(rest, refs) && Within(rest, Changed(cells, p, mid)) && Physical(rest, json) && json in NodeSet(rest)
    ensures StuckIn(rest) == old(StuckIn(cells))
  {
    hide Held, Inv;
    OneEach(cells, refs);
    SlotsOf(cells, p);
    ghost var cut := CutPath(json, cells, refs, path);
    ghost var was, mid := json.slots[index], json.slots[..index] + json.slots[index + 1..];
    ghost var cells1 := Changed(cells, p, mid);
    TakeOut(refs, json.slots, index);
    ChangedInv(cells, refs, p, mid, refs + multiset{was});
    PhysicalChanged(cells, p, mid);
    ChangedRooted(json, cells, refs, cut, p, mid);
    OneEach(cells1, refs + multiset{was});
    assert refs + multiset{was} - multiset{was} == refs;
    rest := Decref(json.slots[index], cells1, refs + multiset{was}, json, cut);
    assert refs + multiset{} == refs;
    FewerRefs(json, cells1, refs, rest, multiset{}, cut);
    PhysicalWithin(rest, cells1, json);
  }

  /** `json_array_insert_new`, `json_array_append_new` at the end, and a new member of an object. */
  method InsertNew(json: Json, index: nat, value: Json, ghost cells: seq<Cell>, ghost refs: multiset<Json>) returns (ok: bool, ghost rest: seq<Cell>)
    requires Inv(cells, refs) && Physical(cells, null) && value in refs && json in NodeSet(cells)
    modifies NodeSet(cells)
    ensures Inv(rest, refs - multiset{value}) && Physical(rest, null) && OthersKept(rest, cells, json) && StuckIn(rest) == old(StuckIn(cells))
    ensures ok == (json.container && json != value && index <= |old(json.slots)|)
    ensures json.slots == if ok then old(json.slots)[..index] + [value] + old(json.slots)[index..] else old(json.slots)
    ensures ok ==> NodeSet(rest) == NodeSet(cells)
  {
    hide Held;
    ok := json.container && json != value && index <= |json.slots|;
    if !ok {
      rest := Decref(value, cells, refs, null, []);
      PhysicalKept(rest, cells, json);
      return;
    }
    ghost var p := CellOf(cells, json);
    SlotsOf(cells, p);
    var slots := json.slots[..index] + [value] + json.slots[index..];
    PutIn(refs, json.slots, index, value);
    SameCells(cells, p, json);
    rest := Store(json, slots, cells, refs, refs - multiset{value}, cells, p, cells[p].slots);
  }

  lemma SameCells(cells: seq<Cell>, p: nat, json: Json)
    requires Physical(cells, null) && p < |cells| && cells[p].node == json
    ensures Changed(cells, p, cells[p].slots) == cells && Within(cells, cells) && Physical(cells, json) && json in NodeSet(cells)
  {
  }

  lemma PutIn(refs: multiset<Json>, slots: seq<Json>, index: nat, value: Json)
    requires index <= |slots| && value in refs
    ensures refs - multiset{value} + multiset(slots[..index] + [value] + slots[index..]) == refs + multiset(slots)
  {
    assert slots == slots[..index] + slots[index..];
  }

  /** `json_array_remove` and `json_object_del`. */
  method Remove(json: Json, index: nat, ghost cells: seq<Cell>, ghost refs: multiset<Json>, ghost path: seq<Json>) returns (ok: bool, ghost rest: seq<Cell>)
    requires Inv(cells, refs) && Physical(cells, null) && json in NodeSet(cells)
    requires json.container && index < |json.slots| ==> Reaches(json, cells, refs, path)
    modifies NodeSet(cells)
    ensures Inv(rest, refs) && Physical(rest, null) && OthersKept(rest, cells, json) && StuckIn(rest) == old(StuckIn(cells))
    ensures ok == (json.container && index < |old(json.slots)|)
    ensures json.slots == if ok then old(json.slots)[..index] + old(json.slots)[index + 1..] else old(json.slots)
    ensures ok ==> json in NodeSet(rest)
  {
    hide Held;
    ok := json.container && index < |json.slots|;
    rest := cells;
    if !ok {
      return;
    }
    ghost var p := CellOf(cells, json);
    rest := ReleaseSlot(json, index, cells, refs, path, p);
    ghost var mid := json.slots[..index] + json.slots[index + 1..];
    rest := Store(json, json.slots[..index] + json.slots[index + 1..], rest, refs, refs, cells, p, mid);
  }

  lemma TakeOut(refs: multiset<Json>, slots: seq<Json>, index: nat)
    requires index < |slots|
    ensures refs + multiset{slots[index]} + multiset(slots[..index] + slots[index + 1..]) == refs + multiset(slots)
  {
    assert slots == slots[..index] + [slots[index]] + slots[index + 1..];
  }

  /** `json_array_clear` and `json_object_clear`: the slots give up their references first and are then forgotten. */
  method Clear(json: Json, ghost cells: seq<Cell>, ghost refs: multiset<Json>, ghost path: seq<Json>) returns (ok: bool, ghost rest: seq<Cell>)
    requires Inv(cells, refs) && Physical(cells, null) && json in NodeSet(cells)
    requires json.container ==> Reaches(json, cells, refs, path)
    modifies NodeSet(cells)
    ensures Inv(rest, refs) && Physical(rest, null) && OthersKept(rest, cells, json) && StuckIn(rest) == old(StuckIn(cells))
    ensures ok == json.container && json.slots == if ok then [] else old(json.slots)
    ensures ok ==> json in NodeSet(rest)
  {
    hide Held, Inv, Rooted, Reaches, Physical;
    ok := json.container;
    rest := cells;
    if !ok {
      return;
    }
    ghost var p := CellOf(cells, json);
    SlotsOf(cells, p);
    OneEach(cells, refs);
    ghost var cut := CutPath(json, cells, refs, path);
    ghost var slots := json.slots;
    ghost var cells1 := Changed(cells, p, []);
    ChangedInv(cells, refs, p, [], refs + multiset(slots));
    PhysicalChanged(cells, p, []);
    ChangedRooted(json, cells, refs, cut, p, []);
    rest := cells1;
    var i := 0;
    assert slots[0..] == slots;
    while i < |json.slots|
      invariant 0 <= i <= |slots| && json.slots == slots
      invariant Inv(rest, refs + multiset(slots[i..])) && Within(rest, cells1) && Physical(rest, json)
      invariant Rooted(json, rest, refs, cut) && StuckIn(rest) == old(StuckIn(cells))
    {
      ghost var before := rest;
      OneEach(rest, refs + multiset(slots[i..]));
      assert slots[i..] == [slots[i]] + slots[i + 1..];
      WithinNodes(rest, cells1);
      assert refs + multiset(slots[i..]) - multiset{slots[i]} == refs + multiset(slots[i + 1..]);
      MoreRefs(json, rest, refs, multiset(slots[i + 1..]), cut);
      rest := Decref(json.slots[i], rest, refs + multiset(slots[i..]), json, cut);
      FewerRefs(json, before, refs, rest, multiset(slots[i + 1..]), cut);
      PhysicalWithin(rest, before, json);
      WithinTrans(rest, before, cells1);
      i := i + 1;
    }
    assert refs + multiset(slots[i..]) == refs;
    RootIsLive(json, rest, refs, cut);
    rest := Store(json, [], rest, refs, refs, cells, p, []);
  }

  lemma RootIsLive(json: Json, cells: seq<Cell>, refs: multiset<Json>, path: seq<Json>)
    requires Rooted(json, cells, refs, path)
    ensures json in NodeSet(cells)
  {
  }

  lemma OneEach(cells: seq<Cell>, refs: multiset<Json>)
    requires Inv(cells, refs)
    ensures OneCellEach(cells)
  {
  }

  /** `json_array_extend`: every element of `other` gets one more reference, for its new slot. `other` may be `json`. */
  method Extend(json: Json, other: Json, ghost cells: seq<Cell>, ghost refs: multiset<Json>) returns (ok: bool, ghost rest: seq<Cell>)
    requires Inv(cells, refs) && Physical(cells, null) && json in NodeSet(cells) && other in NodeSet(cells)
    modifies NodeSet(cells)
    ensures Inv(rest, refs) && Physical(rest, null) && OthersKept(rest, cells, json)
    ensures ok == (json.container && other.container)
    ensures StuckIn(rest) == old(StuckIn(cells)) + if ok then Crowded(cells, refs + multiset(old(other.slots))) else {}
    ensures json.slots == if ok then old(json.slots) + old(other.slots) else old(json.slots)
    ensures NodeSet(rest) == NodeSet(cells)
  {
    hide Held, Inv, StuckIn, Crowded;
    ok := json.container && other.container;
    rest := cells;
    if !ok {
      return;
    }
    ghost var p := CellOf(cells, json);
    ghost var q := CellOf(cells, other);
    SlotsOf(cells, p);
    SlotsOf(cells, q);
    ghost var added := other.slots;
    var i := 0;
    assert multiset(added[..0]) == multiset{};
    assert refs + multiset{} == refs;
    CrowdedIsStuck(cells, refs);
    while i < |other.slots|
      invariant 0 <= i <= |added| && other.slots == added && json.slots == cells[p].slots
      invariant Inv(cells, refs + multiset(added[..i])) && Physical(cells, null)
      invariant StuckIn(cells) == old(StuckIn(cells)) + Crowded(cells, refs + multiset(added[..i]))
    {
      SlotIsLive(cells, refs + multiset(added[..i]), q, i);
      Incref(other.slots[i], cells, refs + multiset(added[..i]));
      assert added[..i + 1] == added[..i] + [added[i]];
      assert refs + multiset(added[..i]) + multiset{added[i]} == refs + multiset(added[..i + 1]);
      MoreCrowded(cells, refs + multiset(added[..i]), added[i]);
      i := i + 1;
    }
    assert added[..i] == added;
    var slots := json.slots + other.slots;
    OneEach(cells, refs + multiset(added));
    SameCells(cells, p, json);
    assert refs + multiset(slots) == refs + multiset(added) + multiset(cells[p].slots);
    rest := Store(json, slots, cells, refs + multiset(added), refs, cells, p, cells[p].slots);
  }

  lemma {:induction false} SlotHeld(cells: seq<Cell>, p: nat, k: nat)
    requires p < |cells| && k < |cells[p].slots|
    ensures cells[p].slots[k] in Held(cells)
  {
    HeldWithout(cells, p);
    assert cells[p].slots[k] in multiset(cells[p].slots);
  }

  lemma SlotIsLive(cells: seq<Cell>, refs: multiset<Json>, p: nat, k: nat)
    requires Inv(cells, refs) && p < |cells| && k < |cells[p].slots|
    ensures cells[p].slots[k] in NodeSet(cells)
  {
    SlotHeld(cells, p, k);
    assert cells[p].slots[k] in Held(cells) + refs;
  }

  /** `json_array` and `json_object`: a new empty container with one reference, the caller's. */
  method NewContainer(ghost cells: seq<Cell>, ghost refs: multiset<Json>) returns (json: Json, ghost rest: seq<Cell>)
    requires Inv(cells, refs) && Physical(cells, null)
    ensures fresh(json) && json.container && json.slots == [] && json.refcount == 1
    ensures rest == [Cell(json, [])] + cells && Inv(rest, refs + multiset{json}) && Physical(rest, null)
  {
    json := new Json(true);
    rest := [Cell(json, [])] + cells;
    assert rest[1..] == cells;
    NewIsNowhere(cells, refs, json);
    assert NodeSet(rest) == NodeSet(cells) + {json} by {
      assert Cell(json, []) in rest;
      assert forall c :: c in cells ==> c in rest;
    }
    assert Held(rest) == Held(cells);
  }

  lemma NewIsNowhere(cells: seq<Cell>, refs: multiset<Json>, json: Json)
    requires Inv(cells, refs) && json !in NodeSet(cells)
    ensures Held(cells)[json] == 0 && refs[json] == 0
  {
    InSum(Held(cells), refs, json);
    if json in Held(cells) + refs {
      ClosedAt(cells, refs, json);
    }
  }

  // ----- what the invariant means

  /** A value no slot and no caller refers to is not live any more, unless its count is stuck: its memory has been given back. */
  lemma NoGarbage(cells: seq<Cell>, refs: multiset<Json>, n: Json)
    requires Inv(cells, refs) && n !in Held(cells) && n !in refs
    ensures n !in NodeSet(cells) || n in StuckIn(cells)
  {
    hide Held;
    if n in NodeSet(cells) && n.refcount != STUCK {
      CountedAt(cells, refs, n);
    }
  }

  /** And nothing that is referred to has been freed, however many references there are. */
  lemma NoDangling(cells: seq<Cell>, refs: multiset<Json>, n: Json)
    requires Inv(cells, refs) && (n in Held(cells) || n in refs)
    ensures n in NodeSet(cells) && n.refcount > 0
  {
    assert n in Held(cells) + refs;
  }

  /** `json_true` and its like hand out a reference that nobody counts. */
  lemma UncountedReference(cells: seq<Cell>, refs: multiset<Json>, v: Json)
    requires Inv(cells, refs) && v in StuckIn(cells)
    ensures Inv(cells, refs + multiset{v})
  {
    hide Held;
    assert forall n :: n != v ==> Total(cells, refs + multiset{v}, n) == Total(cells, refs, n);
  }

  lemma {:induction false} NothingHeld(cells: seq<Cell>)
    requires forall i :: 0 <= i < |cells| ==> cells[i].slots == []
    ensures Held(cells) == multiset{}
  {
    if cells != [] {
      NothingHeld(cells[1..]);
    }
  }

  /** When the program starts there are three live values, which stay for ever. */
  method Startup() returns (jsonTrue: Json, jsonFalse: Json, jsonNull: Json, ghost cells: seq<Cell>)
    ensures Inv(cells, multiset{}) && Physical(cells, null)
    ensures NodeSet(cells) == StuckIn(cells) == {jsonTrue, jsonFalse, jsonNull}
  {
    jsonTrue := new Json.Static();
    jsonFalse := new Json.Static();
    jsonNull := new Json.Static();
    cells := [Cell(jsonTrue, []), Cell(jsonFalse, []), Cell(jsonNull, [])];
    NothingHeld(cells);
    assert NodeSet(cells) == {jsonTrue, jsonFalse, jsonNull} by {
      assert cells[0] in cells && cells[1] in cells && cells[2] in cells;
    }
  }

  /**
    Why a container has to be reachable from a caller: `a` and `b` hold each other and nobody else
    does. When `a` gives up `b`, nothing that the invariant allows afterwards has `a` in it; so `a`
    is freed while it is being changed.
    */
  lemma LeakedCycle(a: Json, b: Json, rest: seq<Cell>)
    requires a != b && a.refcount != STUCK && b.refcount != STUCK
    requires Within(rest, [Cell(a, []), Cell(b, [a])]) && Inv(rest, multiset{})
    ensures a !in NodeSet(rest) && b !in NodeSet(rest)
  {
    hide Held;
    var cells := [Cell(a, []), Cell(b, [a])];
    if b in NodeSet(rest) {
      NoGarbageUnheld(rest, cells, b);
    }
    if a in NodeSet(rest) {
      forall i | 0 <= i < |rest| ensures a !in rest[i].slots {
        assert rest[i] in cells;
        assert rest[i] in rest && rest[i].node in NodeSet(rest);
      }
      Unheld(rest, a);
      NoGarbage(rest, multiset{}, a);
    }
  }

  lemma NoGarbageUnheld(rest: seq<Cell>, cells: seq<Cell>, n: Json)
    requires Within(rest, cells) && Inv(rest, multiset{}) && forall i :: 0 <= i < |cells| ==> n !in cells[i].slots
    ensures n in NodeSet(rest) ==> n.refcount == STUCK
  {
    forall i | 0 <= i < |rest| ensures n !in rest[i].slots {
      assert rest[i] in cells;
    }
    Unheld(rest, n);
    NoGarbage(rest, multiset{}, n);
  }

  lemma {:induction false} Unheld(cells: seq<Cell>, n: Json)
    requires forall i :: 0 <= i < |cells| ==> n !in cells[i].slots
    ensures n !in Held(cells)
  {
    if cells != [] {
      Unheld(cells[1..], n);
    }
  }

  // ----- counts through a whole history

  datatype Change = Taken | GivenBack

  /** The count of a new value after references to it were taken and given back. */
  function CountAfter(changes: seq<Change>): Count {
    if changes == [] then 1
    else
      var before := CountAfter(changes[..|changes| - 1]);
      if changes[|changes| - 1].Taken? then Up(before) else Down(before)
  }

  /** How many references to it there are then. */
  ghost function TotalAfter(changes: seq<Change>): int {
    if changes == [] then 1
    else TotalAfter(changes[..|changes| - 1]) + if changes[|changes| - 1].Taken? then 1 else -1
  }

  /** As long as something happens to a value there is a reference to it. */
  ghost predicate Alive(changes: seq<Change>) {
    forall i :: 0 <= i < |changes| ==> TotalAfter(changes[..i]) > 0
  }

  /** At some time there were more references than can be counted. */
  ghost predicate WasCrowded(changes: seq<Change>) {
    exists i :: 0 <= i <= |changes| && TotalAfter(changes[..i]) >= 0xFFFF_FFFF
  }

  lemma AliveBefore(changes: seq<Change>)
    requires changes != [] && Alive(changes)
    ensures var past := changes[..|changes| - 1]; Alive(past) && TotalAfter(past) > 0
  {
    var past := changes[..|changes| - 1];
    assert forall i :: 0 <= i < |past| ==> past[..i] == changes[..i];
  }

  lemma CrowdedBefore(changes: seq<Change>)
    requires changes != []
    ensures WasCrowded(changes) <==> WasCrowded(changes[..|changes| - 1]) || TotalAfter(changes) >= 0xFFFF_FFFF
  {
    var past := changes[..|changes| - 1];
    assert changes[..|changes|] == changes;
    if WasCrowded(past) {
      var i :| 0 <= i <= |past| && TotalAfter(past[..i]) >= 0xFFFF_FFFF;
      assert past[..i] == changes[..i];
    }
    if i :| 0 <= i <= |changes| && TotalAfter(changes[..i]) >= 0xFFFF_FFFF && i < |changes| {
      assert past[..i] == changes[..i];
    }
  }

  /** A count is exact through every history in which there never were too many references, and stuck after any other. */
  lemma {:induction false} CountAfterIs(changes: seq<Change>)
    requires Alive(changes)
    ensures CountAfter(changes) == if WasCrowded(changes) then 0xFFFF_FFFF else TotalAfter(changes)
    ensures TotalAfter(changes) >= 0
    decreases |changes|
  {
    if changes == [] {
      assert changes[..0] == [];
    } else {
      AliveBefore(changes);
      CrowdedBefore(changes);
      CountAfterIs(changes[..|changes| - 1]);
    }
  }

  /** A value is freed when its count comes to 0: exactly when the last reference is given back and there never were too many. */
  lemma FreedIff(changes: seq<Change>)
    requires Alive(changes)
    ensures CountAfter(changes) == 0 <==> TotalAfter(changes) == 0 && !WasCrowded(changes)
  {
    CountAfterIs(changes);
    assert changes[..|changes|] == changes;
  }

  /** `json` is the only live value, and callers own `n` references to it. */
  ghost predicate Alone(json: Json, n: nat)
    reads json
  {
    json.slots == [] && Inv([Cell(json, [])], multiset{}[json := n])
  }

  lemma OnlyNode(json: Json)
    ensures NodeSet([Cell(json, [])]) == {json} && Held([Cell(json, [])]) == multiset{}
  {
    assert Cell(json, []) in [Cell(json, [])];
  }

  method Retain(json: Json, ghost n: nat)
    requires Alone(json, n)
    modifies json`refcount
    ensures Alone(json, n + 1) && json.refcount == Up(old(json.refcount))
  {
    ghost var refs := multiset{}[json := n];
    OnlyNode(json);
    hide Inv, Held;
    Incref(json, [Cell(json, [])], refs);
    assert refs + multiset{json} == multiset{}[json := n + 1];
  }

  method Release(json: Json, ghost n: nat)
    requires Alone(json, n) && n > 0 && json.refcount == STUCK
    modifies json`refcount
    ensures Alone(json, n - 1) && json.refcount == STUCK
  {
    ghost var cells, refs := [Cell(json, [])], multiset{}[json := n];
    OnlyNode(json);
    hide Inv, Held;
    ghost var rest := Decref(json, cells, refs, null, []);
    assert json in StuckIn(rest) && rest == cells;
    assert refs - multiset{json} == multiset{}[json := n - 1];
  }

  /** A value that is referred to 2^32 - 1 times and then no more stays live for ever. */
  method NeverFreed() returns (json: Json)
    ensures fresh(json) && Inv([Cell(json, [])], multiset{})
    ensures json in NodeSet([Cell(json, [])]) && json !in Held([Cell(json, [])]) && json.refcount == STUCK
  {
    ghost var cells;
    json, cells := NewContainer([], multiset{});
    assert multiset{}[json := 1] == multiset{} + multiset{json} && cells == [Cell(json, [])];
    var n := 1;
    while n < STUCK
      invariant 1 <= n <= STUCK && json.refcount == n && Alone(json, n)
    {
      Retain(json, n);
      n := n + 1;
    }
    while n > 0
      invariant 0 <= n <= STUCK && json.refcount == STUCK && Alone(json, n)
    {
      Release(json, n);
      n := n - 1;
    }
    assert multiset{}[json := 0] == multiset{};
    OnlyNode(json);
  }
}
