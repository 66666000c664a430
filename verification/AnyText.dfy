/** `json_loads` on every C string, whole characters or not. */
module AnyText {
  import opened Bytes
  import opened Utf8
  import opened JsonValue
  import opened JsonParse
  import opened RoundTripTheorems
  import opened GrammarConverse
  import T = Utf8Table
  import G = JsonGrammar

  /** How many bytes the first one asks for; 0 stands for none that can begin a character. */
  function Announced(c: byte): nat {
    if c <= 0x7F then 1
    else if 0xC2 <= c <= 0xDF then 2
    else if 0xE0 <= c <= 0xEF then 3
    else if 0xF0 <= c <= 0xF4 then 4
    else 0
  }

  /** One undecodable sequence: a byte that cannot begin a character, or up to as many bytes as the first asks for. */
  predicate Broken(q: seq<byte>) {
    && q != []
    && if Announced(q[0]) == 0 then |q| == 1 else |q| <= Announced(q[0]) && !T.Character(q)
  }

  // ----- a text of the grammar has no byte 0xFF

  predicate Clean(s: seq<byte>) {
    0xFF !in s
  }

  lemma {:induction false} CharsClean(cs: seq<G.Char>)
    requires G.CharsOk(cs)
    ensures Clean(G.CharsText(cs))
  {
    if cs != [] {
      CharsClean(cs[1..]);
      CharClean(cs[0]);
      hide G.CharText;
    }
  }

  lemma CharClean(ch: G.Char)
    requires G.CharOk(ch)
    ensures Clean(G.CharText(ch))
  {
    hide G.Number4;
  }

  lemma NumberClean(minus: bool, d: seq<byte>, f: seq<byte>, e: seq<byte>)
    requires G.IntegerDigits(d) && G.FractionOk(f) && G.ExponentOk(e)
    ensures Clean(G.Minus(minus) + d + f + e) && Clean(G.Minus(minus) + d)
  {
    assert Clean(f) by {
      if f != [] {
        assert f == [f[0]] + f[1..];
      }
    }
    assert Clean(e) by {
      if |e| > 2 {
        assert e == [e[0], e[1]] + e[2..];
      }
    }
  }

  lemma {:induction false} TreeClean(t: G.Tree)
    requires G.Ok(t)
    ensures Clean(G.TreeText(t))
    decreases t
  {
    match t
    case IntTree(minus, d) => NumberClean(minus, d, [], []);
    case RealTree(minus, d, f, e) => NumberClean(minus, d, f, e);
    case StringTree(cs) => CharsClean(cs);
    case ArrayTree(es) => ElemsClean(es);
    case ObjectTree(ms) => MembersClean(ms);
    case _ =>
  }

  lemma {:induction false} ItemClean(x: G.Item)
    requires G.ItemOk(x)
    ensures Clean(G.ItemText(x))
    decreases x
  {
    TreeClean(x.tree);
  }

  lemma {:induction false} ElemsClean(es: G.Elems)
    requires G.ElemsOk(es)
    ensures Clean(G.ElemsText(es))
    decreases es
  {
    hide G.ItemText;
    match es
    case LastElem(x) => ItemClean(x);
    case MoreElems(x, rest) =>
      ItemClean(x);
      ElemsClean(rest);
  }

  lemma {:induction false} MemberClean(m: G.Member)
    requires G.MemberOk(m)
    ensures Clean(G.MemberText(m))
    decreases m
  {
    hide G.ItemText;
    CharsClean(m.key);
    ItemClean(m.value);
  }

  lemma {:induction false} MembersClean(ms: G.Members)
    requires G.MembersOk(ms)
    ensures Clean(G.MembersText(ms))
    decreases ms
  {
    hide G.MemberText;
    match ms
    case LastMember(m) => MemberClean(m);
    case MoreMembers(m, rest) =>
      MemberClean(m);
      MembersClean(rest);
  }

  lemma DenotesClean(s: seq<byte>, v: Json)
    requires G.Denotes(s, v)
    ensures Clean(s)
  {
    hide G.ItemText, G.ItemValue;
    var x: G.Item :| G.ItemOk(x) && G.IsContainer(x.tree) && G.ItemText(x) == s && G.ItemValue(x) == v;
    ItemClean(x);
  }

  lemma EofNotDenoted(s: seq<byte>, i: nat, v: Json)
    requires i < |s| && s[i] == 0xFF
    ensures !G.Denotes(s, v)
  {
    hide G.Denotes;
    if G.Denotes(s, v) {
      DenotesClean(s, v);
      assert false;
    }
  }

  // ----- what the stream makes of the rest

  /** As many whole characters as there are at the front. */
  lemma {:induction false} WholeFront(d: seq<byte>) returns (n: nat)
    ensures n <= |d| && Valid(d[..n]) && (n < |d| ==> FirstUnit(d[n..]).None?)
    decreases |d|
  {
    hide FirstUnit;
    if d == [] || FirstUnit(d).None? {
      n := 0;
      assert d[0..] == d;
    } else {
      var k := FirstUnit(d).value.count;
      var m := WholeFront(d[k..]);
      n := k + m;
      assert d[..n][k..] == d[k..][..m] && d[k..][m..] == d[n..];
      UnitWithin(d, n);
    }
  }

  /** A character at the front needs no more than its own bytes. */
  lemma UnitWithin(d: seq<byte>, n: nat)
    requires d != [] && FirstUnit(d).Some? && FirstUnit(d).value.count <= n <= |d|
    ensures FirstUnit(d[..n]) == FirstUnit(d)
  {
    var k := FirstUnit(d).value.count;
    assert d[..n][..k] == d[..k];
  }

  lemma SameLength(c: byte)
    ensures CheckFirst(c) == Announced(c)
  {
  }

  lemma CookLength(r: seq<byte>)
    ensures Cook(r) == [] <==> r == []
  {
  }

  /** A broken sequence becomes one EOF character. */
  lemma CookBroken(r: seq<byte>) returns (k: nat)
    requires r != [] && FirstUnit(r).None?
    ensures 1 <= k <= |r| && Cook(r) == [0xFF] + Cook(r[k..])
    ensures var n := Announced(r[0]); n != 1 && k == if n == 0 then 1 else if n < |r| then n else |r|
  {
    SameLength(r[0]);
    var n := CheckFirst(r[0]);
    k := if n == 0 then 1 else if n < |r| then n else |r|;
    if n > |r| {
      assert Cook(r[k..]) == [];
    }
  }

  lemma BrokenIff(r: seq<byte>)
    requires r != []
    ensures FirstUnit(r).None? && Cook(r) == [0xFF] <==> Broken(r)
    ensures FirstUnit(r).None? ==> Cook(r) != [] && Cook(r)[0] == 0xFF
  {
    SameLength(r[0]);
    WholeOrNot(r);
    hide T.Character, CheckFirst, CheckFull;
    if FirstUnit(r).None? {
      hide Cook;
      var k := CookBroken(r);
      CookLength(r[k..]);
    }
  }

  /** Whether `r` as a whole is a character. */
  lemma WholeOrNot(r: seq<byte>)
    requires r != []
    ensures T.Character(r) <==> FirstUnit(r).Some? && FirstUnit(r).value.count == |r|
    ensures FirstUnit(r).Some? ==> FirstUnit(r).value.count == Announced(r[0])
  {
    SameLength(r[0]);
    hide T.Character, T.Number;
    assert r[..|r|] == r;
    if T.Character(r) {
      T.CharacterSize(r);
      T.FirstUnitIff(r, T.Number(r), |r|);
    }
    if FirstUnit(r).Some? {
      T.FirstUnitIff(r, FirstUnit(r).value.cp, FirstUnit(r).value.count);
    }
  }

  // ----- the law

  /** What the parser sees of whole characters and something that does not begin with one. */
  lemma LoadsBehind(p: seq<byte>, r: seq<byte>, v: Json)
    requires Valid(p) && r != [] && FirstUnit(r).None?
    ensures Loads(p + r) == Some(v) <==> Broken(r) && G.Denotes(p, v)
  {
    hide Cook, Trim, FirstUnit, G.Denotes, Valid, Broken;
    ValidHasNoEof(p);
    CookBehindValid(p, r);
    TrimBehind(p, Cook(r));
    BrokenIff(r);
    LoadsAnyIff(p + r, v);
    if Broken(r) {
      TrimOne();
      assert p + [] == p;
    } else {
      TrimLong(Cook(r));
      EofNotDenoted(p + Trim(Cook(r)), |p|, v);
    }
  }

  lemma TrimOne()
    ensures Trim([0xFF]) == []
  {
  }

  lemma TrimLong(s: seq<byte>)
    requires s != [] && s[0] == 0xFF && s != [0xFF]
    ensures Trim(s) != [] && Trim(s)[0] == 0xFF
  {
  }

  /** `n` whole characters' bytes that are a text of the grammar, and one broken sequence at the very end. */
  ghost predicate CutShort(d: seq<byte>, n: nat, v: Json) {
    n < |d| && T.Characters(d[..n]) && G.Denotes(d[..n], v) && Broken(d[n..])
  }

  lemma CutShortLoads(d: seq<byte>, n: nat, v: Json)
    requires CutShort(d, n, v)
    ensures Loads(d) == Some(v)
  {
    hide G.Denotes, T.Characters, Broken, FirstUnit, Valid, Loads, Cook;
    T.ValidIff(d[..n]);
    BrokenIff(d[n..]);
    LoadsBehind(d[..n], d[n..], v);
    assert d[..n] + d[n..] == d;
  }

  lemma FoundCutShort(d: seq<byte>, v: Json) returns (n: nat)
    requires !Valid(d) && Loads(d) == Some(v)
    ensures CutShort(d, n, v)
  {
    hide G.Denotes, T.Characters, Broken, FirstUnit, Valid, Loads, Cook;
    n := WholeFront(d);
    assert d[..n] + d[n..] == d;
    assert d[..|d|] == d;
    T.ValidIff(d[..n]);
    LoadsBehind(d[..n], d[n..], v);
  }

  /**
    `json_loads` on every C string: it gives a value if and only if the string is whole characters and a
    text of the grammar for that value, or is such a text with one broken sequence at its very end.
    */
  lemma LoadsEveryIff(d: seq<byte>, v: Json)
    ensures Loads(d) == Some(v) <==> (T.Characters(d) && G.Denotes(d, v)) || exists n: nat :: CutShort(d, n, v)
  {
    hide G.Denotes, T.Characters, Valid, Loads, CutShort;
    T.ValidIff(d);
    if Valid(d) {
      LoadsIff(d, v);
    } else if Loads(d) == Some(v) {
      var n := FoundCutShort(d, v);
    }
    forall n: nat | CutShort(d, n, v) ensures Loads(d) == Some(v) {
      CutShortLoads(d, n, v);
    }
  }
}
