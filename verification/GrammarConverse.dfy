/** The other half: whatever `json_loads` accepts is a text of the grammar, and stands for the value it gives. */
module GrammarConverse {
  import opened Bytes
  import opened Utf8
  import opened JsonValue
  import opened JsonPrint
  import opened JsonParse
  import opened RoundTrip
  import opened RoundTripTheorems
  import opened GrammarTheorems
  import G = JsonGrammar

  // ----- tokens

  lemma {:induction false} SkipWhite(s: seq<byte>) returns (w: seq<byte>, t: seq<byte>)
    ensures G.White(w) && s == w + t && (t == [] || !IsSpace(t[0])) && Scan(s) == Scan(t)
    decreases |s|
  {
    if s == [] || !IsSpace(s[0]) {
      w, t := [], s;
    } else {
      hide Scan;
      ScanSpace(s);
      w, t := SkipWhite(s[1..]);
      w := [s[0]] + w;
    }
  }

  /** The character a piece of a string body spells. */
  lemma CharFound(b: seq<byte>) returns (ch: G.Char)
    requires b != [] && Body(b) && DecodePiece(b).Some?
    ensures var d := DecodePiece(b).value; G.CharOk(ch) && d.used <= |b| && G.CharText(ch) == b[..d.used] && G.CharBytes(ch) == d.bytes
  {
    if b[0] != BACKSLASH {
      ch := G.Unescaped(b[0]);
    } else if b[1] != 0x75 {
      ShortcutAgrees(b[1]);
      ch := G.Escape(b[1]);
    } else {
      ch := UnicodeFound(b);
    }
  }

  lemma UnicodeFound(b: seq<byte>) returns (ch: G.Char)
    requires b != [] && Body(b) && DecodePiece(b).Some? && b[0] == BACKSLASH && b[1] == 0x75
    ensures var d := DecodePiece(b).value; G.CharOk(ch) && d.used <= |b| && G.CharText(ch) == b[..d.used] && G.CharBytes(ch) == d.bytes
  {
    hide Encode, EscapeValue, G.Number4, HexValue, IsHex, G.HexDigit, G.HexNumber;
    assert Piece(b) == 6;
    FourAgree(b[2..6]);
    if 0xD800 <= EscapeValue(b[2..6]) <= 0xDBFF {
      var rest := b[6..];
      assert Piece(rest) == 6;
      FourAgree(rest[2..6]);
      ch := G.Pair(b[2..6], rest[2..6]);
    } else {
      ch := G.Unicode(b[2..6]);
    }
  }

  lemma {:induction false} CharsFound(b: seq<byte>) returns (cs: seq<G.Char>)
    requires Body(b) && Decode(b).Some?
    ensures G.CharsOk(cs) && G.CharsText(cs) == b && G.CharsBytes(cs) == Decode(b).value
    decreases |b|
  {
    hide DecodePiece, Piece, G.CharText, G.CharBytes, G.CharOk;
    if b == [] {
      cs := [];
    } else {
      var ch := CharFound(b);
      DecodeStep(b);
      var used := DecodePiece(b).value.used;
      var more := CharsFound(b[used..]);
      hide Decode, Body, G.CharsText, G.CharsBytes, G.CharsOk;
      cs := [ch] + more;
      OneMoreChar(ch, more);
      assert b == b[..used] + b[used..];
    }
  }

  lemma OneMoreChar(ch: G.Char, more: seq<G.Char>)
    requires G.CharOk(ch) && G.CharsOk(more)
    ensures var cs := [ch] + more;
      G.CharsOk(cs) && G.CharsText(cs) == G.CharText(ch) + G.CharsText(more) && G.CharsBytes(cs) == G.CharBytes(ch) + G.CharsBytes(more)
  {
    hide G.CharText, G.CharBytes, G.CharOk;
    assert ([ch] + more)[1..] == more;
  }

  lemma StringFound(t: seq<byte>) returns (cs: seq<G.Char>)
    requires t != [] && t[0] == QUOTE && Scan(t).token != Invalid
    ensures G.CharsOk(cs) && t == [QUOTE] + G.CharsText(cs) + [QUOTE] + Scan(t).rest && Scan(t).token == Text(G.CharsBytes(cs))
  {
    hide Scan, ScanString, Decode, G.CharsText, G.CharsBytes, Body;
    var u := t[1..];
    assert t == [QUOTE] + u;
    StringToken(u);
    var n := ScanString(u).value;
    cs := CharsFound(u[..n]);
    assert u == u[..n] + [QUOTE] + u[n + 1..];
  }

  // ----- numbers

  lemma IntegerFound(t: seq<byte>)
    requires IntegerPart(t) > 0
    ensures var d := t[..IntegerPart(t)]; G.IntegerDigits(d)
  {
  }

  lemma FractionFound(u: seq<byte>)
    requires Fraction(u).Some?
    ensures G.FractionOk(u[..Fraction(u).value]) && (Fraction(u).value == 0 <==> Head(u) != 0x2E)
  {
    if Head(u) == 0x2E {
      var n := SpanDigits(u[1..]);
      assert u[..1 + n][1..] == u[1..][..n];
      assert n > 0;
    }
  }

  lemma ExponentFound(w: seq<byte>)
    requires Exponent(w).Some?
    ensures G.ExponentOk(w[..Exponent(w).value]) && (Exponent(w).value == 0 <==> !IsExponent(Head(w)))
  {
    if IsExponent(Head(w)) {
      var sign := if Head(w[1..]) == 0x2B || Head(w[1..]) == 0x2D then 1 else 0;
      var n := SpanDigits(w[1 + sign..]);
      var e := w[..1 + sign + n];
      assert n > 0;
      assert e[1 + sign..] == w[1 + sign..][..n];
      assert e[0] == w[0] && e[1] == w[1..][0];
      if sign == 1 {
        assert G.Digits(e[2..]) && |e| > 2;
      } else {
        assert IsDigit(w[1..][0]) && G.Digits(e[1..]);
      }
    }
  }

  lemma IntFound(minus: bool, d: seq<byte>, value: int)
    requires G.IntegerDigits(d) && INT_MIN <= value <= INT_MAX && forall i :: 0 <= i < |d| ==> IsDigit(d[i])
    requires value == if minus then -(DecimalValue(d) as int) else DecimalValue(d)
    ensures G.Ok(G.IntTree(minus, d)) && G.Signed(minus, d) == value
  {
    DecimalAgrees(d);
  }

  lemma RealFound(s: seq<byte>, minus: bool, d: seq<byte>, u: seq<byte>) returns (t: G.Tree)
    requires G.IntegerDigits(d) && s == G.Minus(minus) + d + u && (Head(u) == 0x2E || IsExponent(Head(u)))
    requires Fraction(u).Some? && Exponent(u[Fraction(u).value..]).Some?
    ensures var w := u[Fraction(u).value..]; var k := Exponent(w).value;
      G.Ok(t) && t.RealTree? && G.TreeText(t) == s[..|s| - |w| + k] && s == G.TreeText(t) + w[k..]
  {
    hide IntegerPart, Fraction, Exponent, G.IntegerDigits, G.FractionOk, G.ExponentOk, IsExponent;
    FractionFound(u);
    var f := u[..Fraction(u).value];
    var w := u[|f|..];
    ExponentFound(w);
    var e := w[..Exponent(w).value];
    assert f == [] ==> w == u;
    t := G.RealTree(minus, d, f, e);
    RealParts(s, minus, d, f, e, w);
  }

  lemma RealParts(s: seq<byte>, minus: bool, d: seq<byte>, f: seq<byte>, e: seq<byte>, w: seq<byte>)
    requires s == G.Minus(minus) + d + (f + w) && |e| <= |w| && e == w[..|e|]
    ensures s[..|s| - |w| + |e|] == G.Minus(minus) + d + f + e
    ensures s == G.Minus(minus) + d + f + e + w[|e|..]
  {
    assert w == e + w[|e|..];
  }

  lemma NumberFound(s: seq<byte>) returns (t: G.Tree)
    requires s != [] && (s[0] == 0x2D || IsDigit(s[0])) && ScanNumber(s).token != Invalid
    ensures G.Ok(t) && s == G.TreeText(t) + ScanNumber(s).rest && (t.IntTree? || t.RealTree?)
    ensures ScanNumber(s).token == if t.IntTree? then Number(G.Signed(t.minus, t.digits)) else RealNumber(G.TreeText(t))
  {
    hide ScanNumber, IntegerPart, Fraction, Exponent, DecimalValue, G.Decimal, G.IntegerDigits, G.FractionOk, G.ExponentOk, IsExponent;
    var minus := s[0] == 0x2D;
    var sign := if minus then 1 else 0;
    var tail := s[sign..];
    NumberToken(s, sign, tail);
    IntegerFound(tail);
    var d := tail[..IntegerPart(tail)];
    var u := tail[|d|..];
    SignInFront(s, minus, tail, d, u);
    if Head(u) != 0x2E && !IsExponent(Head(u)) {
      t := G.IntTree(minus, d);
      IntFound(minus, d, ScanNumber(s).token.i);
    } else {
      t := RealFound(s, minus, d, u);
    }
  }

  lemma SignInFront(s: seq<byte>, minus: bool, tail: seq<byte>, d: seq<byte>, u: seq<byte>)
    requires s != [] && (s[0] == 0x2D <==> minus) && tail == s[if minus then 1 else 0..] && tail == d + u
    ensures s == G.Minus(minus) + d + u
  {
  }

  // ----- values

  /** A value at the next token. */
  lemma AtomFound(s: seq<byte>) returns (w: seq<byte>, t: G.Tree)
    requires var k := Scan(s).token; k.Text? || k.Number? || k.RealNumber? || k.TrueWord? || k.FalseWord? || k.NullWord?
    ensures var first := Scan(s);
      && G.White(w) && G.Ok(t) && !G.IsContainer(t) && s == w + G.TreeText(t) + first.rest
      && ParseValue(first.token, first.rest) == Success(G.TreeValue(t), first.rest)
  {
    var u;
    w, u := SkipWhite(s);
    hide Scan, ScanNumber, SpanAlpha;
    ScanByFirst(u);
    if u[0] == QUOTE {
      var cs := StringFound(u);
      t := G.StringTree(cs);
      assert s == w + G.TreeText(t) + Scan(u).rest;
    } else if u[0] == 0x2D || IsDigit(u[0]) {
      t := NumberFound(u);
    } else {
      t := WordFound(u);
    }
  }

  lemma WordFound(u: seq<byte>) returns (t: G.Tree)
    requires u != [] && IsAlpha(u[0]) && Word(u[..SpanAlpha(u)]) != Invalid
    ensures var n := SpanAlpha(u);
      && (t.NullTree? || t.TrueTree? || t.FalseTree?) && G.TreeText(t) == u[..n]
      && Word(u[..n]) == if t.NullTree? then NullWord else if t.TrueTree? then TrueWord else FalseWord
  {
    hide SpanAlpha;
    var word := Word(u[..SpanAlpha(u)]);
    t := if word == NullWord then G.NullTree else if word == TrueWord then G.TrueTree else G.FalseTree;
  }

  lemma PunctFound(s: seq<byte>) returns (w: seq<byte>)
    requires Scan(s).token.Punct?
    ensures G.White(w) && s == w + [Scan(s).token.c] + Scan(s).rest
  {
    var u;
    w, u := SkipWhite(s);
    hide Scan, ScanNumber, SpanAlpha;
    ScanByFirst(u);
    if u != [] && u[0] == QUOTE {
      var cs := StringFound(u);
    } else if u != [] && (u[0] == 0x2D || IsDigit(u[0])) {
      var t := NumberFound(u);
    }
  }

  /** What is read at the next token is the text of a tree, behind white space. */
  lemma {:induction false} ValueFound(s: seq<byte>, v: Json, rest: seq<byte>) returns (w: seq<byte>, t: G.Tree)
    requires Reads(s, v, rest)
    ensures G.White(w) && G.Ok(t) && s == w + G.TreeText(t) + rest && G.TreeValue(t) == v
    ensures |rest| < |s|
    decreases |s|, 1
  {
    hide Scan, ParseElems, ParseMembers, G.TreeText, G.TreeValue, G.Ok, G.White;
    var first := Scan(s);
    if first.token == Punct(0x5B) {
      w := PunctFound(s);
      t := ArrayFound(first.rest, v, rest);
      Behind(s, w, 0x5B, first.rest, G.TreeText(t), rest);
    } else if first.token == Punct(0x7B) {
      w := PunctFound(s);
      t := ObjectFound(first.rest, v, rest);
      Behind(s, w, 0x7B, first.rest, G.TreeText(t), rest);
    } else {
      w, t := AtomFound(s);
      Shorter(s, w, t, rest);
    }
  }

  lemma Behind(s: seq<byte>, w: seq<byte>, c: byte, t: seq<byte>, text: seq<byte>, rest: seq<byte>)
    requires s == w + [c] + t && [c] + t == text + rest
    ensures s == w + text + rest
  {
    assert s == w + ([c] + t);
  }

  lemma Shorter(s: seq<byte>, w: seq<byte>, t: G.Tree, rest: seq<byte>)
    requires G.Ok(t) && s == w + G.TreeText(t) + rest
    ensures |rest| < |s|
  {
  }

  lemma ArrayFound(s: seq<byte>, v: Json, rest: seq<byte>) returns (t: G.Tree)
    requires ParseValue(Punct(0x5B), s) == Success(v, rest)
    ensures G.Ok(t) && [0x5B] + s == G.TreeText(t) + rest && G.TreeValue(t) == v && |rest| <= |s|
    decreases |s|, 4
  {
    hide Scan, ParseElems, G.ElemsText, G.ElemsValue, G.ElemsOk, G.White;
    var first := Scan(s);
    if first.token == Punct(0x5D) {
      var w := PunctFound(s);
      t := G.EmptyArray(w);
    } else {
      var es := ElemsFound([], s, v, rest);
      t := G.ArrayTree(es);
      assert [] + G.ElemsValue(es) == G.ElemsValue(es);
    }
  }

  lemma ObjectFound(s: seq<byte>, v: Json, rest: seq<byte>) returns (t: G.Tree)
    requires ParseValue(Punct(0x7B), s) == Success(v, rest)
    ensures G.Ok(t) && [0x7B] + s == G.TreeText(t) + rest && G.TreeValue(t) == v && |rest| <= |s|
    decreases |s|, 4
  {
    hide Scan, ParseMembers, G.MembersText, G.MembersValue, G.MembersOk, G.White;
    var first := Scan(s);
    if first.token == Punct(0x7D) {
      var w := PunctFound(s);
      t := G.EmptyObject(w);
    } else {
      var ms := MembersFound([], 0, s, v, rest);
      t := G.ObjectTree(ms);
    }
  }

  /** A value and the separator behind it. */
  lemma ItemFound(s: seq<byte>, v: Json, rest: seq<byte>) returns (x: G.Item)
    requires Reads(s, v, rest) && Scan(rest).token.Punct?
    ensures var sep := Scan(rest);
      && G.ItemOk(x) && s == G.ItemText(x) + [sep.token.c] + sep.rest && G.ItemValue(x) == v && |sep.rest| < |s|
    decreases |s|, 2
  {
    hide Scan, ParseValue, G.TreeText, G.TreeValue, G.Ok, G.White;
    var w, t := ValueFound(s, v, rest);
    var w' := PunctFound(rest);
    x := G.Item(w, t, w');
  }

  /** One round of the array loop. */
  lemma ElemsStep(done: seq<Json>, s: seq<byte>, all: Json, rest: seq<byte>) returns (v: Json, behind: seq<byte>)
    requires ReadsElems(done, s, all, rest)
    ensures Reads(s, v, behind) && Scan(behind).token.Punct?
    ensures var sep := Scan(behind);
      if sep.token == Punct(0x2C) then ReadsElems(done + [v], sep.rest, all, rest)
      else sep == Scanned(Punct(0x5D), rest) && all == Array(done + [v])
  {
    hide Scan;
    var first := Scan(s);
    v, behind := ParseValue(first.token, first.rest).value, ParseValue(first.token, first.rest).rest;
    var sep := Scan(behind);
    if sep.token == Punct(0x2C) {
      var next := Scan(sep.rest);
      assert ParseElems(done + [v], next.token, next.rest) == Success(all, rest);
      assert ParseValue(next.token, next.rest).Success?;
    }
  }

  lemma {:induction false} ElemsFound(done: seq<Json>, s: seq<byte>, all: Json, rest: seq<byte>) returns (es: G.Elems)
    requires ReadsElems(done, s, all, rest)
    ensures G.ElemsOk(es) && s == G.ElemsText(es) + [0x5D] + rest && all == Array(done + G.ElemsValue(es))
    decreases |s|, 3
  {
    hide Scan, Reads, ReadsElems, G.ItemText, G.ItemValue, G.ItemOk, G.ElemsText, G.ElemsValue;
    var v, behind := ElemsStep(done, s, all, rest);
    var sep := Scan(behind);
    var x := ItemFound(s, v, behind);
    if sep.token == Punct(0x2C) {
      var more := ElemsFound(done + [v], sep.rest, all, rest);
      es := G.MoreElems(x, more);
      MoreParts(done, x, more);
      TextThere(s, G.ItemText(x), 0x2C, sep.rest, G.ElemsText(more), 0x5D, rest);
    } else {
      es := G.LastElem(x);
      LastParts(done, x);
    }
  }

  lemma LastParts(done: seq<Json>, x: G.Item)
    requires G.ItemOk(x)
    ensures G.ElemsOk(G.LastElem(x)) && G.ElemsText(G.LastElem(x)) == G.ItemText(x)
    ensures done + G.ElemsValue(G.LastElem(x)) == done + [G.ItemValue(x)]
  {
  }

  lemma TextThere(s: seq<byte>, a: seq<byte>, c: byte, t: seq<byte>, b: seq<byte>, d: byte, rest: seq<byte>)
    requires s == a + [c] + t && t == b + [d] + rest
    ensures s == a + [c] + b + [d] + rest
  {
  }

  /** A key, a colon, a value and the separator behind it. */
  lemma MemberFound(s: seq<byte>, key: seq<byte>, behind: seq<byte>, v: Json, rest: seq<byte>) returns (m: G.Member)
    requires Scan(s) == Scanned(Text(key), behind) && Scan(behind).token == Punct(0x3A)
    requires Reads(Scan(behind).rest, v, rest) && Scan(rest).token.Punct?
    ensures var sep := Scan(rest);
      && G.MemberOk(m) && s == G.MemberText(m) + [sep.token.c] + sep.rest && |sep.rest| < |s|
      && G.CharsBytes(m.key) == key && G.ItemValue(m.value) == v
    decreases |s|, 2
  {
    hide Scan, ParseValue, G.ItemText, G.ItemValue, G.ItemOk, G.CharsText, G.CharsBytes, G.CharsOk, G.White;
    var w, t := AtomFound(s);
    StringValue(key, behind);
    StringTreeFound(t, key);
    var w' := PunctFound(behind);
    var x := ItemFound(Scan(behind).rest, v, rest);
    m := G.Member(w, t.chars, w', x);
  }

  lemma StringValue(key: seq<byte>, s: seq<byte>)
    ensures ParseValue(Text(key), s) == Success(String(key), s)
  {
  }

  lemma StringTreeFound(t: G.Tree, key: seq<byte>)
    requires G.Ok(t) && G.TreeValue(t) == String(key)
    ensures t.StringTree? && G.CharsOk(t.chars) && G.CharsBytes(t.chars) == key
    ensures G.TreeText(t) == [QUOTE] + G.CharsText(t.chars) + [QUOTE]
  {
  }

  /** One round of the object loop. */
  lemma MembersStep(done: seq<Entry<Json>>, serial: nat, s: seq<byte>, all: Json, rest: seq<byte>)
    returns (key: seq<byte>, v: Json, behind: seq<byte>)
    requires ReadsFrom(done, serial, s, all, rest)
    ensures Scan(s).token == Text(key) && Scan(Scan(s).rest).token == Punct(0x3A)
    ensures Reads(Scan(Scan(s).rest).rest, v, behind) && Scan(behind).token.Punct?
    ensures var sep := Scan(behind); var done' := SetMember(done, key, serial, v);
      if sep.token == Punct(0x2C) then ReadsFrom(done', serial + 1, sep.rest, all, rest)
      else sep == Scanned(Punct(0x7D), rest) && all == Object(done')
  {
    hide Scan, SetMember;
    var colon := Scan(Scan(s).rest);
    var start := Scan(colon.rest);
    key := Scan(s).token.s;
    v, behind := ParseValue(start.token, start.rest).value, ParseValue(start.token, start.rest).rest;
    var sep := Scan(behind);
    if sep.token == Punct(0x2C) {
      var next := Scan(sep.rest);
      assert ParseMembers(SetMember(done, key, serial, v), serial + 1, next.token, next.rest) == Success(all, rest);
    }
  }

  lemma {:induction false} MembersFound(done: seq<Entry<Json>>, serial: nat, s: seq<byte>, all: Json, rest: seq<byte>) returns (ms: G.Members)
    requires ReadsFrom(done, serial, s, all, rest)
    ensures G.MembersOk(ms) && s == G.MembersText(ms) + [0x7D] + rest && all == Object(G.MembersValue(ms, done, serial))
    decreases |s|, 3
  {
    hide Scan, Reads, ReadsFrom, G.MemberText, G.ItemValue, G.CharsBytes, G.MembersText, G.MembersValue, SetMember, G.ItemOk, G.CharsOk;
    var key, v, behind := MembersStep(done, serial, s, all, rest);
    var sep := Scan(behind);
    var m := MemberFound(s, key, Scan(s).rest, v, behind);
    if sep.token == Punct(0x2C) {
      var more := MembersFound(SetMember(done, key, serial, v), serial + 1, sep.rest, all, rest);
      ms := G.MoreMembers(m, more);
      FurtherText(m, more);
      FurtherParts(done, serial, m, more);
      TextThere(s, G.MemberText(m), 0x2C, sep.rest, G.MembersText(more), 0x7D, rest);
    } else {
      ms := G.LastMember(m);
      FinalParts(done, serial, m);
    }
  }

  lemma FurtherText(m: G.Member, more: G.Members)
    requires G.MemberOk(m) && G.MembersOk(more)
    ensures G.MembersOk(G.MoreMembers(m, more)) && G.MembersText(G.MoreMembers(m, more)) == G.MemberText(m) + [0x2C] + G.MembersText(more)
  {
  }

  lemma FinalParts(done: seq<Entry<Json>>, serial: nat, m: G.Member)
    requires G.MemberOk(m)
    ensures var ms := G.LastMember(m);
      && G.MembersOk(ms) && G.MembersText(ms) == G.MemberText(m)
      && G.MembersValue(ms, done, serial) == SetMember(done, G.CharsBytes(m.key), serial, G.ItemValue(m.value))
  {
  }

  // ----- whole texts

  /** On every stream the parser gives a value if and only if the grammar does, and the same. */
  lemma ParseIff(s: seq<byte>, v: Json)
    ensures ParseText(s) == Some(v) <==> G.Denotes(s, v)
  {
    hide G.Ok, G.TreeText, G.TreeValue;
    if ParseText(s) == Some(v) {
      var x := WholeFound(s, v);
    }
    if G.Denotes(s, v) {
      var x: G.Item :| G.ItemOk(x) && G.IsContainer(x.tree) && G.ItemText(x) == s && G.ItemValue(x) == v;
      WholeAccepted(x);
    }
  }

  lemma WholeFound(s: seq<byte>, v: Json) returns (x: G.Item)
    requires ParseText(s) == Some(v)
    ensures G.ItemOk(x) && G.IsContainer(x.tree) && G.ItemText(x) == s && G.ItemValue(x) == v
  {
    var first := Scan(s);
    var rest := ParseValue(first.token, first.rest).rest;
    hide Scan, ParseValue, G.TreeText, G.TreeValue, G.Ok;
    assert Reads(s, v, rest);
    var w, t := ValueFound(s, v, rest);
    EofIffBlank(rest);
    x := G.Item(w, t, rest);
    ContainerTree(s, w, t, rest);
  }

  /** What starts with a bracket is an array or an object. */
  lemma ContainerTree(s: seq<byte>, w: seq<byte>, t: G.Tree, rest: seq<byte>)
    requires G.White(w) && G.Ok(t) && s == w + G.TreeText(t) + rest
    requires Scan(s).token == Punct(0x5B) || Scan(s).token == Punct(0x7B)
    ensures G.IsContainer(t)
  {
    hide Scan, G.TreeText, G.Ok;
    WhiteIsSpace(w);
    ScanSkips(w, G.TreeText(t) + rest);
    assert s == w + (G.TreeText(t) + rest);
    if !G.IsContainer(t) {
      AtomStart(t, rest);
    }
  }

  lemma AtomStart(t: G.Tree, rest: seq<byte>)
    requires G.Ok(t) && !G.IsContainer(t)
    ensures !Scan(G.TreeText(t) + rest).token.Punct?
  {
    var s := G.TreeText(t) + rest;
    AtomHead(t, rest);
    hide Scan, ScanNumber, SpanAlpha, ScanString, Decode, G.TreeText, G.Ok;
    ScanByFirst(s);
    if s[0] == QUOTE {
      assert s == [QUOTE] + s[1..];
      StringToken(s[1..]);
    } else if s[0] == 0x2D || IsDigit(s[0]) {
      NumberIsNotPunct(s);
    }
  }

  lemma AtomHead(t: G.Tree, rest: seq<byte>)
    requires G.Ok(t) && !G.IsContainer(t)
    ensures var s := G.TreeText(t) + rest; s != [] && (s[0] == QUOTE || s[0] == 0x2D || IsDigit(s[0]) || IsAlpha(s[0]))
  {
  }

  lemma NumberIsNotPunct(s: seq<byte>)
    requires s != [] && (s[0] == 0x2D || IsDigit(s[0]))
    ensures !ScanNumber(s).token.Punct?
  {
    hide IntegerPart, Fraction, Exponent;
  }

  lemma WholeAccepted(x: G.Item)
    requires G.ItemOk(x) && G.IsContainer(x.tree)
    ensures ParseText(G.ItemText(x)) == Some(G.ItemValue(x))
  {
    Accept(x.tree, x.after);
    hide Scan, ParseValue, G.TreeText, G.TreeValue, G.Ok;
    WhiteIsSpace(x.before);
    WhiteIsSpace(x.after);
    EofIffBlank(x.after);
    var t := G.TreeText(x.tree) + x.after;
    ScanSkips(x.before, t);
    assert G.ItemText(x) == x.before + t;
    BracketStart(x.tree, x.after);
  }

  lemma BracketStart(t: G.Tree, rest: seq<byte>)
    requires G.IsContainer(t)
    ensures var k := Scan(G.TreeText(t) + rest).token; k == Punct(0x5B) || k == Punct(0x7B)
  {
    var s := G.TreeText(t) + rest;
    assert s[0] == 0x5B || s[0] == 0x7B;
    hide Scan, G.TreeText;
    ScanByFirst(s);
  }

  /**
    `json_loads` on every C string of whole characters: it gives a value if and only if the text is
    one of the grammar, and it is the value the text stands for.
    */
  lemma LoadsIff(d: seq<byte>, v: Json)
    requires Valid(d)
    ensures Loads(d) == Some(v) <==> G.Denotes(d, v)
  {
    hide Cook, Trim, ParseText, G.Denotes;
    ValidHasNoEof(d);
    NothingBehind();
    CookBehindValid(d, []);
    TrimBehind(d, Cook([]));
    assert d + [] == d;
    ParseIff(d, v);
  }

  /** On any other C string it goes by what the stream delivers. */
  lemma LoadsAnyIff(d: seq<byte>, v: Json)
    ensures Loads(d) == Some(v) <==> G.Denotes(Trim(Cook(d)), v)
  {
    hide Cook, Trim, ParseText, G.Denotes;
    ParseIff(Trim(Cook(d)), v);
  }
}
