/** `json_loads` accepts exactly the texts of the grammar, and gives the values they stand for. */
module GrammarTheorems {
  import opened Bytes
  import opened Utf8
  import opened JsonValue
  import opened JsonPrint
  import opened JsonParse
  import opened RoundTrip
  import G = JsonGrammar

  // ----- bytes and characters

  lemma WhiteIsSpace(w: seq<byte>)
    requires G.White(w)
    ensures forall i :: 0 <= i < |w| ==> IsSpace(w[i])
  {
  }

  lemma HexAgrees(c: byte)
    ensures G.HexDigit(c) <==> IsHex(c)
    ensures G.HexDigit(c) ==> G.HexNumber(c) == HexValue(c)
  {
  }

  lemma FourAgree(d: seq<byte>)
    requires |d| == 4
    ensures G.FourHex(d) <==> IsHex(d[0]) && IsHex(d[1]) && IsHex(d[2]) && IsHex(d[3])
    ensures G.FourHex(d) ==> G.Number4(d) == EscapeValue(d)
  {
    hide G.HexDigit, IsHex, G.HexNumber, HexValue;
    HexAgrees(d[0]);
    HexAgrees(d[1]);
    HexAgrees(d[2]);
    HexAgrees(d[3]);
  }

  lemma ShortcutAgrees(c: byte)
    ensures G.EscapedByte(c).Some? <==> IsShortcut(c)
    ensures IsShortcut(c) ==> G.EscapedByte(c) == Some(ShortcutValue(c))
  {
  }

  /** One `\u` escape in front of any text. */
  lemma UnicodePieces(d: seq<byte>, t: seq<byte>)
    requires G.FourHex(d)
    ensures var e := [0x5C, 0x75] + d;
      |e| == 6 && Piece(e) == 6 && (e + t)[2..6] == d && (e + t)[1] == 0x75 && (e + t)[0] == BACKSLASH
      && EscapeValue(d) == G.Number4(d)
  {
    FourAgree(d);
    var e := [0x5C, 0x75] + d;
    assert e[2..6] == d && (e + t)[2..6] == e[2..6];
  }

  lemma UnicodeStandsFor(d: seq<byte>)
    requires G.CharOk(G.Unicode(d))
    ensures Stands(G.CharText(G.Unicode(d)), G.CharBytes(G.Unicode(d)))
  {
    var e, bytes := [0x5C, 0x75] + d, Encode(G.Number4(d)).value;
    hide Encode, EscapeValue, G.Number4;
    forall t ensures StandsBefore(e, bytes, t) {
      UnicodePieces(d, t);
      PieceStands(e, t);
      if Body(t) {
        assert DecodePiece(e + t) == Some(Decoded(bytes, 6));
      }
    }
  }

  lemma PairStandsFor(hi: seq<byte>, lo: seq<byte>)
    requires G.CharOk(G.Pair(hi, lo))
    ensures Stands(G.CharText(G.Pair(hi, lo)), G.CharBytes(G.Pair(hi, lo)))
  {
    hide StandsBefore, Encode;
    var e, bytes := G.CharText(G.Pair(hi, lo)), G.CharBytes(G.Pair(hi, lo));
    forall t ensures StandsBefore(e, bytes, t) {
      PairStandsInFront(hi, lo, t);
    }
  }

  lemma PairShape(hi: seq<byte>, lo: seq<byte>)
    requires G.CharOk(G.Pair(hi, lo))
    ensures G.CharText(G.Pair(hi, lo)) == [0x5C, 0x75] + hi + ([0x5C, 0x75] + lo)
    ensures G.FourHex(hi) && G.FourHex(lo) && 0xD800 <= G.Number4(hi) <= 0xDBFF && 0xDC00 <= G.Number4(lo) <= 0xDFFF
    ensures var cp := (G.Number4(hi) - 0xD800) * 0x400 + (G.Number4(lo) - 0xDC00) + 0x10000;
      Encode(cp).Some? && G.CharBytes(G.Pair(hi, lo)) == Encode(cp).value
  {
    hide Encode, G.Number4;
  }

  lemma PairStandsInFront(hi: seq<byte>, lo: seq<byte>, t: seq<byte>)
    requires G.CharOk(G.Pair(hi, lo))
    ensures StandsBefore(G.CharText(G.Pair(hi, lo)), G.CharBytes(G.Pair(hi, lo)), t)
  {
    hide Body, Encode, Decode, DecodePiece, EscapeValue, Piece, ScanString, G.Number4, G.CharText, G.CharBytes, G.CharOk, G.FourHex;
    PairShape(hi, lo);
    var e1, e2 := [0x5C, 0x75] + hi, [0x5C, 0x75] + lo;
    var w := e1 + (e2 + t);
    assert e1 + e2 + t == w;
    UnicodePieces(hi, e2 + t);
    UnicodePieces(lo, t);
    PieceStands(e2, t);
    PieceStands(e1, e2 + t);
    if Body(t) {
      assert w[6..] == e2 + t;
      assert w[7] == (e2 + t)[1];
      DecodePair(w, G.Number4(hi), G.Number4(lo));
      DecodeStep(w);
      assert w[12..] == t;
    }
  }

  lemma CharStands(ch: G.Char)
    requires G.CharOk(ch)
    ensures Stands(G.CharText(ch), G.CharBytes(ch))
  {
    hide Stands;
    match ch
    case Unescaped(b) => PlainStands(b);
    case Escape(c) =>
      ShortcutAgrees(c);
      ShortcutStands(c);
    case Unicode(d) => UnicodeStandsFor(d);
    case Pair(hi, lo) => PairStandsFor(hi, lo);
  }

  lemma {:induction false} CharsStand(cs: seq<G.Char>)
    requires G.CharsOk(cs)
    ensures Stands(G.CharsText(cs), G.CharsBytes(cs))
  {
    if cs == [] {
      EmptyStands();
    } else {
      CharStands(cs[0]);
      CharsStand(cs[1..]);
      hide Stands, G.CharText, G.CharBytes, G.CharOk;
      StandsConcat(G.CharText(cs[0]), G.CharBytes(cs[0]), G.CharsText(cs[1..]), G.CharsBytes(cs[1..]));
    }
  }

  lemma CharsRead(cs: seq<G.Char>, t: seq<byte>)
    requires G.CharsOk(cs) && Head(t) == QUOTE
    ensures var e := G.CharsText(cs); ScanString(e + t) == Some(|e|) && Body(e) && Decode(e) == Some(G.CharsBytes(cs))
  {
    var e, bytes := G.CharsText(cs), G.CharsBytes(cs);
    hide G.CharsText, G.CharsBytes;
    CharsStand(cs);
    assert StandsBefore(e, bytes, t) && StandsBefore(e, bytes, []);
    assert e + [] == e && bytes + [] == bytes;
  }

  lemma ScanChars(cs: seq<G.Char>, rest: seq<byte>)
    requires G.CharsOk(cs)
    ensures Scan([QUOTE] + G.CharsText(cs) + [QUOTE] + rest) == Scanned(Text(G.CharsBytes(cs)), rest)
  {
    hide Scan, ScanString, Decode, G.CharsText, G.CharsBytes, G.CharsOk;
    var e := G.CharsText(cs);
    var t := [QUOTE] + rest;
    CharsRead(cs, t);
    StringToken(e + t);
    assert [QUOTE] + (e + t) == [QUOTE] + e + [QUOTE] + rest;
    assert (e + t)[..|e|] == e && (e + t)[|e| + 1..] == rest;
  }

  // ----- numbers

  lemma {:induction false} DecimalAppend(d: seq<byte>, c: byte)
    requires G.Digits(d) && 0x30 <= c <= 0x39
    ensures G.Digits(d + [c]) && G.Decimal(d + [c]) == 10 * G.Decimal(d) + (c as int - 0x30)
  {
    if d == [] {
      OneDigit(c);
      assert [] + [c] == [c];
    } else {
      DecimalAppend(d[1..], c);
      assert (d + [c])[1..] == d[1..] + [c] && (d + [c])[0] == d[0];
      TenTimes(d[0] as int - 0x30, |d| - 1);
    }
  }

  lemma OneDigit(c: byte)
    requires 0x30 <= c <= 0x39
    ensures G.Digits([c]) && G.Decimal([c]) == c as int - 0x30
  {
    assert [c][1..] == [];
    assert G.Pow10(0) == 1;
  }

  lemma TenTimes(x: int, n: nat)
    ensures x * G.Pow10(n + 1) == 10 * (x * G.Pow10(n))
  {
    var y := G.Pow10(n);
    assert G.Pow10(n + 1) == 10 * y;
    assert x * (10 * y) == 10 * (x * y);
  }

  lemma {:induction false} DecimalAgrees(d: seq<byte>)
    requires G.Digits(d)
    ensures forall i :: 0 <= i < |d| ==> IsDigit(d[i])
    ensures DecimalValue(d) == G.Decimal(d)
  {
    if d != [] {
      var n := |d| - 1;
      DecimalAgrees(d[..n]);
      DecimalAppend(d[..n], d[n]);
      assert d == d[..n] + [d[n]];
    }
  }

  lemma IntegerPartOf(d: seq<byte>, rest: seq<byte>)
    requires G.IntegerDigits(d) && !IsDigit(Head(rest))
    ensures IntegerPart(d + rest) == |d|
  {
    SpanDigitsOf(d, rest);
    assert (d + rest)[1..] == d[1..] + rest;
    if d[0] == 0x30 {
      assert d[1..] == [] && d[1..] + rest == rest;
    } else {
      assert (d + rest)[0] == d[0];
    }
  }

  lemma MinusInFront(minus: bool, t: seq<byte>)
    requires t != [] && IsDigit(t[0])
    ensures var s := G.Minus(minus) + t; var sign := if minus then 1 else 0;
      |s| == sign + |t| && s[sign..] == t && (if minus then s[0] == 0x2D else IsDigit(s[0])) && (s[0] == 0x2D <==> minus)
  {
  }

  lemma ReadInt(minus: bool, d: seq<byte>, rest: seq<byte>)
    requires G.Ok(G.IntTree(minus, d)) && rest != [] && Delimits(rest[0])
    ensures Reads(G.Minus(minus) + d + rest, Integer(G.Signed(minus, d)), rest)
  {
    hide Scan, ScanNumber, IntegerPart, DecimalValue, G.Decimal;
    var s := G.Minus(minus) + d + rest;
    assert s == G.Minus(minus) + (d + rest) && (d + rest)[0] == d[0];
    DecimalAgrees(d);
    IntegerPartOf(d, rest);
    MinusInFront(minus, d + rest);
    ScanNumberOf(s, if minus then 1 else 0, d, rest);
    ScanOfNumber(s);
  }

  lemma FractionOf(f: seq<byte>, rest: seq<byte>)
    requires G.FractionOk(f) && !IsDigit(Head(rest)) && (f == [] ==> Head(rest) != 0x2E)
    ensures Fraction(f + rest) == Some(|f|) && (f + rest)[|f|..] == rest
  {
    if f != [] {
      assert (f + rest)[1..] == f[1..] + rest && (f + rest)[0] == f[0];
      SpanDigitsOf(f[1..], rest);
    } else {
      assert f + rest == rest;
    }
  }

  lemma ExponentOf(e: seq<byte>, rest: seq<byte>)
    requires G.ExponentOk(e) && !IsDigit(Head(rest)) && (e == [] ==> !IsExponent(Head(rest)))
    ensures Exponent(e + rest) == Some(|e|) && (e + rest)[|e|..] == rest
  {
    hide SpanDigits;
    if e == [] {
      assert e + rest == rest;
    } else {
      var sign := if e[1] == 0x2B || e[1] == 0x2D then 1 else 0;
      var digits := e[1 + sign..];
      assert (e + rest)[1..] == e[1..] + rest;
      assert (e + rest)[1 + sign..] == digits + rest;
      SpanDigitsOf(digits, rest);
    }
  }

  lemma RealHeads(f: seq<byte>, e: seq<byte>, rest: seq<byte>)
    requires G.FractionOk(f) && G.ExponentOk(e) && (f != [] || e != []) && rest != [] && Delimits(rest[0])
    ensures !IsDigit(Head(rest)) && !IsExponent(Head(rest))
    ensures !IsDigit(Head(e + rest)) && (f == [] ==> Head(e + rest) != 0x2E)
    ensures !IsDigit(Head(f + (e + rest))) && (Head(f + (e + rest)) == 0x2E || IsExponent(Head(f + (e + rest))))
  {
    if f == [] {
      assert f + (e + rest) == e + rest;
    }
  }

  /** The parts of a number with a fraction or an exponent. */
  lemma RealTokenIs(s: seq<byte>, sign: nat, t: seq<byte>, u: seq<byte>, w: seq<byte>, k: nat)
    requires s != [] && (s[0] == 0x2D || IsDigit(s[0])) && sign == (if s[0] == 0x2D then 1 else 0) && t == s[sign..]
    requires 0 < IntegerPart(t) && u == t[IntegerPart(t)..] && (Head(u) == 0x2E || IsExponent(Head(u)))
    requires Fraction(u).Some? && w == u[Fraction(u).value..] && Exponent(w) == Some(k)
    ensures |w| <= |s| && ScanNumber(s) == Scanned(RealNumber(s[..|s| - |w| + k]), w[k..])
  {
    hide ScanNumber, IntegerPart, Fraction, Exponent, IsExponent;
    NumberToken(s, sign, t);
  }

  /** The number in front of `rest`, taken apart from its end. */
  lemma RealPieces(d: seq<byte>, f: seq<byte>, e: seq<byte>, rest: seq<byte>)
    requires G.IntegerDigits(d) && G.FractionOk(f) && G.ExponentOk(e) && (f != [] || e != []) && rest != [] && Delimits(rest[0])
    ensures var w := e + rest; var u := f + w; var t := d + u;
      && t != [] && IsDigit(t[0]) && IntegerPart(t) == |d| > 0 && t[|d|..] == u && (Head(u) == 0x2E || IsExponent(Head(u)))
      && Fraction(u) == Some(|f|) && u[|f|..] == w && Exponent(w) == Some(|e|) && w[|e|..] == rest
  {
    hide IntegerPart, Fraction, Exponent, SpanDigits, G.FractionOk, G.ExponentOk, G.IntegerDigits, Delimits, IsExponent;
    RealHeads(f, e, rest);
    IntegerHead(d, f + (e + rest));
    FractionOf(f, e + rest);
    ExponentOf(e, rest);
    IntegerPartOf(d, f + (e + rest));
  }

  lemma ScanReal(minus: bool, d: seq<byte>, f: seq<byte>, e: seq<byte>, rest: seq<byte>)
    requires G.IntegerDigits(d) && G.FractionOk(f) && G.ExponentOk(e) && (f != [] || e != []) && rest != [] && Delimits(rest[0])
    ensures Scan(G.Minus(minus) + d + f + e + rest) == Scanned(RealNumber(G.Minus(minus) + d + f + e), rest)
  {
    hide Scan, ScanNumber, IntegerPart, Fraction, Exponent, SpanDigits, G.FractionOk, G.ExponentOk, G.IntegerDigits, Delimits, IsExponent, G.Minus;
    RealPieces(d, f, e, rest);
    var w := e + rest;
    var u := f + w;
    var t := d + u;
    MinusInFront(minus, t);
    RealText(G.Minus(minus), d, f, e, rest);
    RealTokenIs(G.Minus(minus) + t, if minus then 1 else 0, t, u, w, |e|);
    ScanOfNumber(G.Minus(minus) + t);
  }

  lemma RealText(m: seq<byte>, d: seq<byte>, f: seq<byte>, e: seq<byte>, rest: seq<byte>)
    ensures var s := m + (d + (f + (e + rest)));
      s == m + d + f + e + rest && s[..|s| - |e + rest| + |e|] == m + d + f + e
  {
    var s := m + (d + (f + (e + rest)));
    assert s == m + d + f + e + rest;
  }

  lemma IntegerHead(d: seq<byte>, u: seq<byte>)
    requires G.IntegerDigits(d)
    ensures d + u != [] && IsDigit((d + u)[0]) && |d| > 0 && (d + u)[|d|..] == u
  {
  }

  lemma WordTree(t: G.Tree, rest: seq<byte>)
    requires (t.NullTree? || t.TrueTree? || t.FalseTree?) && rest != [] && Delimits(rest[0])
    ensures Reads(G.TreeText(t) + rest, G.TreeValue(t), rest)
  {
    ScanWord(G.TreeText(t), rest);
  }

  // ----- every text of the grammar is accepted

  lemma {:induction false} Accept(t: G.Tree, rest: seq<byte>)
    requires G.Ok(t) && (G.IsContainer(t) || (rest != [] && Delimits(rest[0])))
    ensures Reads(G.TreeText(t) + rest, G.TreeValue(t), rest)
    decreases t, 1
  {
    hide Scan, Delimits, G.CharsText, G.CharsBytes, G.ElemsText, G.MembersText, G.ElemsValue, G.MembersValue, ReadsElems, ReadsFrom;
    match t
    case IntTree(minus, d) => ReadInt(minus, d, rest);
    case RealTree(minus, d, f, e) => ScanReal(minus, d, f, e, rest);
    case StringTree(cs) => ScanChars(cs, rest);
    case EmptyArray(w) => AcceptEmpty(0x5B, w, 0x5D, rest);
    case EmptyObject(w) => AcceptEmpty(0x7B, w, 0x7D, rest);
    case ArrayTree(es) =>
      AcceptElems([], es, rest);
      OpenArray(es, rest);
    case ObjectTree(ms) =>
      AcceptMembers([], 0, ms, rest);
      OpenObject(ms, rest);
    case _ => WordTree(t, rest);
  }

  lemma AcceptEmpty(left: byte, w: seq<byte>, right: byte, rest: seq<byte>)
    requires G.White(w) && IsPunct(left) && IsPunct(right)
    ensures Scan([left] + w + [right] + rest).token == Punct(left)
    ensures Scan(Scan([left] + w + [right] + rest).rest) == Scanned(Punct(right), rest)
  {
    hide Scan;
    assert [left] + w + [right] + rest == [left] + (w + ([right] + rest));
    ScanPunct(left, w + ([right] + rest));
    WhiteIsSpace(w);
    ScanSkips(w, [right] + rest);
    ScanPunct(right, rest);
  }

  lemma OpenArray(es: G.Elems, rest: seq<byte>)
    requires G.ElemsOk(es)
    requires ReadsElems([], G.ElemsText(es) + [0x5D] + rest, Array([] + G.ElemsValue(es)), rest)
    ensures Reads(G.TreeText(G.ArrayTree(es)) + rest, Array(G.ElemsValue(es)), rest)
  {
    hide Scan, ParseElems, G.ElemsText, G.ElemsValue;
    var body := G.ElemsText(es) + [0x5D] + rest;
    assert [] + G.ElemsValue(es) == G.ElemsValue(es);
    assert G.TreeText(G.ArrayTree(es)) + rest == [0x5B] + body;
    ScanPunct(0x5B, body);
  }

  lemma OpenObject(ms: G.Members, rest: seq<byte>)
    requires G.MembersOk(ms)
    requires ReadsFrom([], 0, G.MembersText(ms) + [0x7D] + rest, Object(G.MembersValue(ms, [], 0)), rest)
    ensures Reads(G.TreeText(G.ObjectTree(ms)) + rest, Object(G.MembersValue(ms, [], 0)), rest)
  {
    hide Scan, ParseMembers, G.MembersText, G.MembersValue;
    var body := G.MembersText(ms) + [0x7D] + rest;
    assert G.TreeText(G.ObjectTree(ms)) + rest == [0x7B] + body;
    ScanPunct(0x7B, body);
  }

  /** An item in front of a comma or a closing bracket. */
  lemma AcceptItem(x: G.Item, rest: seq<byte>)
    requires G.ItemOk(x) && rest != [] && Delimits(rest[0])
    ensures Reads(G.ItemText(x) + rest, G.ItemValue(x), x.after + rest) && Scan(x.after + rest) == Scan(rest)
    decreases x, 0
  {
    hide Scan, Reads, G.TreeText, G.TreeValue, G.Ok;
    var after := x.after + rest;
    WhiteIsSpace(x.before);
    WhiteIsSpace(x.after);
    assert Delimits(after[0]);
    Accept(x.tree, after);
    ScanSkips(x.after, rest);
    ReadsBehindWhite(x.before, G.TreeText(x.tree) + after, G.TreeValue(x.tree), after);
    assert G.ItemText(x) + rest == x.before + (G.TreeText(x.tree) + after);
  }

  lemma ReadsBehindWhite(w: seq<byte>, s: seq<byte>, v: Json, rest: seq<byte>)
    requires Reads(s, v, rest) && forall i :: 0 <= i < |w| ==> IsSpace(w[i])
    ensures Reads(w + s, v, rest)
  {
    hide Scan;
    ScanSkips(w, s);
  }

  lemma {:induction false} AcceptElems(done: seq<Json>, es: G.Elems, rest: seq<byte>)
    requires G.ElemsOk(es)
    ensures ReadsElems(done, G.ElemsText(es) + [0x5D] + rest, Array(done + G.ElemsValue(es)), rest)
    decreases es, 0
  {
    hide Scan, ReadsElems, Reads, G.ItemText, G.ItemValue, G.ElemsText, G.ElemsValue, G.ItemOk;
    match es {
      case LastElem(x) =>
        AcceptItem(x, [0x5D] + rest);
        LastItem(done, x, rest);
      case MoreElems(x, more) =>
        AcceptItem(x, [0x2C] + (G.ElemsText(more) + [0x5D] + rest));
        AcceptElems(done + [G.ItemValue(x)], more, rest);
        NextItem(done, x, more, rest);
    }
  }

  lemma LastItem(done: seq<Json>, x: G.Item, rest: seq<byte>)
    requires G.ElemsOk(G.LastElem(x)) && G.ItemOk(x)
    requires var after := x.after + ([0x5D] + rest);
      Reads(G.ItemText(x) + ([0x5D] + rest), G.ItemValue(x), after) && Scan(after) == Scan([0x5D] + rest)
    ensures ReadsElems(done, G.ElemsText(G.LastElem(x)) + [0x5D] + rest, Array(done + G.ElemsValue(G.LastElem(x))), rest)
  {
    hide Scan, ReadsElems, Reads, G.ItemText, G.ItemValue, G.ItemOk;
    ScanPunct(0x5D, rest);
    LastElem(done, G.ItemText(x) + ([0x5D] + rest), G.ItemValue(x), x.after + ([0x5D] + rest), rest);
    assert G.ElemsText(G.LastElem(x)) + [0x5D] + rest == G.ItemText(x) + ([0x5D] + rest);
  }

  lemma NextItem(done: seq<Json>, x: G.Item, more: G.Elems, rest: seq<byte>)
    requires G.ElemsOk(G.MoreElems(x, more)) && G.ItemOk(x) && G.ElemsOk(more)
    requires var tail := G.ElemsText(more) + [0x5D] + rest; var after := x.after + ([0x2C] + tail);
      && Reads(G.ItemText(x) + ([0x2C] + tail), G.ItemValue(x), after) && Scan(after) == Scan([0x2C] + tail)
      && ReadsElems(done + [G.ItemValue(x)], tail, Array(done + [G.ItemValue(x)] + G.ElemsValue(more)), rest)
    ensures var es := G.MoreElems(x, more);
      ReadsElems(done, G.ElemsText(es) + [0x5D] + rest, Array(done + G.ElemsValue(es)), rest)
  {
    hide Scan, ReadsElems, Reads, G.ItemText, G.ItemValue, G.ElemsText, G.ElemsValue, G.ItemOk, G.ElemsOk;
    var es := G.MoreElems(x, more);
    var v, tail := G.ItemValue(x), G.ElemsText(more) + [0x5D] + rest;
    MoreParts(done, x, more);
    ScanPunct(0x2C, tail);
    NextElem(done, G.ItemText(x) + ([0x2C] + tail), v, x.after + ([0x2C] + tail), Array(done + [v] + G.ElemsValue(more)), rest);
    assert G.ElemsText(es) + [0x5D] + rest == G.ItemText(x) + ([0x2C] + tail);
  }

  lemma MoreParts(done: seq<Json>, x: G.Item, more: G.Elems)
    requires G.ElemsOk(G.MoreElems(x, more)) && G.ItemOk(x) && G.ElemsOk(more)
    ensures var es := G.MoreElems(x, more);
      && done + [G.ItemValue(x)] + G.ElemsValue(more) == done + G.ElemsValue(es)
      && G.ElemsText(es) == G.ItemText(x) + [0x2C] + G.ElemsText(more)
  {
    hide G.ItemText, G.ItemValue;
    assert done + ([G.ItemValue(x)] + G.ElemsValue(more)) == done + [G.ItemValue(x)] + G.ElemsValue(more);
  }

  /** The loop of `parse_object` goes on at the next token of `s`, with the number `serial` for the next key, and ends with `v`. */
  ghost predicate ReadsFrom(done: seq<Entry<Json>>, serial: nat, s: seq<byte>, v: Json, rest: seq<byte>) {
    var first := Scan(s);
    first.token.Text? && ParseMembers(done, serial, first.token, first.rest) == Success(v, rest)
  }

  lemma LastFrom(done: seq<Entry<Json>>, serial: nat, key: seq<byte>, s: seq<byte>, s': seq<byte>, v: Json, after: seq<byte>, rest: seq<byte>)
    requires ReadsKey(s, key, s') && Reads(s', v, after) && Scan(after) == Scanned(Punct(0x7D), rest)
    ensures ReadsFrom(done, serial, s, Object(SetMember(done, key, serial, v)), rest)
  {
    hide Scan, SetMember;
  }

  lemma NextFrom(done: seq<Entry<Json>>, serial: nat, key: seq<byte>, s: seq<byte>, s': seq<byte>, v: Json, after: seq<byte>, all: Json, rest: seq<byte>)
    requires ReadsKey(s, key, s') && Reads(s', v, after) && Scan(after).token == Punct(0x2C)
    requires ReadsFrom(SetMember(done, key, serial, v), serial + 1, Scan(after).rest, all, rest)
    ensures ReadsFrom(done, serial, s, all, rest)
  {
    hide Scan, SetMember;
  }

  /** A key up to its colon. */
  function KeyText(m: G.Member): seq<byte> {
    m.before + [QUOTE] + G.CharsText(m.key) + [QUOTE] + m.after + [0x3A]
  }

  lemma AcceptKey(m: G.Member, s: seq<byte>)
    requires G.MemberOk(m)
    ensures ReadsKey(KeyText(m) + s, G.CharsBytes(m.key), s)
  {
    hide Scan, G.CharsText, G.CharsBytes, G.CharsOk;
    var t := m.after + ([0x3A] + s);
    var quoted := [QUOTE] + G.CharsText(m.key) + [QUOTE];
    assert KeyText(m) + s == m.before + (quoted + t);
    WhiteIsSpace(m.before);
    WhiteIsSpace(m.after);
    ScanSkips(m.before, quoted + t);
    ScanChars(m.key, t);
    ScanSkips(m.after, [0x3A] + s);
    ScanPunct(0x3A, s);
  }

  lemma {:induction false} AcceptMembers(done: seq<Entry<Json>>, serial: nat, ms: G.Members, rest: seq<byte>)
    requires G.MembersOk(ms)
    ensures ReadsFrom(done, serial, G.MembersText(ms) + [0x7D] + rest, Object(G.MembersValue(ms, done, serial)), rest)
    decreases ms, 0
  {
    hide Scan, ReadsFrom, Reads, G.ItemText, G.ItemValue, G.MembersText, G.MembersValue, G.ItemOk, G.CharsOk;
    match ms {
      case LastMember(m) =>
        AcceptItem(m.value, [0x7D] + rest);
        FinalMember(done, serial, m, rest);
      case MoreMembers(m, more) =>
        AcceptItem(m.value, [0x2C] + (G.MembersText(more) + [0x7D] + rest));
        AcceptMembers(G.WithMember(m, done, serial), serial + 1, more, rest);
        FurtherMember(done, serial, m, more, rest);
    }
  }

  lemma FinalMember(done: seq<Entry<Json>>, serial: nat, m: G.Member, rest: seq<byte>)
    requires G.MemberOk(m) && G.MembersOk(G.LastMember(m))
    requires var after := m.value.after + ([0x7D] + rest);
      Reads(G.ItemText(m.value) + ([0x7D] + rest), G.ItemValue(m.value), after) && Scan(after) == Scan([0x7D] + rest)
    ensures var ms := G.LastMember(m);
      ReadsFrom(done, serial, G.MembersText(ms) + [0x7D] + rest, Object(G.MembersValue(ms, done, serial)), rest)
  {
    hide Scan, ReadsFrom, Reads, ReadsKey, G.ItemText, G.ItemValue, G.CharsText, G.CharsBytes, SetMember, G.ItemOk, G.CharsOk;
    var s' := G.ItemText(m.value) + ([0x7D] + rest);
    AcceptKey(m, s');
    ScanPunct(0x7D, rest);
    LastFrom(done, serial, G.CharsBytes(m.key), KeyText(m) + s', s', G.ItemValue(m.value), m.value.after + ([0x7D] + rest), rest);
    assert G.MembersText(G.LastMember(m)) + [0x7D] + rest == KeyText(m) + s';
  }

  lemma FurtherMember(done: seq<Entry<Json>>, serial: nat, m: G.Member, more: G.Members, rest: seq<byte>)
    requires G.MemberOk(m) && G.MembersOk(more) && G.MembersOk(G.MoreMembers(m, more))
    requires var tail := G.MembersText(more) + [0x7D] + rest; var after := m.value.after + ([0x2C] + tail);
      var done' := G.WithMember(m, done, serial);
      && Reads(G.ItemText(m.value) + ([0x2C] + tail), G.ItemValue(m.value), after) && Scan(after) == Scan([0x2C] + tail)
      && ReadsFrom(done', serial + 1, tail, Object(G.MembersValue(more, done', serial + 1)), rest)
    ensures var ms := G.MoreMembers(m, more);
      ReadsFrom(done, serial, G.MembersText(ms) + [0x7D] + rest, Object(G.MembersValue(ms, done, serial)), rest)
  {
    hide Scan, ReadsFrom, Reads, ReadsKey, G.ItemText, G.ItemValue, G.CharsText, G.CharsBytes, SetMember, G.MembersValue, G.MembersText,
      G.ItemOk, G.CharsOk, G.MembersOk;
    FurtherParts(done, serial, m, more);
    var tail := G.MembersText(more) + [0x7D] + rest;
    var all := Object(G.MembersValue(more, G.WithMember(m, done, serial), serial + 1));
    var s' := G.ItemText(m.value) + ([0x2C] + tail);
    AcceptKey(m, s');
    ScanPunct(0x2C, tail);
    NextFrom(done, serial, G.CharsBytes(m.key), KeyText(m) + s', s', G.ItemValue(m.value), m.value.after + ([0x2C] + tail), all, rest);
    assert G.MembersText(G.MoreMembers(m, more)) + [0x7D] + rest == KeyText(m) + s';
  }

  lemma FurtherParts(done: seq<Entry<Json>>, serial: nat, m: G.Member, more: G.Members)
    requires G.MemberOk(m) && G.MembersOk(more) && G.MembersOk(G.MoreMembers(m, more))
    ensures var ms := G.MoreMembers(m, more);
      && G.MembersText(ms) == KeyText(m) + G.ItemText(m.value) + [0x2C] + G.MembersText(more)
      && G.MembersValue(ms, done, serial) == G.MembersValue(more, G.WithMember(m, done, serial), serial + 1)
  {
    hide G.ItemText, G.CharsText, G.CharsBytes, G.ItemValue, SetMember;
  }
}
