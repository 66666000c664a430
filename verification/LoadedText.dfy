/** Every string and key that `json_loads` hands out would have passed the checked constructors. */
module LoadedText {
  import opened Bytes
  import opened Utf8
  import opened JsonValue
  import opened JsonParse
  import opened RoundTrip

  /** A stream `stream_get` can deliver: ASCII, EOF characters and whole multi-byte sequences. */
  predicate Cooked(s: seq<byte>) {
    || s == []
    || ((s[0] < 0x80 || s[0] == EOF_CHAR) && s[0] != NUL && Cooked(s[1..]))
    || (s[0] >= 0x80 && FirstUnit(s).Some? && Cooked(s[FirstUnit(s).value.count..]))
  }

  lemma {:induction false} CookedConcatUnit(b: seq<byte>, t: seq<byte>)
    requires 2 <= |b| <= 4 && CheckFirst(b[0]) == |b| && CheckFull(b).Some? && Cooked(t)
    ensures Cooked(b + t)
  {
    assert b[..|b|] == b;
    FirstUnitOfConcat(b, t);
    assert (b + t)[|b|..] == t;
  }

  /** What the stream delivers for a C string. */
  lemma {:induction false} CookIsCooked(d: seq<byte>)
    requires NulFree(d)
    ensures Cooked(Cook(d))
    decreases |d|
  {
    if d == [] {
    } else if d[0] < 0x80 || d[0] == EOF_CHAR {
      CookIsCooked(d[1..]);
    } else {
      var count := CheckFirst(d[0]);
      if count == 0 {
        CookIsCooked(d[1..]);
      } else if count <= |d| {
        CookIsCooked(d[count..]);
        if CheckFull(d[..count]).Some? {
          CookedConcatUnit(d[..count], Cook(d[count..]));
        }
      }
    }
  }

  lemma {:induction false} TrimIsCooked(s: seq<byte>)
    requires Cooked(s)
    ensures Cooked(Trim(s))
    decreases |s|
  {
    if s != [] && s[|s| - 1] == EOF_CHAR {
      if s[0] < 0x80 || s[0] == EOF_CHAR {
        if |s| > 1 {
          TrimIsCooked(s[1..]);
          assert s[1..][|s| - 2] == s[|s| - 1];
          assert s[..|s| - 1][1..] == s[1..][..|s| - 2];
        }
      } else {
        var n := FirstUnit(s).value.count;
        UnitBytes(s);
        assert n < |s|;
        TrimIsCooked(s[n..]);
        var t := s[..|s| - 1];
        assert t[..n] == s[..n] && t[n..] == s[n..][..|s| - n - 1];
        assert s[n..][|s| - n - 1] == s[|s| - 1];
      }
    }
  }

  /** The bytes of a multi-byte unit are all copied by the string scanner. */
  lemma UnitBytes(s: seq<byte>)
    requires s != [] && s[0] >= 0x80 && FirstUnit(s).Some?
    ensures FirstUnit(s).value.count >= 2 && FirstUnit(s).value.cp > 0x7F
    ensures forall i :: 0 <= i < FirstUnit(s).value.count ==> Plain(s[i]) && s[i] >= 0x80
    ensures GoodText(s[..FirstUnit(s).value.count])
  {
    var Unit(cp, n) := FirstUnit(s).value;
    ReadThenEncode(s);
    assert CheckFirst(s[0]) == n;
    var b := s[..n];
    forall i | 0 <= i < n ensures Plain(b[i]) && b[i] >= 0x80 {
      if i > 0 {
        assert Continuation(b[i]);
      }
    }
    assert b[..n] == b && b[n..] == [];
    assert FirstUnit(b) == FirstUnit(s);
  }

  lemma {:induction false} CookedBehindAscii(s: seq<byte>, n: nat)
    requires Cooked(s) && n <= |s| && forall i :: 0 <= i < n ==> s[i] < 0x80
    ensures Cooked(s[n..])
  {
    if n > 0 {
      CookedBehindAscii(s[1..], n - 1);
      assert s[1..][n - 1..] == s[n..];
    }
  }

  lemma GoodConcat(a: seq<byte>, b: seq<byte>)
    requires GoodText(a) && GoodText(b)
    ensures GoodText(a + b)
  {
    ValidConcat(a, b);
  }

  lemma GoodEncoding(cp: int)
    requires Scalar(cp) && cp != 0
    ensures GoodText(Encode(cp).value)
  {
    var b := Encode(cp).value;
    EncodingCarriesValue(cp);
    EncodeThenRead(cp, []);
    assert b + [] == b && b[|b|..] == [];
  }

  lemma PieceAscii(s: seq<byte>)
    requires s != [] && s[0] < 0x80
    ensures forall i :: 0 <= i < Piece(s) ==> s[i] < 0x80
  {
  }

  /** The scan goes on behind the first piece. */
  lemma BehindPiece(s: seq<byte>, n: nat)
    requires ScanString(s) == Some(n) && n > 0
    ensures 1 <= Piece(s) <= n && ScanString(s[Piece(s)..]) == Some(n - Piece(s)) && Piece(s[..n]) == Piece(s)
    ensures s[Piece(s)..][..n - Piece(s)] == s[..n][Piece(s)..]
  {
    var p := Piece(s);
    var m := ScanString(s[p..]).value;
    assert n == p + m;
  }

  /** What an escape or an ASCII character stands for is good text. */
  lemma PieceGood(b: seq<byte>)
    requires b != [] && Body(b) && b[0] < 0x80 && b[0] != NUL && DecodePiece(b).Some?
    ensures GoodText(DecodePiece(b).value.bytes)
  {
    assert Piece(b) > 0;
    hide Encode, Valid, Body;
    if b[0] != BACKSLASH {
      GoodAscii(b[0]);
    } else if b[1] != 0x75 {
      GoodAscii(ShortcutValue(b[1]));
    } else {
      EscapeGood(b);
    }
  }

  lemma GoodAscii(c: byte)
    requires 0 < c < 0x80
    ensures GoodText([c])
  {
  }

  lemma EscapeGood(b: seq<byte>)
    requires b != [] && Body(b) && b[0] == BACKSLASH && b[1] == 0x75 && DecodePiece(b).Some?
    ensures GoodText(DecodePiece(b).value.bytes)
  {
    assert Piece(b) == 6 && Body(b[6..]);
    var value := EscapeValue(b[2..6]);
    if 0xD800 <= value <= 0xDBFF {
      assert Piece(b[6..]) == 6;
      hide Encode, Valid, Body;
      GoodEncoding((value - 0xD800) * 0x400 + (EscapeValue(b[6..][2..6]) - 0xDC00) + 0x10000);
    } else {
      hide Encode, Valid, Body;
      GoodEncoding(value);
    }
  }

  ghost function Prepend(u: seq<byte>, d: Option<seq<byte>>): Option<seq<byte>> {
    if d.Some? then Some(u + d.value) else None
  }

  lemma PrependPrepend(u: seq<byte>, w: seq<byte>, d: Option<seq<byte>>)
    ensures Prepend(u, Prepend(w, d)) == Prepend(u + w, d) && Prepend([], d) == d
  {
    if d.Some? {
      assert u + (w + d.value) == u + w + d.value && [] + d.value == d.value;
    }
  }

  /** Both passes copy a plain byte and go on behind it. */
  lemma BehindPlainByte(s: seq<byte>, n: nat)
    requires s != [] && Plain(s[0]) && ScanString(s) == Some(n)
    ensures n >= 1 && ScanString(s[1..]) == Some(n - 1)
    ensures Decode(s[..n]) == Prepend([s[0]], Decode(s[1..][..n - 1]))
  {
    BehindPiece(s, n);
    assert Piece(s) == 1;
    assert s[1..][..n - 1] == s[..n][1..];
    assert DecodePiece(s[..n]) == Some(Decoded([s[0]], 1));
  }

  /** Both passes copy plain bytes and go on behind them. */
  lemma {:induction false} BehindPlain(s: seq<byte>, c: nat, n: nat)
    requires c <= |s| && (forall i :: 0 <= i < c ==> Plain(s[i])) && ScanString(s) == Some(n)
    ensures c <= n && ScanString(s[c..]) == Some(n - c)
    ensures Decode(s[..n]) == Prepend(s[..c], Decode(s[c..][..n - c]))
    decreases c
  {
    hide Decode, ScanString, Body, Prepend, Plain;
    if c == 0 {
      assert s[0..] == s && s[..0] == [];
      PrependPrepend([], [], Decode(s[..n]));
    } else {
      BehindPlainByte(s, n);
      BehindPlain(s[1..], c - 1, n - 1);
      var rest := Decode(s[c..][..n - c]);
      assert s[1..][c - 1..] == s[c..];
      assert Decode(s[1..][..n - 1]) == Prepend(s[1..][..c - 1], rest);
      PrependPrepend([s[0]], s[1..][..c - 1], rest);
      assert [s[0]] + s[1..][..c - 1] == s[..c];
    }
  }

  /** Behind the closing quote the stream goes on with whole characters. */
  lemma {:induction false} CookedBehindString(s: seq<byte>, n: nat)
    requires Cooked(s) && ScanString(s) == Some(n)
    ensures Cooked(s[n + 1..])
    decreases |s|, 1
  {
    hide ScanString, Decode, Body, Piece, Cooked, Plain, GoodText;
    ScanStarts(s, n);
    if n == 0 {
      CookedBehindAscii(s, 1);
    } else if s[0] >= 0x80 {
      UnitIsWhole(s);
      UnitBytes(s);
      CookedBehindBytes(s, n, FirstUnit(s).value.count);
    } else {
      CookedBehindPiece(s, n);
      CookedBehindString(s[Piece(s)..], n - Piece(s));
    }
  }

  /** The same when the first `k` bytes are the rest of a character. */
  lemma {:induction false} CookedBehindBytes(s: seq<byte>, n: nat, k: nat)
    requires 1 <= k <= |s| && (forall i :: 0 <= i < k ==> Plain(s[i])) && Cooked(s[k..]) && ScanString(s) == Some(n)
    ensures Cooked(s[n + 1..])
    decreases |s|, 0
  {
    hide ScanString, Cooked, Plain;
    StepPlain(s, n, k);
    if k == 1 {
      CookedBehindString(s[1..], n - 1);
    } else {
      CookedBehindBytes(s[1..], n - 1, k - 1);
    }
  }

  lemma StepPlain(s: seq<byte>, n: nat, k: nat)
    requires 1 <= k <= |s| && (forall i :: 0 <= i < k ==> Plain(s[i])) && Cooked(s[k..]) && ScanString(s) == Some(n)
    ensures n >= 1 && ScanString(s[1..]) == Some(n - 1) && if k == 1 then Cooked(s[1..]) else Cooked(s[1..][k - 1..])
    ensures s[1..][n - 1 + 1..] == s[n + 1..]
    ensures forall i :: 0 <= i < k - 1 ==> Plain(s[1..][i])
  {
    hide ScanString, Cooked, Decode, Body, Plain;
    BehindPlainByte(s, n);
    assert s[1..][k - 1..] == s[k..];
  }

  lemma ScanStarts(s: seq<byte>, n: nat)
    requires ScanString(s) == Some(n)
    ensures s != [] && if n == 0 then s[0] == QUOTE else s[0] != EOF_CHAR
  {
  }

  lemma CookedBehindPiece(s: seq<byte>, n: nat)
    requires Cooked(s) && ScanString(s) == Some(n) && n > 0 && s[0] < 0x80
    ensures 1 <= Piece(s) <= n && ScanString(s[Piece(s)..]) == Some(n - Piece(s)) && Cooked(s[Piece(s)..])
    ensures s[Piece(s)..][n - Piece(s) + 1..] == s[n + 1..]
  {
    BehindPiece(s, n);
    PieceAscii(s);
    CookedBehindAscii(s, Piece(s));
  }

  lemma UnitIsWhole(s: seq<byte>)
    requires Cooked(s) && s != [] && s[0] >= 0x80 && s[0] != EOF_CHAR
    ensures FirstUnit(s).Some? && Cooked(s[FirstUnit(s).value.count..])
  {
  }

  /** The text a scanned string stands for is good. */
  lemma {:induction false} ScannedStringGood(s: seq<byte>, n: nat)
    requires Cooked(s) && ScanString(s) == Some(n) && Decode(s[..n]).Some?
    ensures GoodText(Decode(s[..n]).value)
    decreases |s|
  {
    var b := s[..n];
    if n == 0 {
    } else if s[0] >= 0x80 {
      UnitIsWhole(s);
      UnitBytes(s);
      var c := FirstUnit(s).value.count;
      BehindPlain(s, c, n);
      ScannedStringGood(s[c..], n - c);
      GoodConcat(s[..c], Decode(s[c..][..n - c]).value);
    } else {
      var used := DecodePiece(b).value.used;
      assert b[0] == s[0];
      PieceGood(b);
      BehindDecoded(s, n);
      ScannedStringGood(s[used..], n - used);
      GoodConcat(DecodePiece(b).value.bytes, Decode(b[used..]).value);
    }
  }

  /** The first pass also stops where the second pass goes on after an escape. */
  lemma BehindDecoded(s: seq<byte>, n: nat)
    requires Cooked(s) && ScanString(s) == Some(n) && n > 0 && s[0] < 0x80 && DecodePiece(s[..n]).Some?
    ensures var used := DecodePiece(s[..n]).value.used;
            used <= n && ScanString(s[used..]) == Some(n - used) && Cooked(s[used..]) && s[used..][..n - used] == s[..n][used..]
  {
    hide ScanString, DecodePiece, Cooked, Body;
    BehindPiece(s, n);
    CookedBehindPiece(s, n);
    var used := DecodePiece(s[..n]).value.used;
    if used != Piece(s) {
      PairOfPieces(s[..n]);
      BehindPair(s, n);
    }
    TailOfHead(s, used, n);
  }

  lemma TailOfHead(s: seq<byte>, used: nat, n: nat)
    requires used <= n <= |s|
    ensures s[used..][..n - used] == s[..n][used..]
  {
  }

  lemma BehindPair(s: seq<byte>, n: nat)
    requires n <= |s| && Piece(s) == 6 && ScanString(s[6..]) == Some(n - 6) && Cooked(s[6..]) && n >= 12
    requires s[..n][6] == BACKSLASH && Piece(s[..n][6..]) == 6
    ensures ScanString(s[12..]) == Some(n - 12) && Cooked(s[12..])
  {
    var t := s[6..];
    assert t[..n - 6] == s[..n][6..];
    BehindPiece(t, n - 6);
    CookedBehindPiece(t, n - 6);
    assert t[6..] == s[12..];
  }

  lemma PairOfPieces(b: seq<byte>)
    requires b != [] && Body(b) && DecodePiece(b).Some? && DecodePiece(b).value.used != Piece(b)
    ensures DecodePiece(b).value.used == 12 && Piece(b) == 6 && |b| >= 12 && b[6] == BACKSLASH && Piece(b[6..]) == 6
  {
    hide Encode;
    if b[0] == BACKSLASH && b[1] == 0x75 {
      assert Piece(b) == 6 && Body(b[6..]);
    }
  }

  // ----- tokens and values

  /** What a successful load can hand out; members are numbered as they come. */
  ghost predicate Sound(v: Json) {
    match v
    case Integer(i) => INT_MIN <= i <= INT_MAX
    case String(s) => GoodText(s)
    case Array(elems) => forall i :: 0 <= i < |elems| ==> Sound(elems[i])
    case Object(es) =>
      && DistinctKeys(es)
      && DistinctSerials(es)
      && (forall i :: 0 <= i < |es| ==> GoodText(es[i].key))
      && (forall i :: 0 <= i < |es| ==> Sound(es[i].value))
    case _ => true
  }

  lemma {:induction false} SpanAscii(s: seq<byte>)
    ensures forall i :: 0 <= i < SpanDigits(s) ==> s[i] < 0x80
    ensures forall i :: 0 <= i < SpanAlpha(s) ==> s[i] < 0x80
  {
    assert forall i :: 0 <= i < SpanDigits(s) ==> IsDigit(s[i]);
    assert forall i :: 0 <= i < SpanAlpha(s) ==> IsAlpha(s[i]);
  }

  ghost predicate GoodScanned(r: Scanned) {
    && (r.token != Invalid ==> Cooked(r.rest))
    && (r.token.Text? ==> GoodText(r.token.s))
    && (r.token.Number? ==> INT_MIN <= r.token.i <= INT_MAX)
  }

  lemma FractionAscii(s: seq<byte>)
    requires Cooked(s) && Fraction(s).Some?
    ensures Cooked(s[Fraction(s).value..])
  {
    hide Cooked;
    var n := Fraction(s).value;
    if n > 0 {
      SpanAscii(s[1..]);
      assert forall i :: 1 <= i < n ==> s[i] == s[1..][i - 1];
    }
    CookedBehindAscii(s, n);
  }

  lemma ExponentAscii(s: seq<byte>)
    requires Cooked(s) && Exponent(s).Some?
    ensures Cooked(s[Exponent(s).value..])
  {
    hide Cooked;
    var n := Exponent(s).value;
    if n > 0 {
      var sign := if Head(s[1..]) == 0x2B || Head(s[1..]) == 0x2D then 1 else 0;
      SpanAscii(s[1 + sign..]);
      assert forall i :: 1 + sign <= i < n ==> s[i] == s[1 + sign..][i - 1 - sign];
      assert sign == 1 ==> s[1] == s[1..][0];
    }
    CookedBehindAscii(s, n);
  }

  lemma NumberGood(s: seq<byte>)
    requires s != [] && (s[0] == 0x2D || IsDigit(s[0])) && Cooked(s)
    ensures GoodScanned(ScanNumber(s))
  {
    hide Cooked, DecimalValue, SpanDigits, Fraction, Exponent, ScanNumber, GoodText;
    var sign := if s[0] == 0x2D then 1 else 0;
    var t := s[sign..];
    CookedBehindAscii(s, sign);
    var n := IntegerPart(t);
    assert forall i :: 0 <= i < n ==> IsDigit(t[i]);
    CookedBehindAscii(t, n);
    RealTailGood(t[n..]);
    NumberToken(s, sign, t);
  }

  lemma RealTailGood(u: seq<byte>)
    requires Cooked(u)
    ensures Fraction(u).Some? ==>
      var w := u[Fraction(u).value..];
      Exponent(w).Some? ==> Cooked(w[Exponent(w).value..])
  {
    hide Cooked, Fraction, Exponent;
    if Fraction(u).Some? {
      FractionAscii(u);
      var w := u[Fraction(u).value..];
      if Exponent(w).Some? {
        ExponentAscii(w);
      }
    }
  }

  lemma {:induction false} ScanGood(s: seq<byte>)
    requires Cooked(s)
    ensures GoodScanned(Scan(s))
    decreases |s|
  {
    hide Scan, ScanNumber, Cooked, GoodText, SpanAlpha;
    ScanByFirst(s);
    if s == [] {
      NothingCooked();
    } else if IsSpace(s[0]) {
      ScanSpace(s);
      CookedBehindAscii(s, 1);
      ScanGood(s[1..]);
    } else if IsPunct(s[0]) {
      CookedBehindAscii(s, 1);
    } else if s[0] == QUOTE {
      StringTokenGood(s);
    } else if s[0] == 0x2D || IsDigit(s[0]) {
      NumberGood(s);
    } else if IsAlpha(s[0]) {
      SpanAscii(s);
      CookedBehindAscii(s, SpanAlpha(s));
      assert Word(s[..SpanAlpha(s)]).Text? == Word(s[..SpanAlpha(s)]).Number? == false;
    }
  }

  lemma NothingCooked()
    ensures Cooked([])
  {
  }

  lemma StringTokenGood(s: seq<byte>)
    requires s != [] && s[0] == QUOTE && Cooked(s)
    ensures GoodScanned(Scan(s))
  {
    hide Scan, ScanString, Cooked, Decode, GoodText, Body;
    var t := s[1..];
    assert s == [QUOTE] + t;
    StringToken(t);
    CookedBehindAscii(s, 1);
    if ScanString(t).Some? {
      var n := ScanString(t).value;
      CookedBehindString(t, n);
      if Decode(t[..n]).Some? {
        ScannedStringGood(t, n);
      }
    }
  }

  ghost predicate SoundMembers(es: seq<Entry<Json>>, serial: nat) {
    Sound(Object(es)) && forall i :: 0 <= i < |es| ==> es[i].serial < serial
  }

  lemma {:induction false} SetMemberPlaces(es: seq<Entry<Json>>, key: seq<byte>, serial: nat, v: Json)
    requires DistinctKeys(es)
    ensures var r := SetMember(es, key, serial, v);
      if exists i :: 0 <= i < |es| && es[i].key == key then
        |r| == |es| && forall j :: 0 <= j < |es| ==> r[j] == if es[j].key == key then es[j].(value := v) else es[j]
      else r == es + [Entry(key, serial, v)]
  {
    if es != [] && es[0].key != key {
      SetMemberPlaces(es[1..], key, serial, v);
      assert forall i :: 0 <= i < |es[1..]| ==> es[1..][i] == es[i + 1];
      assert forall i :: 1 <= i < |es| ==> es[i] == es[1..][i - 1];
      var r, t := SetMember(es, key, serial, v), SetMember(es[1..], key, serial, v);
      assert forall j :: 1 <= j < |r| ==> r[j] == t[j - 1];
    }
  }

  lemma SetMemberSound(es: seq<Entry<Json>>, key: seq<byte>, serial: nat, v: Json)
    requires SoundMembers(es, serial) && GoodText(key) && Sound(v)
    ensures SoundMembers(SetMember(es, key, serial, v), serial + 1)
  {
    hide SetMember, GoodText;
    SetMemberPlaces(es, key, serial, v);
  }

  ghost predicate GoodParsed(r: Parsed<Json>) {
    r.Success? ==> Sound(r.value) && Cooked(r.rest)
  }

  lemma {:induction false} ValueSound(token: Token, s: seq<byte>)
    requires GoodScanned(Scanned(token, s)) && Cooked(s)
    ensures GoodParsed(ParseValue(token, s))
    decreases |s|, 2
  {
    hide Cooked;
    if token.Punct? {
      ScanGood(s);
      var first := Scan(s);
      if token.c == 0x7B && first.token.Text? {
        MembersSound([], 0, first.token, first.rest);
      } else if token.c == 0x5B && first.token != Eof && first.token != Invalid && first.token != Punct(0x5D) {
        ElemsSound([], first.token, first.rest);
      }
    }
  }

  lemma {:induction false} ElemsSound(done: seq<Json>, token: Token, s: seq<byte>)
    requires GoodScanned(Scanned(token, s)) && Cooked(s)
    requires forall i :: 0 <= i < |done| ==> Sound(done[i])
    ensures GoodParsed(ParseElems(done, token, s))
    decreases |s|, 3
  {
    hide Cooked;
    ValueSound(token, s);
    var r := ParseValue(token, s);
    if r.Success? {
      ScanGood(r.rest);
      var sep := Scan(r.rest);
      if sep.token == Punct(0x2C) {
        ScanGood(sep.rest);
        var next := Scan(sep.rest);
        if next.token != Eof && next.token != Invalid {
          ElemsSound(done + [r.value], next.token, next.rest);
        }
      }
    }
  }

  lemma {:induction false} MembersSound(done: seq<Entry<Json>>, serial: nat, token: Token, s: seq<byte>)
    requires GoodScanned(Scanned(token, s)) && Cooked(s)
    requires SoundMembers(done, serial)
    ensures GoodParsed(ParseMembers(done, serial, token, s))
    decreases |s|, 3
  {
    hide Cooked;
    if token.Text? {
      ScanGood(s);
      var colon := Scan(s);
      if colon.token == Punct(0x3A) {
        ScanGood(colon.rest);
        var first := Scan(colon.rest);
        if first.token != Eof && first.token != Invalid {
          ValueSound(first.token, first.rest);
          var r := ParseValue(first.token, first.rest);
          if r.Success? {
            SetMemberSound(done, token.s, serial, r.value);
            ScanGood(r.rest);
            var sep := Scan(r.rest);
            if sep.token == Punct(0x2C) {
              ScanGood(sep.rest);
              var next := Scan(sep.rest);
              if next.token != Eof && next.token != Invalid {
                MembersSound(SetMember(done, token.s, serial, r.value), serial + 1, next.token, next.rest);
              }
            }
          }
        }
      }
    }
  }

  /** For every C string: all text in a loaded value is NUL-free UTF-8, and keys are distinct. */
  lemma LoadedIsSound(d: seq<byte>)
    requires NulFree(d) && Loads(d).Some?
    ensures Sound(Loads(d).value)
  {
    CookIsCooked(d);
    TrimIsCooked(Cook(d));
    var s := Trim(Cook(d));
    hide Cooked, Cook, Trim;
    ScanGood(s);
    ValueSound(Scan(s).token, Scan(s).rest);
  }
}
