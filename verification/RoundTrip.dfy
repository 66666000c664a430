/** `json_loads` undoes `json_dumps`. */
module RoundTrip {
  import opened Bytes
  import opened Utf8
  import opened JsonValue
  import opened JsonOrder
  import opened JsonPrint
  import opened JsonParse

  // ----- strings

  /** A byte both passes copy. */
  predicate Plain(c: byte) {
    c != QUOTE && c != BACKSLASH && c != EOF_CHAR && c > 0x1F
  }

  /** In front of `t`, `e` is passed over by the first pass and stands for `bytes` in the second. */
  ghost predicate StandsBefore(e: seq<byte>, bytes: seq<byte>, t: seq<byte>) {
    && ScanString(e + t) == (if ScanString(t).Some? then Some(|e| + ScanString(t).value) else None)
    && (Body(t) ==> Body(e + t) && Decode(e + t) == if Decode(t).Some? then Some(bytes + Decode(t).value) else None)
  }

  ghost predicate Stands(e: seq<byte>, bytes: seq<byte>) {
    forall t :: StandsBefore(e, bytes, t)
  }

  lemma PieceStands(e: seq<byte>, t: seq<byte>)
    requires e != [] && Piece(e) == |e|
    ensures Piece(e + t) == |e| && (e + t)[|e|..] == t
    ensures ScanString(e + t) == if ScanString(t).Some? then Some(|e| + ScanString(t).value) else None
    ensures Body(t) ==> Body(e + t)
  {
    assert forall i :: 0 <= i < |e| ==> (e + t)[i] == e[i];
    assert (e + t)[|e|..] == t;
  }

  lemma PlainStands(c: byte)
    requires Plain(c)
    ensures Stands([c], [c])
  {
    forall t ensures StandsBefore([c], [c], t) {
      PieceStands([c], t);
      if Body(t) {
        assert DecodePiece([c] + t) == Some(Decoded([c], 1));
      }
    }
  }

  lemma StandsConcat(e1: seq<byte>, b1: seq<byte>, e2: seq<byte>, b2: seq<byte>)
    requires Stands(e1, b1) && Stands(e2, b2)
    ensures Stands(e1 + e2, b1 + b2)
  {
    hide ScanString, Decode, Body;
    forall t ensures StandsBefore(e1 + e2, b1 + b2, t) {
      assert e1 + e2 + t == e1 + (e2 + t);
      assert StandsBefore(e2, b2, t) && StandsBefore(e1, b1, e2 + t);
      if Body(t) && Decode(t).Some? {
        assert b1 + b2 + Decode(t).value == b1 + (b2 + Decode(t).value);
      }
    }
  }

  lemma EmptyStands()
    ensures Stands([], [])
  {
    forall t ensures StandsBefore([], [], t) {
      assert [] + t == t;
      if Body(t) && Decode(t).Some? {
        assert [] + Decode(t).value == Decode(t).value;
      }
    }
  }

  lemma {:induction false} PlainRunStands(s: seq<byte>)
    requires forall i :: 0 <= i < |s| ==> Plain(s[i])
    ensures Stands(s, s)
  {
    if s == [] {
      EmptyStands();
    } else {
      PlainStands(s[0]);
      PlainRunStands(s[1..]);
      StandsConcat([s[0]], [s[0]], s[1..], s[1..]);
      assert [s[0]] + s[1..] == s;
    }
  }

  lemma ShortcutStands(c: byte)
    requires IsShortcut(c)
    ensures Stands([BACKSLASH, c], [ShortcutValue(c)])
  {
    var e := [BACKSLASH, c];
    forall t ensures StandsBefore(e, [ShortcutValue(c)], t) {
      PieceStands(e, t);
      if Body(t) {
        assert DecodePiece(e + t) == Some(Decoded([ShortcutValue(c)], 2));
      }
    }
  }

  /** The printed digits are read back as the number. */
  lemma UnicodeEscapeReads(n: int)
    requires 0 <= n < 0x10000
    ensures var e := UnicodeEscape(n); Piece(e) == 6 && EscapeValue(e[2..6]) == n
  {
    hide HexDigit, HexValue, IsHex;
    var e := UnicodeEscape(n);
    var a, b, c, d := n / 0x1000, n / 0x100 % 0x10, n / 0x10 % 0x10, n % 0x10;
    HexDigitReads(a);
    HexDigitReads(b);
    HexDigitReads(c);
    HexDigitReads(d);
    assert e[2..6] == [HexDigit(a), HexDigit(b), HexDigit(c), HexDigit(d)];
    HexPlaces(n);
  }

  lemma HexPlaces(n: int)
    requires 0 <= n < 0x10000
    ensures var a, b, c, d := n / 0x1000, n / 0x100 % 0x10, n / 0x10 % 0x10, n % 0x10;
            ((a * 0x10 + b) * 0x10 + c) * 0x10 + d == n && 0 <= a < 0x10
  {
    assert n / 0x100 == n / 0x1000 * 0x10 + n / 0x100 % 0x10;
    assert n / 0x10 == n / 0x100 * 0x10 + n / 0x10 % 0x10;
  }

  lemma EscapeShape(n: int)
    requires 0 <= n < 0x10000
    ensures var e := UnicodeEscape(n); |e| == 6 && e[0] == BACKSLASH && e[1] == 0x75
  {
  }

  lemma HexDigitReads(n: int)
    requires 0 <= n < 16
    ensures IsHex(HexDigit(n)) && HexValue(HexDigit(n)) == n
  {
  }

  lemma UnicodeStands(cp: int)
    requires 0 < cp < 0x10000 && !Surrogate(cp)
    ensures Stands(UnicodeEscape(cp), Encode(cp).value)
  {
    var e, bytes := UnicodeEscape(cp), Encode(cp).value;
    UnicodeEscapeReads(cp);
    forall t ensures StandsBefore(e, bytes, t) {
      PieceStands(e, t);
      if Body(t) {
        assert (e + t)[2..6] == e[2..6];
        assert DecodePiece(e + t) == Some(Decoded(bytes, 6));
      }
    }
  }

  /** Two escapes that form a surrogate pair are read as one code point. */
  lemma DecodePair(w: seq<byte>, hi: int, lo: int)
    requires Body(w) && Piece(w) == 6 && w[1] == 0x75 && Piece(w[6..]) == 6 && w[7] == 0x75
    requires EscapeValue(w[2..6]) == hi && EscapeValue(w[6..][2..6]) == lo
    requires 0xD800 <= hi <= 0xDBFF && 0xDC00 <= lo <= 0xDFFF
    ensures DecodePiece(w) == Some(Decoded(Encode((hi - 0xD800) * 0x400 + (lo - 0xDC00) + 0x10000).value, 12))
  {
    hide Encode;
  }

  lemma PairPiece(cp: int, e1: seq<byte>, e2: seq<byte>, t: seq<byte>)
    requires 0x10000 <= cp <= MAX_CODEPOINT
    requires e1 == UnicodeEscape(0xD800 + (cp - 0x10000) / 0x400)
    requires e2 == UnicodeEscape(0xDC00 + (cp - 0x10000) % 0x400)
    requires Body(e1 + (e2 + t))
    ensures DecodePiece(e1 + (e2 + t)) == Some(Decoded(Encode(cp).value, 12))
  {
    hide Body, Encode, Decode, DecodePiece, EscapeValue, UnicodeEscape, Piece;
    var hi, lo := 0xD800 + (cp - 0x10000) / 0x400, 0xDC00 + (cp - 0x10000) % 0x400;
    var w := e1 + (e2 + t);
    UnicodeEscapeReads(hi);
    UnicodeEscapeReads(lo);
    EscapeShape(hi);
    EscapeShape(lo);
    PieceStands(e2, t);
    PieceStands(e1, e2 + t);
    assert w[2..6] == e1[2..6];
    assert (e2 + t)[2..6] == e2[2..6];
    assert w[7] == e2[1];
    DecodePair(w, hi, lo);
    assert (hi - 0xD800) * 0x400 + (lo - 0xDC00) + 0x10000 == cp;
  }

  lemma PairStands(cp: int)
    requires 0x10000 <= cp <= MAX_CODEPOINT
    ensures Stands(EscapeText(cp), Encode(cp).value)
  {
    hide Encode, UnicodeEscape, StandsBefore;
    var hi, lo := 0xD800 + (cp - 0x10000) / 0x400, 0xDC00 + (cp - 0x10000) % 0x400;
    forall t ensures StandsBefore(EscapeText(cp), Encode(cp).value, t) {
      PairStandsBefore(cp, UnicodeEscape(hi), UnicodeEscape(lo), t);
    }
  }

  lemma PairStandsBefore(cp: int, e1: seq<byte>, e2: seq<byte>, t: seq<byte>)
    requires 0x10000 <= cp <= MAX_CODEPOINT
    requires e1 == UnicodeEscape(0xD800 + (cp - 0x10000) / 0x400)
    requires e2 == UnicodeEscape(0xDC00 + (cp - 0x10000) % 0x400)
    ensures StandsBefore(e1 + e2, Encode(cp).value, t)
  {
    hide Body, Encode, Decode, DecodePiece, EscapeValue, UnicodeEscape, Piece, ScanString;
    var hi, lo := 0xD800 + (cp - 0x10000) / 0x400, 0xDC00 + (cp - 0x10000) % 0x400;
    UnicodeEscapeReads(hi);
    UnicodeEscapeReads(lo);
    EscapeShape(hi);
    EscapeShape(lo);
    var w := e1 + (e2 + t);
    assert e1 + e2 + t == w;
    PieceStands(e2, t);
    PieceStands(e1, e2 + t);
    if Body(t) {
      PairPiece(cp, e1, e2, t);
      DecodeStep(w);
      assert w[12..] == t;
    }
  }

  /** The bytes of a multi-byte unit are copied by both passes. */
  lemma EncodingIsPlain(cp: int)
    requires Scalar(cp) && cp > 0x7F
    ensures forall i :: 0 <= i < |Encode(cp).value| ==> Plain(Encode(cp).value[i])
  {
  }

  /** What is printed for one code point stands for the bytes of that code point. */
  lemma UnitStands(cp: int, ascii: bool)
    requires Scalar(cp) && cp != 0
    ensures Stands(if MustEscape(cp, ascii) then EscapeText(cp) else Encode(cp).value, Encode(cp).value)
  {
    if !MustEscape(cp, ascii) {
      if cp > 0x7F {
        EncodingIsPlain(cp);
      }
      PlainRunStands(Encode(cp).value);
    } else if cp == 0x5C || cp == 0x22 {
      ShortcutStands(cp as byte);
    } else if cp == 0x08 {
      ShortcutStands(0x62);
    } else if cp == 0x0C {
      ShortcutStands(0x66);
    } else if cp == 0x0A {
      ShortcutStands(0x6E);
    } else if cp == 0x0D {
      ShortcutStands(0x72);
    } else if cp == 0x09 {
      ShortcutStands(0x74);
    } else if cp < 0x10000 {
      UnicodeStands(cp);
    } else {
      PairStands(cp);
    }
  }

  lemma FirstUnitStands(s: seq<byte>, ascii: bool)
    requires GoodText(s) && s != []
    ensures var u := FirstUnit(s).value;
            Scalar(u.cp) && Stands(if MustEscape(u.cp, ascii) then EscapeText(u.cp) else s[..u.count], s[..u.count])
  {
    var u := FirstUnit(s).value;
    ReadThenEncode(s);
    assert s[0] == s[..u.count][0];
    UnitStands(u.cp, ascii);
  }

  /** A printed string body stands for the string. */
  lemma {:induction false} EscapedStands(s: seq<byte>, ascii: bool)
    requires GoodText(s)
    ensures Stands(Escaped(s, ascii), s)
    decreases |s|
  {
    if s == [] {
      EmptyStands();
    } else {
      var Unit(cp, count) := FirstUnit(s).value;
      FirstUnitStands(s, ascii);
      assert NulFree(s[count..]);
      EscapedStands(s[count..], ascii);
      hide Stands, EscapeText, FirstUnit;
      var e := if MustEscape(cp, ascii) then EscapeText(cp) else s[..count];
      StandsConcat(e, s[..count], Escaped(s[count..], ascii), s[count..]);
      assert s == s[..count] + s[count..];
    }
  }

  /** The two passes over a printed string body: where it ends, and what it stands for. */
  lemma EscapedReads(s: seq<byte>, ascii: bool, t: seq<byte>)
    requires GoodText(s) && Head(t) == QUOTE
    ensures var e := Escaped(s, ascii); ScanString(e + t) == Some(|e|) && Body(e) && Decode(e) == Some(s)
  {
    var e := Escaped(s, ascii);
    EscapedStands(s, ascii);
    assert StandsBefore(e, s, t) && StandsBefore(e, s, []);
    assert e + [] == e && s + [] == s;
  }

  /** A printed string is one token, and the token is the string. */
  lemma ScanStringText(s: seq<byte>, ascii: bool, rest: seq<byte>)
    requires GoodText(s)
    ensures Scan(StringText(s, ascii) + rest) == Scanned(Text(s), rest)
  {
    hide Escaped, Valid, FirstUnit, ScanString, Decode;
    var e := Escaped(s, ascii);
    var all := StringText(s, ascii) + rest;
    EscapedReads(s, ascii, [QUOTE] + rest);
    assert all[1..] == e + ([QUOTE] + rest);
    assert all[1..][..|e|] == e;
    assert all[|e| + 2..] == rest;
  }

  // ----- numbers

  /** What may stand behind a number or a word. */
  predicate Delimits(c: byte) {
    c == 0x2C || c == 0x5D || c == 0x7D || IsSpace(c)
  }

  lemma {:induction false} DigitsRead(n: nat)
    ensures |Digits(n)| >= 1 && (forall i :: 0 <= i < |Digits(n)| ==> IsDigit(Digits(n)[i]))
    ensures DecimalValue(Digits(n)) == n
    ensures Digits(n)[0] == 0x30 <==> n == 0
  {
    var d := Digits(n);
    if n >= 10 {
      DigitsRead(n / 10);
      assert d[..|d| - 1] == Digits(n / 10);
    } else {
      assert d[..0] == [];
    }
  }

  lemma {:induction false} SpanDigitsOf(d: seq<byte>, rest: seq<byte>)
    requires forall i :: 0 <= i < |d| ==> IsDigit(d[i])
    requires !IsDigit(Head(rest))
    ensures SpanDigits(d + rest) == |d|
  {
    if d == [] {
      assert d + rest == rest;
    } else {
      assert (d + rest)[1..] == d[1..] + rest;
      SpanDigitsOf(d[1..], rest);
    }
  }

  lemma IntegerPartOfDigits(n: nat, rest: seq<byte>)
    requires !IsDigit(Head(rest))
    ensures IntegerPart(Digits(n) + rest) == |Digits(n)|
  {
    var d := Digits(n);
    DigitsRead(n);
    SpanDigitsOf(d, rest);
    if n == 0 {
      assert (d + rest)[1..] == rest;
    } else {
      assert (d + rest)[0] == d[0];
    }
  }

  lemma IntegerTextParts(i: int, rest: seq<byte>)
    ensures var sign := if i < 0 then 1 else 0; var d := Digits(if i < 0 then -i else i); var s := IntegerText(i) + rest;
            |s| > sign && s[sign..] == d + rest && d != [] && s[0] == if i < 0 then 0x2D else d[0]
  {
  }

  lemma ScanIntegerText(i: int, rest: seq<byte>)
    requires INT_MIN <= i <= INT_MAX
    requires rest != [] && Delimits(rest[0])
    ensures Scan(IntegerText(i) + rest) == Scanned(Number(i), rest)
  {
    hide SpanDigits, IntegerPart, ScanNumber, Scan, IntegerText;
    var n := if i < 0 then -i else i;
    var s := IntegerText(i) + rest;
    DigitsRead(n);
    IntegerPartOfDigits(n, rest);
    IntegerTextParts(i, rest);
    assert IsDigit(Digits(n)[0]);
    ScanNumberOf(s, if i < 0 then 1 else 0, Digits(n), rest);
    ScanOfNumber(s);
  }

  lemma ScanOfNumber(s: seq<byte>)
    requires s != [] && (s[0] == 0x2D || IsDigit(s[0]))
    ensures Scan(s) == ScanNumber(s)
  {
    hide ScanNumber;
  }

  lemma ScanNumberOf(s: seq<byte>, sign: nat, d: seq<byte>, rest: seq<byte>)
    requires sign <= 1 && |s| >= 1 && d != [] && (if sign == 1 then s[0] == 0x2D else IsDigit(s[0])) && s[sign..] == d + rest
    requires forall i :: 0 <= i < |d| ==> IsDigit(d[i])
    requires IntegerPart(d + rest) == |d| && rest != [] && Delimits(rest[0])
    requires INT_MIN <= (if sign == 1 then -(DecimalValue(d) as int) else DecimalValue(d)) <= INT_MAX
    ensures ScanNumber(s) == Scanned(Number(if sign == 1 then -(DecimalValue(d) as int) else DecimalValue(d)), rest)
  {
    hide DecimalValue, SpanDigits, IntegerPart, Fraction, Exponent, ScanNumber;
    NumberToken(s, sign, d + rest);
    assert (d + rest)[..|d|] == d && (d + rest)[|d|..] == rest;
  }

  // ----- words and white space

  lemma {:induction false} SpanAlphaOf(w: seq<byte>, rest: seq<byte>)
    requires forall i :: 0 <= i < |w| ==> IsAlpha(w[i])
    requires !IsAlpha(Head(rest))
    ensures SpanAlpha(w + rest) == |w|
  {
    if w == [] {
      assert w + rest == rest;
    } else {
      assert (w + rest)[1..] == w[1..] + rest;
      SpanAlphaOf(w[1..], rest);
    }
  }

  lemma ScanWord(w: seq<byte>, rest: seq<byte>)
    requires w == TRUE_TEXT || w == FALSE_TEXT || w == NULL_TEXT
    requires rest != [] && Delimits(rest[0])
    ensures Scan(w + rest) == Scanned(Word(w), rest) && Word(w) != Invalid
  {
    SpanAlphaOf(w, rest);
    assert (w + rest)[..|w|] == w && (w + rest)[|w|..] == rest;
    assert (w + rest)[0] == w[0];
  }

  lemma {:induction false} ScanSkips(w: seq<byte>, t: seq<byte>)
    requires forall i :: 0 <= i < |w| ==> IsSpace(w[i])
    ensures Scan(w + t) == Scan(t)
  {
    if w == [] {
      assert w + t == t;
    } else {
      assert (w + t)[1..] == w[1..] + t;
      ScanSkips(w[1..], t);
    }
  }

  lemma ScanIndent(f: Flags, depth: nat, space: bool, t: seq<byte>)
    ensures Scan(Indent(f, depth, space) + t) == Scan(t)
  {
    hide Scan;
    ScanSkips(Indent(f, depth, space), t);
  }

  lemma IndentDelimits(f: Flags, depth: nat, t: seq<byte>)
    requires t != [] && Delimits(t[0])
    ensures Delimits((Indent(f, depth, false) + t)[0])
  {
  }

  lemma ScanPunct(c: byte, t: seq<byte>)
    requires IsPunct(c)
    ensures Scan([c] + t) == Scanned(Punct(c), t)
  {
    assert ([c] + t)[1..] == t;
  }

  // ----- values

  /** The value starts at the next token of `s` and the parser stops right behind it. */
  ghost predicate Reads(s: seq<byte>, v: Json, rest: seq<byte>) {
    var first := Scan(s);
    first.token != Eof && first.token != Invalid && ParseValue(first.token, first.rest) == Success(v, rest)
  }

  ghost predicate Container(v: Json) {
    v.Array? || v.Object?
  }

  /** What is printed without reordering is read back as the same tree, members renumbered. */
  lemma {:induction false} ReadPrinted(v: Json, f: Flags, depth: nat, rest: seq<byte>)
    requires WellFormed(v) && f.Order() == AsIs
    requires Container(v) || (rest != [] && Delimits(rest[0]))
    ensures Reads(Print(v, f, depth) + rest, Arrange(v, AsIs), rest)
    decreases v, 1, 0
  {
    if v.Array? && v.elems != [] {
      assert [] + ArrangeAll(v.elems, AsIs) == ArrangeAll(v.elems, AsIs);
      ReadPrintedElems([], v.elems, f, depth, rest, Arrange(v, AsIs));
      ReadArray(v.elems, f, depth, rest, Arrange(v, AsIs));
    } else if v.Object? && v.entries != [] {
      assert forall i :: 0 <= i < |v.entries| ==> v.entries[i] in v.entries;
      ReadPrintedMembers(v, [], v.entries, f, depth, rest, Arrange(v, AsIs));
      ReadObject(v, f, depth, rest, Arrange(v, AsIs));
    } else {
      ReadAtom(v, f, depth, rest);
    }
  }

  lemma ReadAtom(v: Json, f: Flags, depth: nat, rest: seq<byte>)
    requires WellFormed(v)
    requires Container(v) || (rest != [] && Delimits(rest[0]))
    requires v == Array([]) || v == Object([]) || !Container(v)
    ensures Reads(Print(v, f, depth) + rest, v, rest)
  {
    hide Scan, StringText, IntegerText;
    match v
    case Null => ScanWord(NULL_TEXT, rest);
    case True => ScanWord(TRUE_TEXT, rest);
    case False => ScanWord(FALSE_TEXT, rest);
    case Integer(i) => ScanIntegerText(i, rest);
    case String(t) => ScanStringText(t, f.ascii, rest);
    case _ => ReadEmpty(v, f, depth, rest);
  }

  lemma ReadEmpty(v: Json, f: Flags, depth: nat, rest: seq<byte>)
    requires v == Array([]) || v == Object([])
    ensures Reads(Print(v, f, depth) + rest, v, rest)
  {
    hide Scan;
    var left, right := if v.Array? then 0x5B else 0x7B, if v.Array? then 0x5D else 0x7D;
    assert Print(v, f, depth) + rest == [left] + ([right] + rest);
    ScanPunct(left, [right] + rest);
    ScanPunct(right, rest);
  }

  lemma ReadArray(elems: seq<Json>, f: Flags, depth: nat, rest: seq<byte>, back: Json)
    requires elems != []
    requires ReadsElems([], PrintElems(elems, f, depth) + [0x5D] + rest, back, rest)
    ensures Reads(Print(Array(elems), f, depth) + rest, back, rest)
  {
    hide Scan, ParseElems, PrintElems;
    var body := PrintElems(elems, f, depth) + [0x5D] + rest;
    var ind := Indent(f, depth + 1, false);
    assert Print(Array(elems), f, depth) + rest == [0x5B] + (ind + body);
    ScanPunct(0x5B, ind + body);
    ScanIndent(f, depth + 1, false, body);
  }

  lemma ReadObject(v: Json, f: Flags, depth: nat, rest: seq<byte>, back: Json)
    requires v.Object? && v.entries != [] && f.Order() == AsIs
    requires ReadsMembers([], PrintMembers(v, v.entries, f, depth) + [0x7D] + rest, back, rest)
    ensures Reads(Print(v, f, depth) + rest, back, rest)
  {
    hide Scan, ParseMembers, PrintMembers;
    var body := PrintMembers(v, v.entries, f, depth) + [0x7D] + rest;
    var ind := Indent(f, depth + 1, false);
    assert Print(v, f, depth) + rest == [0x7B] + (ind + body);
    ScanPunct(0x7B, ind + body);
    ScanIndent(f, depth + 1, false, body);
  }

  /** The loop of `parse_array` goes on at the next token of `s` and ends with `v`. */
  ghost predicate ReadsElems(done: seq<Json>, s: seq<byte>, v: Json, rest: seq<byte>) {
    var first := Scan(s);
    first.token != Eof && first.token != Invalid && first.token != Punct(0x5D)
    && ParseElems(done, first.token, first.rest) == Success(v, rest)
  }

  /** The loop of `parse_object` goes on at the next token of `s` and ends with `v`. */
  ghost predicate ReadsMembers(done: seq<Entry<Json>>, s: seq<byte>, v: Json, rest: seq<byte>) {
    var first := Scan(s);
    first.token.Text? && ParseMembers(done, |done|, first.token, first.rest) == Success(v, rest)
  }

  lemma Regroup3(a: seq<byte>, b: seq<byte>, c: seq<byte>)
    ensures a + b + c == a + (b + c)
  {
  }

  lemma Regroup6(a: seq<byte>, b: seq<byte>, c: seq<byte>, d: seq<byte>, e: seq<byte>, f: seq<byte>)
    ensures a + (b + c + d) + e + f == a + (b + (c + (d + e + f)))
  {
    Regroup3(b + c, d, e + f);
    Regroup3(d, e, f);
    Regroup3(b, c, d + e + f);
    assert a + (b + c + d) + e + f == a + ((b + c + d) + (e + f));
  }

  /** What stands behind the first element. */
  ghost function BehindElem(vs: seq<Json>, f: Flags, depth: nat, rest: seq<byte>): seq<byte>
    requires vs != []
  {
    if |vs| == 1 then Indent(f, depth, false) + ([0x5D] + rest)
    else [0x2C] + (Indent(f, depth + 1, true) + (PrintElems(vs[1..], f, depth) + [0x5D] + rest))
  }

  lemma ElemsSplit(vs: seq<Json>, f: Flags, depth: nat, rest: seq<byte>)
    requires vs != []
    ensures PrintElems(vs, f, depth) + [0x5D] + rest == Print(vs[0], f, depth + 1) + BehindElem(vs, f, depth, rest)
    ensures BehindElem(vs, f, depth, rest) != [] && Delimits(BehindElem(vs, f, depth, rest)[0])
  {
    hide Print, Indent;
    var text := Print(vs[0], f, depth + 1);
    if |vs| == 1 {
      IndentDelimits(f, depth, [0x5D] + rest);
      Regroup3(text, Indent(f, depth, false), [0x5D] + rest);
    } else {
      var ind, tail := Indent(f, depth + 1, true), PrintElems(vs[1..], f, depth);
      assert PrintElems(vs, f, depth) == text + ([0x2C] + ind + tail);
      Regroup6(text, [0x2C], ind, tail, [0x5D], rest);
    }
  }

  lemma ScanBehindElem(vs: seq<Json>, f: Flags, depth: nat, rest: seq<byte>)
    requires vs != []
    ensures var sep := Scan(BehindElem(vs, f, depth, rest));
            if |vs| == 1 then sep == Scanned(Punct(0x5D), rest)
            else sep.token == Punct(0x2C) && Scan(sep.rest) == Scan(PrintElems(vs[1..], f, depth) + [0x5D] + rest)
  {
    hide Scan, PrintElems;
    if |vs| == 1 {
      ScanIndent(f, depth, false, [0x5D] + rest);
      ScanPunct(0x5D, rest);
    } else {
      var tail := PrintElems(vs[1..], f, depth) + [0x5D] + rest;
      ScanPunct(0x2C, Indent(f, depth + 1, true) + tail);
      ScanIndent(f, depth + 1, true, tail);
    }
  }

  lemma {:induction false} ReadPrintedElems(done: seq<Json>, vs: seq<Json>, f: Flags, depth: nat, rest: seq<byte>, all: Json)
    requires vs != [] && f.Order() == AsIs
    requires forall i :: 0 <= i < |vs| ==> WellFormed(vs[i])
    requires all == Array(done + ArrangeAll(vs, AsIs))
    ensures ReadsElems(done, PrintElems(vs, f, depth) + [0x5D] + rest, all, rest)
    decreases vs, 0, 0
  {
    var v := Arrange(vs[0], AsIs);
    var after := BehindElem(vs, f, depth, rest);
    assert all == Array(done + [v] + ArrangeAll(vs[1..], AsIs)) by { ArrangedFirst(done, vs); }
    hide Scan, ParseElems, Print, PrintElems, BehindElem, Arrange, Reads;
    ElemsSplit(vs, f, depth, rest);
    ReadPrinted(vs[0], f, depth + 1, after);
    if |vs| > 1 {
      ReadPrintedElems(done + [v], vs[1..], f, depth, rest, all);
    } else {
      assert all == Array(done + [v]);
    }
    ElemStep(done, vs, v, f, depth, rest, all);
  }

  lemma ArrangedFirst(done: seq<Json>, vs: seq<Json>)
    requires vs != []
    ensures done + [Arrange(vs[0], AsIs)] + ArrangeAll(vs[1..], AsIs) == done + ArrangeAll(vs, AsIs)
  {
    hide Arrange;
  }

  lemma ElemStep(done: seq<Json>, vs: seq<Json>, v: Json, f: Flags, depth: nat, rest: seq<byte>, all: Json)
    requires vs != []
    requires var after := BehindElem(vs, f, depth, rest); Reads(Print(vs[0], f, depth + 1) + after, v, after)
    requires if |vs| == 1 then all == Array(done + [v])
             else ReadsElems(done + [v], PrintElems(vs[1..], f, depth) + [0x5D] + rest, all, rest)
    ensures ReadsElems(done, PrintElems(vs, f, depth) + [0x5D] + rest, all, rest)
  {
    hide Scan, ParseElems, ParseValue, Print, PrintElems, BehindElem;
    var after := BehindElem(vs, f, depth, rest);
    var text := Print(vs[0], f, depth + 1);
    ElemsSplit(vs, f, depth, rest);
    ScanBehindElem(vs, f, depth, rest);
    if |vs| == 1 {
      LastElem(done, text + after, v, after, rest);
    } else {
      NextElem(done, text + after, v, after, all, rest);
    }
  }

  lemma LastElem(done: seq<Json>, s: seq<byte>, v: Json, after: seq<byte>, rest: seq<byte>)
    requires Reads(s, v, after) && Scan(after) == Scanned(Punct(0x5D), rest)
    ensures ReadsElems(done, s, Array(done + [v]), rest)
  {
    hide Scan;
  }

  lemma NextElem(done: seq<Json>, s: seq<byte>, v: Json, after: seq<byte>, all: Json, rest: seq<byte>)
    requires Reads(s, v, after) && Scan(after).token == Punct(0x2C)
    requires ReadsElems(done + [v], Scan(after).rest, all, rest)
    ensures ReadsElems(done, s, all, rest)
  {
    hide Scan;
  }

  /** What stands behind the value of the first member. */
  ghost function BehindMember(v: Json, es: seq<Entry<Json>>, f: Flags, depth: nat, rest: seq<byte>): seq<byte>
    requires v.Object? && es != [] && forall i :: 0 <= i < |es| ==> es[i] in v.entries
  {
    if |es| == 1 then Indent(f, depth, false) + ([0x7D] + rest)
    else [0x2C] + (Indent(f, depth + 1, true) + (PrintMembers(v, es[1..], f, depth) + [0x7D] + rest))
  }

  lemma Regroup(a: seq<byte>, b: seq<byte>, c: seq<byte>, d: seq<byte>, e: seq<byte>, f: seq<byte>, g: seq<byte>, h: seq<byte>)
    ensures a + b + c + (d + e + f) + g + h == a + (b + (c + (d + (e + (f + g + h)))))
  {
    assert d + (e + (f + g + h)) == (d + e + f) + g + h;
    assert a + (b + (c + ((d + e + f) + g + h))) == a + b + c + ((d + e + f) + g + h);
  }

  lemma MembersSplit(v: Json, es: seq<Entry<Json>>, f: Flags, depth: nat, rest: seq<byte>)
    requires v.Object? && es != [] && forall i :: 0 <= i < |es| ==> es[i] in v.entries
    ensures PrintMembers(v, es, f, depth) + [0x7D] + rest
         == StringText(es[0].key, f.ascii) + (Separator(f) + (Print(es[0].value, f, depth + 1) + BehindMember(v, es, f, depth, rest)))
    ensures BehindMember(v, es, f, depth, rest) != [] && Delimits(BehindMember(v, es, f, depth, rest)[0])
  {
    hide Print, StringText, Separator, Indent;
    var key, sep, text := StringText(es[0].key, f.ascii), Separator(f), Print(es[0].value, f, depth + 1);
    if |es| == 1 {
      var ind := Indent(f, depth, false);
      IndentDelimits(f, depth, [0x7D] + rest);
      assert PrintMembers(v, es, f, depth) == key + sep + text + ind;
      assert key + sep + text + ind + [0x7D] + rest == key + (sep + (text + (ind + ([0x7D] + rest))));
    } else {
      var ind, tail := Indent(f, depth + 1, true), PrintMembers(v, es[1..], f, depth);
      assert PrintMembers(v, es, f, depth) == key + sep + text + ([0x2C] + ind + tail);
      Regroup(key, sep, text, [0x2C], ind, tail, [0x7D], rest);
    }
  }

  lemma ScanBehindMember(v: Json, es: seq<Entry<Json>>, f: Flags, depth: nat, rest: seq<byte>)
    requires v.Object? && es != [] && forall i :: 0 <= i < |es| ==> es[i] in v.entries
    ensures var sep := Scan(BehindMember(v, es, f, depth, rest));
            if |es| == 1 then sep == Scanned(Punct(0x7D), rest)
            else sep.token == Punct(0x2C) && Scan(sep.rest) == Scan(PrintMembers(v, es[1..], f, depth) + [0x7D] + rest)
  {
    hide Scan, PrintMembers;
    if |es| == 1 {
      ScanIndent(f, depth, false, [0x7D] + rest);
      ScanPunct(0x7D, rest);
    } else {
      var tail := PrintMembers(v, es[1..], f, depth) + [0x7D] + rest;
      ScanPunct(0x2C, Indent(f, depth + 1, true) + tail);
      ScanIndent(f, depth + 1, true, tail);
    }
  }

  lemma MemberWellFormed(v: Json, e: Entry<Json>)
    requires WellFormed(v) && v.Object? && e in v.entries
    ensures WellFormed(e.value) && GoodText(e.key)
  {
    var i :| 0 <= i < |v.entries| && v.entries[i] == e;
  }

  lemma {:induction false} ReadPrintedMembers(v: Json, done: seq<Entry<Json>>, es: seq<Entry<Json>>, f: Flags, depth: nat, rest: seq<byte>, all: Json)
    requires WellFormed(v) && v.Object? && f.Order() == AsIs
    requires es != [] && DistinctKeys(es) && forall i :: 0 <= i < |es| ==> es[i] in v.entries
    requires forall i, j :: 0 <= i < |done| && 0 <= j < |es| ==> done[i].key != es[j].key
    requires all == Object(ArrangeMembers(v, done, es, AsIs))
    ensures ReadsMembers(done, PrintMembers(v, es, f, depth) + [0x7D] + rest, all, rest)
    decreases v, 0, |es|
  {
    hide Scan, ParseMembers, Print, PrintMembers, BehindMember;
    var e := es[0];
    assert e in v.entries;
    var back := Arrange(e.value, AsIs);
    var after := BehindMember(v, es, f, depth, rest);
    var done' := done + [Entry(e.key, |done|, back)];
    assert all == Object(ArrangeMembers(v, done', es[1..], AsIs));
    hide Arrange, Sort, Reads;
    MemberWellFormed(v, e);
    hide WellFormed;
    MembersSplit(v, es, f, depth, rest);
    ReadPrinted(e.value, f, depth + 1, after);
    if |es| > 1 {
      ReadPrintedMembers(v, done', es[1..], f, depth, rest, all);
    }
    MemberStep(v, done, es, back, f, depth, rest, all);
  }

  lemma MemberStep(v: Json, done: seq<Entry<Json>>, es: seq<Entry<Json>>, back: Json, f: Flags, depth: nat, rest: seq<byte>, all: Json)
    requires v.Object? && es != [] && forall i :: 0 <= i < |es| ==> es[i] in v.entries
    requires forall i :: 0 <= i < |done| ==> done[i].key != es[0].key
    requires GoodText(es[0].key)
    requires var after := BehindMember(v, es, f, depth, rest); Reads(Print(es[0].value, f, depth + 1) + after, back, after)
    requires var done' := done + [Entry(es[0].key, |done|, back)];
             if |es| == 1 then all == Object(done')
             else ReadsMembers(done', PrintMembers(v, es[1..], f, depth) + [0x7D] + rest, all, rest)
    ensures ReadsMembers(done, PrintMembers(v, es, f, depth) + [0x7D] + rest, all, rest)
  {
    hide Scan, ParseMembers, ParseValue, Print, PrintMembers, SetMember, StringText, Separator, BehindMember;
    var after := BehindMember(v, es, f, depth, rest);
    var text := Print(es[0].value, f, depth + 1);
    var s := PrintMembers(v, es, f, depth) + [0x7D] + rest;
    MembersSplit(v, es, f, depth, rest);
    ReadKey(es[0].key, f, text + after);
    ScanBehindMember(v, es, f, depth, rest);
    SetNewMember(done, es[0].key, |done|, back);
    if |es| == 1 {
      LastMember(done, es[0].key, s, text + after, back, after, rest);
    } else {
      NextMember(done, es[0].key, s, text + after, back, after, all, rest);
    }
  }

  /** `s` goes on with a key, a colon and the value text `s'`. */
  ghost predicate ReadsKey(s: seq<byte>, key: seq<byte>, s': seq<byte>) {
    var first := Scan(s);
    first.token == Text(key) && Scan(first.rest).token == Punct(0x3A) && Scan(Scan(first.rest).rest) == Scan(s')
  }

  lemma ReadKey(key: seq<byte>, f: Flags, s: seq<byte>)
    requires GoodText(key)
    ensures ReadsKey(StringText(key, f.ascii) + (Separator(f) + s), key, s)
  {
    ScanStringText(key, f.ascii, Separator(f) + s);
    hide Scan, StringText;
    var space := if f.compact then [] else [SPACE];
    assert Separator(f) + s == [0x3A] + (space + s);
    ScanPunct(0x3A, space + s);
    ScanSkips(space, s);
  }

  lemma LastMember(done: seq<Entry<Json>>, key: seq<byte>, s: seq<byte>, s': seq<byte>, v: Json, after: seq<byte>, rest: seq<byte>)
    requires ReadsKey(s, key, s') && Reads(s', v, after) && Scan(after) == Scanned(Punct(0x7D), rest)
    ensures ReadsMembers(done, s, Object(SetMember(done, key, |done|, v)), rest)
  {
    hide Scan, SetMember;
  }

  lemma NextMember(done: seq<Entry<Json>>, key: seq<byte>, s: seq<byte>, s': seq<byte>, v: Json, after: seq<byte>, all: Json, rest: seq<byte>)
    requires ReadsKey(s, key, s') && Reads(s', v, after) && Scan(after).token == Punct(0x2C)
    requires |SetMember(done, key, |done|, v)| == |done| + 1
    requires ReadsMembers(SetMember(done, key, |done|, v), Scan(after).rest, all, rest)
    ensures ReadsMembers(done, s, all, rest)
  {
    hide Scan, SetMember;
  }
}
