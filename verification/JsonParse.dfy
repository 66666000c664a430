/** What `json_loads` makes of a text, as functions (`compat/jansson/load.c`). */
module JsonParse {
  import opened Bytes
  import opened Utf8
  import opened JsonValue

  // ----- the character stream

  /**
    The characters `stream_get` delivers for the bytes `d`: an undecodable sequence is
    swallowed whole and becomes one EOF character.
    */
  function Cook(d: seq<byte>): seq<byte> {
    if d == [] then []
    else if d[0] < 0x80 || d[0] == EOF_CHAR then [d[0]] + Cook(d[1..])
    else
      var count := CheckFirst(d[0]);
      if count == 0 then [EOF_CHAR] + Cook(d[1..])
      else if count > |d| then [EOF_CHAR]
      else if CheckFull(d[..count]).Some? then d[..count] + Cook(d[count..])
      else [EOF_CHAR] + Cook(d[count..])
  }

  /**
    A stream is a sequence that goes on with EOF characters for ever. One EOF character at
    the very end of the data behaves like the end of the data, so it is dropped.
    */
  function Trim(s: seq<byte>): seq<byte> {
    if s != [] && s[|s| - 1] == EOF_CHAR then s[..|s| - 1] else s
  }

  function Head(s: seq<byte>): byte {
    if s == [] then EOF_CHAR else s[0]
  }

  // ----- character classes

  predicate IsDigit(c: byte) { 0x30 <= c <= 0x39 }
  predicate IsLower(c: byte) { 0x61 <= c <= 0x7A }
  predicate IsUpper(c: byte) { 0x41 <= c <= 0x5A }
  predicate IsAlpha(c: byte) { IsLower(c) || IsUpper(c) }
  predicate IsHex(c: byte) { IsDigit(c) || 0x61 <= c <= 0x66 || 0x41 <= c <= 0x46 }
  predicate IsSpace(c: byte) { c == SPACE || c == TAB || c == LF || c == CR }
  predicate IsExponent(c: byte) { c == 0x45 || c == 0x65 }
  /** The characters that may follow a backslash, `u` apart. */
  predicate IsShortcut(c: byte) {
    c == QUOTE || c == BACKSLASH || c == 0x2F || c == 0x62 || c == 0x66 || c == 0x6E || c == 0x72 || c == 0x74
  }
  predicate IsPunct(c: byte) {
    c == 0x7B || c == 0x7D || c == 0x5B || c == 0x5D || c == 0x3A || c == 0x2C
  }

  // ----- strings, first pass: where does the token end

  /** The length of the next piece of a string body, 0 when it is malformed or the string ends. */
  function Piece(s: seq<byte>): (n: nat)
    ensures n <= |s| && n <= 6
  {
    if s == [] || s[0] == QUOTE || s[0] == EOF_CHAR || s[0] <= 0x1F then 0
    else if s[0] != BACKSLASH then 1
    else if |s| < 2 then 0
    else if s[1] == 0x75 then
      if |s| >= 6 && IsHex(s[2]) && IsHex(s[3]) && IsHex(s[4]) && IsHex(s[5]) then 6 else 0
    else if IsShortcut(s[1]) then 2
    else 0
  }

  /** The distance to the closing quote, if the body before it is well formed. */
  function ScanString(s: seq<byte>): (r: Option<nat>)
    ensures r.Some? ==> r.value < |s| && s[r.value] == QUOTE && Body(s[..r.value])
  {
    if Head(s) == QUOTE then Some(0)
    else if Piece(s) == 0 then None
    else
      var n := Piece(s);
      match ScanString(s[n..])
      case None => None
      case Some(m) =>
        assert s[..n + m][n..] == s[n..][..m];
        assert Piece(s[..n + m]) == n;
        Some(n + m)
  }

  /** A text made of pieces. */
  predicate Body(b: seq<byte>) {
    b == [] || (Piece(b) > 0 && Body(b[Piece(b)..]))
  }

  // ----- strings, second pass: what does the body stand for

  function HexValue(c: byte): (r: int)
    requires IsHex(c)
    ensures 0 <= r < 16
  {
    if IsDigit(c) then c as int - 0x30 else if IsLower(c) then c as int - 0x61 + 10 else c as int - 0x41 + 10
  }

  /** `decode_unicode_escape` on the four digits. */
  function EscapeValue(d: seq<byte>): (r: int)
    requires |d| == 4 && IsHex(d[0]) && IsHex(d[1]) && IsHex(d[2]) && IsHex(d[3])
    ensures 0 <= r < 0x10000
  {
    ((HexValue(d[0]) * 0x10 + HexValue(d[1])) * 0x10 + HexValue(d[2])) * 0x10 + HexValue(d[3])
  }

  function ShortcutValue(c: byte): byte
    requires IsShortcut(c)
  {
    if c == 0x62 then 0x08 else if c == 0x66 then 0x0C else if c == 0x6E then 0x0A
    else if c == 0x72 then 0x0D else if c == 0x74 then 0x09 else c
  }

  datatype Decoded = Decoded(bytes: seq<byte>, used: nat)

  /** The bytes the next piece (or surrogate pair) of a body stands for. */
  function DecodePiece(b: seq<byte>): (r: Option<Decoded>)
    requires b != [] && Body(b)
    ensures r.Some? ==> 1 <= r.value.used <= |b| && Body(b[r.value.used..]) && |r.value.bytes| <= r.value.used
  {
    if b[0] != BACKSLASH then Some(Decoded([b[0]], 1))
    else if b[1] != 0x75 then Some(Decoded([ShortcutValue(b[1])], 2))
    else
      var value := EscapeValue(b[2..6]);
      var rest := b[6..];
      assert Piece(b) == 6 && Body(rest);
      if 0xD800 <= value <= 0xDBFF then
        if |rest| >= 2 && rest[0] == BACKSLASH && rest[1] == 0x75 then
          assert Piece(rest) == 6 && Body(rest[6..]);
          var value2 := EscapeValue(rest[2..6]);
          if 0xDC00 <= value2 <= 0xDFFF then
            assert rest[6..] == b[12..];
            Some(Decoded(Encode((value - 0xD800) * 0x400 + (value2 - 0xDC00) + 0x10000).value, 12))
          else None
        else None
      else if 0xDC00 <= value <= 0xDFFF then None
      else if value == 0 then None
      else Some(Decoded(Encode(value).value, 6))
  }

  function Decode(b: seq<byte>): (r: Option<seq<byte>>)
    requires Body(b)
    ensures r.Some? ==> |r.value| <= |b|
    decreases |b|
  {
    if b == [] then Some([])
    else match DecodePiece(b)
      case None => None
      case Some(d) =>
        match Decode(b[d.used..])
        case None => None
        case Some(t) => Some(d.bytes + t)
  }

  /** The second pass goes on behind the first piece. */
  lemma DecodeStep(b: seq<byte>)
    requires b != [] && Body(b) && DecodePiece(b).Some?
    ensures var d := DecodePiece(b).value;
      && 1 <= d.used <= |b| && |d.bytes| <= d.used && Body(b[d.used..])
      && Decode(b) == match Decode(b[d.used..]) case None => None case Some(t) => Some(d.bytes + t)
  {
  }

  // ----- tokens

  datatype Token =
    | Eof
    | Invalid
    | Punct(c: byte)
    | Text(s: seq<byte>)
    | Number(i: int)
    | RealNumber(text: seq<byte>)
    | TrueWord
    | FalseWord
    | NullWord

  datatype Scanned = Scanned(token: Token, rest: seq<byte>)

  function SpanDigits(s: seq<byte>): (n: nat)
    ensures n <= |s|
    ensures forall i :: 0 <= i < n ==> IsDigit(s[i])
    ensures !IsDigit(Head(s[n..]))
  {
    if s != [] && IsDigit(s[0]) then 1 + SpanDigits(s[1..]) else 0
  }

  function SpanAlpha(s: seq<byte>): (n: nat)
    ensures n <= |s|
    ensures forall i :: 0 <= i < n ==> IsAlpha(s[i])
    ensures !IsAlpha(Head(s[n..]))
  {
    if s != [] && IsAlpha(s[0]) then 1 + SpanAlpha(s[1..]) else 0
  }

  /** The number a run of decimal digits stands for (`strtol`). */
  function DecimalValue(d: seq<byte>): nat
    requires forall i :: 0 <= i < |d| ==> IsDigit(d[i])
  {
    if d == [] then 0 else assert IsDigit(d[|d| - 1]); DecimalValue(d[..|d| - 1]) * 10 + (d[|d| - 1] as int - 0x30)
  }

  /** The length of the integer part without its sign, 0 when there is none or it has a leading zero. */
  function IntegerPart(s: seq<byte>): (n: nat)
    ensures n <= |s| && forall i :: 0 <= i < n ==> IsDigit(s[i])
  {
    if Head(s) == 0x30 then (if IsDigit(Head(s[1..])) then 0 else 1) else SpanDigits(s)
  }

  /** `.` and digits, if a digit follows the point. */
  function Fraction(s: seq<byte>): (r: Option<nat>)
    ensures r.Some? ==> r.value <= |s|
  {
    if Head(s) != 0x2E then Some(0)
    else if !IsDigit(Head(s[1..])) then None
    else Some(1 + SpanDigits(s[1..]))
  }

  function Exponent(s: seq<byte>): (r: Option<nat>)
    ensures r.Some? ==> r.value <= |s|
  {
    if !IsExponent(Head(s)) then Some(0)
    else
      var sign := if Head(s[1..]) == 0x2B || Head(s[1..]) == 0x2D then 1 else 0;
      if !IsDigit(Head(s[1 + sign..])) then None else Some(1 + sign + SpanDigits(s[1 + sign..]))
  }

  /** The number `s` when it goes on at `u` with a fraction or an exponent. */
  function RealBehind(s: seq<byte>, u: seq<byte>): (r: Scanned)
    requires |u| <= |s|
    ensures r.token == Invalid || |r.rest| <= |u|
  {
    match Fraction(u)
    case None => Scanned(Invalid, [])
    case Some(m) =>
      var w := u[m..];
      match Exponent(w)
      case None => Scanned(Invalid, [])
      case Some(k) => Scanned(RealNumber(s[..|s| - |w| + k]), w[k..])
  }

  /** `lex_scan_number`; `s` starts with a minus sign or a digit. */
  function ScanNumber(s: seq<byte>): (r: Scanned)
    requires s != [] && (s[0] == 0x2D || IsDigit(s[0]))
    ensures r.token == Invalid || |r.rest| < |s|
  {
    var sign := if s[0] == 0x2D then 1 else 0;
    var t := s[sign..];
    var n := IntegerPart(t);
    if n == 0 then Scanned(Invalid, [])
    else
      var u := t[n..];
      if Head(u) != 0x2E && !IsExponent(Head(u)) then
        var value := if sign == 1 then -(DecimalValue(t[..n]) as int) else DecimalValue(t[..n]);
        if INT_MIN <= value <= INT_MAX then Scanned(Number(value), u) else Scanned(Invalid, [])
      else RealBehind(s, u)
  }

  /** The pieces of a number token, from its sign to the character behind it. */
  lemma NumberToken(s: seq<byte>, sign: nat, t: seq<byte>)
    requires s != [] && (s[0] == 0x2D || IsDigit(s[0]))
    requires sign == (if s[0] == 0x2D then 1 else 0) && t == s[sign..]
    ensures IntegerPart(t) == 0 ==> ScanNumber(s).token == Invalid
    ensures IntegerPart(t) > 0 ==>
      var u := t[IntegerPart(t)..];
      if Head(u) != 0x2E && !IsExponent(Head(u)) then
        var value := if sign == 1 then -(DecimalValue(t[..IntegerPart(t)]) as int) else DecimalValue(t[..IntegerPart(t)]);
        ScanNumber(s) == if INT_MIN <= value <= INT_MAX then Scanned(Number(value), u) else Scanned(Invalid, [])
      else if Fraction(u).None? then ScanNumber(s).token == Invalid
      else
        var w := u[Fraction(u).value..];
        if Exponent(w).None? then ScanNumber(s).token == Invalid
        else ScanNumber(s) == Scanned(RealNumber(s[..|s| - |w| + Exponent(w).value]), w[Exponent(w).value..])
  {
    hide IntegerPart, Fraction, Exponent, DecimalValue;
  }

  function Word(w: seq<byte>): Token {
    if w == [0x74, 0x72, 0x75, 0x65] then TrueWord
    else if w == [0x66, 0x61, 0x6C, 0x73, 0x65] then FalseWord
    else if w == [0x6E, 0x75, 0x6C, 0x6C] then NullWord
    else Invalid
  }

  /** `lex_scan`: the next token and the stream behind it (which nobody reads after an invalid one). */
  function Scan(s: seq<byte>): (r: Scanned)
    ensures r.token != Invalid && r.token != Eof ==> |r.rest| < |s|
    ensures r.token == Eof ==> r.rest == []
  {
    if s == [] then Scanned(Eof, [])
    else if IsSpace(s[0]) then Scan(s[1..])
    else if s[0] == EOF_CHAR then Scanned(Invalid, [])
    else if IsPunct(s[0]) then Scanned(Punct(s[0]), s[1..])
    else if s[0] == QUOTE then
      match ScanString(s[1..])
      case None => Scanned(Invalid, [])
      case Some(n) =>
        match Decode(s[1..][..n])
        case None => Scanned(Invalid, [])
        case Some(t) => Scanned(Text(t), s[n + 2..])
    else if s[0] == 0x2D || IsDigit(s[0]) then ScanNumber(s)
    else if IsAlpha(s[0]) then
      var n := SpanAlpha(s);
      var word := Word(s[..n]);
      Scanned(word, if word == Invalid then [] else s[n..])
    else Scanned(Invalid, [])
  }

  /** White space in front of a token does not matter. */
  lemma ScanSpace(s: seq<byte>)
    requires s != [] && IsSpace(s[0])
    ensures Scan(s) == Scan(s[1..])
  {
  }

  /** The first character decides which kind of token follows. */
  lemma ScanByFirst(s: seq<byte>)
    ensures s == [] ==> Scan(s) == Scanned(Eof, [])
    ensures s != [] && !IsSpace(s[0]) ==>
      if IsPunct(s[0]) then Scan(s) == Scanned(Punct(s[0]), s[1..])
      else if s[0] == QUOTE then true
      else if s[0] == 0x2D || IsDigit(s[0]) then Scan(s) == ScanNumber(s)
      else if IsAlpha(s[0]) then
        var word := Word(s[..SpanAlpha(s)]);
        Scan(s) == Scanned(word, if word == Invalid then [] else s[SpanAlpha(s)..])
      else Scan(s).token == Invalid
  {
    hide ScanNumber, SpanAlpha, Word, ScanString, Decode;
  }

  /** A string token, from its opening quote. */
  lemma StringToken(s: seq<byte>)
    ensures Scan([QUOTE] + s) == match ScanString(s)
      case None => Scanned(Invalid, [])
      case Some(n) => (match Decode(s[..n]) case None => Scanned(Invalid, []) case Some(t) => Scanned(Text(t), s[n + 1..]))
  {
    hide Word, ScanNumber, SpanAlpha, ScanString, Decode, Body;
    var all := [QUOTE] + s;
    assert all[1..] == s;
    if ScanString(s).Some? {
      assert all[ScanString(s).value + 2..] == s[ScanString(s).value + 1..];
    }
  }

  // ----- values

  datatype Parsed<T> = Failure | Success(value: T, rest: seq<byte>)

  /** `parse_value` with `token` current and `s` behind it. */
  function ParseValue(token: Token, s: seq<byte>): (r: Parsed<Json>)
    ensures r.Success? ==> |r.rest| <= |s|
    decreases |s|, 2
  {
    match token
    case Text(t) => Success(String(t), s)
    case Number(i) => Success(Integer(i), s)
    case RealNumber(t) => Success(Real(t), s)
    case TrueWord => Success(True, s)
    case FalseWord => Success(False, s)
    case NullWord => Success(Null, s)
    case Punct(c) =>
      if c == 0x7B then
        var first := Scan(s);
        if first.token == Punct(0x7D) then Success(Object([]), first.rest)
        else if first.token.Text? then ParseMembers([], 0, first.token, first.rest)
        else Failure
      else if c == 0x5B then
        var first := Scan(s);
        if first.token == Punct(0x5D) then Success(Array([]), first.rest)
        else if first.token == Eof || first.token == Invalid then Failure
        else ParseElems([], first.token, first.rest)
      else Failure
    case _ => Failure
  }

  /** The loop of `parse_array`, at the start of an element. */
  function ParseElems(done: seq<Json>, token: Token, s: seq<byte>): (r: Parsed<Json>)
    ensures r.Success? ==> |r.rest| <= |s|
    decreases |s|, 3
  {
    match ParseValue(token, s)
    case Failure => Failure
    case Success(v, rest) =>
      var sep := Scan(rest);
      if sep.token == Punct(0x2C) then
        var next := Scan(sep.rest);
        if next.token == Eof || next.token == Invalid then Failure
        else ParseElems(done + [v], next.token, next.rest)
      else if sep.token == Punct(0x5D) then Success(Array(done + [v]), sep.rest)
      else Failure
  }

  /** The loop of `parse_object`, at the start of a member. */
  function ParseMembers(done: seq<Entry<Json>>, serial: nat, token: Token, s: seq<byte>): (r: Parsed<Json>)
    ensures r.Success? ==> |r.rest| <= |s|
    decreases |s|, 3
  {
    if !token.Text? then Failure
    else
      var colon := Scan(s);
      if colon.token != Punct(0x3A) then Failure
      else
        var first := Scan(colon.rest);
        if first.token == Eof || first.token == Invalid then Failure
        else
          match ParseValue(first.token, first.rest)
          case Failure => Failure
          case Success(v, rest) =>
            var members := SetMember(done, token.s, serial, v);
            var sep := Scan(rest);
            if sep.token == Punct(0x2C) then
              var next := Scan(sep.rest);
              if next.token == Eof || next.token == Invalid then Failure
              else ParseMembers(members, serial + 1, next.token, next.rest)
            else if sep.token == Punct(0x7D) then Success(Object(members), sep.rest)
            else Failure
  }

  /** `json_loads` on a stream. */
  function ParseText(s: seq<byte>): Option<Json> {
    var first := Scan(s);
    if first.token != Punct(0x5B) && first.token != Punct(0x7B) then None
    else match ParseValue(first.token, first.rest)
      case Failure => None
      case Success(v, rest) => if Scan(rest).token == Eof then Some(v) else None
  }

  /** `json_loads` on a NUL-free string. */
  function Loads(d: seq<byte>): Option<Json> {
    ParseText(Trim(Cook(d)))
  }
}
