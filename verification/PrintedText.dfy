/**
  What the text of `json_dumps` looks like, byte by byte: one reading of the text from the left that
  counts the brackets that are open and allows exactly one spelling of everything between two bytes
  that matter.
  */
module PrintedText {
  import opened Bytes
  import opened Utf8
  import opened JsonValue
  import opened JsonOrder
  import opened JsonPrint
  import opened RoundTrip
  import opened RoundTripTheorems
  import Canonical
  import GrammarTheorems
  import G = JsonGrammar

  predicate Opens(c: byte) {
    c == 0x5B || c == 0x7B
  }

  predicate Closes(c: byte) {
    c == 0x5D || c == 0x7D
  }

  /** Spaces and line feeds; a text has no other white space. */
  predicate Blank(c: byte) {
    c == 0x20 || c == 0x0A
  }

  function BlankRun(t: seq<byte>): (n: nat)
    ensures n <= |t| && (n < |t| ==> !Blank(t[n]))
  {
    if t == [] || !Blank(t[0]) then 0 else 1 + BlankRun(t[1..])
  }

  /**
    The white space `w` between the bytes `a` and `b`, `depth` brackets being open. With an indentation
    a line ends behind a comma and an opening bracket and in front of a closing one, and the next one
    begins with that many spaces for every bracket that is open, one fewer in front of a closing one.
    A colon, and without an indentation a comma, is followed by one space or, in a compact text, by none.
    Nothing stands within an empty pair of brackets or anywhere else.
    */
  predicate Gap(w: seq<byte>, a: byte, b: byte, depth: nat, f: Flags) {
    if f.indent > 0 && (a == 0x2C || (Opens(a) && !Closes(b)) || (Closes(b) && !Opens(a))) then
      && w != [] && w[0] == 0x0A
      && |w| - 1 == f.indent * (if Closes(b) then depth - 1 else depth)
      && forall i :: 1 <= i < |w| ==> w[i] == 0x20
    else
      w == if (a == 0x2C || a == 0x3A) && !f.compact then [0x20] else []
  }

  /** Digits without capital letters. */
  predicate SmallHex(c: byte) {
    0x30 <= c <= 0x39 || 0x61 <= c <= 0x66
  }

  function HexNumber(c: byte): int {
    if c <= 0x39 then c as int - 48 else c as int - 87
  }

  /** The number after `\u`: only what has no shorter escape and must not be copied. */
  predicate Needed(n: int, ascii: bool) {
    || (n < 0x20 && n != 0x08 && n != 0x09 && n != 0x0A && n != 0x0C && n != 0x0D)
    || (ascii && n > 0x7F)
  }

  /** The second byte of an escape of two bytes; a slash is never escaped. */
  predicate Letter(c: byte) {
    c == 0x22 || c == 0x5C || c == 0x62 || c == 0x66 || c == 0x6E || c == 0x72 || c == 0x74
  }

  /** Two bytes, or six. */
  predicate EscapeAt(t: seq<byte>, ascii: bool) {
    && |t| >= 2 && t[0] == 0x5C
    && (Letter(t[1])
        || (&& t[1] == 0x75 && |t| >= 6 && SmallHex(t[2]) && SmallHex(t[3]) && SmallHex(t[4]) && SmallHex(t[5])
            && Needed(4096 * HexNumber(t[2]) + 256 * HexNumber(t[3]) + 16 * HexNumber(t[4]) + HexNumber(t[5]), ascii)))
  }

  /** Inside of a string, up to its closing quote and then to the end of the text. */
  predicate StringLaid(t: seq<byte>, depth: nat, f: Flags)
    decreases |t|, 0
  {
    && t != []
    && if t[0] == 0x22 then Laid(t[1..], 0x22, depth, f)
       else if t[0] == 0x5C then EscapeAt(t, f.ascii) && StringLaid(if t[1] == 0x75 then t[6..] else t[2..], depth, f)
       else t[0] >= 0x20 && (f.ascii ==> t[0] < 0x80) && StringLaid(t[1..], depth, f)
  }

  /** From a byte that is not white space to the end of the text. */
  predicate TokenLaid(t: seq<byte>, depth: nat, f: Flags)
    decreases |t|, 0
  {
    && t != []
    && if t[0] == 0x22 then StringLaid(t[1..], depth, f)
       else if Opens(t[0]) then Laid(t[1..], t[0], depth + 1, f)
       else if Closes(t[0]) then depth > 0 && Laid(t[1..], t[0], depth - 1, f)
       else 0x20 < t[0] < 0x7F && Laid(t[1..], t[0], depth, f)
  }

  /** From behind the byte `last`, outside of strings and with `depth` brackets open, to the end of the text. */
  predicate Laid(t: seq<byte>, last: byte, depth: nat, f: Flags)
    decreases |t|, 1
  {
    if t == [] then depth == 0
    else
      var n := BlankRun(t);
      n < |t| && Gap(t[..n], last, t[n], depth, f) && TokenLaid(t[n..], depth, f)
  }

  // ----- white space

  lemma {:induction false} BlankRunOf(w: seq<byte>, t: seq<byte>)
    requires forall i :: 0 <= i < |w| ==> Blank(w[i])
    requires t != [] && !Blank(t[0])
    ensures BlankRun(w + t) == |w|
  {
    if w == [] {
      assert w + t == t;
    } else {
      assert (w + t)[1..] == w[1..] + t;
      BlankRunOf(w[1..], t);
    }
  }

  /** A gap in front of a token. */
  lemma GapThen(w: seq<byte>, t: seq<byte>, last: byte, depth: nat, f: Flags)
    requires t != [] && !Blank(t[0]) && Gap(w, last, t[0], depth, f) && TokenLaid(t, depth, f)
    ensures Laid(w + t, last, depth, f)
  {
    hide TokenLaid;
    assert forall i :: 0 <= i < |w| ==> Blank(w[i]);
    hide Gap;
    BlankRunOf(w, t);
    assert (w + t)[..|w|] == w && (w + t)[|w|..] == t && (w + t)[|w|] == t[0];
  }

  lemma NoGap(t: seq<byte>, last: byte, depth: nat, f: Flags)
    requires t != [] && !Blank(t[0]) && Gap([], last, t[0], depth, f) && TokenLaid(t, depth, f)
    ensures Laid(t, last, depth, f)
  {
    GapThen([], t, last, depth, f);
    assert [] + t == t;
  }

  /** What ends a value; what follows it does not depend on which of these it is. */
  predicate Ends(c: byte) {
    c != 0x2C && c != 0x3A && !Opens(c)
  }

  lemma AnyEnd(t: seq<byte>, a: byte, b: byte, depth: nat, f: Flags)
    requires Ends(a) && Ends(b) && Laid(t, a, depth, f)
    ensures Laid(t, b, depth, f)
  {
  }

  /** A line break, or what stands in its place. */
  lemma IndentGap(f: Flags, depth: nat, a: byte, b: byte)
    ensures Opens(a) && !Closes(b) ==> Gap(Indent(f, depth, false), a, b, depth, f)
    ensures a == 0x2C && !Closes(b) ==> Gap(Indent(f, depth, true), a, b, depth, f)
    ensures Ends(a) && Closes(b) ==> Gap(Indent(f, depth, false), a, b, depth + 1, f)
  {
    assert depth * f.indent == f.indent * depth;
  }

  // ----- words and numbers

  /** A run of bytes with no meaning to the layout. */
  lemma {:induction false} RunLaid(w: seq<byte>, t: seq<byte>, depth: nat, f: Flags)
    requires w != [] && forall i :: 0 <= i < |w| ==> 0x20 < w[i] < 0x7F && w[i] != 0x22 && Ends(w[i]) && !Closes(w[i])
    requires Laid(t, 0x5D, depth, f)
    ensures TokenLaid(w + t, depth, f)
  {
    assert (w + t)[0] == w[0] && (w + t)[1..] == w[1..] + t;
    if |w| == 1 {
      assert w[1..] + t == t;
      AnyEnd(t, 0x5D, w[0], depth, f);
    } else {
      RunLaid(w[1..], t, depth, f);
      assert (w[1..] + t)[0] == w[1];
      NoGap(w[1..] + t, w[0], depth, f);
    }
  }

  // ----- strings

  lemma {:induction false} CopiedLaid(w: seq<byte>, t: seq<byte>, depth: nat, f: Flags)
    requires forall i :: 0 <= i < |w| ==> Plain(w[i]) && (f.ascii ==> w[i] < 0x80)
    requires StringLaid(t, depth, f)
    ensures StringLaid(w + t, depth, f)
  {
    if w == [] {
      assert w + t == t;
    } else {
      CopiedLaid(w[1..], t, depth, f);
      hide Laid;
      assert (w + t)[1..] == w[1..] + t;
    }
  }

  lemma HexDigitSmall(n: int)
    requires 0 <= n < 16
    ensures SmallHex(HexDigit(n)) && HexNumber(HexDigit(n)) == n
  {
  }

  lemma UnicodeLaid(n: int, t: seq<byte>, depth: nat, f: Flags)
    requires 0 <= n < 0x10000 && Needed(n, f.ascii)
    requires StringLaid(t, depth, f)
    ensures StringLaid(UnicodeEscape(n) + t, depth, f)
  {
    hide HexDigit, HexNumber, SmallHex, Laid, Needed;
    HexDigitSmall(n / 0x1000);
    HexDigitSmall(n / 0x100 % 0x10);
    HexDigitSmall(n / 0x10 % 0x10);
    HexDigitSmall(n % 0x10);
    HexPlaces(n);
    var e := UnicodeEscape(n);
    assert (e + t)[6..] == t;
    assert EscapeAt(e + t, f.ascii);
  }

  lemma LetterLaid(c: byte, t: seq<byte>, depth: nat, f: Flags)
    requires Letter(c) && StringLaid(t, depth, f)
    ensures StringLaid([0x5C, c] + t, depth, f)
  {
    hide Laid;
    assert ([0x5C, c] + t)[2..] == t;
  }

  lemma EscapeLaid(cp: int, t: seq<byte>, depth: nat, f: Flags)
    requires Scalar(cp) && MustEscape(cp, f.ascii) && StringLaid(t, depth, f)
    ensures StringLaid(EscapeText(cp) + t, depth, f)
  {
    hide StringLaid, UnicodeEscape;
    if cp == 0x5C || cp == 0x22 {
      LetterLaid(cp as byte, t, depth, f);
    } else if cp == 0x08 {
      LetterLaid(0x62, t, depth, f);
    } else if cp == 0x0C {
      LetterLaid(0x66, t, depth, f);
    } else if cp == 0x0A {
      LetterLaid(0x6E, t, depth, f);
    } else if cp == 0x0D {
      LetterLaid(0x72, t, depth, f);
    } else if cp == 0x09 {
      LetterLaid(0x74, t, depth, f);
    } else if cp < 0x10000 {
      UnicodeLaid(cp, t, depth, f);
    } else {
      var hi, lo := 0xD800 + (cp - 0x10000) / 0x400, 0xDC00 + (cp - 0x10000) % 0x400;
      UnicodeLaid(lo, t, depth, f);
      UnicodeLaid(hi, UnicodeEscape(lo) + t, depth, f);
      Regroup3(UnicodeEscape(hi), UnicodeEscape(lo), t);
    }
  }

  lemma UnitLaid(b: seq<byte>, cp: int, t: seq<byte>, depth: nat, f: Flags)
    requires Scalar(cp) && Encode(cp) == Some(b) && StringLaid(t, depth, f)
    ensures StringLaid((if MustEscape(cp, f.ascii) then EscapeText(cp) else b) + t, depth, f)
  {
    hide StringLaid, EscapeText;
    if MustEscape(cp, f.ascii) {
      EscapeLaid(cp, t, depth, f);
    } else {
      if cp > 0x7F {
        EncodingIsPlain(cp);
      }
      CopiedLaid(b, t, depth, f);
    }
  }

  lemma {:induction false} EscapedLaid(s: seq<byte>, t: seq<byte>, depth: nat, f: Flags)
    requires GoodText(s) && StringLaid(t, depth, f)
    ensures StringLaid(Escaped(s, f.ascii) + t, depth, f)
    decreases |s|
  {
    hide StringLaid, EscapeText, FirstUnit, MustEscape;
    if s == [] {
      assert Escaped(s, f.ascii) + t == t;
    } else {
      var Unit(cp, count) := FirstUnit(s).value;
      ReadThenEncode(s);
      var first, rest := if MustEscape(cp, f.ascii) then EscapeText(cp) else s[..count], Escaped(s[count..], f.ascii);
      EscapedLaid(s[count..], t, depth, f);
      UnitLaid(s[..count], cp, rest + t, depth, f);
      Regroup3(first, rest, t);
    }
  }

  lemma StringTextLaid(s: seq<byte>, t: seq<byte>, depth: nat, f: Flags)
    requires GoodText(s) && Laid(t, 0x22, depth, f)
    ensures TokenLaid(StringText(s, f.ascii) + t, depth, f)
  {
    hide Escaped, Laid, Valid, NulFree;
    var e := Escaped(s, f.ascii);
    assert ([0x22] + t)[1..] == t;
    EscapedLaid(s, [0x22] + t, depth, f);
    assert (StringText(s, f.ascii) + t)[1..] == e + ([0x22] + t);
  }

  /** An integer is printed without a leading zero, and zero without a sign. */
  lemma DigitsSpelled(n: nat)
    ensures G.IntegerDigits(Digits(n)) && G.Decimal(Digits(n)) == n
  {
    DigitsRead(n);
    GrammarTheorems.DecimalAgrees(Digits(n));
    hide Digits;
    assert |Digits(n)| > 1 ==> Digits(n)[0] != 0x30 by {
      if n == 0 {
        ZeroDigit();
      }
    }
  }

  lemma ZeroDigit()
    ensures Digits(0) == [0x30]
  {
  }

  lemma IntegerSpelled(i: int) returns (d: seq<byte>)
    ensures G.IntegerDigits(d) && IntegerText(i) == G.Minus(i < 0) + d && G.Signed(i < 0, d) == i
  {
    hide Digits, G.Decimal;
    d := Digits(if i < 0 then -i else i);
    DigitsSpelled(if i < 0 then -i else i);
  }

  // ----- containers

  /** The first byte of a value or a key. */
  predicate Begins(t: seq<byte>) {
    t != [] && !Blank(t[0]) && !Closes(t[0])
  }

  lemma PrintBegins(v: Json, f: Flags, depth: nat, t: seq<byte>)
    requires WellFormed(v)
    ensures Begins(Print(v, f, depth) + t)
  {
    hide WellFormed, PrintElems, PrintMembers, Escaped, Sort;
    if v.Integer? {
      DigitsRead(if v.i < 0 then -v.i else v.i);
    }
  }

  lemma KeyBegins(key: seq<byte>, t: seq<byte>, f: Flags)
    ensures Begins(StringText(key, f.ascii) + t)
  {
    hide Escaped;
  }

  lemma CloserLaid(c: byte, t: seq<byte>, f: Flags, depth: nat)
    requires Closes(c) && Laid(t, 0x5D, depth, f)
    ensures TokenLaid([c] + t, depth + 1, f)
  {
    AnyEnd(t, 0x5D, c, depth, f);
    hide Laid;
    assert ([c] + t)[1..] == t;
  }

  lemma EmptyLaid(v: Json, t: seq<byte>, f: Flags, depth: nat)
    requires v == Array([]) || v == Object([])
    requires Laid(t, 0x5D, depth, f)
    ensures TokenLaid(Print(v, f, depth) + t, depth, f)
  {
    hide Laid;
    var a, c := if v.Array? then 0x5B else 0x7B, if v.Array? then 0x5D else 0x7D;
    CloserLaid(c, t, f, depth);
    NoGap([c] + t, a, depth + 1, f);
    assert Print(v, f, depth) + t == [a] + ([c] + t);
    assert ([a] + ([c] + t))[1..] == [c] + t;
  }

  /** An opening bracket and the line break behind it. */
  lemma OpenerLaid(a: byte, t: seq<byte>, f: Flags, depth: nat)
    requires Opens(a) && Begins(t) && TokenLaid(t, depth + 1, f)
    ensures TokenLaid([a] + (Indent(f, depth + 1, false) + t), depth, f)
  {
    IndentGap(f, depth + 1, a, t[0]);
    GapThen(Indent(f, depth + 1, false), t, a, depth + 1, f);
    hide Laid, Indent;
    assert ([a] + (Indent(f, depth + 1, false) + t))[1..] == Indent(f, depth + 1, false) + t;
  }

  lemma CommaLaid(t: seq<byte>, f: Flags, depth: nat)
    requires Begins(t) && TokenLaid(t, depth + 1, f)
    ensures Laid([0x2C] + (Indent(f, depth + 1, true) + t), 0x5D, depth + 1, f)
  {
    IndentGap(f, depth + 1, 0x2C, t[0]);
    GapThen(Indent(f, depth + 1, true), t, 0x2C, depth + 1, f);
    PlainByte(0x2C, Indent(f, depth + 1, true) + t, depth + 1, f);
    NoGap([0x2C] + (Indent(f, depth + 1, true) + t), 0x5D, depth + 1, f);
  }

  /** The line break in front of a closing bracket, and the bracket. */
  lemma EndLaid(c: byte, t: seq<byte>, f: Flags, depth: nat)
    requires Closes(c) && Laid(t, 0x5D, depth, f)
    ensures Laid(Indent(f, depth, false) + ([c] + t), 0x5D, depth + 1, f)
  {
    CloserLaid(c, t, f, depth);
    IndentGap(f, depth, 0x5D, c);
    GapThen(Indent(f, depth, false), [c] + t, 0x5D, depth + 1, f);
  }

  lemma PlainByte(c: byte, t: seq<byte>, depth: nat, f: Flags)
    requires c == 0x2C || c == 0x3A
    requires Laid(t, c, depth, f)
    ensures TokenLaid([c] + t, depth, f)
  {
    hide Laid;
    assert ([c] + t)[1..] == t;
  }

  lemma ColonLaid(t: seq<byte>, f: Flags, depth: nat)
    requires Begins(t) && TokenLaid(t, depth, f)
    ensures Laid(Separator(f) + t, 0x22, depth, f)
  {
    hide TokenLaid;
    var gap := if f.compact then [] else [0x20];
    GapThen(gap, t, 0x3A, depth, f);
    assert Separator(f) + t == [0x3A] + (gap + t);
    PlainByte(0x3A, gap + t, depth, f);
    NoGap([0x3A] + (gap + t), 0x22, depth, f);
  }

  lemma IntegerLaid(i: int, f: Flags, depth: nat, t: seq<byte>)
    requires Laid(t, 0x5D, depth, f)
    ensures TokenLaid(IntegerText(i) + t, depth, f)
  {
    hide Laid, TokenLaid, Digits;
    DigitsRead(if i < 0 then -i else i);
    RunLaid(IntegerText(i), t, depth, f);
  }

  lemma WordLaid(w: seq<byte>, f: Flags, depth: nat, t: seq<byte>)
    requires w == TRUE_TEXT || w == FALSE_TEXT || w == NULL_TEXT
    requires Laid(t, 0x5D, depth, f)
    ensures TokenLaid(w + t, depth, f)
  {
    hide Laid, TokenLaid;
    RunLaid(w, t, depth, f);
  }

  lemma AtomLaid(v: Json, f: Flags, depth: nat, t: seq<byte>)
    requires WellFormed(v) && !Container(v) && Laid(t, 0x5D, depth, f)
    ensures TokenLaid(Print(v, f, depth) + t, depth, f)
  {
    hide Laid, TokenLaid, StringText, IntegerText, PrintElems, PrintMembers, Sort;
    match v
    case Integer(i) => IntegerLaid(i, f, depth, t);
    case String(s) =>
      AnyEnd(t, 0x5D, 0x22, depth, f);
      StringTextLaid(s, t, depth, f);
    case _ => WordLaid(Print(v, f, depth), f, depth, t);
  }

  /** An array with anything in it, given what its contents look like. */
  lemma FilledArray(v: Json, f: Flags, depth: nat, t: seq<byte>)
    requires v.Array? && v.elems != []
    requires var text := PrintElems(v.elems, f, depth) + [0x5D] + t; Begins(text) && TokenLaid(text, depth + 1, f)
    ensures TokenLaid(Print(v, f, depth) + t, depth, f)
  {
    hide Laid, TokenLaid, Indent, PrintElems, Begins;
    var ind, elems := Indent(f, depth + 1, false), PrintElems(v.elems, f, depth);
    OpenerLaid(0x5B, elems + [0x5D] + t, f, depth);
    assert [0x5B] + ind + elems + [0x5D] + t == [0x5B] + (ind + (elems + [0x5D] + t));
  }

  lemma FilledObject(v: Json, es: seq<Entry<Json>>, f: Flags, depth: nat, t: seq<byte>)
    requires v.Object? && v.entries != [] && es == Sort(v.entries, f.Order())
    requires forall i :: 0 <= i < |es| ==> es[i] in v.entries
    requires var text := PrintMembers(v, es, f, depth) + [0x7D] + t; Begins(text) && TokenLaid(text, depth + 1, f)
    ensures TokenLaid(Print(v, f, depth) + t, depth, f)
  {
    hide Laid, TokenLaid, Indent, Sort, PrintMembers, Begins;
    var ind, members := Indent(f, depth + 1, false), PrintMembers(v, es, f, depth);
    OpenerLaid(0x7B, members + [0x7D] + t, f, depth);
    assert [0x7B] + ind + members + [0x7D] + t == [0x7B] + (ind + (members + [0x7D] + t));
  }

  lemma SortedMembers(es: seq<Entry<Json>>, order: Order)
    requires es != []
    ensures var sorted := Sort(es, order); sorted != [] && forall i :: 0 <= i < |sorted| ==> sorted[i] in es
  {
    hide Sort;
    SortPermutes(es, order);
    forall i | 0 <= i < |Sort(es, order)| ensures Sort(es, order)[i] in es {
      Canonical.SortedMember(es, order, i);
    }
  }

  /** Wherever a value may stand, its text is laid out. */
  lemma {:induction false} PrintLaid(v: Json, f: Flags, depth: nat, t: seq<byte>)
    requires WellFormed(v) && Laid(t, 0x5D, depth, f)
    ensures TokenLaid(Print(v, f, depth) + t, depth, f)
    decreases v, 1, 0
  {
    hide Laid, TokenLaid, Sort, Print, PrintElems, PrintMembers, Begins;
    if v == Array([]) || v == Object([]) {
      EmptyLaid(v, t, f, depth);
    } else if v.Array? {
      ElemsLaid(v.elems, f, depth, t);
      FilledArray(v, f, depth, t);
    } else if v.Object? {
      var sorted := Sort(v.entries, f.Order());
      SortedMembers(v.entries, f.Order());
      MembersLaid(v, sorted, f, depth, t);
      FilledObject(v, sorted, f, depth, t);
    } else {
      AtomLaid(v, f, depth, t);
    }
  }

  lemma {:induction false} ElemsLaid(vs: seq<Json>, f: Flags, depth: nat, t: seq<byte>)
    requires vs != [] && (forall i :: 0 <= i < |vs| ==> WellFormed(vs[i])) && Laid(t, 0x5D, depth, f)
    ensures var text := PrintElems(vs, f, depth) + [0x5D] + t; Begins(text) && TokenLaid(text, depth + 1, f)
    decreases vs, 0
  {
    hide Laid, TokenLaid, Print, PrintElems, Indent, Begins;
    var after := BehindElem(vs, f, depth, t);
    if |vs| == 1 {
      EndLaid(0x5D, t, f, depth);
    } else {
      ElemsLaid(vs[1..], f, depth, t);
      CommaLaid(PrintElems(vs[1..], f, depth) + [0x5D] + t, f, depth);
    }
    ElemsSplit(vs, f, depth, t);
    PrintLaid(vs[0], f, depth + 1, after);
    PrintBegins(vs[0], f, depth + 1, after);
  }

  lemma {:induction false} MembersLaid(v: Json, es: seq<Entry<Json>>, f: Flags, depth: nat, t: seq<byte>)
    requires WellFormed(v) && v.Object? && es != [] && (forall i :: 0 <= i < |es| ==> es[i] in v.entries)
    requires Laid(t, 0x5D, depth, f)
    ensures var text := PrintMembers(v, es, f, depth) + [0x7D] + t; Begins(text) && TokenLaid(text, depth + 1, f)
    decreases v, 0, |es|
  {
    hide Laid, TokenLaid, Print, PrintMembers, Indent, Begins, WellFormed, Separator, StringText;
    var after := BehindMember(v, es, f, depth, t);
    if |es| == 1 {
      EndLaid(0x7D, t, f, depth);
    } else {
      MembersLaid(v, es[1..], f, depth, t);
      CommaLaid(PrintMembers(v, es[1..], f, depth) + [0x7D] + t, f, depth);
    }
    var e := es[0];
    assert e in v.entries;
    MembersSplit(v, es, f, depth, t);
    MemberWellFormed(v, e);
    PrintLaid(e.value, f, depth + 1, after);
    PrintBegins(e.value, f, depth + 1, after);
    ColonLaid(Print(e.value, f, depth + 1) + after, f, depth + 1);
    var behind := Separator(f) + (Print(e.value, f, depth + 1) + after);
    StringTextLaid(e.key, behind, depth + 1, f);
    KeyBegins(e.key, behind, f);
  }

  // ----- the whole text

  /** The text of every well-formed container is laid out. */
  lemma DumpsLaid(v: Json, f: Flags)
    requires WellFormed(v) && Container(v)
    ensures Laid(Dumps(v, f), NUL, 0, f)
  {
    hide WellFormed, TokenLaid, PrintElems, PrintMembers, Sort;
    PrintLaid(v, f, 0, []);
    assert Dumps(v, f) + [] == Dumps(v, f);
    NoGap(Dumps(v, f), NUL, 0, f);
  }

  // ----- consequences

  /** Where a reading stands: outside of strings, inside of one, or behind a backslash in one; brackets open. */
  datatype Place = Outside(depth: int) | Inside(depth: int) | BehindBackslash(depth: int)

  function Step(p: Place, c: byte): Place {
    match p
    case Outside(d) =>
      if c == 0x22 then Inside(d) else if Opens(c) then Outside(d + 1) else if Closes(c) then Outside(d - 1) else p
    case Inside(d) => if c == 0x22 then Outside(d) else if c == 0x5C then BehindBackslash(d) else p
    case BehindBackslash(d) => Inside(d)
  }

  function Behind(t: seq<byte>, p: Place): Place {
    if t == [] then p else Behind(t[1..], Step(p, t[0]))
  }

  function SpaceRun(t: seq<byte>): (n: nat)
    ensures n <= |t| && (n < |t| ==> t[n] != 0x20)
  {
    if t == [] || t[0] != 0x20 then 0 else 1 + SpaceRun(t[1..])
  }

  /** The line feed at `i` is outside of strings and begins a line with as many spaces as belong there. */
  predicate LineAt(t: seq<byte>, i: nat, p: Place, f: Flags)
    requires i < |t|
  {
    var here, spaces := Behind(t[..i], p), SpaceRun(t[i + 1..]);
    && f.indent > 0
    && here.Outside?
    && i + 1 + spaces < |t|
    && spaces == f.indent * (if Closes(t[i + 1 + spaces]) then here.depth - 1 else here.depth)
  }

  lemma LineStep(t: seq<byte>, i: nat, p: Place, f: Flags)
    requires 0 < i < |t|
    ensures LineAt(t, i, p, f) == LineAt(t[1..], i - 1, Step(p, t[0]), f)
  {
    hide Step;
    assert t[..i][1..] == t[1..][..i - 1] && t[1..][i..] == t[i + 1..];
  }

  lemma {:induction false} SpaceRunOf(w: seq<byte>, t: seq<byte>)
    requires forall i :: 0 <= i < |w| ==> w[i] == 0x20
    requires t != [] && t[0] != 0x20
    ensures SpaceRun(w + t) == |w|
  {
    if w == [] {
      assert w + t == t;
    } else {
      assert (w + t)[1..] == w[1..] + t;
      SpaceRunOf(w[1..], t);
    }
  }

  /** White space outside of strings leaves the place as it is. */
  lemma {:induction false} LineLater(t: seq<byte>, n: nat, i: nat, d: int, f: Flags)
    requires n <= i < |t| && forall j :: 0 <= j < n ==> Blank(t[j])
    ensures LineAt(t, i, Outside(d), f) == LineAt(t[n..], i - n, Outside(d), f)
  {
    if n == 0 {
      assert t[0..] == t;
    } else {
      hide LineAt, Behind, SpaceRun;
      LineStep(t, i, Outside(d), f);
      LineLater(t[1..], n - 1, i - 1, d, f);
      assert t[1..][n - 1..] == t[n..];
    }
  }

  lemma {:induction false} BlankRunBlank(t: seq<byte>)
    ensures forall j :: 0 <= j < BlankRun(t) ==> Blank(t[j])
  {
    if BlankRun(t) > 0 {
      BlankRunBlank(t[1..]);
      assert forall j :: 1 <= j < BlankRun(t) ==> t[j] == t[1..][j - 1];
    }
  }

  /** The line feed a gap begins with. */
  lemma GapLine(t: seq<byte>, last: byte, depth: nat, f: Flags)
    requires t != [] && t[0] == 0x0A && Laid(t, last, depth, f)
    ensures LineAt(t, 0, Outside(depth), f)
  {
    hide TokenLaid, BlankRun;
    var n := BlankRun(t);
    assert n > 0 by { BlankRunBlank(t); }
    assert t[..n][0] == t[0];
    var spaces := t[1..n];
    assert forall i :: 0 <= i < |spaces| ==> spaces[i] == t[..n][i + 1];
    SpaceRunOf(spaces, t[n..]);
    assert spaces + t[n..] == t[1..];
    assert t[..0] == [];
  }

  lemma {:induction false} LaidLines(t: seq<byte>, last: byte, depth: nat, f: Flags, i: nat)
    requires i < |t| && t[i] == 0x0A && Laid(t, last, depth, f)
    ensures LineAt(t, i, Outside(depth), f)
    decreases |t|, 1
  {
    hide TokenLaid, LineAt;
    var n := BlankRun(t);
    BlankRunBlank(t);
    assert forall j :: 0 <= j < n ==> t[..n][j] == t[j];
    if i < n {
      GapLine(t, last, depth, f);
    } else {
      TokenLines(t[n..], depth, f, i - n);
      LineLater(t, n, i, depth, f);
    }
  }

  lemma {:induction false} TokenLines(t: seq<byte>, depth: nat, f: Flags, i: nat)
    requires i < |t| && t[i] == 0x0A && TokenLaid(t, depth, f)
    ensures LineAt(t, i, Outside(depth), f)
    decreases |t|, 0
  {
    hide LineAt, Laid, StringLaid;
    LineStep(t, i, Outside(depth), f);
    if t[0] == 0x22 {
      StringLines(t[1..], depth, f, i - 1);
    } else if Opens(t[0]) {
      LaidLines(t[1..], t[0], depth + 1, f, i - 1);
    } else if Closes(t[0]) {
      LaidLines(t[1..], t[0], depth - 1, f, i - 1);
    } else {
      LaidLines(t[1..], t[0], depth, f, i - 1);
    }
  }

  lemma {:induction false} StringLines(t: seq<byte>, depth: nat, f: Flags, i: nat)
    requires i < |t| && t[i] == 0x0A && StringLaid(t, depth, f)
    ensures LineAt(t, i, Inside(depth), f)
    decreases |t|, 0
  {
    hide LineAt, Laid;
    LineStep(t, i, Inside(depth), f);
    if t[0] == 0x22 {
      LaidLines(t[1..], 0x22, depth, f, i - 1);
    } else if t[0] == 0x5C {
      LineStep(t[1..], i - 1, BehindBackslash(depth), f);
      if t[1] == 0x75 {
        DigitsStep(t, i, depth, f);
        StringLines(t[6..], depth, f, i - 6);
      } else {
        StringLines(t[2..], depth, f, i - 2);
        assert t[1..][1..] == t[2..];
      }
    } else {
      StringLines(t[1..], depth, f, i - 1);
    }
  }

  lemma DigitsStep(t: seq<byte>, i: nat, depth: nat, f: Flags)
    requires |t| >= 6 && 6 <= i < |t| && SmallHex(t[2]) && SmallHex(t[3]) && SmallHex(t[4]) && SmallHex(t[5])
    ensures LineAt(t[2..], i - 2, Inside(depth), f) == LineAt(t[6..], i - 6, Inside(depth), f)
  {
    hide LineAt;
    LineStep(t[2..], i - 2, Inside(depth), f);
    LineStep(t[3..], i - 3, Inside(depth), f);
    LineStep(t[4..], i - 4, Inside(depth), f);
    LineStep(t[5..], i - 5, Inside(depth), f);
    assert t[2..][1..] == t[3..] && t[3..][1..] == t[4..] && t[4..][1..] == t[5..] && t[5..][1..] == t[6..];
  }

  /** Every line of a text is indented by the brackets open there; without an indentation there is one line. */
  lemma DumpsLines(v: Json, f: Flags, i: nat)
    requires WellFormed(v) && Container(v) && i < |Dumps(v, f)| && Dumps(v, f)[i] == 0x0A
    ensures LineAt(Dumps(v, f), i, Outside(0), f)
  {
    hide Laid, LineAt, Dumps;
    DumpsLaid(v, f);
    LaidLines(Dumps(v, f), NUL, 0, f, i);
  }

  lemma {:induction false} LaidAscii(t: seq<byte>, last: byte, depth: nat, f: Flags)
    requires Laid(t, last, depth, f) && f.ascii
    ensures forall i :: 0 <= i < |t| ==> t[i] < 0x80
    decreases |t|, 1
  {
    hide TokenLaid, Gap;
    if t != [] {
      var n := BlankRun(t);
      BlankRunBlank(t);
      TokenAscii(t[n..], depth, f);
      assert forall i :: n <= i < |t| ==> t[i] == t[n..][i - n];
    }
  }

  lemma {:induction false} TokenAscii(t: seq<byte>, depth: nat, f: Flags)
    requires TokenLaid(t, depth, f) && f.ascii
    ensures forall i :: 0 <= i < |t| ==> t[i] < 0x80
    decreases |t|, 0
  {
    hide Laid, StringLaid;
    if t[0] == 0x22 {
      StringAscii(t[1..], depth, f);
    } else {
      LaidAscii(t[1..], t[0], if Opens(t[0]) then depth + 1 else if Closes(t[0]) then depth - 1 else depth, f);
    }
    assert forall i :: 1 <= i < |t| ==> t[i] == t[1..][i - 1];
  }

  lemma {:induction false} StringAscii(t: seq<byte>, depth: nat, f: Flags)
    requires StringLaid(t, depth, f) && f.ascii
    ensures forall i :: 0 <= i < |t| ==> t[i] < 0x80
    decreases |t|, 0
  {
    hide Laid;
    var n := if t[0] != 0x5C then 1 else if t[1] == 0x75 then 6 else 2;
    if t[0] == 0x22 {
      LaidAscii(t[1..], 0x22, depth, f);
    } else {
      StringAscii(t[n..], depth, f);
    }
    assert forall i :: n <= i < |t| ==> t[i] == t[n..][i - n];
  }

  /** With the ASCII flag nothing but ASCII is printed. */
  lemma DumpsAscii(v: Json, f: Flags)
    requires WellFormed(v) && Container(v) && f.ascii
    ensures forall i :: 0 <= i < |Dumps(v, f)| ==> Dumps(v, f)[i] < 0x80
  {
    hide Laid, Dumps;
    DumpsLaid(v, f);
    LaidAscii(Dumps(v, f), NUL, 0, f);
  }
}
