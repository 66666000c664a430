/** The laws that tie `json_dumps` and `json_loads` together. */
module RoundTripTheorems {
  import opened Bytes
  import opened Utf8
  import opened JsonValue
  import opened JsonOrder
  import opened JsonPrint
  import opened JsonParse
  import opened Canonical
  import opened RoundTrip
  import opened LoadedText

  // ----- printed text is NUL-free UTF-8

  lemma GoodAsciiText(s: seq<byte>)
    requires forall i :: 0 <= i < |s| ==> 0 < s[i] < 0x80
    ensures GoodText(s)
  {
    AsciiValid(s);
  }

  lemma EscapeTextAscii(cp: int)
    requires 0 <= cp <= MAX_CODEPOINT
    ensures forall i :: 0 <= i < |EscapeText(cp)| ==> 0 < EscapeText(cp)[i] < 0x80
  {
  }

  lemma {:induction false} EscapedGood(s: seq<byte>, ascii: bool)
    requires GoodText(s)
    ensures GoodText(Escaped(s, ascii))
    decreases |s|
  {
    if s != [] {
      var Unit(cp, count) := FirstUnit(s).value;
      FirstUnitGood(s);
      if MustEscape(cp, ascii) {
        EscapeTextAscii(cp);
        GoodAsciiText(EscapeText(cp));
      }
      EscapedGood(s[count..], ascii);
      hide EscapeText, FirstUnit, GoodText;
      GoodConcat(if MustEscape(cp, ascii) then EscapeText(cp) else s[..count], Escaped(s[count..], ascii));
    }
  }

  lemma FirstUnitGood(s: seq<byte>)
    requires GoodText(s) && s != []
    ensures var u := FirstUnit(s).value;
            Scalar(u.cp) && GoodText(s[..u.count]) && GoodText(s[u.count..]) && (u.cp < 0x80 ==> u.count == 1 && u.cp == s[0] as int)
  {
    ReadThenEncode(s);
    if s[0] >= 0x80 {
      UnitBytes(s);
    } else {
      GoodAscii(s[0]);
      assert s[..1] == [s[0]];
    }
  }

  lemma StringTextGood(s: seq<byte>, ascii: bool)
    requires GoodText(s)
    ensures GoodText(StringText(s, ascii))
  {
    EscapedGood(s, ascii);
    GoodAscii(QUOTE);
    GoodConcat([QUOTE], Escaped(s, ascii));
    GoodConcat([QUOTE] + Escaped(s, ascii), [QUOTE]);
  }

  lemma IntegerTextGood(i: int)
    ensures GoodText(IntegerText(i))
  {
    DigitsRead(if i < 0 then -i else i);
    var t := IntegerText(i);
    forall j | 0 <= j < |t| ensures 0 < t[j] < 0x80 {
      if i >= 0 {
        assert IsDigit(t[j]);
      } else if j > 0 {
        assert IsDigit(Digits(-i)[j - 1]);
      }
    }
    GoodAsciiText(t);
  }

  lemma IndentGood(f: Flags, depth: nat, space: bool)
    ensures GoodText(Indent(f, depth, space)) && GoodText(Separator(f))
  {
    GoodAsciiText(Indent(f, depth, space));
    GoodAsciiText(Separator(f));
  }

  lemma {:induction false} PrintGood(v: Json, f: Flags, depth: nat)
    requires WellFormed(v)
    ensures GoodText(Print(v, f, depth))
    decreases v, 1, 0
  {
    match v
    case String(s) => StringTextGood(s, f.ascii);
    case Integer(i) => IntegerTextGood(i);
    case Array(elems) =>
      if elems != [] {
        PrintElemsGood(elems, f, depth);
        BracketsGood(0x5B, Indent(f, depth + 1, false), PrintElems(elems, f, depth), 0x5D, f, depth);
      } else {
        GoodAsciiText([0x5B, 0x5D]);
      }
    case Object(es) =>
      if es != [] {
        var sorted := Sort(es, f.Order());
        forall i | 0 <= i < |sorted| ensures sorted[i] in v.entries {
          SortedMember(es, f.Order(), i);
        }
        PrintMembersGood(v, sorted, f, depth);
        BracketsGood(0x7B, Indent(f, depth + 1, false), PrintMembers(v, sorted, f, depth), 0x7D, f, depth);
      } else {
        GoodAsciiText([0x7B, 0x7D]);
      }
    case _ => GoodAsciiText(Print(v, f, depth));
  }

  lemma BracketsGood(left: byte, ind: seq<byte>, body: seq<byte>, right: byte, f: Flags, depth: nat)
    requires 0 < left < 0x80 && 0 < right < 0x80 && ind == Indent(f, depth + 1, false) && GoodText(body)
    ensures GoodText([left] + ind + body + [right])
  {
    IndentGood(f, depth + 1, false);
    GoodAscii(left);
    GoodAscii(right);
    hide GoodText, Indent;
    GoodConcat([left], ind);
    GoodConcat([left] + ind, body);
    GoodConcat([left] + ind + body, [right]);
  }

  /** `a`, then either the closing break or a comma, a break and `tail`. */
  lemma TailGood(a: seq<byte>, more: bool, tail: seq<byte>, f: Flags, depth: nat)
    requires GoodText(a) && GoodText(tail)
    ensures GoodText(a + if more then [0x2C] + Indent(f, depth + 1, true) + tail else Indent(f, depth, false))
  {
    IndentGood(f, depth + 1, true);
    IndentGood(f, depth, false);
    GoodAscii(0x2C);
    hide GoodText, Indent;
    var ind := Indent(f, depth + 1, true);
    GoodConcat([0x2C], ind);
    GoodConcat([0x2C] + ind, tail);
    GoodConcat(a, if more then [0x2C] + ind + tail else Indent(f, depth, false));
  }

  lemma {:induction false} PrintElemsGood(vs: seq<Json>, f: Flags, depth: nat)
    requires forall i :: 0 <= i < |vs| ==> WellFormed(vs[i])
    ensures GoodText(PrintElems(vs, f, depth))
    decreases vs, 0, 0
  {
    if vs != [] {
      PrintGood(vs[0], f, depth + 1);
      PrintElemsGood(vs[1..], f, depth);
      TailGood(Print(vs[0], f, depth + 1), |vs| > 1, PrintElems(vs[1..], f, depth), f, depth);
      hide GoodText, Print;
    }
  }

  lemma {:induction false} PrintMembersGood(v: Json, es: seq<Entry<Json>>, f: Flags, depth: nat)
    requires WellFormed(v) && v.Object? && forall i :: 0 <= i < |es| ==> es[i] in v.entries
    ensures GoodText(PrintMembers(v, es, f, depth))
    decreases v, 0, |es|
  {
    if es != [] {
      assert es[0] in v.entries;
      MemberWellFormed(v, es[0]);
      PrintGood(es[0].value, f, depth + 1);
      PrintMembersGood(v, es[1..], f, depth);
      StringTextGood(es[0].key, f.ascii);
      IndentGood(f, depth, false);
      hide GoodText, Print, StringText, Separator, WellFormed;
      var key, sep, text := StringText(es[0].key, f.ascii), Separator(f), Print(es[0].value, f, depth + 1);
      GoodConcat(key, sep);
      GoodConcat(key + sep, text);
      TailGood(key + sep + text, |es| > 1, PrintMembers(v, es[1..], f, depth), f, depth);
    }
  }

  // ----- the stream passes valid text through

  lemma {:induction false} ValidHasNoEof(s: seq<byte>)
    requires Valid(s)
    ensures EOF_CHAR !in s
    decreases |s|
  {
    if s != [] {
      var n := FirstUnit(s).value.count;
      ValidHasNoEof(s[n..]);
      assert s == s[..n] + s[n..];
      if s[0] >= 0x80 {
        UnitBytes(s);
      } else {
        assert s[..n] == [s[0]];
      }
    }
  }

  ghost predicate Blank(s: seq<byte>) {
    forall i :: 0 <= i < |s| ==> IsSpace(s[i])
  }

  /** A whole unit at the front is delivered as it is. */
  lemma CookUnit(s: seq<byte>)
    requires s != [] && FirstUnit(s).Some?
    ensures var n := FirstUnit(s).value.count; Cook(s) == s[..n] + Cook(s[n..])
  {
    if s[0] < 0x80 {
      assert s[..1] == [s[0]];
    }
  }

  lemma {:induction false} CookBehindValid(s: seq<byte>, e: seq<byte>)
    requires Valid(s)
    ensures Cook(s + e) == s + Cook(e)
    decreases |s|
  {
    hide Cook, FirstUnit;
    if s == [] {
      assert s + e == e;
    } else {
      var n := FirstUnit(s).value.count;
      FirstUnitOfConcat(s, e);
      CookUnit(s + e);
      CookBehindValid(s[n..], e);
      assert (s + e)[n..] == s[n..] + e && (s + e)[..n] == s[..n];
      assert s == s[..n] + s[n..];
    }
  }

  lemma TrimBehind(s: seq<byte>, t: seq<byte>)
    requires EOF_CHAR !in s
    ensures Trim(s + t) == s + Trim(t)
  {
    if t == [] {
      assert s + t == s;
    } else {
      assert (s + t)[..|s + t| - 1] == s + t[..|t| - 1];
    }
  }

  lemma {:induction false} EofIffBlank(s: seq<byte>)
    ensures Scan(s).token == Eof <==> Blank(s)
  {
    if s == [] {
      ScanByFirst(s);
    } else if IsSpace(s[0]) {
      hide Scan, IsSpace;
      ScanSpace(s);
      EofIffBlank(s[1..]);
      assert forall i :: 0 < i < |s| ==> s[i] == s[1..][i - 1];
    } else {
      NoEof(s);
    }
  }

  lemma NoEof(s: seq<byte>)
    requires s != [] && !IsSpace(s[0])
    ensures Scan(s).token != Eof
  {
    hide Scan, ScanNumber, SpanAlpha, ScanString, Decode;
    ScanByFirst(s);
    if s[0] == QUOTE {
      StringToken(s[1..]);
      assert [QUOTE] + s[1..] == s;
    } else if s[0] == 0x2D || IsDigit(s[0]) {
      NumberIsNotEof(s);
    }
  }

  lemma NumberIsNotEof(s: seq<byte>)
    requires s != [] && (s[0] == 0x2D || IsDigit(s[0]))
    ensures ScanNumber(s).token != Eof
  {
    hide IntegerPart, Fraction, Exponent;
  }

  // ----- the laws

  /** The text `json_dumps` returns for a container. */
  ghost function Dumps(v: Json, f: Flags): seq<byte> {
    Print(v, f, 0)
  }

  /**
    What may stand behind a printed value: exactly what is delivered as white space, but for one EOF
    character at its end.
    */
  lemma LoadsWithTail(v: Json, f: Flags, tail: seq<byte>)
    requires WellFormed(v) && Container(v)
    ensures Loads(Dumps(v, f) + tail) == if Blank(Trim(Cook(tail))) then Some(Arrange(v, f.Order())) else None
  {
    hide Cook, Trim, Arrange, Print, WellFormed, Scan, Valid, NulFree, ParseValue, Blank;
    var w := Arrange(v, f.Order());
    var g := f.Unordered();
    var rest := Trim(Cook(tail));
    PrintGood(v, f, 0);
    ValidHasNoEof(Dumps(v, f));
    CookBehindValid(Dumps(v, f), tail);
    TrimBehind(Dumps(v, f), Cook(tail));
    PrintArranged(v, f, 0);
    ArrangeKeepsWellFormed(v, f.Order());
    ArrangedContainer(v, f.Order());
    ReadPrinted(w, g, 0, rest);
    ArrangeTwice(v, f.Order(), AsIs);
    BracketFirst(w, g, rest);
    EofIffBlank(rest);
  }

  lemma ArrangedContainer(v: Json, order: Order)
    ensures Container(Arrange(v, order)) <==> Container(v)
  {
  }

  lemma BracketFirst(w: Json, g: Flags, rest: seq<byte>)
    requires Container(w)
    ensures var t := Scan(Print(w, g, 0) + rest).token; t == Punct(0x5B) || t == Punct(0x7B)
  {
    var s := Print(w, g, 0);
    hide Print;
    assert s[0] == 0x5B || s[0] == 0x7B by { ContainerText(w, g); }
    assert (s + rest)[0] == s[0];
  }

  /** Parsing undoes printing, for every layout: the tree comes back with its members in printed order. */
  lemma LoadsDumps(v: Json, f: Flags)
    requires WellFormed(v) && Container(v)
    ensures Loads(Dumps(v, f)) == Some(Arrange(v, f.Order()))
  {
    hide Cook, Trim, Loads, Dumps, Arrange, WellFormed;
    NothingBehind();
    LoadsWithTail(v, f, []);
    assert Dumps(v, f) + [] == Dumps(v, f);
  }

  lemma NothingBehind()
    ensures Trim(Cook([])) == [] && Blank([])
  {
  }

  /** `[]` with a byte behind it that is no text is accepted, and with two it is refused. */
  lemma TailCounterexample()
    ensures Loads([0x5B, 0x5D, 0xFF]) == Some(Array([])) && Loads([0x5B, 0x5D, 0xFF, 0xFF]) == None
  {
    var f := Flags(0, false, false, false, false);
    assert Dumps(Array([]), f) == [0x5B, 0x5D];
    assert Arrange(Array([]), AsIs) == Array([]);
    assert Cook([0xFF]) == [0xFF] && Cook([0xFF, 0xFF]) == [0xFF, 0xFF];
    assert Trim([0xFF]) == [] && Trim([0xFF, 0xFF]) == [0xFF];
    hide Cook, Trim, Loads, Dumps;
    LoadsWithTail(Array([]), f, [0xFF]);
    LoadsWithTail(Array([]), f, [0xFF, 0xFF]);
    assert [0x5B, 0x5D] + [0xFF] == [0x5B, 0x5D, 0xFF];
    assert [0x5B, 0x5D] + [0xFF, 0xFF] == [0x5B, 0x5D, 0xFF, 0xFF];
  }

  lemma ContainerText(w: Json, g: Flags)
    requires Container(w)
    ensures var s := Print(w, g, 0); s != [] && (s[0] == 0x5B || s[0] == 0x7B)
  {
  }

  /** Whatever the hash tables of the loaded value look like, it equals the printed one. */
  lemma LoadsDumpsEqual(v: Json, f: Flags, w: Json)
    requires WellFormed(v) && Container(v)
    requires Loads(Dumps(v, f)).Some? ==> Shuffled(Loads(Dumps(v, f)).value, w)
    ensures Loads(Dumps(v, f)).Some? && WellFormed(w) && Equal(w, v) && Equal(v, w)
  {
    var back := Arrange(v, f.Order());
    LoadsDumps(v, f);
    ArrangeKeepsWellFormed(v, f.Order());
    ArrangeKeepsMeaning(v, f.Order());
    ShuffledWellFormed(back, w);
    ShuffledSameMeaning(back, w);
    EqualIffSameMeaning(w, v);
    EqualIffSameMeaning(v, w);
  }

  lemma {:induction false} ShuffledWellFormed(v: Json, w: Json)
    requires WellFormed(v) && Shuffled(v, w)
    ensures WellFormed(w)
    decreases v
  {
    match (v, w) {
      case (Array(a), Array(b)) =>
        forall i | 0 <= i < |a| ensures WellFormed(b[i]) {
          ShuffledWellFormed(a[i], b[i]);
        }
      case (Object(a), Object(b)) =>
        ShuffledSerials(a, b);
        forall j | 0 <= j < |b| ensures GoodText(b[j].key) && WellFormed(b[j].value) {
          assert b[j].serial in SerialSet(a);
          var i :| 0 <= i < |a| && a[i].serial == b[j].serial;
          ShuffledPartner(a, b, i, b[j]);
          ShuffledWellFormed(a[i].value, b[j].value);
        }
      case (_, _) =>
    }
  }

  /**
    With sorted keys or preserved order, printing what was loaded gives the same bytes again,
    whatever the hash tables of the loaded value look like.
    */
  lemma DumpsLoadsDumps(v: Json, f: Flags, w: Json)
    requires WellFormed(v) && Container(v) && f.Order() != AsIs
    requires f.Order() == BySerial ==> Fits(v)
    requires Loads(Dumps(v, f)).Some? ==> Shuffled(Loads(Dumps(v, f)).value, w)
    ensures Dumps(w, f) == Dumps(v, f)
    ensures f.Order() == BySerial ==> Fits(w)
  {
    var order := f.Order();
    var back := Arrange(v, order);
    LoadsDumps(v, f);
    LoadsDumpsEqual(v, f, w);
    ArrangeKeepsWellFormed(v, order);
    if order == ByKey {
      EqualIffSameMeaning(v, w);
      SortedKeysCanonical(v, w);
    } else {
      ArrangeKeepsFit(v, order);
      ShuffledFits(back, w);
      ArrangeTwice(v, order, order);
      PreservedOrderCanonical(back, w);
    }
    PrintArranged(v, f, 0);
    PrintArranged(w, f, 0);
  }

  /** With sorted keys, equal values print the same bytes and no others do. */
  lemma SortedDumpsIffEqual(v: Json, w: Json, f: Flags)
    requires WellFormed(v) && WellFormed(w) && Container(v) && Container(w) && f.Order() == ByKey
    ensures Dumps(v, f) == Dumps(w, f) <==> Equal(v, w)
  {
    EqualIffSameMeaning(v, w);
    if Denote(v) == Denote(w) {
      SortedKeysCanonical(v, w);
      PrintArranged(v, f, 0);
      PrintArranged(w, f, 0);
    }
    if Dumps(v, f) == Dumps(w, f) {
      LoadsDumps(v, f);
      LoadsDumps(w, f);
      ArrangeKeepsMeaning(v, ByKey);
      ArrangeKeepsMeaning(w, ByKey);
    }
  }
}
