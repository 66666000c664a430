/** The text `json_dumps` produces, as a function of the tree (`compat/jansson/dump.c`). */
module JsonPrint {
  import opened Bytes
  import opened Utf8
  import opened JsonValue
  import opened JsonOrder

  /** The bits of the `flags` word; `indent` is its low byte. */
  datatype Flags = Flags(indent: nat, compact: bool, ascii: bool, sortKeys: bool, preserveOrder: bool) {
    function Order(): Order {
      if sortKeys then ByKey else if preserveOrder then BySerial else AsIs
    }
    /** The same layout, members taken in iteration order. */
    function Unordered(): Flags {
      this.(sortKeys := false, preserveOrder := false)
    }
  }

  function Spaces(n: nat): seq<byte> {
    seq(n, _ => SPACE)
  }

  /** `dump_indent`. */
  function Indent(f: Flags, depth: nat, space: bool): seq<byte> {
    if f.indent > 0 then [LF] + Spaces(depth * f.indent)
    else if space && !f.compact then [SPACE] else []
  }

  function Separator(f: Flags): seq<byte> {
    if f.compact then [0x3A] else [0x3A, SPACE]
  }

  // ----- strings

  function HexDigit(n: int): byte
    requires 0 <= n < 16
  {
    if n < 10 then (0x30 + n) as byte else (0x61 + (n - 10)) as byte
  }

  /** `sprintf("\\u%04x")` of a 16-bit number. */
  function UnicodeEscape(n: int): seq<byte>
    requires 0 <= n < 0x10000
  {
    [BACKSLASH, 0x75, HexDigit(n / 0x1000), HexDigit(n / 0x100 % 0x10), HexDigit(n / 0x10 % 0x10), HexDigit(n % 0x10)]
  }

  predicate MustEscape(cp: int, ascii: bool) {
    cp == 0x5C || cp == 0x22 || cp < 0x20 || (ascii && cp > 0x7F)
  }

  /** The text printed for a code point that cannot be copied. */
  function EscapeText(cp: int): seq<byte>
    requires 0 <= cp <= MAX_CODEPOINT
  {
    if cp == 0x5C then [BACKSLASH, BACKSLASH]
    else if cp == 0x22 then [BACKSLASH, QUOTE]
    else if cp == 0x08 then [BACKSLASH, 0x62]
    else if cp == 0x0C then [BACKSLASH, 0x66]
    else if cp == 0x0A then [BACKSLASH, 0x6E]
    else if cp == 0x0D then [BACKSLASH, 0x72]
    else if cp == 0x09 then [BACKSLASH, 0x74]
    else if cp < 0x10000 then UnicodeEscape(cp)
    else UnicodeEscape(0xD800 + (cp - 0x10000) / 0x400) + UnicodeEscape(0xDC00 + (cp - 0x10000) % 0x400)
  }

  /** Between the quotes; a string that stops being UTF-8 makes the printer give up there. */
  function Escaped(s: seq<byte>, ascii: bool): seq<byte> {
    if s == [] || FirstUnit(s).None? then []
    else
      var Unit(cp, count) := FirstUnit(s).value;
      ReadThenEncode(s);
      (if MustEscape(cp, ascii) then EscapeText(cp) else s[..count]) + Escaped(s[count..], ascii)
  }

  function StringText(s: seq<byte>, ascii: bool): seq<byte> {
    [QUOTE] + Escaped(s, ascii) + [QUOTE]
  }

  // ----- numbers

  function Digits(n: nat): seq<byte> {
    if n < 10 then [(0x30 + n) as byte] else Digits(n / 10) + [(0x30 + n % 10) as byte]
  }

  /** `snprintf("%d")`. */
  function IntegerText(i: int): seq<byte> {
    if i < 0 then [0x2D] + Digits(-i) else Digits(i)
  }

  // ----- values

  const TRUE_TEXT: seq<byte> := [0x74, 0x72, 0x75, 0x65]
  const FALSE_TEXT: seq<byte> := [0x66, 0x61, 0x6C, 0x73, 0x65]
  const NULL_TEXT: seq<byte> := [0x6E, 0x75, 0x6C, 0x6C]

  /** `do_dump` of a finite tree. The text of a real is not modelled. */
  ghost function Print(v: Json, f: Flags, depth: nat): seq<byte>
    decreases v, 1, 0
  {
    match v
    case Null => NULL_TEXT
    case True => TRUE_TEXT
    case False => FALSE_TEXT
    case Integer(i) => IntegerText(i)
    case Real(text) => text
    case String(s) => StringText(s, f.ascii)
    case Array(elems) =>
      if elems == [] then [0x5B, 0x5D]
      else [0x5B] + Indent(f, depth + 1, false) + PrintElems(elems, f, depth) + [0x5D]
    case Object(es) =>
      if es == [] then [0x7B, 0x7D]
      else
        var sorted := Sort(es, f.Order());
        SortMembers(es, f.Order());
        assert forall i :: 0 <= i < |sorted| ==> sorted[i] in sorted;
        [0x7B] + Indent(f, depth + 1, false) + PrintMembers(v, sorted, f, depth) + [0x7D]
  }

  /** Elements with their commas, and the line break before the closing bracket. */
  ghost function PrintElems(vs: seq<Json>, f: Flags, depth: nat): seq<byte>
    decreases vs, 0
  {
    if vs == [] then []
    else
      Print(vs[0], f, depth + 1)
      + (if |vs| > 1 then [0x2C] + Indent(f, depth + 1, true) + PrintElems(vs[1..], f, depth) else Indent(f, depth, false))
  }

  ghost function PrintMembers(v: Json, es: seq<Entry<Json>>, f: Flags, depth: nat): seq<byte>
    requires v.Object? && forall i :: 0 <= i < |es| ==> es[i] in v.entries
    decreases v, 0, |es|
  {
    if es == [] then []
    else
      assert es[0] in v.entries;
      StringText(es[0].key, f.ascii) + Separator(f) + Print(es[0].value, f, depth + 1)
      + (if |es| > 1 then [0x2C] + Indent(f, depth + 1, true) + PrintMembers(v, es[1..], f, depth) else Indent(f, depth, false))
  }
}
