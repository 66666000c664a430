/** The recursive-descent parser of `compat/jansson/load.c`, driving the lexer. */
module Parser {
  import opened Bytes
  import opened JsonValue
  import opened JsonParse
  import opened Lexers

  /** The method result `r` and the stream it leaves are what the specification says. */
  ghost predicate Agrees(r: Option<Json>, spec: Parsed<Json>, stream: seq<byte>) {
    match spec
    case Failure => r.None?
    case Success(v, rest) => r == Some(v) && stream == rest
  }

  /** How much there is to parse behind the current token. */
  ghost function Measure(lex: Lexer): nat
    reads lex, lex.buffer
    requires lex.Valid()
  {
    if lex.token == Eof || lex.token == Invalid then 0 else |Trim(lex.Raw())|
  }

  /** `parse_object`, behind the opening brace. */
  method ParseObject(lex: Lexer) returns (r: Option<Json>)
    requires lex.Valid()
    modifies lex`pos, lex`bufferPos, lex`filled, lex`saved, lex`token, lex.buffer
    ensures lex.Valid()
    ensures Agrees(r, ParseValue(Punct(0x7B), Trim(old(lex.Raw()))), Trim(lex.Raw()))
    decreases |Trim(lex.Raw())|, 1
  {
    hide Scan, Trim, Lexer.Valid, Lexer.Raw, SetMember;
    ghost var s0 := Trim(lex.Raw());
    var members: seq<Entry<Json>>, serial := [], 0;
    lex.ScanToken();
    if lex.token == Punct(0x7D) {
      return Some(Object([]));
    }
    while true
      invariant lex.Valid()
      invariant lex.token.Text? ==> Measure(lex) < |s0|
      invariant ParseValue(Punct(0x7B), s0) ==
                if lex.token.Text? then ParseMembers(members, serial, lex.token, Trim(lex.Raw())) else Failure
      decreases lex.token.Text?, Measure(lex)
    {
      if !lex.token.Text? {
        return None;
      }
      var key := lex.token.s;
      lex.ScanToken();
      if lex.token != Punct(0x3A) {
        return None;
      }
      lex.ScanToken();
      var value := ParseCurrent(lex);
      if value.None? {
        return None;
      }
      members := SetMember(members, key, serial, value.value);
      serial := serial + 1;
      lex.ScanToken();
      if lex.token != Punct(0x2C) {
        break;
      }
      lex.ScanToken();
    }
    if lex.token != Punct(0x7D) {
      return None;
    }
    return Some(Object(members));
  }

  /** `parse_array`, behind the opening bracket. */
  method ParseArray(lex: Lexer) returns (r: Option<Json>)
    requires lex.Valid()
    modifies lex`pos, lex`bufferPos, lex`filled, lex`saved, lex`token, lex.buffer
    ensures lex.Valid()
    ensures Agrees(r, ParseValue(Punct(0x5B), Trim(old(lex.Raw()))), Trim(lex.Raw()))
    decreases |Trim(lex.Raw())|, 1
  {
    hide Scan, Trim, Lexer.Valid, Lexer.Raw;
    ghost var s0 := Trim(lex.Raw());
    var elems: seq<Json> := [];
    lex.ScanToken();
    ScanByFirst(s0);
    if lex.token == Punct(0x5D) {
      return Some(Array([]));
    }
    while lex.token != Eof
      invariant lex.Valid()
      invariant lex.token != Eof ==> Measure(lex) < |s0|
      invariant ParseValue(Punct(0x5B), s0) ==
                if lex.token != Eof && lex.token != Invalid then ParseElems(elems, lex.token, Trim(lex.Raw())) else Failure
      decreases lex.token != Eof && lex.token != Invalid, Measure(lex)
    {
      var elem := ParseCurrent(lex);
      if elem.None? {
        return None;
      }
      elems := elems + [elem.value];
      lex.ScanToken();
      if lex.token != Punct(0x2C) {
        break;
      }
      lex.ScanToken();
    }
    if lex.token != Punct(0x5D) {
      return None;
    }
    return Some(Array(elems));
  }

  /** `parse_value` on the current token. */
  method ParseCurrent(lex: Lexer) returns (r: Option<Json>)
    requires lex.Valid()
    modifies lex`pos, lex`bufferPos, lex`filled, lex`saved, lex`token, lex.buffer
    ensures lex.Valid()
    ensures Agrees(r, ParseValue(old(lex.token), Trim(old(lex.Raw()))), Trim(lex.Raw()))
    decreases Measure(lex), 2
  {
    hide Scan, Trim, Lexer.Valid, Lexer.Raw;
    match lex.token {
      case Text(s) => r := Some(String(s));
      case Number(i) => r := Some(Integer(i));
      case RealNumber(t) => r := Some(Real(t));
      case TrueWord => r := Some(True);
      case FalseWord => r := Some(False);
      case NullWord => r := Some(Null);
      case Punct(c) =>
        if c == 0x7B {
          r := ParseObject(lex);
        } else if c == 0x5B {
          r := ParseArray(lex);
        } else {
          r := None;
        }
      case Invalid => r := None;
      case Eof => r := None;
    }
  }

  /** `json_loads`. */
  method JsonLoads(text: seq<byte>) returns (r: Option<Json>)
    requires NulFree(text)
    ensures r == Loads(text)
  {
    hide Scan, Trim, Cook, Lexer.Valid, Lexer.Raw, ParseValue;
    var lex := new Lexer(text);
    lex.ScanToken();
    if lex.token != Punct(0x5B) && lex.token != Punct(0x7B) {
      return None;
    }
    r := ParseCurrent(lex);
    if r.None? {
      return None;
    }
    lex.ScanToken();
    if lex.token != Eof {
      r := None;
    }
  }
}
