/** Byte values, the ASCII characters the JSON code names, and a C string seen as its bytes. */
module Bytes {
  newtype byte = x: int | 0 <= x < 256

  const NUL: byte := 0x00
  const TAB: byte := 0x09
  const LF: byte := 0x0A
  const CR: byte := 0x0D
  const SPACE: byte := 0x20
  const QUOTE: byte := 0x22
  const BACKSLASH: byte := 0x5C
  /** `(char)EOF`, which a C program cannot tell from an input byte 0xFF. */
  const EOF_CHAR: byte := 0xFF

  datatype Option<+T> = None | Some(value: T)

  /** A C string without its terminator. */
  ghost predicate NulFree(s: seq<byte>) {
    forall i :: 0 <= i < |s| ==> s[i] != NUL
  }
}

/** `compat/jansson/utf.c`. */
module Utf8 {
  import opened Bytes

  const MAX_CODEPOINT := 0x10FFFF

  predicate Surrogate(cp: int) {
    0xD800 <= cp <= 0xDFFF
  }

  /** What sections 3 and 4 of RFC 3629 allow to be encoded. */
  predicate Scalar(cp: int) {
    0 <= cp <= MAX_CODEPOINT && !Surrogate(cp)
  }

  /** `utf8_encode`; masks and shifts of non-negative numbers are written as `/` and `%`. */
  function Encode(cp: int): (r: Option<seq<byte>>)
    ensures r.Some? <==> 0 <= cp <= MAX_CODEPOINT
  {
    if cp < 0 then None
    else if cp < 0x80 then Some([cp as byte])
    else if cp < 0x800 then
      Some([(0xC0 + cp / 0x40 % 0x20) as byte, (0x80 + cp % 0x40) as byte])
    else if cp < 0x10000 then
      Some([(0xE0 + cp / 0x1000 % 0x10) as byte, (0x80 + cp / 0x40 % 0x40) as byte, (0x80 + cp % 0x40) as byte])
    else if cp <= MAX_CODEPOINT then
      Some([(0xF0 + cp / 0x40000 % 0x8) as byte, (0x80 + cp / 0x1000 % 0x40) as byte,
            (0x80 + cp / 0x40 % 0x40) as byte, (0x80 + cp % 0x40) as byte])
    else None
  }

  /** `utf8_check_first`: the length a first byte announces, 0 when it cannot start a sequence. */
  function CheckFirst(u: byte): nat {
    if u < 0x80 then 1
    else if u <= 0xBF then 0
    else if u == 0xC0 || u == 0xC1 then 0
    else if u <= 0xDF then 2
    else if u <= 0xEF then 3
    else if u <= 0xF4 then 4
    else 0
  }

  predicate Continuation(u: byte) {
    0x80 <= u <= 0xBF
  }

  /** The value bits of a first byte announcing `size` bytes. */
  function FirstBits(u: byte, size: nat): int
    requires 2 <= size <= 4
  {
    if size == 2 then u as int % 0x20 else if size == 3 then u as int % 0x10 else u as int % 0x8
  }

  /** The value accumulated after the bytes `1..i` have been shifted in. */
  function Accumulated(b: seq<byte>, i: nat): int
    requires 1 <= i <= |b| && 2 <= |b| <= 4
  {
    if i == 1 then FirstBits(b[0], |b|) else Accumulated(b, i - 1) * 0x40 + b[i - 1] as int % 0x40
  }

  predicate Overlong(value: int, size: nat) {
    (size == 2 && value < 0x80) || (size == 3 && value < 0x800) || (size == 4 && value < 0x10000)
  }

  /** What `utf8_check_full` answers for a whole multi-byte sequence. */
  function CheckFull(b: seq<byte>): Option<int> {
    if !(2 <= |b| <= 4) then None
    else if exists i :: 1 <= i < |b| && !Continuation(b[i]) then None
    else
      var value := Accumulated(b, |b|);
      if value > MAX_CODEPOINT || Surrogate(value) || Overlong(value, |b|) then None else Some(value)
  }

  datatype Unit = Unit(cp: int, count: nat)

  /** One step of `utf8_iterate` on a non-empty string. */
  function FirstUnit(s: seq<byte>): (r: Option<Unit>)
    requires s != []
    ensures r.Some? ==> 1 <= r.value.count <= |s| && r.value.count <= 4
  {
    var count := CheckFirst(s[0]);
    if count == 0 then None
    else if count == 1 then Some(Unit(s[0] as int, 1))
    else if count > |s| then None
    else match CheckFull(s[..count])
      case None => None
      case Some(cp) => Some(Unit(cp, count))
  }

  /** What `utf8_check_string` accepts. */
  predicate Valid(s: seq<byte>) {
    s == [] || (FirstUnit(s).Some? && Valid(s[FirstUnit(s).value.count..]))
  }

  /** The code points `utf8_iterate` yields, one call after the other. */
  function CodePoints(s: seq<byte>): seq<int>
    requires Valid(s)
  {
    if s == [] then [] else [FirstUnit(s).value.cp] + CodePoints(s[FirstUnit(s).value.count..])
  }

  /** The concatenation of the encodings of a sequence of scalar values. */
  function EncodeAll(cps: seq<int>): seq<byte>
    requires forall i :: 0 <= i < |cps| ==> Scalar(cps[i])
  {
    if |cps| == 0 then [] else assert Scalar(cps[0]); Encode(cps[0]).value + EncodeAll(cps[1..])
  }

  /** The bytes of an encoding announce their own number and carry the value. */
  lemma EncodingCarriesValue(cp: int)
    requires Scalar(cp)
    ensures var b := Encode(cp).value;
            1 <= |b| <= 4 && CheckFirst(b[0]) == |b| && if |b| == 1 then b[0] as int == cp else CheckFull(b) == Some(cp)
  {
    var b := Encode(cp).value;
    if cp >= 0x10000 {
      Carries4(cp);
    } else if cp >= 0x800 {
      Carries3(cp);
    } else if cp >= 0x80 {
      assert FirstBits(b[0], 2) == cp / 0x40;
      assert Accumulated(b, 2) == cp;
    }
  }

  lemma Carries3(cp: int)
    requires 0x800 <= cp < 0x10000 && !Surrogate(cp)
    ensures var b := Encode(cp).value; |b| == 3 && CheckFirst(b[0]) == 3 && CheckFull(b) == Some(cp)
  {
    var b := Encode(cp).value;
    assert FirstBits(b[0], 3) == cp / 0x1000;
    assert Accumulated(b, 2) == cp / 0x40;
    assert Accumulated(b, 3) == cp;
  }

  lemma Carries4(cp: int)
    requires 0x10000 <= cp <= MAX_CODEPOINT
    ensures var b := Encode(cp).value; |b| == 4 && CheckFirst(b[0]) == 4 && CheckFull(b) == Some(cp)
  {
    var b := Encode(cp).value;
    assert cp / 0x40000 < 8;
    assert FirstBits(b[0], 4) == cp / 0x40000;
    assert cp / 0x1000 / 0x40 == cp / 0x40000;
    assert Accumulated(b, 2) == cp / 0x1000;
    assert Accumulated(b, 3) == cp / 0x40;
    assert Accumulated(b, 4) == cp;
  }

  /** Encoding a scalar value, then reading it back with anything behind it, gives the value. */
  lemma EncodeThenRead(cp: int, rest: seq<byte>)
    requires Scalar(cp)
    ensures Encode(cp).value + rest != [] && FirstUnit(Encode(cp).value + rest) == Some(Unit(cp, |Encode(cp).value|))
  {
    EncodingCarriesValue(cp);
    var b := Encode(cp).value;
    assert (b + rest)[..|b|] == b;
    assert (b + rest)[0] == b[0];
  }

  lemma Split2(b: seq<byte>)
    requires |b| == 2 && CheckFirst(b[0]) == 2 && CheckFull(b).Some?
    ensures Encode(CheckFull(b).value) == Some(b)
  {
    assert Continuation(b[1]);
    var x, y := b[0] as int - 0xC0, b[1] as int - 0x80;
    assert Accumulated(b, 1) == x;
    var cp := CheckFull(b).value;
    assert cp == x * 0x40 + y;
    assert cp / 0x40 == x && cp % 0x40 == y;
    assert b == [b[0], b[1]];
  }

  lemma Split3(b: seq<byte>)
    requires |b| == 3 && CheckFirst(b[0]) == 3 && CheckFull(b).Some?
    ensures Encode(CheckFull(b).value) == Some(b)
  {
    assert Continuation(b[1]) && Continuation(b[2]);
    var x, y, z := b[0] as int - 0xE0, b[1] as int - 0x80, b[2] as int - 0x80;
    assert Accumulated(b, 1) == x;
    assert Accumulated(b, 2) == x * 0x40 + y;
    var cp := CheckFull(b).value;
    assert cp == (x * 0x40 + y) * 0x40 + z;
    assert cp / 0x40 == x * 0x40 + y && cp % 0x40 == z;
    assert b == [b[0], b[1], b[2]];
  }

  lemma Split4(b: seq<byte>)
    requires |b| == 4 && CheckFirst(b[0]) == 4 && CheckFull(b).Some?
    ensures Encode(CheckFull(b).value) == Some(b)
  {
    assert Continuation(b[1]) && Continuation(b[2]) && Continuation(b[3]);
    var w, x, y, z := b[0] as int - 0xF0, b[1] as int - 0x80, b[2] as int - 0x80, b[3] as int - 0x80;
    assert Accumulated(b, 1) == w;
    assert Accumulated(b, 2) == w * 0x40 + x;
    assert Accumulated(b, 3) == (w * 0x40 + x) * 0x40 + y;
    var cp := CheckFull(b).value;
    assert cp == ((w * 0x40 + x) * 0x40 + y) * 0x40 + z;
    var hi := (w * 0x40 + x) * 0x40 + y;
    assert cp / 0x40 == hi && cp % 0x40 == z;
    assert cp / 0x1000 == hi / 0x40 == w * 0x40 + x && hi % 0x40 == y;
    assert cp / 0x40000 == cp / 0x1000 / 0x40 == w;
    assert b == [b[0], b[1], b[2], b[3]];
  }

  /** A sequence the reader accepts is the encoding of the scalar value it reports. */
  lemma ReadThenEncode(s: seq<byte>)
    requires s != [] && FirstUnit(s).Some?
    ensures Scalar(FirstUnit(s).value.cp)
    ensures Encode(FirstUnit(s).value.cp) == Some(s[..FirstUnit(s).value.count])
  {
    var Unit(cp, count) := FirstUnit(s).value;
    var b := s[..count];
    if count == 4 {
      Split4(b);
    } else if count == 3 {
      Split3(b);
    } else if count == 2 {
      Split2(b);
    } else {
      assert b == [s[0]];
    }
  }

  /** A valid string and its code points determine each other. */
  lemma {:induction false} CodePointsInvertEncodeAll(cps: seq<int>)
    requires forall i :: 0 <= i < |cps| ==> Scalar(cps[i])
    ensures Valid(EncodeAll(cps)) && CodePoints(EncodeAll(cps)) == cps
  {
    if |cps| == 0 {
    } else {
      assert Scalar(cps[0]);
      var b, rest := Encode(cps[0]).value, EncodeAll(cps[1..]);
      EncodeThenRead(cps[0], rest);
      EncodingCarriesValue(cps[0]);
      assert (b + rest)[|b|..] == rest;
      CodePointsInvertEncodeAll(cps[1..]);
    }
  }

  lemma {:induction false} CodePointsAreScalars(s: seq<byte>)
    requires Valid(s)
    ensures forall i :: 0 <= i < |CodePoints(s)| ==> Scalar(CodePoints(s)[i])
  {
    if |s| > 0 {
      ReadThenEncode(s);
      CodePointsAreScalars(s[FirstUnit(s).value.count..]);
    }
  }

  lemma EncodeAllCons(cp: int, cps: seq<int>)
    requires Scalar(cp) && forall i :: 0 <= i < |cps| ==> Scalar(cps[i])
    ensures EncodeAll([cp] + cps) == Encode(cp).value + EncodeAll(cps)
  {
    assert ([cp] + cps)[1..] == cps;
  }

  lemma {:induction false} EncodeAllInvertsCodePoints(s: seq<byte>)
    requires Valid(s)
    ensures forall i :: 0 <= i < |CodePoints(s)| ==> Scalar(CodePoints(s)[i])
    ensures EncodeAll(CodePoints(s)) == s
  {
    CodePointsAreScalars(s);
    hide Encode;
    if |s| > 0 {
      var u := FirstUnit(s).value;
      ReadThenEncode(s);
      EncodeAllInvertsCodePoints(s[u.count..]);
      EncodeAllCons(u.cp, CodePoints(s[u.count..]));
      assert s == s[..u.count] + s[u.count..];
    }
  }

  /** `utf8_check_string` accepts exactly the concatenations of encodings. */
  lemma ValidIffEncodable(s: seq<byte>)
    ensures Valid(s) <==> exists cps: seq<int> :: (forall i :: 0 <= i < |cps| ==> Scalar(cps[i])) && EncodeAll(cps) == s
  {
    if Valid(s) {
      EncodeAllInvertsCodePoints(s);
      assert EncodeAll(CodePoints(s)) == s;
    }
    forall cps: seq<int> | (forall i :: 0 <= i < |cps| ==> Scalar(cps[i])) && EncodeAll(cps) == s ensures Valid(s) {
      CodePointsInvertEncodeAll(cps);
    }
  }

  lemma FirstUnitOfConcat(s: seq<byte>, t: seq<byte>)
    requires s != [] && FirstUnit(s).Some?
    ensures s + t != [] && FirstUnit(s + t) == FirstUnit(s)
  {
    var u := FirstUnit(s).value;
    assert (s + t)[..u.count] == s[..u.count];
    assert (s + t)[0] == s[0];
  }

  lemma {:induction false} ValidConcat(s: seq<byte>, t: seq<byte>)
    requires Valid(s) && Valid(t)
    ensures Valid(s + t)
  {
    if |s| == 0 {
      assert s + t == t;
    } else {
      var u := FirstUnit(s).value;
      FirstUnitOfConcat(s, t);
      assert (s + t)[u.count..] == s[u.count..] + t;
      ValidConcat(s[u.count..], t);
    }
  }

  /** Bytes below 0x80 are strings of one-byte units. */
  lemma {:induction false} AsciiValid(s: seq<byte>)
    requires forall i :: 0 <= i < |s| ==> s[i] < 0x80
    ensures Valid(s)
  {
    if |s| > 0 {
      AsciiValid(s[1..]);
    }
  }

  // ----- the functions as the C code runs them; a `char *` is the suffix it points at

  /** Bytes `0..size` may be read one by one until the first that is no continuation byte. */
  ghost predicate Readable(buffer: seq<byte>, size: nat) {
    |buffer| > 0 && (size <= |buffer| || (buffer[0] != NUL && buffer[|buffer| - 1] == NUL))
  }

  method EncodeInto(codepoint: int, buffer: array<byte>) returns (ok: bool, size: nat)
    requires buffer.Length == 4
    modifies buffer
    ensures ok == Encode(codepoint).Some?
    ensures ok ==> size <= 4 && buffer[..size] == Encode(codepoint).value
    ensures !ok ==> buffer[..] == old(buffer[..])
  {
    ok, size := true, 0;
    if codepoint < 0 {
      ok := false;
    } else if codepoint < 0x80 {
      buffer[0] := codepoint as byte;
      size := 1;
    } else if codepoint < 0x800 {
      buffer[0] := (0xC0 + codepoint / 0x40 % 0x20) as byte;
      buffer[1] := (0x80 + codepoint % 0x40) as byte;
      size := 2;
    } else if codepoint < 0x10000 {
      buffer[0] := (0xE0 + codepoint / 0x1000 % 0x10) as byte;
      buffer[1] := (0x80 + codepoint / 0x40 % 0x40) as byte;
      buffer[2] := (0x80 + codepoint % 0x40) as byte;
      size := 3;
    } else if codepoint <= MAX_CODEPOINT {
      buffer[0] := (0xF0 + codepoint / 0x40000 % 0x8) as byte;
      buffer[1] := (0x80 + codepoint / 0x1000 % 0x40) as byte;
      buffer[2] := (0x80 + codepoint / 0x40 % 0x40) as byte;
      buffer[3] := (0x80 + codepoint % 0x40) as byte;
      size := 4;
    } else {
      ok := false;
    }
  }

  method CheckFullBuffer(buffer: seq<byte>, size: nat) returns (codepoint: Option<int>)
    requires Readable(buffer, size)
    ensures codepoint == if size <= |buffer| then CheckFull(buffer[..size]) else None
  {
    if !(2 <= size <= 4) {
      return None;
    }
    var value := FirstBits(buffer[0], size);
    var i := 1;
    while i < size
      invariant 1 <= i <= size && i <= |buffer|
      invariant forall k :: 1 <= k < i ==> Continuation(buffer[k])
      invariant size <= |buffer| ==> value == Accumulated(buffer[..size], i)
    {
      var u := buffer[i];
      if u < 0x80 || u > 0xBF {
        if size <= |buffer| {
          assert !Continuation(buffer[..size][i]);
        }
        return None;
      }
      value := value * 0x40 + u as int % 0x40;
      i := i + 1;
    }
    if value > MAX_CODEPOINT || Surrogate(value) || Overlong(value, size) {
      return None;
    }
    return Some(value);
  }

  /** `utf8_iterate` on a terminated string; the result is how far the pointer moves. */
  method Iterate(text: seq<byte>) returns (r: Option<Unit>)
    requires |text| > 0 && text[|text| - 1] == NUL
    ensures text[0] == NUL ==> r == Some(Unit(0, 0))
    ensures text[0] != NUL ==> r == FirstUnit(text[..|text| - 1])
  {
    if text[0] == NUL {
      return Some(Unit(0, 0));
    }
    var s := text[..|text| - 1];
    var count := CheckFirst(text[0]);
    if count == 0 {
      return None;
    }
    if count == 1 {
      return Some(Unit(text[0] as int, 1));
    }
    var value := CheckFullBuffer(text, count);
    if count <= |s| {
      assert text[..count] == s[..count];
    } else if count == |text| {
      assert !Continuation(text[..count][count - 1]);
    }
    match value {
      case None => r := None;
      case Some(cp) => r := Some(Unit(cp, count));
    }
  }

  /** `utf8_check_string`. */
  method CheckString(text: seq<byte>) returns (ok: bool)
    ensures ok == Valid(text)
  {
    var i := 0;
    while i < |text|
      invariant 0 <= i <= |text|
      invariant Valid(text) == Valid(text[i..])
    {
      var rest := text[i..];
      var count := CheckFirst(text[i]);
      if count == 0 {
        return false;
      }
      if count > 1 {
        if i + count > |text| {
          return false;
        }
        var full := CheckFullBuffer(rest, count);
        if full.None? {
          return false;
        }
      }
      assert rest[count..] == text[i + count..];
      i := i + count;
    }
    assert text[i..] == [];
    return true;
  }
}
