/** The table of section 4 of RFC 3629, byte by byte, and what `utf.c` makes of it. */
module Utf8Table {
  import opened Bytes
  import opened Utf8

  predicate Tail(b: byte) {
    0x80 <= b <= 0xBF
  }

  predicate Two(b: seq<byte>) {
    |b| == 2 && 0xC2 <= b[0] <= 0xDF && Tail(b[1])
  }

  predicate Three(b: seq<byte>) {
    && |b| == 3
    && (|| (b[0] == 0xE0 && 0xA0 <= b[1] <= 0xBF)
        || (0xE1 <= b[0] <= 0xEC && Tail(b[1]))
        || (b[0] == 0xED && 0x80 <= b[1] <= 0x9F)
        || (0xEE <= b[0] <= 0xEF && Tail(b[1])))
    && Tail(b[2])
  }

  predicate Four(b: seq<byte>) {
    && |b| == 4
    && (|| (b[0] == 0xF0 && 0x90 <= b[1] <= 0xBF)
        || (0xF1 <= b[0] <= 0xF3 && Tail(b[1]))
        || (b[0] == 0xF4 && 0x80 <= b[1] <= 0x8F))
    && Tail(b[2]) && Tail(b[3])
  }

  /** One character. */
  predicate Character(b: seq<byte>) {
    (|b| == 1 && b[0] <= 0x7F) || Two(b) || Three(b) || Four(b)
  }

  /** Its number. */
  function Number(b: seq<byte>): int
    requires 1 <= |b| <= 4
  {
    if |b| == 1 then b[0] as int
    else if |b| == 2 then 64 * (b[0] as int - 0xC0) + (b[1] as int - 0x80)
    else if |b| == 3 then 4096 * (b[0] as int - 0xE0) + 64 * (b[1] as int - 0x80) + (b[2] as int - 0x80)
    else 262144 * (b[0] as int - 0xF0) + 4096 * (b[1] as int - 0x80) + 64 * (b[2] as int - 0x80) + (b[3] as int - 0x80)
  }

  /** Concatenations of characters. */
  predicate Characters(s: seq<byte>) {
    s == [] || exists n :: 1 <= n <= |s| && Character(s[..n]) && Characters(s[n..])
  }

  lemma Tails(b: seq<byte>)
    requires 2 <= |b| <= 4
    ensures (exists i :: 1 <= i < |b| && !Continuation(b[i]))
            <==> !Tail(b[1]) || (|b| > 2 && !Tail(b[2])) || (|b| > 3 && !Tail(b[3]))
  {
    if exists i :: 1 <= i < |b| && !Continuation(b[i]) {
      var i :| 1 <= i < |b| && !Continuation(b[i]);
      assert !Tail(b[i]);
    }
    if !Tail(b[1]) {
      assert !Continuation(b[1]);
    }
    if |b| > 2 && !Tail(b[2]) {
      assert !Continuation(b[2]);
    }
    if |b| > 3 && !Tail(b[3]) {
      assert !Continuation(b[3]);
    }
  }

  lemma CheckTwo(b: seq<byte>)
    requires |b| == 2 && CheckFirst(b[0]) == 2
    ensures CheckFull(b) == if Two(b) then Some(Number(b)) else None
  {
    Tails(b);
    assert FirstBits(b[0], 2) == b[0] as int - 0xC0;
    if Tail(b[1]) {
      assert Accumulated(b, 1) == b[0] as int - 0xC0;
      assert Accumulated(b, 2) == Number(b);
    }
  }

  lemma CheckThree(b: seq<byte>)
    requires |b| == 3 && CheckFirst(b[0]) == 3
    ensures CheckFull(b) == if Three(b) then Some(Number(b)) else None
  {
    Tails(b);
    assert FirstBits(b[0], 3) == b[0] as int - 0xE0;
    if Tail(b[1]) && Tail(b[2]) {
      assert Accumulated(b, 1) == b[0] as int - 0xE0;
      assert Accumulated(b, 2) == 64 * (b[0] as int - 0xE0) + (b[1] as int - 0x80);
      assert Accumulated(b, 3) == Number(b);
    }
  }

  lemma CheckFour(b: seq<byte>)
    requires |b| == 4 && CheckFirst(b[0]) == 4
    ensures CheckFull(b) == if Four(b) then Some(Number(b)) else None
  {
    Tails(b);
    assert FirstBits(b[0], 4) == b[0] as int - 0xF0;
    if Tail(b[1]) && Tail(b[2]) && Tail(b[3]) {
      assert Accumulated(b, 1) == b[0] as int - 0xF0;
      assert Accumulated(b, 2) == 64 * (b[0] as int - 0xF0) + (b[1] as int - 0x80);
      assert Accumulated(b, 3) == 4096 * (b[0] as int - 0xF0) + 64 * (b[1] as int - 0x80) + (b[2] as int - 0x80);
      assert Accumulated(b, 4) == Number(b);
    }
  }

  lemma AnnouncedLength(b: seq<byte>)
    requires Character(b)
    ensures CheckFirst(b[0]) == |b|
  {
  }

  /** `utf8_iterate` reads a character if and only if the table has it, and as the number it has there. */
  lemma FirstUnitIff(s: seq<byte>, cp: int, n: nat)
    requires s != []
    ensures FirstUnit(s) == Some(Unit(cp, n)) <==> 1 <= n <= |s| && n <= 4 && Character(s[..n]) && Number(s[..n]) == cp
  {
    var count := CheckFirst(s[0]);
    if 1 <= n <= |s| {
      if Character(s[..n]) {
        AnnouncedLength(s[..n]);
      }
      if count == n {
        hide CheckFull, Tail;
        if n == 2 {
          CheckTwo(s[..n]);
        } else if n == 3 {
          CheckThree(s[..n]);
        } else if n == 4 {
          CheckFour(s[..n]);
        }
      }
    }
  }

  /** `utf8_check_string` accepts exactly the concatenations of characters of the table. */
  lemma {:induction false} ValidIff(s: seq<byte>)
    ensures Valid(s) <==> Characters(s)
    decreases |s|
  {
    hide Character, Number, FirstUnit;
    if s != [] {
      if FirstUnit(s).Some? {
        var Unit(cp, n) := FirstUnit(s).value;
        FirstUnitIff(s, cp, n);
        ValidIff(s[n..]);
      }
      if exists n :: 1 <= n <= |s| && Character(s[..n]) && Characters(s[n..]) {
        var n :| 1 <= n <= |s| && Character(s[..n]) && Characters(s[n..]);
        CharacterSize(s[..n]);
        FirstUnitIff(s, Number(s[..n]), n);
        ValidIff(s[n..]);
      }
    }
  }

  lemma CharacterSize(b: seq<byte>)
    requires Character(b)
    ensures 1 <= |b| <= 4
  {
  }

  /** `utf8_encode` of a number that is no surrogate gives the one character of the table with that number. */
  lemma EncodeIff(cp: int, b: seq<byte>)
    requires 0 <= cp <= 0xD7FF || 0xE000 <= cp
    ensures Encode(cp) == Some(b) <==> Character(b) && Number(b) == cp
  {
    hide Character, Number, FirstUnit, Encode;
    if Encode(cp) == Some(b) {
      EncodeThenRead(cp, []);
      assert b + [] == b;
      FirstUnitIff(b, cp, |b|);
      assert b[..|b|] == b;
    }
    if Character(b) {
      CharacterSize(b);
      assert b[..|b|] == b;
      if Number(b) == cp {
        FirstUnitIff(b, cp, |b|);
        ReadThenEncode(b);
      }
    }
  }
}
