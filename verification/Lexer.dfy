/** `compat/jansson/strbuffer.c`: a terminated, growing byte buffer. */
module StrBuffers {
  import opened Bytes

  const MIN_SIZE := 16
  const FACTOR := 2

  class StrBuffer {
    var value: array<byte>
    var length: nat
    var size: nat

    ghost predicate Valid()
      reads this, value
    {
      length < size == value.Length && value[length] == NUL
    }

    ghost function Contents(): seq<byte>
      reads this, value
      requires Valid()
    {
      value[..length]
    }

    constructor ()
      ensures Valid() && Contents() == [] && fresh(value)
    {
      size, length := MIN_SIZE, 0;
      value := new byte[MIN_SIZE](_ => NUL);
    }

    method Clear()
      requires Valid()
      modifies this`length, value
      ensures Valid() && Contents() == []
    {
      length := 0;
      value[0] := NUL;
    }

    /** `strbuffer_append_bytes`; the buffer is moved when the terminator would not fit. */
    method AppendBytes(data: seq<byte>)
      requires Valid()
      modifies this, value
      ensures Valid() && Contents() == old(Contents()) + data
      ensures value == old(value) || fresh(value)
    {
      if length + |data| >= size {
        var oldValue, oldSize := value, size;
        size := if size * FACTOR > length + |data| + 1 then size * FACTOR else length + |data| + 1;
        value := new byte[size];
        forall i | 0 <= i < oldSize {
          value[i] := oldValue[i];
        }
      }
      forall i | 0 <= i < |data| {
        value[length + i] := data[i];
      }
      length := length + |data|;
      value[length] := NUL;
      assert value[..length] == old(Contents()) + data;
    }

    /** `strbuffer_value`, as a string of its own. */
    method Value() returns (text: seq<byte>)
      requires Valid()
      ensures text == Contents()
    {
      text := value[..length];
    }

    /** `strbuffer_pop`. */
    method Pop() returns (c: byte)
      requires Valid()
      modifies this`length, value
      ensures Valid()
      ensures if old(Contents()) == [] then c == NUL && Contents() == []
              else Contents() + [c] == old(Contents())
    {
      if length > 0 {
        length := length - 1;
        c := value[length];
        value[length] := NUL;
        assert old(Contents()) == value[..length] + [c];
      } else {
        c := NUL;
      }
    }
  }
}

/** The lexer of `compat/jansson/load.c`, which updates its stream and token in place. */
module Lexers {
  import opened Bytes
  import opened Utf8
  import opened JsonValue
  import opened JsonParse

  /** `c` was read from the stream `s`, leaving `rest`; past the end every read gives EOF. */
  ghost predicate Got(s: seq<byte>, c: byte, rest: seq<byte>) {
    if s == [] then c == EOF_CHAR && rest == [] else c == s[0] && rest == s[1..]
  }

  /** Putting the character back gives an equivalent stream. */
  lemma GotTrim(s: seq<byte>, c: byte, rest: seq<byte>)
    requires Got(s, c, rest)
    ensures Trim([c] + rest) == Trim(s)
    ensures Head(Trim(s)) == c
    ensures c != EOF_CHAR ==> s == [c] + rest && Trim(s) == [c] + Trim(rest)
  {
    if s != [] {
      assert [c] + rest == s;
    }
  }

  lemma TrimConcat(w: seq<byte>, s: seq<byte>)
    requires EOF_CHAR !in w
    ensures Trim(w + s) == w + Trim(s)
  {
    if s == [] {
      assert w + s == w;
    } else {
      assert (w + s)[|w + s| - 1] == s[|s| - 1];
      if s[|s| - 1] == EOF_CHAR {
        assert (w + s)[..|w + s| - 1] == w + s[..|s| - 1];
      }
    }
  }

  lemma CookEmpty(d: seq<byte>)
    ensures Cook(d) == [] <==> d == []
  {
  }

  class Lexer {
    const data: seq<byte>
    var pos: nat
    const buffer: array<byte>
    var bufferPos: nat
    /** Where the terminator in `buffer` is. */
    ghost var filled: nat
    var saved: seq<byte>
    var token: Token

    ghost predicate Valid()
      reads this`pos, this`bufferPos, this`filled, buffer
    {
      && NulFree(data)
      && pos <= |data|
      && buffer.Length == 5
      && bufferPos <= filled <= 4
      && buffer[filled] == NUL
      && (forall i :: 0 <= i < filled ==> buffer[i] != NUL)
      && (filled > 1 ==> forall i :: 0 <= i < filled ==> buffer[i] != EOF_CHAR)
    }

    /** The characters still to be delivered. */
    ghost function Raw(): seq<byte>
      reads this`pos, this`bufferPos, this`filled, buffer
      requires Valid()
    {
      buffer[bufferPos..filled] + Cook(data[pos..])
    }

    /** The character delivered last, which can be put back. */
    ghost predicate Last(c: byte)
      reads this`pos, this`bufferPos, this`filled, buffer
      requires Valid()
    {
      bufferPos > 0 && buffer[bufferPos - 1] == c
    }

    /** `lex_init` on a C string. */
    constructor (text: seq<byte>)
      requires NulFree(text)
      ensures Valid() && fresh(buffer) && data == text && Raw() == Cook(text) && token == Invalid
    {
      data, pos, bufferPos, filled, saved, token := text, 0, 0, 0, [], Invalid;
      buffer := new byte[5](_ => NUL);
      new;
      assert data[0..] == data;
    }

    /** `string_get`. */
    method StringGet() returns (c: byte)
      requires NulFree(data) && pos <= |data|
      modifies this`pos
      ensures pos <= |data|
      ensures if old(pos) == |data| then c == EOF_CHAR && pos == old(pos) else c == data[old(pos)] && pos == old(pos) + 1
    {
      if pos == |data| {
        c := EOF_CHAR;
      } else {
        c := data[pos];
        pos := pos + 1;
      }
    }

    /** `lex_eof` (`string_eof`). */
    method AtEof() returns (eof: bool)
      requires Valid()
      ensures eof == (pos == |data|)
    {
      eof := pos == |data|;
    }

    /** `stream_get`. */
    method StreamGet() returns (c: byte)
      requires Valid()
      modifies this`pos, this`bufferPos, this`filled, buffer
      ensures Valid() && Last(c) && Got(old(Raw()), c, Raw())
      ensures c == EOF_CHAR ==> (pos == |data| <==> Raw() == [])
    {
      hide Cook;
      CookEmpty(data[pos..]);
      if buffer[bufferPos] == NUL {
        assert bufferPos == filled;
        Refill();
      }
      ghost var r := Raw();
      assert r == if old(Raw()) == [] then [EOF_CHAR] else old(Raw());
      assert buffer[bufferPos..filled] == [buffer[bufferPos]] + buffer[bufferPos + 1..filled];
      c := buffer[bufferPos];
      bufferPos := bufferPos + 1;
      CookEmpty(data[pos..]);
      assert r == [c] + Raw();
    }

    /** Reads the next character sequence into the empty buffer; an undecodable one becomes EOF. */
    method Refill()
      requires Valid() && bufferPos == filled
      modifies this`pos, this`bufferPos, this`filled, buffer
      ensures Valid() && bufferPos == 0 && filled >= 1
      ensures old(Raw()) == [] ==> Raw() == [EOF_CHAR] && pos == |data|
      ensures old(Raw()) != [] ==> Raw() == old(Raw())
    {
      ghost var d := data[pos..];
      assert buffer[bufferPos..filled] == [];
      var c := StringGet();
      bufferPos := 0;
      if c >= 0x80 && c != EOF_CHAR {
        var count := CheckFirst(c);
        if count == 0 {
          SetBuffer(EOF_CHAR);
          assert data[pos..] == d[1..];
          return;
        }
        var full := ReadSequence(c, count);
        if full {
          assert buffer[..count] == d[..count];
          assert data[pos..] == d[count..];
        } else {
          SetBuffer(EOF_CHAR);
          assert count <= |d| ==> data[pos..] == d[count..];
        }
      } else {
        SetBuffer(c);
        if |d| > 0 {
          assert data[pos..] == d[1..];
        }
      }
    }

    method SetBuffer(c: byte)
      requires c != NUL && buffer.Length == 5
      modifies this`filled, buffer
      ensures filled == 1 && buffer[0] == c && buffer[1] == NUL
      ensures buffer[0..1] == [c]
    {
      buffer[0], buffer[1] := c, NUL;
      filled := 1;
    }

    /** Reads the rest of a sequence announced by `c`; at the end of the data EOF characters are stored. */
    method ReadSequence(c: byte, count: nat) returns (full: bool)
      requires NulFree(data) && buffer.Length == 5 && 1 <= pos <= |data|
      requires c == data[pos - 1] && c >= 0x80 && count == CheckFirst(c) >= 2
      modifies this`pos, this`filled, buffer
      ensures var d := old(data[pos - 1..]);
        && full == (count <= |d| && CheckFull(d[..count]).Some?)
        && pos == old(pos) - 1 + (if count <= |d| then count else |d|) && pos <= |data|
        && (full ==> filled == count && buffer[..count] == d[..count] && buffer[count] == NUL)
        && (full ==> forall i :: 0 <= i < count ==> buffer[i] != NUL && buffer[i] != EOF_CHAR)
    {
      ghost var d := data[pos - 1..];
      ghost var start := pos;
      buffer[0] := c;
      var i := 1;
      while i < count
        invariant 1 <= i <= count
        invariant pos <= |data| && pos == start - 1 + (if i <= |d| then i else |d|)
        invariant forall k :: 0 <= k < i ==> buffer[k] == if k < |d| then d[k] else EOF_CHAR
      {
        var b := StringGet();
        buffer[i] := b;
        i := i + 1;
      }
      var codepoint := CheckFullBuffer(buffer[..], count);
      assert buffer[..][..count] == buffer[..count];
      if count > |d| {
        assert !Continuation(buffer[..count][count - 1]);
      } else {
        assert buffer[..count] == d[..count];
      }
      if codepoint.None? {
        return false;
      }
      forall k | 0 <= k < count ensures buffer[k] != NUL && buffer[k] != EOF_CHAR {
        if k > 0 {
          assert Continuation(buffer[..count][k]);
        }
      }
      buffer[count] := NUL;
      filled := count;
      return true;
    }

    /** `stream_unget`. */
    method StreamUnget(c: byte)
      requires Valid() && Last(c)
      modifies this`bufferPos
      ensures Valid() && Raw() == [c] + old(Raw())
    {
      assert buffer[bufferPos - 1..filled] == [c] + buffer[bufferPos..filled];
      bufferPos := bufferPos - 1;
    }

    /** `lex_save`. */
    method LexSave(c: byte)
      requires Valid()
      modifies this`saved
      ensures Valid() && Raw() == old(Raw()) && saved == old(saved) + [c]
      ensures old(Last(c)) ==> Last(c)
    {
      saved := saved + [c];
    }

    /** `lex_get_save`. */
    method GetSave() returns (c: byte)
      requires Valid()
      modifies this`pos, this`bufferPos, this`filled, this`saved, buffer
      ensures Valid() && Last(c) && Got(old(Raw()), c, Raw()) && saved == old(saved) + [c]
    {
      c := StreamGet();
      saved := saved + [c];
    }

    /** `lex_unget_unsave`: the two characters it compares are always the same. */
    method UngetUnsave(c: byte)
      requires Valid() && Last(c) && saved != [] && saved[|saved| - 1] == c
      modifies this`bufferPos, this`saved
      ensures Valid() && Raw() == [c] + old(Raw()) && saved == old(saved)[..|old(saved)| - 1]
    {
      StreamUnget(c);
      saved := saved[..|saved| - 1];
    }

    /** Four hexadecimal digits and the character behind them; `s` is the stream at the last character read. */
    method FourDigits() returns (c: byte, ok: bool, ghost digits: seq<byte>, ghost s: seq<byte>)
      requires Valid()
      modifies this`pos, this`bufferPos, this`filled, this`saved, buffer
      ensures Valid()
      ensures old(Raw()) == digits + s && forall k :: 0 <= k < |digits| ==> IsHex(digits[k])
      ensures ok ==> |digits| == 4 && Last(c) && Got(s, c, Raw()) && saved == old(saved) + digits + [c]
      ensures !ok ==> |digits| < 4 && !IsHex(Head(Trim(s)))
    {
      hide Cook, NulFree, Valid, Raw, Last, Trim, Got;
      digits, s := [], Raw();
      c := GetSave();
      var i := 0;
      while i < 4
        invariant 0 <= i <= 4 && |digits| == i
        invariant Valid() && Last(c) && Got(s, c, Raw()) && saved == old(saved) + digits + [c]
        invariant forall k :: 0 <= k < i ==> IsHex(digits[k])
        invariant old(Raw()) == digits + s
      {
        GotTrim(s, c, Raw());
        if !IsHex(c) {
          UngetUnsave(c);
          return c, false, digits, s;
        }
        ghost var before, digit := digits, c;
        digits := digits + [c];
        s := Raw();
        c := GetSave();
        i := i + 1;
        OneDigit(old(saved), before, digit, s, c);
      }
      ok := true;
    }

    /** A round of the first loop of `lex_scan_string` at a backslash; `w` has been passed before it. */
    method EscapePass(ghost start: seq<byte>, ghost w: seq<byte>, ghost s: seq<byte>)
      returns (ok: bool, c: byte, ghost w': seq<byte>, ghost s': seq<byte>)
      requires Valid() && Passed(start, w, s) && Got(s, BACKSLASH, Raw()) && saved == [QUOTE] + w + [BACKSLASH]
      modifies this`pos, this`bufferPos, this`filled, this`saved, buffer
      ensures Valid()
      ensures ok ==> Last(c) && Got(s', c, Raw()) && saved == [QUOTE] + w' + [c] && Passed(start, w', s') && |s'| < |s|
      ensures !ok ==> ScanString(Trim(start)).None?
    {
      hide ScanString, Trim, Cook, NulFree, Valid, Raw, Last, Passed, Piece;
      ghost var t := Raw();
      c := GetSave();
      GotTrim(t, c, Raw());
      w', s' := w, s;
      if c == 0x75 {
        ghost var u := Raw();
        ghost var digits;
        c, ok, digits, s' := FourDigits();
        if !ok {
          NotFourDigits(start, w, s, u, digits, s');
          return;
        }
        UnicodePiece(digits);
        PassedPiece(start, w, s, [BACKSLASH, 0x75] + digits, s');
        SavedMore([QUOTE], w, [BACKSLASH, 0x75], digits, c);
        w' := w + ([BACKSLASH, 0x75] + digits);
      } else if IsShortcut(c) {
        ShortcutPiece(c);
        PassedPiece(start, w, s, [BACKSLASH, c], Raw());
        ghost var c0 := c;
        w' := w + [BACKSLASH, c];
        s' := Raw();
        c := GetSave();
        SavedMore([QUOTE], w, [BACKSLASH], [c0], c);
      } else {
        StuckEscape(start, w, s, t);
        UngetUnsave(c);
        return false, c, w', s';
      }
      ok := true;
    }

    /** The first loop of `lex_scan_string`; `c` is the character it stopped at. */
    method ScanPass(ghost start: seq<byte>) returns (ok: bool)
      requires Valid() && Raw() == start && saved == [QUOTE]
      modifies this`pos, this`bufferPos, this`filled, this`saved, buffer
      ensures Valid()
      ensures ok == ScanString(Trim(start)).Some?
      ensures ok ==> var n := ScanString(Trim(start)).value;
        Trim(Raw()) == Trim(start)[n + 1..] && saved == [QUOTE] + Trim(start)[..n] + [QUOTE]
    {
      hide ScanString, Trim, Cook, NulFree, Valid, Raw, Last, Passed, Piece;
      var c := GetSave();
      ghost var w, s := [], start;
      PassedNothing(start);
      while c != QUOTE
        invariant Valid() && Last(c) && Got(s, c, Raw()) && saved == [QUOTE] + w + [c]
        invariant Passed(start, w, s)
        decreases |s|
      {
        GotTrim(s, c, Raw());
        if c == EOF_CHAR {
          Stuck(start, w, s);
          UngetUnsave(c);
          return false;
        } else if c <= 0x1F {
          Stuck(start, w, s);
          UngetUnsave(c);
          return false;
        } else if c == BACKSLASH {
          ok, c, w, s := EscapePass(start, w, s);
          if !ok {
            return;
          }
        } else {
          PlainPiece(c);
          PassedPiece(start, w, s, [c], Raw());
          ghost var w0, c0 := w, c;
          w := w + [c];
          s := Raw();
          c := GetSave();
          SavedMore([QUOTE], w0, [], [c0], c);
        }
      }
      GotTrim(s, c, Raw());
      PassedAll(start, w, s);
      return true;
    }

    /** `decode_unicode_escape` on the digits behind `saved[p]`. */
    method DecodeUnicodeEscape(p: nat) returns (value: int)
      requires p + 5 <= |saved| && saved[p] == 0x75
      requires IsHex(saved[p + 1]) && IsHex(saved[p + 2]) && IsHex(saved[p + 3]) && IsHex(saved[p + 4])
      ensures value == EscapeValue(saved[p + 1..p + 5])
    {
      value := 0;
      var i := 1;
      ghost var d := saved[p + 1..p + 5];
      while i <= 4
        invariant 1 <= i <= 5
        invariant i == 1 ==> value == 0
        invariant i == 2 ==> value == HexValue(d[0])
        invariant i == 3 ==> value == HexValue(d[0]) * 0x10 + HexValue(d[1])
        invariant i == 4 ==> value == (HexValue(d[0]) * 0x10 + HexValue(d[1])) * 0x10 + HexValue(d[2])
        invariant i == 5 ==> value == EscapeValue(d)
      {
        var c := saved[p + i];
        assert IsHex(c) && c == d[i - 1];
        value := value * 0x10;
        if IsDigit(c) {
          value := value + (c as int - 0x30);
        } else if IsLower(c) {
          value := value + (c as int - 0x61 + 10);
        } else {
          assert IsUpper(c);
          value := value + (c as int - 0x41 + 10);
        }
        i := i + 1;
      }
    }

    /** One escape (or surrogate pair) at `saved[p]`, which is the `u`; `q` is behind it. */
    method DecodeEscape(p: nat, ghost rest: seq<byte>) returns (ok: bool, value: int, q: nat)
      requires 1 <= p && rest != [] && Body(rest) && rest[0] == BACKSLASH && rest[1] == 0x75
      requires p < |saved| && saved[p - 1..] == rest + [QUOTE]
      ensures ok == DecodePiece(rest).Some?
      ensures ok ==> Scalar(value) && value != 0 && p < q && q == p - 1 + DecodePiece(rest).value.used
                     && Encode(value).value == DecodePiece(rest).value.bytes
    {
      hide Encode;
      assert Piece(rest) == 6 && Body(rest[6..]);
      assert forall i :: 0 <= i < |rest| ==> saved[p - 1 + i] == rest[i];
      assert saved[p - 1 + |rest|] == QUOTE;
      assert saved[p + 1..p + 5] == rest[2..6];
      value := DecodeUnicodeEscape(p);
      q := p + 5;
      if 0xD800 <= value <= 0xDBFF {
        if saved[q] == BACKSLASH && saved[q + 1] == 0x75 {
          assert |rest| > 6 && rest[6..][0] == BACKSLASH && rest[6..][1] == 0x75;
          assert Piece(rest[6..]) == 6;
          assert saved[q + 2..q + 6] == rest[6..][2..6];
          q := q + 1;
          var value2 := DecodeUnicodeEscape(q);
          q := q + 5;
          if 0xDC00 <= value2 <= 0xDFFF {
            value := (value - 0xD800) * 0x400 + (value2 - 0xDC00) + 0x10000;
          } else {
            return false, value, q;
          }
        } else {
          assert |rest| >= 8 ==> rest[6..][0] == rest[6] && rest[6..][1] == rest[7];
          return false, value, q;
        }
      } else if 0xDC00 <= value <= 0xDFFF {
        return false, value, q;
      } else if value == 0 {
        return false, value, q;
      }
      ok := true;
    }

    /** One round of the second loop: the piece `rest` starts with is decoded to `target[t..]`. */
    method DecodeOne(target: array<byte>, t: nat, p: nat, ghost rest: seq<byte>) returns (ok: bool, t': nat, p': nat)
      requires rest != [] && Body(rest) && p < |saved| && saved[p..] == rest + [QUOTE]
      requires t + |rest| < target.Length
      modifies target
      ensures ok == DecodePiece(rest).Some?
      ensures ok ==> p' == p + DecodePiece(rest).value.used && t' == t + |DecodePiece(rest).value.bytes| <= target.Length
                     && target[..t'] == old(target[..t]) + DecodePiece(rest).value.bytes
    {
      assert forall i :: 0 <= i < |rest| ==> saved[p + i] == rest[i];
      if saved[p] == BACKSLASH {
        assert Piece(rest) > 1;
        if saved[p + 1] == 0x75 {
          var escape, value, q := DecodeEscape(p + 1, rest);
          if !escape {
            return false, t, p;
          }
          var encoded := new byte[4];
          var encodes, length := EncodeInto(value, encoded);
          hide Encode, DecodePiece, Body;
          CopyBytes(target, t, encoded, length);
          return true, t + length, q;
        } else {
          assert IsShortcut(rest[1]);
          target[t] := ShortcutValue(saved[p + 1]);
          assert target[..t + 1] == old(target[..t]) + [ShortcutValue(rest[1])];
          return true, t + 1, p + 2;
        }
      } else {
        target[t] := saved[p];
        assert target[..t + 1] == old(target[..t]) + [rest[0]];
        return true, t + 1, p + 1;
      }
    }

    /** `memcpy`. */
    method CopyBytes(target: array<byte>, t: nat, source: array<byte>, length: nat)
      requires target != source && length <= source.Length && t + length <= target.Length
      modifies target
      ensures target[..t + length] == old(target[..t]) + source[..length]
    {
      var i := 0;
      while i < length
        invariant 0 <= i <= length
        invariant target[..t + i] == old(target[..t]) + source[..i]
      {
        target[t + i] := source[i];
        assert target[..t + i + 1] == target[..t + i] + [source[i]];
        i := i + 1;
      }
    }

    /** The second loop of `lex_scan_string`: the target never overflows and the loop stops at the final quote. */
    method DecodePass(ghost body: seq<byte>) returns (ok: bool, target: array<byte>, t: nat)
      requires Body(body) && saved == [QUOTE] + body + [QUOTE]
      ensures fresh(target) && target.Length == |saved| + 1 && t < target.Length
      ensures ok == Decode(body).Some?
      ensures ok ==> target[..t] == Decode(body).value && target[t] == NUL
    {
      hide Body, Decode, DecodePiece, DecodedSoFar;
      target := new byte[|saved| + 1];
      var p := 1;
      t := 0;
      DecodedNothing(body, target[..0]);
      BodyAt(saved, body, 1);
      while saved[p] != QUOTE
        invariant 1 <= p < |saved| && t <= p - 1
        invariant DecodedSoFar(body, p - 1, target[..t])
        decreases |saved| - p
      {
        BodyAt(saved, body, p);
        DecodedBody(body, p - 1, target[..t]);
        ghost var rest, before := body[p - 1..], target[..t];
        var one, t', p' := DecodeOne(target, t, p, rest);
        if !one {
          StoppedAt(body, p - 1, before);
          return false, target, t;
        }
        DecodedMore(body, p - 1, before);
        t, p := t', p';
      }
      BodyAt(saved, body, p);
      DecodedAll(body, p - 1, target[..t]);
      target[t] := NUL;
      ok := true;
    }

    /** `lex_scan_string`, behind the opening quote. */
    method ScanStringToken(ghost start: seq<byte>)
      requires Valid() && Raw() == start && saved == [QUOTE]
      modifies this`pos, this`bufferPos, this`filled, this`saved, this`token, buffer
      ensures Valid()
      ensures var whole := Scan([QUOTE] + Trim(start)); token == whole.token && (token != Invalid ==> Trim(Raw()) == whole.rest)
    {
      token := Invalid;
      ghost var s := Trim(start);
      StringToken(s);
      hide Scan, ScanString, Trim, Cook, NulFree;
      var ok := ScanPass(start);
      if ok {
        ghost var n := ScanString(s).value;
        var decoded, target, t := DecodePass(s[..n]);
        if decoded {
          token := Text(target[..t]);
        }
      }
    }

    /** A word: letters as long as there are any. */
    method ScanWordToken(first: byte, ghost s: seq<byte>)
      requires Valid() && Last(first) && Got(s, first, Raw()) && saved == [first] && IsAlpha(first)
      modifies this`pos, this`bufferPos, this`filled, this`saved, this`token, buffer
      ensures Valid()
      ensures var n := SpanAlpha(Trim(s)); token == Word(Trim(s)[..n]) && Trim(Raw()) == Trim(s)[n..]
    {
      hide Valid, Raw, Last, Trim, Cook, NulFree, SpanAlpha, Word;
      var c := first;
      ghost var rest, w: seq<byte> := s, [];
      LetterNothing(s);
      while IsAlpha(c)
        invariant Valid() && Last(c) && Got(rest, c, Raw())
        invariant Lettered(s, w, rest) && saved == w + [c]
        decreases |rest|
      {
        LetterMore(s, w, rest, c, Raw());
        rest, w := Raw(), w + [c];
        c := GetSave();
      }
      GotTrim(rest, c, Raw());
      LetterAll(s, w, rest);
      UngetUnsave(c);
      token := Word(saved);
    }

    /** `lex_save_cached`: the rest of an unexpected character goes to the saved text. */
    method SaveCached()
      requires Valid()
      modifies this`bufferPos, this`saved
      ensures Valid()
    {
      while buffer[bufferPos] != NUL
        invariant Valid()
        decreases filled - bufferPos
      {
        saved := saved + [buffer[bufferPos]];
        bufferPos := bufferPos + 1;
      }
    }

    /** `lex_scan`. */
    method ScanToken()
      requires Valid()
      modifies this`pos, this`bufferPos, this`filled, this`saved, this`token, buffer
      ensures Valid()
      ensures var r := Scan(Trim(old(Raw()))); token == r.token && (token != Invalid ==> Trim(Raw()) == r.rest)
    {
      hide Valid, Raw, Last, Trim, Cook, NulFree, Scan, ScanNumber, SpanAlpha, Word;
      saved := [];
      ghost var start, s := Trim(Raw()), Raw();
      var c := StreamGet();
      GotTrim(s, c, Raw());
      while IsSpace(c)
        invariant Valid() && Last(c) && Got(s, c, Raw()) && saved == [] && Head(Trim(s)) == c
        invariant Scan(start) == Scan(Trim(s))
        invariant c == EOF_CHAR ==> (pos == |data| <==> Raw() == [])
        decreases |s|
      {
        GotTrim(s, c, Raw());
        ScanSpace(Trim(s));
        s := Raw();
        c := StreamGet();
        GotTrim(s, c, Raw());
      }
      GotTrim(s, c, Raw());
      ScanByFirst(Trim(s));
      if c == EOF_CHAR {
        EofToken(s, Raw());
        var eof := AtEof();
        token := if eof then Token.Eof else Invalid;
        return;
      }
      LexSave(c);
      assert saved == [c];
      if IsPunct(c) {
        token := Punct(c);
      } else if c == QUOTE {
        assert Trim(s) == [QUOTE] + Trim(Raw());
        ScanStringToken(Raw());
      } else if IsDigit(c) || c == 0x2D {
        ScanNumberToken(c, s);
      } else if IsAlpha(c) {
        ScanWordToken(c, s);
      } else {
        SaveCached();
        token := Invalid;
      }
    }

    /** Digits as long as there are any: `c` is the first character that is none. */
    method SkipDigits(first: byte, ghost s: seq<byte>) returns (c: byte, ghost rest: seq<byte>)
      requires Valid() && Last(first) && Got(s, first, Raw()) && saved != [] && saved[|saved| - 1] == first
      modifies this`pos, this`bufferPos, this`filled, this`saved, buffer
      ensures Valid() && Last(c) && Got(rest, c, Raw())
      ensures Took(Trim(s), SpanDigits(Trim(s)), Trim(rest), old(saved), saved, c)
    {
      hide Valid, Raw, Last, Trim, Cook, NulFree;
      c, rest := first, s;
      ghost var w: seq<byte> := [];
      SpanNothing(s);
      assert saved == old(saved)[..|old(saved)| - 1] + w + [c];
      while IsDigit(c)
        invariant Valid() && Last(c) && Got(rest, c, Raw())
        invariant Spanned(s, w, rest) && saved == old(saved)[..|old(saved)| - 1] + w + [c]
        decreases |rest|
      {
        GotTrim(rest, c, Raw());
        SpanMore(s, w, rest, c, Raw());
        SavedMore(old(saved)[..|old(saved)| - 1], w, [], [c], c);
        rest, w := Raw(), w + [c];
        c := GetSave();
      }
      GotTrim(rest, c, Raw());
      SpanAll(s, w, rest);
    }

    /** The integer part of `lex_scan_number`, behind the sign. */
    method IntegerPass(first: byte, ghost s: seq<byte>) returns (ok: bool, c: byte, ghost rest: seq<byte>)
      requires Valid() && Last(first) && Got(s, first, Raw()) && saved != [] && saved[|saved| - 1] == first
      modifies this`pos, this`bufferPos, this`filled, this`saved, buffer
      ensures Valid() && ok == (IntegerPart(Trim(s)) > 0)
      ensures ok ==> Last(c) && Got(rest, c, Raw()) && Took(Trim(s), IntegerPart(Trim(s)), Trim(rest), old(saved), saved, c)
    {
      hide Valid, Raw, Last, Trim, Cook, NulFree, SpanDigits;
      GotTrim(s, first, Raw());
      rest, c := s, first;
      if first == 0x30 {
        rest := Raw();
        c := GetSave();
        GotTrim(rest, c, Raw());
        assert Trim(s)[1..] == Trim(rest);
        if IsDigit(c) {
          UngetUnsave(c);
          return false, c, rest;
        }
        TookOne(Trim(s), old(saved), saved, c);
      } else if IsDigit(first) {
        c, rest := SkipDigits(first, s);
        DigitSpans(Trim(s));
      } else {
        NoDigitNoSpan(Trim(s));
        UngetUnsave(first);
        return false, c, rest;
      }
      ok := true;
    }

    /** `strtol` on the saved text, which is an optional sign and digits. */
    method SavedInteger(sign: nat, ghost digits: seq<byte>) returns (value: int)
      requires sign <= 1 && |saved| == sign + |digits| && saved[sign..] == digits && forall i :: 0 <= i < |digits| ==> IsDigit(digits[i])
      ensures value == if sign == 1 then -(DecimalValue(digits) as int) else DecimalValue(digits)
    {
      value := 0;
      var i := sign;
      assert digits[..0] == [];
      while i < |saved|
        invariant sign <= i <= |saved| && value == DecimalValue(digits[..i - sign])
      {
        assert saved[i] == digits[i - sign] && IsDigit(digits[i - sign]);
        assert digits[..i + 1 - sign][..i - sign] == digits[..i - sign];
        value := value * 10 + (saved[i] as int - 0x30);
        i := i + 1;
      }
      assert digits[..|digits|] == digits;
      if sign == 1 {
        value := -value;
      }
    }

    /** `lex_scan_number`; `c` is the first character, already saved. */
    method ScanNumberToken(first: byte, ghost s: seq<byte>)
      requires Valid() && Last(first) && Got(s, first, Raw()) && saved == [first] && (first == 0x2D || IsDigit(first))
      modifies this`pos, this`bufferPos, this`filled, this`saved, this`token, buffer
      ensures Valid()
      ensures Trim(s) != [] && Trim(s)[0] == first
      ensures token == ScanNumber(Trim(s)).token && (token != Invalid ==> Trim(Raw()) == ScanNumber(Trim(s)).rest)
    {
      hide Valid, Raw, Last, Trim, Cook, NulFree, SpanDigits, IntegerPart, Fraction, Exponent, ScanNumber, DecimalValue, Took;
      token := Invalid;
      var c, sign := first, 0;
      ghost var s0 := s;
      ghost var T, start := Trim(s), saved;
      GotTrim(s, first, Raw());
      TookNothing(T, saved, first);
      if first == 0x2D {
        sign := 1;
        s0 := Raw();
        c := GetSave();
        GotTrim(s0, c, Raw());
        TookOne(T, start, saved, c);
        assert T[1..] == Trim(s0);
      }
      Magnitude(c, s0, T, sign, start);
    }

    /** A number behind its sign; `start` is the first character of the token `T`. */
    method Magnitude(first: byte, ghost s0: seq<byte>, ghost T: seq<byte>, sign: nat, ghost start: seq<byte>)
      requires Valid() && Last(first) && Got(s0, first, Raw()) && token == Invalid
      requires T != [] && (T[0] == 0x2D || IsDigit(T[0])) && sign == (if T[0] == 0x2D then 1 else 0)
      requires |start| == 1 && Took(T, sign, Trim(s0), start, saved, first)
      modifies this`pos, this`bufferPos, this`filled, this`saved, this`token, buffer
      ensures Valid()
      ensures token == ScanNumber(T).token && (token != Invalid ==> Trim(Raw()) == ScanNumber(T).rest)
    {
      hide Valid, Raw, Last, Trim, Cook, NulFree, SpanDigits, IntegerPart, Fraction, Exponent, ScanNumber, DecimalValue, Took, Got, IsDigit;
      ghost var t, before := Trim(s0), saved;
      TookSaved(T, sign, t, start, saved, first);
      NoIntegerToken(T, sign, t);
      ghost var s1;
      var ok, c;
      ok, c, s1 := IntegerPass(first, s0);
      if !ok {
        return;
      }
      ghost var n := IntegerPart(t);
      GotTrim(s1, c, Raw());
      TookTwice(T, sign, t, n, Trim(s1), start, before, saved, first, c);
      TookSaved(t, n, Trim(s1), before, saved, c);
      if c != 0x2E && !IsExponent(c) {
        IntegerToken(T, sign, t, Trim(s1));
        TookDigits(T, sign, t, n, Trim(s1), start, before, saved, first, c);
        IntegerTail(c, s1, sign, t[..n]);
      } else {
        RealToken(T, sign, t, Trim(s1));
        RealTail(c, s1, T, sign + n, start);
      }
    }

    /** The rest of a number without either. */
    method IntegerTail(c: byte, ghost s1: seq<byte>, sign: nat, ghost digits: seq<byte>)
      requires Valid() && Last(c) && Got(s1, c, Raw()) && token == Invalid
      requires |saved| == sign + |digits| + 1 && saved[sign..] == digits + [c]
      requires sign <= 1 && forall i :: 0 <= i < |digits| ==> IsDigit(digits[i])
      modifies this`bufferPos, this`saved, this`token
      ensures Valid() && Trim(Raw()) == Trim(s1)
      ensures var value := if sign == 0 then DecimalValue(digits) else -(DecimalValue(digits) as int);
        token == if INT_MIN <= value <= INT_MAX then Number(value) else Invalid
    {
      hide Valid, Raw, Last, Trim, Cook, NulFree, SpanDigits, IntegerPart, Fraction, Exponent, ScanNumber, DecimalValue;
      GotTrim(s1, c, Raw());
      UngetUnsave(c);
      assert saved[sign..] == digits;
      var value := SavedInteger(sign, digits);
      if INT_MIN <= value <= INT_MAX {
        token := Number(value);
      }
    }

    /** The rest of a number with a fraction or an exponent. */
    method RealTail(first: byte, ghost s1: seq<byte>, ghost T: seq<byte>, ghost n: nat, ghost start: seq<byte>)
      requires Valid() && Last(first) && Got(s1, first, Raw()) && |start| == 1 && Took(T, n, Trim(s1), start, saved, first)
      modifies this`pos, this`bufferPos, this`filled, this`saved, this`token, buffer
      ensures Valid()
      ensures var u := Trim(s1);
        if Fraction(u).None? then token == old(token)
        else
          var w := u[Fraction(u).value..];
          if Exponent(w).None? then token == old(token)
          else |w| <= |T| && token == RealNumber(T[..|T| - |w| + Exponent(w).value]) && Trim(Raw()) == w[Exponent(w).value..]
    {
      hide Valid, Raw, Last, Trim, Cook, NulFree, SpanDigits, Fraction, Exponent, Took, Got, IsDigit;
      ghost var u, before := Trim(s1), saved;
      ghost var s2, s3;
      var ok, c;
      TookSaved(T, n, u, start, saved, first);
      ok, c, s2 := FractionPass(first, s1);
      if !ok {
        return;
      }
      ghost var m, mid, c1 := Fraction(u).value, saved, c;
      TookTwice(T, n, u, m, Trim(s2), start, before, saved, first, c);
      TookSaved(u, m, Trim(s2), before, saved, c);
      TookSaved(T, n + m, Trim(s2), start, saved, c);
      ok, c, s3 := ExponentPass(c, s2);
      if !ok {
        return;
      }
      ghost var k := Exponent(Trim(s2)).value;
      TookTwice(T, n + m, Trim(s2), k, Trim(s3), start, mid, saved, c1, c);
      TookSaved(T, n + m + k, Trim(s3), start, saved, c);
      GotTrim(s3, c, Raw());
      UngetUnsave(c);
      token := RealNumber(saved);
    }

    /** A fraction, if there is one. */
    method FractionPass(first: byte, ghost s: seq<byte>) returns (ok: bool, c: byte, ghost rest: seq<byte>)
      requires Valid() && Last(first) && Got(s, first, Raw()) && saved != [] && saved[|saved| - 1] == first
      modifies this`pos, this`bufferPos, this`filled, this`saved, buffer
      ensures Valid() && ok == Fraction(Trim(s)).Some?
      ensures ok ==> Last(c) && Got(rest, c, Raw()) && Took(Trim(s), Fraction(Trim(s)).value, Trim(rest), old(saved), saved, c)
    {
      hide Valid, Raw, Last, Trim, Cook, NulFree, SpanDigits, Fraction, Took, IsDigit;
      GotTrim(s, first, Raw());
      rest, c := s, first;
      TookNothing(Trim(s), saved, first);
      NoRealParts(Trim(s));
      if first == 0x2E {
        ghost var t := Raw();
        c := StreamGet();
        GotTrim(t, c, Raw());
        assert Trim(s) == [first] + Trim(t);
        if !IsDigit(c) {
          NoFraction(Trim(s), first, Trim(t));
          return false, c, rest;
        }
        LexSave(c);
        ghost var mid := saved;
        c, rest := SkipDigits(c, t);
        TookFraction(Trim(s), first, Trim(t), Trim(rest), old(saved), mid, saved, c);
      }
      ok := true;
    }

    /** The optional sign of an exponent and the character behind it. */
    method SignPass() returns (c: byte, ghost t: seq<byte>, ghost sign: seq<byte>)
      requires Valid()
      modifies this`pos, this`bufferPos, this`filled, this`saved, buffer
      ensures Valid() && Last(c) && Got(t, c, Raw()) && Head(Trim(t)) == c
      ensures Trim(old(Raw())) == sign + Trim(t) && saved == old(saved) + sign + [c]
      ensures var h := Head(Trim(old(Raw()))); if h == 0x2B || h == 0x2D then sign == [h] else sign == []
    {
      hide Valid, Raw, Last, Trim, Cook, NulFree;
      t, sign := Raw(), [];
      c := GetSave();
      GotTrim(t, c, Raw());
      if c == 0x2B || c == 0x2D {
        t, sign := Raw(), [c];
        c := GetSave();
        GotTrim(t, c, Raw());
      }
    }

    /** An exponent, if there is one. */
    method ExponentPass(first: byte, ghost s: seq<byte>) returns (ok: bool, c: byte, ghost rest: seq<byte>)
      requires Valid() && Last(first) && Got(s, first, Raw()) && saved != [] && saved[|saved| - 1] == first
      modifies this`pos, this`bufferPos, this`filled, this`saved, buffer
      ensures Valid() && ok == Exponent(Trim(s)).Some?
      ensures ok ==> Last(c) && Got(rest, c, Raw()) && Took(Trim(s), Exponent(Trim(s)).value, Trim(rest), old(saved), saved, c)
    {
      hide Valid, Raw, Last, Trim, Cook, NulFree, SpanDigits, Exponent, Took, IsDigit;
      GotTrim(s, first, Raw());
      rest, c := s, first;
      TookNothing(Trim(s), saved, first);
      NoRealParts(Trim(s));
      if IsExponent(first) {
        ghost var t, sign;
        c, t, sign := SignPass();
        if !IsDigit(c) {
          NoExponent(Trim(s), first, sign, Trim(t));
          UngetUnsave(c);
          return false, c, rest;
        }
        ghost var mid := saved;
        c, rest := SkipDigits(c, t);
        TookExponent(Trim(s), first, sign, Trim(t), Trim(rest), old(saved), mid, saved, c);
      }
      ok := true;
    }
  }

  lemma EofToken(s: seq<byte>, rest: seq<byte>)
    requires Got(s, EOF_CHAR, rest)
    ensures Scan(Trim(s)) == (if rest == [] then Scanned(Eof, []) else Scanned(Invalid, []))
    ensures rest == [] ==> Trim(rest) == []
  {
  }

  /** Letters `w` have been passed from `s` to `rest`. */
  ghost predicate Lettered(s: seq<byte>, w: seq<byte>, rest: seq<byte>) {
    Trim(s) == w + Trim(rest) && SpanAlpha(Trim(s)) == |w| + SpanAlpha(Trim(rest))
  }

  lemma LetterNothing(s: seq<byte>)
    ensures Lettered(s, [], s)
  {
    assert [] + Trim(s) == Trim(s);
  }

  lemma {:induction false} LetterConcat(w: seq<byte>, t: seq<byte>)
    requires forall i :: 0 <= i < |w| ==> IsAlpha(w[i])
    ensures SpanAlpha(w + t) == |w| + SpanAlpha(t)
  {
    if w == [] {
      assert w + t == t;
    } else {
      assert (w + t)[1..] == w[1..] + t;
      LetterConcat(w[1..], t);
    }
  }

  lemma LetterMore(s: seq<byte>, w: seq<byte>, rest: seq<byte>, c: byte, next: seq<byte>)
    requires Lettered(s, w, rest) && IsAlpha(c) && Got(rest, c, next)
    ensures Lettered(s, w + [c], next) && |next| < |rest|
  {
    GotTrim(rest, c, next);
    LetterConcat([c], Trim(next));
    hide SpanAlpha, Trim;
    assert w + ([c] + Trim(next)) == w + [c] + Trim(next);
  }

  lemma LetterAll(s: seq<byte>, w: seq<byte>, rest: seq<byte>)
    requires Lettered(s, w, rest) && !IsAlpha(Head(Trim(rest)))
    ensures SpanAlpha(Trim(s)) == |w| && Trim(s)[..|w|] == w && Trim(s)[|w|..] == Trim(rest)
  {
    hide Trim;
  }

  lemma TakeMore(s: seq<byte>, i: nat, n: nat)
    requires i <= |s| && n <= |s[i..]|
    ensures s[..i] + s[i..][..n] == s[..i + n] && s[i..][n..] == s[i + n..]
    ensures s[..i + n][i..] == s[i..][..n]
  {
  }

  lemma NoIntegerToken(s: seq<byte>, sign: nat, t: seq<byte>)
    requires s != [] && (s[0] == 0x2D || IsDigit(s[0])) && sign == (if s[0] == 0x2D then 1 else 0) && t == s[sign..]
    ensures IntegerPart(t) <= 0 ==> ScanNumber(s).token == Invalid
    ensures IntegerPart(t) <= |t| && forall i :: 0 <= i < IntegerPart(t) ==> IsDigit(t[i])
  {
    hide ScanNumber, SpanDigits, Fraction, Exponent, DecimalValue;
    NumberToken(s, sign, t);
  }

  lemma IntegerToken(s: seq<byte>, sign: nat, t: seq<byte>, u: seq<byte>)
    requires s != [] && (s[0] == 0x2D || IsDigit(s[0])) && sign == (if s[0] == 0x2D then 1 else 0) && t == s[sign..]
    requires 0 < IntegerPart(t) <= |t| && u == t[IntegerPart(t)..] && Head(u) != 0x2E && !IsExponent(Head(u))
    requires forall i :: 0 <= i < IntegerPart(t) ==> IsDigit(t[i])
    ensures var value := if sign == 0 then DecimalValue(t[..IntegerPart(t)]) else -(DecimalValue(t[..IntegerPart(t)]) as int);
      ScanNumber(s) == if INT_MIN <= value <= INT_MAX then Scanned(Number(value), u) else Scanned(Invalid, [])
  {
    hide ScanNumber, IntegerPart, SpanDigits, Fraction, Exponent, DecimalValue;
    NumberToken(s, sign, t);
  }

  lemma RealToken(s: seq<byte>, sign: nat, t: seq<byte>, u: seq<byte>)
    requires s != [] && (s[0] == 0x2D || IsDigit(s[0])) && sign == (if s[0] == 0x2D then 1 else 0) && t == s[sign..]
    requires 0 < IntegerPart(t) <= |t| && u == t[IntegerPart(t)..] && (Head(u) == 0x2E || IsExponent(Head(u)))
    ensures if Fraction(u).None? then ScanNumber(s).token == Invalid
      else
        var w := u[Fraction(u).value..];
        if Exponent(w).None? then ScanNumber(s).token == Invalid
        else |w| <= |s| && ScanNumber(s) == Scanned(RealNumber(s[..|s| - |w| + Exponent(w).value]), w[Exponent(w).value..])
  {
    hide ScanNumber, SpanDigits, IntegerPart, Fraction, Exponent, DecimalValue;
    RealBounds(u);
    NumberToken(s, sign, t);
  }

  lemma RealBounds(u: seq<byte>)
    ensures Fraction(u).Some? ==>
      var w := u[Fraction(u).value..];
      |w| <= |u| && (Exponent(w).Some? ==> Exponent(w).value <= |w|)
  {
  }

  lemma DigitSpans(t: seq<byte>)
    requires t != [] && IsDigit(t[0])
    ensures SpanDigits(t) > 0
  {
  }

  lemma NoDigitNoSpan(t: seq<byte>)
    requires !IsDigit(Head(t))
    ensures SpanDigits(t) == 0 && IntegerPart(t) == 0
  {
  }

  /** When there is no fraction, no exponent, or a digit missing behind their mark. */
  lemma NoRealParts(t: seq<byte>)
    ensures Head(t) != 0x2E ==> Fraction(t) == Some(0)
    ensures Head(t) == 0x2E ==> t != [] && (!IsDigit(Head(t[1..])) ==> Fraction(t).None?)
    ensures !IsExponent(Head(t)) ==> Exponent(t) == Some(0)
    ensures t[..0] == [] && t[0..] == t
  {
  }

  /** The first `n` characters of `t` went to the saved text in place of its last character, and `c` was read behind them. */
  ghost predicate Took(t: seq<byte>, n: nat, rest: seq<byte>, before: seq<byte>, after: seq<byte>, c: byte) {
    n <= |t| && rest == t[n..] && before != [] && after == before[..|before| - 1] + t[..n] + [c]
  }

  lemma TookNothing(t: seq<byte>, saved: seq<byte>, c: byte)
    requires saved != [] && saved[|saved| - 1] == c
    ensures Took(t, 0, t, saved, saved, c)
  {
    assert saved == saved[..|saved| - 1] + [c];
  }

  lemma TookOne(t: seq<byte>, before: seq<byte>, after: seq<byte>, c: byte)
    requires t != [] && before != [] && before[|before| - 1] == t[0] && after == before + [c]
    ensures Took(t, 1, t[1..], before, after, c)
  {
    assert before == before[..|before| - 1] + t[..1];
  }

  lemma TookFront(t: seq<byte>, first: byte, sign: seq<byte>, u: seq<byte>, before: seq<byte>, after: seq<byte>)
    requires t == [first] + (sign + u) && before != [] && before[|before| - 1] == first
    requires |after| == |before| + |sign| + 1 && after[..|after| - 1] == before + sign
    ensures Took(t, 1 + |sign|, u, before, after, after[|after| - 1])
  {
    assert before == before[..|before| - 1] + [first];
    assert t[..1 + |sign|] == [first] + sign && t[1 + |sign|..] == u;
  }

  lemma TookTwice(t: seq<byte>, n: nat, u: seq<byte>, m: nat, rest: seq<byte>, before: seq<byte>, mid: seq<byte>, after: seq<byte>,
                  c0: byte, c: byte)
    requires Took(t, n, u, before, mid, c0) && Took(u, m, rest, mid, after, c)
    ensures Took(t, n + m, rest, before, after, c)
  {
    TakeMore(t, n, m);
    assert mid[..|mid| - 1] == before[..|before| - 1] + t[..n];
    assert before[..|before| - 1] + t[..n] + u[..m] == before[..|before| - 1] + (t[..n] + u[..m]);
  }

  lemma TookSaved(t: seq<byte>, n: nat, rest: seq<byte>, before: seq<byte>, after: seq<byte>, c: byte)
    requires Took(t, n, rest, before, after, c)
    ensures n <= |t| && rest == t[n..] && |rest| == |t| - n && after != [] && after[|after| - 1] == c
    ensures |before| == 1 ==> after == t[..n] + [c] && after[..|after| - 1] == t[..n]
  {
  }

  lemma TookDigits(t: seq<byte>, sign: nat, u: seq<byte>, n: nat, rest: seq<byte>, before: seq<byte>, mid: seq<byte>, after: seq<byte>,
                   c0: byte, c: byte)
    requires Took(t, sign, u, before, mid, c0) && Took(u, n, rest, mid, after, c) && |before| == 1
    ensures n <= |u| && |after| == sign + n + 1 && after[sign..] == u[..n] + [c]
  {
  }

  lemma NoFraction(t: seq<byte>, first: byte, u: seq<byte>)
    requires t == [first] + u && first == 0x2E && !IsDigit(Head(u))
    ensures Fraction(t).None?
  {
    assert t[1..] == u;
  }

  lemma TookFraction(t: seq<byte>, first: byte, u: seq<byte>, rest: seq<byte>, before: seq<byte>, mid: seq<byte>, after: seq<byte>, c: byte)
    requires t == [first] + u && first == 0x2E && IsDigit(Head(u))
    requires before != [] && before[|before| - 1] == first && |mid| == |before| + 1 && mid[..|before|] == before
    requires Took(u, SpanDigits(u), rest, mid, after, c)
    ensures Fraction(t).Some? && Took(t, Fraction(t).value, rest, before, after, c)
  {
    hide SpanDigits, Took;
    assert t == [first] + ([] + u) && mid[..|mid| - 1] == before + [];
    TookFront(t, first, [], u, before, mid);
    TookTwice(t, 1, u, SpanDigits(u), rest, before, mid, after, mid[|mid| - 1], c);
    assert t[1..] == u;
  }

  lemma NoExponent(t: seq<byte>, first: byte, sign: seq<byte>, u: seq<byte>)
    requires t == [first] + (sign + u) && IsExponent(first) && !IsDigit(Head(u))
    requires if Head(sign + u) == 0x2B || Head(sign + u) == 0x2D then sign == [Head(sign + u)] else sign == []
    ensures Exponent(t).None?
  {
    assert t[1..] == sign + u && t[1 + |sign|..] == u;
  }

  lemma TookExponent(t: seq<byte>, first: byte, sign: seq<byte>, u: seq<byte>, rest: seq<byte>,
                     before: seq<byte>, mid: seq<byte>, after: seq<byte>, c: byte)
    requires t == [first] + (sign + u) && IsExponent(first) && IsDigit(Head(u))
    requires if Head(sign + u) == 0x2B || Head(sign + u) == 0x2D then sign == [Head(sign + u)] else sign == []
    requires before != [] && before[|before| - 1] == first && |mid| == |before| + |sign| + 1 && mid[..|mid| - 1] == before + sign
    requires Took(u, SpanDigits(u), rest, mid, after, c)
    ensures Exponent(t).Some? && Took(t, Exponent(t).value, rest, before, after, c)
  {
    hide SpanDigits, Took;
    TookFront(t, first, sign, u, before, mid);
    TookTwice(t, 1 + |sign|, u, SpanDigits(u), rest, before, mid, after, mid[|mid| - 1], c);
    assert t[1..] == sign + u && t[1 + |sign|..] == u;
  }

  /** Digits `w` have been passed from `s` to `rest`. */
  ghost predicate Spanned(s: seq<byte>, w: seq<byte>, rest: seq<byte>) {
    Trim(s) == w + Trim(rest) && SpanDigits(Trim(s)) == |w| + SpanDigits(Trim(rest))
  }

  lemma SpanNothing(s: seq<byte>)
    ensures Spanned(s, [], s)
  {
    assert [] + Trim(s) == Trim(s);
  }

  lemma {:induction false} SpanConcat(w: seq<byte>, t: seq<byte>)
    requires forall i :: 0 <= i < |w| ==> IsDigit(w[i])
    ensures SpanDigits(w + t) == |w| + SpanDigits(t)
  {
    if w == [] {
      assert w + t == t;
    } else {
      assert (w + t)[1..] == w[1..] + t;
      SpanConcat(w[1..], t);
    }
  }

  lemma SpanMore(s: seq<byte>, w: seq<byte>, rest: seq<byte>, c: byte, next: seq<byte>)
    requires Spanned(s, w, rest) && IsDigit(c) && Got(rest, c, next)
    ensures Spanned(s, w + [c], next) && |next| < |rest|
  {
    GotTrim(rest, c, next);
    SpanConcat([c], Trim(next));
    hide SpanDigits, Trim;
    assert w + ([c] + Trim(next)) == w + [c] + Trim(next);
  }

  lemma SpanAll(s: seq<byte>, w: seq<byte>, rest: seq<byte>)
    requires Spanned(s, w, rest) && !IsDigit(Head(Trim(rest)))
    ensures SpanDigits(Trim(s)) == |w| && Trim(s)[..|w|] == w && Trim(s)[|w|..] == Trim(rest)
  {
    hide Trim;
  }

  /** The second pass has turned the first `k` bytes of the body into `done`. */
  ghost predicate DecodedSoFar(body: seq<byte>, k: nat, done: seq<byte>)
    requires Body(body)
  {
    k <= |body| && Body(body[k..]) &&
    Decode(body) == match Decode(body[k..]) case None => None case Some(d) => Some(done + d)
  }

  lemma DecodedNothing(body: seq<byte>, done: seq<byte>)
    requires Body(body) && done == []
    ensures DecodedSoFar(body, 0, done)
  {
    assert body[0..] == body;
    if Decode(body).Some? {
      assert [] + Decode(body).value == Decode(body).value;
    }
  }

  /** The second pass at `saved[p]` is at place `p - 1` of the body, and at the final quote behind it. */
  lemma BodyAt(saved: seq<byte>, body: seq<byte>, p: nat)
    requires saved == [QUOTE] + body + [QUOTE] && 1 <= p < |saved|
    ensures |saved| == |body| + 2 && saved[p..] == body[p - 1..] + [QUOTE]
    ensures if p - 1 < |body| then saved[p] == body[p - 1] else saved[p] == QUOTE
  {
  }

  lemma DecodedBody(body: seq<byte>, k: nat, done: seq<byte>)
    requires Body(body) && DecodedSoFar(body, k, done)
    ensures k <= |body| && Body(body[k..])
  {
    hide Body, Decode;
  }

  lemma DecodedMore(body: seq<byte>, k: nat, done: seq<byte>)
    requires Body(body) && k < |body| && Body(body[k..]) && DecodedSoFar(body, k, done) && DecodePiece(body[k..]).Some?
    ensures var d := DecodePiece(body[k..]).value;
      1 <= d.used <= |body| - k && |d.bytes| <= d.used && DecodedSoFar(body, k + d.used, done + d.bytes)
  {
    hide DecodePiece, Body, Decode;
    DecodeStep(body[k..]);
    var d := DecodePiece(body[k..]).value;
    assert body[k..][d.used..] == body[k + d.used..];
    var tail := Decode(body[k + d.used..]);
    if tail.Some? {
      assert done + (d.bytes + tail.value) == done + d.bytes + tail.value;
    }
  }

  lemma StoppedAt(body: seq<byte>, k: nat, done: seq<byte>)
    requires Body(body) && DecodedSoFar(body, k, done) && k < |body| && DecodePiece(body[k..]).None?
    ensures Decode(body).None?
  {
    hide DecodePiece;
  }

  lemma DecodedAll(body: seq<byte>, k: nat, done: seq<byte>)
    requires Body(body) && DecodedSoFar(body, k, done)
    requires k < |body| ==> body[k] == QUOTE
    ensures k == |body| && Decode(body) == Some(done)
  {
    assert done + [] == done;
  }

  /** The first pass over `start` has gone over `w` and is at `s`. */
  ghost predicate Passed(start: seq<byte>, w: seq<byte>, s: seq<byte>) {
    && start == w + s && EOF_CHAR !in w && Trim(start) == w + Trim(s)
    && ScanString(Trim(start)) == match ScanString(Trim(s)) case None => None case Some(n) => Some(|w| + n)
  }

  lemma PassedNothing(start: seq<byte>)
    ensures Passed(start, [], start)
  {
    assert [] + start == start && [] + Trim(start) == Trim(start);
  }

  lemma SavedMore(q: seq<byte>, w: seq<byte>, e: seq<byte>, d: seq<byte>, c: byte)
    ensures q + w + e + d + [c] == q + (w + (e + d)) + [c]
    ensures e == [] ==> q + w + d + [c] == q + (w + d) + [c]
    ensures |e| == 1 && |d| == 1 ==> q + w + e + d + [c] == q + (w + [e[0], d[0]]) + [c]
    ensures |e| == 2 ==> q + w + [e[0]] + [e[1]] + d + [c] == q + (w + (e + d)) + [c]
  {
  }

  lemma OneDigit(saved: seq<byte>, before: seq<byte>, digit: byte, s: seq<byte>, c: byte)
    ensures before + ([digit] + s) == before + [digit] + s
    ensures saved + before + [digit] + [c] == saved + (before + [digit]) + [c]
  {
  }

  lemma PassedPiece(start: seq<byte>, w: seq<byte>, s: seq<byte>, e: seq<byte>, rest: seq<byte>)
    requires Passed(start, w, s) && s == e + rest
    requires e != [] && Piece(e) == |e|
    ensures Passed(start, w + e, rest)
  {
    hide ScanString, Trim, Piece;
    PieceHasNoEof(e);
    TrimConcat(e, rest);
    PieceStep(e, Trim(rest));
    assert w + (e + rest) == (w + e) + rest;
    assert w + (e + Trim(rest)) == (w + e) + Trim(rest);
  }

  lemma PlainPiece(c: byte)
    requires c != QUOTE && c != BACKSLASH && c != EOF_CHAR && c > 0x1F
    ensures Piece([c]) == 1
  {
  }

  lemma ShortcutPiece(c: byte)
    requires IsShortcut(c)
    ensures c != EOF_CHAR && Piece([BACKSLASH, c]) == 2
  {
  }

  lemma UnicodePiece(digits: seq<byte>)
    requires |digits| == 4 && forall k :: 0 <= k < 4 ==> IsHex(digits[k])
    ensures Piece([BACKSLASH, 0x75] + digits) == 6
  {
  }

  lemma PieceHasNoEof(e: seq<byte>)
    requires e != [] && Piece(e) == |e|
    ensures EOF_CHAR !in e
  {
  }

  lemma PieceStep(e: seq<byte>, t: seq<byte>)
    requires e != [] && Piece(e) == |e|
    ensures ScanString(e + t) == match ScanString(t) case None => None case Some(n) => Some(|e| + n)
  {
    assert forall i :: 0 <= i < |e| ==> (e + t)[i] == e[i];
    assert Piece(e + t) == |e|;
    assert (e + t)[|e|..] == t;
  }

  lemma PassedAll(start: seq<byte>, w: seq<byte>, s: seq<byte>)
    requires Passed(start, w, s) && Head(Trim(s)) == QUOTE
    ensures ScanString(Trim(start)) == Some(|w|) && Trim(start)[..|w|] == w && Trim(start)[|w| + 1..] == Trim(s)[1..]
  {
  }

  lemma Stuck(start: seq<byte>, w: seq<byte>, s: seq<byte>)
    requires Passed(start, w, s) && (Head(Trim(s)) == EOF_CHAR || Head(Trim(s)) <= 0x1F)
    ensures ScanString(Trim(start)).None?
  {
    hide Trim;
  }

  lemma StuckEscape(start: seq<byte>, w: seq<byte>, s0: seq<byte>, s: seq<byte>)
    requires Passed(start, w, s0) && s0 == [BACKSLASH] + s
    requires Head(Trim(s)) != 0x75 && !IsShortcut(Head(Trim(s)))
    ensures ScanString(Trim(start)).None?
  {
    TrimConcat([BACKSLASH], s);
    hide Trim;
    assert Piece([BACKSLASH] + Trim(s)) == 0;
  }

  lemma NotFourDigits(start: seq<byte>, w: seq<byte>, s0: seq<byte>, s1: seq<byte>, digits: seq<byte>, s: seq<byte>)
    requires Passed(start, w, s0)
    requires s0 == [BACKSLASH, 0x75] + s1 && s1 == digits + s && |digits| < 4 && !IsHex(Head(Trim(s)))
    requires forall i :: 0 <= i < |digits| ==> IsHex(digits[i])
    ensures ScanString(Trim(start)).None?
  {
    var e := [BACKSLASH, 0x75] + digits;
    assert s0 == e + s;
    TrimConcat(e, s);
    var t := Trim(s0);
    hide Trim, ScanString;
    NotFourDigitsPiece(t, digits, Trim(s));
    StuckPiece(start, w, s0);
  }

  lemma StuckPiece(start: seq<byte>, w: seq<byte>, s: seq<byte>)
    requires Passed(start, w, s) && Head(Trim(s)) != QUOTE && Piece(Trim(s)) == 0
    ensures ScanString(Trim(start)).None?
  {
    hide Trim, Piece;
  }

  lemma NotFourDigitsPiece(t: seq<byte>, digits: seq<byte>, s: seq<byte>)
    requires t == [BACKSLASH, 0x75] + digits + s && |digits| < 4 && !IsHex(Head(s))
    requires forall i :: 0 <= i < |digits| ==> IsHex(digits[i])
    ensures t[0] == BACKSLASH && Piece(t) == 0
  {
    assert t[0] == BACKSLASH && t[1] == 0x75;
    assert forall i :: 0 <= i < |digits| ==> t[2 + i] == digits[i];
    if |t| >= 6 {
      assert t[2 + |digits|] == s[0];
    }
  }
}
