/** The SHA-256 compression function on words, as sections 4.1.2, 4.2.2 and 6.2.2 of FIPS 180-4 define it. */
module Sha256 {
  /** A 32-bit word as an unsigned number; `bv32` is the same word as a string of bits. */
  newtype Word = x: int | 0 <= x < 0x1_0000_0000

  const MODULUS := 0x1_0000_0000

  function Bits(x: Word): bv32 {
    x as bv32
  }

  function Value(b: bv32): Word {
    b as Word
  }

  /** Addition modulo 2^32. */
  function Add(x: Word, y: Word): Word {
    ((x as int + y as int) % MODULUS) as Word
  }

  function Sum4(w: Word, x: Word, y: Word, z: Word): Word {
    Add(Add(Add(w, x), y), z)
  }

  function Sum5(v: Word, w: Word, x: Word, y: Word, z: Word): Word {
    Add(Sum4(v, w, x, y), z)
  }

  lemma AddAssoc(x: Word, y: Word, z: Word)
    ensures Add(x, Add(y, z)) == Add(Add(x, y), z)
  {
  }

  lemma AddSwap(x: Word, y: Word)
    ensures Add(x, y) == Add(y, x)
  {
  }

  lemma AddExchange(x: Word, y: Word, z: Word)
    ensures Add(Add(x, y), z) == Add(Add(x, z), y)
  {
    hide Add;
    AddAssoc(x, y, z);
    AddSwap(y, z);
    AddAssoc(x, z, y);
  }

  // ----- functions of section 4.1.2

  function Rotr(b: bv32, n: bv6): bv32
    requires 0 < n < 32
  {
    (b >> n) | (b << (32 - n))
  }

  function Ch(x: Word, y: Word, z: Word): Word {
    Value((Bits(x) & Bits(y)) ^ (!Bits(x) & Bits(z)))
  }

  function Maj(x: Word, y: Word, z: Word): Word {
    Value((Bits(x) & Bits(y)) ^ (Bits(x) & Bits(z)) ^ (Bits(y) & Bits(z)))
  }

  function Xor3(x: bv32, y: bv32, z: bv32): bv32 {
    x ^ y ^ z
  }

  function BigSigma0Bits(b: bv32): bv32 {
    Xor3(Rotr(b, 2), Rotr(b, 13), Rotr(b, 22))
  }

  function BigSigma0(x: Word): Word {
    Value(BigSigma0Bits(Bits(x)))
  }

  function BigSigma1Bits(b: bv32): bv32 {
    Xor3(Rotr(b, 6), Rotr(b, 11), Rotr(b, 25))
  }

  function BigSigma1(x: Word): Word {
    Value(BigSigma1Bits(Bits(x)))
  }

  function SmallSigma0Bits(b: bv32): bv32 {
    Xor3(Rotr(b, 7), Rotr(b, 18), b >> 3)
  }

  function SmallSigma0(x: Word): Word {
    Value(SmallSigma0Bits(Bits(x)))
  }

  function SmallSigma1Bits(b: bv32): bv32 {
    Xor3(Rotr(b, 17), Rotr(b, 19), b >> 10)
  }

  function SmallSigma1(x: Word): Word {
    Value(SmallSigma1Bits(Bits(x)))
  }

  // ----- the four sigma functions written out in shifts

  lemma BigSigma0Written(b: bv32)
    ensures BigSigma0Bits(b) == ((b >> 2) | (b << 30)) ^ ((b >> 13) | (b << 19)) ^ ((b >> 22) | (b << 10))
  {
    hide Xor3, Rotr;
    RotrIs2(b);
    RotrIs13(b);
    RotrIs22(b);
    BigSigma0Xor(b);
  }

  lemma BigSigma0Xor(b: bv32)
    ensures Xor3(((b >> 2) | (b << 30)), ((b >> 13) | (b << 19)), ((b >> 22) | (b << 10))) == ((b >> 2) | (b << 30)) ^ ((b >> 13) | (b << 19)) ^ ((b >> 22) | (b << 10))
  {
  }

  lemma BigSigma1Written(b: bv32)
    ensures BigSigma1Bits(b) == ((b >> 6) | (b << 26)) ^ ((b >> 11) | (b << 21)) ^ ((b >> 25) | (b << 7))
  {
    hide Xor3, Rotr;
    RotrIs6(b);
    RotrIs11(b);
    RotrIs25(b);
    BigSigma1Xor(b);
  }

  lemma BigSigma1Xor(b: bv32)
    ensures Xor3(((b >> 6) | (b << 26)), ((b >> 11) | (b << 21)), ((b >> 25) | (b << 7))) == ((b >> 6) | (b << 26)) ^ ((b >> 11) | (b << 21)) ^ ((b >> 25) | (b << 7))
  {
  }

  lemma SmallSigma0Written(b: bv32)
    ensures SmallSigma0Bits(b) == ((b >> 7) | (b << 25)) ^ ((b >> 18) | (b << 14)) ^ (b >> 3)
  {
    hide Xor3, Rotr;
    RotrIs7(b);
    RotrIs18(b);
    SmallSigma0Xor(b);
  }

  lemma SmallSigma0Xor(b: bv32)
    ensures Xor3(((b >> 7) | (b << 25)), ((b >> 18) | (b << 14)), (b >> 3)) == ((b >> 7) | (b << 25)) ^ ((b >> 18) | (b << 14)) ^ (b >> 3)
  {
  }

  lemma SmallSigma1Written(b: bv32)
    ensures SmallSigma1Bits(b) == ((b >> 17) | (b << 15)) ^ ((b >> 19) | (b << 13)) ^ (b >> 10)
  {
    hide Xor3, Rotr;
    RotrIs17(b);
    RotrIs19(b);
    SmallSigma1Xor(b);
  }

  lemma SmallSigma1Xor(b: bv32)
    ensures Xor3(((b >> 17) | (b << 15)), ((b >> 19) | (b << 13)), (b >> 10)) == ((b >> 17) | (b << 15)) ^ ((b >> 19) | (b << 13)) ^ (b >> 10)
  {
  }

  lemma RotrIs2(b: bv32)
    ensures Rotr(b, 2) == ((b >> 2) | (b << 30))
  {
  }

  lemma RotrIs6(b: bv32)
    ensures Rotr(b, 6) == ((b >> 6) | (b << 26))
  {
  }

  lemma RotrIs7(b: bv32)
    ensures Rotr(b, 7) == ((b >> 7) | (b << 25))
  {
  }

  lemma RotrIs11(b: bv32)
    ensures Rotr(b, 11) == ((b >> 11) | (b << 21))
  {
  }

  lemma RotrIs13(b: bv32)
    ensures Rotr(b, 13) == ((b >> 13) | (b << 19))
  {
  }

  lemma RotrIs17(b: bv32)
    ensures Rotr(b, 17) == ((b >> 17) | (b << 15))
  {
  }

  lemma RotrIs18(b: bv32)
    ensures Rotr(b, 18) == ((b >> 18) | (b << 14))
  {
  }

  lemma RotrIs19(b: bv32)
    ensures Rotr(b, 19) == ((b >> 19) | (b << 13))
  {
  }

  lemma RotrIs22(b: bv32)
    ensures Rotr(b, 22) == ((b >> 22) | (b << 10))
  {
  }

  lemma RotrIs25(b: bv32)
    ensures Rotr(b, 25) == ((b >> 25) | (b << 7))
  {
  }

  // ----- constants of section 4.2.2; the four tables of the sources hold the same numbers

  const ROW0: seq<Word> := [0x428a2f98, 0x71374491, 0xb5c0fbcf, 0xe9b5dba5, 0x3956c25b, 0x59f111f1, 0x923f82a4, 0xab1c5ed5]
  const ROW1: seq<Word> := [0xd807aa98, 0x12835b01, 0x243185be, 0x550c7dc3, 0x72be5d74, 0x80deb1fe, 0x9bdc06a7, 0xc19bf174]
  const ROW2: seq<Word> := [0xe49b69c1, 0xefbe4786, 0x0fc19dc6, 0x240ca1cc, 0x2de92c6f, 0x4a7484aa, 0x5cb0a9dc, 0x76f988da]
  const ROW3: seq<Word> := [0x983e5152, 0xa831c66d, 0xb00327c8, 0xbf597fc7, 0xc6e00bf3, 0xd5a79147, 0x06ca6351, 0x14292967]
  const ROW4: seq<Word> := [0x27b70a85, 0x2e1b2138, 0x4d2c6dfc, 0x53380d13, 0x650a7354, 0x766a0abb, 0x81c2c92e, 0x92722c85]
  const ROW5: seq<Word> := [0xa2bfe8a1, 0xa81a664b, 0xc24b8b70, 0xc76c51a3, 0xd192e819, 0xd6990624, 0xf40e3585, 0x106aa070]
  const ROW6: seq<Word> := [0x19a4c116, 0x1e376c08, 0x2748774c, 0x34b0bcb5, 0x391c0cb3, 0x4ed8aa4a, 0x5b9cca4f, 0x682e6ff3]
  const ROW7: seq<Word> := [0x748f82ee, 0x78a5636f, 0x84c87814, 0x8cc70208, 0x90befffa, 0xa4506ceb, 0xbef9a3f7, 0xc67178f2]

  const K: seq<Word> := ROW0 + ROW1 + ROW2 + ROW3 + ROW4 + ROW5 + ROW6 + ROW7

  lemma Rows()
    ensures |K| == 64
    ensures forall i :: 0 <= i < 8 ==> K[i] == ROW0[i] && K[8 + i] == ROW1[i] && K[16 + i] == ROW2[i] && K[24 + i] == ROW3[i]
    ensures forall i :: 0 <= i < 8 ==> K[32 + i] == ROW4[i] && K[40 + i] == ROW5[i] && K[48 + i] == ROW6[i] && K[56 + i] == ROW7[i]
  {
  }

  // ----- section 6.2.2

  datatype State = State(a: Word, b: Word, c: Word, d: Word, e: Word, f: Word, g: Word, h: Word)

  const INIT := State(0x6a09e667, 0xbb67ae85, 0x3c6ef372, 0xa54ff53a, 0x510e527f, 0x9b05688c, 0x1f83d9ab, 0x5be0cd19)

  /** Step 1: word `t` of the message schedule of the block `m`. */
  function Schedule(m: seq<Word>, t: nat): Word
    requires |m| == 16
  {
    if t < 16 then m[t]
    else Sum4(SmallSigma1(Schedule(m, t - 2)), Schedule(m, t - 7), SmallSigma0(Schedule(m, t - 15)), Schedule(m, t - 16))
  }

  /** Step 3 for one `t`. */
  function Round(s: State, k: Word, w: Word): State {
    var t1 := Sum5(s.h, BigSigma1(s.e), Ch(s.e, s.f, s.g), k, w);
    var t2 := Add(BigSigma0(s.a), Maj(s.a, s.b, s.c));
    State(Add(t1, t2), s.a, s.b, s.c, Add(s.d, t1), s.e, s.f, s.g)
  }

  /** The working variables after `n` rounds. */
  function Rounds(s: State, m: seq<Word>, n: nat): State
    requires |m| == 16 && n <= 64
  {
    if n == 0 then s else Round(Rounds(s, m, n - 1), K[n - 1], Schedule(m, n - 1))
  }

  function Sum(s: State, t: State): State {
    State(Add(s.a, t.a), Add(s.b, t.b), Add(s.c, t.c), Add(s.d, t.d), Add(s.e, t.e), Add(s.f, t.f), Add(s.g, t.g), Add(s.h, t.h))
  }

  /** The hash value after the block `m`, from the hash value `s` before it. */
  function Compress(s: State, m: seq<Word>): State
    requires |m| == 16
  {
    Sum(s, Rounds(s, m, 64))
  }

  function Words(s: State): (r: seq<Word>)
    ensures |r| == 8
  {
    [s.a, s.b, s.c, s.d, s.e, s.f, s.g, s.h]
  }

  function FromWords(ws: seq<Word>): (s: State)
    requires |ws| == 8
    ensures Words(s) == ws
  {
    State(ws[0], ws[1], ws[2], ws[3], ws[4], ws[5], ws[6], ws[7])
  }

  lemma NextWord(m: seq<Word>, t: nat)
    requires |m| == 16 && t >= 16
    ensures Schedule(m, t) == Sum4(SmallSigma1(Schedule(m, t - 2)), Schedule(m, t - 7), SmallSigma0(Schedule(m, t - 15)), Schedule(m, t - 16))
  {
  }

  /** One more round. */
  lemma NextRound(s: State, m: seq<Word>, n: nat)
    requires |m| == 16 && n < 64
    ensures Rounds(s, m, n + 1) == Round(Rounds(s, m, n), K[n], Schedule(m, n))
  {
  }

  /** Three rounds later the variable `e` is `h`, and `a` is `d`. */
  lemma ThreeRoundsLater(s: State, m: seq<Word>, n: nat)
    requires |m| == 16 && n + 3 <= 64
    ensures Rounds(s, m, n + 3).h == Rounds(s, m, n).e && Rounds(s, m, n + 3).d == Rounds(s, m, n).a
  {
    hide Schedule, BigSigma0, BigSigma1, Ch, Maj, Add, Sum4, Sum5;
    NextRound(s, m, n);
    NextRound(s, m, n + 1);
    NextRound(s, m, n + 2);
  }

  // ----- the form of Ch that both C files use

  function Choose(x: Word, y: Word, z: Word): Word {
    Value(Bits(z) ^ (Bits(x) & (Bits(y) ^ Bits(z))))
  }

  lemma SameChoice(x: Word, y: Word, z: Word)
    ensures Choose(x, y, z) == Ch(x, y, z)
  {
    hide Bits, Value;
    ChoiceBits(Bits(x), Bits(y), Bits(z));
  }

  lemma ChoiceBits(x: bv32, y: bv32, z: bv32)
    ensures z ^ (x & (y ^ z)) == (x & y) ^ (!x & z)
  {
  }
}
