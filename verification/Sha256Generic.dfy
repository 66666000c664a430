/** `sha256_transform` of `sha256_generic.c`: a schedule of 64 words, and registers renamed from round to round. */
module Sha256Generic {
  import opened Sha256

  function Majority(x: Word, y: Word, z: Word): Word {
    Value((Bits(x) & Bits(y)) | (Bits(z) & (Bits(x) | Bits(y))))
  }

  lemma SameMajority(x: Word, y: Word, z: Word)
    ensures Majority(x, y, z) == Maj(x, y, z)
  {
    hide Bits, Value;
    MajorityBits(Bits(x), Bits(y), Bits(z));
  }

  lemma MajorityBits(x: bv32, y: bv32, z: bv32)
    ensures (x & y) | (z & (x | y)) == (x & y) ^ (x & z) ^ (y & z)
  {
  }

  method Transform(state: array<Word>, input: seq<Word>)
    requires state.Length == 8 && |input| == 16
    modifies state
    ensures FromWords(state[..]) == Compress(old(FromWords(state[..])), input)
  {
    hide Rounds, Schedule, Add, Sum5;
    var W := Load(input);
    ghost var start := FromWords(state[..]);
    var r := State(state[0], state[1], state[2], state[3], state[4], state[5], state[6], state[7]);
    var j := 0;
    RoundsNone(start, input);
    while j < 64
      invariant 0 <= j <= 64 && j % 8 == 0
      invariant r == Rounds(start, input, j)
      invariant forall t :: 0 <= t < 64 ==> W[t] == Schedule(input, t)
      invariant state[..] == old(state[..])
    {
      r := EightRounds(r, j, W, start, input);
      j := j + 8;
    }
    state[0], state[1], state[2], state[3] := Add(state[0], r.a), Add(state[1], r.b), Add(state[2], r.c), Add(state[3], r.d);
    state[4], state[5], state[6], state[7] := Add(state[4], r.e), Add(state[5], r.f), Add(state[6], r.g), Add(state[7], r.h);
  }

  /** `LOAD_OP` for the block and `BLEND_OP` for the other 48 words. */
  method Load(input: seq<Word>) returns (W: array<Word>)
    requires |input| == 16
    ensures fresh(W) && W.Length == 64
    ensures forall t :: 0 <= t < 64 ==> W[t] == Schedule(input, t)
  {
    hide Sum4, SmallSigma0, SmallSigma1;
    W := new Word[64];
    var i := 0;
    while i < 16
      invariant 0 <= i <= 16
      invariant forall t :: 0 <= t < i ==> W[t] == Schedule(input, t)
    {
      W[i] := input[i];
      i := i + 1;
    }
    while i < 64
      invariant 16 <= i <= 64
      invariant forall t :: 0 <= t < i ==> W[t] == Schedule(input, t)
    {
      W[i] := Sum4(SmallSigma1(W[i - 2]), W[i - 7], SmallSigma0(W[i - 15]), W[i - 16]);
      i := i + 1;
    }
  }

  lemma RoundsNone(s: State, m: seq<Word>)
    requires |m| == 16
    ensures Rounds(s, m, 0) == s
  {
  }

  /** One of the eight groups of the unrolled rounds: each line names the registers one place further. */
  method EightRounds(r: State, j: nat, W: array<Word>, ghost start: State, ghost input: seq<Word>) returns (r': State)
    requires |input| == 16 && j + 8 <= 64 && W.Length == 64
    requires forall t :: 0 <= t < 64 ==> W[t] == Schedule(input, t)
    requires r == Rounds(start, input, j)
    ensures r' == Rounds(start, input, j + 8)
  {
    hide Ch, Maj, Choose, Majority, BigSigma0, BigSigma1, Rounds, Schedule, Add, Sum5;
    var a, b, c, d, e, f, g, h := r.a, r.b, r.c, r.d, r.e, r.f, r.g, r.h;
    var t1, t2;
    t1 := Sum5(h, BigSigma1(e), Choose(e, f, g), K[j], W[j]);
    t2 := Add(BigSigma0(a), Majority(a, b, c));
    Line(start, input, j, State(a, b, c, d, e, f, g, h), t1, t2);
    d, h := Add(d, t1), Add(t1, t2);
    t1 := Sum5(g, BigSigma1(d), Choose(d, e, f), K[j + 1], W[j + 1]);
    t2 := Add(BigSigma0(h), Majority(h, a, b));
    Line(start, input, j + 1, State(h, a, b, c, d, e, f, g), t1, t2);
    c, g := Add(c, t1), Add(t1, t2);
    t1 := Sum5(f, BigSigma1(c), Choose(c, d, e), K[j + 2], W[j + 2]);
    t2 := Add(BigSigma0(g), Majority(g, h, a));
    Line(start, input, j + 2, State(g, h, a, b, c, d, e, f), t1, t2);
    b, f := Add(b, t1), Add(t1, t2);
    t1 := Sum5(e, BigSigma1(b), Choose(b, c, d), K[j + 3], W[j + 3]);
    t2 := Add(BigSigma0(f), Majority(f, g, h));
    Line(start, input, j + 3, State(f, g, h, a, b, c, d, e), t1, t2);
    a, e := Add(a, t1), Add(t1, t2);
    t1 := Sum5(d, BigSigma1(a), Choose(a, b, c), K[j + 4], W[j + 4]);
    t2 := Add(BigSigma0(e), Majority(e, f, g));
    Line(start, input, j + 4, State(e, f, g, h, a, b, c, d), t1, t2);
    h, d := Add(h, t1), Add(t1, t2);
    t1 := Sum5(c, BigSigma1(h), Choose(h, a, b), K[j + 5], W[j + 5]);
    t2 := Add(BigSigma0(d), Majority(d, e, f));
    Line(start, input, j + 5, State(d, e, f, g, h, a, b, c), t1, t2);
    g, c := Add(g, t1), Add(t1, t2);
    t1 := Sum5(b, BigSigma1(g), Choose(g, h, a), K[j + 6], W[j + 6]);
    t2 := Add(BigSigma0(c), Majority(c, d, e));
    Line(start, input, j + 6, State(c, d, e, f, g, h, a, b), t1, t2);
    f, b := Add(f, t1), Add(t1, t2);
    t1 := Sum5(a, BigSigma1(f), Choose(f, g, h), K[j + 7], W[j + 7]);
    t2 := Add(BigSigma0(b), Majority(b, c, d));
    Line(start, input, j + 7, State(b, c, d, e, f, g, h, a), t1, t2);
    e, a := Add(e, t1), Add(t1, t2);
    r' := State(a, b, c, d, e, f, g, h);
  }

  /** What one line of the unrolled rounds computes. */
  lemma Line(start: State, input: seq<Word>, n: nat, s: State, t1: Word, t2: Word)
    requires |input| == 16 && n < 64 && s == Rounds(start, input, n)
    requires t1 == Sum5(s.h, BigSigma1(s.e), Choose(s.e, s.f, s.g), K[n], Schedule(input, n))
    requires t2 == Add(BigSigma0(s.a), Majority(s.a, s.b, s.c))
    ensures State(Add(t1, t2), s.a, s.b, s.c, Add(s.d, t1), s.e, s.f, s.g) == Rounds(start, input, n + 1)
  {
    hide Ch, Maj, Choose, Majority, BigSigma0, BigSigma1, Schedule, Add, Sum5;
    NextRound(start, input, n);
    SameChoice(s.e, s.f, s.g);
    SameMajority(s.a, s.b, s.c);
  }
}
