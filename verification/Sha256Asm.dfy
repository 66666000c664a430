/**
  `CalcSha256_x64` of `x86_64/sha256_xmm_amd64.asm`: four computations at a time, rotations
  built from chained shifts, the schedule expanded in place behind the block.
  */
module Sha256Asm {
  import opened Sha256
  import opened Sha256Lanes

  // ----- the runs of bitwise instructions, on one lane; one line for each instruction

  function SmallChain0(w: bv32): bv32 {
    var xmm0 := w;
    var xmm2 := xmm0;
    var xmm0 := xmm0 >> 3;
    var xmm1 := xmm0;
    var xmm2 := xmm2 << 14;
    var xmm1 := xmm1 >> 4;
    var xmm0 := xmm0 ^ xmm1;
    var xmm0 := xmm0 ^ xmm2;
    var xmm2 := xmm2 << 11;
    var xmm1 := xmm1 >> 11;
    var xmm0 := xmm0 ^ xmm1;
    xmm0 ^ xmm2
  }

  function SmallChain1(w: bv32): bv32 {
    var xmm3 := w;
    var xmm2 := xmm3;
    var xmm3 := xmm3 >> 10;
    var xmm1 := xmm3;
    var xmm2 := xmm2 << 13;
    var xmm1 := xmm1 >> 7;
    var xmm3 := xmm3 ^ xmm1;
    var xmm3 := xmm3 ^ xmm2;
    var xmm2 := xmm2 << 2;
    var xmm1 := xmm1 >> 2;
    var xmm3 := xmm3 ^ xmm1;
    xmm3 ^ xmm2
  }

  function BigChain1(e: bv32): bv32 {
    var xmm0 := e;
    var xmm1 := xmm0;
    var xmm0 := xmm0 >> 6;
    var xmm2 := xmm0;
    var xmm1 := xmm1 << 7;
    var xmm2 := xmm2 >> 5;
    var xmm0 := xmm0 ^ xmm1;
    var xmm0 := xmm0 ^ xmm2;
    var xmm1 := xmm1 << 14;
    var xmm2 := xmm2 >> 14;
    var xmm0 := xmm0 ^ xmm1;
    var xmm0 := xmm0 ^ xmm2;
    var xmm1 := xmm1 << 5;
    xmm0 ^ xmm1
  }

  function BigChain0(a: bv32): bv32 {
    var xmm7 := a;
    var xmm2 := xmm7;
    var xmm7 := xmm7 >> 2;
    var xmm1 := xmm7;
    var xmm2 := xmm2 << 10;
    var xmm1 := xmm1 >> 11;
    var xmm7 := xmm7 ^ xmm2;
    var xmm7 := xmm7 ^ xmm1;
    var xmm2 := xmm2 << 9;
    var xmm1 := xmm1 >> 9;
    var xmm7 := xmm7 ^ xmm2;
    var xmm7 := xmm7 ^ xmm1;
    var xmm2 := xmm2 << 11;
    xmm7 ^ xmm2
  }

  function ChRun(e: bv32, f: bv32, g: bv32): bv32 {
    var xmm1 := e;
    var xmm2 := g;
    var xmm1 := !xmm1 & xmm2;
    var xmm2 := f;
    var xmm2 := xmm2 & e;
    xmm1 ^ xmm2
  }

  function MajRun(a: bv32, b: bv32, c: bv32): bv32 {
    var xmm1 := b;
    var xmm2 := c;
    var xmm2 := xmm2 & b;
    var xmm1 := xmm1 ^ c;
    var xmm1 := xmm1 & a;
    xmm1 ^ xmm2
  }

  /** The shift chain is the rotation-based sigma. */
  lemma SmallChain0IsSigma(w: bv32)
    ensures SmallChain0(w) == SmallSigma0Bits(w)
  {
    hide SmallSigma0Bits;
    SmallChain0Shifts(w);
    SmallSigma0Written(w);
  }

  lemma SmallChain0Shifts(w: bv32)
    ensures (((((w >> 3) ^ ((w >> 3) >> 4)) ^ (w << 14)) ^ (((w >> 3) >> 4) >> 11)) ^ ((w << 14) << 11))
         == ((w >> 7) | (w << 25)) ^ ((w >> 18) | (w << 14)) ^ (w >> 3)
  {
  }

  /** The shift chain is the rotation-based sigma. */
  lemma SmallChain1IsSigma(w: bv32)
    ensures SmallChain1(w) == SmallSigma1Bits(w)
  {
    hide SmallSigma1Bits;
    SmallChain1Shifts(w);
    SmallSigma1Written(w);
  }

  lemma SmallChain1Shifts(w: bv32)
    ensures (((((w >> 10) ^ ((w >> 10) >> 7)) ^ (w << 13)) ^ (((w >> 10) >> 7) >> 2)) ^ ((w << 13) << 2))
         == ((w >> 17) | (w << 15)) ^ ((w >> 19) | (w << 13)) ^ (w >> 10)
  {
  }

  /** The shift chain is the rotation-based sigma. */
  lemma BigChain1IsSigma(w: bv32)
    ensures BigChain1(w) == BigSigma1Bits(w)
  {
    hide BigSigma1Bits;
    BigChain1Shifts(w);
    BigSigma1Written(w);
  }

  lemma BigChain1Shifts(w: bv32)
    ensures ((((((w >> 6) ^ (w << 7)) ^ ((w >> 6) >> 5)) ^ ((w << 7) << 14)) ^ (((w >> 6) >> 5) >> 14)) ^ (((w << 7) << 14) << 5))
         == ((w >> 6) | (w << 26)) ^ ((w >> 11) | (w << 21)) ^ ((w >> 25) | (w << 7))
  {
  }

  /** The shift chain is the rotation-based sigma. */
  lemma BigChain0IsSigma(w: bv32)
    ensures BigChain0(w) == BigSigma0Bits(w)
  {
    hide BigSigma0Bits;
    BigChain0Shifts(w);
    BigSigma0Written(w);
  }

  lemma BigChain0Shifts(w: bv32)
    ensures ((((((w >> 2) ^ (w << 10)) ^ ((w >> 2) >> 11)) ^ ((w << 10) << 9)) ^ (((w >> 2) >> 11) >> 9)) ^ (((w << 10) << 9) << 11))
         == ((w >> 2) | (w << 30)) ^ ((w >> 13) | (w << 19)) ^ ((w >> 22) | (w << 10))
  {
  }

  lemma ChRunIsCh(e: bv32, f: bv32, g: bv32)
    ensures ChRun(e, f, g) == (e & f) ^ (!e & g)
  {
    ChRunBits(e, f, g);
  }

  lemma ChRunBits(e: bv32, f: bv32, g: bv32)
    ensures (!e & g) ^ (f & e) == (e & f) ^ (!e & g)
  {
  }

  lemma MajRunIsMaj(a: bv32, b: bv32, c: bv32)
    ensures MajRun(a, b, c) == (a & b) ^ (a & c) ^ (b & c)
  {
    MajRunBits(a, b, c);
  }

  lemma MajRunBits(a: bv32, b: bv32, c: bv32)
    ensures ((b ^ c) & a) ^ (c & b) == (a & b) ^ (a & c) ^ (b & c)
  {
  }

  // ----- the same runs on all four lanes

  function Small0(w: Vec): Vec {
    Vec(Value(SmallChain0(Bits(w.x0))), Value(SmallChain0(Bits(w.x1))), Value(SmallChain0(Bits(w.x2))), Value(SmallChain0(Bits(w.x3))))
  }

  function Small1(w: Vec): Vec {
    Vec(Value(SmallChain1(Bits(w.x0))), Value(SmallChain1(Bits(w.x1))), Value(SmallChain1(Bits(w.x2))), Value(SmallChain1(Bits(w.x3))))
  }

  function Big0(a: Vec): Vec {
    Vec(Value(BigChain0(Bits(a.x0))), Value(BigChain0(Bits(a.x1))), Value(BigChain0(Bits(a.x2))), Value(BigChain0(Bits(a.x3))))
  }

  function Big1(e: Vec): Vec {
    Vec(Value(BigChain1(Bits(e.x0))), Value(BigChain1(Bits(e.x1))), Value(BigChain1(Bits(e.x2))), Value(BigChain1(Bits(e.x3))))
  }

  function Choice(e: Vec, f: Vec, g: Vec): Vec {
    Vec(Value(ChRun(Bits(e.x0), Bits(f.x0), Bits(g.x0))), Value(ChRun(Bits(e.x1), Bits(f.x1), Bits(g.x1))), Value(ChRun(Bits(e.x2), Bits(f.x2), Bits(g.x2))), Value(ChRun(Bits(e.x3), Bits(f.x3), Bits(g.x3))))
  }

  function Majority(a: Vec, b: Vec, c: Vec): Vec {
    Vec(Value(MajRun(Bits(a.x0), Bits(b.x0), Bits(c.x0))), Value(MajRun(Bits(a.x1), Bits(b.x1), Bits(c.x1))), Value(MajRun(Bits(a.x2), Bits(b.x2), Bits(c.x2))), Value(MajRun(Bits(a.x3), Bits(b.x3), Bits(c.x3))))
  }

  lemma SmallOnLane(x: Vec, y: Vec, l: nat)
    requires l < 4
    ensures Lane(Small0(x), l) == SmallSigma0(Lane(x, l)) && Lane(Small1(y), l) == SmallSigma1(Lane(y, l))
  {
    hide Value, Bits, SmallChain0, SmallChain1, SmallSigma0Bits, SmallSigma1Bits;
    SmallChain0IsSigma(Bits(Lane(x, l)));
    SmallChain1IsSigma(Bits(Lane(y, l)));
  }

  lemma BigOnLane(x: Vec, y: Vec, l: nat)
    requires l < 4
    ensures Lane(Big0(x), l) == BigSigma0(Lane(x, l)) && Lane(Big1(y), l) == BigSigma1(Lane(y, l))
  {
    hide Value, Bits, BigChain0, BigChain1, BigSigma0Bits, BigSigma1Bits;
    BigChain0IsSigma(Bits(Lane(x, l)));
    BigChain1IsSigma(Bits(Lane(y, l)));
  }

  lemma ChoiceOnLane(e: Vec, f: Vec, g: Vec, l: nat)
    requires l < 4
    ensures Lane(Choice(e, f, g), l) == Ch(Lane(e, l), Lane(f, l), Lane(g, l))
  {
    hide Value, Bits, ChRun, Ch;
    ChOnWords(Lane(e, l), Lane(f, l), Lane(g, l));
  }

  lemma ChOnWords(x: Word, y: Word, z: Word)
    ensures Value(ChRun(Bits(x), Bits(y), Bits(z))) == Ch(x, y, z)
  {
    hide Value, Bits, ChRun;
    ChRunIsCh(Bits(x), Bits(y), Bits(z));
  }

  lemma MajorityOnLane(a: Vec, b: Vec, c: Vec, l: nat)
    requires l < 4
    ensures Lane(Majority(a, b, c), l) == Maj(Lane(a, l), Lane(b, l), Lane(c, l))
  {
    hide Value, Bits, MajRun, Maj;
    MajOnWords(Lane(a, l), Lane(b, l), Lane(c, l));
  }

  lemma MajOnWords(x: Word, y: Word, z: Word)
    ensures Value(MajRun(Bits(x), Bits(y), Bits(z))) == Maj(x, y, z)
  {
    hide Value, Bits, MajRun;
    MajRunIsMaj(Bits(x), Bits(y), Bits(z));
  }

  // ----- LAB_CALC: the schedule in place

  /** One pass of the loop: the word behind the 16 given ones. */
  function Expand(w15: Vec, w16: Vec, w2: Vec, w7: Vec): Vec {
    var xmm0 := Small0(w15);
    var xmm0 := VAdd(xmm0, w16);
    var xmm3 := Small1(w2);
    var xmm0 := VAdd(xmm0, xmm3);
    VAdd(xmm0, w7)
  }

  lemma ExpandSum(s0: Word, w16: Word, s1: Word, w7: Word)
    ensures Add(Add(Add(s0, w16), s1), w7) == Sum4(s1, w7, s0, w16)
  {
    hide Add;
    AddExchange(Add(s0, w16), s1, w7);
    AddSwap(Add(Add(s0, w16), w7), s1);
    AddSwap(Add(s0, w16), w7);
    AddAssoc(w7, s0, w16);
    AddAssoc(s1, Add(w7, s0), w16);
    AddAssoc(s1, w7, s0);
  }

  lemma ExpandScheduled(w15: Vec, w16: Vec, w2: Vec, w7: Vec, blocks: seq<seq<Word>>, t: nat)
    requires t >= 16 && Scheduled(w15, blocks, t - 15) && Scheduled(w16, blocks, t - 16) && Scheduled(w2, blocks, t - 2) && Scheduled(w7, blocks, t - 7)
    ensures Scheduled(Expand(w15, w16, w2, w7), blocks, t)
  {
    hide Add, Small0, Small1, SmallSigma0, SmallSigma1, Schedule, Sum4;
    forall l | 0 <= l < 4 ensures Lane(Expand(w15, w16, w2, w7), l) == Schedule(blocks[l], t) {
      SmallOnLane(w15, w2, l);
      ExpandSum(SmallSigma0(Lane(w15, l)), Lane(w16, l), SmallSigma1(Lane(w2, l)), Lane(w7, l));
      NextWord(blocks[l], t);
    }
  }

  /** The blocks of the four lanes. */
  ghost function LaneBlocks(data: seq<Vec>): (blocks: seq<seq<Word>>)
    requires |data| >= 16
    ensures Blocks(blocks) && forall l, t :: 0 <= l < 4 && 0 <= t < 16 ==> blocks[l][t] == Lane(data[t], l)
  {
    seq(4, l requires 0 <= l < 4 => seq(16, t requires 0 <= t < 16 => Lane(data[t], l)))
  }

  method Calc(data: array<Vec>)
    requires data.Length == 64
    modifies data
    ensures data[..16] == old(data[..16])
    ensures forall t :: 0 <= t < 64 ==> Scheduled(data[t], LaneBlocks(old(data[..])), t)
  {
    hide Expand, Scheduled, Lane;
    ghost var blocks := LaneBlocks(data[..]);
    FirstWords(data[..]);
    var r11 := 16;
    while r11 < 64
      invariant 16 <= r11 <= 64
      invariant data[..16] == old(data[..16])
      invariant forall t :: 0 <= t < r11 ==> Scheduled(data[t], blocks, t)
    {
      ExpandScheduled(data[r11 - 15], data[r11 - 16], data[r11 - 2], data[r11 - 7], blocks, r11);
      data[r11] := Expand(data[r11 - 15], data[r11 - 16], data[r11 - 2], data[r11 - 7]);
      r11 := r11 + 1;
    }
  }

  lemma FirstWords(data: seq<Vec>)
    requires |data| >= 16
    ensures forall t :: 0 <= t < 16 ==> Scheduled(data[t], LaneBlocks(data), t)
  {
  }

  // ----- LAB_LOOP: the rounds

  /** The registers: a to h are xmm7, xmm5, xmm4, xmm3, xmm0, xmm8, xmm9, xmm10. */
  function LoopBody(s: VState, k: Word, w: Vec): VState {
    var xmm7, xmm5, xmm4, xmm3, xmm0, xmm8, xmm9, xmm10 := s.a, s.b, s.c, s.d, s.e, s.f, s.g, s.h;
    var xmm6 := w;
    var xmm6 := VAdd(xmm6, Set1(k));
    var xmm6 := VAdd(xmm6, xmm10);
    var xmm1 := Choice(xmm0, xmm8, xmm9);
    var xmm10 := xmm9;
    var xmm9 := xmm8;
    var xmm8 := xmm0;
    var xmm6 := VAdd(xmm6, xmm1);
    var xmm0 := Big1(xmm0);
    var xmm6 := VAdd(xmm6, xmm0);
    var xmm0 := xmm3;
    var xmm0 := VAdd(xmm0, xmm6);
    var xmm1 := Majority(xmm7, xmm5, xmm4);
    var xmm3 := xmm4;
    var xmm4 := xmm5;
    var xmm5 := xmm7;
    var xmm6 := VAdd(xmm6, xmm1);
    var xmm7 := Big0(xmm7);
    var xmm7 := VAdd(xmm7, xmm6);
    VState(xmm7, xmm5, xmm4, xmm3, xmm0, xmm8, xmm9, xmm10)
  }

  lemma RoundSum(w: Word, k: Word, h: Word, ch: Word, s1: Word)
    ensures Add(Add(Add(Add(w, k), h), ch), s1) == Sum5(h, s1, ch, k, w)
  {
    hide Add;
    var wk := Add(w, k);
    AddAssoc(wk, h, ch);
    AddAssoc(wk, Add(h, ch), s1);
    AddExchange(h, ch, s1);
    AddSwap(wk, Add(Add(h, s1), ch));
    AddSwap(w, k);
    AddAssoc(Add(Add(h, s1), ch), k, w);
  }

  lemma NewA(s0: Word, t1: Word, maj: Word)
    ensures Add(s0, Add(t1, maj)) == Add(t1, Add(s0, maj))
  {
    hide Add;
    AddAssoc(s0, t1, maj);
    AddSwap(s0, t1);
    AddAssoc(t1, s0, maj);
  }

  lemma BodyOnLane(s: VState, k: Word, w: Vec, l: nat)
    requires l < 4
    ensures LaneState(LoopBody(s, k, w), l) == Round(LaneState(s, l), k, Lane(w, l))
  {
    hide Add, Sum5, Big0, Big1, Choice, Majority, BigSigma0, BigSigma1, Ch, Maj;
    BigOnLane(s.a, s.e, l);
    ChoiceOnLane(s.e, s.f, s.g, l);
    MajorityOnLane(s.a, s.b, s.c, l);
    var v := LaneState(s, l);
    RoundSum(Lane(w, l), k, v.h, Ch(v.e, v.f, v.g), BigSigma1(v.e));
    NewA(BigSigma0(v.a), Sum5(v.h, BigSigma1(v.e), Ch(v.e, v.f, v.g), k, Lane(w, l)), Maj(v.a, v.b, v.c));
  }

  lemma OneRound(s: VState, w: Vec, n: nat, starts: seq<State>, blocks: seq<seq<Word>>)
    requires n < 64 && Reached(s, starts, blocks, n) && Scheduled(w, blocks, n)
    ensures Reached(LoopBody(s, K[n], w), starts, blocks, n + 1)
  {
    hide LoopBody, LaneState, Lane, Round, Rounds, Schedule;
    forall l | 0 <= l < 4 ensures LaneState(LoopBody(s, K[n], w), l) == Rounds(starts[l], blocks[l], n + 1) {
      BodyOnLane(s, K[n], w, l);
      NextRound(starts[l], blocks[l], n);
    }
  }

  ghost function StateAt(words: seq<Vec>, l: nat): State
    requires |words| >= 8 && l < 4
  {
    State(Lane(words[0], l), Lane(words[1], l), Lane(words[2], l), Lane(words[3], l), Lane(words[4], l), Lane(words[5], l), Lane(words[6], l), Lane(words[7], l))
  }

  /** `CalcSha256_x64(hash, data, init)`. The first 16 words of `data` survive, the others become the schedule. */
  method CalcSha256(hash: array<Vec>, data: array<Vec>, init: seq<Word>)
    requires hash != data && hash.Length == 64 && data.Length == 64 && |init| == 8
    modifies hash, data
    ensures data[..16] == old(data[..16]) && hash[8..] == old(hash[8..])
    ensures forall l :: 0 <= l < 4 ==> StateAt(hash[..], l) == Compress(FromWords(init), LaneBlocks(old(data[..]))[l])
  {
    hide LoopBody, Scheduled, Reached, LaneBlocks, Lane, Rounds;
    ghost var blocks := LaneBlocks(data[..]);
    BlocksFine(data[..]);
    Calc(data);
    var s := Spread(init);
    ghost var start := FromWords(init);
    SpreadReached(init, blocks);
    var rax := 0;
    while rax < 64
      invariant 0 <= rax <= 64
      invariant Reached(s, [start, start, start, start], blocks, rax)
      invariant data[..16] == old(data[..16]) && hash[..] == old(hash[..])
      invariant forall t :: 0 <= t < 64 ==> Scheduled(data[t], blocks, t)
    {
      OneRound(s, data[rax], rax, [start, start, start, start], blocks);
      s := LoopBody(s, K[rax], data[rax]);
      rax := rax + 1;
    }
    hash[0] := VAdd(s.a, Set1(init[0]));
    hash[1] := VAdd(s.b, Set1(init[1]));
    hash[2] := VAdd(s.c, Set1(init[2]));
    hash[3] := VAdd(s.d, Set1(init[3]));
    hash[4] := VAdd(s.e, Set1(init[4]));
    hash[5] := VAdd(s.f, Set1(init[5]));
    hash[6] := VAdd(s.g, Set1(init[6]));
    hash[7] := VAdd(s.h, Set1(init[7]));
    FinalSum(hash[..], s, init, blocks);
  }

  lemma BlocksFine(data: seq<Vec>)
    requires |data| >= 16
    ensures Blocks(LaneBlocks(data))
  {
  }

  lemma FinalSum(hash: seq<Vec>, s: VState, init: seq<Word>, blocks: seq<seq<Word>>)
    requires |hash| >= 8 && |init| == 8 && Blocks(blocks)
    requires var start := FromWords(init); Reached(s, [start, start, start, start], blocks, 64)
    requires hash[..8] == [VAdd(s.a, Set1(init[0])), VAdd(s.b, Set1(init[1])), VAdd(s.c, Set1(init[2])), VAdd(s.d, Set1(init[3])),
      VAdd(s.e, Set1(init[4])), VAdd(s.f, Set1(init[5])), VAdd(s.g, Set1(init[6])), VAdd(s.h, Set1(init[7]))]
    ensures forall l :: 0 <= l < 4 ==> StateAt(hash, l) == Compress(FromWords(init), blocks[l])
  {
    hide Add, Rounds;
    forall l | 0 <= l < 4 ensures StateAt(hash, l) == Compress(FromWords(init), blocks[l]) {
      var r := LaneState(s, l);
      AddSwap(r.a, init[0]);
      AddSwap(r.b, init[1]);
      AddSwap(r.c, init[2]);
      AddSwap(r.d, init[3]);
      AddSwap(r.e, init[4]);
      AddSwap(r.f, init[5]);
      AddSwap(r.g, init[6]);
      AddSwap(r.h, init[7]);
      assert hash[0] == hash[..8][0] && hash[1] == hash[..8][1] && hash[2] == hash[..8][2] && hash[3] == hash[..8][3];
      assert hash[4] == hash[..8][4] && hash[5] == hash[..8][5] && hash[6] == hash[..8][6] && hash[7] == hash[..8][7];
    }
  }
}
