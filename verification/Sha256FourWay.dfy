/** `DoubleBlockSHA256` of `sha256_4way.c`: four nonces at a time, without the last three rounds of the second block. */
module Sha256FourWay {
  import opened Sha256
  import opened Sha256Lanes

  // ----- the source's vector functions; every intrinsic acts lane by lane

  function MajBits(b: bv32, c: bv32, d: bv32): bv32 {
    (b & (c ^ d)) ^ (c & d)
  }

  function LaneMaj(x: Word, y: Word, z: Word): Word {
    Value(MajBits(Bits(x), Bits(y), Bits(z)))
  }

  lemma SameMaj(x: Word, y: Word, z: Word)
    ensures LaneMaj(x, y, z) == Maj(x, y, z)
  {
    hide Bits, Value;
    MajorityBits(Bits(x), Bits(y), Bits(z));
  }

  lemma MajorityBits(x: bv32, y: bv32, z: bv32)
    ensures (x & (y ^ z)) ^ (y & z) == (x & y) ^ (x & z) ^ (y & z)
  {
  }

  function LanesMaj(x: Vec, y: Vec, z: Vec): Vec {
    Vec(LaneMaj(x.x0, y.x0, z.x0), LaneMaj(x.x1, y.x1, z.x1), LaneMaj(x.x2, y.x2, z.x2), LaneMaj(x.x3, y.x3, z.x3))
  }

  function LanesCh(x: Vec, y: Vec, z: Vec): Vec {
    Vec(Ch(x.x0, y.x0, z.x0), Ch(x.x1, y.x1, z.x1), Ch(x.x2, y.x2, z.x2), Ch(x.x3, y.x3, z.x3))
  }

  function LanesBig0(x: Vec): Vec {
    Vec(BigSigma0(x.x0), BigSigma0(x.x1), BigSigma0(x.x2), BigSigma0(x.x3))
  }

  function LanesBig1(x: Vec): Vec {
    Vec(BigSigma1(x.x0), BigSigma1(x.x1), BigSigma1(x.x2), BigSigma1(x.x3))
  }

  function LanesSmall0(x: Vec): Vec {
    Vec(SmallSigma0(x.x0), SmallSigma0(x.x1), SmallSigma0(x.x2), SmallSigma0(x.x3))
  }

  function LanesSmall1(x: Vec): Vec {
    Vec(SmallSigma1(x.x0), SmallSigma1(x.x1), SmallSigma1(x.x2), SmallSigma1(x.x3))
  }

  function Add4(x0: Vec, x1: Vec, x2: Vec, x3: Vec): Vec {
    VAdd(VAdd(x0, x1), VAdd(x2, x3))
  }

  function Add5(x0: Vec, x1: Vec, x2: Vec, x3: Vec, x4: Vec): Vec {
    VAdd(Add4(x0, x1, x2, x3), x4)
  }

  lemma Add4OnLane(x0: Vec, x1: Vec, x2: Vec, x3: Vec, l: nat)
    requires l < 4
    ensures Lane(Add4(x0, x1, x2, x3), l) == Sum4(Lane(x0, l), Lane(x1, l), Lane(x2, l), Lane(x3, l))
  {
    hide Add;
    AddAssoc(Add(Lane(x0, l), Lane(x1, l)), Lane(x2, l), Lane(x3, l));
  }

  // ----- SHA256ROUND

  /** The new `d` and the new `h` of the macro. */
  function Sha256Round(a: Vec, b: Vec, c: Vec, d: Vec, e: Vec, f: Vec, g: Vec, h: Vec, i: nat, w: Vec): (Vec, Vec)
    requires i < 64
  {
    var t1 := Add5(h, LanesBig1(e), LanesCh(e, f, g), Set1(K[i]), w);
    (VAdd(d, t1), VAdd(t1, VAdd(LanesBig0(a), LanesMaj(a, b, c))))
  }

  /** The macro with the registers renamed one place, as its next use names them. */
  function Renamed(s: VState, i: nat, w: Vec): VState
    requires i < 64
  {
    var (d, h) := Sha256Round(s.a, s.b, s.c, s.d, s.e, s.f, s.g, s.h, i, w);
    VState(h, s.a, s.b, s.c, d, s.e, s.f, s.g)
  }

  lemma RoundOnLane(s: VState, i: nat, w: Vec, l: nat)
    requires l < 4 && i < 64
    ensures LaneState(Renamed(s, i, w), l) == Round(LaneState(s, l), K[i], Lane(w, l))
  {
    hide BigSigma0, BigSigma1, Ch, Maj, LaneMaj, Add, Sum4, Add4;
    var h, s1, ch, k := s.h, LanesBig1(s.e), LanesCh(s.e, s.f, s.g), Set1(K[i]);
    Add4OnLane(h, s1, ch, k, l);
    SameMaj(Lane(s.a, l), Lane(s.b, l), Lane(s.c, l));
  }

  lemma OneRound(s: VState, w: Vec, n: nat, starts: seq<State>, blocks: seq<seq<Word>>)
    requires n < 64 && Reached(s, starts, blocks, n) && Scheduled(w, blocks, n)
    ensures Reached(Renamed(s, n, w), starts, blocks, n + 1)
  {
    hide Renamed, LaneState, Lane, Round, Rounds, Schedule;
    forall l | 0 <= l < 4 ensures LaneState(Renamed(s, n, w), l) == Rounds(starts[l], blocks[l], n + 1) {
      RoundOnLane(s, n, w, l);
      NextRound(starts[l], blocks[l], n);
    }
  }

  // ----- the sixteen vectors w0 to w15

  ghost predicate Held(w: seq<Vec>, blocks: seq<seq<Word>>, n: nat) {
    |w| == 16 && n >= 16 && forall t :: n - 16 <= t < n ==> Scheduled(w[t % 16], blocks, t)
  }

  /** The words needed up to round `t` are there. */
  ghost predicate Loaded(w: seq<Vec>, blocks: seq<seq<Word>>, t: nat) {
    Held(w, blocks, if t < 16 then 16 else t)
  }

  /** From round 16 on, a vector is blended right before its round. */
  method NextVector(w: seq<Vec>, t: nat, ghost blocks: seq<seq<Word>>) returns (w': seq<Vec>)
    requires Loaded(w, blocks, t)
    ensures Loaded(w', blocks, t + 1) && |w'| == 16 && Scheduled(w'[t % 16], blocks, t)
  {
    hide LanesSmall0, LanesSmall1, Add4, Scheduled;
    w' := w;
    if t >= 16 {
      var i := t % 16;
      w' := w[i := Add4(LanesSmall1(w[(i + 14) % 16]), w[(i + 9) % 16], LanesSmall0(w[(i + 1) % 16]), w[i])];
      BlendScheduled(w, blocks, t);
      OneMoreHeld(w, blocks, t, w'[i]);
    }
  }

  lemma OneMoreHeld(w: seq<Vec>, blocks: seq<seq<Word>>, n: nat, v: Vec)
    requires Held(w, blocks, n) && Scheduled(v, blocks, n)
    ensures Held(w[n % 16 := v], blocks, n + 1)
  {
    hide Scheduled;
    var w' := w[n % 16 := v];
    forall t | n + 1 - 16 <= t < n + 1 ensures Scheduled(w'[t % 16], blocks, t) {
      if t < n {
        OtherPlace(t, n);
      }
    }
  }

  lemma OtherPlace(t: nat, n: nat)
    requires n - 16 < t < n
    ensures t % 16 != n % 16
  {
  }

  lemma BlendScheduled(w: seq<Vec>, blocks: seq<seq<Word>>, t: nat)
    requires t >= 16 && Held(w, blocks, t)
    ensures var i := t % 16;
            Scheduled(Add4(LanesSmall1(w[(i + 14) % 16]), w[(i + 9) % 16], LanesSmall0(w[(i + 1) % 16]), w[i]), blocks, t)
  {
    hide SmallSigma0, SmallSigma1, Add4, Sum4, Schedule, Held, Lane;
    var i := t % 16;
    PlacesBack(t);
    HeldAt(w, blocks, t, t - 2);
    HeldAt(w, blocks, t, t - 7);
    HeldAt(w, blocks, t, t - 15);
    HeldAt(w, blocks, t, t - 16);
    var v2, v7, v15, v16 := w[(i + 14) % 16], w[(i + 9) % 16], w[(i + 1) % 16], w[i];
    forall l | 0 <= l < 4 ensures Lane(Add4(LanesSmall1(v2), v7, LanesSmall0(v15), v16), l) == Schedule(blocks[l], t) {
      Add4OnLane(LanesSmall1(v2), v7, LanesSmall0(v15), v16, l);
      SmallOnLane(v2, v15, l);
      NextWord(blocks[l], t);
    }
  }

  lemma PlacesBack(t: nat)
    requires t >= 16
    ensures var i := t % 16; (i + 14) % 16 == (t - 2) % 16 && (i + 9) % 16 == (t - 7) % 16 && (i + 1) % 16 == (t - 15) % 16 && i == (t - 16) % 16
  {
  }

  lemma HeldAt(w: seq<Vec>, blocks: seq<seq<Word>>, n: nat, t: nat)
    requires Held(w, blocks, n) && n - 16 <= t < n
    ensures |w| == 16 && Scheduled(w[t % 16], blocks, t)
  {
  }

  lemma SmallOnLane(x: Vec, y: Vec, l: nat)
    requires l < 4
    ensures Lane(LanesSmall1(x), l) == SmallSigma1(Lane(x, l)) && Lane(LanesSmall0(y), l) == SmallSigma0(Lane(y, l))
  {
  }

  // ----- the rounds

  /** One of the groups of eight rounds, each line naming the registers one place further. */
  method EightRounds(s: VState, w: seq<Vec>, t: nat, ghost starts: seq<State>, ghost blocks: seq<seq<Word>>) returns (s': VState, w': seq<Vec>)
    requires t + 8 <= 64 && Reached(s, starts, blocks, t) && Loaded(w, blocks, t)
    ensures Reached(s', starts, blocks, t + 8) && Loaded(w', blocks, t + 8)
  {
    hide Reached, Loaded, Sha256Round, Scheduled;
    var a, b, c, d, e, f, g, h := s.a, s.b, s.c, s.d, s.e, s.f, s.g, s.h;
    var r;
    w' := w;
    w' := NextVector(w', t, blocks);
    OneRound(VState(a, b, c, d, e, f, g, h), w'[(t) % 16], t, starts, blocks);
    r := Sha256Round(a, b, c, d, e, f, g, h, t, w'[(t) % 16]);
    d, h := r.0, r.1;
    w' := NextVector(w', t + 1, blocks);
    OneRound(VState(h, a, b, c, d, e, f, g), w'[(t + 1) % 16], t + 1, starts, blocks);
    r := Sha256Round(h, a, b, c, d, e, f, g, t + 1, w'[(t + 1) % 16]);
    c, g := r.0, r.1;
    w' := NextVector(w', t + 2, blocks);
    OneRound(VState(g, h, a, b, c, d, e, f), w'[(t + 2) % 16], t + 2, starts, blocks);
    r := Sha256Round(g, h, a, b, c, d, e, f, t + 2, w'[(t + 2) % 16]);
    b, f := r.0, r.1;
    w' := NextVector(w', t + 3, blocks);
    OneRound(VState(f, g, h, a, b, c, d, e), w'[(t + 3) % 16], t + 3, starts, blocks);
    r := Sha256Round(f, g, h, a, b, c, d, e, t + 3, w'[(t + 3) % 16]);
    a, e := r.0, r.1;
    w' := NextVector(w', t + 4, blocks);
    OneRound(VState(e, f, g, h, a, b, c, d), w'[(t + 4) % 16], t + 4, starts, blocks);
    r := Sha256Round(e, f, g, h, a, b, c, d, t + 4, w'[(t + 4) % 16]);
    h, d := r.0, r.1;
    w' := NextVector(w', t + 5, blocks);
    OneRound(VState(d, e, f, g, h, a, b, c), w'[(t + 5) % 16], t + 5, starts, blocks);
    r := Sha256Round(d, e, f, g, h, a, b, c, t + 5, w'[(t + 5) % 16]);
    g, c := r.0, r.1;
    w' := NextVector(w', t + 6, blocks);
    OneRound(VState(c, d, e, f, g, h, a, b), w'[(t + 6) % 16], t + 6, starts, blocks);
    r := Sha256Round(c, d, e, f, g, h, a, b, t + 6, w'[(t + 6) % 16]);
    f, b := r.0, r.1;
    w' := NextVector(w', t + 7, blocks);
    OneRound(VState(b, c, d, e, f, g, h, a), w'[(t + 7) % 16], t + 7, starts, blocks);
    r := Sha256Round(b, c, d, e, f, g, h, a, t + 7, w'[(t + 7) % 16]);
    e, a := r.0, r.1;
    s' := VState(a, b, c, d, e, f, g, h);
  }

  /** Rounds 56 to 60 of the second block, where the source stops; the registers keep their names. */
  method LastFiveRounds(s: VState, w: seq<Vec>, t: nat, ghost starts: seq<State>, ghost blocks: seq<seq<Word>>) returns (s': VState)
    requires t == 56 && Reached(s, starts, blocks, t) && Loaded(w, blocks, t)
    ensures Reached(VState(s'.d, s'.e, s'.f, s'.g, s'.h, s'.a, s'.b, s'.c), starts, blocks, 61)
  {
    hide Reached, Loaded, Sha256Round, Scheduled;
    var a, b, c, d, e, f, g, h := s.a, s.b, s.c, s.d, s.e, s.f, s.g, s.h;
    var r;
    var w' := w;
    w' := NextVector(w', t, blocks);
    OneRound(VState(a, b, c, d, e, f, g, h), w'[(t) % 16], t, starts, blocks);
    r := Sha256Round(a, b, c, d, e, f, g, h, t, w'[(t) % 16]);
    d, h := r.0, r.1;
    w' := NextVector(w', t + 1, blocks);
    OneRound(VState(h, a, b, c, d, e, f, g), w'[(t + 1) % 16], t + 1, starts, blocks);
    r := Sha256Round(h, a, b, c, d, e, f, g, t + 1, w'[(t + 1) % 16]);
    c, g := r.0, r.1;
    w' := NextVector(w', t + 2, blocks);
    OneRound(VState(g, h, a, b, c, d, e, f), w'[(t + 2) % 16], t + 2, starts, blocks);
    r := Sha256Round(g, h, a, b, c, d, e, f, t + 2, w'[(t + 2) % 16]);
    b, f := r.0, r.1;
    w' := NextVector(w', t + 3, blocks);
    OneRound(VState(f, g, h, a, b, c, d, e), w'[(t + 3) % 16], t + 3, starts, blocks);
    r := Sha256Round(f, g, h, a, b, c, d, e, t + 3, w'[(t + 3) % 16]);
    a, e := r.0, r.1;
    w' := NextVector(w', t + 4, blocks);
    OneRound(VState(e, f, g, h, a, b, c, d), w'[(t + 4) % 16], t + 4, starts, blocks);
    r := Sha256Round(e, f, g, h, a, b, c, d, t + 4, w'[(t + 4) % 16]);
    h, d := r.0, r.1;
    s' := VState(a, b, c, d, e, f, g, h);
  }

  method Rounds64(s: VState, w: seq<Vec>, ghost starts: seq<State>, ghost blocks: seq<seq<Word>>) returns (s': VState)
    requires Reached(s, starts, blocks, 0) && Loaded(w, blocks, 0)
    ensures Reached(s', starts, blocks, 64)
  {
    hide Reached, Loaded;
    s' := s;
    var v := w;
    var t := 0;
    while t < 64
      invariant 0 <= t <= 64 && t % 8 == 0
      invariant Reached(s', starts, blocks, t) && Loaded(v, blocks, t)
    {
      s', v := EightRounds(s', v, t, starts, blocks);
      t := t + 8;
    }
  }

  method Rounds61(s: VState, w: seq<Vec>, ghost starts: seq<State>, ghost blocks: seq<seq<Word>>) returns (s': VState)
    requires Reached(s, starts, blocks, 0) && Loaded(w, blocks, 0)
    ensures Reached(VState(s'.d, s'.e, s'.f, s'.g, s'.h, s'.a, s'.b, s'.c), starts, blocks, 61)
  {
    hide Reached, Loaded;
    s' := s;
    var v := w;
    var t := 0;
    while t < 56
      invariant 0 <= t <= 56 && t % 8 == 0
      invariant Reached(s', starts, blocks, t) && Loaded(v, blocks, t)
    {
      s', v := EightRounds(s', v, t, starts, blocks);
      t := t + 8;
    }
    s' := LastFiveRounds(s', v, t, starts, blocks);
  }

  // ----- the double hash

  const NPAR := 32

  /** The block with the nonce of column `j`. */
  function BlockAt(input: seq<Word>, j: nat): (b: seq<Word>)
    requires |input| == 16
    ensures |b| == 16
  {
    input[3 := Add(input[3], WordOf(j))]
  }

  /** What a column of `thash` holds: the registers after 61 rounds, by the names the source stops with, and the nonce. */
  function Column(input: seq<Word>, pad: seq<Word>, pre: seq<Word>, init: seq<Word>, j: nat): (c: seq<Word>)
    requires |input| == 16 && |pad| == 16 && |pre| == 8 && |init| == 8
    ensures |c| == 9
  {
    var s := Rounds(FromWords(init), SecondBlock(pre, BlockAt(input, j), pad), 61);
    [Add(init[0], s.f), Add(init[1], s.g), Add(init[2], s.h), Add(init[3], s.a), Add(init[4], s.b), Add(init[5], s.c), Add(init[6], s.d), Add(init[7], s.e),
      Add(input[3], WordOf(j))]
  }

  /** Dropping rounds 61 to 63 loses nothing in words 3 and 7. */
  lemma ColumnExact(input: seq<Word>, pad: seq<Word>, pre: seq<Word>, init: seq<Word>, j: nat)
    requires |input| == 16 && |pad| == 16 && |pre| == 8 && |init| == 8
    ensures var full := DoubleHash(pre, BlockAt(input, j), pad, init);
            Column(input, pad, pre, init, j)[7] == full.h && Column(input, pad, pre, init, j)[3] == full.d
  {
    hide Rounds, SecondBlock, Add;
    ThreeRoundsLater(FromWords(init), SecondBlock(pre, BlockAt(input, j), pad), 61);
  }

  /** Blocks of the four lanes from column `k` on. */
  ghost function FirstBlocks(input: seq<Word>, k: nat): seq<seq<Word>>
    requires |input| == 16
  {
    [BlockAt(input, k), BlockAt(input, k + 1), BlockAt(input, k + 2), BlockAt(input, k + 3)]
  }

  ghost function SecondBlocks(pre: seq<Word>, input: seq<Word>, pad: seq<Word>, k: nat): seq<seq<Word>>
    requires |pre| == 8 && |input| == 16 && |pad| == 16
  {
    [SecondBlock(pre, BlockAt(input, k), pad), SecondBlock(pre, BlockAt(input, k + 1), pad),
      SecondBlock(pre, BlockAt(input, k + 2), pad), SecondBlock(pre, BlockAt(input, k + 3), pad)]
  }

  lemma LoadedFirst(w: seq<Vec>, blocks: seq<seq<Word>>)
    requires |w| == 16 && Blocks(blocks) && forall t, l :: 0 <= t < 16 && 0 <= l < 4 ==> Lane(w[t], l) == blocks[l][t]
    ensures Loaded(w, blocks, 0)
  {
    forall t | 0 <= t < 16 ensures Scheduled(w[t % 16], blocks, t) {
      forall l | 0 <= l < 4 ensures Lane(w[t], l) == Schedule(blocks[l], t) {
      }
    }
  }

  /** One pass of the loop of `DoubleBlockSHA256`: nine vectors to be stored. */
  method FourColumns(input: seq<Word>, pad: seq<Word>, pre: seq<Word>, init: seq<Word>, k: nat) returns (rows: seq<Vec>)
    requires |input| == 16 && |pad| == 16 && |pre| == 8 && |init| == 8
    ensures |rows| == 9 && forall i, l :: 0 <= i < 9 && 0 <= l < 4 ==> Lane(rows[i], l) == Column(input, pad, pre, init, k + l)[i]
  {
    hide Rounds, Reached, Loaded, Add, WordOf, BlockAt, Schedule;
    var offset := Vec(0, 1, 2, 3);
    var preNonce := VAdd(Set1(input[3]), offset);
    var nonce := VAdd(preNonce, Set1(WordOf(k)));
    var w := seq(16, i requires 0 <= i < 16 => if i == 3 then nonce else Set1(input[i]));
    ghost var blocks := FirstBlocks(input, k);
    FirstLoaded(w, nonce, input, k);
    SpreadReached(pre, blocks);
    ghost var s := FromWords(pre);
    var v := Rounds64(Spread(pre), w, [s, s, s, s], blocks);
    w := [VAdd(Set1(pre[0]), v.a), VAdd(Set1(pre[1]), v.b), VAdd(Set1(pre[2]), v.c), VAdd(Set1(pre[3]), v.d),
      VAdd(Set1(pre[4]), v.e), VAdd(Set1(pre[5]), v.f), VAdd(Set1(pre[6]), v.g), VAdd(Set1(pre[7]), v.h),
      Set1(pad[8]), Set1(pad[9]), Set1(pad[10]), Set1(pad[11]), Set1(pad[12]), Set1(pad[13]), Set1(pad[14]), Set1(pad[15])];
    SecondLoaded(w, v, input, pad, pre, k);
    ghost var second := SecondBlocks(pre, input, pad, k);
    SpreadReached(init, second);
    s := FromWords(init);
    v := Rounds61(Spread(init), w, [s, s, s, s], second);
    rows := [VAdd(Set1(init[0]), v.a), VAdd(Set1(init[1]), v.b), VAdd(Set1(init[2]), v.c), VAdd(Set1(init[3]), v.d),
      VAdd(Set1(init[4]), v.e), VAdd(Set1(init[5]), v.f), VAdd(Set1(init[6]), v.g), VAdd(Set1(init[7]), v.h), nonce];
    RowsAreColumns(rows, v, nonce, input, pad, pre, init, k);
  }

  /** The nonce vector holds `In[3] + k`, ..., `In[3] + k + 3`. */
  lemma NonceLanes(word: Word, k: nat, l: nat)
    requires l < 4
    ensures Lane(VAdd(VAdd(Set1(word), Vec(0, 1, 2, 3)), Set1(WordOf(k))), l) == Add(word, WordOf(k + l))
  {
    hide Add, WordOf;
    SmallWord(l);
    AddAssoc(word, WordOf(l), WordOf(k));
    AddWordOf(l, k);
  }

  lemma SmallWord(l: nat)
    requires l < 4
    ensures WordOf(l) == Lane(Vec(0, 1, 2, 3), l)
  {
  }

  lemma FirstLoaded(w: seq<Vec>, nonce: Vec, input: seq<Word>, k: nat)
    requires |input| == 16 && nonce == VAdd(VAdd(Set1(input[3]), Vec(0, 1, 2, 3)), Set1(WordOf(k)))
    requires |w| == 16 && forall i :: 0 <= i < 16 ==> w[i] == if i == 3 then nonce else Set1(input[i])
    ensures Blocks(FirstBlocks(input, k)) && Loaded(w, FirstBlocks(input, k), 0)
  {
    hide Loaded, Add, WordOf, VAdd;
    var blocks := FirstBlocks(input, k);
    forall t, l | 0 <= t < 16 && 0 <= l < 4 ensures Lane(w[t], l) == blocks[l][t] {
      NonceLanes(input[3], k, l);
    }
    LoadedFirst(w, blocks);
  }

  lemma SecondLoaded(w: seq<Vec>, v: VState, input: seq<Word>, pad: seq<Word>, pre: seq<Word>, k: nat)
    requires |input| == 16 && |pad| == 16 && |pre| == 8 && Blocks(FirstBlocks(input, k))
    requires var s := FromWords(pre); Reached(v, [s, s, s, s], FirstBlocks(input, k), 64)
    requires w == [VAdd(Set1(pre[0]), v.a), VAdd(Set1(pre[1]), v.b), VAdd(Set1(pre[2]), v.c), VAdd(Set1(pre[3]), v.d),
      VAdd(Set1(pre[4]), v.e), VAdd(Set1(pre[5]), v.f), VAdd(Set1(pre[6]), v.g), VAdd(Set1(pre[7]), v.h),
      Set1(pad[8]), Set1(pad[9]), Set1(pad[10]), Set1(pad[11]), Set1(pad[12]), Set1(pad[13]), Set1(pad[14]), Set1(pad[15])]
    ensures Blocks(SecondBlocks(pre, input, pad, k)) && Loaded(w, SecondBlocks(pre, input, pad, k), 0)
  {
    hide Loaded, Add, Rounds, BlockAt;
    var blocks := SecondBlocks(pre, input, pad, k);
    forall t, l | 0 <= t < 16 && 0 <= l < 4 ensures Lane(w[t], l) == blocks[l][t] {
      SecondLane(w, v, input, pad, pre, k, l);
    }
    LoadedFirst(w, blocks);
  }

  lemma SecondLane(w: seq<Vec>, v: VState, input: seq<Word>, pad: seq<Word>, pre: seq<Word>, k: nat, l: nat)
    requires |input| == 16 && |pad| == 16 && |pre| == 8 && Blocks(FirstBlocks(input, k)) && l < 4
    requires var s := FromWords(pre); Reached(v, [s, s, s, s], FirstBlocks(input, k), 64)
    requires w == [VAdd(Set1(pre[0]), v.a), VAdd(Set1(pre[1]), v.b), VAdd(Set1(pre[2]), v.c), VAdd(Set1(pre[3]), v.d),
      VAdd(Set1(pre[4]), v.e), VAdd(Set1(pre[5]), v.f), VAdd(Set1(pre[6]), v.g), VAdd(Set1(pre[7]), v.h),
      Set1(pad[8]), Set1(pad[9]), Set1(pad[10]), Set1(pad[11]), Set1(pad[12]), Set1(pad[13]), Set1(pad[14]), Set1(pad[15])]
    ensures forall t :: 0 <= t < 16 ==> Lane(w[t], l) == SecondBlock(pre, BlockAt(input, k + l), pad)[t]
  {
    hide Add, Rounds, BlockAt;
    var block := FirstBlocks(input, k)[l];
    assert block == BlockAt(input, k + l);
    assert LaneState(v, l) == Rounds(FromWords(pre), block, 64);
    assert Words(Compress(FromWords(pre), block)) == [Lane(w[0], l), Lane(w[1], l), Lane(w[2], l), Lane(w[3], l), Lane(w[4], l), Lane(w[5], l), Lane(w[6], l), Lane(w[7], l)];
  }

  lemma RowsAreColumns(rows: seq<Vec>, v: VState, nonce: Vec, input: seq<Word>, pad: seq<Word>, pre: seq<Word>, init: seq<Word>, k: nat)
    requires |input| == 16 && |pad| == 16 && |pre| == 8 && |init| == 8 && Blocks(SecondBlocks(pre, input, pad, k))
    requires nonce == VAdd(VAdd(Set1(input[3]), Vec(0, 1, 2, 3)), Set1(WordOf(k)))
    requires var s := FromWords(init);
      Reached(VState(v.d, v.e, v.f, v.g, v.h, v.a, v.b, v.c), [s, s, s, s], SecondBlocks(pre, input, pad, k), 61)
    requires rows == [VAdd(Set1(init[0]), v.a), VAdd(Set1(init[1]), v.b), VAdd(Set1(init[2]), v.c), VAdd(Set1(init[3]), v.d),
      VAdd(Set1(init[4]), v.e), VAdd(Set1(init[5]), v.f), VAdd(Set1(init[6]), v.g), VAdd(Set1(init[7]), v.h), nonce]
    ensures forall i, l :: 0 <= i < 9 && 0 <= l < 4 ==> Lane(rows[i], l) == Column(input, pad, pre, init, k + l)[i]
  {
    hide Rounds, Add, SecondBlock, BlockAt, WordOf, Column, Lane, Reached;
    forall i, l | 0 <= i < 9 && 0 <= l < 4 ensures Lane(rows[i], l) == Column(input, pad, pre, init, k + l)[i] {
      LaneIsColumn(rows, v, nonce, input, pad, pre, init, k, l, i);
    }
  }

  lemma LaneIsColumn(rows: seq<Vec>, v: VState, nonce: Vec, input: seq<Word>, pad: seq<Word>, pre: seq<Word>, init: seq<Word>, k: nat, l: nat, i: nat)
    requires |input| == 16 && |pad| == 16 && |pre| == 8 && |init| == 8 && Blocks(SecondBlocks(pre, input, pad, k))
    requires nonce == VAdd(VAdd(Set1(input[3]), Vec(0, 1, 2, 3)), Set1(WordOf(k)))
    requires var s := FromWords(init);
      Reached(VState(v.d, v.e, v.f, v.g, v.h, v.a, v.b, v.c), [s, s, s, s], SecondBlocks(pre, input, pad, k), 61)
    requires rows == [VAdd(Set1(init[0]), v.a), VAdd(Set1(init[1]), v.b), VAdd(Set1(init[2]), v.c), VAdd(Set1(init[3]), v.d),
      VAdd(Set1(init[4]), v.e), VAdd(Set1(init[5]), v.f), VAdd(Set1(init[6]), v.g), VAdd(Set1(init[7]), v.h), nonce]
    requires l < 4 && i < 9
    ensures Lane(rows[i], l) == Column(input, pad, pre, init, k + l)[i]
  {
    hide Rounds, Add, SecondBlock, BlockAt, WordOf;
    NonceLanes(input[3], k, l);
    assert SecondBlocks(pre, input, pad, k)[l] == SecondBlock(pre, BlockAt(input, k + l), pad);
    assert LaneState(VState(v.d, v.e, v.f, v.g, v.h, v.a, v.b, v.c), l) == Rounds(FromWords(init), SecondBlock(pre, BlockAt(input, k + l), pad), 61);
  }

  /** `store_2` for one row: four columns from `k` on. */
  method StoreRow(thash: array2<Word>, i: nat, k: nat, v: Vec)
    requires thash.Length0 == 9 && thash.Length1 == NPAR && i < 9 && k + 4 <= NPAR
    modifies thash
    ensures forall l :: 0 <= l < 4 ==> thash[i, k + l] == Lane(v, l)
    ensures forall r, c :: 0 <= r < 9 && 0 <= c < NPAR && !(r == i && k <= c < k + 4) ==> thash[r, c] == old(thash[r, c])
  {
    thash[i, k] := v.x0;
    thash[i, k + 1] := v.x1;
    thash[i, k + 2] := v.x2;
    thash[i, k + 3] := v.x3;
  }

  /** `DoubleBlockSHA256`. */
  method DoubleBlock(input: seq<Word>, pad: seq<Word>, pre: seq<Word>, init: seq<Word>, thash: array2<Word>)
    requires |input| == 16 && |pad| == 16 && |pre| == 8 && |init| == 8 && thash.Length0 == 9 && thash.Length1 == NPAR
    modifies thash
    ensures forall i, j :: 0 <= i < 9 && 0 <= j < NPAR ==> thash[i, j] == Column(input, pad, pre, init, j)[i]
  {
    hide Column, Lane;
    var k := 0;
    while k < NPAR
      invariant 0 <= k <= NPAR && k % 4 == 0
      invariant forall i, j :: 0 <= i < 9 && 0 <= j < k ==> thash[i, j] == Column(input, pad, pre, init, j)[i]
    {
      var rows := FourColumns(input, pad, pre, init, k);
      var i := 0;
      while i < 9
        invariant 0 <= i <= 9
        invariant forall r, j :: 0 <= r < 9 && 0 <= j < k ==> thash[r, j] == Column(input, pad, pre, init, j)[r]
        invariant forall r, l :: 0 <= r < i && 0 <= l < 4 ==> thash[r, k + l] == Lane(rows[r], l)
      {
        StoreRow(thash, i, k, rows[i]);
        i := i + 1;
      }
      forall r, j | 0 <= r < 9 && k <= j < k + 4 ensures thash[r, j] == Column(input, pad, pre, init, j)[r] {
        var l := j - k;
        assert thash[r, k + l] == Lane(rows[r], l);
      }
      k := k + 4;
    }
  }
}
