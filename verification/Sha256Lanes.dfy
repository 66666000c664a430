/** Vectors of four words and the SHA-256 functions on them: lane by lane the functions on words. */
module Sha256Lanes {
  import opened Sha256

  // ----- vectors

  datatype Vec = Vec(x0: Word, x1: Word, x2: Word, x3: Word)

  function Lane(v: Vec, l: nat): Word
    requires l < 4
  {
    if l == 0 then v.x0 else if l == 1 then v.x1 else if l == 2 then v.x2 else v.x3
  }

  /** `_mm_set1_epi32`, and `movd` followed by `pshufd` with 0. */
  function Set1(w: Word): Vec {
    Vec(w, w, w, w)
  }

  /** `_mm_add_epi32`, `paddd`. */
  function VAdd(x: Vec, y: Vec): Vec {
    Vec(Add(x.x0, y.x0), Add(x.x1, y.x1), Add(x.x2, y.x2), Add(x.x3, y.x3))
  }

  // ----- numbers as words

  function WordOf(n: nat): Word {
    (n % MODULUS) as Word
  }

  lemma AddWordOf(m: nat, n: nat)
    ensures Add(WordOf(m), WordOf(n)) == WordOf(m + n)
  {
  }

  // ----- working variables of four computations

  datatype VState = VState(a: Vec, b: Vec, c: Vec, d: Vec, e: Vec, f: Vec, g: Vec, h: Vec)

  function LaneState(v: VState, l: nat): State
    requires l < 4
  {
    State(Lane(v.a, l), Lane(v.b, l), Lane(v.c, l), Lane(v.d, l), Lane(v.e, l), Lane(v.f, l), Lane(v.g, l), Lane(v.h, l))
  }

  /** In every lane, the working variables after `n` rounds. */
  ghost predicate Reached(v: VState, starts: seq<State>, blocks: seq<seq<Word>>, n: nat) {
    && |starts| == 4 && Blocks(blocks) && n <= 64
    && forall l :: 0 <= l < 4 ==> LaneState(v, l) == Rounds(starts[l], blocks[l], n)
  }

  ghost predicate Blocks(blocks: seq<seq<Word>>) {
    |blocks| == 4 && forall l :: 0 <= l < 4 ==> |blocks[l]| == 16
  }

  /** In every lane, word `t` of the schedule. */
  ghost predicate Scheduled(w: Vec, blocks: seq<seq<Word>>, t: nat) {
    Blocks(blocks) && forall l :: 0 <= l < 4 ==> Lane(w, l) == Schedule(blocks[l], t)
  }

  lemma ReachedStart(v: VState, starts: seq<State>, blocks: seq<seq<Word>>)
    requires |starts| == 4 && Blocks(blocks) && forall l :: 0 <= l < 4 ==> LaneState(v, l) == starts[l]
    ensures Reached(v, starts, blocks, 0)
  {
  }

  /** A hash value in every lane. */
  function Spread(words: seq<Word>): VState
    requires |words| == 8
  {
    VState(Set1(words[0]), Set1(words[1]), Set1(words[2]), Set1(words[3]), Set1(words[4]), Set1(words[5]), Set1(words[6]), Set1(words[7]))
  }

  lemma SpreadReached(words: seq<Word>, blocks: seq<seq<Word>>)
    requires |words| == 8 && Blocks(blocks)
    ensures var s := FromWords(words); Reached(Spread(words), [s, s, s, s], blocks, 0)
  {
    var s := FromWords(words);
    ReachedStart(Spread(words), [s, s, s, s], blocks);
  }

  /** The second block: the first hash and the upper half of the pad. */
  function SecondBlock(pre: seq<Word>, block: seq<Word>, pad: seq<Word>): (b: seq<Word>)
    requires |pre| == 8 && |block| == 16 && |pad| == 16
    ensures |b| == 16
  {
    Words(Compress(FromWords(pre), block)) + pad[8..]
  }

  /** The hash of the hash, all 64 rounds of both blocks. */
  function DoubleHash(pre: seq<Word>, block: seq<Word>, pad: seq<Word>, init: seq<Word>): State
    requires |pre| == 8 && |block| == 16 && |pad| == 16 && |init| == 8
  {
    Compress(FromWords(init), SecondBlock(pre, block, pad))
  }
}
