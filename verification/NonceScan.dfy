/** The nonce scans of `sha256_4way.c` and `sha256_sse2_amd64.c`. */
module NonceScan {
  import opened Sha256
  import opened Sha256Lanes
  import opened Sha256FourWay
  import opened Sha256Asm

  /** What both scans return when they find nothing: -1 as an unsigned number. */
  const MISS := 0xffff_ffff

  const INIT_WORDS := Words(INIT)

  /** `fulltest` of `util.c`, which says yes to every hash. */
  function FullTest(hash: seq<Word>, target: seq<Word>): bool {
    true
  }

  /** The block scanned for nonce `n`. */
  function WithNonce(data: seq<Word>, n: nat): (b: seq<Word>)
    requires |data| == 16
    ensures |b| == 16
  {
    data[3 := WordOf(n)]
  }

  /** The full double hash of the block with nonce `n`. */
  function HashOf(midstate: seq<Word>, data: seq<Word>, pad: seq<Word>, n: nat): State
    requires |midstate| == 8 && |data| == 16 && |pad| == 16
  {
    DoubleHash(midstate, WithNonce(data, n), pad, INIT_WORDS)
  }

  /** Nonce `n` is a hit: word 7 of its double hash is zero. */
  predicate Hit(midstate: seq<Word>, data: seq<Word>, pad: seq<Word>, n: nat)
    requires |midstate| == 8 && |data| == 16 && |pad| == 16
  {
    HashOf(midstate, data, pad, n).h == 0
  }

  // ----- how far the scans can go

  /** The 32-bit nonce of a scan that starts at 0, after so many steps. */
  function NonceAfter(step: nat, passes: nat): nat {
    if passes == 0 then 0 else (NonceAfter(step, passes - 1) + step) % MODULUS
  }

  lemma {:induction false} NonceNotWrapped(step: nat, passes: nat)
    requires (step == 4 && passes < 0x4000_0000) || (step == 32 && passes < 0x800_0000)
    ensures NonceAfter(step, passes) == if step == 4 then 4 * passes else 32 * passes
  {
    if passes > 0 {
      NonceNotWrapped(step, passes - 1);
    }
  }

  /** A nonce that goes up by a power of two never leaves its multiples, so the largest of them is as far as it gets. */
  lemma {:induction false} NonceReaches(step: nat, passes: nat)
    requires step == 4 || step == 32
    ensures NonceAfter(step, passes) % step == 0 && NonceAfter(step, passes) <= MODULUS - step
  {
    if passes > 0 {
      NonceReaches(step, passes - 1);
    }
  }

  /**
    Without a hit and without a restart, `ScanHash_4WaySSE2` comes to an end exactly when
    `maxNonce` is at most 0xffffffe0; `miner_thread` lets it go up to 0xfffffffa.
    */
  lemma FourWayEndsIff(maxNonce: nat)
    ensures (exists passes: nat :: passes > 0 && NonceAfter(NPAR, passes) >= maxNonce) <==> maxNonce <= 0xffff_ffe0
  {
    hide NonceAfter;
    forall passes: nat ensures NonceAfter(NPAR, passes) <= 0xffff_ffe0 {
      NonceReaches(NPAR, passes);
    }
    NonceNotWrapped(NPAR, 0x7ff_ffff);
  }

  /** The same for `scanhash_sse2_64`, which the caller's cap always lets come to an end. */
  lemma Sse2EndsIff(maxNonce: nat)
    ensures (exists passes: nat :: passes > 0 && NonceAfter(4, passes) >= maxNonce) <==> maxNonce <= 0xffff_fffc
  {
    hide NonceAfter;
    forall passes: nat ensures NonceAfter(4, passes) <= 0xffff_fffc {
      NonceReaches(4, passes);
    }
    NonceNotWrapped(4, 0x3fff_ffff);
  }

  // ----- ScanHash_4WaySSE2

  lemma ColumnIsNonce(midstate: seq<Word>, data: seq<Word>, pad: seq<Word>, nonce: nat, j: nat)
    requires |midstate| == 8 && |data| == 16 && |pad| == 16
    ensures var column := Column(WithNonce(data, nonce), pad, midstate, INIT_WORDS, j);
            var full := HashOf(midstate, data, pad, nonce + j);
            column[7] == full.h && column[3] == full.d
  {
    hide Column, DoubleHash, WordOf, Add;
    ColumnExact(WithNonce(data, nonce), pad, midstate, INIT_WORDS, j);
    AddWordOf(nonce, j);
    assert BlockAt(WithNonce(data, nonce), j) == WithNonce(data, nonce + j);
  }

  /**
    `ScanHash_4WaySSE2`. `restart(i)` is what the restart flag reads at the end of pass `i`; other
    threads may set it at any time. For a larger `maxNonce` see `FourWayEndsIff`. A hit on the very
    last nonce is returned as -1 and so passes for a miss.
    */
  method ScanHash4Way(midstate: seq<Word>, data: array<Word>, pad: seq<Word>, hash: array<Word>, target: seq<Word>, maxNonce: nat, restart: nat -> bool)
    returns (result: nat, hashesDone: nat)
    requires |midstate| == 8 && data.Length == 16 && |pad| == 16 && hash.Length == 8 && hash != data
    requires maxNonce <= 0xffff_ffe0
    modifies data, hash
    ensures SameButNonce(data[..], old(data[..]))
    ensures WentOn(32, hashesDone / 32 - 1, maxNonce, restart)
    ensures result != MISS ==>
      && 32 <= result < MODULUS && Hit(midstate, old(data[..]), pad, result)
      && (forall n :: 32 <= n < result ==> !Hit(midstate, old(data[..]), pad, n))
      && data[3] == WordOf(result) && hashesDone <= result < hashesDone + 32
      && hash[3] == HashOf(midstate, old(data[..]), pad, result).d && hash[7] == 0
    ensures result == MISS ==>
      && (forall n :: 32 <= n < hashesDone + 32 && n != MISS ==> !Hit(midstate, old(data[..]), pad, n))
      && 32 <= hashesDone && hashesDone % 32 == 0 && (hashesDone == 32 || hashesDone < maxNonce + 32)
      && (hashesDone >= maxNonce || restart(hashesDone / 32 - 1))
  {
    hide Hit, HashOf, WordOf;
    ghost var block := data[..];
    var nonce, pass := 0, 0;
    while true
      invariant nonce == 32 * pass == NonceAfter(NPAR, pass) && nonce <= 0xffff_ffc0 && (nonce == 0 || nonce < maxNonce)
      invariant SameButNonce(data[..], block) && WentOn(32, pass, maxNonce, restart)
      invariant forall n :: 32 <= n < nonce + 32 ==> !Hit(midstate, block, pad, n)
      decreases MODULUS - nonce
    {
      nonce := (nonce + NPAR) % MODULUS;
      var j := OnePass(midstate, data, pad, hash, nonce, block);
      if j < NPAR {
        if FullTest(hash[..], target) {
          hashesDone := nonce;
          data[3] := WordOf(nonce + j);
          return nonce + j, hashesDone;
        }
      }
      if nonce >= maxNonce || restart(pass) {
        hashesDone := nonce;
        return MISS, hashesDone;
      }
      pass := pass + 1;
    }
  }

  /** None of the first `passes` passes saw the restart flag or came to the bound. */
  ghost predicate WentOn(step: nat, passes: int, maxNonce: nat, restart: nat -> bool) {
    forall i: nat :: i < passes ==> !restart(i) && step * (i + 1) < maxNonce
  }

  ghost predicate SameButNonce(data: seq<Word>, block: seq<Word>)
    requires |data| == |block| == 16
  {
    forall i :: 0 <= i < 16 && i != 3 ==> data[i] == block[i]
  }

  /** One pass: the block with the new nonce, 32 columns, and the first column that is a hit. */
  method OnePass(midstate: seq<Word>, data: array<Word>, pad: seq<Word>, hash: array<Word>, nonce: nat, ghost block: seq<Word>) returns (j: nat)
    requires |midstate| == 8 && data.Length == 16 && |pad| == 16 && hash.Length == 8 && hash != data && |block| == 16
    requires SameButNonce(data[..], block)
    modifies data, hash
    ensures SameButNonce(data[..], block) && j <= NPAR
    ensures forall n :: nonce <= n < nonce + j ==> !Hit(midstate, block, pad, n)
    ensures j < NPAR ==> Hit(midstate, block, pad, nonce + j) && hash[7] == 0 && hash[3] == HashOf(midstate, block, pad, nonce + j).d
  {
    hide Hit, HashOf, Column, WordOf;
    var thash := new Word[9, NPAR];
    data[3] := WordOf(nonce);
    assert data[..] == WithNonce(block, nonce);
    DoubleBlock(data[..], pad, midstate, INIT_WORDS, thash);
    j := FirstZero(thash, midstate, block, pad, nonce);
    if j < NPAR {
      CopyColumn(thash, j, hash);
      ColumnIsNonce(midstate, block, pad, nonce, j);
    }
  }

  /** The loop over the columns of `thash`: the first one whose word 7 is zero, or `NPAR`. */
  method FirstZero(thash: array2<Word>, ghost midstate: seq<Word>, ghost data: seq<Word>, ghost pad: seq<Word>, ghost nonce: nat) returns (j: nat)
    requires |midstate| == 8 && |data| == 16 && |pad| == 16 && thash.Length0 == 9 && thash.Length1 == NPAR
    requires forall i, j :: 0 <= i < 9 && 0 <= j < NPAR ==> thash[i, j] == Column(WithNonce(data, nonce), pad, midstate, INIT_WORDS, j)[i]
    ensures j <= NPAR && forall n :: nonce <= n < nonce + j ==> !Hit(midstate, data, pad, n)
    ensures j < NPAR ==> thash[7, j] == 0 && Hit(midstate, data, pad, nonce + j)
  {
    hide Column, HashOf;
    j := 0;
    while j < NPAR
      invariant j <= NPAR
      invariant forall n :: nonce <= n < nonce + j ==> !Hit(midstate, data, pad, n)
    {
      ColumnIsNonce(midstate, data, pad, nonce, j);
      if thash[7, j] == 0 {
        return;
      }
      j := j + 1;
    }
  }

  method CopyColumn(thash: array2<Word>, j: nat, hash: array<Word>)
    requires thash.Length0 == 9 && thash.Length1 == NPAR && j < NPAR && hash.Length == 8
    modifies hash
    ensures forall i :: 0 <= i < 8 ==> hash[i] == thash[i, j]
  {
    var i := 0;
    while i < 8
      invariant 0 <= i <= 8
      invariant forall k :: 0 <= k < i ==> hash[k] == thash[k, j]
    {
      hash[i] := thash[i, j];
      i := i + 1;
    }
  }

  // ----- scanhash_sse2_64

  /** Four nonces from `nonce` on: the block of lane `l`. */
  ghost predicate NonceLoaded(data: seq<Vec>, block: seq<Word>, nonce: nat)
    requires |block| == 16
  {
    |data| >= 16 && forall t, l :: 0 <= t < 16 && 0 <= l < 4 ==> Lane(data[t], l) == WithNonce(block, nonce + l)[t]
  }

  /** The upper half of the pad stands behind the first hash. */
  ghost predicate PadLoaded(hash1: seq<Vec>, pad: seq<Word>)
    requires |pad| == 16
  {
    |hash1| >= 16 && forall t :: 8 <= t < 16 ==> hash1[t] == Set1(pad[t])
  }

  lemma BlocksAreNonces(data: seq<Vec>, block: seq<Word>, nonce: nat, l: nat)
    requires |block| == 16 && NonceLoaded(data, block, nonce) && l < 4
    ensures LaneBlocks(data)[l] == WithNonce(block, nonce + l)
  {
    hide WithNonce, Lane;
  }

  lemma SecondIsPadded(hash1: seq<Vec>, midstate: seq<Word>, block: seq<Word>, pad: seq<Word>, l: nat)
    requires |midstate| == 8 && |block| == 16 && |pad| == 16 && PadLoaded(hash1, pad) && l < 4
    requires StateAt(hash1, l) == Compress(FromWords(midstate), block)
    ensures LaneBlocks(hash1)[l] == SecondBlock(midstate, block, pad)
  {
    hide Compress;
    var b, c := LaneBlocks(hash1)[l], SecondBlock(midstate, block, pad);
    var s := StateAt(hash1, l);
    assert Words(s) == [b[0], b[1], b[2], b[3], b[4], b[5], b[6], b[7]];
    assert forall t :: 8 <= t < 16 ==> b[t] == pad[t];
    assert c == Words(s) + pad[8..];
  }

  /** The two calls of `CalcSha256_x64` in one pass: words 8 to 15 of the first buffer are the padding of the second call. */
  method DoubleCalc(hash: array<Vec>, hash1: array<Vec>, data: array<Vec>, midstate: seq<Word>, ghost block: seq<Word>, ghost pad: seq<Word>, ghost nonce: nat)
    requires hash != hash1 && hash != data && hash1 != data && hash.Length == hash1.Length == data.Length == 64
    requires |midstate| == 8 && |block| == 16 && |pad| == 16
    requires NonceLoaded(data[..], block, nonce) && PadLoaded(hash1[..], pad)
    modifies hash, hash1, data
    ensures NonceLoaded(data[..], block, nonce) && PadLoaded(hash1[..], pad)
    ensures forall l :: 0 <= l < 4 ==> StateAt(hash[..], l) == HashOf(midstate, block, pad, nonce + l)
  {
    hide Compress, Lane, Words;
    ghost var data0 := data[..];
    CalcSha256(hash1, data, midstate);
    SameStart(data0, data[..], block, nonce);
    assert forall t :: 8 <= t < 16 ==> hash1[t] == hash1[8..][t - 8];
    ghost var first := hash1[..];
    forall l | 0 <= l < 4 ensures LaneBlocks(first)[l] == SecondBlock(midstate, WithNonce(block, nonce + l), pad) {
      BlocksAreNonces(data0, block, nonce, l);
      SecondIsPadded(first, midstate, WithNonce(block, nonce + l), pad, l);
    }
    CalcSha256(hash, hash1, INIT_WORDS);
    SamePad(first, hash1[..], pad);
  }

  lemma SameStart(was: seq<Vec>, now: seq<Vec>, block: seq<Word>, nonce: nat)
    requires |block| == 16 && |was| >= 16 && |now| >= 16 && now[..16] == was[..16] && NonceLoaded(was, block, nonce)
    ensures NonceLoaded(now, block, nonce)
  {
    hide WithNonce, Lane;
    forall t | 0 <= t < 16 ensures now[t] == was[t] {
      assert now[..16][t] == was[..16][t];
    }
  }

  lemma SamePad(was: seq<Vec>, now: seq<Vec>, pad: seq<Word>)
    requires |pad| == 16 && |was| >= 16 && |now| >= 16 && now[..16] == was[..16] && PadLoaded(was, pad)
    ensures PadLoaded(now, pad)
  {
    forall t | 0 <= t < 16 ensures now[t] == was[t] {
      assert now[..16][t] == was[..16][t];
    }
  }

  /** A buffer of 64 vectors whose first 16 are the given words in every lane. */
  method Spread16(words: seq<Word>) returns (buffer: array<Vec>)
    requires |words| == 16
    ensures fresh(buffer) && buffer.Length == 64 && forall t :: 0 <= t < 16 ==> buffer[t] == Set1(words[t])
  {
    buffer := new Vec[64];
    var i := 0;
    while i < 16
      invariant 0 <= i <= 16
      invariant forall t :: 0 <= t < i ==> buffer[t] == Set1(words[t])
    {
      buffer[i] := Set1(words[i]);
      i := i + 1;
    }
  }

  /** Every vector but the third holds the same word of the block in all lanes. */
  ghost predicate BlockSpread(data: seq<Vec>, block: seq<Word>)
    requires |block| == 16
  {
    |data| >= 16 && forall t :: 0 <= t < 16 && t != 3 ==> data[t] == Set1(block[t])
  }

  lemma NonceSpread(data: seq<Vec>, block: seq<Word>, nonce: nat)
    requires |block| == 16 && BlockSpread(data, block) && data[3] == VAdd(Vec(0, 1, 2, 3), Set1(WordOf(nonce)))
    ensures NonceLoaded(data, block, nonce)
  {
    hide Add, WordOf;
    forall t, l | 0 <= t < 16 && 0 <= l < 4 ensures Lane(data[t], l) == WithNonce(block, nonce + l)[t] {
      SmallWord(l);
      AddWordOf(l, nonce);
      assert Lane(data[3], l) == Add(WordOf(l), WordOf(nonce));
    }
  }

  lemma StillSpread(data: seq<Vec>, block: seq<Word>, nonce: nat)
    requires |block| == 16 && NonceLoaded(data, block, nonce)
    ensures BlockSpread(data, block)
  {
    forall t | 0 <= t < 16 && t != 3 ensures data[t] == Set1(block[t]) {
      assert Lane(data[t], 0) == block[t] && Lane(data[t], 1) == block[t] && Lane(data[t], 2) == block[t] && Lane(data[t], 3) == block[t];
    }
  }

  /** The loop over the lanes: the first whose word 7 is zero, or 4. */
  method FirstZeroLane(last: Vec) returns (j: nat)
    ensures j <= 4 && (forall l :: 0 <= l < j ==> Lane(last, l) != 0) && (j < 4 ==> Lane(last, j) == 0)
  {
    j := 0;
    while j < 4
      invariant j <= 4 && forall l :: 0 <= l < j ==> Lane(last, l) != 0
    {
      if Lane(last, j) == 0 {
        break;
      }
      j := j + 1;
    }
  }

  method CopyLane(m4hash: array<Vec>, j: nat, hash: array<Word>)
    requires m4hash.Length == 64 && j < 4 && hash.Length == 8
    modifies hash
    ensures hash[..] == Words(StateAt(m4hash[..], j))
  {
    hide Lane;
    var i := 0;
    while i < 8
      invariant 0 <= i <= 8
      invariant forall k :: 0 <= k < i ==> hash[k] == Lane(m4hash[k], j)
    {
      hash[i] := Lane(m4hash[i], j);
      i := i + 1;
    }
  }

  /** One pass: four nonces, and the first of them that is a hit. */
  method OnePassSse2(midstate: seq<Word>, m4w: array<Vec>, m4hash: array<Vec>, m4hash1: array<Vec>, hash: array<Word>, nonce: nat, ghost block: seq<Word>, ghost pad: seq<Word>)
    returns (j: nat)
    requires m4hash != m4hash1 && m4hash != m4w && m4hash1 != m4w && m4hash.Length == m4hash1.Length == m4w.Length == 64
    requires |midstate| == 8 && |block| == 16 && |pad| == 16 && hash.Length == 8
    requires BlockSpread(m4w[..], block) && PadLoaded(m4hash1[..], pad)
    modifies m4w, m4hash, m4hash1, hash
    ensures BlockSpread(m4w[..], block) && PadLoaded(m4hash1[..], pad)
    ensures j <= 4 && forall n :: nonce <= n < nonce + j ==> !Hit(midstate, block, pad, n)
    ensures j < 4 ==> Hit(midstate, block, pad, nonce + j) && hash[..] == Words(HashOf(midstate, block, pad, nonce + j))
  {
    hide NonceLoaded, PadLoaded, HashOf, WordOf, Lane;
    ghost var was := m4w[..];
    m4w[3] := VAdd(Vec(0, 1, 2, 3), Set1(WordOf(nonce)));
    OthersSpread(was, m4w[..], block);
    NonceSpread(m4w[..], block, nonce);
    DoubleCalc(m4hash, m4hash1, m4w, midstate, block, pad, nonce);
    StillSpread(m4w[..], block, nonce);
    j := FirstZeroLane(m4hash[7]);
    forall n | nonce <= n < nonce + j ensures !Hit(midstate, block, pad, n) {
      var l := n - nonce;
      assert StateAt(m4hash[..], l) == HashOf(midstate, block, pad, nonce + l);
    }
    if j != 4 {
      CopyLane(m4hash, j, hash);
    }
  }

  lemma OthersSpread(was: seq<Vec>, now: seq<Vec>, block: seq<Word>)
    requires |block| == 16 && BlockSpread(was, block) && |now| == |was| && forall t :: 0 <= t < |was| && t != 3 ==> now[t] == was[t]
    ensures BlockSpread(now, block)
  {
  }

  lemma SpreadMeans(words: seq<Vec>, block: seq<Word>)
    requires |block| == 16 && |words| >= 16 && forall t :: 0 <= t < 16 ==> words[t] == Set1(block[t])
    ensures BlockSpread(words, block) && PadLoaded(words, block)
  {
  }

  /** `scanhash_sse2_64`. A hit comes with the whole double hash. For a larger `maxNonce` see `Sse2EndsIff`. */
  method ScanHashSse2(midstate: seq<Word>, data: array<Word>, pad: seq<Word>, hash: array<Word>, target: seq<Word>, maxNonce: nat, restart: nat -> bool)
    returns (result: nat, hashesDone: nat)
    requires |midstate| == 8 && data.Length == 16 && |pad| == 16 && hash.Length == 8 && hash != data
    requires maxNonce <= 0xffff_fffc
    modifies data, hash
    ensures SameButNonce(data[..], old(data[..]))
    ensures WentOn(4, if result == MISS then hashesDone / 4 - 1 else hashesDone / 4, maxNonce, restart)
    ensures result != MISS ==>
      && result < MODULUS && Hit(midstate, old(data[..]), pad, result)
      && (forall n :: 0 <= n < result ==> !Hit(midstate, old(data[..]), pad, n))
      && data[3] == WordOf(result) && hashesDone <= result < hashesDone + 4
      && hash[..] == Words(HashOf(midstate, old(data[..]), pad, result))
    ensures result == MISS ==>
      && data[..] == old(data[..])
      && (forall n :: 0 <= n < hashesDone ==> !Hit(midstate, old(data[..]), pad, n))
      && hashesDone >= 4 && hashesDone % 4 == 0
      && (hashesDone >= maxNonce || restart(hashesDone / 4 - 1))
  {
    hide Hit, HashOf, WordOf, BlockSpread, PadLoaded;
    var block := data[..];
    var m4w := Spread16(block);
    var m4hash1 := Spread16(pad);
    var m4hash := new Vec[64];
    SpreadMeans(m4w[..], block);
    SpreadMeans(m4hash1[..], pad);
    var nonce, pass := 0, 0;
    while true
      invariant nonce == 4 * pass == NonceAfter(4, pass) && nonce <= 0xffff_fff8
      invariant data[..] == block && WentOn(4, pass, maxNonce, restart)
      invariant BlockSpread(m4w[..], block) && PadLoaded(m4hash1[..], pad)
      invariant forall n :: 0 <= n < nonce ==> !Hit(midstate, block, pad, n)
      decreases MODULUS - nonce
    {
      var j := OnePassSse2(midstate, m4w, m4hash, m4hash1, hash, nonce, block, pad);
      if j != 4 {
        if FullTest(hash[..], target) {
          hashesDone := nonce;
          data[3] := WordOf(nonce + j);
          return nonce + j, hashesDone;
        }
      }
      nonce := (nonce + 4) % MODULUS;
      if nonce >= maxNonce || restart(pass) {
        hashesDone := nonce;
        return MISS, hashesDone;
      }
      pass := pass + 1;
    }
  }
}
