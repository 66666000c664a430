/**
  What a scan searches: when the server's data has the padding FIPS 180-4 asks for, the hash of a
  nonce is SHA-256 of SHA-256 of the 80-byte block header with that nonce.
  */
module BlockHash {
  import opened Sha256
  import opened Sha256Lanes
  import opened NonceScan

  // ----- sections 5.1.1 and 6.2 for messages of whole words

  function Zeros(n: nat): seq<Word> {
    if n == 0 then [] else [0] + Zeros(n - 1)
  }

  /** A one bit, zeros up to 64 bits below a multiple of 512, and the length in bits. */
  function Padded(m: seq<Word>): seq<Word> {
    m + [0x8000_0000] + Zeros((13 - |m|) % 16) + [(32 * |m| / MODULUS % MODULUS) as Word, (32 * |m| % MODULUS) as Word]
  }

  /** The hash value after all blocks. */
  function AllBlocks(s: State, m: seq<Word>): State
    decreases |m|
  {
    if |m| < 16 then s else AllBlocks(Compress(s, m[..16]), m[16..])
  }

  function Hash(m: seq<Word>): State {
    AllBlocks(INIT, Padded(m))
  }

  lemma FiveZeros()
    ensures Zeros(5) == [0, 0, 0, 0, 0]
  {
    assert Zeros(3) == [0] + ([0] + ([0] + Zeros(0)));
    assert Zeros(5) == [0] + ([0] + Zeros(3));
  }

  lemma PaddedHeader(m: seq<Word>)
    requires |m| == 20
    ensures Padded(m) == m + [0x8000_0000, 0, 0, 0, 0, 0, 0, 0, 0, 0, 0, 640]
  {
    FiveZeros();
    assert Zeros(9) == [0] + ([0] + ([0] + ([0] + Zeros(5))));
  }

  lemma PaddedHash(m: seq<Word>)
    requires |m| == 8
    ensures Padded(m) == m + [0x8000_0000, 0, 0, 0, 0, 0, 0, 256]
  {
    FiveZeros();
  }

  lemma OneBlock(s: State, m: seq<Word>)
    requires |m| == 16
    ensures AllBlocks(s, m) == Compress(s, m)
  {
    assert m[..16] == m && m[16..] == [];
  }

  lemma TwoBlocks(s: State, m: seq<Word>)
    requires |m| == 32
    ensures AllBlocks(s, m) == Compress(Compress(s, m[..16]), m[16..])
  {
    OneBlock(Compress(s, m[..16]), m[16..]);
  }

  // ----- the data of a scan

  /** What the server sends for a header of 20 words: the hash value after the first 16, and the rest with its padding. */
  predicate SentFor(midstate: seq<Word>, data: seq<Word>, pad: seq<Word>, header: seq<Word>)
    requires |header| == 20
  {
    && midstate == Words(Compress(INIT, header[..16]))
    && data == header[16..] + [0x8000_0000, 0, 0, 0, 0, 0, 0, 0, 0, 0, 0, 640]
    && |pad| == 16 && pad[8..] == [0x8000_0000, 0, 0, 0, 0, 0, 0, 256]
  }

  /** The hash of nonce `n` is the double hash of the header with `n` as its last word. */
  lemma HashOfHeader(midstate: seq<Word>, data: seq<Word>, pad: seq<Word>, header: seq<Word>, n: nat)
    requires |header| == 20 && SentFor(midstate, data, pad, header) && n < 0x1_0000_0000
    ensures HashOf(midstate, data, pad, n) == Hash(Words(Hash(header[19 := n as Word])))
  {
    hide Compress;
    var m := header[19 := n as Word];
    var once := Hash(m);
    PaddedHeader(m);
    TwoBlocks(INIT, Padded(m));
    assert Padded(m)[..16] == header[..16];
    assert Padded(m)[16..] == WithNonce(data, n);
    assert once == Compress(FromWords(midstate), WithNonce(data, n));
    PaddedHash(Words(once));
    OneBlock(INIT, Padded(Words(once)));
  }
}
