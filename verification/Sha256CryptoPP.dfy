/** `SHA256_Transform` of `sha256_cryptopp.c`: a circular schedule of 16 words and a register file that turns by one place a round. */
module Sha256CryptoPP {
  import opened Sha256

  function Majority(x: Word, y: Word, z: Word): Word {
    Value(Bits(y) ^ ((Bits(x) ^ Bits(y)) & (Bits(y) ^ Bits(z))))
  }

  lemma SameMajority(x: Word, y: Word, z: Word)
    ensures Majority(x, y, z) == Maj(x, y, z)
  {
    hide Bits, Value;
    MajorityBits(Bits(x), Bits(y), Bits(z));
  }

  lemma MajorityBits(x: bv32, y: bv32, z: bv32)
    ensures y ^ ((x ^ y) & (y ^ z)) == (x & y) ^ (x & z) ^ (y & z)
  {
  }

  lemma SameSum(h: Word, x: Word, y: Word, k: Word, w: Word)
    ensures Add(h, Sum4(x, y, k, w)) == Sum5(h, x, y, k, w)
  {
    hide Add;
    AddAssoc(h, Add(Add(x, y), k), w);
    AddAssoc(h, Add(x, y), k);
    AddAssoc(h, x, y);
  }

  /** Where register number `k` (0 for a, ..., 7 for h) is in round `i`: `(k - i) & 7` on unsigned numbers. */
  function Place(k: nat, i: nat): nat {
    (k - i) % 8
  }

  lemma PlaceIs(k: nat, i: nat)
    requires k < 8
    ensures Place(k, i) == if k >= i % 8 then k - i % 8 else k + 8 - i % 8
  {
  }

  ghost predicate Holds(T: seq<Word>, k: nat, n: nat, w: Word) {
    Place(k, n) < |T| && T[Place(k, n)] == w
  }

  /** All registers of round `n` are where the macros look for them. */
  ghost predicate Turned(T: seq<Word>, n: nat, s: State) {
    && Holds(T, 0, n, s.a) && Holds(T, 1, n, s.b) && Holds(T, 2, n, s.c) && Holds(T, 3, n, s.d)
    && Holds(T, 4, n, s.e) && Holds(T, 5, n, s.f) && Holds(T, 6, n, s.g) && Holds(T, 7, n, s.h)
  }

  /** The last 16 words of the schedule, each at its number modulo 16. */
  ghost predicate Recent(W: seq<Word>, n: nat, m: seq<Word>)
    requires |W| == 16 && |m| == 16
  {
    forall t :: 0 <= t < n <= t + 16 ==> W[t % 16] == Schedule(m, t)
  }

  /** `blk0` and `blk2`. */
  method NextWord(W: array<Word>, data: seq<Word>, i: nat, j: nat) returns (w: Word)
    requires W.Length == 16 && |data| == 16 && i < 16 && j % 16 == 0
    requires Recent(W[..], i + j, data)
    modifies W
    ensures w == Schedule(data, i + j) && Recent(W[..], i + j + 1, data)
  {
    hide Add, SmallSigma0, SmallSigma1, Recent, Schedule;
    ghost var was := W[..];
    if j == 0 {
      W[i] := data[i];
    } else {
      Blend(was, data, i, j);
      W[i] := Add(W[i], Add(Add(SmallSigma1(W[(i - 2) % 16]), W[(i - 7) % 16]), SmallSigma0(W[(i - 15) % 16])));
    }
    w := W[i];
    FirstSixteen(data, i);
    OneMore(was, data, i, j, w);
    assert W[..] == was[i := w];
  }

  lemma FirstSixteen(data: seq<Word>, i: nat)
    requires |data| == 16 && i < 16
    ensures Schedule(data, i) == data[i]
  {
  }

  lemma RecentAt(W: seq<Word>, n: nat, m: seq<Word>, t: nat)
    requires |W| == 16 && |m| == 16 && Recent(W, n, m) && t < n <= t + 16
    ensures W[t % 16] == Schedule(m, t)
  {
  }

  lemma Blend(W: seq<Word>, data: seq<Word>, i: nat, j: nat)
    requires |W| == 16 && |data| == 16 && i < 16 && j % 16 == 0 && j > 0 && Recent(W, i + j, data)
    ensures Schedule(data, i + j) == Add(W[i], Add(Add(SmallSigma1(W[(i - 2) % 16]), W[(i - 7) % 16]), SmallSigma0(W[(i - 15) % 16])))
  {
    hide Add, SmallSigma0, SmallSigma1, Recent;
    var n := i + j;
    RecentAt(W, n, data, n - 2);
    RecentAt(W, n, data, n - 7);
    RecentAt(W, n, data, n - 15);
    RecentAt(W, n, data, n - 16);
    SameRest(i, j, 2);
    SameRest(i, j, 7);
    SameRest(i, j, 15);
    SameRest(i, j, 16);
    AddSwap(W[i], Add(Add(SmallSigma1(W[(i - 2) % 16]), W[(i - 7) % 16]), SmallSigma0(W[(i - 15) % 16])));
  }

  lemma SameRest(i: nat, j: nat, k: nat)
    requires i < 16 && j % 16 == 0 && 0 < k <= 16
    ensures (i + j - k) % 16 == (i - k) % 16 && (i - 16) % 16 == i
  {
  }

  lemma OneMore(W: seq<Word>, data: seq<Word>, i: nat, j: nat, w: Word)
    requires |W| == 16 && |data| == 16 && i < 16 && j % 16 == 0 && Recent(W, i + j, data) && w == Schedule(data, i + j)
    ensures Recent(W[i := w], i + j + 1, data)
  {
    hide Schedule;
    var n := i + j;
    var now := W[i := w];
    forall t | 0 <= t < n + 1 <= t + 16 ensures now[t % 16] == Schedule(data, t) {
      if t < n {
        NotSamePlace(i, j, t);
      }
    }
  }

  lemma NotSamePlace(i: nat, j: nat, t: nat)
    requires i < 16 && j % 16 == 0 && t < i + j < t + 16
    ensures t % 16 != i
  {
  }

  /** The macro `R`. */
  method R(T: array<Word>, W: array<Word>, data: seq<Word>, i: nat, j: nat, ghost start: State)
    requires T != W && T.Length == 8 && W.Length == 16 && |data| == 16 && i < 16 && j % 16 == 0 && j < 64
    requires Recent(W[..], i + j, data) && Turned(T[..], i, Rounds(start, data, i + j))
    modifies T, W
    ensures Recent(W[..], i + j + 1, data) && Turned(T[..], i + 1, Rounds(start, data, i + j + 1))
  {
    hide Add, Sum4, Schedule, Recent, Choose, Majority, BigSigma0, BigSigma1, Ch, Maj, Rounds, Place;
    var w := NextWord(W, data, i, j);
    ghost var s := Rounds(start, data, i + j);
    ghost var was := T[..];
    AllPlaces(i);
    var h, d := Place(7, i), Place(3, i);
    T[h] := Add(T[h], Sum4(BigSigma1(T[Place(4, i)]), Choose(T[Place(4, i)], T[Place(5, i)], T[Place(6, i)]), K[i + j], w));
    ghost var t1 := T[h];
    T[d] := Add(T[d], T[h]);
    T[h] := Add(T[h], Add(BigSigma0(T[Place(0, i)]), Majority(T[Place(0, i)], T[Place(1, i)], T[Place(2, i)])));
    assert T[..] == was[d := Add(was[d], t1)][h := T[h]];
    OneRound(start, data, i + j, s, t1);
    TurnOnce(was, T[..], i, s, Rounds(start, data, i + j + 1));
  }

  lemma AllPlaces(i: nat)
    ensures forall k :: 0 <= k < 8 ==> Place(k, i) < 8
    ensures forall k, l :: 0 <= k < l < 8 ==> Place(k, i) != Place(l, i)
  {
    forall k | 0 <= k < 8 ensures Place(k, i) == if k >= i % 8 then k - i % 8 else k + 8 - i % 8 {
      PlaceIs(k, i);
    }
  }

  lemma OneRound(start: State, m: seq<Word>, n: nat, s: State, t1: Word)
    requires |m| == 16 && n < 64 && s == Rounds(start, m, n)
    requires t1 == Add(s.h, Sum4(BigSigma1(s.e), Choose(s.e, s.f, s.g), K[n], Schedule(m, n)))
    ensures Rounds(start, m, n + 1)
         == State(Add(t1, Add(BigSigma0(s.a), Majority(s.a, s.b, s.c))), s.a, s.b, s.c, Add(s.d, t1), s.e, s.f, s.g)
  {
    hide Add, Sum4, Sum5, Schedule, Choose, Majority, BigSigma0, BigSigma1, Ch, Maj;
    NextRound(start, m, n);
    SameChoice(s.e, s.f, s.g);
    SameMajority(s.a, s.b, s.c);
    SameSum(s.h, BigSigma1(s.e), Ch(s.e, s.f, s.g), K[n], Schedule(m, n));
  }

  /** Changing h and d in place and counting one round further renames all registers at once. */
  lemma TurnOnce(was: seq<Word>, now: seq<Word>, i: nat, s: State, s': State)
    requires |was| == |now| == 8 && Turned(was, i, s)
    requires s'.b == s.a && s'.c == s.b && s'.d == s.c && s'.f == s.e && s'.g == s.f && s'.h == s.g
    requires Place(3, i) < 8 && Place(7, i) < 8 && now == was[Place(3, i) := s'.e][Place(7, i) := s'.a]
    ensures Turned(now, i + 1, s')
  {
    hide Place;
    AllPlaces(i);
    PlaceShift(0, i);
    PlaceShift(1, i);
    PlaceShift(2, i);
    PlaceShift(3, i);
    PlaceShift(4, i);
    PlaceShift(5, i);
    PlaceShift(6, i);
    PlaceShift(7, i);
  }

  lemma PlaceShift(k: nat, i: nat)
    requires k < 8
    ensures Place(k, i + 1) == Place(if k == 0 then 7 else k - 1, i)
  {
    PlaceIs(k, i + 1);
    PlaceIs(if k == 0 then 7 else k - 1, i);
  }

  method Transform(state: array<Word>, data: seq<Word>)
    requires state.Length == 8 && |data| == 16
    modifies state
    ensures FromWords(state[..]) == Compress(old(FromWords(state[..])), data)
  {
    hide Add, Schedule, Rounds, Turned, Recent;
    ghost var start := FromWords(state[..]);
    var W := new Word[16];
    var T := new Word[8](k requires 0 <= k < 8 reads state => state[k]);
    StartTurned(T[..], W[..], start, data);
    var j := 0;
    while j < 64
      invariant 0 <= j <= 64 && j % 16 == 0
      invariant Recent(W[..], j, data) && Turned(T[..], 0, Rounds(start, data, j))
      invariant state[..] == old(state[..])
    {
      var i := 0;
      while i < 16
        invariant 0 <= i <= 16
        invariant Recent(W[..], i + j, data) && Turned(T[..], i, Rounds(start, data, i + j))
        invariant state[..] == old(state[..])
      {
        R(T, W, data, i, j, start);
        i := i + 1;
      }
      SixteenTurns(T[..], Rounds(start, data, j + 16));
      j := j + 16;
    }
    AddBack(state, T, start, data);
  }

  /** The end of `SHA256_Transform`: `a(0)` to `h(0)` are the words of `T` in order. */
  method AddBack(state: array<Word>, T: array<Word>, ghost start: State, ghost data: seq<Word>)
    requires state.Length == T.Length == 8 && state != T && |data| == 16 && FromWords(state[..]) == start
    requires Turned(T[..], 0, Rounds(start, data, 64))
    modifies state
    ensures FromWords(state[..]) == Compress(start, data)
  {
    hide Add, Rounds, Place;
    PlacesAtZero();
    state[0] := Add(state[0], T[0]);
    state[1] := Add(state[1], T[1]);
    state[2] := Add(state[2], T[2]);
    state[3] := Add(state[3], T[3]);
    state[4] := Add(state[4], T[4]);
    state[5] := Add(state[5], T[5]);
    state[6] := Add(state[6], T[6]);
    state[7] := Add(state[7], T[7]);
  }

  lemma StartTurned(T: seq<Word>, W: seq<Word>, start: State, data: seq<Word>)
    requires |T| == 8 && |W| == 16 && |data| == 16 && start == FromWords(T)
    ensures Turned(T, 0, Rounds(start, data, 0)) && Recent(W, 0, data)
  {
    PlacesAtZero();
  }

  lemma PlacesAtZero()
    ensures forall k :: 0 <= k < 8 ==> Place(k, 0) == k
  {
  }

  lemma SixteenTurns(T: seq<Word>, s: State)
    requires Turned(T, 16, s)
    ensures Turned(T, 0, s)
  {
    forall k | 0 <= k < 8 ensures Place(k, 0) == Place(k, 16) {
      PlaceIs(k, 0);
      PlaceIs(k, 16);
    }
    hide Place;
  }
}
