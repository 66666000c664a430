/** The hash of a key as one polynomial. */
module KeyHash {
  import opened Bytes
  import opened JsonObjects

  const MODULUS := 0x1_0000_0000

  /** A byte as a `char` that has a sign. */
  function SignedChar(b: byte): int {
    if b <= 0x7F then b as int else b as int - 0x100
  }

  function Power33(n: nat): nat {
    if n == 0 then 1 else 33 * Power33(n - 1)
  }

  /** Every character counts according to its place from the end. */
  function Places(key: seq<byte>): int {
    if key == [] then 0 else SignedChar(key[0]) * Power33(|key| - 1) + Places(key[1..])
  }

  lemma ModularSum(x: int, y: int, k: int)
    requires x == y + MODULUS * k
    ensures x % MODULUS == y % MODULUS
  {
  }

  lemma Distribute(a: int, b: int, c: int, p: int)
    ensures (33 * a + b + MODULUS * c) * p == a * (33 * p) + b * p + MODULUS * (c * p)
  {
  }

  lemma {:induction false} HashFromIs(h: nat, key: seq<byte>)
    ensures HashFrom(h, key) % MODULUS == (h * Power33(|key|) + Places(key)) % MODULUS
    ensures h < MODULUS ==> HashFrom(h, key) < MODULUS
    decreases |key|
  {
    if key != [] {
      var c := if key[0] < 0x80 then key[0] as nat else key[0] as nat + 0xFFFF_FF00;
      var next := (h * 33 + c) % MODULUS;
      HashFromIs(next, key[1..]);
      var p, q, sign := Power33(|key| - 1), (h * 33 + c) / MODULUS, if key[0] < 0x80 then 0 else 1;
      assert next == 33 * h + SignedChar(key[0]) + MODULUS * (sign - q);
      Distribute(h, SignedChar(key[0]), sign - q, p);
      ModularSum(next * p + Places(key[1..]), h * Power33(|key|) + Places(key), (sign - q) * p);
    }
  }

  /** The hash is 5381 * 33^n + c_1 * 33^(n-1) + ... + c_n modulo 2^32. */
  lemma HashKeyIs(key: seq<byte>)
    ensures HashKey(key) == (5381 * Power33(|key|) + Places(key)) % MODULUS
  {
    HashFromIs(5381, key);
  }
}
