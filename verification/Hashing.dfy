/**
 The djb2 string hash of the three hash tables, in machine words of 32 bits on the storage server and of 64 bits
 on the name server.
 */
module Hashing {

  const WORD32: nat := 0x1_0000_0000
  const WORD64: nat := 0x1_0000_0000_0000_0000
  const SEED: nat := 5381

  /** A byte as a signed char. */
  function SignedByte(c: char): int {
    var n := c as int % 256;
    if n >= 128 then n - 256 else n
  }

  /** hash * 33 + c for every byte, in words of the given size. */
  function Djb2(s: string, hash: nat, word: nat): (r: nat)
    requires word > 0
    decreases |s|
  {
    if s == [] then hash else Djb2(s[1..], (hash * 33 + SignedByte(s[0])) % word, word)
  }

  /** The slot of a key in a table. */
  function SlotOf(key: string, word: nat, size: nat): (slot: nat)
    requires word > 0 && size > 0
    ensures slot < size
  {
    Djb2(key, SEED, word) % size
  }

  /** The hash without words: the value at 33 of a polynomial with the key's signed bytes as coefficients. */
  function Polynomial(s: string): int
    decreases |s|
  {
    if s == "" then 5381
    else
      var front, c := s[..|s| - 1], s[|s| - 1] as int % 256;
      33 * Polynomial(front) + if c < 128 then c else c - 256
  }

  lemma StepMod(x: int, h: int, c: int, word: int)
    requires word > 0 && h == x % word
    ensures (h * 33 + c) % word == (33 * x + c) % word
  {
    var q := x / word;
    assert 33 * x + c == (h * 33 + c) + (33 * q) * word;
    ModPlus(h * 33 + c, 33 * q, word);
  }

  lemma ModPlus(a: int, q: int, word: int)
    requires word > 0
    ensures (a + q * word) % word == a % word
  {
    var d := a / word;
    assert a + q * word == (d + q) * word + a % word;
    ModUnique(d + q, a % word, word);
  }

  lemma ModUnique(q: int, r: int, word: int)
    requires 0 <= r < word
    ensures (q * word + r) % word == r
  {
    var x := q * word + r;
    assert x == x / word * word + x % word;
    var e := q - x / word;
    assert e * word == x % word - r;
    Multiples(e, word);
  }

  lemma Multiples(e: int, word: int)
    requires word > 0
    ensures e > 0 ==> e * word >= word
    ensures e < 0 ==> e * word <= -word
  {
  }

  lemma Djb2Last(s: string, c: char, hash: nat, word: nat)
    requires word > 0
    ensures Djb2(s + [c], hash, word) == (Djb2(s, hash, word) * 33 + SignedByte(c)) % word
    decreases |s|
  {
    if s == "" {
      assert s + [c] == [c];
    } else {
      Djb2Last(s[1..], c, (hash * 33 + SignedByte(s[0])) % word, word);
      assert (s + [c])[1..] == s[1..] + [c];
    }
  }

  /** Computing in machine words, which wrap around at every byte, is one reduction of the exact value at the end. */
  lemma {:induction false} HashIsPolynomial(s: string, word: nat)
    requires word > 5381
    ensures Djb2(s, SEED, word) == Polynomial(s) % word
    decreases |s|
  {
    if s != "" {
      var front := s[..|s| - 1];
      assert s == front + [s[|s| - 1]];
      HashIsPolynomial(front, word);
      Djb2Last(front, s[|s| - 1], SEED, word);
      StepMod(Polynomial(front), Djb2(front, SEED, word), SignedByte(s[|s| - 1]), word);
    }
  }

  /** The slots of a key on the storage server and on the name server. */
  lemma SlotsOfKey(key: string, size: nat)
    requires size > 0
    ensures SlotOf(key, WORD32, size) == (Polynomial(key) % 4294967296) % size
    ensures SlotOf(key, WORD64, size) == (Polynomial(key) % 18446744073709551616) % size
  {
    HashIsPolynomial(key, WORD32);
    HashIsPolynomial(key, WORD64);
  }

  /** hash_access_key, hash_filename and cache_hash. */
  method HashKey(key: string, word: nat, size: nat) returns (slot: nat)
    requires word > 0 && size > 0
    ensures slot == SlotOf(key, word, size)
  {
    var hash := SEED;
    for i := 0 to |key|
      invariant hash >= 0 && Djb2(key[i..], hash, word) == Djb2(key, SEED, word)
    {
      assert key[i..][0] == key[i] && key[i..][1..] == key[i + 1..];
      hash := (hash * 33 + SignedByte(key[i])) % word;
    }
    slot := hash % size;
  }
}
