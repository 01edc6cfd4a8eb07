/**
 * The string hash of the table (`hashing` in hash_table/hash.c).
 *
 * The accumulator is an `unsigned int`: it starts at 0 and, for every byte of
 * the key in order, first adds the byte's code and then multiplies by 31, each
 * step wrapping around modulo 2^32.
 */
module KeyHash {

  /** A byte of a NUL-terminated C string: NUL ends the string, so it never occurs inside a key. */
  type KeyByte = b: int | 0 < b < 256 witness 1

  type Key = seq<KeyByte>

  /** 2^32: `unsigned int` arithmetic is arithmetic modulo this number. */
  const WORD: nat := 0x1_0000_0000

  const MULTIPLIER: nat := 31

  /** The hash of `key`: the accumulator after all of its bytes. */
  function HashCode(key: Key): (h: nat)
    ensures h < WORD
  {
    HashPrefix(key, |key|)
  }

  /** The accumulator after the first `n` bytes: add byte n - 1 to the accumulator before it, then multiply. */
  function HashPrefix(key: Key, n: nat): (h: nat)
    requires n <= |key|
    ensures h < WORD
  {
    if n == 0 then 0 else ((HashPrefix(key, n - 1) + key[n - 1]) * MULTIPLIER) % WORD
  }

  function Pow(base: nat, e: nat): nat
  {
    if e == 0 then 1 else base * Pow(base, e - 1)
  }

  /**
   * An independent, closed-form reference for the hash before wrap-around:
   * byte i of an n-byte key is weighted by 31^(n - i), so even the last byte
   * is multiplied once (add-then-multiply, not multiply-then-add).
   */
  function Polynomial(key: Key): nat
    decreases |key|
  {
    if key == [] then 0 else key[0] * Pow(MULTIPLIER, |key|) + Polynomial(key[1..])
  }

  lemma {:induction false} PolynomialSnoc(key: Key, c: KeyByte)
    ensures Polynomial(key + [c]) == (Polynomial(key) + c) * MULTIPLIER
    decreases |key|
  {
    if key == [] {
      assert [c][1..] == [];
      assert Polynomial([c]) == c * Pow(MULTIPLIER, 1) + Polynomial([]);
    } else {
      var rest := key[1..];
      assert key + [c] == [key[0]] + (rest + [c]);
      assert (key + [c])[1..] == rest + [c];
      PolynomialSnoc(rest, c);
      var p := Pow(MULTIPLIER, |key|);
      assert Pow(MULTIPLIER, |key| + 1) == MULTIPLIER * p;
      calc {
        Polynomial(key + [c]);
        key[0] * Pow(MULTIPLIER, |key| + 1) + Polynomial(rest + [c]);
        key[0] * (MULTIPLIER * p) + (Polynomial(rest) + c) * MULTIPLIER;
        (key[0] * p + Polynomial(rest) + c) * MULTIPLIER;
        (Polynomial(key) + c) * MULTIPLIER;
      }
    }
  }

  /** Euclidean division by 2^32 has a unique quotient and remainder. */
  lemma WordRemainder(x: int, q: int, r: int)
    requires x == q * 0x1_0000_0000 + r && 0 <= r < 0x1_0000_0000
    ensures x % WORD == r
  {
  }

  /** Wrapping before a multiplication by 31 gives the same word as wrapping after it. */
  lemma MulWrap(y: nat)
    ensures ((y % WORD) * MULTIPLIER) % WORD == (y * MULTIPLIER) % WORD
  {
    var q, r := y / 0x1_0000_0000, y % 0x1_0000_0000;
    var q2, r2 := (r * 31) / 0x1_0000_0000, (r * 31) % 0x1_0000_0000;
    assert y * 31 == (q * 31 + q2) * 0x1_0000_0000 + r2;
    WordRemainder(r * 31, q2, r2);
    WordRemainder(y * 31, q * 31 + q2, r2);
  }

  /** Wrapping before an addition gives the same word as wrapping after it. */
  lemma AddWrap(x: nat, c: nat)
    ensures (x % WORD + c) % WORD == (x + c) % WORD
  {
    var q, r := x / 0x1_0000_0000, x % 0x1_0000_0000;
    var q2, r2 := (r + c) / 0x1_0000_0000, (r + c) % 0x1_0000_0000;
    assert x + c == (q + q2) * 0x1_0000_0000 + r2;
    WordRemainder(r + c, q2, r2);
    WordRemainder(x + c, q + q2, r2);
  }

  /** The wrapped accumulator is the exact polynomial reduced modulo 2^32. */
  lemma HashCodeIsPolynomial(key: Key)
    ensures HashCode(key) == Polynomial(key) % WORD
  {
    HashPrefixIsPolynomial(key, |key|);
    assert key[..|key|] == key;
  }

  lemma {:induction false} HashPrefixIsPolynomial(key: Key, n: nat)
    requires n <= |key|
    ensures HashPrefix(key, n) == Polynomial(key[..n]) % WORD
    decreases n
  {
    if n > 0 {
      var p, c := key[..n - 1], key[n - 1];
      assert key[..n] == p + [c];
      HashPrefixIsPolynomial(key, n - 1);
      PolynomialSnoc(p, c);
      var x := Polynomial(p);
      calc {
        HashPrefix(key, n);
        ((x % WORD + c) * MULTIPLIER) % WORD;
        { AddWrap(x, c); MulWrap(x % WORD + c); MulWrap(x + c); }
        ((x + c) * MULTIPLIER) % WORD;
        Polynomial(key[..n]) % WORD;
      }
    }
  }

  /** `hashing`: the loop over the key's bytes, each C operator wrapping on its own. */
  method Hashing(key: Key) returns (ret: nat)
    ensures ret == HashCode(key)
  {
    ret := 0;
    for i := 0 to |key|
      invariant ret == HashPrefix(key, i)
    {
      ghost var before := ret;
      ret := (ret + key[i]) % WORD;
      ret := (ret * MULTIPLIER) % WORD;
      MulWrap(before + key[i]);
    }
  }
}
