/**
 * The toy "homomorphic" encryption engine.
 *
 * A ciphertext of plaintext p is the pair [(p + r) mod m, r] for a noise
 * value r, so decryption subtracts the second element from the first.
 * Addition adds the pairs component-wise; multiplication decrypts both
 * operands, multiplies, and re-encrypts with a noise derived from the
 * operands' noise. Everything is computed in `int64_t` modulo 65537.
 *
 * The random draws of `keygen` (the secret) and `encrypt` (the noise) are
 * parameters here, restricted to the ranges the distributions draw from.
 */
module Fhe {
  import opened CInts

  datatype FheKey = FheKey(secretKey: int, publicKey: int, modulus: int)

  /** `data` is the vector of 64-bit words, `noise` the double-valued noise
    * field (only ever holding small whole numbers). */
  datatype Ciphertext = Ciphertext(data: seq<int>, noise: real)

  /** The modulus the engine's constructor installs. */
  const DefaultModulus: int := 65537

  /** fhe_engine::mod: the C++ remainder, lifted into [0, m) when negative.
    * For a positive modulus this is the Euclidean residue of a. */
  function Mod(a: int, m: int): (r: int)
    requires m != 0
    ensures m > 0 ==> 0 <= r < m && r == a % m
  {
    var c := CRem(a, m);
    if m > 0 then LiftedRemainder(a, m, c); if c < 0 then c + m else c
    else if c < 0 then c + m else c
  }

  /** The C++ remainder lifted into [0, m) is the Euclidean residue. */
  lemma LiftedRemainder(a: int, m: int, c: int)
    requires m > 0 && c == CRem(a, m)
    ensures (if c < 0 then c + m else c) == a % m
  {
    var k := (a - c) / m;
    ModUnique(a - c, k, m, 0);
    if c < 0 {
      ModUnique(a, k - 1, m, c + m);
    } else {
      ModUnique(a, k, m, c);
    }
  }

  /** The noise multiply attaches: the C++ remainder of the summed noise
    * words by 50, plus one. */
  function FreshNoise(ct1: Ciphertext, ct2: Ciphertext): (r: int)
    requires |ct1.data| >= 2 && |ct2.data| >= 2
    ensures ct1.data[1] >= 0 && ct2.data[1] >= 0 ==> 1 <= r <= 50
    ensures -48 <= r <= 50
  {
    CRem(ct1.data[1] + ct2.data[1], 50) + 1
  }

  class FheEngine {
    var key: FheKey
    var modulus: int
    /** Whether keygen has run; until then the key's secret and public parts
      * are the uninitialised members of a default-constructed `fhe_key`. */
    ghost var keyed: bool

    ghost predicate Valid()
      reads this
    {
      modulus == DefaultModulus && key.modulus == modulus &&
      (keyed ==> 100 <= key.secretKey <= 1000 && key.publicKey == 7 * key.secretKey)
    }

    /** fhe_engine(): the modulus and the key's modulus are both 65537. */
    constructor ()
      ensures Valid() && !keyed
      ensures modulus == 65537 && key.modulus == 65537
    {
      modulus := DefaultModulus;
      key := FheKey(0, 0, DefaultModulus);
      keyed := false;
    }

    /** keygen with the drawn secret: the public key is 7 * secret mod m,
      * which never wraps because 7 * 1000 < 65537. */
    method Keygen(secret: int)
      requires Valid() && 100 <= secret <= 1000
      modifies this
      ensures Valid() && keyed
      ensures modulus == old(modulus)
      ensures key == FheKey(secret, (secret * 7) % modulus, old(key.modulus))
      ensures key.publicKey == 7 * secret
    {
      key := key.(secretKey := secret, publicKey := Mod(secret * 7, modulus));
      keyed := true;
    }

    /** get_key: a copy of the key; once keyed, its parts are consistent. */
    function GetKey(): (k: FheKey)
      reads this
      requires Valid()
      ensures k.modulus == DefaultModulus
      ensures keyed ==> 100 <= k.secretKey <= 1000 && k.publicKey == 7 * k.secretKey
    {
      key
    }

    /** encrypt with the drawn noise r: [(p + r) mod m, r], noise field r. */
    function Encrypt(plaintext: int, noise: int): (ct: Ciphertext)
      reads this
      requires Valid() && 1 <= noise <= 10 && InInt64(plaintext) && InInt64(plaintext + noise)
      ensures |ct.data| == 2
      ensures 0 <= ct.data[0] < modulus && ct.data[0] == (plaintext + noise) % modulus
      ensures ct.data[1] == noise && ct.noise == noise as real
    {
      Ciphertext([Mod(plaintext + noise, modulus), noise], noise as real)
    }

    /** decrypt: (data[0] - data[1]) mod m. */
    function Decrypt(ct: Ciphertext): (p: int)
      reads this
      requires Valid() && |ct.data| >= 2 && InInt64(ct.data[0] - ct.data[1])
      ensures 0 <= p < modulus && p == (ct.data[0] - ct.data[1]) % modulus
    {
      Mod(ct.data[0] - ct.data[1], modulus)
    }

    /** add: component-wise sums mod m; the noise fields add up. */
    function Add(ct1: Ciphertext, ct2: Ciphertext): (ct: Ciphertext)
      reads this
      requires Valid() && |ct1.data| >= 2 && |ct2.data| >= 2
      requires InInt64(ct1.data[0] + ct2.data[0]) && InInt64(ct1.data[1] + ct2.data[1])
      ensures |ct.data| == 2
      ensures 0 <= ct.data[0] < modulus && ct.data[0] == (ct1.data[0] + ct2.data[0]) % modulus
      ensures 0 <= ct.data[1] < modulus && ct.data[1] == (ct1.data[1] + ct2.data[1]) % modulus
      ensures ct.noise == ct1.noise + ct2.noise
    {
      Ciphertext([Mod(ct1.data[0] + ct2.data[0], modulus), Mod(ct1.data[1] + ct2.data[1], modulus)],
                 ct1.noise + ct2.noise)
    }

    /** multiply: decrypt both, multiply mod m, re-encrypt under the fresh
      * noise. */
    function Multiply(ct1: Ciphertext, ct2: Ciphertext): (ct: Ciphertext)
      reads this
      requires Valid() && |ct1.data| >= 2 && |ct2.data| >= 2
      requires InInt64(ct1.data[0] - ct1.data[1]) && InInt64(ct2.data[0] - ct2.data[1])
      requires InInt64(ct1.data[1] + ct2.data[1])
      ensures |ct.data| == 2
      ensures ct.data[1] == FreshNoise(ct1, ct2) && ct.noise == ct.data[1] as real
      ensures 0 <= ct.data[0] < modulus
      ensures ct.data[0] == (Decrypt(ct1) * Decrypt(ct2) % modulus + ct.data[1]) % modulus
    {
      // p1 and p2 are mod(data[0] - data[1], modulus), decrypt's own formula
      var p1, p2 := Decrypt(ct1), Decrypt(ct2);
      var product := Mod(p1 * p2, modulus);
      var newNoise := FreshNoise(ct1, ct2);
      Ciphertext([Mod(product + newNoise, modulus), newNoise], newNoise as real)
    }
  }

  // ---------------------------------------------------------------------
  // Properties

  /** Removing an added value again restores the residue. */
  lemma ModAddSub(x: int, y: int, m: int)
    requires m > 0
    ensures ((x + y) % m - y) % m == x % m
  {
    ModAddLeft(x + y, -y, m);
  }

  /** decrypt(encrypt(p)) is p mod m, whatever noise was drawn. */
  lemma DecryptEncrypt(e: FheEngine, plaintext: int, noise: int)
    requires e.Valid() && 1 <= noise <= 10 && InInt64(plaintext) && InInt64(plaintext + noise)
    ensures e.Decrypt(e.Encrypt(plaintext, noise)) == plaintext % e.modulus
  {
    ModAddSub(plaintext, noise, e.modulus);
  }

  /** A plaintext already in [0, m) comes back unchanged. */
  lemma DecryptEncryptResidue(e: FheEngine, plaintext: int, noise: int)
    requires e.Valid() && 1 <= noise <= 10 && 0 <= plaintext < e.modulus
    ensures e.Decrypt(e.Encrypt(plaintext, noise)) == plaintext
  {
    DecryptEncrypt(e, plaintext, noise);
  }

  /** Subtracting residues of sums is the sum of residues of differences. */
  lemma ResidueOfDifferences(a0: int, a1: int, b0: int, b1: int, m: int)
    requires m > 0
    ensures ((a0 + b0) % m - (a1 + b1) % m) % m == ((a0 - a1) % m + (b0 - b1) % m) % m
  {
    var s1 := (a1 + b1) % m;
    calc {
      ((a0 + b0) % m - s1) % m;
      { ModAddLeft(a0 + b0, -s1, m); }
      (a0 + b0 - s1) % m;
      { assert a0 + b0 - s1 == a0 + b0 - (a1 + b1) + ((a1 + b1) / m) * m;
        ModShift(a0 + b0 - (a1 + b1), (a1 + b1) / m, m); }
      ((a0 - a1) + (b0 - b1)) % m;
      { ModAddLeft(a0 - a1, b0 - b1, m); }
      ((a0 - a1) % m + (b0 - b1)) % m;
      { ModAddLeft(b0 - b1, (a0 - a1) % m, m); }
      ((a0 - a1) % m + (b0 - b1) % m) % m;
    }
  }

  /** add is homomorphic: it decrypts to the sum of the decryptions mod m. */
  lemma AddHomomorphic(e: FheEngine, ct1: Ciphertext, ct2: Ciphertext)
    requires e.Valid() && |ct1.data| >= 2 && |ct2.data| >= 2
    requires InInt64(ct1.data[0] + ct2.data[0]) && InInt64(ct1.data[1] + ct2.data[1])
    requires InInt64(ct1.data[0] - ct1.data[1]) && InInt64(ct2.data[0] - ct2.data[1])
    ensures e.Decrypt(e.Add(ct1, ct2)) == (e.Decrypt(ct1) + e.Decrypt(ct2)) % e.modulus
  {
    var m := e.modulus;
    var a0, a1, b0, b1 := ct1.data[0], ct1.data[1], ct2.data[0], ct2.data[1];
    var sum := e.Add(ct1, ct2);
    assert sum.data[0] == (a0 + b0) % m && sum.data[1] == (a1 + b1) % m;
    assert e.Decrypt(ct1) == (a0 - a1) % m && e.Decrypt(ct2) == (b0 - b1) % m;
    ResidueOfDifferences(a0, a1, b0, b1, m);
  }

  /** Re-encrypting a residue under any noise decrypts back to it. */
  lemma ReencryptResidue(product: int, noise: int, m: int)
    requires m > 0 && 0 <= product < m
    ensures ((product + noise) % m - noise) % m == product
  {
    ModAddSub(product, noise, m);
    ModUnique(product, 0, m, product);
  }

  /** multiply is homomorphic: it decrypts to the product of the
    * decryptions mod m. */
  lemma MultiplyHomomorphic(e: FheEngine, ct1: Ciphertext, ct2: Ciphertext)
    requires e.Valid() && |ct1.data| >= 2 && |ct2.data| >= 2
    requires InInt64(ct1.data[0] - ct1.data[1]) && InInt64(ct2.data[0] - ct2.data[1])
    requires InInt64(ct1.data[1] + ct2.data[1])
    ensures e.Decrypt(e.Multiply(ct1, ct2)) == e.Decrypt(ct1) * e.Decrypt(ct2) % e.modulus
  {
    var prod := e.Multiply(ct1, ct2);
    var product := e.Decrypt(ct1) * e.Decrypt(ct2) % e.modulus;
    ReencryptResidue(product, prod.data[1], e.modulus);
  }
}
