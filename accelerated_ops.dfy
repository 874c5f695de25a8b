/**
 * The "quantum accelerated" modular multiplication.
 *
 * quantum_modular_multiply computes (a * b) mod m classically, writes its
 * low 16 bits into a fresh 16-qubit register with X gates, runs the QFT and
 * the inverse QFT, measures, and reads the measured bit string back into an
 * integer. quantum_multiply uses it on two decrypted ciphertexts and
 * re-encrypts the product the way fhe_engine::multiply does.
 *
 * The round trip through the register is proved (in exact arithmetic) to
 * return the encoded value, so the result is ((a * b) mod m) mod 2^16: a
 * residue of 65536 under the engine's modulus 65537 comes back as 0.
 */
module QuantumAccel {
  import opened Bits
  import opened CInts
  import opened Register
  import opened Gates
  import opened Qft
  import opened QftRoundTrip
  import opened Fhe

  /** The register width quantum_modular_multiply allocates. */
  const NumQubits: nat := 16

  /** encoded_val: the C++ remainder of the product by m, then by the
    * register's size 2^16. For a non-negative product it is the residue
    * cut to 16 bits; for a negative one it is not positive. */
  function TruncatedProduct(a: int, b: int, m: int): (r: int)
    requires m > 0
    ensures a * b >= 0 ==> 0 <= r < 65536 && r == ((a * b) % m) % 65536
    ensures a * b >= 0 && (a * b) % m < 65536 ==> r == (a * b) % m
    ensures a * b <= 0 ==> -65536 < r <= 0
  {
    Pow2Sixteen();
    var x := a * b;
    if x >= 0 then CutResidue(x, m); CRem(CRem(x, m), Pow2(NumQubits))
    else CRem(CRem(x, m), Pow2(NumQubits))
  }

  /** For a non-negative x the two C++ remainders are Euclidean ones, and a
    * residue below 2^16 survives the cut. */
  lemma CutResidue(x: int, m: int)
    requires x >= 0 && m > 0
    ensures Pow2(NumQubits) == 65536
    ensures CRem(CRem(x, m), Pow2(NumQubits)) == (x % m) % 65536
    ensures x % m < 65536 ==> (x % m) % 65536 == x % m
  {
    Pow2Sixteen();
    CRemNonNegative(x, m);
    CRemNonNegative(x % m, 65536);
    if x % m < 65536 {
      ModUnique(x % m, 0, 65536, x % m);
    }
  }

  lemma Pow2Sixteen()
    ensures Pow2(NumQubits) == 65536
  {
    assert Pow2(4) == 16;
    assert Pow2(8) == 2 * 2 * 2 * 2 * Pow2(4);
    assert Pow2(12) == 2 * 2 * 2 * 2 * Pow2(8);
  }

  // ---------------------------------------------------------------------
  // Encoding and decoding one bit at a time

  /** The remainder by 2p splits into the remainder by p and the parity of
    * the quotient by p. */
  lemma ModDouble(v: nat, p: nat)
    requires p >= 1
    ensures v % (2 * p) == v % p + ((v / p) % 2) * p
  {
    var q, r := v / p, v % p;
    var h, b := q / 2, q % 2;
    assert v == q * p + r;
    assert q * p == h * (2 * p) + b * p by {
      assert q == 2 * h + b;
    }
    assert b * p + r < 2 * p by {
      if b == 1 { } else { assert b == 0; }
    }
    ModUnique(v, h, 2 * p, b * p + r);
  }

  /** The low i+1 bits of v are its low i bits plus bit i in place i. */
  lemma LowBitsStep(v: nat, i: nat)
    ensures v % Pow2(i + 1) == v % Pow2(i) + Bit(v, i) * Pow2(i)
  {
    BitIsShiftAndMask(v, i);
    ModDouble(v, Pow2(i));
  }

  /** Setting bit i above the low i bits of v adds 2^i. */
  lemma SetAboveLowBits(v: nat, i: nat)
    ensures SetBit(v % Pow2(i), i, 1) == v % Pow2(i) + Pow2(i)
    ensures FlipBit(v % Pow2(i), i) == v % Pow2(i) + Pow2(i)
  {
    var low := v % Pow2(i);
    BitAboveWidth(low, i, i);
    SetBitAbove(low, i);
  }

  /** x(t) on a basis state moves it to the index with bit t flipped. */
  lemma XOnBasis(n: nat, v: nat, t: nat)
    requires v < Pow2(n) && t < n
    ensures FlipBit(v, t) < Pow2(n)
    ensures XAct(Basis(n, v), t, n) == Basis(n, FlipBit(v, t))
  {
    FlipBitBound(v, t, n);
    var w := FlipBit(v, t);
    var a, b := XAct(Basis(n, v), t, n), Basis(n, w);
    forall s | 0 <= s < |a|
      ensures a[s] == b[s]
    {
      FlipBitBound(s, t, n);
      FlipBitTwice(s, t);
      FlipBitTwice(v, t);
      assert (FlipBit(s, t) == v) == (s == w);
    }
  }

  /** One pass of the encode loop: the low i+1 bits of v, where x(i) has
    * been applied exactly when bit i of v is set. */
  lemma EncodeStep(v: nat, i: nat, n: nat, low: nat)
    requires i < n && low == v % Pow2(i)
    ensures low < Pow2(n) && v % Pow2(i + 1) < Pow2(n)
    ensures Bit(v, i) == 1 ==> FlipBit(low, i) == v % Pow2(i + 1)
    ensures Bit(v, i) == 0 ==> low == v % Pow2(i + 1)
  {
    LowBitsStep(v, i);
    SetAboveLowBits(v, i);
    Pow2Monotone(i + 1, n);
  }

  /** The encode loop: x(i) for every set bit i of encoded, starting from
    * the ground state, leaves the register in the basis state `encoded`. */
  method Encode(qreg: QubitRegister, encoded: nat)
    requires qreg.Valid() && qreg.amplitudes == Basis(qreg.numQubits, 0)
    requires encoded < Pow2(qreg.numQubits)
    modifies qreg
    ensures qreg.Valid() && qreg.numQubits == old(qreg.numQubits)
    ensures qreg.amplitudes == Basis(qreg.numQubits, encoded)
  {
    var n := qreg.Size();
    var i := 0;
    ghost var low: nat := 0;
    while i < n
      invariant 0 <= i <= n
      invariant qreg.Valid() && qreg.numQubits == n
      invariant low == encoded % Pow2(i) && low < Pow2(n)
      invariant qreg.amplitudes == Basis(n, low)
    {
      EncodeStep(encoded, i, n, low);
      if Bit(encoded, i) == 1 {
        XOnBasis(n, low, i);
        X(qreg, i);
        low := FlipBit(low, i);
      }
      i := i + 1;
    }
    ModUnique(encoded, 0, Pow2(n), encoded);
  }

  /** The number a bit string spells, most significant character first,
    * reading every character other than '1' as a zero bit. */
  function Value(s: string): (v: nat)
    ensures v < Pow2(|s|)
  {
    if s == [] then 0 else (if s[0] == '1' then Pow2(|s| - 1) else 0) + Value(s[1..])
  }

  /** Value inverts measure's rendering: reading back the n-digit string of
    * v gives the low n bits of v, that is v itself when v < 2^n. */
  lemma {:induction false} ValueOfBitString(v: nat, n: nat)
    ensures Value(BitString(v, n)) == v % Pow2(n)
  {
    if n == 0 {
      ModUnique(v, v, 1, 0);
    } else {
      var k := n - 1;
      var s := BitString(v, n);
      assert s == [BitChar(Bit(v, k))] + BitString(v, k);
      assert s[1..] == BitString(v, k);
      ValueOfBitString(v, k);
      assert Value(s) == Bit(v, k) * Pow2(k) + v % Pow2(k);
      LowBitsStep(v, k);
      assert k + 1 == n;
    }
  }

  /** The decode loop: bit i of the result is set when the character i
    * places from the end of the string is '1'. */
  method Decode(resultBits: string) returns (result: nat)
    ensures result == Value(resultBits)
  {
    var len := |resultBits|;
    result := 0;
    var i := 0;
    while i < len
      invariant 0 <= i <= len
      invariant result == Value(resultBits[len - i..])
    {
      var k := len - 1 - i;
      assert resultBits[k..][1..] == resultBits[len - i..];
      if resultBits[k] == '1' {
        SetBitAbove(result, i);
        result := SetBit(result, i, 1);
      }
      i := i + 1;
    }
    assert resultBits[len - i..] == resultBits;
  }

  // ---------------------------------------------------------------------
  // The operations

  /** The register part of quantum_modular_multiply: encode a value into a
    * ground-state register, run the QFT and its inverse, measure and decode.
    * In exact arithmetic the value comes back unchanged, and the register is
    * left holding the basis state of the value times the round trip's unit
    * phases (the source then discards it). */
  method RegisterRoundTrip(qreg: QubitRegister, value: nat, nm: Numerics) returns (result: nat)
    requires Exact(nm) && qreg.Valid() && qreg.amplitudes == Basis(qreg.numQubits, 0)
    requires value < Pow2(qreg.numQubits)
    modifies qreg
    ensures result == value
    ensures qreg.Valid() && qreg.numQubits == old(qreg.numQubits)
    ensures qreg.amplitudes == Scaled(Basis(qreg.numQubits, value), nm, 0, qreg.numQubits)
  {
    var n := qreg.Size();
    Encode(qreg, value);
    ghost var encoded := qreg.amplitudes;

    ApplyQft(qreg, nm);
    ApplyInverseQft(qreg, nm);
    assert qreg.amplitudes == Run(Run(encoded, Forward(n), nm, n), Inverse(n), nm, n);
    BasisRoundTrip(value, nm, n);
    QftRoundTrip.QftRoundTrip(encoded, nm, n);

    var resultBits := qreg.Measure();
    assert resultBits == BitString(value, n);
    ValueOfBitString(value, n);
    ModUnique(value, 0, Pow2(n), value);
    result := Decode(resultBits);
  }

  /** quantum_modular_multiply(a, b, modulus). The int product must not
    * overflow, and the operands are taken non-negative. */
  method QuantumModularMultiply(a: int, b: int, modulus: int, nm: Numerics) returns (result: int)
    requires Exact(nm)
    requires 0 <= a && 0 <= b && 0 < modulus
    requires InInt32(a) && InInt32(b) && InInt32(modulus) && InInt32(a * b)
    ensures result == TruncatedProduct(a, b, modulus)
  {
    var qreg := new QubitRegister(NumQubits);
    Pow2Sixteen();

    var product := CRem(a * b, modulus);
    var encodedVal := CRem(product, Pow2(NumQubits));
    assert encodedVal == TruncatedProduct(a, b, modulus);

    result := RegisterRoundTrip(qreg, encodedVal, nm);
  }

  /** Adding a noise with the C++ remainder and subtracting it again with
    * fhe_engine::mod gives back a residue, whatever the noise's sign. */
  lemma ReencryptCRem(product: int, noise: int, m: int)
    requires m > 0 && 0 <= product < m
    ensures Mod(CRem(product + noise, m) - noise, m) == product
  {
    var c := CRem(product + noise, m);
    var k := (product + noise - c) / m;
    ModUnique(product + noise - c, k, m, 0);
    assert c - noise == product + (-k) * m;
    ModShift(product, -k, m);
    ModUnique(product, 0, m, product);
  }

  /** quantum_multiply(ct1, ct2, key): decrypt both operands as
    * (data[0] - data[1] + m) % m, multiply through the register, and
    * re-encrypt under the noise fhe_engine::multiply attaches. */
  method QuantumMultiply(ct1: Ciphertext, ct2: Ciphertext, key: FheKey, nm: Numerics)
    returns (result: Ciphertext)
    requires Exact(nm)
    requires |ct1.data| >= 2 && |ct2.data| >= 2
    requires 0 < key.modulus && InInt32(key.modulus)
    requires 0 <= ct1.data[0] - ct1.data[1] + key.modulus && InInt64(ct1.data[0] - ct1.data[1] + key.modulus)
    requires 0 <= ct2.data[0] - ct2.data[1] + key.modulus && InInt64(ct2.data[0] - ct2.data[1] + key.modulus)
    requires InInt32(((ct1.data[0] - ct1.data[1]) % key.modulus) * ((ct2.data[0] - ct2.data[1]) % key.modulus))
    requires InInt64(ct1.data[1] + ct2.data[1])
    ensures |result.data| == 2
    ensures result.data[1] == FreshNoise(ct1, ct2) && result.noise == result.data[1] as real
    ensures result.data[0] == CRem(QuantumProduct(ct1, ct2, key.modulus) + result.data[1], key.modulus)
    ensures Mod(result.data[0] - result.data[1], key.modulus) == QuantumProduct(ct1, ct2, key.modulus)
  {
    var m := key.modulus;
    var p1 := CRem(ct1.data[0] - ct1.data[1] + m, m);
    var p2 := CRem(ct2.data[0] - ct2.data[1] + m, m);
    DecryptedOperand(ct1, m);
    DecryptedOperand(ct2, m);
    assert InInt32(p1 * p2) && p1 * p2 >= 0;

    var product := QuantumModularMultiply(p1, p2, m, nm);
    assert product == QuantumProduct(ct1, ct2, m);

    var newNoise := CRem(ct1.data[1] + ct2.data[1], 50) + 1;

    ReencryptCRem(product, newNoise, m);
    result := Ciphertext([CRem(product + newNoise, m), newNoise], newNoise as real);
  }

  /** The product quantum_multiply encrypts: the decrypted operands'
    * product residue, cut to 16 bits. */
  function QuantumProduct(ct1: Ciphertext, ct2: Ciphertext, m: int): (r: int)
    requires |ct1.data| >= 2 && |ct2.data| >= 2 && m > 0
    ensures 0 <= r < m && r < 65536
  {
    TruncatedProduct((ct1.data[0] - ct1.data[1]) % m, (ct2.data[0] - ct2.data[1]) % m, m)
  }

  /** quantum_multiply's (data[0] - data[1] + m) % m is the residue
    * fhe_engine::decrypt computes, when the sum is not negative. */
  lemma DecryptedOperand(ct: Ciphertext, m: int)
    requires |ct.data| >= 2 && m > 0 && 0 <= ct.data[0] - ct.data[1] + m
    ensures CRem(ct.data[0] - ct.data[1] + m, m) == (ct.data[0] - ct.data[1]) % m
  {
    CRemNonNegative(ct.data[0] - ct.data[1] + m, m);
    ModShift(ct.data[0] - ct.data[1], 1, m);
  }

  // ---------------------------------------------------------------------
  // Against fhe_engine::multiply

  /** The register's 16 bits lose exactly the residues from 65536 up: the
    * truncated product equals the true residue if and only if the residue
    * is below 2^16. */
  lemma TruncationExactIff(a: int, b: int, m: int)
    requires m > 0 && a * b >= 0
    ensures TruncatedProduct(a, b, m) == (a * b) % m <==> (a * b) % m < 65536
  {
  }

  /** Under the engine's modulus 65537 the only residue lost is 65536,
    * which comes back as 0: 256 * 256 is one such product. */
  lemma TruncationUnderDefaultModulus(a: int, b: int)
    requires a * b >= 0
    ensures (a * b) % DefaultModulus != 65536 ==> TruncatedProduct(a, b, DefaultModulus) == (a * b) % DefaultModulus
    ensures (a * b) % DefaultModulus == 65536 ==> TruncatedProduct(a, b, DefaultModulus) == 0
    ensures TruncatedProduct(256, 256, DefaultModulus) == 0 && (256 * 256) % DefaultModulus == 65536
  {
    Pow2Sixteen();
    ModUnique(65536, 1, 65536, 0);
    ModUnique(256 * 256, 0, DefaultModulus, 65536);
  }

  /** quantum_multiply decrypts to what fhe_engine::multiply decrypts to,
    * except when the true product residue is 65536. */
  lemma QuantumAgreesWithMultiply(e: FheEngine, ct1: Ciphertext, ct2: Ciphertext)
    requires e.Valid() && |ct1.data| >= 2 && |ct2.data| >= 2
    requires InInt64(ct1.data[0] - ct1.data[1]) && InInt64(ct2.data[0] - ct2.data[1])
    requires InInt64(ct1.data[1] + ct2.data[1])
    ensures var quantum := TruncatedProduct((ct1.data[0] - ct1.data[1]) % e.modulus,
                                            (ct2.data[0] - ct2.data[1]) % e.modulus, e.modulus);
            quantum == e.Decrypt(e.Multiply(ct1, ct2)) <==>
            e.Decrypt(ct1) * e.Decrypt(ct2) % e.modulus != 65536
  {
    var d1, d2 := e.Decrypt(ct1), e.Decrypt(ct2);
    assert 0 <= d1 && 0 <= d2;
    assert d1 * d2 >= 0;
    MultiplyHomomorphic(e, ct1, ct2);
    assert e.Decrypt(e.Multiply(ct1, ct2)) == d1 * d2 % DefaultModulus;
    assert (ct1.data[0] - ct1.data[1]) % e.modulus == d1;
    assert (ct2.data[0] - ct2.data[1]) % e.modulus == d2;
    TruncationUnderDefaultModulus(d1, d2);
  }
}
