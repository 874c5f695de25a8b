# Quantum register simulator and toy homomorphic engine, in Dafny

This project models the core of a small C++ state-vector quantum simulator
and the toy noise-based "homomorphic encryption" engine built next to it.

- **The register** (`Register.QubitRegister`) holds 2^n complex amplitudes.
  `apply_unitary` applies a 2^k x 2^k matrix to k target qubits. It scans
  every source index and matrix row, writes the row's bits into the target
  positions to get a destination index, and accumulates into a fresh vector.
  `measure` is a deterministic argmax: it picks the first index of largest
  squared magnitude and writes it out as a bit string, most significant qubit
  first.
- **The gate library** (`Gates`) consists of X, H, Z, CNOT, SWAP and the
  phase gate R_k. Each is a constant matrix passed to `apply_unitary`. For
  each gate, a closed form of its effect on the amplitude vector is proved
  equal to the general matrix application.
- **The QFT circuits** (`Qft`, `QftRoundTrip`): `apply_qft` and
  `apply_inverse_qft` issue fixed gate sequences from counted loops. The
  sequences are modelled as pure lists of gate descriptors. The loops are
  modelled as methods proved to run exactly those lists.
- **The accelerated multiply** (`QuantumAccel`) computes `(a * b) % m`,
  writes its low 16 bits into a 16-qubit register, and runs the QFT and its
  inverse. It then measures and decodes the bit string. The ciphertext
  variant decrypts, multiplies through the register and re-encrypts.
- **The FHE engine** (`Fhe.FheEngine`) is a toy scheme: a ciphertext of p is
  `[(p + r) mod m, r]` for a noise r, and the modulus is 65537. It provides
  keygen, encrypt, decrypt, add, multiply and get_key.

Amplitudes are exact complex numbers over `real`. The two irrational
constants are 1/sqrt(2) and cos/sin of the phase angle. They enter as a
`Gates.Numerics` value, and `Gates.Exact` states the facts the proofs need
about them:
- 2h^2 = 1;
- every rotation is a unit;
- a whole number of turns is the identity.

C++ arithmetic is written out in `CInts`:
- `%` truncates toward zero (`CInts.CRem`);
- `int` and `int64_t` overflow is undefined behaviour, so the operations
  require their values to stay in range.

Two behaviours of the code differ from the textbook circuits:
- `phase_rk(t, k)` computes its angle as 2 pi / 2^k
  (src/quantum/gates.cpp:54). With negative k that is 2^-k whole turns, so
  the gate is the identity. The inverse circuit's rotations therefore undo
  nothing, and `apply_inverse_qft` after `apply_qft` is not the identity on
  amplitudes. It multiplies each amplitude by a unit phase
  (`QftRoundTrip.QftRoundTrip`). Probabilities are unchanged, so a basis
  state is still measured back as itself (`QftRoundTrip.BasisRoundTrip`).
- `cnot(c, t)` passes `{c, t}`, so `c` is local bit 0. The matrix exchanges
  local indices 2 and 3, so it flips bit c when bit t is set
  (src/quantum/gates.cpp:33-41). H on qubit 0 of the ground state followed by
  `cnot(0, 1)` therefore changes nothing, and no weight reaches an index
  whose bit 1 is set (`Gates.CnotAfterHOnGround`).

## Model

| member | source | states |
|---|---|---|
| Register.QubitRegister.constructor | src/quantum/qubit_register.cpp:6-10 | a new n-qubit register holds 2^n amplitudes: one at index 0, zero elsewhere (the basis state 0) |
| Register.QubitRegister.Size | src/quantum/qubit_register.cpp:12-14 | the size n is the qubit count with 2^n amplitudes |
| Register.QubitRegister.GetAmplitude | src/quantum/qubit_register.cpp:16-18 | get_amplitude(s) is the amplitude whose squared magnitude is the probability measure weighs s by; the index must be in range, as the source does not check it |
| Register.QubitRegister.SetAmplitude | src/quantum/qubit_register.cpp:16-22 | after set_amplitude(s, v), get_amplitude(s) is v and every other amplitude is unchanged; the index must be in range, as the source does not check it |
| Register.QubitRegister.ApplyUnitary | src/quantum/qubit_register.cpp:24-55 | the scan-and-accumulate loops leave the vector equal to the gather form `Applied`: the new amplitude at d is the sum over local columns c of u[local(d)][c] * a[d with its target bits set to c]; length and qubit count are unchanged |
| Register.LocalIndex | src/quantum/qubit_register.cpp:31-36 | the target-bit loop computes the local column index: bit i is the state's bit at targets[i] |
| Register.ExtractPrefixStep | src/quantum/qubit_register.cpp:33-35 | each `|= (1 << i)` step adds the next target bit to the local index |
| Register.Destination | src/quantum/qubit_register.cpp:39-48 | the OR/AND-mask loop computes the index whose target bits are those of the row and whose other bits are those of the source |
| Bits.DepositKeepsOtherBits | src/quantum/qubit_register.cpp:42-48 | the destination index agrees with the source index on every non-target bit |
| Bits.DepositSetsTargets | src/quantum/qubit_register.cpp:42-48 | bit targets[i] of the destination index is bit i of the row |
| Bits.ExtractDeposit | src/quantum/qubit_register.cpp:31-48 | extracting the target bits of a destination gives back the row written into it |
| Bits.SourceOfDestination | src/quantum/qubit_register.cpp:38-50 | (source, row) lands on d with column c exactly when d's column c points back at the source and d's local index is the row |
| Register.ScatteredStep | src/quantum/qubit_register.cpp:50 | one `+=` adds u[row][local(state)] * a[state] at the destination index and changes no other entry of the partial sums |
| Register.QubitRegister.Measure | src/quantum/qubit_register.cpp:57-73 | measure returns exactly num_qubits characters spelling, most significant qubit first, the first index of largest squared magnitude; it changes nothing |
| Register.MaxElement | src/quantum/qubit_register.cpp:65 | max_element returns the first index holding the largest probability |
| Register.FirstMaxIsFirstMax | src/quantum/qubit_register.cpp:65 | the chosen index is maximal, and every index before it is strictly smaller |
| Register.FirstMaxOfStrictMax | src/quantum/qubit_register.cpp:65 | an index strictly larger than all others is the one measure picks |
| Register.QubitRegister.Reset | src/quantum/qubit_register.cpp:75-78 | reset restores the basis state 0 without changing the length or the qubit count |
| Gates.XMatrix | src/quantum/gates.cpp:9-12 | the x matrix is 2 x 2, matching its one target |
| Gates.HMatrix | src/quantum/gates.cpp:18-21 | the h matrix is 2 x 2 |
| Gates.ZMatrix | src/quantum/gates.cpp:26-29 | the z matrix is 2 x 2 |
| Gates.CnotMatrix | src/quantum/gates.cpp:34-39 | the cnot matrix is 4 x 4, matching its two targets |
| Gates.SwapMatrix | src/quantum/gates.cpp:44-49 | the swap matrix is 4 x 4 |
| Gates.PhaseMatrix | src/quantum/gates.cpp:56-59 | the phase_rk matrix is 2 x 2 |
| Gates.X | src/quantum/gates.cpp:8-14 | x(t) moves the amplitude at s xor 2^t to s |
| Gates.XApplied | src/quantum/gates.cpp:8-14 | the x matrix applied to [t] is the bit-t flip of indices |
| Gates.XTwice | src/quantum/gates.cpp:8-14 | x twice restores the vector exactly |
| Gates.H | src/quantum/gates.cpp:16-23 | h(t) replaces each pair differing only in bit t by h times their sum (bit t clear) and difference (bit t set) |
| Gates.HApplied | src/quantum/gates.cpp:16-23 | the h matrix applied to [t] is that pairwise sum/difference |
| Gates.HActPair | src/quantum/gates.cpp:16-23 | h only mixes the two amplitudes of a pair that differ solely in bit t |
| Gates.HTwice | src/quantum/gates.cpp:16-23 | with 2h^2 = 1, h twice restores the vector |
| Gates.Z | src/quantum/gates.cpp:25-31 | z(t) negates exactly the amplitudes whose bit t is set |
| Gates.ZApplied | src/quantum/gates.cpp:25-31 | the z matrix applied to [t] is that sign change |
| Gates.ZTwice | src/quantum/gates.cpp:25-31 | z twice restores the vector |
| Gates.Cnot | src/quantum/gates.cpp:33-41 | cnot(c, t) moves the amplitude at s with bit c flipped to s exactly when bit t of s is set |
| Gates.CnotApplied | src/quantum/gates.cpp:33-41 | the cnot matrix applied to [c, t] flips bit c (local bit 0) when bit t (local bit 1) is set |
| Gates.CnotTwice | src/quantum/gates.cpp:33-41 | cnot with distinct qubits twice restores the vector |
| Gates.CnotIdleWithoutTarget | src/quantum/gates.cpp:33-41 | cnot changes nothing while every amplitude with the target bit set is zero |
| Gates.CnotAfterHOnGround | src/quantum/gates.cpp:16-41 | h(0) then cnot(0, 1) on the ground state leaves h's output unchanged, with zero weight wherever bit 1 is set |
| Gates.Swap | src/quantum/gates.cpp:43-51 | swap(p, q) moves the amplitude at s with bits p and q exchanged to s |
| Gates.SwapApplied | src/quantum/gates.cpp:43-51 | the swap matrix applied to [p, q] exchanges bits p and q of indices |
| Gates.SwapTwice | src/quantum/gates.cpp:43-51 | swap twice restores the vector |
| Gates.SwapFixes | src/quantum/gates.cpp:43-51 | swap fixes every amplitude whose bits p and q agree |
| Gates.PhaseRk | src/quantum/gates.cpp:53-61 | phase_rk(t, k) multiplies the amplitudes with bit t set by the rotation of 1/2^k turns and leaves the rest unchanged |
| Gates.PhaseApplied | src/quantum/gates.cpp:53-61 | the phase matrix applied to [t] is that diagonal scaling |
| Gates.PhaseTurns | src/quantum/gates.cpp:54 | for negative k the angle 2 pi / 2^k is a whole number of turns |
| Gates.PhaseFactorFacts | src/quantum/gates.cpp:54-55 | every phase factor is a unit, and for negative k it is exactly 1 |
| Gates.PhaseOne | src/quantum/gates.cpp:53-61 | a phase of exactly 1 is the identity, so phase_rk with negative k changes nothing |
| Qft.ForwardBlock | src/quantum/qft.cpp:9-15 | one pass of the first loop runs h(i) then phase_rk(j, j-i+1) for j = i+1 .. n-1 |
| Qft.SwapStage | src/quantum/qft.cpp:17-19 | the swap loop runs swap(i, n-1-i) for i below n/2 |
| Qft.ApplyQft | src/quantum/qft.cpp:6-20 | apply_qft leaves the register equal to running the list `Forward(n)`: blocks for ascending i, then the swaps |
| Qft.InverseBlock | src/quantum/qft.cpp:29-35 | one pass of the descending loop runs phase_rk(j, -(j-i+1)) for j = n-1 down to i+1, then h(i) |
| Qft.ApplyInverseQft | src/quantum/qft.cpp:22-36 | apply_inverse_qft leaves the register equal to running `Inverse(n)`: the swaps, then blocks for descending i |
| Qft.PhasesUpForm | src/quantum/qft.cpp:11-14 | block i's phases are phase_rk(i+1+m, m+2): ascending targets, every k at least 2 |
| Qft.PhasesDownForm | src/quantum/qft.cpp:30-33 | the inverse phases of block i run from qubit n-1 down with exponents -(j-i+1) |
| Qft.SwapsForm | src/quantum/qft.cpp:17-19 | the swap list is swap(m, n-1-m) for m below n/2 |
| Qft.SwapsDisjoint | src/quantum/qft.cpp:17-19 | the swap pairs name distinct qubits below n, no qubit is in two pairs, and for odd n the middle qubit is in none |
| Qft.Forward | src/quantum/qft.cpp:6-20 | every gate apply_qft issues targets qubits in [0, n) |
| Qft.Inverse | src/quantum/qft.cpp:22-36 | every gate apply_inverse_qft issues targets qubits in [0, n) |
| Qft.ForwardCounts | src/quantum/qft.cpp:9-19 | apply_qft issues n H gates, n(n-1)/2 phase gates and n/2 swaps, nothing else |
| Qft.InverseIsReversedForward | src/quantum/qft.cpp:22-36 | the inverse is the same swaps followed by the forward H/phase part reversed with every k negated |
| Qft.SmallCircuits | src/quantum/qft.cpp:6-36 | for n = 0 neither circuit issues a gate; for n = 1 each issues only h(0) |
| QftRoundTrip.TotalPhaseUnit | src/quantum/qft.cpp:11-14 | the phase the forward rotations leave on an index has magnitude 1 |
| QftRoundTrip.MiddleCancels | src/quantum/qft.cpp:9-15 | the inverse blocks after the forward blocks cancel every h and leave only the forward phases |
| QftRoundTrip.SwapStageReverses | src/quantum/qft.cpp:17-19 | the swap stage reverses the qubit order: bit j of the source index is bit n-1-j of the destination |
| QftRoundTrip.SwapStageTwice | src/quantum/qft.cpp:17-19 | running the swap stage twice restores the vector |
| QftRoundTrip.QftRoundTrip | src/quantum/qft.cpp:6-36 | apply_inverse_qft after apply_qft multiplies every amplitude by the unit phase of the forward rotations |
| QftRoundTrip.RoundTripProbabilities | src/quantum/qft.cpp:6-36 | the round trip changes no measurement probability |
| QftRoundTrip.BasisRoundTrip | src/quantum/qft.cpp:6-36 | after the round trip a basis state v is what measure picks |
| QuantumAccel.TruncatedProduct | src/quantum_accelerated_ops.cpp:12-13 | encoded_val as the two C++ remainders compute it: for a non-negative product it lies in [0, 2^16), is the residue (a*b) % m cut to 16 bits, and equals that residue whenever it is below 2^16; for a negative product it lies in (-2^16, 0] |
| QuantumAccel.Encode | src/quantum_accelerated_ops.cpp:15-19 | x on the set bits of the value turns the ground state into the basis state of the value |
| QuantumAccel.Decode | src/quantum_accelerated_ops.cpp:27-32 | the decode loop sets bit i exactly when the character len-1-i places in is '1', giving the string's value read most significant first |
| QuantumAccel.ValueOfBitString | src/quantum_accelerated_ops.cpp:27-32 | decoding measure's n-character string of v gives v mod 2^n, so it inverts the rendering for v < 2^n |
| QuantumAccel.RegisterRoundTrip | src/quantum_accelerated_ops.cpp:15-32 | encode, QFT, inverse QFT, measure and decode return the encoded value; the register is left valid, of the same width, holding the basis state of the value times the unit phases the round trip adds |
| QuantumAccel.QuantumModularMultiply | src/quantum_accelerated_ops.cpp:8-35 | quantum_modular_multiply returns ((a*b) % m) % 2^16 |
| QuantumAccel.TruncationExactIff | src/quantum_accelerated_ops.cpp:12-13 | for a non-negative product, the result equals the true residue if and only if the residue is below 2^16 |
| QuantumAccel.TruncationUnderDefaultModulus | src/quantum_accelerated_ops.cpp:13 | for a non-negative product under modulus 65537, only the residue 65536 is lost and it comes back as 0, as for 256 * 256 |
| QuantumAccel.DecryptedOperand | src/quantum_accelerated_ops.cpp:40-41 | (d0 - d1 + m) % m is the residue decrypt computes, in [0, m), whenever the sum is not negative |
| QuantumAccel.QuantumProduct | src/quantum_accelerated_ops.cpp:40-44 | the product quantum_multiply encrypts lies in [0, m) and below 2^16 |
| QuantumAccel.ReencryptCRem | src/quantum_accelerated_ops.cpp:48 | adding the noise with C++ % and removing it with mod gives the product back |
| QuantumAccel.QuantumMultiply | src/quantum_accelerated_ops.cpp:37-53 | the result is [(product + noise) % m, noise] with the fresh noise, and it decrypts to the register's product |
| QuantumAccel.QuantumAgreesWithMultiply | src/quantum_accelerated_ops.cpp:37-53 | quantum_multiply's product equals what fhe_engine::multiply decrypts to if and only if the true product residue is not 65536 |
| CInts.CRem | src/fhe/fhe_engine.cpp:10 | the C++ remainder: below the divisor in magnitude, signed like the dividend, and congruent to it |
| CInts.CRemNonNegative | src/quantum_accelerated_ops.cpp:12 | for a non-negative dividend the C++ remainder is the Euclidean one |
| Fhe.Mod | src/fhe/fhe_engine.cpp:9-13 | for m > 0, mod(a, m) lies in [0, m) and is the residue of a despite C++ truncation |
| Fhe.FheEngine.constructor | src/fhe/fhe_engine.cpp:5-7 | the modulus and the key's modulus are both 65537 |
| Fhe.FheEngine.Keygen | src/fhe/fhe_engine.cpp:15-22 | with the drawn secret in [100, 1000] the key is (secret, secret*7 mod m, m), and the public key is exactly 7 * secret |
| Fhe.FheEngine.GetKey | src/fhe/fhe_engine.cpp:71-73 | the key returned carries modulus 65537 and, once keyed, a public key of 7 * secret |
| Fhe.FheEngine.Encrypt | src/fhe/fhe_engine.cpp:24-37 | with the drawn noise r in [1, 10], encrypt(p) is exactly [(p + r) mod m, r] with noise field r |
| Fhe.FheEngine.Decrypt | src/fhe/fhe_engine.cpp:39-43 | decrypt is (data[0] - data[1]) mod m, in [0, m) |
| Fhe.FheEngine.Add | src/fhe/fhe_engine.cpp:45-53 | add gives the component sums mod m, and the noise fields add up |
| Fhe.FheEngine.Multiply | src/fhe/fhe_engine.cpp:55-69 | multiply re-encrypts the product of the decryptions mod m under the fresh noise, and the noise field equals that noise |
| Fhe.FreshNoise | src/fhe/fhe_engine.cpp:62 | the fresh noise lies in [1, 50] for non-negative noise words, and in [-48, 50] always |
| Fhe.DecryptEncrypt | src/fhe/fhe_engine.cpp:24-43 | decrypt(encrypt(p)) is p mod m, whatever noise was drawn |
| Fhe.DecryptEncryptResidue | src/fhe/fhe_engine.cpp:24-43 | a plaintext in [0, m) survives encryption and decryption unchanged |
| Fhe.AddHomomorphic | src/fhe/fhe_engine.cpp:45-53 | decrypt(add(c1, c2)) = (decrypt(c1) + decrypt(c2)) mod m |
| Fhe.MultiplyHomomorphic | src/fhe/fhe_engine.cpp:55-69 | decrypt(multiply(c1, c2)) = (decrypt(c1) * decrypt(c2)) mod m |

## Left out

- Floating point: `std::complex<double>`, `std::sqrt`, `std::cos`, `std::sin`, `std::pow` and `std::norm` are exact reals here. 1/sqrt(2) and the rotations are the `Numerics` parameter, and the round-trip results require `Exact` values. Rounding and tolerance bounds are not modelled.
- Randomness: the secret drawn by `keygen` and the noise drawn by `encrypt` are parameters restricted to the ranges their distributions draw from.
- The qubit count is an unbounded `nat`: the `int` shift `1 << n` overflowing for n of 31 or more is not modelled.
- Register.QubitRegister.ApplyUnitary: requires distinct target qubits below n and a 2^k x 2^k matrix. The source checks none of this, and its behaviour outside it is not modelled.
- Gates.Swap: requires two distinct qubits. swap(q, q) passes a repeated target, which is outside `ApplyUnitary`'s contract.
- Gates.Cnot: requires distinct control and target, for the same reason.
- Register.QubitRegister.GetAmplitude: its own ensures ties the value only to the measurement weight of the index. The value itself is pinned down through `SetAmplitude`: set then get returns the value set.
- Fhe.Mod: states nothing for a non-positive modulus; the engine only ever uses 65537.
- Fhe.FheEngine.constructor: the key's secret and public parts are uninitialised in the source until `keygen`. The model sets them to 0, and the ghost flag `keyed` records whether they are meaningful.
- Fhe.FheEngine.Encrypt, Fhe.FheEngine.Add and Fhe.FheEngine.Multiply: `int64_t` overflow is undefined behaviour, so the sums and differences are required to fit in 64 bits. Multiply's product of two residues below 65537 always fits.
- QuantumAccel.TruncationExactIff: stated only for a non-negative product. A negative product gives a non-positive encoded value, and `quantum_multiply` only passes decrypted residues, which are non-negative.
- QuantumAccel.TruncationUnderDefaultModulus: stated only for a non-negative product, for the same reason.
- QuantumAccel.QuantumModularMultiply: the operands must be non-negative and `a * b` must fit in 32 bits. Negative operands, with C++ `%` and two's-complement bit tests, are not modelled.
- QuantumAccel.QuantumMultiply: requires `data[0] - data[1] + m` to be non-negative for both operands, and the product of the two residues to fit in 32 bits. This covers ciphertexts whose words lie in [0, m) and whose residues multiply below 2^31. Larger residue products overflow `int` in the source and are not modelled.
- The ciphertext's `double` noise field is a `real`. Only the whole numbers the engine stores in it are modelled.
- The driver program (src/main.cpp) is not part of this model: console output, timing and fidelity reports on doubles.
- No claim that the circuit computes the discrete Fourier transform. Its phase gates act on one qubit without a control, so only the structural and round-trip facts are proved.
- The header files only declare what the `.cpp` files define; their fields appear as the class fields here.
