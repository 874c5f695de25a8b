/**
 * The state register of the simulator (src/quantum/qubit_register.cpp).
 *
 * An n-qubit register owns 2^n amplitudes; index s is the basis state whose
 * qubit i is bit i of s. Gates are applied by `ApplyUnitary`, which scans
 * every (source index, matrix row) pair and accumulates into a fresh vector.
 * Its specification is the "gather" form `Applied`: the new amplitude at d
 * is the sum over the local column c of u[local(d)][c] times the old
 * amplitude at d with its target bits overwritten by c.
 */
module Register {
  import opened Bits
  import opened Complexes

  type Amplitudes = seq<Complex>
  type Matrix = seq<seq<Complex>>

  /** A dim x dim matrix. */
  ghost predicate IsSquare(u: Matrix, dim: nat)
  {
    |u| == dim && forall r :: 0 <= r < |u| ==> |u[r]| == dim
  }

  /** What apply_unitary needs of its arguments but never checks: a
    * vector of 2^n amplitudes, a 2^k x 2^k matrix for k targets, and k
    * distinct targets below n. */
  ghost predicate Fits(a: Amplitudes, u: Matrix, targets: seq<nat>, n: nat)
  {
    |a| == Pow2(n) && IsSquare(u, Pow2(|targets|)) && ValidTargets(targets, n)
  }

  /** The basis state |v> of an n-qubit register. */
  function Basis(n: nat, v: nat): (a: Amplitudes)
    requires v < Pow2(n)
    ensures |a| == Pow2(n) && a[v] == One
    ensures forall s :: 0 <= s < |a| && s != v ==> a[s] == Zero
  {
    seq(Pow2(n), s => if s == v then One else Zero)
  }

  /** The contribution of local column c to destination index d. */
  function Term(a: Amplitudes, u: Matrix, targets: seq<nat>, n: nat, d: nat, c: nat): Complex
    requires Fits(a, u, targets, n) && d < |a| && c < Pow2(|targets|)
  {
    DepositBound(d, targets, c, n);
    Mul(u[Extract(d, targets)][c], a[Deposit(d, targets, c)])
  }

  /** The sum of the contributions of local columns 0 .. m-1 to index d. */
  function Gather(a: Amplitudes, u: Matrix, targets: seq<nat>, n: nat, d: nat, m: nat): Complex
    requires Fits(a, u, targets, n) && d < |a| && m <= Pow2(|targets|)
  {
    if m == 0 then Zero else Add(Gather(a, u, targets, n, d, m - 1), Term(a, u, targets, n, d, m - 1))
  }

  /** The amplitudes after applying u to the targets. */
  function Applied(a: Amplitudes, u: Matrix, targets: seq<nat>, n: nat): (r: Amplitudes)
    requires Fits(a, u, targets, n)
    ensures |r| == |a|
  {
    seq(|a|, d requires 0 <= d < |a| => Gather(a, u, targets, n, d, Pow2(|targets|)))
  }

  // ---------------------------------------------------------------------
  // The scan order of apply_unitary

  /** Has the pair (source src, row r) been visited by the time the scan
    * reaches (state, row)? Sources go up one by one, rows inside a source. */
  predicate Scanned(src: nat, r: nat, state: nat, row: nat)
  {
    src < state || (src == state && r < row)
  }

  /** What the output vector holds at d when the scan reaches (state, row):
    * the contributions of the columns below m whose pair was already visited. */
  function Scattered(a: Amplitudes, u: Matrix, targets: seq<nat>, n: nat, d: nat, m: nat,
                     state: nat, row: nat): Complex
    requires Fits(a, u, targets, n) && d < |a| && m <= Pow2(|targets|)
  {
    if m == 0 then Zero
    else
      Add(Scattered(a, u, targets, n, d, m - 1, state, row),
          if Scanned(Deposit(d, targets, m - 1), Extract(d, targets), state, row)
          then Term(a, u, targets, n, d, m - 1) else Zero)
  }

  lemma {:induction false} ScatteredAtStart(a: Amplitudes, u: Matrix, targets: seq<nat>, n: nat, d: nat, m: nat)
    requires Fits(a, u, targets, n) && d < |a| && m <= Pow2(|targets|)
    ensures Scattered(a, u, targets, n, d, m, 0, 0) == Zero
  {
    if m != 0 {
      ScatteredAtStart(a, u, targets, n, d, m - 1);
    }
  }

  lemma {:induction false} ScatteredStepAt(a: Amplitudes, u: Matrix, targets: seq<nat>, n: nat, d: nat, m: nat,
                                           state: nat, row: nat)
    requires Fits(a, u, targets, n) && d < |a| && m <= Pow2(|targets|)
    requires row < Pow2(|targets|)
    ensures var c0 := Extract(state, targets);
      Scattered(a, u, targets, n, d, m, state, row + 1) ==
        if d == Deposit(state, targets, row) && c0 < m
        then Add(Scattered(a, u, targets, n, d, m, state, row), Term(a, u, targets, n, d, c0))
        else Scattered(a, u, targets, n, d, m, state, row)
  {
    if m != 0 {
      var c := m - 1;
      ScatteredStepAt(a, u, targets, n, d, c, state, row);
      SourceOfDestination(d, targets, c, state, row);
    }
  }

  /** One step of the scan adds u[row][local(state)] * a[state] at the
    * destination Deposit(state, targets, row) and nowhere else. */
  lemma ScatteredStep(a: Amplitudes, u: Matrix, targets: seq<nat>, n: nat, d: nat, state: nat, row: nat)
    requires Fits(a, u, targets, n) && d < |a| && state < |a| && row < Pow2(|targets|)
    ensures var dest := Deposit(state, targets, row);
      var m := Pow2(|targets|);
      Scattered(a, u, targets, n, d, m, state, row + 1) ==
        if d == dest
        then Add(Scattered(a, u, targets, n, d, m, state, row), Mul(u[row][Extract(state, targets)], a[state]))
        else Scattered(a, u, targets, n, d, m, state, row)
  {
    var m := Pow2(|targets|);
    ScatteredStepAt(a, u, targets, n, d, m, state, row);
    var c0 := Extract(state, targets);
    if d == Deposit(state, targets, row) {
      SourceOfDestination(d, targets, c0, state, row);
    }
  }

  lemma {:induction false} ScatteredNextSource(a: Amplitudes, u: Matrix, targets: seq<nat>, n: nat, d: nat, m: nat,
                                               state: nat)
    requires Fits(a, u, targets, n) && d < |a| && m <= Pow2(|targets|)
    ensures Scattered(a, u, targets, n, d, m, state, Pow2(|targets|)) ==
            Scattered(a, u, targets, n, d, m, state + 1, 0)
  {
    if m != 0 {
      ScatteredNextSource(a, u, targets, n, d, m - 1, state);
    }
  }

  /** Once every source has been visited the output is the gather sum. */
  lemma {:induction false} ScatteredAtEnd(a: Amplitudes, u: Matrix, targets: seq<nat>, n: nat, d: nat, m: nat)
    requires Fits(a, u, targets, n) && d < |a| && m <= Pow2(|targets|)
    ensures Scattered(a, u, targets, n, d, m, |a|, 0) == Gather(a, u, targets, n, d, m)
  {
    if m != 0 {
      ScatteredAtEnd(a, u, targets, n, d, m - 1);
      DepositBound(d, targets, m - 1, n);
    }
  }

  /** The output vector holds, at every index, what the scan has
    * accumulated there by the time it reaches (state, row). */
  ghost predicate ScanAt(out: Amplitudes, a: Amplitudes, u: Matrix, targets: seq<nat>, n: nat,
                         state: nat, row: nat)
    requires Fits(a, u, targets, n)
  {
    |out| == |a| &&
    forall d :: 0 <= d < |out| ==> out[d] == Scattered(a, u, targets, n, d, Pow2(|targets|), state, row)
  }

  lemma ScanAtStart(out: Amplitudes, a: Amplitudes, u: Matrix, targets: seq<nat>, n: nat)
    requires Fits(a, u, targets, n)
    requires |out| == |a| && forall d :: 0 <= d < |out| ==> out[d] == Zero
    ensures ScanAt(out, a, u, targets, n, 0, 0)
  {
    forall d | 0 <= d < |out|
      ensures out[d] == Scattered(a, u, targets, n, d, Pow2(|targets|), 0, 0)
    {
      ScatteredAtStart(a, u, targets, n, d, Pow2(|targets|));
    }
  }

  /** The accumulation apply_unitary does for one (source, row) pair. */
  lemma ScanStep(out: Amplitudes, a: Amplitudes, u: Matrix, targets: seq<nat>, n: nat, state: nat, row: nat)
    requires Fits(a, u, targets, n) && ScanAt(out, a, u, targets, n, state, row)
    requires state < |a| && row < Pow2(|targets|)
    ensures Deposit(state, targets, row) < |out|
    ensures var dest := Deposit(state, targets, row);
      ScanAt(out[dest := Add(out[dest], Mul(u[row][Extract(state, targets)], a[state]))],
             a, u, targets, n, state, row + 1)
  {
    DepositBound(state, targets, row, n);
    var dest := Deposit(state, targets, row);
    var out' := out[dest := Add(out[dest], Mul(u[row][Extract(state, targets)], a[state]))];
    forall d | 0 <= d < |out'|
      ensures out'[d] == Scattered(a, u, targets, n, d, Pow2(|targets|), state, row + 1)
    {
      ScatteredStep(a, u, targets, n, d, state, row);
    }
  }

  lemma ScanNextSource(out: Amplitudes, a: Amplitudes, u: Matrix, targets: seq<nat>, n: nat, state: nat)
    requires Fits(a, u, targets, n) && ScanAt(out, a, u, targets, n, state, |u|)
    ensures ScanAt(out, a, u, targets, n, state + 1, 0)
  {
    forall d | 0 <= d < |out|
      ensures out[d] == Scattered(a, u, targets, n, d, Pow2(|targets|), state + 1, 0)
    {
      ScatteredNextSource(a, u, targets, n, d, Pow2(|targets|), state);
    }
  }

  lemma ScanAtEnd(out: Amplitudes, a: Amplitudes, u: Matrix, targets: seq<nat>, n: nat)
    requires Fits(a, u, targets, n) && ScanAt(out, a, u, targets, n, |a|, 0)
    ensures out == Applied(a, u, targets, n)
  {
    forall d | 0 <= d < |out|
      ensures out[d] == Applied(a, u, targets, n)[d]
    {
      ScatteredAtEnd(a, u, targets, n, d, Pow2(|targets|));
    }
  }

  // ---------------------------------------------------------------------
  // Measurement

  /** std::norm of every amplitude. */
  function Probabilities(a: Amplitudes): (p: seq<real>)
    ensures |p| == |a|
  {
    seq(|a|, i requires 0 <= i < |a| => Norm(a[i]))
  }

  /** k is the first index holding the largest value of s. */
  ghost predicate IsFirstMax(s: seq<real>, k: nat)
  {
    k < |s| &&
    (forall j :: 0 <= j < |s| ==> s[j] <= s[k]) &&
    (forall j :: 0 <= j < k ==> s[j] < s[k])
  }

  /** The index std::max_element returns: the first largest element. */
  function FirstMax(s: seq<real>): (k: nat)
    requires |s| > 0
    ensures k < |s|
  {
    if |s| == 1 then 0
    else
      var b := FirstMax(s[..|s| - 1]);
      if s[b] < s[|s| - 1] then |s| - 1 else b
  }

  lemma {:induction false} FirstMaxIsFirstMax(s: seq<real>)
    requires |s| > 0
    ensures IsFirstMax(s, FirstMax(s))
  {
    if |s| > 1 {
      FirstMaxIsFirstMax(s[..|s| - 1]);
    }
  }

  /** An index strictly larger than every other one is the one max_element finds. */
  lemma FirstMaxOfStrictMax(s: seq<real>, v: nat)
    requires v < |s| && forall j :: 0 <= j < |s| && j != v ==> s[j] < s[v]
    ensures FirstMax(s) == v
  {
    FirstMaxIsFirstMax(s);
  }

  /** The character measure writes for a bit. */
  function BitChar(b: nat): char
  {
    if b == 1 then '1' else '0'
  }

  /** The n-digit binary rendering of v, most significant qubit first. */
  function BitString(v: nat, n: nat): (s: string)
    ensures |s| == n
    ensures forall p :: 0 <= p < n ==> s[p] == BitChar(Bit(v, n - 1 - p))
  {
    if n == 0 then "" else [BitChar(Bit(v, n - 1))] + BitString(v, n - 1)
  }

  /** The basis index measure picks. */
  function MostLikely(a: Amplitudes): nat
    requires |a| > 0
  {
    FirstMax(Probabilities(a))
  }

  // ---------------------------------------------------------------------

  class QubitRegister {
    var numQubits: nat
    var amplitudes: Amplitudes

    ghost predicate Valid()
      reads this
    {
      |amplitudes| == Pow2(numQubits)
    }

    /** qubit_register(n): 2^n amplitudes, all zero except a one at index 0. */
    constructor (n: nat)
      ensures Valid() && numQubits == n
      ensures amplitudes[0] == One
      ensures forall s :: 1 <= s < |amplitudes| ==> amplitudes[s] == Zero
      ensures amplitudes == Basis(n, 0)
    {
      numQubits := n;
      var dim := Pow2(n);
      var initial := seq(dim, _ => Zero);
      amplitudes := initial[0 := One];
    }

    /** The qubit count fixed at construction. */
    function Size(): (n: nat)
      reads this
      requires Valid()
      ensures Pow2(n) == |amplitudes|
    {
      numQubits
    }

    /** The amplitude of basis state `state`; the source does no bounds check. */
    function GetAmplitude(state: nat): (v: Complex)
      reads this
      requires Valid() && state < |amplitudes|
      ensures Norm(v) == Probabilities(amplitudes)[state]
    {
      amplitudes[state]
    }

    /** Overwrites one amplitude; the source does no bounds check. */
    method SetAmplitude(state: nat, value: Complex)
      requires Valid() && state < |amplitudes|
      modifies this
      ensures Valid() && numQubits == old(numQubits)
      ensures GetAmplitude(state) == value
      ensures forall s :: 0 <= s < |amplitudes| && s != state ==> GetAmplitude(s) == old(GetAmplitude(s))
    {
      amplitudes := amplitudes[state := value];
    }

    /** apply_unitary: scatter every (source, row) contribution into a fresh vector. */
    method ApplyUnitary(unitary: Matrix, targets: seq<nat>)
      requires Valid() && Fits(amplitudes, unitary, targets, numQubits)
      modifies this
      ensures Valid() && numQubits == old(numQubits)
      ensures amplitudes == Applied(old(amplitudes), unitary, targets, numQubits)
    {
      var dim := Pow2(numQubits);
      var newAmplitudes: Amplitudes := seq(dim, _ => Zero);
      ghost var a, n := amplitudes, numQubits;
      ScanAtStart(newAmplitudes, a, unitary, targets, n);

      var state := 0;
      while state < dim
        modifies {}
        invariant 0 <= state <= dim
        invariant ScanAt(newAmplitudes, a, unitary, targets, n, state, 0)
      {
        var targetBits := LocalIndex(state, targets);
        var uRow := 0;
        while uRow < |unitary|
          modifies {}
          invariant 0 <= uRow <= |unitary|
          invariant ScanAt(newAmplitudes, a, unitary, targets, n, state, uRow)
        {
          var newState := Destination(state, targets, uRow);
          ScanStep(newAmplitudes, a, unitary, targets, n, state, uRow);
          newAmplitudes := newAmplitudes[newState := Add(newAmplitudes[newState], Mul(unitary[uRow][targetBits], amplitudes[state]))];
          uRow := uRow + 1;
        }
        ScanNextSource(newAmplitudes, a, unitary, targets, n, state);
        state := state + 1;
      }
      ScanAtEnd(newAmplitudes, a, unitary, targets, n);
      amplitudes := newAmplitudes;
    }

    /** measure: the most probable basis state (first one on ties), rendered
      * most significant qubit first. Nothing is collapsed. */
    method Measure() returns (result: string)
      requires Valid()
      ensures |result| == numQubits
      ensures result == BitString(MostLikely(amplitudes), numQubits)
    {
      var dim := Pow2(numQubits);
      var probabilities := new real[dim];
      for i := 0 to dim
        invariant forall j :: 0 <= j < i ==> probabilities[j] == Norm(amplitudes[j])
      {
        probabilities[i] := Norm(amplitudes[i]);
      }
      assert probabilities[..] == Probabilities(amplitudes);

      var maxIdx := MaxElement(probabilities);

      result := "";
      var i := numQubits;
      while i > 0
        invariant 0 <= i <= numQubits
        invariant |result| == numQubits - i
        invariant forall p :: 0 <= p < |result| ==> result[p] == BitChar(Bit(maxIdx, numQubits - 1 - p))
      {
        i := i - 1;
        result := result + [if Bit(maxIdx, i) == 1 then '1' else '0'];
      }
    }

    /** reset: back to the ground state |0...0>, same size. */
    method Reset()
      requires Valid()
      modifies this
      ensures Valid() && numQubits == old(numQubits) && |amplitudes| == old(|amplitudes|)
      ensures amplitudes[0] == One
      ensures forall s :: 1 <= s < |amplitudes| ==> amplitudes[s] == Zero
      ensures amplitudes == Basis(numQubits, 0)
    {
      amplitudes := seq(|amplitudes|, _ => Zero);
      amplitudes := amplitudes[0 := One];
    }
  }

  /** std::max_element over the probabilities: the first largest entry. */
  method MaxElement(values: array<real>) returns (largest: nat)
    requires values.Length > 0
    ensures largest == FirstMax(values[..])
    ensures IsFirstMax(values[..], largest)
  {
    largest := 0;
    var first := 1;
    while first < values.Length
      invariant 1 <= first <= values.Length
      invariant largest == FirstMax(values[..first])
    {
      assert values[..first + 1][..first] == values[..first];
      if values[largest] < values[first] {
        largest := first;
      }
      first := first + 1;
    }
    assert values[..values.Length] == values[..];
    FirstMaxIsFirstMax(values[..]);
  }

  /** One more target bit of the local index, as LocalIndex's `|=` adds it. */
  lemma ExtractPrefixStep(state: nat, targets: seq<nat>, i: nat)
    requires i < |targets|
    ensures var low := Extract(state, targets[..i]);
      Extract(state, targets[..i + 1]) == if Bit(state, targets[i]) == 1 then SetBit(low, i, 1) else low
  {
    var prefix, t := targets[..i], targets[i];
    var low := Extract(state, prefix);
    assert targets[..i + 1] == prefix + [t];
    assert |prefix| == i;
    ExtractSnoc(state, prefix, t);
    var b := Bit(state, t);
    assert Extract(state, prefix + [t]) == low + b * Pow2(i);
    if b == 1 {
      SetBitAbove(low, i);
      assert Extract(state, targets[..i + 1]) == SetBit(low, i, 1);
    } else {
      assert b * Pow2(i) == 0;
      assert Extract(state, targets[..i + 1]) == low;
    }
  }

  method LocalIndex(state: nat, targets: seq<nat>) returns (targetBits: nat)
    ensures targetBits == Extract(state, targets)
    ensures targetBits < Pow2(|targets|)
  {
    targetBits := 0;
    var i := 0;
    while i < |targets|
      invariant 0 <= i <= |targets|
      invariant targetBits == Extract(state, targets[..i])
    {
      ExtractPrefixStep(state, targets, i);
      if Bit(state, targets[i]) == 1 {
        targetBits := SetBit(targetBits, i, 1);
      }
      i := i + 1;
    }
    assert targets[..|targets|] == targets;
  }

  /** The index whose target bits are those of the local row and whose other
    * bits are those of state. */
  method Destination(state: nat, targets: seq<nat>, row: nat) returns (newState: nat)
    ensures newState == Deposit(state, targets, row)
  {
    newState := state;
    var i := 0;
    while i < |targets|
      invariant 0 <= i <= |targets|
      invariant newState == Deposit(state, targets[..i], row)
    {
      assert targets[..i + 1] == targets[..i] + [targets[i]];
      DepositSnoc(state, targets[..i], targets[i], row);
      if Bit(row, i) == 1 {
        newState := SetBit(newState, targets[i], 1);
      } else {
        newState := SetBit(newState, targets[i], 0);
      }
      i := i + 1;
    }
    assert targets[..|targets|] == targets;
  }
}
