/**
 * What apply_inverse_qft does to the output of apply_qft (src/quantum/qft.cpp).
 *
 * The inverse passes -k to phase_rk, and phase_rk with a negative exponent
 * rotates by 2^-k whole turns, which is no rotation at all. So the inverse
 * circuit undoes the swaps and the Hadamards but none of the controlled
 * phases: the round trip multiplies every amplitude by a unit phase that
 * depends on its index. Magnitudes, hence measurement probabilities, come
 * back unchanged, and a basis state comes back as itself up to that phase.
 */
module QftRoundTrip {
  import opened Bits
  import opened Complexes
  import opened Register
  import opened Gates
  import opened Qft

  // ---------------------------------------------------------------------
  // The phases the forward blocks leave behind

  /** The phase that block i's rotations phase_rk(j, j-i+1), j = i+1 .. hi-1,
    * put on the amplitude at index s: the factor of every j whose bit is set. */
  function RowPhase(nm: Numerics, i: nat, hi: nat, s: nat): Complex
  {
    if hi <= i + 1 then One
    else if Bit(s, hi - 1) == 1 then Mul(PhaseFactor(nm, hi - i), RowPhase(nm, i, hi - 1, s))
    else RowPhase(nm, i, hi - 1, s)
  }

  /** The phase blocks lo .. n-1 put on index s together. */
  function TotalPhase(nm: Numerics, lo: nat, n: nat, s: nat): Complex
    decreases n - lo
  {
    if n <= lo then One else Mul(RowPhase(nm, lo, n, s), TotalPhase(nm, lo + 1, n, s))
  }

  /** Every amplitude multiplied by the phase of blocks lo .. n-1. */
  function Scaled(a: Amplitudes, nm: Numerics, lo: nat, n: nat): (r: Amplitudes)
    requires |a| == Pow2(n)
    ensures |r| == |a|
  {
    seq(|a|, s requires 0 <= s < |a| => Mul(TotalPhase(nm, lo, n, s), a[s]))
  }

  lemma {:induction false} RowPhaseUnit(nm: Numerics, i: nat, hi: nat, s: nat)
    requires Exact(nm)
    ensures IsUnit(RowPhase(nm, i, hi, s))
  {
    if hi > i + 1 {
      RowPhaseUnit(nm, i, hi - 1, s);
      PhaseFactorFacts(nm, hi - i);
      UnitMul(PhaseFactor(nm, hi - i), RowPhase(nm, i, hi - 1, s));
    }
  }

  /** With exact constants every accumulated phase has magnitude 1. */
  lemma {:induction false} TotalPhaseUnit(nm: Numerics, lo: nat, n: nat, s: nat)
    requires Exact(nm)
    ensures IsUnit(TotalPhase(nm, lo, n, s))
    decreases n - lo
  {
    if lo < n {
      RowPhaseUnit(nm, lo, n, s);
      TotalPhaseUnit(nm, lo + 1, n, s);
      UnitMul(RowPhase(nm, lo, n, s), TotalPhase(nm, lo + 1, n, s));
    }
  }

  /** Block i's phase reads only bits above i. */
  lemma {:induction false} RowPhaseIgnoresLow(nm: Numerics, i: nat, hi: nat, s: nat, t: nat, b: nat)
    requires t <= i && b < 2
    ensures RowPhase(nm, i, hi, SetBit(s, t, b)) == RowPhase(nm, i, hi, s)
  {
    if hi > i + 1 {
      RowPhaseIgnoresLow(nm, i, hi - 1, s, t, b);
      BitOfSetBit(s, t, b, hi - 1);
    }
  }

  /** The phase of blocks lo .. n-1 reads only bits above lo. */
  lemma {:induction false} TotalPhaseIgnoresLow(nm: Numerics, lo: nat, n: nat, s: nat, t: nat, b: nat)
    requires t <= lo && b < 2
    ensures TotalPhase(nm, lo, n, SetBit(s, t, b)) == TotalPhase(nm, lo, n, s)
    decreases n - lo
  {
    if lo < n {
      RowPhaseIgnoresLow(nm, lo, n, s, t, b);
      TotalPhaseIgnoresLow(nm, lo + 1, n, s, t, b);
    }
  }

  // ---------------------------------------------------------------------
  // The H/phase part

  /** Running block i's phase gates multiplies each amplitude by its RowPhase. */
  lemma {:induction false} RunPhasesUp(b: Amplitudes, nm: Numerics, i: nat, hi: nat, n: nat)
    requires |b| == Pow2(n) && hi <= n
    ensures ListFits(PhasesUp(i, hi), n)
    ensures forall s :: 0 <= s < |b| ==> Run(b, PhasesUp(i, hi), nm, n)[s] == Mul(RowPhase(nm, i, hi, s), b[s])
  {
    PhasesUpForm(i, hi);
    if hi <= i + 1 {
      assert PhasesUp(i, hi) == [];
    } else {
      RunPhasesUp(b, nm, i, hi - 1, n);
      var g := RGate(hi - 1, hi - i);
      assert PhasesUp(i, hi) == PhasesUp(i, hi - 1) + [g];
      RunSnoc(b, PhasesUp(i, hi - 1), g, nm, n);
      var c := Run(b, PhasesUp(i, hi - 1), nm, n);
      forall s | 0 <= s < |b|
        ensures Run(b, PhasesUp(i, hi), nm, n)[s] == Mul(RowPhase(nm, i, hi, s), b[s])
      {
        MulAssoc(PhaseFactor(nm, hi - i), RowPhase(nm, i, hi - 1, s), b[s]);
      }
    }
  }

  /** The inverse's phase gates all have negative exponents and change nothing. */
  lemma {:induction false} PhasesDownVanish(b: Amplitudes, nm: Numerics, i: nat, lo: nat, n: nat)
    requires Exact(nm) && |b| == Pow2(n) && i < lo
    ensures ListFits(PhasesDown(i, lo, n), n)
    ensures Run(b, PhasesDown(i, lo, n), nm, n) == b
    decreases n - lo
  {
    PhasesDownForm(i, lo, n);
    if lo < n {
      PhasesDownVanish(b, nm, i, lo + 1, n);
      var g := RGate(lo, -(lo - i + 1));
      RunSnoc(b, PhasesDown(i, lo + 1, n), g, nm, n);
      PhaseFactorFacts(nm, -(lo - i + 1));
      PhaseOne(b, lo, n);
    } else {
      assert PhasesDown(i, lo, n) == [];
    }
  }

  /** Block i: h(i), then its phases. */
  lemma RunBlock(a: Amplitudes, nm: Numerics, i: nat, n: nat)
    requires |a| == Pow2(n) && i < n
    ensures ListFits(Block(i, n), n)
    ensures forall s :: 0 <= s < |a| ==>
      Run(a, Block(i, n), nm, n)[s] == Mul(RowPhase(nm, i, n, s), HAct(a, nm.invSqrt2, i, n)[s])
  {
    PhasesUpForm(i, n);
    RunPhasesUp(HAct(a, nm.invSqrt2, i, n), nm, i, n, n);
    assert Block(i, n)[0] == HGate(i);
    assert Block(i, n)[1..] == PhasesUp(i, n);
  }

  lemma ScaledAt(y: Amplitudes, nm: Numerics, lo: nat, n: nat, j: nat)
    requires |y| == Pow2(n) && j < |y|
    ensures Scaled(y, nm, lo, n)[j] == Mul(TotalPhase(nm, lo, n, j), y[j])
  {
  }

  /** The two members of index s's pair for bit lo carry s's phase. */
  lemma ScaledPair(y: Amplitudes, nm: Numerics, lo: nat, n: nat, s: nat)
    requires |y| == Pow2(n) && lo < n && s < |y|
    ensures SetBit(s, lo, 0) < |y| && SetBit(s, lo, 1) < |y|
    ensures Scaled(y, nm, lo, n)[SetBit(s, lo, 0)] == Mul(TotalPhase(nm, lo, n, s), y[SetBit(s, lo, 0)])
    ensures Scaled(y, nm, lo, n)[SetBit(s, lo, 1)] == Mul(TotalPhase(nm, lo, n, s), y[SetBit(s, lo, 1)])
  {
    SetBitBound(s, lo, 0, n);
    SetBitBound(s, lo, 1, n);
    TotalPhaseIgnoresLow(nm, lo, n, s, lo, 0);
    TotalPhaseIgnoresLow(nm, lo, n, s, lo, 1);
    ScaledAt(y, nm, lo, n, SetBit(s, lo, 0));
    ScaledAt(y, nm, lo, n, SetBit(s, lo, 1));
  }

  /** h(i) commutes with a phase that does not read bit i, at one index. */
  lemma ScaledHAt(y: Amplitudes, nm: Numerics, lo: nat, n: nat, s: nat)
    requires |y| == Pow2(n) && lo < n && s < |y|
    ensures HAct(Scaled(y, nm, lo, n), nm.invSqrt2, lo, n)[s] == Scaled(HAct(y, nm.invSqrt2, lo, n), nm, lo, n)[s]
  {
    var h := nm.invSqrt2;
    var z := Scaled(y, nm, lo, n);
    var hy := HAct(y, h, lo, n);
    ScaledPair(y, nm, lo, n, s);
    HActAt(z, h, lo, n, s);
    HActAt(y, h, lo, n, s);
    ScaledAt(hy, nm, lo, n, s);
    RealScaleCommon(h, TotalPhase(nm, lo, n, s), y[SetBit(s, lo, 0)], y[SetBit(s, lo, 1)]);
  }

  lemma ScaledH(y: Amplitudes, nm: Numerics, lo: nat, n: nat)
    requires |y| == Pow2(n) && lo < n
    ensures HAct(Scaled(y, nm, lo, n), nm.invSqrt2, lo, n) == Scaled(HAct(y, nm.invSqrt2, lo, n), nm, lo, n)
  {
    forall s | 0 <= s < |y|
      ensures HAct(Scaled(y, nm, lo, n), nm.invSqrt2, lo, n)[s] == Scaled(HAct(y, nm.invSqrt2, lo, n), nm, lo, n)[s]
    {
      ScaledHAt(y, nm, lo, n, s);
    }
  }

  /** Block lo followed by the phases of the later blocks is h(lo) followed
    * by the phases of blocks lo .. n-1. */
  lemma ScaledAfterBlock(a: Amplitudes, nm: Numerics, lo: nat, n: nat)
    requires |a| == Pow2(n) && lo < n
    ensures ListFits(Block(lo, n), n)
    ensures Scaled(Run(a, Block(lo, n), nm, n), nm, lo + 1, n) == Scaled(HAct(a, nm.invSqrt2, lo, n), nm, lo, n)
  {
    RunBlock(a, nm, lo, n);
    var c := Run(a, Block(lo, n), nm, n);
    var y := HAct(a, nm.invSqrt2, lo, n);
    forall s | 0 <= s < |a|
      ensures Scaled(c, nm, lo + 1, n)[s] == Scaled(y, nm, lo, n)[s]
    {
      var r, t := RowPhase(nm, lo, n, s), TotalPhase(nm, lo + 1, n, s);
      MulAssoc(t, r, y[s]);
      MulComm(t, r);
    }
  }

  lemma {:induction false} BlocksUpFront(lo: nat, hi: nat, n: nat)
    requires lo < hi
    ensures BlocksUp(lo, hi, n) == Block(lo, n) + BlocksUp(lo + 1, hi, n)
  {
    if hi > lo + 1 {
      BlocksUpFront(lo, hi - 1, n);
      assert BlocksUp(lo, hi, n) == Block(lo, n) + BlocksUp(lo + 1, hi - 1, n) + Block(hi - 1, n);
    }
  }

  /** Running blocks lo .. n-1 is running block lo, then the rest. */
  lemma RunBlocksUpFront(a: Amplitudes, nm: Numerics, lo: nat, n: nat)
    requires |a| == Pow2(n) && lo < n
    ensures ListFits(Block(lo, n), n) && ListFits(BlocksUp(lo, n, n), n) && ListFits(BlocksUp(lo + 1, n, n), n)
    ensures Run(a, BlocksUp(lo, n, n), nm, n) == Run(Run(a, Block(lo, n), nm, n), BlocksUp(lo + 1, n, n), nm, n)
  {
    PhasesUpForm(lo, n);
    BlocksUpFits(lo, n, n);
    BlocksUpFits(lo + 1, n, n);
    BlocksUpFront(lo, n, n);
    RunAppend(a, Block(lo, n), BlocksUp(lo + 1, n, n), nm, n);
  }

  /** Running inverse blocks n-1 down to lo is running those above lo, then block lo. */
  lemma RunBlocksDownBack(x: Amplitudes, nm: Numerics, lo: nat, n: nat)
    requires |x| == Pow2(n) && lo < n
    ensures ListFits(InvBlock(lo, n), n) && ListFits(BlocksDown(lo, n, n), n) && ListFits(BlocksDown(lo + 1, n, n), n)
    ensures Run(x, BlocksDown(lo, n, n), nm, n) == Run(Run(x, BlocksDown(lo + 1, n, n), nm, n), InvBlock(lo, n), nm, n)
  {
    PhasesDownForm(lo, lo + 1, n);
    BlocksDownFits(lo, n, n);
    BlocksDownFits(lo + 1, n, n);
    assert BlocksDown(lo, n, n) == BlocksDown(lo + 1, n, n) + InvBlock(lo, n);
    RunAppend(x, BlocksDown(lo + 1, n, n), InvBlock(lo, n), nm, n);
  }

  /** Inverse block lo acts as h(lo) alone. */
  lemma InvBlockIsH(z: Amplitudes, nm: Numerics, lo: nat, n: nat)
    requires Exact(nm) && |z| == Pow2(n) && lo < n
    ensures ListFits(InvBlock(lo, n), n)
    ensures Run(z, InvBlock(lo, n), nm, n) == HAct(z, nm.invSqrt2, lo, n)
  {
    var pd := PhasesDown(lo, lo + 1, n);
    PhasesDownVanish(z, nm, lo, lo + 1, n);
    RunAfterIdentity(z, pd, HGate(lo), nm, n);
  }

  lemma RunAfterIdentity(z: Amplitudes, gs: seq<Gate>, g: Gate, nm: Numerics, n: nat)
    requires |z| == Pow2(n) && ListFits(gs, n) && GateFits(g, n) && Run(z, gs, nm, n) == z
    ensures ListFits(gs + [g], n)
    ensures Run(z, gs + [g], nm, n) == Step(z, g, nm, n)
  {
    RunSnoc(z, gs, g, nm, n);
  }

  /** h(lo) undoes the Hadamard of block lo and keeps its phase. */
  lemma HUndoesBlock(a: Amplitudes, nm: Numerics, lo: nat, n: nat)
    requires Exact(nm) && |a| == Pow2(n) && lo < n
    ensures ListFits(Block(lo, n), n)
    ensures HAct(Scaled(Run(a, Block(lo, n), nm, n), nm, lo + 1, n), nm.invSqrt2, lo, n) == Scaled(a, nm, lo, n)
  {
    var h := nm.invSqrt2;
    PhasesUpForm(lo, n);
    var c := Run(a, Block(lo, n), nm, n);
    var ha := HAct(a, h, lo, n);
    assert Scaled(c, nm, lo + 1, n) == Scaled(ha, nm, lo, n) by {
      ScaledAfterBlock(a, nm, lo, n);
    }
    assert HAct(Scaled(ha, nm, lo, n), h, lo, n) == Scaled(HAct(ha, h, lo, n), nm, lo, n) by {
      ScaledH(ha, nm, lo, n);
    }
    assert HAct(ha, h, lo, n) == a by {
      HTwice(a, nm, lo, n);
    }
  }

  /** With no blocks left the phase is 1. */
  lemma ScaledNone(a: Amplitudes, nm: Numerics, n: nat)
    requires |a| == Pow2(n)
    ensures Scaled(a, nm, n, n) == a
  {
    forall s | 0 <= s < |a|
      ensures Scaled(a, nm, n, n)[s] == a[s]
    {
    }
  }

  /** One step of MiddleCancels: given the claim for the blocks above lo on
    * the state block lo leaves, it holds from lo. */
  lemma MiddleStep(a: Amplitudes, nm: Numerics, lo: nat, n: nat)
    requires Exact(nm) && |a| == Pow2(n) && lo < n
    requires ListFits(Block(lo, n), n) && ListFits(BlocksUp(lo + 1, n, n), n) && ListFits(BlocksDown(lo + 1, n, n), n)
    requires var c := Run(a, Block(lo, n), nm, n);
      Run(Run(c, BlocksUp(lo + 1, n, n), nm, n), BlocksDown(lo + 1, n, n), nm, n) == Scaled(c, nm, lo + 1, n)
    ensures ListFits(BlocksUp(lo, n, n), n) && ListFits(BlocksDown(lo, n, n), n)
    ensures Run(Run(a, BlocksUp(lo, n, n), nm, n), BlocksDown(lo, n, n), nm, n) == Scaled(a, nm, lo, n)
  {
    var h := nm.invSqrt2;
    BlocksUpFits(lo, n, n);
    BlocksDownFits(lo, n, n);
    PhasesDownForm(lo, lo + 1, n);
    var c := Run(a, Block(lo, n), nm, n);
    var x := Run(a, BlocksUp(lo, n, n), nm, n);
    var z := Scaled(c, nm, lo + 1, n);
    assert x == Run(c, BlocksUp(lo + 1, n, n), nm, n) by {
      RunBlocksUpFront(a, nm, lo, n);
    }
    assert Run(x, BlocksDown(lo, n, n), nm, n) == Run(z, InvBlock(lo, n), nm, n) by {
      RunBlocksDownBack(x, nm, lo, n);
    }
    assert Run(z, InvBlock(lo, n), nm, n) == HAct(z, h, lo, n) by {
      InvBlockIsH(z, nm, lo, n);
    }
    assert HAct(z, h, lo, n) == Scaled(a, nm, lo, n) by {
      HUndoesBlock(a, nm, lo, n);
    }
  }

  /** The H/phase part of apply_qft followed by that of apply_inverse_qft:
    * every Hadamard cancels, every phase stays. */
  lemma {:induction false} MiddleCancels(a: Amplitudes, nm: Numerics, lo: nat, n: nat)
    requires Exact(nm) && |a| == Pow2(n) && lo <= n
    ensures ListFits(BlocksUp(lo, n, n), n) && ListFits(BlocksDown(lo, n, n), n)
    ensures Run(Run(a, BlocksUp(lo, n, n), nm, n), BlocksDown(lo, n, n), nm, n) == Scaled(a, nm, lo, n)
    decreases n - lo
  {
    BlocksUpFits(lo, n, n);
    BlocksDownFits(lo, n, n);
    if lo == n {
      assert BlocksUp(lo, n, n) == [] && BlocksDown(lo, n, n) == [];
      ScaledNone(a, nm, n);
    } else {
      BlocksUpFits(lo + 1, n, n);
      BlocksDownFits(lo + 1, n, n);
      PhasesUpForm(lo, n);
      MiddleCancels(Run(a, Block(lo, n), nm, n), nm, lo + 1, n);
      MiddleStep(a, nm, lo, n);
    }
  }

  // ---------------------------------------------------------------------
  // The swap stage

  /** The index whose amplitude the first h swaps bring to s. */
  function Rev(h: nat, n: nat, s: nat): (r: nat)
    requires 2 * h <= n && s < Pow2(n)
    ensures r < Pow2(n)
  {
    if h == 0 then s
    else
      SwapBitsBound(s, h - 1, n - h, n);
      Rev(h - 1, n, SwapBits(s, h - 1, n - h))
  }

  /** The qubit the first h swaps move to position j. */
  function Mirror(h: nat, n: nat, j: nat): nat
    requires 2 * h <= n
  {
    if j < h || (n - h <= j < n) then n - 1 - j else j
  }

  lemma {:induction false} RevBits(h: nat, n: nat, s: nat, j: nat)
    requires 2 * h <= n && s < Pow2(n)
    ensures Bit(Rev(h, n, s), j) == Bit(s, Mirror(h, n, j))
  {
    if h > 0 {
      SwapBitsBound(s, h - 1, n - h, n);
      var s' := SwapBits(s, h - 1, n - h);
      RevBits(h - 1, n, s', j);
      BitOfSwapBits(s, h - 1, n - h, Mirror(h - 1, n, j));
    }
  }

  lemma RevTwice(h: nat, n: nat, s: nat)
    requires 2 * h <= n && s < Pow2(n)
    ensures Rev(h, n, Rev(h, n, s)) == s
  {
    var r := Rev(h, n, s);
    forall j | 0 <= j < n
      ensures Bit(Rev(h, n, r), j) == Bit(s, j)
    {
      RevBits(h, n, r, j);
      RevBits(h, n, s, Mirror(h, n, j));
    }
    BitsDetermine(Rev(h, n, r), s, n);
  }

  /** One more swap composes with the reversal of the first h-1 swaps. */
  lemma SwapOntoRev(b: Amplitudes, c: Amplitudes, h: nat, n: nat)
    requires |b| == Pow2(n) && |c| == |b| && 0 < h && 2 * h <= n
    requires forall s :: 0 <= s < |c| ==> c[s] == b[Rev(h - 1, n, s)]
    ensures forall s :: 0 <= s < |b| ==> SwapAct(c, h - 1, n - h, n)[s] == b[Rev(h, n, s)]
  {
    forall s | 0 <= s < |b|
      ensures SwapAct(c, h - 1, n - h, n)[s] == b[Rev(h, n, s)]
    {
      SwapActAt(c, h - 1, n - h, n, s);
      var t := SwapBits(s, h - 1, n - h);
      assert c[t] == b[Rev(h - 1, n, t)];
    }
  }

  lemma {:induction false} RunSwaps(b: Amplitudes, nm: Numerics, h: nat, n: nat)
    requires |b| == Pow2(n) && 2 * h <= n
    ensures ListFits(Swaps(h, n), n)
    ensures forall s :: 0 <= s < |b| ==> Run(b, Swaps(h, n), nm, n)[s] == b[Rev(h, n, s)]
  {
    SwapsForm(h, n);
    if h == 0 {
      assert Swaps(h, n) == [];
    } else {
      RunSwaps(b, nm, h - 1, n);
      var c := Run(b, Swaps(h - 1, n), nm, n);
      assert Swaps(h, n) == Swaps(h - 1, n) + [SwapGate(h - 1, n - h)];
      RunSnoc(b, Swaps(h - 1, n), SwapGate(h - 1, n - h), nm, n);
      assert Run(b, Swaps(h, n), nm, n) == SwapAct(c, h - 1, n - h, n);
      SwapOntoRev(b, c, h, n);
    }
  }

  /** The swap stage reverses the qubit order: the amplitude at s comes from
    * the index whose bit j is bit n-1-j of s. */
  lemma SwapStageReverses(b: Amplitudes, nm: Numerics, n: nat, s: nat, j: nat)
    requires |b| == Pow2(n) && s < |b| && j < n
    ensures ListFits(Swaps(n / 2, n), n)
    ensures Run(b, Swaps(n / 2, n), nm, n)[s] == b[Rev(n / 2, n, s)]
    ensures Bit(Rev(n / 2, n, s), j) == Bit(s, n - 1 - j)
  {
    RunSwaps(b, nm, n / 2, n);
    RevBits(n / 2, n, s, j);
  }

  /** The swap stage undoes itself. */
  lemma SwapStageTwice(b: Amplitudes, nm: Numerics, n: nat)
    requires |b| == Pow2(n)
    ensures ListFits(Swaps(n / 2, n), n)
    ensures Run(Run(b, Swaps(n / 2, n), nm, n), Swaps(n / 2, n), nm, n) == b
  {
    var sw := Swaps(n / 2, n);
    RunSwaps(b, nm, n / 2, n);
    var c := Run(b, sw, nm, n);
    RunSwaps(c, nm, n / 2, n);
    forall s | 0 <= s < |b|
      ensures Run(c, sw, nm, n)[s] == b[s]
    {
      RevTwice(n / 2, n, s);
    }
  }

  // ---------------------------------------------------------------------
  // The round trip

  /** apply_inverse_qft after apply_qft multiplies each amplitude by the
    * accumulated phase of the forward rotations, which it never undoes. */
  lemma QftRoundTrip(a: Amplitudes, nm: Numerics, n: nat)
    requires Exact(nm) && |a| == Pow2(n)
    ensures Run(Run(a, Forward(n), nm, n), Inverse(n), nm, n) == Scaled(a, nm, 0, n)
  {
    Stages(a, nm, n);
    var x := Run(a, BlocksUp(0, n, n), nm, n);
    var y := Run(a, Forward(n), nm, n);
    Stages(y, nm, n);
    SwapStageTwice(x, nm, n);
    MiddleCancels(a, nm, 0, n);
  }

  /** The round trip changes no measurement probability. */
  lemma RoundTripProbabilities(a: Amplitudes, nm: Numerics, n: nat)
    requires Exact(nm) && |a| == Pow2(n)
    ensures Probabilities(Run(Run(a, Forward(n), nm, n), Inverse(n), nm, n)) == Probabilities(a)
  {
    QftRoundTrip(a, nm, n);
    var r := Scaled(a, nm, 0, n);
    forall s | 0 <= s < |a|
      ensures Probabilities(r)[s] == Probabilities(a)[s]
    {
      TotalPhaseUnit(nm, 0, n, s);
      NormUnitTimes(TotalPhase(nm, 0, n, s), a[s]);
    }
  }

  /** A basis state survives the round trip: measure() finds it again. */
  lemma BasisRoundTrip(v: nat, nm: Numerics, n: nat)
    requires Exact(nm) && v < Pow2(n)
    ensures MostLikely(Run(Run(Basis(n, v), Forward(n), nm, n), Inverse(n), nm, n)) == v
  {
    var a := Basis(n, v);
    RoundTripProbabilities(a, nm, n);
    var p := Probabilities(a);
    assert p[v] == 1.0;
    forall j | 0 <= j < |p| && j != v
      ensures p[j] < p[v]
    {
      assert a[j] == Zero;
    }
    FirstMaxOfStrictMax(p, v);
  }
}
