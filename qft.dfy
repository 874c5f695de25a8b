/**
 * The QFT circuit (src/quantum/qft.cpp).
 *
 * `apply_qft` and `apply_inverse_qft` issue a fixed sequence of gates through
 * counted loops. The sequences are given here as lists of gate descriptors
 * built the way the loops build them; `Run` applies a list with the closed
 * forms of the gate library, and each method is proved to leave the register
 * in `Run(initial, list)`. The lemmas state the shape of the lists: order,
 * exponents, counts, bounds, the swap pairs, and that the inverse's H/phase
 * part is the forward part reversed with every exponent negated.
 */
module Qft {
  import opened Bits
  import opened Register
  import opened Gates

  /** One gate issued by the circuits: h(q), phase_rk(q, k) or swap(a, b). */
  datatype Gate = HGate(q: nat) | RGate(q: nat, k: int) | SwapGate(a: nat, b: nat)

  /** The gate's qubits lie in an n-qubit register, and a swap names two of them. */
  ghost predicate GateFits(g: Gate, n: nat)
  {
    match g
    case HGate(q) => q < n
    case RGate(q, _) => q < n
    case SwapGate(p, q) => p < n && q < n && p != q
  }

  ghost predicate ListFits(gs: seq<Gate>, n: nat)
  {
    forall i :: 0 <= i < |gs| ==> GateFits(gs[i], n)
  }

  // ---------------------------------------------------------------------
  // The gate lists the loops issue

  /** The phase gates of block i issued for j = i+1 .. hi-1, ascending, each
    * with k = j - i + 1. */
  function PhasesUp(i: nat, hi: nat): seq<Gate>
  {
    if hi <= i + 1 then [] else PhasesUp(i, hi - 1) + [RGate(hi - 1, hi - i)]
  }

  /** Iteration i of the first loop of apply_qft. */
  function Block(i: nat, n: nat): seq<Gate>
  {
    [HGate(i)] + PhasesUp(i, n)
  }

  /** The blocks for i = lo .. hi-1, ascending. */
  function BlocksUp(lo: nat, hi: nat, n: nat): seq<Gate>
  {
    if hi <= lo then [] else BlocksUp(lo, hi - 1, n) + Block(hi - 1, n)
  }

  /** swap(i, n-1-i) for i = 0 .. h-1. */
  function Swaps(h: nat, n: nat): seq<Gate>
    requires 2 * h <= n
  {
    if h == 0 then [] else Swaps(h - 1, n) + [SwapGate(h - 1, n - h)]
  }

  /** The inverse phase gates of block i issued for j = n-1 down to lo, each
    * with k = -(j - i + 1). */
  function PhasesDown(i: nat, lo: nat, n: nat): seq<Gate>
    decreases n - lo
  {
    if n <= lo then [] else PhasesDown(i, lo + 1, n) + [RGate(lo, -(lo - i + 1))]
  }

  /** Iteration i of the second loop of apply_inverse_qft. */
  function InvBlock(i: nat, n: nat): seq<Gate>
  {
    PhasesDown(i, i + 1, n) + [HGate(i)]
  }

  /** The inverse blocks for i = hi-1 down to lo. */
  function BlocksDown(lo: nat, hi: nat, n: nat): seq<Gate>
    decreases hi - lo
  {
    if hi <= lo then [] else BlocksDown(lo + 1, hi, n) + InvBlock(lo, n)
  }

  /** Everything apply_qft issues, in order. */
  function Forward(n: nat): (gs: seq<Gate>)
    ensures ListFits(gs, n)
  {
    BlocksUpFits(0, n, n);
    SwapsForm(n / 2, n);
    BlocksUp(0, n, n) + Swaps(n / 2, n)
  }

  /** Everything apply_inverse_qft issues, in order. */
  function Inverse(n: nat): (gs: seq<Gate>)
    ensures ListFits(gs, n)
  {
    BlocksDownFits(0, n, n);
    SwapsForm(n / 2, n);
    Swaps(n / 2, n) + BlocksDown(0, n, n)
  }

  // ---------------------------------------------------------------------
  // Running a gate list

  /** One gate's effect, by the closed forms of the gate library. */
  function Step(a: Amplitudes, g: Gate, nm: Numerics, n: nat): (r: Amplitudes)
    requires |a| == Pow2(n) && GateFits(g, n)
    ensures |r| == |a|
  {
    match g
    case HGate(q) => HAct(a, nm.invSqrt2, q, n)
    case RGate(q, k) => PhaseAct(a, PhaseFactor(nm, k), q, n)
    case SwapGate(p, q) => SwapAct(a, p, q, n)
  }

  /** The gates of gs applied one after another, first to last. */
  function Run(a: Amplitudes, gs: seq<Gate>, nm: Numerics, n: nat): (r: Amplitudes)
    requires |a| == Pow2(n) && ListFits(gs, n)
    ensures |r| == |a|
    decreases |gs|
  {
    if gs == [] then a else Run(Step(a, gs[0], nm, n), gs[1..], nm, n)
  }

  /** Running two lists is running their concatenation. */
  lemma {:induction false} RunAppend(a: Amplitudes, xs: seq<Gate>, ys: seq<Gate>, nm: Numerics, n: nat)
    requires |a| == Pow2(n) && ListFits(xs, n) && ListFits(ys, n)
    ensures ListFits(xs + ys, n)
    ensures Run(a, xs + ys, nm, n) == Run(Run(a, xs, nm, n), ys, nm, n)
    decreases |xs|
  {
    forall i | 0 <= i < |xs + ys|
      ensures GateFits((xs + ys)[i], n)
    {
      if i >= |xs| {
        assert (xs + ys)[i] == ys[i - |xs|];
      }
    }
    if xs == [] {
      assert xs + ys == ys;
    } else {
      assert (xs + ys)[0] == xs[0];
      assert (xs + ys)[1..] == xs[1..] + ys;
      RunAppend(Step(a, xs[0], nm, n), xs[1..], ys, nm, n);
    }
  }

  /** Issuing one more gate. */
  lemma RunSnoc(a: Amplitudes, gs: seq<Gate>, g: Gate, nm: Numerics, n: nat)
    requires |a| == Pow2(n) && ListFits(gs, n) && GateFits(g, n)
    ensures ListFits(gs + [g], n)
    ensures Run(a, gs + [g], nm, n) == Step(Run(a, gs, nm, n), g, nm, n)
  {
    RunAppend(a, gs, [g], nm, n);
    assert [g][1..] == [];
  }

  // ---------------------------------------------------------------------
  // Shape of the lists

  /** Block i's phases are phase_rk(i+1+m, m+2) for m = 0, 1, ...: targets
    * ascend from i+1 and every exponent is at least 2. */
  lemma {:induction false} PhasesUpForm(i: nat, hi: nat)
    ensures |PhasesUp(i, hi)| == if hi <= i + 1 then 0 else hi - i - 1
    ensures forall m :: 0 <= m < |PhasesUp(i, hi)| ==> PhasesUp(i, hi)[m] == RGate(i + 1 + m, m + 2)
  {
    if hi > i + 1 {
      PhasesUpForm(i, hi - 1);
    }
  }

  /** The inverse phases of block i run from qubit n-1 down to lo, with the
    * negated exponents -(j - i + 1). */
  lemma {:induction false} PhasesDownForm(i: nat, lo: nat, n: nat)
    ensures |PhasesDown(i, lo, n)| == if n <= lo then 0 else n - lo
    ensures forall m :: 0 <= m < |PhasesDown(i, lo, n)| ==>
      PhasesDown(i, lo, n)[m] == RGate(n - 1 - m, -((n - 1 - m) - i + 1))
    decreases n - lo
  {
    if lo < n {
      PhasesDownForm(i, lo + 1, n);
    }
  }

  /** The swap pairs are (i, n-1-i) for i below h. */
  lemma {:induction false} SwapsForm(h: nat, n: nat)
    requires 2 * h <= n
    ensures |Swaps(h, n)| == h
    ensures forall m :: 0 <= m < h ==> Swaps(h, n)[m] == SwapGate(m, n - 1 - m)
  {
    if h != 0 {
      SwapsForm(h - 1, n);
    }
  }

  /** The forward swaps exchange distinct qubits, no qubit is in two pairs,
    * and for odd n the middle qubit is in none. */
  lemma SwapsDisjoint(n: nat)
    ensures var sw := Swaps(n / 2, n);
      |sw| == n / 2 &&
      (forall m :: 0 <= m < |sw| ==> sw[m].SwapGate? && sw[m].a < sw[m].b < n) &&
      (forall m, m' :: 0 <= m < m' < |sw| && sw[m].SwapGate? && sw[m'].SwapGate? ==>
         sw[m].a != sw[m'].a && sw[m].a != sw[m'].b && sw[m].b != sw[m'].a && sw[m].b != sw[m'].b) &&
      (forall m :: 0 <= m < |sw| && n % 2 == 1 && sw[m].SwapGate? ==> sw[m].a != n / 2 && sw[m].b != n / 2)
  {
    SwapsForm(n / 2, n);
  }

  lemma {:induction false} BlocksUpFits(lo: nat, hi: nat, n: nat)
    requires hi <= n
    ensures ListFits(BlocksUp(lo, hi, n), n)
  {
    if lo < hi {
      BlocksUpFits(lo, hi - 1, n);
      PhasesUpForm(hi - 1, n);
    }
  }

  lemma {:induction false} BlocksDownFits(lo: nat, hi: nat, n: nat)
    requires hi <= n
    ensures ListFits(BlocksDown(lo, hi, n), n)
    decreases hi - lo
  {
    if lo < hi {
      BlocksDownFits(lo + 1, hi, n);
      PhasesDownForm(lo, lo + 1, n);
    }
  }

  function IsH(g: Gate): bool { g.HGate? }
  function IsR(g: Gate): bool { g.RGate? }
  function IsSwap(g: Gate): bool { g.SwapGate? }

  /** How many gates of gs satisfy p. */
  function Count(gs: seq<Gate>, p: Gate -> bool): nat
  {
    if gs == [] then 0 else Count(gs[..|gs| - 1], p) + (if p(gs[|gs| - 1]) then 1 else 0)
  }

  lemma {:induction false} CountAppend(xs: seq<Gate>, ys: seq<Gate>, p: Gate -> bool)
    ensures Count(xs + ys, p) == Count(xs, p) + Count(ys, p)
    decreases |ys|
  {
    if ys != [] {
      assert (xs + ys)[..|xs + ys| - 1] == xs + ys[..|ys| - 1];
      assert (xs + ys)[|xs + ys| - 1] == ys[|ys| - 1];
      CountAppend(xs, ys[..|ys| - 1], p);
    } else {
      assert xs + ys == xs;
    }
  }

  lemma {:induction false} CountPhasesUp(i: nat, hi: nat)
    ensures Count(PhasesUp(i, hi), IsH) == 0
    ensures Count(PhasesUp(i, hi), IsR) == if hi <= i + 1 then 0 else hi - i - 1
    ensures Count(PhasesUp(i, hi), IsSwap) == 0
  {
    if hi > i + 1 {
      CountPhasesUp(i, hi - 1);
      var ps := PhasesUp(i, hi);
      assert ps == PhasesUp(i, hi - 1) + [RGate(hi - 1, hi - i)];
      assert ps[..|ps| - 1] == PhasesUp(i, hi - 1);
      assert ps[|ps| - 1] == RGate(hi - 1, hi - i);
    }
  }

  /** Blocks lo .. hi-1 hold hi-lo H gates and, doubled, hi(2n-1-hi) - lo(2n-1-lo)
    * phase gates. */
  lemma {:induction false} CountBlocksUp(lo: nat, hi: nat, n: nat)
    requires lo <= hi <= n
    ensures Count(BlocksUp(lo, hi, n), IsH) == hi - lo
    ensures 2 * Count(BlocksUp(lo, hi, n), IsR) == hi * (2 * n - 1 - hi) - lo * (2 * n - 1 - lo)
    ensures Count(BlocksUp(lo, hi, n), IsSwap) == 0
  {
    if lo < hi {
      var i := hi - 1;
      CountBlocksUp(lo, i, n);
      CountPhasesUp(i, n);
      assert [HGate(i)][..0] == [];
      CountAppend([HGate(i)], PhasesUp(i, n), IsH);
      CountAppend([HGate(i)], PhasesUp(i, n), IsR);
      CountAppend([HGate(i)], PhasesUp(i, n), IsSwap);
      CountAppend(BlocksUp(lo, i, n), Block(i, n), IsH);
      CountAppend(BlocksUp(lo, i, n), Block(i, n), IsR);
      CountAppend(BlocksUp(lo, i, n), Block(i, n), IsSwap);
      assert Count(Block(i, n), IsR) == n - 1 - i;
      assert hi * (2 * n - 1 - hi) == i * (2 * n - 1 - i) + 2 * (n - 1 - i) by {
        assert hi == i + 1;
        assert (i + 1) * (2 * n - 2 - i) == i * (2 * n - 2 - i) + (2 * n - 2 - i);
        assert i * (2 * n - 2 - i) == i * (2 * n - 1 - i) - i;
      }
    }
  }

  lemma {:induction false} CountSwaps(h: nat, n: nat)
    requires 2 * h <= n
    ensures Count(Swaps(h, n), IsH) == 0 && Count(Swaps(h, n), IsR) == 0
    ensures Count(Swaps(h, n), IsSwap) == h
  {
    if h != 0 {
      CountSwaps(h - 1, n);
      var sw := Swaps(h, n);
      assert sw[..|sw| - 1] == Swaps(h - 1, n);
    }
  }

  /** apply_qft issues n H gates, n(n-1)/2 phase gates and n/2 swaps. */
  lemma ForwardCounts(n: nat)
    ensures Count(Forward(n), IsH) == n
    ensures Count(Forward(n), IsR) == n * (n - 1) / 2
    ensures Count(Forward(n), IsSwap) == n / 2
    ensures |Forward(n)| == n + n * (n - 1) / 2 + n / 2
  {
    CountBlocksUp(0, n, n);
    CountSwaps(n / 2, n);
    CountAppend(BlocksUp(0, n, n), Swaps(n / 2, n), IsH);
    CountAppend(BlocksUp(0, n, n), Swaps(n / 2, n), IsR);
    CountAppend(BlocksUp(0, n, n), Swaps(n / 2, n), IsSwap);
    assert n * (2 * n - 1 - n) == n * (n - 1);
    CountPartition(Forward(n));
  }

  /** Every gate is an H, a phase or a swap. */
  lemma {:induction false} CountPartition(gs: seq<Gate>)
    ensures |gs| == Count(gs, IsH) + Count(gs, IsR) + Count(gs, IsSwap)
  {
    if gs != [] {
      CountPartition(gs[..|gs| - 1]);
    }
  }

  /** The same gate with its phase exponent negated. */
  function Negated(g: Gate): Gate
  {
    if g.RGate? then RGate(g.q, -g.k) else g
  }

  /** A gate list reversed with every phase exponent negated: the list a
    * textbook inverse circuit would issue. */
  function Adjoint(gs: seq<Gate>): (r: seq<Gate>)
    ensures |r| == |gs|
  {
    if gs == [] then [] else Adjoint(gs[1..]) + [Negated(gs[0])]
  }

  lemma {:induction false} AdjointForm(gs: seq<Gate>)
    ensures forall m :: 0 <= m < |gs| ==> Adjoint(gs)[m] == Negated(gs[|gs| - 1 - m])
  {
    if gs != [] {
      AdjointForm(gs[1..]);
    }
  }

  lemma AdjointAppend(xs: seq<Gate>, ys: seq<Gate>)
    ensures Adjoint(xs + ys) == Adjoint(ys) + Adjoint(xs)
  {
    AdjointForm(xs + ys);
    AdjointForm(xs);
    AdjointForm(ys);
  }

  /** The inverse phases of block i are block i's phases reversed and negated. */
  lemma AdjointPhases(i: nat, n: nat)
    ensures Adjoint(PhasesUp(i, n)) == PhasesDown(i, i + 1, n)
  {
    PhasesUpForm(i, n);
    PhasesDownForm(i, i + 1, n);
    AdjointForm(PhasesUp(i, n));
  }

  lemma {:induction false} BlocksDownTop(lo: nat, hi: nat, n: nat)
    requires lo <= hi
    ensures BlocksDown(lo, hi + 1, n) == InvBlock(hi, n) + BlocksDown(lo, hi, n)
    decreases hi - lo
  {
    if lo < hi {
      BlocksDownTop(lo + 1, hi, n);
    }
  }

  lemma {:induction false} AdjointBlocks(hi: nat, n: nat)
    ensures Adjoint(BlocksUp(0, hi, n)) == BlocksDown(0, hi, n)
  {
    if hi > 0 {
      var i := hi - 1;
      AdjointBlocks(i, n);
      AdjointAppend(BlocksUp(0, i, n), Block(i, n));
      AdjointAppend([HGate(i)], PhasesUp(i, n));
      AdjointPhases(i, n);
      BlocksDownTop(0, i, n);
    }
  }

  /** The H/phase part of apply_inverse_qft is that of apply_qft reversed
    * with every exponent negated; the swaps come first and are the same. */
  lemma InverseIsReversedForward(n: nat)
    ensures Inverse(n) == Swaps(n / 2, n) + Adjoint(BlocksUp(0, n, n))
  {
    AdjointBlocks(n, n);
  }

  /** With no qubits nothing is issued; with one, only h(0). */
  lemma SmallCircuits()
    ensures Forward(0) == [] && Inverse(0) == []
    ensures Forward(1) == [HGate(0)] && Inverse(1) == [HGate(0)]
  {
    assert PhasesUp(0, 1) == [];
    assert PhasesDown(0, 1, 1) == [];
  }

  // ---------------------------------------------------------------------
  // One issued gate at a time

  /** The first gate of block i. */
  lemma ForwardH(b: Amplitudes, i: nat, nm: Numerics, n: nat)
    requires |b| == Pow2(n) && i < n
    ensures ListFits([HGate(i)] + PhasesUp(i, i + 1), n)
    ensures Run(b, [HGate(i)] + PhasesUp(i, i + 1), nm, n) == HAct(b, nm.invSqrt2, i, n)
  {
    assert [HGate(i)] + PhasesUp(i, i + 1) == [HGate(i)];
    assert [HGate(i)][1..] == [];
  }

  /** Block i after phase_rk(j, j - i + 1). */
  lemma ForwardPhase(b: Amplitudes, i: nat, j: nat, k: int, nm: Numerics, n: nat)
    requires |b| == Pow2(n) && i < j < n && k == j - i + 1
    requires ListFits([HGate(i)] + PhasesUp(i, j), n)
    ensures ListFits([HGate(i)] + PhasesUp(i, j + 1), n)
    ensures Run(b, [HGate(i)] + PhasesUp(i, j + 1), nm, n) ==
            PhaseAct(Run(b, [HGate(i)] + PhasesUp(i, j), nm, n), PhaseFactor(nm, k), j, n)
  {
    var xs, g := [HGate(i)] + PhasesUp(i, j), RGate(j, k);
    assert PhasesUp(i, j + 1) == PhasesUp(i, j) + [g];
    assert [HGate(i)] + PhasesUp(i, j + 1) == xs + [g];
    RunSnoc(b, xs, g, nm, n);
    assert Step(Run(b, xs, nm, n), g, nm, n) == PhaseAct(Run(b, xs, nm, n), PhaseFactor(nm, k), j, n);
  }

  /** A finished block extends the blocks before it. */
  lemma ForwardBlockDone(a: Amplitudes, i: nat, nm: Numerics, n: nat)
    requires |a| == Pow2(n) && i < n
    ensures ListFits(BlocksUp(0, i, n), n) && ListFits(Block(i, n), n) && ListFits(BlocksUp(0, i + 1, n), n)
    ensures Run(a, BlocksUp(0, i + 1, n), nm, n) == Run(Run(a, BlocksUp(0, i, n), nm, n), Block(i, n), nm, n)
  {
    BlocksUpFits(0, i, n);
    BlocksUpFits(0, i + 1, n);
    PhasesUpForm(i, n);
    RunAppend(a, BlocksUp(0, i, n), Block(i, n), nm, n);
  }

  /** The swap stage after swap(i, n-1-i). */
  lemma SwapStep(b: Amplitudes, i: nat, partner: nat, nm: Numerics, n: nat)
    requires |b| == Pow2(n) && i < n / 2 && partner == n - 1 - i
    ensures ListFits(Swaps(i, n), n) && ListFits(Swaps(i + 1, n), n)
    ensures Run(b, Swaps(i + 1, n), nm, n) == SwapAct(Run(b, Swaps(i, n), nm, n), i, partner, n)
  {
    SwapsForm(i, n);
    SwapsForm(i + 1, n);
    assert n - (i + 1) == partner;
    assert Swaps(i + 1, n) == Swaps(i, n) + [SwapGate(i, partner)];
    RunSnoc(b, Swaps(i, n), SwapGate(i, partner), nm, n);
  }

  /** The inverse phases of block i after phase_rk(j, -(j - i + 1)). */
  lemma InversePhase(b: Amplitudes, i: nat, j: nat, lo: nat, k: int, nm: Numerics, n: nat)
    requires |b| == Pow2(n) && i < j < n && lo == j + 1 && k == j - i + 1
    ensures ListFits(PhasesDown(i, lo, n), n) && ListFits(PhasesDown(i, j, n), n)
    ensures Run(b, PhasesDown(i, j, n), nm, n) ==
            PhaseAct(Run(b, PhasesDown(i, lo, n), nm, n), PhaseFactor(nm, -k), j, n)
  {
    PhasesDownForm(i, lo, n);
    PhasesDownForm(i, j, n);
    assert PhasesDown(i, j, n) == PhasesDown(i, lo, n) + [RGate(j, -k)];
    RunSnoc(b, PhasesDown(i, lo, n), RGate(j, -k), nm, n);
  }

  /** An inverse block finishes with h(i). */
  lemma InverseH(b: Amplitudes, i: nat, lo: nat, nm: Numerics, n: nat)
    requires |b| == Pow2(n) && i < n && lo == i + 1
    ensures ListFits(PhasesDown(i, lo, n), n) && ListFits(InvBlock(i, n), n)
    ensures Run(b, InvBlock(i, n), nm, n) == HAct(Run(b, PhasesDown(i, lo, n), nm, n), nm.invSqrt2, i, n)
  {
    PhasesDownForm(i, lo, n);
    RunSnoc(b, PhasesDown(i, lo, n), HGate(i), nm, n);
  }

  /** A finished inverse block extends the ones issued before it. */
  lemma InverseBlockDone(a: Amplitudes, i: nat, lo: nat, nm: Numerics, n: nat)
    requires |a| == Pow2(n) && i < n && lo == i + 1
    ensures ListFits(BlocksDown(lo, n, n), n) && ListFits(InvBlock(i, n), n) && ListFits(BlocksDown(i, n, n), n)
    ensures Run(a, BlocksDown(i, n, n), nm, n) == Run(Run(a, BlocksDown(lo, n, n), nm, n), InvBlock(i, n), nm, n)
  {
    BlocksDownFits(lo, n, n);
    BlocksDownFits(i, n, n);
    PhasesDownForm(i, lo, n);
    assert BlocksDown(i, n, n) == BlocksDown(lo, n, n) + InvBlock(i, n);
    RunAppend(a, BlocksDown(lo, n, n), InvBlock(i, n), nm, n);
  }

  /** The two stages of a circuit run one after the other. */
  lemma Stages(a: Amplitudes, nm: Numerics, n: nat)
    requires |a| == Pow2(n)
    ensures ListFits(BlocksUp(0, n, n), n) && ListFits(Swaps(n / 2, n), n) && ListFits(BlocksDown(0, n, n), n)
    ensures Run(a, Forward(n), nm, n) == Run(Run(a, BlocksUp(0, n, n), nm, n), Swaps(n / 2, n), nm, n)
    ensures Run(a, Inverse(n), nm, n) == Run(Run(a, Swaps(n / 2, n), nm, n), BlocksDown(0, n, n), nm, n)
  {
    BlocksUpFits(0, n, n);
    BlocksDownFits(0, n, n);
    SwapsForm(n / 2, n);
    RunAppend(a, BlocksUp(0, n, n), Swaps(n / 2, n), nm, n);
    RunAppend(a, Swaps(n / 2, n), BlocksDown(0, n, n), nm, n);
  }

  // ---------------------------------------------------------------------
  // The circuits on a register

  /** One iteration of apply_qft's first loop: h(i), then phase_rk(j, j-i+1)
    * for j = i+1 .. n-1. */
  method ForwardBlock(reg: QubitRegister, i: nat, nm: Numerics)
    requires reg.Valid() && i < reg.numQubits
    modifies reg
    ensures reg.Valid() && reg.numQubits == old(reg.numQubits)
    ensures ListFits(Block(i, reg.numQubits), reg.numQubits)
    ensures reg.amplitudes == Run(old(reg.amplitudes), Block(i, reg.numQubits), nm, reg.numQubits)
  {
    var n := reg.Size();
    ghost var blockStart := reg.amplitudes;
    ForwardH(blockStart, i, nm, n);
    Gates.H(reg, i, nm);
    for j := i + 1 to n
      invariant reg.Valid() && reg.numQubits == n
      invariant ListFits([HGate(i)] + PhasesUp(i, j), n)
      invariant reg.amplitudes == Run(blockStart, [HGate(i)] + PhasesUp(i, j), nm, n)
    {
      var k := j - i + 1;
      ForwardPhase(blockStart, i, j, k, nm, n);
      Gates.PhaseRk(reg, j, k, nm);
    }
  }

  /** The swap loop both circuits share: swap(i, n-1-i) for i below n/2. */
  method SwapStage(reg: QubitRegister, nm: Numerics)
    requires reg.Valid()
    modifies reg
    ensures reg.Valid() && reg.numQubits == old(reg.numQubits)
    ensures ListFits(Swaps(reg.numQubits / 2, reg.numQubits), reg.numQubits)
    ensures reg.amplitudes == Run(old(reg.amplitudes), Swaps(reg.numQubits / 2, reg.numQubits), nm, reg.numQubits)
  {
    var n := reg.Size();
    ghost var start := reg.amplitudes;
    SwapsForm(0, n);
    for i := 0 to n / 2
      invariant reg.Valid() && reg.numQubits == n
      invariant ListFits(Swaps(i, n), n)
      invariant reg.amplitudes == Run(start, Swaps(i, n), nm, n)
    {
      var partner := n - 1 - i;
      SwapStep(start, i, partner, nm, n);
      Gates.Swap(reg, i, partner);
    }
  }

  /** One iteration of apply_inverse_qft's second loop: phase_rk(j, -(j-i+1))
    * for j = n-1 down to i+1, then h(i). */
  method InverseBlock(reg: QubitRegister, i: nat, nm: Numerics)
    requires reg.Valid() && i < reg.numQubits
    modifies reg
    ensures reg.Valid() && reg.numQubits == old(reg.numQubits)
    ensures ListFits(InvBlock(i, reg.numQubits), reg.numQubits)
    ensures reg.amplitudes == Run(old(reg.amplitudes), InvBlock(i, reg.numQubits), nm, reg.numQubits)
  {
    var n := reg.Size();
    ghost var blockStart := reg.amplitudes;
    ghost var issued, lo := PhasesDown(i, n, n), n;
    PhasesDownForm(i, n, n);
    var j: int := n as int - 1;
    while j > i
      invariant i <= j < n && lo == j + 1
      invariant reg.Valid() && reg.numQubits == n
      invariant issued == PhasesDown(i, lo, n) && ListFits(issued, n)
      invariant reg.amplitudes == Run(blockStart, issued, nm, n)
    {
      var k := j - i + 1;
      InversePhase(blockStart, i, j, lo, k, nm, n);
      Gates.PhaseRk(reg, j, -k, nm);
      issued, lo := PhasesDown(i, j, n), j;
      j := j - 1;
    }
    InverseH(blockStart, i, lo, nm, n);
    Gates.H(reg, i, nm);
  }

  /** apply_qft */
  method ApplyQft(reg: QubitRegister, nm: Numerics)
    requires reg.Valid()
    modifies reg
    ensures reg.Valid() && reg.numQubits == old(reg.numQubits)
    ensures reg.amplitudes == Run(old(reg.amplitudes), Forward(reg.numQubits), nm, reg.numQubits)
  {
    var n := reg.Size();
    ghost var start := reg.amplitudes;
    BlocksUpFits(0, 0, n);
    for i := 0 to n
      invariant reg.Valid() && reg.numQubits == n
      invariant ListFits(BlocksUp(0, i, n), n)
      invariant reg.amplitudes == Run(start, BlocksUp(0, i, n), nm, n)
    {
      ForwardBlockDone(start, i, nm, n);
      ForwardBlock(reg, i, nm);
    }
    SwapStage(reg, nm);
    Stages(start, nm, n);
  }

  /** apply_inverse_qft */
  method ApplyInverseQft(reg: QubitRegister, nm: Numerics)
    requires reg.Valid()
    modifies reg
    ensures reg.Valid() && reg.numQubits == old(reg.numQubits)
    ensures reg.amplitudes == Run(old(reg.amplitudes), Inverse(reg.numQubits), nm, reg.numQubits)
  {
    var n := reg.Size();
    ghost var start := reg.amplitudes;
    SwapStage(reg, nm);
    ghost var blocksStart := reg.amplitudes;
    assert blocksStart == Run(start, Swaps(n / 2, n), nm, n);
    ghost var blocksIssued, blocksLo := BlocksDown(n, n, n), n;
    BlocksDownFits(n, n, n);
    var i: int := n as int - 1;
    while i >= 0
      invariant -1 <= i < n && blocksLo == i + 1
      invariant reg.Valid() && reg.numQubits == n
      invariant blocksIssued == BlocksDown(blocksLo, n, n) && ListFits(blocksIssued, n)
      invariant reg.amplitudes == Run(blocksStart, blocksIssued, nm, n)
    {
      InverseBlockDone(blocksStart, i, blocksLo, nm, n);
      InverseBlock(reg, i, nm);
      blocksIssued, blocksLo := BlocksDown(i, n, n), i;
      i := i - 1;
    }
    assert blocksLo == 0;
    assert reg.amplitudes == Run(blocksStart, BlocksDown(0, n, n), nm, n);
    Stages(start, nm, n);
  }
}
