/**
 * The gate library (src/quantum/gates.cpp).
 *
 * Each gate is a constant matrix and a target list handed to
 * `QubitRegister.ApplyUnitary`. The matrices are given here as functions;
 * for each gate a closed form of its effect on the amplitude vector is
 * proved equal to the general matrix application, and the closed forms
 * carry the algebraic laws (involutions, fixed points, diagonal phases).
 *
 * The two irrational constants, 1/sqrt(2) and cos/sin of an angle, come in as
 * a `Numerics` value; `Exact` states the facts the proofs use about them.
 */
module Gates {
  import opened Bits
  import opened Complexes
  import opened Register

  /** The constants the library computes with std::sqrt, std::cos and
    * std::sin. `cis(t)` is cos(2 pi t) + i sin(2 pi t): the angle is
    * measured in whole turns so that 2 pi never has to be written down. */
  datatype Numerics = Numerics(invSqrt2: real, cis: real -> Complex)

  /** The exact values: (1/sqrt 2)^2 == 1/2, every cis value is on the unit
    * circle, and a whole number of turns is the identity rotation. */
  ghost predicate Exact(nm: Numerics)
  {
    2.0 * nm.invSqrt2 * nm.invSqrt2 == 1.0 &&
    (forall t :: IsUnit(nm.cis(t))) &&
    (forall t: real :: t == t.Floor as real ==> nm.cis(t) == One)
  }

  // ---------------------------------------------------------------------
  // The matrices

  function XMatrix(): (u: Matrix)
    ensures IsSquare(u, Pow2(1))
  {
    [[Zero, One],
     [One, Zero]]
  }

  function HMatrix(h: real): (u: Matrix)
    ensures IsSquare(u, Pow2(1))
  {
    [[Real(h), Real(h)],
     [Real(h), Real(-h)]]
  }

  function ZMatrix(): (u: Matrix)
    ensures IsSquare(u, Pow2(1))
  {
    [[One, Zero],
     [Zero, Real(-1.0)]]
  }

  function CnotMatrix(): (u: Matrix)
    ensures IsSquare(u, Pow2(2))
  {
    [[One, Zero, Zero, Zero],
     [Zero, One, Zero, Zero],
     [Zero, Zero, Zero, One],
     [Zero, Zero, One, Zero]]
  }

  function SwapMatrix(): (u: Matrix)
    ensures IsSquare(u, Pow2(2))
  {
    [[One, Zero, Zero, Zero],
     [Zero, Zero, One, Zero],
     [Zero, One, Zero, Zero],
     [Zero, Zero, Zero, One]]
  }

  function PhaseMatrix(w: Complex): (u: Matrix)
    ensures IsSquare(u, Pow2(1))
  {
    [[One, Zero],
     [Zero, w]]
  }

  /** The angle of phase_rk in turns: 2 pi / 2^k radians is 1 / 2^k turns,
    * and for negative k it is 2^-k turns, a whole number. */
  function PhaseTurns(k: int): (t: real)
    ensures k < 0 ==> t == t.Floor as real
  {
    if k >= 0 then 1.0 / (Pow2(k) as real) else Pow2(-k) as real
  }

  /** The diagonal entry of phase_rk(k): e^(2 pi i / 2^k). */
  function PhaseFactor(nm: Numerics, k: int): Complex
  {
    nm.cis(PhaseTurns(k))
  }

  /** Every phase factor is a unit, and a negative k gives exactly 1. */
  lemma PhaseFactorFacts(nm: Numerics, k: int)
    requires Exact(nm)
    ensures IsUnit(PhaseFactor(nm, k))
    ensures k < 0 ==> PhaseFactor(nm, k) == One
  {
  }

  // ---------------------------------------------------------------------
  // Applying a one- or two-target matrix

  /** The index with target bits p and q set to bp and bq. */
  function Place(d: nat, p: nat, q: nat, bp: nat, bq: nat): nat
    requires bp < 2 && bq < 2
  {
    SetBit(SetBit(d, p, bp), q, bq)
  }

  /** With one target the gather sum has two terms. */
  lemma OneTarget(a: Amplitudes, u: Matrix, t: nat, n: nat, d: nat)
    requires Fits(a, u, [t], n) && d < |a|
    ensures SetBit(d, t, 0) < |a| && SetBit(d, t, 1) < |a|
    ensures Applied(a, u, [t], n)[d] ==
      Add(Mul(u[Bit(d, t)][0], a[SetBit(d, t, 0)]), Mul(u[Bit(d, t)][1], a[SetBit(d, t, 1)]))
  {
    var ts := [t];
    assert ts[1..] == [] && ts[0] < n;
    SetBitBound(d, t, 0, n);
    SetBitBound(d, t, 1, n);
    assert Extract(d, ts) == Bit(d, t);
    assert Deposit(d, ts, 0) == SetBit(d, t, 0);
    assert Deposit(d, ts, 1) == SetBit(d, t, 1);
    var t0, t1 := Term(a, u, ts, n, d, 0), Term(a, u, ts, n, d, 1);
    assert t0 == Mul(u[Bit(d, t)][0], a[SetBit(d, t, 0)]);
    assert t1 == Mul(u[Bit(d, t)][1], a[SetBit(d, t, 1)]);
    assert Pow2(|ts|) == 2;
    assert Gather(a, u, ts, n, d, 1) == Add(Zero, t0);
    assert Applied(a, u, ts, n)[d] == Add(Gather(a, u, ts, n, d, 1), t1);
  }

  /** The local index of d for targets [p, q], and the index that local
    * column c of that pair stands for. */
  lemma PairLocal(d: nat, p: nat, q: nat, c: nat)
    requires c < 4
    ensures Extract(d, [p, q]) == Bit(d, p) + 2 * Bit(d, q)
    ensures Deposit(d, [p, q], c) == Place(d, p, q, c % 2, (c / 2) % 2)
  {
    var ts := [p, q];
    assert ts[1..] == [q] && ts[1..][1..] == [];
    assert Deposit(d, ts, c) == Deposit(SetBit(d, p, c % 2), [q], c / 2);
    assert Deposit(SetBit(d, p, c % 2), [q], c / 2) == Deposit(Place(d, p, q, c % 2, (c / 2) % 2), [], c / 2 / 2);
  }

  /** With two targets [p, q] the local index is bit p + 2 * bit q and the
    * gather sum has four terms. */
  lemma TwoTargets(a: Amplitudes, u: Matrix, p: nat, q: nat, n: nat, d: nat)
    requires Fits(a, u, [p, q], n) && d < |a|
    ensures forall bp, bq :: 0 <= bp < 2 && 0 <= bq < 2 ==> Place(d, p, q, bp, bq) < |a|
    ensures var row := Bit(d, p) + 2 * Bit(d, q);
      Applied(a, u, [p, q], n)[d] ==
        Add(Add(Add(Mul(u[row][0], a[Place(d, p, q, 0, 0)]),
                    Mul(u[row][1], a[Place(d, p, q, 1, 0)])),
                Mul(u[row][2], a[Place(d, p, q, 0, 1)])),
            Mul(u[row][3], a[Place(d, p, q, 1, 1)]))
  {
    var ts := [p, q];
    assert ts[0] < n && ts[1] < n;
    forall bp, bq | 0 <= bp < 2 && 0 <= bq < 2
      ensures Place(d, p, q, bp, bq) < |a|
    {
      SetBitBound(d, p, bp, n);
      SetBitBound(SetBit(d, p, bp), q, bq, n);
    }
    var row := Bit(d, p) + 2 * Bit(d, q);
    PairTerm(a, u, p, q, n, d, 0, row, Place(d, p, q, 0, 0));
    PairTerm(a, u, p, q, n, d, 1, row, Place(d, p, q, 1, 0));
    PairTerm(a, u, p, q, n, d, 2, row, Place(d, p, q, 0, 1));
    PairTerm(a, u, p, q, n, d, 3, row, Place(d, p, q, 1, 1));
    assert Pow2(|ts|) == 4;
    var t0, t1 := Term(a, u, ts, n, d, 0), Term(a, u, ts, n, d, 1);
    var t2, t3 := Term(a, u, ts, n, d, 2), Term(a, u, ts, n, d, 3);
    assert Gather(a, u, ts, n, d, 1) == Add(Zero, t0) == t0;
    assert Gather(a, u, ts, n, d, 2) == Add(t0, t1);
    assert Gather(a, u, ts, n, d, 3) == Add(Add(t0, t1), t2);
    assert Applied(a, u, ts, n)[d] == Add(Add(Add(t0, t1), t2), t3);
  }

  /** Local column c of a two-target gate at index d. */
  lemma PairTerm(a: Amplitudes, u: Matrix, p: nat, q: nat, n: nat, d: nat, c: nat, row: nat, idx: nat)
    requires Fits(a, u, [p, q], n) && d < |a| && c < 4 && idx < |a|
    requires row == Bit(d, p) + 2 * Bit(d, q) && idx == Place(d, p, q, c % 2, (c / 2) % 2)
    ensures row < 4
    ensures Term(a, u, [p, q], n, d, c) == Mul(u[row][c], a[idx])
  {
    PairLocal(d, p, q, c);
  }

  /** Placing a bit's own value back, or setting q to its current value after
    * changing p, leaves those bits as they were. */
  lemma PlaceKeeps(d: nat, p: nat, q: nat, bp: nat)
    requires p != q && bp < 2
    ensures Place(d, p, q, bp, Bit(d, q)) == SetBit(d, p, bp)
    ensures Place(d, p, q, Bit(d, p), Bit(d, q)) == d
  {
    BitOfSetBit(d, p, bp, q);
    SetBitOwnBit(SetBit(d, p, bp), q);
    SetBitOwnBit(d, p);
    SetBitOwnBit(d, q);
  }

  // ---------------------------------------------------------------------
  // Closed forms

  /** x(t): the amplitude at s comes from s with bit t flipped. */
  function XAct(a: Amplitudes, t: nat, n: nat): (r: Amplitudes)
    requires |a| == Pow2(n) && t < n
    ensures |r| == |a|
  {
    seq(|a|, s requires 0 <= s < |a| =>
      FlipBitBound(s, t, n);
      a[FlipBit(s, t)])
  }

  /** z(t): negate the amplitudes whose bit t is set. */
  function ZAct(a: Amplitudes, t: nat, n: nat): (r: Amplitudes)
    requires |a| == Pow2(n) && t < n
    ensures |r| == |a|
  {
    seq(|a|, s requires 0 <= s < |a| => if Bit(s, t) == 1 then Neg(a[s]) else a[s])
  }

  /** h(t): each pair differing only in bit t is replaced by h times its sum
    * (at the member with bit t clear) and its difference (bit t set). */
  function HAct(a: Amplitudes, h: real, t: nat, n: nat): (r: Amplitudes)
    requires |a| == Pow2(n) && t < n
    ensures |r| == |a|
  {
    seq(|a|, s requires 0 <= s < |a| =>
      SetBitBound(s, t, 0, n);
      SetBitBound(s, t, 1, n);
      var lo, hi := a[SetBit(s, t, 0)], a[SetBit(s, t, 1)];
      if Bit(s, t) == 0 then Mul(Real(h), Add(lo, hi)) else Mul(Real(h), Sub(lo, hi)))
  }

  /** One entry of h(t). */
  lemma HActAt(a: Amplitudes, h: real, t: nat, n: nat, s: nat)
    requires |a| == Pow2(n) && t < n && s < |a|
    ensures SetBit(s, t, 0) < |a| && SetBit(s, t, 1) < |a|
    ensures HAct(a, h, t, n)[s] ==
      if Bit(s, t) == 0 then Mul(Real(h), Add(a[SetBit(s, t, 0)], a[SetBit(s, t, 1)]))
      else Mul(Real(h), Sub(a[SetBit(s, t, 0)], a[SetBit(s, t, 1)]))
  {
    SetBitBound(s, t, 0, n);
    SetBitBound(s, t, 1, n);
  }

  /** phase_rk(t, k) and any diagonal 1/w gate: multiply by w where bit t is set. */
  function PhaseAct(a: Amplitudes, w: Complex, t: nat, n: nat): (r: Amplitudes)
    requires |a| == Pow2(n) && t < n
    ensures |r| == |a|
  {
    seq(|a|, s requires 0 <= s < |a| => if Bit(s, t) == 1 then Mul(w, a[s]) else a[s])
  }

  /** swap(p, q): the amplitude at s comes from s with bits p and q exchanged. */
  function SwapAct(a: Amplitudes, p: nat, q: nat, n: nat): (r: Amplitudes)
    requires |a| == Pow2(n) && p < n && q < n
    ensures |r| == |a|
  {
    seq(|a|, s requires 0 <= s < |a| =>
      SwapBitsBound(s, p, q, n);
      a[SwapBits(s, p, q)])
  }

  /** One entry of swap(p, q). */
  lemma SwapActAt(a: Amplitudes, p: nat, q: nat, n: nat, s: nat)
    requires |a| == Pow2(n) && p < n && q < n && s < |a|
    ensures SwapBits(s, p, q) < |a|
    ensures SwapAct(a, p, q, n)[s] == a[SwapBits(s, p, q)]
  {
    SwapBitsBound(s, p, q, n);
  }

  /** cnot(c, t) as written: the amplitude at s comes from s with bit c
    * flipped when bit t of s is set; c is the bit that changes. */
  function CnotAct(a: Amplitudes, c: nat, t: nat, n: nat): (r: Amplitudes)
    requires |a| == Pow2(n) && c < n && t < n
    ensures |r| == |a|
  {
    seq(|a|, s requires 0 <= s < |a| =>
      FlipBitBound(s, c, n);
      a[if Bit(s, t) == 1 then FlipBit(s, c) else s])
  }

  // ---------------------------------------------------------------------
  // Each closed form is the matrix application

  lemma XApplied(a: Amplitudes, t: nat, n: nat)
    requires |a| == Pow2(n) && t < n
    ensures Applied(a, XMatrix(), [t], n) == XAct(a, t, n)
  {
    forall s | 0 <= s < |a|
      ensures Applied(a, XMatrix(), [t], n)[s] == XAct(a, t, n)[s]
    {
      OneTarget(a, XMatrix(), t, n, s);
    }
  }

  lemma ZApplied(a: Amplitudes, t: nat, n: nat)
    requires |a| == Pow2(n) && t < n
    ensures Applied(a, ZMatrix(), [t], n) == ZAct(a, t, n)
  {
    forall s | 0 <= s < |a|
      ensures Applied(a, ZMatrix(), [t], n)[s] == ZAct(a, t, n)[s]
    {
      OneTarget(a, ZMatrix(), t, n, s);
      SetBitOwnBit(s, t);
    }
  }

  lemma HApplied(a: Amplitudes, h: real, t: nat, n: nat)
    requires |a| == Pow2(n) && t < n
    ensures Applied(a, HMatrix(h), [t], n) == HAct(a, h, t, n)
  {
    forall s | 0 <= s < |a|
      ensures Applied(a, HMatrix(h), [t], n)[s] == HAct(a, h, t, n)[s]
    {
      OneTarget(a, HMatrix(h), t, n, s);
      RealScaleDistrib(h, a[SetBit(s, t, 0)], a[SetBit(s, t, 1)]);
    }
  }

  lemma PhaseApplied(a: Amplitudes, w: Complex, t: nat, n: nat)
    requires |a| == Pow2(n) && t < n
    ensures Applied(a, PhaseMatrix(w), [t], n) == PhaseAct(a, w, t, n)
  {
    forall s | 0 <= s < |a|
      ensures Applied(a, PhaseMatrix(w), [t], n)[s] == PhaseAct(a, w, t, n)[s]
    {
      OneTarget(a, PhaseMatrix(w), t, n, s);
      SetBitOwnBit(s, t);
    }
  }

  lemma SwapAppliedAt(a: Amplitudes, p: nat, q: nat, n: nat, s: nat)
    requires |a| == Pow2(n) && p < n && q < n && p != q && s < |a|
    ensures Applied(a, SwapMatrix(), [p, q], n)[s] == SwapAct(a, p, q, n)[s]
  {
    TwoTargets(a, SwapMatrix(), p, q, n, s);
    SwapActAt(a, p, q, n, s);
    PlaceKeeps(s, p, q, Bit(s, p));
    if Bit(s, p) == Bit(s, q) {
      SwapBitsEqual(s, p, q);
    }
  }

  lemma SwapApplied(a: Amplitudes, p: nat, q: nat, n: nat)
    requires |a| == Pow2(n) && p < n && q < n && p != q
    ensures Applied(a, SwapMatrix(), [p, q], n) == SwapAct(a, p, q, n)
  {
    forall s | 0 <= s < |a|
      ensures Applied(a, SwapMatrix(), [p, q], n)[s] == SwapAct(a, p, q, n)[s]
    {
      SwapAppliedAt(a, p, q, n, s);
    }
  }

  lemma CnotApplied(a: Amplitudes, c: nat, t: nat, n: nat)
    requires |a| == Pow2(n) && c < n && t < n && c != t
    ensures Applied(a, CnotMatrix(), [c, t], n) == CnotAct(a, c, t, n)
  {
    forall s | 0 <= s < |a|
      ensures Applied(a, CnotMatrix(), [c, t], n)[s] == CnotAct(a, c, t, n)[s]
    {
      TwoTargets(a, CnotMatrix(), c, t, n, s);
      PlaceKeeps(s, c, t, Bit(s, c));
      PlaceKeeps(s, c, t, 1 - Bit(s, c));
    }
  }

  // ---------------------------------------------------------------------
  // Laws of the closed forms

  /** x is an involution. */
  lemma XTwice(a: Amplitudes, t: nat, n: nat)
    requires |a| == Pow2(n) && t < n
    ensures XAct(XAct(a, t, n), t, n) == a
  {
    forall s | 0 <= s < |a|
      ensures XAct(XAct(a, t, n), t, n)[s] == a[s]
    {
      FlipBitBound(s, t, n);
      FlipBitTwice(s, t);
    }
  }

  /** z is an involution. */
  lemma ZTwice(a: Amplitudes, t: nat, n: nat)
    requires |a| == Pow2(n) && t < n
    ensures ZAct(ZAct(a, t, n), t, n) == a
  {
    forall s | 0 <= s < |a|
      ensures ZAct(ZAct(a, t, n), t, n)[s] == a[s]
    {
    }
  }

  /** h(t) maps the pair (s with bit t clear, s with bit t set) to the
    * scaled sum and difference of its two amplitudes. */
  lemma HActPair(a: Amplitudes, h: real, t: nat, n: nat, s: nat)
    requires |a| == Pow2(n) && t < n && s < |a|
    ensures SetBit(s, t, 0) < |a| && SetBit(s, t, 1) < |a|
    ensures var s0, s1 := SetBit(s, t, 0), SetBit(s, t, 1);
      HAct(a, h, t, n)[s0] == Mul(Real(h), Add(a[s0], a[s1])) &&
      HAct(a, h, t, n)[s1] == Mul(Real(h), Sub(a[s0], a[s1]))
  {
    var s0, s1 := SetBit(s, t, 0), SetBit(s, t, 1);
    SetBitPair(s, t);
    SetBitBound(s, t, 0, n);
    SetBitBound(s, t, 1, n);
    HActEntry(a, h, t, n, s0, s0, s1);
    HActEntry(a, h, t, n, s1, s0, s1);
  }

  /** One entry of h(t), given its pair of indices. */
  lemma HActEntry(a: Amplitudes, h: real, t: nat, n: nat, s: nat, lo: nat, hi: nat)
    requires |a| == Pow2(n) && t < n && s < |a| && lo < |a| && hi < |a|
    requires lo == SetBit(s, t, 0) && hi == SetBit(s, t, 1)
    ensures HAct(a, h, t, n)[s] ==
      if Bit(s, t) == 0 then Mul(Real(h), Add(a[lo], a[hi])) else Mul(Real(h), Sub(a[lo], a[hi]))
  {
  }

  /** h(t) twice restores both amplitudes of a pair. */
  lemma HTwicePair(a: Amplitudes, h: real, t: nat, n: nat, s: nat)
    requires |a| == Pow2(n) && t < n && 2.0 * h * h == 1.0 && s < |a|
    ensures SetBit(s, t, 0) < |a| && SetBit(s, t, 1) < |a|
    ensures HAct(HAct(a, h, t, n), h, t, n)[SetBit(s, t, 0)] == a[SetBit(s, t, 0)]
    ensures HAct(HAct(a, h, t, n), h, t, n)[SetBit(s, t, 1)] == a[SetBit(s, t, 1)]
  {
    var b := HAct(a, h, t, n);
    HActPair(a, h, t, n, s);
    HActPair(b, h, t, n, s);
    HalfSums(h, a[SetBit(s, t, 0)], a[SetBit(s, t, 1)]);
  }

  lemma HTwiceAt(a: Amplitudes, nm: Numerics, t: nat, n: nat, s: nat)
    requires |a| == Pow2(n) && t < n && Exact(nm) && s < |a|
    ensures HAct(HAct(a, nm.invSqrt2, t, n), nm.invSqrt2, t, n)[s] == a[s]
  {
    HTwicePair(a, nm.invSqrt2, t, n, s);
    SetBitEither(s, t);
  }

  /** With the exact constant, h is an involution. */
  lemma HTwice(a: Amplitudes, nm: Numerics, t: nat, n: nat)
    requires |a| == Pow2(n) && t < n && Exact(nm)
    ensures HAct(HAct(a, nm.invSqrt2, t, n), nm.invSqrt2, t, n) == a
  {
    forall s | 0 <= s < |a|
      ensures HAct(HAct(a, nm.invSqrt2, t, n), nm.invSqrt2, t, n)[s] == a[s]
    {
      HTwiceAt(a, nm, t, n, s);
    }
  }

  /** swap exchanges back: an involution. */
  lemma SwapTwice(a: Amplitudes, p: nat, q: nat, n: nat)
    requires |a| == Pow2(n) && p < n && q < n
    ensures SwapAct(SwapAct(a, p, q, n), p, q, n) == a
  {
    forall s | 0 <= s < |a|
      ensures SwapAct(SwapAct(a, p, q, n), p, q, n)[s] == a[s]
    {
      SwapBitsBound(s, p, q, n);
      SwapBitsTwice(s, p, q);
    }
  }

  /** swap fixes every amplitude whose index has equal bits p and q. */
  lemma SwapFixes(a: Amplitudes, p: nat, q: nat, n: nat, s: nat)
    requires |a| == Pow2(n) && p < n && q < n && s < |a| && Bit(s, p) == Bit(s, q)
    ensures SwapAct(a, p, q, n)[s] == a[s]
  {
    SwapBitsEqual(s, p, q);
  }

  /** cnot with distinct qubits is an involution. */
  lemma CnotTwice(a: Amplitudes, c: nat, t: nat, n: nat)
    requires |a| == Pow2(n) && c < n && t < n && c != t
    ensures CnotAct(CnotAct(a, c, t, n), c, t, n) == a
  {
    forall s | 0 <= s < |a|
      ensures CnotAct(CnotAct(a, c, t, n), c, t, n)[s] == a[s]
    {
      FlipBitBound(s, c, n);
      BitOfFlipBit(s, c, t);
      FlipBitTwice(s, c);
    }
  }

  /** cnot(c, t) moves nothing while every amplitude whose bit t is set is zero. */
  lemma CnotIdleWithoutTarget(a: Amplitudes, c: nat, t: nat, n: nat)
    requires |a| == Pow2(n) && c < n && t < n && c != t
    requires forall s :: 0 <= s < |a| && Bit(s, t) == 1 ==> a[s] == Zero
    ensures CnotAct(a, c, t, n) == a
  {
    forall s | 0 <= s < |a|
      ensures CnotAct(a, c, t, n)[s] == a[s]
    {
      FlipBitBound(s, c, n);
      BitOfFlipBit(s, c, t);
    }
  }

  /** h(0) on the ground state leaves zero weight on every index whose bit 1 is set. */
  lemma HOnGroundAt(h: real, n: nat, s: nat)
    requires 2 <= n && s < Pow2(n) && Bit(s, 1) == 1
    ensures HAct(Basis(n, 0), h, 0, n)[s] == Zero
  {
    var a := Basis(n, 0);
    var lo, hi := SetBit(s, 0, 0), SetBit(s, 0, 1);
    SetBitBound(s, 0, 0, n);
    SetBitBound(s, 0, 1, n);
    BitOfSetBit(s, 0, 0, 1);
    BitOfSetBit(s, 0, 1, 1);
    assert lo != 0 && hi != 0 by {
      assert Bit(0, 1) == 0;
    }
    assert a[lo] == Zero && a[hi] == Zero;
    HActEntry(a, h, 0, n, s, lo, hi);
  }

  /** h(0) then cnot(0, 1) on the ground state: since cnot flips its control
    * bit when its target bit is set, and bit 1 is clear wherever h(0) put
    * weight, the cnot changes nothing. The weight stays on indices 0 and 1
    * and never reaches index 3. */
  lemma CnotAfterHOnGround(nm: Numerics, n: nat)
    requires 2 <= n
    ensures var a := HAct(Basis(n, 0), nm.invSqrt2, 0, n);
      CnotAct(a, 0, 1, n) == a &&
      forall s :: 0 <= s < |a| && Bit(s, 1) == 1 ==> CnotAct(a, 0, 1, n)[s] == Zero
  {
    var a := HAct(Basis(n, 0), nm.invSqrt2, 0, n);
    forall s | 0 <= s < |a| && Bit(s, 1) == 1
      ensures a[s] == Zero
    {
      HOnGroundAt(nm.invSqrt2, n, s);
    }
    CnotIdleWithoutTarget(a, 0, 1, n);
  }

  /** A phase of exactly 1 changes nothing, so phase_rk with negative k is the identity. */
  lemma PhaseOne(a: Amplitudes, t: nat, n: nat)
    requires |a| == Pow2(n) && t < n
    ensures PhaseAct(a, One, t, n) == a
  {
    forall s | 0 <= s < |a|
      ensures PhaseAct(a, One, t, n)[s] == a[s]
    {
    }
  }

  // ---------------------------------------------------------------------
  // The gate operations of the library

  /** x(target) */
  method X(reg: QubitRegister, target: nat)
    requires reg.Valid() && target < reg.numQubits
    modifies reg
    ensures reg.Valid() && reg.numQubits == old(reg.numQubits)
    ensures reg.amplitudes == XAct(old(reg.amplitudes), target, reg.numQubits)
  {
    XApplied(reg.amplitudes, target, reg.numQubits);
    reg.ApplyUnitary(XMatrix(), [target]);
  }

  /** h(target) */
  method H(reg: QubitRegister, target: nat, nm: Numerics)
    requires reg.Valid() && target < reg.numQubits
    modifies reg
    ensures reg.Valid() && reg.numQubits == old(reg.numQubits)
    ensures reg.amplitudes == HAct(old(reg.amplitudes), nm.invSqrt2, target, reg.numQubits)
  {
    var invSqrt2 := nm.invSqrt2;
    HApplied(reg.amplitudes, invSqrt2, target, reg.numQubits);
    reg.ApplyUnitary(HMatrix(invSqrt2), [target]);
  }

  /** z(target) */
  method Z(reg: QubitRegister, target: nat)
    requires reg.Valid() && target < reg.numQubits
    modifies reg
    ensures reg.Valid() && reg.numQubits == old(reg.numQubits)
    ensures reg.amplitudes == ZAct(old(reg.amplitudes), target, reg.numQubits)
  {
    ZApplied(reg.amplitudes, target, reg.numQubits);
    reg.ApplyUnitary(ZMatrix(), [target]);
  }

  /** cnot(control, target): the target list is {control, target}, so
    * control is local bit 0 and it is the bit that gets flipped. */
  method Cnot(reg: QubitRegister, control: nat, target: nat)
    requires reg.Valid() && control < reg.numQubits && target < reg.numQubits && control != target
    modifies reg
    ensures reg.Valid() && reg.numQubits == old(reg.numQubits)
    ensures reg.amplitudes == CnotAct(old(reg.amplitudes), control, target, reg.numQubits)
  {
    CnotApplied(reg.amplitudes, control, target, reg.numQubits);
    reg.ApplyUnitary(CnotMatrix(), [control, target]);
  }

  /** swap(qubit1, qubit2) */
  method Swap(reg: QubitRegister, qubit1: nat, qubit2: nat)
    requires reg.Valid() && qubit1 < reg.numQubits && qubit2 < reg.numQubits && qubit1 != qubit2
    modifies reg
    ensures reg.Valid() && reg.numQubits == old(reg.numQubits)
    ensures reg.amplitudes == SwapAct(old(reg.amplitudes), qubit1, qubit2, reg.numQubits)
  {
    SwapApplied(reg.amplitudes, qubit1, qubit2, reg.numQubits);
    reg.ApplyUnitary(SwapMatrix(), [qubit1, qubit2]);
  }

  /** phase_rk(target, k) */
  method PhaseRk(reg: QubitRegister, target: nat, k: int, nm: Numerics)
    requires reg.Valid() && target < reg.numQubits
    modifies reg
    ensures reg.Valid() && reg.numQubits == old(reg.numQubits)
    ensures reg.amplitudes == PhaseAct(old(reg.amplitudes), PhaseFactor(nm, k), target, reg.numQubits)
  {
    var phase := PhaseFactor(nm, k);
    PhaseApplied(reg.amplitudes, phase, target, reg.numQubits);
    reg.ApplyUnitary(PhaseMatrix(phase), [target]);
  }
}
