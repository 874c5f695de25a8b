/**
 * Bit arithmetic on basis-state indices.
 *
 * A basis index of an n-qubit register is a natural number below 2^n whose
 * bit i is the value of qubit i. The register code reads bits with
 * `x & (1 << i)`, sets them with `x |= (1 << i)` and clears them with
 * `x &= ~(1 << i)`; here those are `Bit`, `SetBit(x, i, 1)` and
 * `SetBit(x, i, 0)`, defined by halving so that every proof stays in linear
 * arithmetic.
 */
module Bits {

  /** 2^n, the value of `1 << n`. */
  function Pow2(n: nat): (p: nat)
    ensures p >= 1
  {
    if n == 0 then 1 else 2 * Pow2(n - 1)
  }

  /** Bit i of x, that is (x >> i) & 1. */
  function Bit(x: nat, i: nat): (b: nat)
    ensures b < 2
  {
    if i == 0 then x % 2 else Bit(x / 2, i - 1)
  }

  /** x with bit i replaced by b (b is 0 or 1). */
  function SetBit(x: nat, i: nat, b: nat): nat
    requires b < 2
  {
    if i == 0 then x - x % 2 + b else 2 * SetBit(x / 2, i - 1, b) + x % 2
  }

  /** x with bit i inverted, that is x ^ (1 << i). */
  function FlipBit(x: nat, i: nat): nat
  {
    SetBit(x, i, 1 - Bit(x, i))
  }

  /** x with bits p and q exchanged. */
  function SwapBits(x: nat, p: nat, q: nat): nat
  {
    SetBit(SetBit(x, p, Bit(x, q)), q, Bit(x, p))
  }

  /** The "local" index of x for a target list: bit i of the result is bit
    * targets[i] of x (the first listed target is the least significant). */
  function Extract(x: nat, targets: seq<nat>): (c: nat)
    ensures c < Pow2(|targets|)
  {
    if targets == [] then 0 else Bit(x, targets[0]) + 2 * Extract(x, targets[1..])
  }

  /** x with bit targets[i] overwritten by bit i of c, for each i in list order. */
  function Deposit(x: nat, targets: seq<nat>, c: nat): nat
    decreases |targets|
  {
    if targets == [] then x else Deposit(SetBit(x, targets[0], c % 2), targets[1..], c / 2)
  }

  /** No target is listed twice. */
  ghost predicate Distinct(targets: seq<nat>)
  {
    forall i, j :: 0 <= i < j < |targets| ==> targets[i] != targets[j]
  }

  /** Every target is a qubit position below n and no target is listed twice. */
  ghost predicate ValidTargets(targets: seq<nat>, n: nat)
  {
    (forall i :: 0 <= i < |targets| ==> targets[i] < n) && Distinct(targets)
  }

  // ---------------------------------------------------------------------
  // Single bits

  lemma {:induction false} BitOfSetBit(x: nat, i: nat, b: nat, j: nat)
    requires b < 2
    ensures Bit(SetBit(x, i, b), j) == if j == i then b else Bit(x, j)
    decreases i
  {
    if i == 0 {
      if j != 0 {
        assert SetBit(x, i, b) / 2 == x / 2;
      }
    } else {
      var y := SetBit(x, i, b);
      assert y == 2 * SetBit(x / 2, i - 1, b) + x % 2;
      if j != 0 {
        assert y / 2 == SetBit(x / 2, i - 1, b);
        BitOfSetBit(x / 2, i - 1, b, j - 1);
      }
    }
  }

  lemma {:induction false} SetBitOwnBit(x: nat, i: nat)
    ensures SetBit(x, i, Bit(x, i)) == x
    decreases i
  {
    if i != 0 {
      SetBitOwnBit(x / 2, i - 1);
    }
  }

  /** The two members of the pair of indices that differ only in bit i. */
  lemma SetBitPair(x: nat, i: nat)
    ensures var x0, x1 := SetBit(x, i, 0), SetBit(x, i, 1);
      Bit(x0, i) == 0 && Bit(x1, i) == 1 &&
      SetBit(x0, i, 0) == x0 && SetBit(x0, i, 1) == x1 &&
      SetBit(x1, i, 0) == x0 && SetBit(x1, i, 1) == x1
  {
    BitOfSetBit(x, i, 0, i);
    BitOfSetBit(x, i, 1, i);
    SetBitTwice(x, i, 0, 0);
    SetBitTwice(x, i, 0, 1);
    SetBitTwice(x, i, 1, 0);
    SetBitTwice(x, i, 1, 1);
  }

  /** Every index is its own bit-t-cleared or bit-t-set version. */
  lemma SetBitEither(x: nat, i: nat)
    ensures x == SetBit(x, i, 0) || x == SetBit(x, i, 1)
  {
    SetBitOwnBit(x, i);
    if Bit(x, i) == 0 {
      assert SetBit(x, i, Bit(x, i)) == SetBit(x, i, 0);
    } else {
      assert SetBit(x, i, Bit(x, i)) == SetBit(x, i, 1);
    }
  }

  lemma {:induction false} SetBitTwice(x: nat, i: nat, b: nat, b': nat)
    requires b < 2 && b' < 2
    ensures SetBit(SetBit(x, i, b), i, b') == SetBit(x, i, b')
    decreases i
  {
    if i != 0 {
      var y := SetBit(x, i, b);
      assert y / 2 == SetBit(x / 2, i - 1, b) && y % 2 == x % 2;
      SetBitTwice(x / 2, i - 1, b, b');
    }
  }

  lemma {:induction false} SetBitCommute(x: nat, i: nat, b: nat, j: nat, c: nat)
    requires b < 2 && c < 2 && i != j
    ensures SetBit(SetBit(x, i, b), j, c) == SetBit(SetBit(x, j, c), i, b)
    decreases i + j
  {
    if i != 0 && j != 0 {
      var y := SetBit(x, i, b);
      var z := SetBit(x, j, c);
      assert y / 2 == SetBit(x / 2, i - 1, b) && y % 2 == x % 2;
      assert z / 2 == SetBit(x / 2, j - 1, c) && z % 2 == x % 2;
      SetBitCommute(x / 2, i - 1, b, j - 1, c);
    } else if i == 0 {
      var z := SetBit(x, j, c);
      assert z / 2 == SetBit(x / 2, j - 1, c);
    } else {
      var y := SetBit(x, i, b);
      assert y / 2 == SetBit(x / 2, i - 1, b);
    }
  }

  /** Setting a bit keeps an index inside an n-bit register. */
  lemma {:induction false} SetBitBound(x: nat, i: nat, b: nat, n: nat)
    requires b < 2 && x < Pow2(n) && i < n
    ensures SetBit(x, i, b) < Pow2(n)
    decreases i
  {
    if i != 0 {
      SetBitBound(x / 2, i - 1, b, n - 1);
    }
  }

  /** Bits at or above the width of a register are clear. */
  lemma {:induction false} BitAboveWidth(x: nat, j: nat, n: nat)
    requires x < Pow2(n) && n <= j
    ensures Bit(x, j) == 0
    decreases j
  {
    if j != 0 {
      if n == 0 {
        assert x == 0;
        BitAboveWidth(0, j - 1, 0);
      } else {
        BitAboveWidth(x / 2, j - 1, n - 1);
      }
    }
  }

  /** Two n-bit indices with the same n low bits are equal. */
  lemma {:induction false} BitsDetermine(x: nat, y: nat, n: nat)
    requires x < Pow2(n) && y < Pow2(n)
    requires forall j :: 0 <= j < n ==> Bit(x, j) == Bit(y, j)
    ensures x == y
    decreases n
  {
    if n != 0 {
      assert Bit(x, 0) == Bit(y, 0);
      forall j | 0 <= j < n - 1
        ensures Bit(x / 2, j) == Bit(y / 2, j)
      {
        assert Bit(x, j + 1) == Bit(y, j + 1);
      }
      BitsDetermine(x / 2, y / 2, n - 1);
    }
  }

  /** Setting bit i of a number below 2^i adds 2^i, so `|=` and `+` agree there. */
  lemma {:induction false} SetBitAbove(x: nat, i: nat)
    requires x < Pow2(i)
    ensures SetBit(x, i, 1) == x + Pow2(i)
    decreases i
  {
    if i != 0 {
      SetBitAbove(x / 2, i - 1);
    }
  }

  lemma {:induction false} Pow2Monotone(i: nat, n: nat)
    requires i <= n
    ensures Pow2(i) <= Pow2(n)
    decreases n
  {
    if i < n {
      Pow2Monotone(i, n - 1);
    }
  }

  /** `Bit` is the shift-and-mask of the source: (x / 2^i) % 2. */
  lemma {:induction false} BitIsShiftAndMask(x: nat, i: nat)
    ensures Bit(x, i) == (x / Pow2(i)) % 2
    decreases i
  {
    if i != 0 {
      BitIsShiftAndMask(x / 2, i - 1);
      DivDiv(x, Pow2(i - 1));
    }
  }

  lemma DivDiv(x: nat, p: nat)
    requires p >= 1
    ensures x / 2 / p == x / (2 * p)
  {
    var q := x / (2 * p);
    var r := x % (2 * p);
    assert x == q * (2 * p) + r && 0 <= r < 2 * p;
    assert x / 2 == q * p + r / 2;
    assert 0 <= r / 2 < p;
    DivUnique(x / 2, p, q, r / 2);
  }

  lemma DivUnique(x: nat, p: nat, q: nat, r: nat)
    requires p >= 1 && x == q * p + r && r < p
    ensures x / p == q
  {
    QuotientOrder(x / p, q, p, x % p, r);
    QuotientOrder(q, x / p, p, r, x % p);
  }

  lemma QuotientOrder(a: nat, b: nat, p: nat, ra: nat, rb: nat)
    requires ra < p
    ensures a < b ==> a * p + ra < b * p + rb
  {
    if a < b {
      MulMonotone(a + 1, b, p);
      assert (a + 1) * p == a * p + p;
    }
  }

  lemma MulMonotone(a: nat, b: nat, p: nat)
    requires a <= b
    ensures a * p <= b * p
  {
    var d := b - a;
    assert b * p == a * p + d * p;
  }

  lemma {:induction false} FlipBitTwice(x: nat, i: nat)
    ensures FlipBit(FlipBit(x, i), i) == x
  {
    BitOfSetBit(x, i, 1 - Bit(x, i), i);
    SetBitTwice(x, i, 1 - Bit(x, i), Bit(x, i));
    SetBitOwnBit(x, i);
  }

  lemma FlipBitBound(x: nat, i: nat, n: nat)
    requires x < Pow2(n) && i < n
    ensures FlipBit(x, i) < Pow2(n)
  {
    SetBitBound(x, i, 1 - Bit(x, i), n);
  }

  lemma {:induction false} BitOfFlipBit(x: nat, i: nat, j: nat)
    ensures Bit(FlipBit(x, i), j) == if j == i then 1 - Bit(x, i) else Bit(x, j)
  {
    BitOfSetBit(x, i, 1 - Bit(x, i), j);
  }

  lemma {:induction false} BitOfSwapBits(x: nat, p: nat, q: nat, j: nat)
    requires p != q
    ensures Bit(SwapBits(x, p, q), j) == if j == p then Bit(x, q) else if j == q then Bit(x, p) else Bit(x, j)
  {
    BitOfSetBit(SetBit(x, p, Bit(x, q)), q, Bit(x, p), j);
    BitOfSetBit(x, p, Bit(x, q), j);
  }

  /** Exchanging the same two bits twice restores the index. */
  lemma SwapBitsTwice(x: nat, p: nat, q: nat)
    ensures SwapBits(SwapBits(x, p, q), p, q) == x
  {
    var bp, bq := Bit(x, p), Bit(x, q);
    if p == q {
      SetBitOwnBit(x, p);
      SetBitTwice(x, p, bp, bp);
      SetBitOwnBit(x, p);
    } else {
      var y := SwapBits(x, p, q);
      BitOfSwapBits(x, p, q, p);
      BitOfSwapBits(x, p, q, q);
      calc {
        SetBit(y, p, bp);
        SetBit(SetBit(SetBit(x, p, bq), q, bp), p, bp);
        { SetBitCommute(SetBit(x, p, bq), q, bp, p, bp); }
        SetBit(SetBit(SetBit(x, p, bq), p, bp), q, bp);
        { SetBitTwice(x, p, bq, bp); SetBitOwnBit(x, p); }
        SetBit(x, q, bp);
      }
      SetBitTwice(x, q, bp, bq);
      SetBitOwnBit(x, q);
    }
  }

  /** Exchanging two equal bits changes nothing. */
  lemma SwapBitsEqual(x: nat, p: nat, q: nat)
    requires Bit(x, p) == Bit(x, q)
    ensures SwapBits(x, p, q) == x
  {
    SetBitOwnBit(x, p);
    SetBitOwnBit(x, q);
  }

  lemma SwapBitsBound(x: nat, p: nat, q: nat, n: nat)
    requires x < Pow2(n) && p < n && q < n
    ensures SwapBits(x, p, q) < Pow2(n)
  {
    SetBitBound(x, p, Bit(x, q), n);
    SetBitBound(SetBit(x, p, Bit(x, q)), q, Bit(x, p), n);
  }

  // ---------------------------------------------------------------------
  // Gathering and overwriting the bits of a target list

  /** The extraction loop of apply_unitary adds one target per step. */
  lemma {:induction false} ExtractSnoc(x: nat, targets: seq<nat>, t: nat)
    ensures Extract(x, targets + [t]) == Extract(x, targets) + Bit(x, t) * Pow2(|targets|)
    decreases |targets|
  {
    if targets != [] {
      var rest := targets[1..];
      assert (targets + [t])[0] == targets[0] && (targets + [t])[1..] == rest + [t];
      ExtractSnoc(x, rest, t);
      var b0, bt, e := Bit(x, targets[0]), Bit(x, t), Extract(x, rest);
      assert Extract(x, targets + [t]) == b0 + 2 * Extract(x, rest + [t]);
      assert Extract(x, targets) == b0 + 2 * e;
      assert Pow2(|targets|) == 2 * Pow2(|rest|);
      if bt == 0 {
        assert bt * Pow2(|rest|) == 0 && bt * Pow2(|targets|) == 0;
      } else {
        assert bt * Pow2(|rest|) == Pow2(|rest|) && bt * Pow2(|targets|) == Pow2(|targets|);
      }
    }
  }

  /** The overwrite loop of apply_unitary sets one target per step. */
  lemma {:induction false} DepositSnoc(x: nat, targets: seq<nat>, t: nat, c: nat)
    ensures Deposit(x, targets + [t], c) == SetBit(Deposit(x, targets, c), t, Bit(c, |targets|))
    decreases |targets|
  {
    if targets != [] {
      assert (targets + [t])[1..] == targets[1..] + [t];
      DepositSnoc(SetBit(x, targets[0], c % 2), targets[1..], t, c / 2);
    }
  }

  lemma {:induction false} DepositBound(x: nat, targets: seq<nat>, c: nat, n: nat)
    requires x < Pow2(n)
    requires forall i :: 0 <= i < |targets| ==> targets[i] < n
    ensures Deposit(x, targets, c) < Pow2(n)
    decreases |targets|
  {
    if targets != [] {
      SetBitBound(x, targets[0], c % 2, n);
      DepositBound(SetBit(x, targets[0], c % 2), targets[1..], c / 2, n);
    }
  }

  /** Overwriting the targets leaves every other bit alone. */
  lemma {:induction false} DepositKeepsOtherBits(x: nat, targets: seq<nat>, c: nat, j: nat)
    requires j !in targets
    ensures Bit(Deposit(x, targets, c), j) == Bit(x, j)
    decreases |targets|
  {
    if targets != [] {
      DepositKeepsOtherBits(SetBit(x, targets[0], c % 2), targets[1..], c / 2, j);
      BitOfSetBit(x, targets[0], c % 2, j);
    }
  }

  /** Bit targets[i] of the overwritten index is bit i of the local index c. */
  lemma {:induction false} DepositSetsTargets(x: nat, targets: seq<nat>, c: nat, i: nat)
    requires Distinct(targets) && i < |targets|
    ensures Bit(Deposit(x, targets, c), targets[i]) == Bit(c, i)
    decreases |targets|
  {
    var y := SetBit(x, targets[0], c % 2);
    if i == 0 {
      assert targets[0] !in targets[1..];
      DepositKeepsOtherBits(y, targets[1..], c / 2, targets[0]);
      BitOfSetBit(x, targets[0], c % 2, targets[0]);
    } else {
      DepositSetsTargets(y, targets[1..], c / 2, i - 1);
    }
  }

  /** Bit i of the local index is bit targets[i] of the basis index. */
  lemma {:induction false} BitOfExtract(x: nat, targets: seq<nat>, i: nat)
    requires i < |targets|
    ensures Bit(Extract(x, targets), i) == Bit(x, targets[i])
    decreases |targets|
  {
    if i != 0 {
      BitOfExtract(x, targets[1..], i - 1);
    }
  }

  /** Reading the targets back after overwriting them with c gives c. */
  lemma {:induction false} ExtractDeposit(x: nat, targets: seq<nat>, c: nat)
    requires Distinct(targets) && c < Pow2(|targets|)
    ensures Extract(Deposit(x, targets, c), targets) == c
    decreases |targets|
  {
    if targets != [] {
      var x1 := SetBit(x, targets[0], c % 2);
      var y := Deposit(x1, targets[1..], c / 2);
      assert targets[0] !in targets[1..];
      DepositKeepsOtherBits(x1, targets[1..], c / 2, targets[0]);
      BitOfSetBit(x, targets[0], c % 2, targets[0]);
      ExtractDeposit(x1, targets[1..], c / 2);
    }
  }

  /** Overwriting the targets with their own local index changes nothing. */
  lemma {:induction false} DepositExtract(x: nat, targets: seq<nat>)
    ensures Deposit(x, targets, Extract(x, targets)) == x
    decreases |targets|
  {
    if targets != [] {
      var c := Extract(x, targets);
      assert c % 2 == Bit(x, targets[0]) && c / 2 == Extract(x, targets[1..]);
      SetBitOwnBit(x, targets[0]);
      DepositExtract(x, targets[1..]);
    }
  }

  lemma {:induction false} SetBitDeposit(z: nat, targets: seq<nat>, c: nat, t: nat, b: nat)
    requires b < 2 && t !in targets
    ensures SetBit(Deposit(z, targets, c), t, b) == Deposit(SetBit(z, t, b), targets, c)
    decreases |targets|
  {
    if targets != [] {
      SetBitDeposit(SetBit(z, targets[0], c % 2), targets[1..], c / 2, t, b);
      SetBitCommute(z, targets[0], c % 2, t, b);
    }
  }

  /** A second overwrite of the same targets replaces the first. */
  lemma {:induction false} DepositTwice(x: nat, targets: seq<nat>, c: nat, c': nat)
    requires Distinct(targets)
    ensures Deposit(Deposit(x, targets, c), targets, c') == Deposit(x, targets, c')
    decreases |targets|
  {
    if targets != [] {
      var t := targets[0];
      var rest := targets[1..];
      assert t !in rest;
      var z := SetBit(x, t, c % 2);
      // Deposit(x, targets, c) == Deposit(z, rest, c / 2)
      calc {
        Deposit(Deposit(z, rest, c / 2), targets, c');
        Deposit(SetBit(Deposit(z, rest, c / 2), t, c' % 2), rest, c' / 2);
        { SetBitDeposit(z, rest, c / 2, t, c' % 2); }
        Deposit(Deposit(SetBit(z, t, c' % 2), rest, c / 2), rest, c' / 2);
        { DepositTwice(SetBit(z, t, c' % 2), rest, c / 2, c' / 2); }
        Deposit(SetBit(z, t, c' % 2), rest, c' / 2);
        { SetBitTwice(x, t, c % 2, c' % 2); }
        Deposit(x, targets, c');
      }
    }
  }

  /**
   * The scatter loop of apply_unitary sends source index s with output row r
   * to Deposit(s, targets, r). Destination d receives a contribution from
   * (s, r) exactly when r is d's own local index and s is d with its targets
   * overwritten by s's local index.
   */
  lemma SourceOfDestination(d: nat, targets: seq<nat>, c: nat, s: nat, row: nat)
    requires Distinct(targets) && c < Pow2(|targets|) && row < Pow2(|targets|)
    ensures (Deposit(d, targets, c) == s && Extract(d, targets) == row)
        <==> (d == Deposit(s, targets, row) && c == Extract(s, targets))
  {
    if Deposit(d, targets, c) == s && Extract(d, targets) == row {
      ExtractDeposit(d, targets, c);
      DepositTwice(d, targets, c, row);
      DepositExtract(d, targets);
    }
    if d == Deposit(s, targets, row) && c == Extract(s, targets) {
      DepositTwice(s, targets, row, c);
      DepositExtract(s, targets);
      ExtractDeposit(s, targets, row);
    }
  }
}
