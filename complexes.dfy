/**
 * Exact complex numbers standing in for std::complex<double>.
 *
 * Amplitudes are pairs of reals, so a gate with 0, 1 and -1 entries acts
 * exactly, and the irrational constants of the gate library enter as values
 * with stated properties (see Gates.Numerics).
 */
module Complexes {

  datatype Complex = Complex(re: real, im: real)

  const Zero: Complex := Complex(0.0, 0.0)
  const One: Complex := Complex(1.0, 0.0)

  /** The real number r as a complex number. */
  function Real(r: real): Complex
  {
    Complex(r, 0.0)
  }

  function Add(a: Complex, b: Complex): Complex
  {
    Complex(a.re + b.re, a.im + b.im)
  }

  function Sub(a: Complex, b: Complex): Complex
  {
    Complex(a.re - b.re, a.im - b.im)
  }

  function Neg(a: Complex): Complex
  {
    Complex(-a.re, -a.im)
  }

  function Mul(a: Complex, b: Complex): Complex
  {
    Complex(a.re * b.re - a.im * b.im, a.re * b.im + a.im * b.re)
  }

  /** std::norm: the squared magnitude, i.e. the probability weight. */
  function Norm(a: Complex): real
  {
    a.re * a.re + a.im * a.im
  }

  /** A number on the unit circle. */
  ghost predicate IsUnit(a: Complex)
  {
    Norm(a) == 1.0
  }

  lemma MulComm(a: Complex, b: Complex)
    ensures Mul(a, b) == Mul(b, a)
  {
  }

  lemma MulAssoc(a: Complex, b: Complex, c: Complex)
    ensures Mul(Mul(a, b), c) == Mul(a, Mul(b, c))
  {
    assert Mul(Mul(a, b), c).re == Mul(a, Mul(b, c)).re;
    assert Mul(Mul(a, b), c).im == Mul(a, Mul(b, c)).im;
  }

  lemma MulAddDistrib(a: Complex, b: Complex, c: Complex)
    ensures Mul(a, Add(b, c)) == Add(Mul(a, b), Mul(a, c))
    ensures Mul(a, Sub(b, c)) == Sub(Mul(a, b), Mul(a, c))
  {
    assert a.re * (b.re + c.re) == a.re * b.re + a.re * c.re;
    assert a.im * (b.im + c.im) == a.im * b.im + a.im * c.im;
    assert a.re * (b.im + c.im) == a.re * b.im + a.re * c.im;
    assert a.im * (b.re + c.re) == a.im * b.re + a.im * c.re;
    assert a.re * (b.re - c.re) == a.re * b.re - a.re * c.re;
    assert a.im * (b.im - c.im) == a.im * b.im - a.im * c.im;
    assert a.re * (b.im - c.im) == a.re * b.im - a.re * c.im;
    assert a.im * (b.re - c.re) == a.im * b.re - a.im * c.re;
  }

  /** |a b|^2 == |a|^2 |b|^2 */
  lemma NormMul(a: Complex, b: Complex)
    ensures Norm(Mul(a, b)) == Norm(a) * Norm(b)
  {
    var p, q, r, s := a.re, a.im, b.re, b.im;
    var A, B, C, D := p * r, q * s, p * s, q * r;
    assert Mul(a, b) == Complex(A - B, C + D);
    assert (A - B) * (A - B) == A * A - 2.0 * A * B + B * B;
    assert (C + D) * (C + D) == C * C + 2.0 * C * D + D * D;
    assert A * B == C * D by {
      assert A * B == (p * r) * (q * s);
      assert C * D == (p * s) * (q * r);
    }
    assert Norm(Mul(a, b)) == A * A + B * B + C * C + D * D;
    assert A * A == (p * p) * (r * r);
    assert B * B == (q * q) * (s * s);
    assert C * C == (p * p) * (s * s);
    assert D * D == (q * q) * (r * r);
    assert (p * p + q * q) * (r * r + s * s) == (p * p) * (r * r) + (p * p) * (s * s) + (q * q) * (r * r) + (q * q) * (s * s);
  }

  /** A product of two unit numbers is a unit number. */
  lemma UnitMul(a: Complex, b: Complex)
    requires IsUnit(a) && IsUnit(b)
    ensures IsUnit(Mul(a, b))
  {
    NormMul(a, b);
  }

  lemma NormUnitTimes(u: Complex, a: Complex)
    requires IsUnit(u)
    ensures Norm(Mul(u, a)) == Norm(a)
  {
    NormMul(u, a);
  }

  /** r x + r y == r (x + y) and r x + (-r) y == r (x - y), for a real r. */
  lemma RealScaleDistrib(r: real, x: Complex, y: Complex)
    ensures Add(Mul(Real(r), x), Mul(Real(r), y)) == Mul(Real(r), Add(x, y))
    ensures Add(Mul(Real(r), x), Mul(Real(-r), y)) == Mul(Real(r), Sub(x, y))
  {
    assert (-r) * y.re == -(r * y.re);
    assert (-r) * y.im == -(r * y.im);
  }

  /** With 2 r^2 == 1: r (r (x + y) + r (x - y)) == x and r (r (x + y) - r (x - y)) == y. */
  lemma HalfSums(r: real, x: Complex, y: Complex)
    requires 2.0 * r * r == 1.0
    ensures Mul(Real(r), Add(Mul(Real(r), Add(x, y)), Mul(Real(r), Sub(x, y)))) == x
    ensures Mul(Real(r), Sub(Mul(Real(r), Add(x, y)), Mul(Real(r), Sub(x, y)))) == y
  {
    var a, b, c, d := x.re, x.im, y.re, y.im;
    assert r * (r * (a + c) + r * (a - c)) == (2.0 * r * r) * a;
    assert r * (r * (b + d) + r * (b - d)) == (2.0 * r * r) * b;
    assert r * (r * (a + c) - r * (a - c)) == (2.0 * r * r) * c;
    assert r * (r * (b + d) - r * (b - d)) == (2.0 * r * r) * d;
  }

  /** A common factor p moves out of r (p x +- p y). */
  lemma RealScaleCommon(r: real, p: Complex, x: Complex, y: Complex)
    ensures Mul(Real(r), Add(Mul(p, x), Mul(p, y))) == Mul(p, Mul(Real(r), Add(x, y)))
    ensures Mul(Real(r), Sub(Mul(p, x), Mul(p, y))) == Mul(p, Mul(Real(r), Sub(x, y)))
  {
    MulAddDistrib(p, x, y);
    MulAssoc(Real(r), p, Add(x, y));
    MulAssoc(Real(r), p, Sub(x, y));
    MulAssoc(p, Real(r), Add(x, y));
    MulAssoc(p, Real(r), Sub(x, y));
    MulComm(Real(r), p);
  }
}
