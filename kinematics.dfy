/**
 * Four-momenta and the two derived quantities the skim cuts on.
 *
 * ROOT's TLorentzVector computes pT as sqrt(px^2 + py^2) and the mass as
 * sqrt(M2) for M2 = E^2 - |p|^2 >= 0 and as -sqrt(-M2) otherwise. Square
 * roots are not computed here: IsPt and IsMass say what it means for a real
 * number to be that pT or that mass, and the selection compares squares.
 */
module Kinematics {

  /** A four-momentum (px, py, pz, E). */
  datatype FourMomentum = FourMomentum(px: real, py: real, pz: real, e: real)

  function Abs(x: real): (r: real)
    ensures r >= 0.0
    ensures r == x || r == -x
  {
    if x < 0.0 then -x else x
  }

  /** Component-wise sum, TLorentzVector's operator+. */
  function Sum(a: FourMomentum, b: FourMomentum): FourMomentum
  {
    FourMomentum(a.px + b.px, a.py + b.py, a.pz + b.pz, a.e + b.e)
  }

  /** Square of the transverse momentum. */
  function PtSquared(p: FourMomentum): real
  {
    p.px * p.px + p.py * p.py
  }

  /** Square of the invariant mass; negative for a space-like vector. */
  function MassSquared(p: FourMomentum): real
  {
    p.e * p.e - p.px * p.px - p.py * p.py - p.pz * p.pz
  }

  /** pt is the transverse momentum of p: the non-negative root of PtSquared(p). */
  ghost predicate IsPt(p: FourMomentum, pt: real)
  {
    pt >= 0.0 && pt * pt == PtSquared(p)
  }

  /** m is ROOT's signed mass of p. */
  ghost predicate IsMass(p: FourMomentum, m: real)
  {
    var m2 := MassSquared(p);
    if m2 >= 0.0 then m >= 0.0 && m * m == m2 else m < 0.0 && m * m == -m2
  }

  lemma ProductPositive(a: real, b: real)
    requires a > 0.0 && b > 0.0
    ensures a * b > 0.0
  {
  }

  /** On non-negative reals, comparing two numbers and comparing their squares agree. */
  lemma SquareMonotone(x: real, y: real)
    requires x >= 0.0 && y >= 0.0
    ensures x < y <==> x * x < y * y
  {
    assert y * y - x * x == (y - x) * (y + x);
    if x < y {
      ProductPositive(y - x, y + x);
    } else if y < x {
      ProductPositive(x - y, x + y);
    }
  }
}
