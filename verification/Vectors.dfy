/** Vectors in three dimensions over exact reals. */
module Vectors {

  datatype Vec = Vec(x: real, y: real, z: real)

  function Dot(a: Vec, b: Vec): real {
    a.x * b.x + a.y * b.y + a.z * b.z
  }

  function Cross(a: Vec, b: Vec): Vec {
    Vec(a.y * b.z - a.z * b.y, a.z * b.x - a.x * b.z, a.x * b.y - a.y * b.x)
  }

  function Scale(s: real, a: Vec): Vec {
    Vec(s * a.x, s * a.y, s * a.z)
  }

  function Negate(a: Vec): Vec {
    Vec(-a.x, -a.y, -a.z)
  }

  const ZERO := Vec(0.0, 0.0, 0.0)

  function Abs(x: real): (r: real)
    ensures r >= 0.0 && (r == x || r == -x) && x <= r && -x <= r
  {
    if x < 0.0 then -x else x
  }

  function Min(x: real, y: real): (r: real)
    ensures r <= x && r <= y && (r == x || r == y)
  {
    if x <= y then x else y
  }

  function Max(x: real, y: real): (r: real)
    ensures r >= x && r >= y && (r == x || r == y)
  {
    if x >= y then x else y
  }

  ghost predicate Unit(a: Vec) {
    Dot(a, a) == 1.0
  }

  /** What the source's `sqrt` promises on exact reals. */
  ghost predicate IsRoot(root: real -> real) {
    forall x: real :: x >= 0.0 ==> root(x) >= 0.0 && root(x) * root(x) == x
  }

  /** `p` is `s` of `a` and `t` of `b`. */
  ghost predicate Combines(p: Vec, s: real, a: Vec, t: real, b: Vec) {
    && p.x == s * a.x + t * b.x
    && p.y == s * a.y + t * b.y
    && p.z == s * a.z + t * b.z
  }

  lemma SquareNonneg(x: real)
    ensures x * x >= 0.0
  {
  }

  lemma MulPositive(x: real, y: real, xy: real)
    requires x > 0.0 && y > 0.0 && xy == x * y
    ensures xy > 0.0
  {
  }

  lemma MulNonneg(x: real, y: real)
    requires x >= 0.0 && y >= 0.0
    ensures x * y >= 0.0
  {
  }

  lemma MulMonotone(x: real, y: real, z: real)
    requires x <= y && z >= 0.0
    ensures x * z <= y * z
  {
    MulNonneg(y - x, z);
    assert (y - x) * z == y * z - x * z;
  }

  lemma SquarePositive(x: real, xx: real)
    requires x != 0.0 && xx == x * x
    ensures xx > 0.0
  {
    if x > 0.0 {
      MulPositive(x, x, xx);
    } else {
      MulPositive(-x, -x, xx);
    }
  }

  lemma PlanePositive(x: real, y: real, q: real)
    requires (x != 0.0 || y != 0.0) && q == x * x + y * y
    ensures q > 0.0
  {
    SquareNonneg(x);
    SquareNonneg(y);
    if x != 0.0 {
      SquarePositive(x, x * x);
    } else {
      SquarePositive(y, y * y);
    }
  }

  /** Squares compare as their non-negative roots do. */
  lemma RootAtLeastOne(x: real, xx: real)
    requires x >= 0.0 && xx == x * x && xx >= 1.0
    ensures x >= 1.0
  {
    if x < 1.0 {
      MulMonotone(x, 1.0, x);
    }
  }

  lemma RootAtMostOne(x: real, xx: real)
    requires x >= 0.0 && xx == x * x && xx <= 1.0
    ensures x <= 1.0
  {
    if x > 1.0 {
      MulMonotone(1.0, x, x);
    }
  }

  lemma TripleProduct(a: Vec, b: Vec, n: Vec)
    ensures Combines(Cross(Cross(a, b), n), Dot(a, n), b, -Dot(b, n), a)
  {
  }

  lemma TripleProductRight(n: Vec, c: Vec, d: Vec)
    ensures Combines(Cross(n, Cross(c, d)), Dot(n, d), c, -Dot(n, c), d)
  {
  }

  lemma DotSymmetric(a: Vec, b: Vec)
    ensures Dot(a, b) == Dot(b, a)
  {
  }

  lemma CrossFlips(a: Vec, b: Vec, c: Vec)
    ensures Dot(Cross(b, a), c) == -Dot(Cross(a, b), c)
    ensures Dot(Cross(b, a), Cross(b, a)) == Dot(Cross(a, b), Cross(a, b))
  {
    var n, m := Cross(a, b), Cross(b, a);
    assert m.x == -n.x && m.y == -n.y && m.z == -n.z;
  }

  /** Crossing with one of its own parts leaves the other's share. */
  lemma CombineCross(p: Vec, s: real, a: Vec, t: real, b: Vec)
    requires Combines(p, s, a, t, b)
    ensures Cross(p, b) == Scale(s, Cross(a, b))
    ensures Cross(a, p) == Scale(t, Cross(a, b))
  {
    CrossWithRight(p, s, a, t, b);
    CrossWithLeft(p, s, a, t, b);
  }

  lemma CrossWithRight(p: Vec, s: real, a: Vec, t: real, b: Vec)
    requires Combines(p, s, a, t, b)
    ensures Cross(p, b) == Scale(s, Cross(a, b))
  {
    RightMinor(p.y, p.z, s, t, a.y, a.z, b.y, b.z);
    RightMinor(p.z, p.x, s, t, a.z, a.x, b.z, b.x);
    RightMinor(p.x, p.y, s, t, a.x, a.y, b.x, b.y);
  }

  lemma CrossWithLeft(p: Vec, s: real, a: Vec, t: real, b: Vec)
    requires Combines(p, s, a, t, b)
    ensures Cross(a, p) == Scale(t, Cross(a, b))
  {
    LeftMinor(p.y, p.z, s, t, a.y, a.z, b.y, b.z);
    LeftMinor(p.z, p.x, s, t, a.z, a.x, b.z, b.x);
    LeftMinor(p.x, p.y, s, t, a.x, a.y, b.x, b.y);
  }

  lemma RightMinor(p: real, q: real, s: real, t: real, u: real, v: real, x: real, y: real)
    requires p == s * u + t * x && q == s * v + t * y
    ensures p * y - q * x == s * (u * y - v * x)
  {
    assert p * y == (s * u + t * x) * y;
    assert q * x == (s * v + t * y) * x;
  }

  lemma LeftMinor(p: real, q: real, s: real, t: real, u: real, v: real, x: real, y: real)
    requires p == s * u + t * x && q == s * v + t * y
    ensures u * q - v * p == t * (u * y - v * x)
  {
    assert u * q == u * (s * v + t * y);
    assert v * p == v * (s * u + t * x);
  }

  lemma CombineDot(p: Vec, s: real, a: Vec, t: real, b: Vec, n: Vec)
    requires Combines(p, s, a, t, b)
    ensures Dot(p, n) == s * Dot(a, n) + t * Dot(b, n)
  {
  }

  lemma NormPositive(a: Vec)
    requires a != ZERO
    ensures Dot(a, a) > 0.0
  {
    var xx, yy, zz := a.x * a.x, a.y * a.y, a.z * a.z;
    if a.x != 0.0 {
      SquarePositive(a.x, xx);
    } else if a.y != 0.0 {
      SquarePositive(a.y, yy);
    } else {
      SquarePositive(a.z, zz);
    }
  }

  lemma DotNonneg(a: Vec)
    ensures Dot(a, a) >= 0.0
  {
    SquareNonneg(a.x);
    SquareNonneg(a.y);
    SquareNonneg(a.z);
  }

  /** Between unit vectors the cosine is in range. */
  lemma UnitCosine(a: Vec, b: Vec)
    requires Unit(a) && Unit(b)
    ensures -1.0 <= Dot(a, b) <= 1.0
  {
    DotNonneg(Vec(a.x - b.x, a.y - b.y, a.z - b.z));
    DotNonneg(Vec(a.x + b.x, a.y + b.y, a.z + b.z));
  }
}
