/** Arcs of great circles between unit vectors: when two cross, and the boxes
    that hold them. */
module ArcGeometry {
  import opened Vectors

  /** The tolerance for telling two points apart, and a point from a plane. */
  const EPS: real := 0.000000000001

  predicate Same(a: Vec, b: Vec) {
    Abs(a.x - b.x) <= EPS && Abs(a.y - b.y) <= EPS && Abs(a.z - b.z) <= EPS
  }

  /** 1 or -1 for the two hemispheres that the plane of `a` and `b` cuts, 0 for
      a `c` too near that plane to tell. */
  function Orient(root: real -> real, a: Vec, b: Vec, c: Vec): (side: int)
    ensures -1 <= side <= 1
  {
    var n := Cross(a, b);
    var d := Dot(n, c);
    if Abs(d) <= EPS * root(Dot(n, n)) then 0 else if d > 0.0 then 1 else if d < 0.0 then -1 else 0
  }

  /** The crossing test: no shared ends, and the ends of each arc on opposite
      sides of the other. */
  predicate ArcsCross(root: real -> real, a: Vec, b: Vec, c: Vec, d: Vec) {
    if Same(a, c) || Same(a, d) || Same(b, c) || Same(b, d) then false
    else
      var acb := -Orient(root, a, b, c);
      var bda := Orient(root, a, b, d);
      if acb == 0 || acb != bda then false
      else
        var cbd := -Orient(root, c, d, b);
        var dac := Orient(root, c, d, a);
        cbd == acb && dac == acb
  }

  /** A point of the arc from `a` to `b`: a unit non-negative combination. */
  ghost predicate OnArc(p: Vec, s: real, a: Vec, t: real, b: Vec) {
    s >= 0.0 && t >= 0.0 && Combines(p, s, a, t, b) && Unit(p)
  }

  // --- The box of an arc ---

  /** A box by its least and greatest corner. */
  datatype Box = Box(lo: Vec, hi: Vec)

  function Clamp(x: real): (r: real)
    ensures -1.0 <= r <= 1.0
    ensures -1.0 <= x <= 1.0 ==> r == x
  {
    if x < -1.0 then -1.0 else if x > 1.0 then 1.0 else x
  }

  /** Cosine of half the arc, by the half-angle identity. */
  function CosHalf(root: real -> real, a: Vec, b: Vec): real {
    root((1.0 + Clamp(Dot(a, b))) / 2.0)
  }

  /** How far the arc can bow from its chord, and the slack for rounding. */
  function Sag(root: real -> real, a: Vec, b: Vec): real {
    1.0 - CosHalf(root, a, b) + EPS
  }

  function ArcBox(root: real -> real, a: Vec, b: Vec): Box {
    Widened(a, b, Sag(root, a, b))
  }

  /** The box of two points, widened all round. */
  function Widened(a: Vec, b: Vec, sag: real): Box {
    Box(Vec(Min(a.x, b.x) - sag, Min(a.y, b.y) - sag, Min(a.z, b.z) - sag),
        Vec(Max(a.x, b.x) + sag, Max(a.y, b.y) + sag, Max(a.z, b.z) + sag))
  }

  predicate InBox(p: Vec, box: Box) {
    && box.lo.x <= p.x <= box.hi.x
    && box.lo.y <= p.y <= box.hi.y
    && box.lo.z <= p.z <= box.hi.z
  }

  /** The boxes share a point on every axis. */
  predicate BoxesMeet(a: Box, b: Box) {
    && a.lo.x <= b.hi.x && b.lo.x <= a.hi.x
    && a.lo.y <= b.hi.y && b.lo.y <= a.hi.y
    && a.lo.z <= b.hi.z && b.lo.z <= a.hi.z
  }

  /** The shares of a unit combination add up to at least one. */
  lemma SharesReachOne(s: real, t: real, c: real)
    requires s >= 0.0 && t >= 0.0 && c <= 1.0
    requires s * s + t * t + 2.0 * (s * t * c) == 1.0
    ensures s + t >= 1.0
  {
    MulNonneg(s, t);
    MulNonneg(s * t, 1.0 - c);
    assert (s * t) * (1.0 - c) == s * t - s * t * c;
    assert (s + t) * (s + t) == 1.0 + 2.0 * (s * t * (1.0 - c));
    RootAtLeastOne(s + t, (s + t) * (s + t));
  }

  /** And to at most the inverse of the half-angle's cosine. */
  lemma SharesBounded(s: real, t: real, c: real, h: real)
    requires s >= 0.0 && t >= 0.0 && c <= 1.0 && h >= 0.0 && h * h == (1.0 + c) / 2.0
    requires s * s + t * t + 2.0 * (s * t * c) == 1.0
    ensures (s + t) * h <= 1.0
  {
    var x := (s + t) * h;
    MulNonneg(s + t, h);
    var w := (s + t) * (s + t);
    assert x * x == w * (h * h) by {
      SquareOfProduct(s + t, h);
    }
    assert w == s * s + t * t + 2.0 * (s * t);
    var gap := (s - t) * (s - t);
    SquareNonneg(s - t);
    MulNonneg(gap, 1.0 - c);
    GapIdentity(s, t, c);
    RootAtMostOne(x, x * x);
  }

  lemma SquareOfProduct(u: real, v: real)
    ensures (u * v) * (u * v) == (u * u) * (v * v)
  {
  }

  lemma GapIdentity(s: real, t: real, c: real)
    requires s * s + t * t + 2.0 * (s * t * c) == 1.0
    ensures ((s + t) * (s + t)) * ((1.0 + c) / 2.0) == 1.0 - ((s - t) * (s - t)) * (1.0 - c) / 2.0
  {
  }

  /** One coordinate of a point on an arc is at most the larger end's plus the
      arc's sag. */
  lemma CoordinateBelow(u: real, v: real, p: real, s: real, t: real, h: real)
    requires s >= 0.0 && t >= 0.0 && s + t >= 1.0 && (s + t) * h <= 1.0
    requires p == s * u + t * v && p <= 1.0
    ensures p <= Max(u, v) + (1.0 - h)
  {
    var m, w := Max(u, v), s + t;
    MulMonotone(u, m, s);
    MulMonotone(v, m, t);
    assert p <= w * m by {
      assert u * s + v * t <= m * s + m * t;
      assert w * m == m * s + m * t;
    }
    var excess := p - m - (1.0 - h);
    assert w * excess == w * p - w * m - w + w * h;
    MulMonotone(p, 1.0, w - 1.0);
    assert p * (w - 1.0) == w * p - p;
    if excess > 0.0 {
      MulPositive(w, excess, w * excess);
    }
  }

  /** The combination's own length in terms of the arc's cosine. */
  lemma UnitShares(p: Vec, s: real, a: Vec, t: real, b: Vec)
    requires OnArc(p, s, a, t, b) && Unit(a) && Unit(b)
    ensures s * s + t * t + 2.0 * (s * t * Dot(a, b)) == 1.0
  {
    CombineDot(p, s, a, t, b, p);
    CombineDot(p, s, a, t, b, a);
    CombineDot(p, s, a, t, b, b);
    DotSymmetric(a, p);
    DotSymmetric(b, p);
    DotSymmetric(b, a);
    var c, pa, pb := Dot(a, b), Dot(a, p), Dot(b, p);
    assert pa == s + t * c && pb == s * c + t;
    assert s * pa + t * pb == 1.0;
  }

  lemma UnitCoordinates(p: Vec)
    requires Unit(p)
    ensures -1.0 <= p.x <= 1.0 && -1.0 <= p.y <= 1.0 && -1.0 <= p.z <= 1.0
  {
    SquareNonneg(p.x);
    SquareNonneg(p.y);
    SquareNonneg(p.z);
    RootAtMostOne(Abs(p.x), p.x * p.x);
    RootAtMostOne(Abs(p.y), p.y * p.y);
    RootAtMostOne(Abs(p.z), p.z * p.z);
  }

  /** Both ends of one coordinate's range. */
  lemma CoordinateHeld(u: real, v: real, p: real, s: real, t: real, h: real)
    requires s >= 0.0 && t >= 0.0 && s + t >= 1.0 && (s + t) * h <= 1.0
    requires p == s * u + t * v && -1.0 <= p <= 1.0
    ensures Min(u, v) - (1.0 - h) <= p <= Max(u, v) + (1.0 - h)
  {
    CoordinateBelow(u, v, p, s, t, h);
    assert -p == s * (-u) + t * (-v);
    CoordinateBelow(-u, -v, -p, s, t, h);
  }

  lemma CosHalfFacts(root: real -> real, a: Vec, b: Vec)
    requires IsRoot(root) && Unit(a) && Unit(b)
    ensures -1.0 <= Dot(a, b) <= 1.0
    ensures CosHalf(root, a, b) >= 0.0
    ensures CosHalf(root, a, b) * CosHalf(root, a, b) == (1.0 + Dot(a, b)) / 2.0
  {
    UnitCosine(a, b);
  }

  lemma ShareBounds(a: Vec, b: Vec, p: Vec, s: real, t: real, h: real)
    requires Unit(a) && Unit(b) && OnArc(p, s, a, t, b)
    requires h >= 0.0 && h * h == (1.0 + Dot(a, b)) / 2.0
    ensures s + t >= 1.0 && (s + t) * h <= 1.0
  {
    var c := Dot(a, b);
    ShareFacts(a, b, p, s, t, c);
    SharesSummed(s, t, c, h);
  }

  lemma ShareFacts(a: Vec, b: Vec, p: Vec, s: real, t: real, c: real)
    requires Unit(a) && Unit(b) && OnArc(p, s, a, t, b) && c == Dot(a, b)
    ensures s >= 0.0 && t >= 0.0 && c <= 1.0
    ensures s * s + t * t + 2.0 * (s * t * c) == 1.0
  {
    UnitCosine(a, b);
    UnitShares(p, s, a, t, b);
  }

  lemma SharesSummed(s: real, t: real, c: real, h: real)
    requires s >= 0.0 && t >= 0.0 && c <= 1.0 && h >= 0.0 && h * h == (1.0 + c) / 2.0
    requires s * s + t * t + 2.0 * (s * t * c) == 1.0
    ensures s + t >= 1.0 && (s + t) * h <= 1.0
  {
    SharesReachOne(s, t, c);
    SharesBounded(s, t, c, h);
  }

  /** `ArcBox` holds every point of the arc. */
  lemma ArcBoxHoldsArc(root: real -> real, a: Vec, b: Vec, p: Vec, s: real, t: real)
    requires IsRoot(root) && Unit(a) && Unit(b) && OnArc(p, s, a, t, b)
    ensures InBox(p, ArcBox(root, a, b))
  {
    CosHalfFacts(root, a, b);
    ShareBounds(a, b, p, s, t, CosHalf(root, a, b));
    UnitCoordinates(p);
    BoxFromCoordinates(a, b, p, s, t, CosHalf(root, a, b));
  }

  lemma BoxFromCoordinates(a: Vec, b: Vec, p: Vec, s: real, t: real, h: real)
    requires s >= 0.0 && t >= 0.0 && s + t >= 1.0 && (s + t) * h <= 1.0
    requires Combines(p, s, a, t, b)
    requires -1.0 <= p.x <= 1.0 && -1.0 <= p.y <= 1.0 && -1.0 <= p.z <= 1.0
    ensures InBox(p, Widened(a, b, 1.0 - h + EPS))
  {
    CoordinateHeld(a.x, b.x, p.x, s, t, h);
    CoordinateHeld(a.y, b.y, p.y, s, t, h);
    CoordinateHeld(a.z, b.z, p.z, s, t, h);
  }

  // --- Crossing ---

  /** The side reported is the sign of the determinant. */
  lemma OrientSign(root: real -> real, a: Vec, b: Vec, c: Vec)
    requires IsRoot(root)
    ensures Orient(root, a, b, c) == 1 ==> Dot(Cross(a, b), c) > 0.0
    ensures Orient(root, a, b, c) == -1 ==> Dot(Cross(a, b), c) < 0.0
  {
  }

  lemma OrientFlips(root: real -> real, a: Vec, b: Vec, c: Vec)
    ensures Orient(root, b, a, c) == -Orient(root, a, b, c)
  {
    CrossFlips(a, b, c);
  }

  /** The verdict does not depend on which arc comes first, nor on the
      direction of either. */
  lemma CrossingIsSymmetric(root: real -> real, a: Vec, b: Vec, c: Vec, d: Vec)
    ensures ArcsCross(root, c, d, a, b) == ArcsCross(root, a, b, c, d)
    ensures ArcsCross(root, b, a, c, d) == ArcsCross(root, a, b, c, d)
    ensures ArcsCross(root, a, b, d, c) == ArcsCross(root, a, b, c, d)
  {
    OrientFlips(root, a, b, c);
    OrientFlips(root, a, b, d);
    OrientFlips(root, c, d, a);
    OrientFlips(root, c, d, b);
  }

  /** The direction both arcs pass through. */
  ghost predicate StrictlyBetween(v: Vec, a: Vec, b: Vec) {
    exists s: real, t: real :: s > 0.0 && t > 0.0 && Combines(v, s, a, t, b)
  }

  /** The direction where two great circles meet, in terms of each pair. */
  lemma MeetingDirection(a: Vec, b: Vec, c: Vec, d: Vec)
    ensures var v := Cross(Cross(a, b), Cross(c, d));
            && Combines(v, -Dot(Cross(c, d), b), a, Dot(Cross(c, d), a), b)
            && Combines(v, Dot(Cross(a, b), d), c, -Dot(Cross(a, b), c), d)
  {
    TripleProduct(a, b, Cross(c, d));
    DotSymmetric(a, Cross(c, d));
    DotSymmetric(b, Cross(c, d));
    TripleProductRight(Cross(a, b), c, d);
    SwapCombines(Cross(Cross(a, b), Cross(c, d)), Dot(a, Cross(c, d)), b, -Dot(b, Cross(c, d)), a);
  }

  lemma SwapCombines(v: Vec, s: real, a: Vec, t: real, b: Vec)
    requires Combines(v, s, a, t, b)
    ensures Combines(v, t, b, s, a)
  {
  }

  lemma NegateCombines(v: Vec, s: real, a: Vec, t: real, b: Vec)
    requires Combines(v, s, a, t, b)
    ensures Combines(Negate(v), -s, a, -t, b)
  {
  }

  /** Arcs that cross share a direction strictly inside both. */
  lemma CrossingDirection(root: real -> real, a: Vec, b: Vec, c: Vec, d: Vec) returns (v: Vec)
    requires IsRoot(root) && ArcsCross(root, a, b, c, d)
    ensures v != ZERO && StrictlyBetween(v, a, b) && StrictlyBetween(v, c, d)
  {
    CrossingSigns(root, a, b, c, d);
    v := SharedDirection(a, b, c, d, Dot(Cross(c, d), a), Dot(Cross(c, d), b), Dot(Cross(a, b), c), Dot(Cross(a, b), d));
  }

  lemma CrossingSigns(root: real -> real, a: Vec, b: Vec, c: Vec, d: Vec)
    requires IsRoot(root) && ArcsCross(root, a, b, c, d)
    ensures SignsAlternate(Dot(Cross(c, d), a), Dot(Cross(c, d), b), Dot(Cross(a, b), c), Dot(Cross(a, b), d))
  {
    OrientSign(root, a, b, c);
    OrientSign(root, a, b, d);
    OrientSign(root, c, d, a);
    OrientSign(root, c, d, b);
  }

  ghost predicate SignsAlternate(ma: real, mb: real, nc: real, nd: real) {
    (ma > 0.0 && mb < 0.0 && nc < 0.0 && nd > 0.0) || (ma < 0.0 && mb > 0.0 && nc > 0.0 && nd < 0.0)
  }

  lemma SharedDirection(a: Vec, b: Vec, c: Vec, d: Vec, ma: real, mb: real, nc: real, nd: real) returns (v: Vec)
    requires SignsAlternate(ma, mb, nc, nd)
    requires ma == Dot(Cross(c, d), a) && mb == Dot(Cross(c, d), b) && nc == Dot(Cross(a, b), c) && nd == Dot(Cross(a, b), d)
    ensures v != ZERO && StrictlyBetween(v, a, b) && StrictlyBetween(v, c, d)
  {
    MeetingDirection(a, b, c, d);
    v := Cross(Cross(a, b), Cross(c, d));
    if ma > 0.0 {
      Between(v, -mb, a, ma, b, c);
      Between(v, nd, c, -nc, d, a);
    } else {
      NegateCombines(v, -mb, a, ma, b);
      NegateCombines(v, nd, c, -nc, d);
      v := Negate(v);
      Between(v, mb, a, -ma, b, c);
      Between(v, -nd, c, nc, d, a);
    }
  }

  lemma Between(v: Vec, s: real, a: Vec, t: real, b: Vec, c: Vec)
    requires Combines(v, s, a, t, b) && s > 0.0 && t > 0.0 && Dot(Cross(a, b), c) != 0.0
    ensures v != ZERO && StrictlyBetween(v, a, b)
  {
    CombineCross(v, s, a, t, b);
    NotZero(v, s, Cross(a, b), b, c);
  }

  lemma NotZero(v: Vec, s: real, n: Vec, b: Vec, c: Vec)
    requires Cross(v, b) == Scale(s, n) && s > 0.0 && Dot(n, c) != 0.0
    ensures v != ZERO
  {
    if v == ZERO {
      MulZero(s, n.x);
      MulZero(s, n.y);
      MulZero(s, n.z);
    }
  }

  lemma MulZero(s: real, x: real)
    requires s > 0.0
    ensures s * x == 0.0 ==> x == 0.0
  {
  }

  /** A direction scaled to unit length. */
  lemma Normalised(root: real -> real, v: Vec) returns (p: Vec, i: real)
    requires IsRoot(root) && v != ZERO
    ensures i > 0.0 && p == Scale(i, v) && Unit(p)
  {
    NormPositive(v);
    var m := root(Dot(v, v));
    assert m > 0.0;
    i := 1.0 / m;
    p := Scale(i, v);
    assert i * m == 1.0;
    ScaledDot(i, v);
    InverseSquare(i, m, Dot(v, v));
  }

  lemma ScaledDot(i: real, v: Vec)
    ensures Dot(Scale(i, v), Scale(i, v)) == (i * i) * Dot(v, v)
  {
  }

  lemma InverseSquare(i: real, m: real, mm: real)
    requires i * m == 1.0 && mm == m * m
    ensures (i * i) * mm == 1.0
  {
    SquareOfProduct(i, m);
  }

  lemma ScaleOntoArc(v: Vec, a: Vec, b: Vec, p: Vec, i: real) returns (s: real, t: real)
    requires StrictlyBetween(v, a, b) && i > 0.0 && p == Scale(i, v) && Unit(p)
    ensures OnArc(p, s, a, t, b)
  {
    var s0: real, t0: real :| s0 > 0.0 && t0 > 0.0 && Combines(v, s0, a, t0, b);
    s, t := i * s0, i * t0;
    MulNonneg(i, s0);
    MulNonneg(i, t0);
    ScaleShare(i, v.x, s0, a.x, t0, b.x);
    ScaleShare(i, v.y, s0, a.y, t0, b.y);
    ScaleShare(i, v.z, s0, a.z, t0, b.z);
  }

  lemma ScaleShare(i: real, v: real, s: real, a: real, t: real, b: real)
    requires v == s * a + t * b
    ensures i * v == (i * s) * a + (i * t) * b
  {
    assert i * v == i * (s * a + t * b);
  }

  /** Arcs that cross have boxes that meet, so skipping pairs whose boxes are
      apart loses no crossing. */
  lemma CrossingArcsHaveMeetingBoxes(root: real -> real, a: Vec, b: Vec, c: Vec, d: Vec)
    requires IsRoot(root) && Unit(a) && Unit(b) && Unit(c) && Unit(d)
    requires ArcsCross(root, a, b, c, d)
    ensures BoxesMeet(ArcBox(root, a, b), ArcBox(root, c, d))
  {
    var v := CrossingDirection(root, a, b, c, d);
    var p, i := Normalised(root, v);
    PointInArcBox(root, v, a, b, p, i);
    PointInArcBox(root, v, c, d, p, i);
    PointInBoth(p, ArcBox(root, a, b), ArcBox(root, c, d));
  }

  lemma PointInArcBox(root: real -> real, v: Vec, a: Vec, b: Vec, p: Vec, i: real)
    requires IsRoot(root) && Unit(a) && Unit(b)
    requires StrictlyBetween(v, a, b) && i > 0.0 && p == Scale(i, v) && Unit(p)
    ensures InBox(p, ArcBox(root, a, b))
  {
    var s, t := ScaleOntoArc(v, a, b, p, i);
    ArcBoxHoldsArc(root, a, b, p, s, t);
  }

  lemma PointInBoth(p: Vec, a: Box, b: Box)
    requires InBox(p, a) && InBox(p, b)
    ensures BoxesMeet(a, b)
  {
  }

  // --- What the sign test means ---

  lemma PlaneNormal(v: Vec, s: real, a: Vec, t: real, b: Vec)
    requires Combines(v, s, a, t, b)
    ensures Dot(v, Cross(a, b)) == 0.0
  {
    CombineDot(v, s, a, t, b, Cross(a, b));
    OwnNormal(a, b);
  }

  lemma OwnNormal(a: Vec, b: Vec)
    ensures Dot(a, Cross(a, b)) == 0.0 && Dot(b, Cross(a, b)) == 0.0
  {
  }

  /** A vector in both planes lies along the line where they meet. */
  lemma AlongTheLine(v: Vec, n: Vec, m: Vec)
    requires Dot(v, n) == 0.0 && Dot(v, m) == 0.0
    ensures Scale(Dot(Cross(n, m), Cross(n, m)), v) == Scale(Dot(v, Cross(n, m)), Cross(n, m))
  {
    var w := Cross(n, m);
    TripleProductRight(v, n, m);
    assert Cross(v, w) == ZERO by {
      VanishingCombination(Cross(v, w), n, m, Dot(v, m), -Dot(v, n));
    }
    Parallel(v, w);
  }

  lemma VanishingCombination(x: Vec, n: Vec, m: Vec, s: real, t: real)
    requires Combines(x, s, n, t, m) && s == 0.0 && t == 0.0
    ensures x == ZERO
  {
  }

  lemma Parallel(v: Vec, w: Vec)
    requires Cross(v, w) == ZERO
    ensures Scale(Dot(w, w), v) == Scale(Dot(v, w), w)
  {
    TripleProductRight(w, v, w);
    DotSymmetric(v, w);
    CrossWithZero(w);
    SplitDifference(Dot(w, w), v, Dot(w, v), w);
  }

  lemma CrossWithZero(w: Vec)
    ensures Cross(w, ZERO) == ZERO
  {
  }

  lemma SplitDifference(s: real, v: Vec, t: real, w: Vec)
    requires Combines(ZERO, s, v, -t, w)
    ensures Scale(s, v) == Scale(t, w)
  {
  }

  lemma ScaleCombines(i: real, v: Vec, s: real, a: Vec, t: real, b: Vec)
    requires Combines(v, s, a, t, b)
    ensures Combines(Scale(i, v), i * s, a, i * t, b)
  {
    ScaleShare(i, v.x, s, a.x, t, b.x);
    ScaleShare(i, v.y, s, a.y, t, b.y);
    ScaleShare(i, v.z, s, a.z, t, b.z);
  }

  /** Shares of two independent directions are unique. */
  lemma SharesUnique(x: Vec, s: real, t: real, s': real, t': real, a: Vec, b: Vec)
    requires Combines(x, s, a, t, b) && Combines(x, s', a, t', b) && Cross(a, b) != ZERO
    ensures s == s' && t == t'
  {
    CombineCross(x, s, a, t, b);
    CombineCross(x, s', a, t', b);
    ScaleInjective(s, s', Cross(a, b));
    ScaleInjective(t, t', Cross(a, b));
  }

  lemma ScaleInjective(s: real, t: real, n: Vec)
    requires Scale(s, n) == Scale(t, n) && n != ZERO
    ensures s == t
  {
    EqualFactor(s, t, n.x);
    EqualFactor(s, t, n.y);
    EqualFactor(s, t, n.z);
  }

  lemma EqualFactor(s: real, t: real, x: real)
    requires s * x == t * x
    ensures s == t || x == 0.0
  {
    assert (s - t) * x == 0.0;
  }

  lemma ProductsOfShares(a: Vec, b: Vec, v: Vec, w: Vec, s: real, t: real, p: real, q: real, i: real, j: real)
    requires Cross(a, b) != ZERO && i > 0.0
    requires s > 0.0 && t > 0.0 && Combines(v, s, a, t, b) && Combines(w, p, a, q, b)
    requires Scale(i, v) == Scale(j, w)
    ensures j * p > 0.0 && j * q > 0.0
  {
    ScaleCombines(i, v, s, a, t, b);
    ScaleCombines(j, w, p, a, q, b);
    SharesUnique(Scale(i, v), i * s, i * t, j * p, j * q, a, b);
    MulPositive(i, s, i * s);
    MulPositive(i, t, i * t);
  }

  /** Shares of a common direction carry the signs the test looks at. */
  lemma SharesGiveSigns(a: Vec, b: Vec, n: Vec, v: Vec, w: Vec, s: real, t: real, p: real, q: real)
    requires n == Cross(a, b) && n != ZERO && w != ZERO
    requires s > 0.0 && t > 0.0 && Combines(v, s, a, t, b) && Combines(w, p, a, q, b)
    requires Scale(Dot(w, w), v) == Scale(Dot(v, w), w)
    ensures Dot(v, w) * p > 0.0 && Dot(v, w) * q > 0.0
  {
    NormPositive(w);
    ProductsOfShares(a, b, v, w, s, t, p, q, Dot(w, w), Dot(v, w));
  }

  lemma SignsFromProducts(k: real, ma: real, mb: real, nc: real, nd: real)
    requires k * -mb > 0.0 && k * ma > 0.0 && k * nd > 0.0 && k * -nc > 0.0
    ensures SignsAlternate(ma, mb, nc, nd)
  {
    SameSign(k, -mb);
    SameSign(k, ma);
    SameSign(k, nd);
    SameSign(k, -nc);
  }

  lemma SameSign(k: real, x: real)
    requires k * x > 0.0
    ensures (k > 0.0 && x > 0.0) || (k < 0.0 && x < 0.0)
  {
    if k > 0.0 && x <= 0.0 {
      MulNonneg(k, -x);
    } else if k < 0.0 && x >= 0.0 {
      MulNonneg(-k, x);
    }
  }

  /** The four determinants alternate in sign exactly when the arcs' planes
      differ and some direction lies strictly inside both arcs: the sign test
      is the geometric notion of crossing. */
  lemma SignsMeanCrossing(a: Vec, b: Vec, c: Vec, d: Vec)
    ensures SignsAlternate(Dot(Cross(c, d), a), Dot(Cross(c, d), b), Dot(Cross(a, b), c), Dot(Cross(a, b), d))
            <==>
            && Cross(Cross(a, b), Cross(c, d)) != ZERO
            && exists v: Vec :: StrictlyBetween(v, a, b) && StrictlyBetween(v, c, d)
  {
    var n, m := Cross(a, b), Cross(c, d);
    var ma, mb, nc, nd := Dot(m, a), Dot(m, b), Dot(n, c), Dot(n, d);
    if SignsAlternate(ma, mb, nc, nd) {
      var v := SharedDirection(a, b, c, d, ma, mb, nc, nd);
      PlanesDiffer(a, b, c, d, ma, mb, nc, nd);
    }
    if v: Vec :| Cross(n, m) != ZERO && StrictlyBetween(v, a, b) && StrictlyBetween(v, c, d) {
      DirectionGivesSigns(a, b, c, d, v);
    }
  }

  lemma PlanesDiffer(a: Vec, b: Vec, c: Vec, d: Vec, ma: real, mb: real, nc: real, nd: real)
    requires SignsAlternate(ma, mb, nc, nd)
    requires ma == Dot(Cross(c, d), a) && mb == Dot(Cross(c, d), b) && nc == Dot(Cross(a, b), c) && nd == Dot(Cross(a, b), d)
    ensures Cross(Cross(a, b), Cross(c, d)) != ZERO
  {
    MeetingDirection(a, b, c, d);
    var v := Cross(Cross(a, b), Cross(c, d));
    if ma > 0.0 {
      Between(v, -mb, a, ma, b, c);
    } else {
      NegateCombines(v, -mb, a, ma, b);
      Between(Negate(v), mb, a, -ma, b, c);
    }
  }

  lemma DirectionGivesSigns(a: Vec, b: Vec, c: Vec, d: Vec, v: Vec)
    requires Cross(Cross(a, b), Cross(c, d)) != ZERO
    requires StrictlyBetween(v, a, b) && StrictlyBetween(v, c, d)
    ensures SignsAlternate(Dot(Cross(c, d), a), Dot(Cross(c, d), b), Dot(Cross(a, b), c), Dot(Cross(a, b), d))
  {
    var n, m := Cross(a, b), Cross(c, d);
    var w := Cross(n, m);
    var s: real, t: real :| s > 0.0 && t > 0.0 && Combines(v, s, a, t, b);
    var s': real, t': real :| s' > 0.0 && t' > 0.0 && Combines(v, s', c, t', d);
    PlaneNormal(v, s, a, t, b);
    PlaneNormal(v, s', c, t', d);
    AlongTheLine(v, n, m);
    MeetingDirection(a, b, c, d);
    NormalsNonzero(n, m);
    SharesGiveSigns(a, b, n, v, w, s, t, -Dot(m, b), Dot(m, a));
    SharesGiveSigns(c, d, m, v, w, s', t', Dot(n, d), -Dot(n, c));
    SignsFromProducts(Dot(v, w), Dot(m, a), Dot(m, b), Dot(n, c), Dot(n, d));
  }

  lemma NormalsNonzero(n: Vec, m: Vec)
    requires Cross(n, m) != ZERO
    ensures n != ZERO && m != ZERO
  {
  }

  /** `c` is farther than the tolerance from the plane of `a` and `b`. */
  ghost predicate ClearOf(root: real -> real, a: Vec, b: Vec, c: Vec) {
    Abs(Dot(Cross(a, b), c)) > EPS * root(Dot(Cross(a, b), Cross(a, b)))
  }

  lemma OrientMeaning(root: real -> real, a: Vec, b: Vec, c: Vec)
    requires IsRoot(root)
    ensures Orient(root, a, b, c) != 0 <==> ClearOf(root, a, b, c)
    ensures Orient(root, a, b, c) == 1 <==> ClearOf(root, a, b, c) && Dot(Cross(a, b), c) > 0.0
    ensures Orient(root, a, b, c) == -1 <==> ClearOf(root, a, b, c) && Dot(Cross(a, b), c) < 0.0
  {
    DotNonneg(Cross(a, b));
  }

  /** Arcs cross exactly when they have no vertex in common, every end is clear
      of the other arc's great circle, and some direction lies strictly inside
      both. */
  lemma ArcsCrossMeaning(root: real -> real, a: Vec, b: Vec, c: Vec, d: Vec)
    requires IsRoot(root)
    ensures ArcsCross(root, a, b, c, d) <==>
            && !Same(a, c) && !Same(a, d) && !Same(b, c) && !Same(b, d)
            && ClearOf(root, a, b, c) && ClearOf(root, a, b, d) && ClearOf(root, c, d, a) && ClearOf(root, c, d, b)
            && Cross(Cross(a, b), Cross(c, d)) != ZERO
            && exists v: Vec :: StrictlyBetween(v, a, b) && StrictlyBetween(v, c, d)
  {
    SignsMeanCrossing(a, b, c, d);
    OrientMeaning(root, a, b, c);
    OrientMeaning(root, a, b, d);
    OrientMeaning(root, c, d, a);
    OrientMeaning(root, c, d, b);
    SidesMeanSigns(root, a, b, c, d);
  }

  lemma SidesMeanSigns(root: real -> real, a: Vec, b: Vec, c: Vec, d: Vec)
    requires IsRoot(root)
    ensures ArcsCross(root, a, b, c, d) <==>
            && !Same(a, c) && !Same(a, d) && !Same(b, c) && !Same(b, d)
            && Orient(root, a, b, c) != 0 && Orient(root, a, b, d) != 0
            && Orient(root, c, d, a) != 0 && Orient(root, c, d, b) != 0
            && SignsAlternate(Dot(Cross(c, d), a), Dot(Cross(c, d), b), Dot(Cross(a, b), c), Dot(Cross(a, b), d))
  {
    OrientMeaning(root, a, b, c);
    OrientMeaning(root, a, b, d);
    OrientMeaning(root, c, d, a);
    OrientMeaning(root, c, d, b);
  }

  // --- The tolerance, in numbers ---

  function DistanceSquared(a: Vec, b: Vec): real {
    (a.x - b.x) * (a.x - b.x) + (a.y - b.y) * (a.y - b.y) + (a.z - b.z) * (a.z - b.z)
  }

  /** Within 10^-12, by the square. */
  lemma WithinTolerance(d: real, dd: real)
    requires dd == d * d
    ensures Abs(d) <= EPS <==> dd <= 0.000000000000000000000001
  {
    var a := Abs(d);
    assert a * a == dd;
    if a <= EPS {
      MulMonotone(a, EPS, a);
      MulMonotone(a, EPS, EPS);
    } else {
      MulMonotone(EPS, a, EPS);
      SquareGrows(EPS, a, EPS * EPS, dd);
    }
  }

  lemma SquareGrows(x: real, y: real, xx: real, yy: real)
    requires 0.0 < x < y && xx == x * x && yy == y * y
    ensures xx < yy
  {
    MulPositive(y - x, y + x, (y - x) * (y + x));
    assert (y - x) * (y + x) == yy - xx;
  }

  /** Points are the same within 10^-12 on every axis; so those the same are
      within the root of 3 times that of each other, and points within 10^-12 of
      each other are the same. */
  lemma SameMeaning(a: Vec, b: Vec)
    ensures Same(a, b) <==>
            && (a.x - b.x) * (a.x - b.x) <= 0.000000000000000000000001
            && (a.y - b.y) * (a.y - b.y) <= 0.000000000000000000000001
            && (a.z - b.z) * (a.z - b.z) <= 0.000000000000000000000001
    ensures Same(a, b) ==> DistanceSquared(a, b) <= 0.000000000000000000000003
    ensures DistanceSquared(a, b) <= 0.000000000000000000000001 ==> Same(a, b)
  {
    var x, y, z := a.x - b.x, a.y - b.y, a.z - b.z;
    var xx, yy, zz := x * x, y * y, z * z;
    WithinTolerance(x, xx);
    WithinTolerance(y, yy);
    WithinTolerance(z, zz);
    SquareNonneg(x);
    SquareNonneg(y);
    SquareNonneg(z);
    assert DistanceSquared(a, b) == xx + yy + zz;
  }

  /** A point is clear of a great circle when it is farther than 10^-12 from its
      plane. */
  lemma ClearOfMeaning(root: real -> real, a: Vec, b: Vec, c: Vec)
    requires IsRoot(root)
    ensures var n := Cross(a, b);
            ClearOf(root, a, b, c) <==> Dot(n, c) * Dot(n, c) > 0.000000000000000000000001 * Dot(n, n)
  {
    var n := Cross(a, b);
    DotNonneg(n);
    FartherThan(Dot(n, c), root(Dot(n, n)), Dot(n, c) * Dot(n, c), Dot(n, n));
  }

  lemma FartherThan(d: real, r: real, dd: real, rr: real)
    requires r >= 0.0 && dd == d * d && rr == r * r
    ensures Abs(d) > EPS * r <==> dd > 0.000000000000000000000001 * rr
  {
    var a, e := Abs(d), EPS * r;
    assert a * a == dd;
    assert e * e == 0.000000000000000000000001 * rr;
    if a > e {
      if e > 0.0 {
        SquareGrows(e, a, e * e, dd);
      } else {
        SquarePositive(a, dd);
      }
    } else {
      MulMonotone(a, e, a);
      MulMonotone(a, e, e);
    }
  }

  /** Both ends of one arc on one side of the other's plane: no crossing. */
  lemma OneSideDoesNotCross(root: real -> real, a: Vec, b: Vec, c: Vec, d: Vec)
    requires IsRoot(root) && Dot(Cross(a, b), c) > 0.0 && Dot(Cross(a, b), d) > 0.0
    ensures !ArcsCross(root, a, b, c, d)
  {
    OrientSign(root, a, b, c);
    OrientSign(root, a, b, d);
  }

  /** Arcs without ends near one another cross exactly when every end is clear of
      the other's plane and some direction lies strictly inside both; arcs with
      an end in common never do. */
  lemma CrossingByDistance(root: real -> real, a: Vec, b: Vec, c: Vec, d: Vec)
    requires IsRoot(root)
    ensures
      DistanceSquared(a, c) > 0.000000000000000000000003 && DistanceSquared(a, d) > 0.000000000000000000000003 &&
      DistanceSquared(b, c) > 0.000000000000000000000003 && DistanceSquared(b, d) > 0.000000000000000000000003 ==>
        (ArcsCross(root, a, b, c, d) <==>
          && ClearOf(root, a, b, c) && ClearOf(root, a, b, d) && ClearOf(root, c, d, a) && ClearOf(root, c, d, b)
          && Cross(Cross(a, b), Cross(c, d)) != ZERO
          && exists v: Vec :: StrictlyBetween(v, a, b) && StrictlyBetween(v, c, d))
    ensures
      DistanceSquared(a, c) <= 0.000000000000000000000001 || DistanceSquared(a, d) <= 0.000000000000000000000001 ||
      DistanceSquared(b, c) <= 0.000000000000000000000001 || DistanceSquared(b, d) <= 0.000000000000000000000001 ==>
        !ArcsCross(root, a, b, c, d)
  {
    SameMeaning(a, c);
    SameMeaning(a, d);
    SameMeaning(b, c);
    SameMeaning(b, d);
    ArcsCrossMeaning(root, a, b, c, d);
  }
}
