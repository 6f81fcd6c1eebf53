/** The arc of a ring's longitudes is no wider than the ring: some point of some
    edge has each of them. */
module LongitudesReached {
  import opened Vectors
  import opened ArcGeometry
  import opened Longitudes
  import opened RingBounds
  import opened EdgeLongitudes

  // --- A point's longitudes ---

  lemma CosOrSin(trig: Trig, x: real)
    requires trig.Valid()
    ensures trig.cos(x) != 0.0 || trig.sin(x) != 0.0
  {
    var y := x - 90.0;
    assert trig.Subtracts(x, y);
    assert x - y == 90.0;
    assert trig.sin(90.0) > 0.0;
  }

  lemma HeadingNotZero(trig: Trig, x: real, y: real, lon: real, rho: real)
    requires trig.Valid() && rho != 0.0 && Heads(trig, x, y, lon, rho)
    ensures x != 0.0 || y != 0.0
  {
    CosOrSin(trig, lon);
    BothZero(x, y, rho, trig.cos(lon), trig.sin(lon));
  }

  lemma BothZero(x: real, y: real, rho: real, c: real, s: real)
    requires rho != 0.0 && x == rho * c && y == rho * s && (c != 0.0 || s != 0.0)
    ensures x != 0.0 || y != 0.0
  {
  }

  lemma OffAxisWhereLongitude(trig: Trig, p: Vec, lon: real)
    requires trig.Valid() && HasLongitude(trig, p, lon)
    ensures OffAxis(p)
  {
    var rho: real :| rho > 0.0 && Heads(trig, p.x, p.y, lon, rho);
    HeadingNotZero(trig, p.x, p.y, lon, rho);
  }

  lemma SineSame(trig: Trig, x: real, y: real)
    requires trig.Valid() && Congruent(x, y)
    ensures trig.sin(x) == trig.sin(y)
  {
    var k: int :| x == y + Turns(k);
    assert trig.Repeats(y, k);
  }

  /** The sine is zero only at no turn and half a turn. */
  lemma SineZero(trig: Trig, d: real)
    requires trig.Valid() && trig.sin(d) == 0.0
    ensures Wrap(d) == 0.0 || Wrap(d) == 180.0
  {
    WrapFacts(d);
    SineSame(trig, Wrap(d), d);
    assert trig.SineSigns();
  }

  lemma OppositeHeadings(trig: Trig, x: real, y: real, a: real, rho: real, b: real, r: real)
    requires trig.Valid() && rho > 0.0 && r > 0.0
    requires Heads(trig, x, y, a, rho) && Heads(trig, x, y, b, r)
    ensures !Congruent(a + 180.0, b)
  {
    if Congruent(a + 180.0, b) {
      HeadsTurned(trig, x, y, b, a + 180.0, r);
      HeadsBack(trig, x, y, a, r);
      CosOrSin(trig, a);
      NotBothWays(rho, r, trig.cos(a), trig.sin(a));
    }
  }

  lemma NotBothWays(rho: real, r: real, c: real, s: real)
    requires rho > 0.0 && r > 0.0 && (c != 0.0 || s != 0.0)
    ensures rho * c != -r * c || rho * s != -r * s
  {
    if rho * c == -r * c {
      EqualFactor(rho, -r, c);
    }
    if rho * s == -r * s {
      EqualFactor(rho, -r, s);
    }
  }

  lemma SameHeading(trig: Trig, x: real, y: real, a: real, rho: real, b: real, r: real)
    requires trig.Valid() && rho > 0.0 && r > 0.0
    requires Heads(trig, x, y, a, rho) && Heads(trig, x, y, b, r)
    ensures Congruent(b, a)
  {
    var m := rho * r;
    MulPositive(rho, r, m);
    HeadsCross(trig, x, y, a, rho, x, y, b, r, m);
    EqualFactor(trig.sin(b - a), 0.0, m);
    SineZero(trig, b - a);
    WrapFacts(b - a);
    TurnReaches(a, b, Wrap(b - a));
    OppositeHeadings(trig, x, y, a, rho, b, r);
    CongruentBack(b, a);
  }

  lemma CongruentBack(x: real, y: real)
    requires Congruent(y + 0.0, x)
    ensures Congruent(x, y)
  {
    var k: int :| y + 0.0 == x + Turns(k);
    assert x == y + Turns(-k);
  }

  /** A point has one longitude, up to whole turns. */
  lemma LongitudeUnique(trig: Trig, p: Vec, a: real, b: real)
    requires trig.Valid() && HasLongitude(trig, p, a) && HasLongitude(trig, p, b)
    ensures Congruent(b, a)
  {
    var rho: real :| rho > 0.0 && Heads(trig, p.x, p.y, a, rho);
    var r: real :| r > 0.0 && Heads(trig, p.x, p.y, b, r);
    SameHeading(trig, p.x, p.y, a, rho, b, r);
  }

  // --- One edge ---

  /** Sines of the angles between three, two of them on either side. */
  lemma SinesCombine(ca: real, sa: real, cb: real, sb: real, cp: real, sp: real, bp: real, pa: real, ba: real)
    requires bp == sb * cp - cb * sp && pa == sp * ca - cp * sa && ba == sb * ca - cb * sa
    ensures bp * ca + pa * cb == ba * cp
    ensures bp * sa + pa * sb == ba * sp
  {
  }

  lemma AnglesCombine(trig: Trig, a: real, b: real, phi: real, sb: real, sa: real, sd: real)
    requires trig.Valid() && sb == trig.sin(b - phi) && sa == trig.sin(phi - a) && sd == trig.sin(b - a)
    ensures sb * trig.cos(a) + sa * trig.cos(b) == sd * trig.cos(phi)
    ensures sb * trig.sin(a) + sa * trig.sin(b) == sd * trig.sin(phi)
  {
    assert trig.Subtracts(b, phi) && trig.Subtracts(phi, a) && trig.Subtracts(b, a);
    SinesCombine(trig.cos(a), trig.sin(a), trig.cos(b), trig.sin(b), trig.cos(phi), trig.sin(phi), sb, sa, sd);
  }

  /** One coordinate of the combination below. */
  lemma ScaledShares(rho: real, sigma: real, sb: real, sa: real, ca: real, cb: real, s: real, t: real, u: real, v: real,
                     sd: real, cp: real, m: real)
    requires s == -sigma * sb && t == -rho * sa && u == rho * ca && v == sigma * cb && m == rho * sigma
    requires sb * ca + sa * cb == sd * cp
    ensures s * u + t * v == (-m * sd) * cp
  {
    Product4(s, u, -sigma, rho, sb, ca);
    Product4(t, v, -rho, sigma, sa, cb);
    assert s * u + t * v == -m * (sb * ca) - m * (sa * cb);
    assert -m * (sb * ca) - m * (sa * cb) == -m * (sb * ca + sa * cb);
  }

  /** Shares of the ends that give a direction at any angle between them. */
  lemma SharesAt(trig: Trig, ux: real, uy: real, a: real, rho: real, vx: real, vy: real, b: real, sigma: real,
                 phi: real, sb: real, sa: real, sd: real, s: real, t: real, m: real, r: real)
    requires trig.Valid() && sb == trig.sin(b - phi) && sa == trig.sin(phi - a) && sd == trig.sin(b - a)
    requires Heads(trig, ux, uy, a, rho) && Heads(trig, vx, vy, b, sigma)
    requires s == -sigma * sb && t == -rho * sa && m == rho * sigma && r == -m * sd
    ensures Heads(trig, s * ux + t * vx, s * uy + t * vy, phi, r)
  {
    AnglesCombine(trig, a, b, phi, sb, sa, sd);
    ScaledShares(rho, sigma, sb, sa, trig.cos(a), trig.cos(b), s, t, ux, vx, sd, trig.cos(phi), m);
    ScaledShares(rho, sigma, sb, sa, trig.sin(a), trig.sin(b), s, t, uy, vy, sd, trig.sin(phi), m);
  }

  lemma NegatedProduct(r: real, x: real, p: real)
    requires r > 0.0 && x < 0.0 && p == -r * x
    ensures p > 0.0
  {
    MulPositive(r, -x, p);
  }

  /** A direction between the ends of an edge, scaled onto it. */
  lemma OntoEdge(trig: Trig, root: real -> real, a: Vec, b: Vec, s: real, t: real, q: Vec, lon: real) returns (p: Vec)
    requires trig.Valid() && IsRoot(root) && s >= 0.0 && t >= 0.0 && Combines(q, s, a, t, b) && HasLongitude(trig, q, lon)
    ensures HasLongitude(trig, p, lon) && exists s: real, t: real :: OnArc(p, s, a, t, b)
  {
    OffAxisWhereLongitude(trig, q, lon);
    assert q != ZERO;
    var i: real;
    p, i := Normalised(root, q);
    ScaleCombines(i, q, s, a, t, b);
    MulNonneg(i, s);
    MulNonneg(i, t);
    assert OnArc(p, i * s, a, i * t, b);
    LongitudeScaled(trig, q, lon, i);
  }

  lemma LongitudeScaled(trig: Trig, q: Vec, lon: real, i: real)
    requires HasLongitude(trig, q, lon) && i > 0.0
    ensures HasLongitude(trig, Scale(i, q), lon)
  {
    var rho: real :| rho > 0.0 && Heads(trig, q.x, q.y, lon, rho);
    HeadsScaled(trig, q.x, q.y, lon, rho, i);
    MulPositive(i, rho, i * rho);
    assert Heads(trig, Scale(i, q).x, Scale(i, q).y, lon, i * rho);
  }

  /** An edge that turns westwards passes every longitude on its way. */
  lemma WestwardEdge(trig: Trig, root: real -> real, u: Vec, a: real, v: Vec, b: real, phi: real) returns (p: Vec)
    requires trig.Valid() && IsRoot(root) && HasLongitude(trig, u, a) && HasLongitude(trig, v, b)
    requires a - 180.0 < b < phi < a
    ensures HasLongitude(trig, p, phi) && exists s: real, t: real :: OnArc(p, s, u, t, v)
  {
    var rho: real :| rho > 0.0 && Heads(trig, u.x, u.y, a, rho);
    var sigma: real :| sigma > 0.0 && Heads(trig, v.x, v.y, b, sigma);
    var s, t, q := WestwardShares(trig, u, a, rho, v, b, sigma, phi);
    p := OntoEdge(trig, root, u, v, s, t, q, phi);
  }

  lemma WestwardShares(trig: Trig, u: Vec, a: real, rho: real, v: Vec, b: real, sigma: real, phi: real)
    returns (s: real, t: real, q: Vec)
    requires trig.Valid() && rho > 0.0 && sigma > 0.0 && a - 180.0 < b < phi < a
    requires Heads(trig, u.x, u.y, a, rho) && Heads(trig, v.x, v.y, b, sigma)
    ensures s >= 0.0 && t >= 0.0 && Combines(q, s, u, t, v) && HasLongitude(trig, q, phi)
  {
    var sb, sa, sd := trig.sin(b - phi), trig.sin(phi - a), trig.sin(b - a);
    assert trig.SineSigns();
    assert sb < 0.0 && sa < 0.0 && sd < 0.0;
    var m := rho * sigma;
    MulPositive(rho, sigma, m);
    var r := -m * sd;
    s, t := -sigma * sb, -rho * sa;
    NegatedProduct(sigma, sb, s);
    NegatedProduct(rho, sa, t);
    NegatedProduct(m, sd, r);
    SharesAt(trig, u.x, u.y, a, rho, v.x, v.y, b, sigma, phi, sb, sa, sd, s, t, m, r);
    q := Vec(s * u.x + t * v.x, s * u.y + t * v.y, s * u.z + t * v.z);
    assert Heads(trig, q.x, q.y, phi, r);
  }

  // --- The ring ---

  /** Every vertex is off the axis, where its longitude says. */
  ghost predicate AllPlaced(trig: Trig, ring: seq<Vertex>) {
    forall i :: 0 <= i < |ring| ==> HasLongitude(trig, ring[i].dir, ring[i].lon)
  }

  /** Some edge reaches the longitude `x`. */
  ghost predicate EdgeReaches(trig: Trig, ring: seq<Vertex>, x: real) {
    exists e: nat, p: Vec :: OnEdge(ring, e, p) && HasLongitude(trig, p, x)
  }

  /** The walk from a followed longitude down to another passes all between. */
  lemma {:induction false} Descend(ring: seq<Vertex>, lo: nat, hi: nat, y: real) returns (j: nat)
    requires lo <= hi <= |ring| && ring != [] && Unwrapped(ring, lo) >= y >= Unwrapped(ring, hi)
    ensures j <= |ring|
    ensures Unwrapped(ring, j) == y || (j < |ring| && Unwrapped(ring, j) > y > Unwrapped(ring, j + 1))
    decreases hi - lo
  {
    if Unwrapped(ring, lo) == y {
      j := lo;
    } else if Unwrapped(ring, lo + 1) < y {
      j := lo;
    } else {
      j := Descend(ring, lo + 1, hi, y);
    }
  }

  /** A closed walk comes down again past every longitude between its least and
      its greatest. */
  lemma ComesDown(ring: seq<Vertex>, low: nat, high: nat, y: real) returns (j: nat)
    requires low < |ring| && high < |ring| && Winding(ring) == 0.0
    requires Unwrapped(ring, low) <= y <= Unwrapped(ring, high)
    ensures j <= |ring|
    ensures Unwrapped(ring, j) == y || (j < |ring| && Unwrapped(ring, j) > y > Unwrapped(ring, j + 1))
  {
    if high <= low {
      j := Descend(ring, high, low, y);
    } else if Unwrapped(ring, 0) <= y {
      j := Descend(ring, high, |ring|, y);
    } else {
      j := Descend(ring, 0, low, y);
    }
  }

  lemma VertexReaches(trig: Trig, root: real -> real, ring: seq<Vertex>, j: nat)
    requires trig.Valid() && IsRoot(root) && AllPlaced(trig, ring) && ring != [] && j <= |ring|
    ensures EdgeReaches(trig, ring, Unwrapped(ring, j))
  {
    var v := if j == |ring| then 0 else j;
    var a, b := ring[v].dir, ring[Next(ring, v)].dir;
    UnwrappedIsLongitude(ring, j);
    FollowedLongitude(trig, a, ring[v].lon, Unwrapped(ring, j));
    var p := OntoEdge(trig, root, a, b, 1.0, 0.0, a, Unwrapped(ring, j));
    assert OnEdge(ring, v, p);
  }

  lemma FollowedLongitude(trig: Trig, p: Vec, lon: real, x: real)
    requires trig.Valid() && HasLongitude(trig, p, lon) && Congruent(x, lon)
    ensures HasLongitude(trig, p, x)
  {
    var k: int :| x == lon + Turns(k);
    LongitudeTurned(trig, p, lon, k);
  }

  lemma DescentReaches(trig: Trig, root: real -> real, ring: seq<Vertex>, j: nat, y: real)
    requires trig.Valid() && IsRoot(root) && AllPlaced(trig, ring) && j < |ring|
    requires Unwrapped(ring, j) > y > Unwrapped(ring, j + 1)
    ensures EdgeReaches(trig, ring, y)
  {
    var n := Next(ring, j);
    UnwrappedIsLongitude(ring, j);
    UnwrapEdge(ring, j);
    EdgeTurn(ring, j);
    FollowedLongitude(trig, ring[j].dir, ring[j].lon, Unwrapped(ring, j));
    FollowedLongitude(trig, ring[n].dir, ring[n].lon, Unwrapped(ring, j + 1));
    var p := WestwardEdge(trig, root, ring[j].dir, Unwrapped(ring, j), ring[n].dir, Unwrapped(ring, j + 1), y);
    assert OnEdge(ring, j, p);
  }

  lemma ReachedTurned(trig: Trig, ring: seq<Vertex>, y: real, k: int, x: real)
    requires trig.Valid() && EdgeReaches(trig, ring, y) && x == y + Turns(k)
    ensures EdgeReaches(trig, ring, x)
  {
    var e: nat, p: Vec :| OnEdge(ring, e, p) && HasLongitude(trig, p, y);
    LongitudeTurned(trig, p, y, k);
  }

  /** A ring that does not go round a pole, with no vertex at one: the edges reach
      every longitude of the arc that spans its vertices. */
  lemma SpanReached(trig: Trig, root: real -> real, ring: seq<Vertex>, arc: Arc, x: real)
    requires trig.Valid() && IsRoot(root) && AllPlaced(trig, ring)
    requires ring != [] && Winding(ring) == 0.0 && SpansRing(ring, arc)
    requires arc.start <= x <= arc.end
    ensures EdgeReaches(trig, ring, x)
  {
    var k: int :| SpansShifted(ring, arc, k);
    var low, high := SpanEnds(ring, arc, k);
    var y := x - Turns(k);
    FollowedReached(trig, root, ring, low, high, y);
    ReachedTurned(trig, ring, y, k, x);
  }

  lemma FollowedReached(trig: Trig, root: real -> real, ring: seq<Vertex>, low: nat, high: nat, y: real)
    requires trig.Valid() && IsRoot(root) && AllPlaced(trig, ring)
    requires low < |ring| && high < |ring| && Winding(ring) == 0.0
    requires Unwrapped(ring, low) <= y <= Unwrapped(ring, high)
    ensures EdgeReaches(trig, ring, y)
  {
    var j := ComesDown(ring, low, high, y);
    if Unwrapped(ring, j) == y {
      VertexReaches(trig, root, ring, j);
    } else {
      DescentReaches(trig, root, ring, j, y);
    }
  }

  /** The vertices at the two ends of the arc. */
  lemma SpanEnds(ring: seq<Vertex>, arc: Arc, k: int) returns (low: nat, high: nat)
    requires SpansShifted(ring, arc, k)
    ensures low < |ring| && arc.start == Unwrapped(ring, low) + Turns(k)
    ensures high < |ring| && arc.end == Unwrapped(ring, high) + Turns(k)
  {
    low :| 0 <= low < |ring| && arc.start == Unwrapped(ring, low) + Turns(k);
    high :| 0 <= high < |ring| && arc.end == Unwrapped(ring, high) + Turns(k);
  }

  // --- A vertex at a pole ---

  /** A vertex on the equator. */
  function OnEquator(trig: Trig, lon: real): Vertex {
    Vertex(lon, Vec(trig.cos(lon), trig.sin(lon), 0.0))
  }

  lemma ShortTurn(d: real)
    requires -180.0 < d <= 180.0
    ensures Wrap(d) == d
  {
    WrapFacts(d);
    CongruentSelf(d);
  }

  /** The pole, called 90, then 0 and 10 on the equator. */
  function PoleRing(trig: Trig): seq<Vertex> {
    [Vertex(90.0, Vec(0.0, 0.0, 1.0)), OnEquator(trig, 0.0), OnEquator(trig, 10.0)]
  }

  lemma PoleRingFollowed(trig: Trig)
    ensures var ring := PoleRing(trig);
            Unwrapped(ring, 0) == 90.0 && Unwrapped(ring, 1) == 0.0 && Unwrapped(ring, 2) == 10.0 && Unwrapped(ring, 3) == 90.0
  {
    var ring := PoleRing(trig);
    NextWraps(ring, 0);
    NextWraps(ring, 1);
    NextWraps(ring, 2);
    ShortTurn(-90.0);
    ShortTurn(10.0);
    ShortTurn(80.0);
    assert Step(ring, 0) == -90.0 && Step(ring, 1) == 10.0 && Step(ring, 2) == 80.0;
  }

  lemma PoleRingSpan(trig: Trig)
    ensures Winding(PoleRing(trig)) == 0.0 && SpansRing(PoleRing(trig), Arc(0.0, 90.0))
  {
    PoleRingFollowed(trig);
    assert Turns(0) == 0.0;
    assert SpansShifted(PoleRing(trig), Arc(0.0, 90.0), 0);
  }

  lemma PoleRingLocated(trig: Trig)
    ensures AllLocated(trig, PoleRing(trig))
  {
    forall i | 0 <= i < 3 ensures Located(trig, PoleRing(trig)[i]) {
      var v := PoleRing(trig)[i];
      assert Heads(trig, v.dir.x, v.dir.y, v.lon, if i == 0 then 0.0 else 1.0);
    }
  }

  /** An edge between the pole and an equatorial vertex keeps to its meridian. */
  lemma MeridianOnly(trig: Trig, p: Vec, z: real, t: real, lon: real, x: real)
    requires trig.Valid() && HasLongitude(trig, p, x) && t >= 0.0
    requires Combines(p, z, Vec(0.0, 0.0, 1.0), t, OnEquator(trig, lon).dir)
    ensures Congruent(x, lon)
  {
    OffAxisWhereLongitude(trig, p, x);
    assert t != 0.0;
    assert Heads(trig, p.x, p.y, lon, t);
    LongitudeUnique(trig, p, lon, x);
  }

  /** Then the arc can be wider than the edges: no point of them is at 50. */
  lemma PoleNotReached(trig: Trig, root: real -> real)
    requires trig.Valid() && IsRoot(root)
    ensures AllLocated(trig, PoleRing(trig)) && Winding(PoleRing(trig)) == 0.0
    ensures SpansRing(PoleRing(trig), Arc(0.0, 90.0)) && !EdgeReaches(trig, PoleRing(trig), 50.0)
  {
    PoleRingLocated(trig);
    PoleRingSpan(trig);
    forall e: nat, p: Vec | OnEdge(PoleRing(trig), e, p) && HasLongitude(trig, p, 50.0) ensures false {
      PoleEdge(trig, root, e, p);
    }
  }

  lemma PoleEdge(trig: Trig, root: real -> real, e: nat, p: Vec)
    requires trig.Valid() && IsRoot(root) && OnEdge(PoleRing(trig), e, p)
    ensures !HasLongitude(trig, p, 50.0)
  {
    if HasLongitude(trig, p, 50.0) {
      var ring := PoleRing(trig);
      NextWraps(ring, e);
      var s: real, t: real :| OnArc(p, s, ring[e].dir, t, ring[Next(ring, e)].dir);
      if e == 0 {
        MeridianOnly(trig, p, s, t, 0.0, 50.0);
        Apart(50.0, 0.0);
      } else if e == 2 {
        SwapCombines(p, s, ring[2].dir, t, ring[0].dir);
        MeridianOnly(trig, p, t, s, 10.0, 50.0);
        Apart(50.0, 10.0);
      } else {
        OffAxisWhereLongitude(trig, p, 50.0);
        PoleRingLocated(trig);
        PoleRingFollowed(trig);
        var x := PointFollowed(trig, root, ring, e, p);
        LongitudeUnique(trig, p, x, 50.0);
        Apart(50.0, x);
      }
    }
  }

  lemma Apart(x: real, y: real)
    requires y < x < y + 360.0
    ensures !Congruent(x, y)
  {
    if k: int :| x == y + Turns(k) {
      WholeTurnOrNone(k);
      assert false;
    }
  }
}
