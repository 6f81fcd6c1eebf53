/** The longitudes of a ring's edges, not its vertices alone: where the great
    circle between two vertices runs. */
module EdgeLongitudes {
  import opened Vectors
  import opened ArcGeometry
  import opened Longitudes
  import opened RingBounds

  // --- Angles ---

  /** Cosine and sine of an angle in degrees, by what is used of them. */
  datatype Trig = Trig(cos: real -> real, sin: real -> real) {

    ghost predicate Subtracts(x: real, y: real) {
      sin(x - y) == sin(x) * cos(y) - cos(x) * sin(y)
    }

    ghost predicate Repeats(x: real, k: int) {
      cos(x + Turns(k)) == cos(x) && sin(x + Turns(k)) == sin(x)
    }

    ghost predicate Opposes(x: real) {
      cos(x + 180.0) == -cos(x) && sin(x + 180.0) == -sin(x)
    }

    ghost predicate OnCircle(c: real, s: real) {
      c * c + s * s == 1.0
    }

    ghost predicate Valid() {
      && (forall x, y :: Subtracts(x, y))
      && (forall x, k :: Repeats(x, k))
      && (forall x :: Opposes(x))
      && (forall c, s :: OnCircle(c, s) ==> exists x :: cos(x) == c && sin(x) == s)
      && SineSigns()
    }

    /** A cosine and sine are always a point of the unit circle. */
    ghost predicate Unital() {
      forall x :: OnCircle(cos(x), sin(x))
    }

    ghost predicate SineSigns() {
      && (forall x :: 0.0 < x < 180.0 ==> sin(x) > 0.0)
      && (forall x :: -180.0 < x < 0.0 ==> sin(x) < 0.0)
      && sin(0.0) == 0.0 && sin(180.0) == 0.0
    }
  }

  /** `(x, y)` points along the meridian of `lon`, at distance `rho`. */
  ghost predicate Heads(trig: Trig, x: real, y: real, lon: real, rho: real) {
    x == rho * trig.cos(lon) && y == rho * trig.sin(lon)
  }

  /** Not over a pole, where every longitude is the same. */
  predicate OffAxis(p: Vec) {
    p.x != 0.0 || p.y != 0.0
  }

  /** A point off the axis has longitude `lon`. */
  ghost predicate HasLongitude(trig: Trig, p: Vec, lon: real) {
    exists rho: real :: rho > 0.0 && Heads(trig, p.x, p.y, lon, rho)
  }

  /** The direction lies on its own meridian, or on the axis. */
  ghost predicate Located(trig: Trig, v: Vertex) {
    exists rho: real :: rho >= 0.0 && Heads(trig, v.dir.x, v.dir.y, v.lon, rho)
  }

  lemma HeadsScaled(trig: Trig, x: real, y: real, lon: real, rho: real, s: real)
    requires Heads(trig, x, y, lon, rho)
    ensures Heads(trig, s * x, s * y, lon, s * rho)
  {
    assert s * (rho * trig.cos(lon)) == (s * rho) * trig.cos(lon);
    assert s * (rho * trig.sin(lon)) == (s * rho) * trig.sin(lon);
  }

  lemma HeadsSum(trig: Trig, x: real, y: real, rho: real, x': real, y': real, rho': real, lon: real)
    requires Heads(trig, x, y, lon, rho) && Heads(trig, x', y', lon, rho')
    ensures Heads(trig, x + x', y + y', lon, rho + rho')
  {
  }

  lemma HeadsTurned(trig: Trig, x: real, y: real, lon: real, other: real, rho: real)
    requires trig.Valid() && Heads(trig, x, y, lon, rho) && Congruent(other, lon)
    ensures Heads(trig, x, y, other, rho)
  {
    var k: int :| other == lon + Turns(k);
    assert trig.Repeats(lon, k);
  }

  lemma HeadsBack(trig: Trig, x: real, y: real, lon: real, rho: real)
    requires trig.Valid()
    ensures Heads(trig, x, y, lon + 180.0, rho) <==> Heads(trig, x, y, lon, -rho)
  {
    assert trig.Opposes(lon);
  }

  lemma Product4(x: real, y: real, r: real, s: real, c: real, d: real)
    requires x == r * c && y == s * d
    ensures x * y == (r * s) * (c * d)
  {
    assert (r * c) * (s * d) == (r * s) * (c * d);
  }

  /** The horizontal cross product of two directions is the sine of the angle
      between them, scaled. */
  lemma HeadsCross(trig: Trig, x: real, y: real, a: real, rho: real, x': real, y': real, b: real, rho': real, m: real)
    requires trig.Valid() && Heads(trig, x, y, a, rho) && Heads(trig, x', y', b, rho') && m == rho * rho'
    ensures x * y' - y * x' == m * trig.sin(b - a)
  {
    var ca, sa, cb, sb := trig.cos(a), trig.sin(a), trig.cos(b), trig.sin(b);
    Product4(x, y', rho, rho', ca, sb);
    Product4(y, x', rho, rho', sa, cb);
    assert trig.Subtracts(b, a);
    assert m * (ca * sb) - m * (sa * cb) == m * (sb * ca - cb * sa);
  }

  /** A combination's cross products with the two it combines. */
  lemma CrossesOfCombination(ux: real, uy: real, vx: real, vy: real, s: real, t: real, px: real, py: real, c: real)
    requires px == s * ux + t * vx && py == s * uy + t * vy && c == ux * vy - uy * vx
    ensures ux * py - uy * px == t * c
    ensures px * vy - py * vx == s * c
  {
    assert ux * (s * uy + t * vy) - uy * (s * ux + t * vx) == t * (ux * vy - uy * vx);
    assert (s * ux + t * vx) * vy - (s * uy + t * vy) * vx == s * (ux * vy - uy * vx);
  }

  lemma SignThrough(k: real, u: real, t: real, m: real, v: real, c: real)
    requires k > 0.0 && t > 0.0 && m > 0.0 && c == m * v && k * u == t * c
    ensures u > 0.0 <==> v > 0.0
    ensures u < 0.0 <==> v < 0.0
  {
    SignTimes(m, v, c);
    SignTimes(t, c, t * c);
    SignTimes(k, u, k * u);
  }

  lemma SignTimes(k: real, u: real, ku: real)
    requires k > 0.0 && ku == k * u
    ensures ku > 0.0 <==> u > 0.0
    ensures ku < 0.0 <==> u < 0.0
  {
    if u > 0.0 {
      MulPositive(k, u, ku);
    } else if u < 0.0 {
      MulPositive(k, -u, -ku);
    }
  }

  /** An angle whose sine, and whose distance's sine, have the sign of `d`'s lies
      between 0 and `d`. */
  lemma AngleBetween(trig: Trig, theta: real, d: real)
    requires trig.SineSigns() && -180.0 < theta <= 180.0 && -180.0 < d < 180.0 && d != 0.0
    requires trig.sin(theta) > 0.0 <==> trig.sin(d) > 0.0
    requires trig.sin(theta) < 0.0 <==> trig.sin(d) < 0.0
    requires trig.sin(d - theta) > 0.0 <==> trig.sin(d) > 0.0
    requires trig.sin(d - theta) < 0.0 <==> trig.sin(d) < 0.0
    ensures Within(theta, d)
  {
    var rest := d - theta;
    assert trig.sin(rest) != 0.0;
    assert rest == 0.0 ==> trig.sin(rest) == trig.sin(0.0);
    assert theta == 0.0 ==> trig.sin(theta) == trig.sin(0.0);
    assert theta == 180.0 ==> trig.sin(theta) == trig.sin(180.0);
  }

  /** Between 0 and `d`, either way. */
  predicate Within(theta: real, d: real) {
    0.0 <= theta <= d || d <= theta <= 0.0
  }

  ghost predicate Turned(trig: Trig, x: real, y: real, a: real, theta: real, rho: real) {
    rho > 0.0 && Heads(trig, x, y, a + theta, rho)
  }

  /** Some angle from `a` within `d` is the longitude of `(x, y)`. */
  ghost predicate LonWithin(trig: Trig, x: real, y: real, a: real, d: real) {
    exists theta: real, rho: real :: Within(theta, d) && Turned(trig, x, y, a, theta, rho)
  }

  /** Every direction off the axis has a longitude within half a turn of `a`. */
  lemma AngleFrom(trig: Trig, root: real -> real, x: real, y: real, a: real) returns (theta: real, r: real)
    requires trig.Valid() && IsRoot(root) && (x != 0.0 || y != 0.0)
    ensures r > 0.0 && -180.0 < theta <= 180.0 && Heads(trig, x, y, a + theta, r)
  {
    var q := x * x + y * y;
    PlanePositive(x, y, q);
    r := root(q);
    var c, s := UnitPair(x, y, q, r);
    assert trig.OnCircle(c, s);
    var phi :| trig.cos(phi) == c && trig.sin(phi) == s;
    theta := Wrap(phi - a);
    WrapFacts(phi - a);
    var k: int :| theta == (phi - a) + Turns(k);
    assert a + theta == phi + Turns(k);
    HeadsTurned(trig, x, y, phi, a + theta, r);
  }

  lemma ShareOut(q: real, cc: real, ss: real, xx: real, yy: real)
    requires q > 0.0 && xx == q * cc && yy == q * ss && q == xx + yy
    ensures cc + ss == 1.0
  {
    assert (cc + ss) * q == q * cc + q * ss;
    EqualFactor(cc + ss, 1.0, q);
  }

  lemma UnitPair(x: real, y: real, q: real, r: real) returns (c: real, s: real)
    requires q > 0.0 && q == x * x + y * y && r * r == q && r >= 0.0
    ensures r > 0.0 && x == r * c && y == r * s && c * c + s * s == 1.0
  {
    c, s := x / r, y / r;
    Product4(x, x, r, r, c, c);
    Product4(y, y, r, r, s, s);
    ShareOut(q, c * c, s * s, x * x, y * y);
  }

  // --- One edge ---

  /** The general edge: both shares positive, both ends off the axis, and the
      turn neither none nor half. */
  lemma ProperEdge(trig: Trig, root: real -> real, ux: real, uy: real, a: real, rho: real,
                   vx: real, vy: real, d: real, sigma: real, s: real, t: real, px: real, py: real)
    requires trig.Valid() && IsRoot(root) && -180.0 < d < 180.0 && d != 0.0
    requires Heads(trig, ux, uy, a, rho) && Heads(trig, vx, vy, a + d, sigma)
    requires rho > 0.0 && sigma > 0.0 && s > 0.0 && t > 0.0
    requires px == s * ux + t * vx && py == s * uy + t * vy && (px != 0.0 || py != 0.0)
    ensures LonWithin(trig, px, py, a, d)
  {
    var theta, r := AngleFrom(trig, root, px, py, a);
    var c := ux * vy - uy * vx;
    CrossesOfCombination(ux, uy, vx, vy, s, t, px, py, c);
    var m, k, l := rho * sigma, rho * r, r * sigma;
    MulPositive(rho, sigma, m);
    MulPositive(rho, r, k);
    MulPositive(r, sigma, l);
    SinesOfEdge(trig, ux, uy, a, rho, vx, vy, d, sigma, px, py, theta, r, m, k, l);
    SignThrough(k, trig.sin(theta), t, m, trig.sin(d), c);
    SignThrough(l, trig.sin(d - theta), s, m, trig.sin(d), c);
    AngleBetween(trig, theta, d);
    assert Turned(trig, px, py, a, theta, r);
  }

  lemma SinesOfEdge(trig: Trig, ux: real, uy: real, a: real, rho: real, vx: real, vy: real, d: real, sigma: real,
                    px: real, py: real, theta: real, r: real, m: real, k: real, l: real)
    requires trig.Valid()
    requires Heads(trig, ux, uy, a, rho) && Heads(trig, vx, vy, a + d, sigma) && Heads(trig, px, py, a + theta, r)
    requires m == rho * sigma && k == rho * r && l == r * sigma
    ensures ux * vy - uy * vx == m * trig.sin(d)
    ensures ux * py - uy * px == k * trig.sin(theta)
    ensures px * vy - py * vx == l * trig.sin(d - theta)
  {
    HeadsCross(trig, ux, uy, a, rho, vx, vy, a + d, sigma, m);
    HeadsCross(trig, ux, uy, a, rho, px, py, a + theta, r, k);
    HeadsCross(trig, px, py, a + theta, r, vx, vy, a + d, sigma, l);
    assert (a + d) - a == d && (a + theta) - a == theta && (a + d) - (a + theta) == d - theta;
  }

  /** A multiple of one end. */
  lemma EndDirection(trig: Trig, x: real, y: real, lon: real, rho: real, s: real, px: real, py: real)
    requires Heads(trig, x, y, lon, rho) && rho >= 0.0 && s >= 0.0
    requires px == s * x && py == s * y && (px != 0.0 || py != 0.0)
    ensures s * rho > 0.0 && Heads(trig, px, py, lon, s * rho)
  {
    HeadsScaled(trig, x, y, lon, rho, s);
    MulNonneg(s, rho);
    assert s * rho == 0.0 ==> px == 0.0 * trig.cos(lon) && py == 0.0 * trig.sin(lon);
  }

  /** Ends on one meridian, or on opposite ones. */
  lemma MeridianEdge(trig: Trig, ux: real, uy: real, a: real, rho: real, vx: real, vy: real, d: real, sigma: real,
                     s: real, t: real, px: real, py: real)
    requires trig.Valid() && (d == 0.0 || d == 180.0)
    requires Heads(trig, ux, uy, a, rho) && Heads(trig, vx, vy, a + d, sigma)
    requires rho >= 0.0 && sigma >= 0.0 && s >= 0.0 && t >= 0.0
    requires px == s * ux + t * vx && py == s * uy + t * vy && (px != 0.0 || py != 0.0)
    ensures LonWithin(trig, px, py, a, d)
  {
    HeadsScaled(trig, ux, uy, a, rho, s);
    HeadsScaled(trig, vx, vy, a + d, sigma, t);
    MulNonneg(s, rho);
    MulNonneg(t, sigma);
    var m, n := s * rho, t * sigma;
    if d == 0.0 {
      assert a + d == a;
      HeadsSum(trig, s * ux, s * uy, m, t * vx, t * vy, n, a);
      assert m + n == 0.0 ==> px == 0.0 * trig.cos(a) && py == 0.0 * trig.sin(a);
      assert a + 0.0 == a;
      assert Within(0.0, d) && Turned(trig, px, py, a, 0.0, m + n);
    } else {
      HeadsBack(trig, t * vx, t * vy, a, n);
      HeadsSum(trig, s * ux, s * uy, m, t * vx, t * vy, -n, a);
      AcrossAxis(trig, px, py, a, m - n);
    }
  }

  lemma AcrossAxis(trig: Trig, px: real, py: real, a: real, r: real)
    requires trig.Valid() && Heads(trig, px, py, a, r) && (px != 0.0 || py != 0.0)
    ensures LonWithin(trig, px, py, a, 180.0)
  {
    if r > 0.0 {
      assert a + 0.0 == a;
      assert Within(0.0, 180.0) && Turned(trig, px, py, a, 0.0, r);
    } else {
      assert r == 0.0 ==> px == 0.0 * trig.cos(a) && py == 0.0 * trig.sin(a);
      HeadsBack(trig, px, py, a, -r);
      assert Within(180.0, 180.0) && Turned(trig, px, py, a, 180.0, -r);
    }
  }

  /** Every point of an edge, off the axis, lies within the edge's turn from its
      start. */
  lemma EdgeWithinTurn(trig: Trig, root: real -> real, ux: real, uy: real, a: real, rho: real,
                       vx: real, vy: real, d: real, sigma: real, s: real, t: real, px: real, py: real)
    requires trig.Valid() && IsRoot(root) && -180.0 < d <= 180.0
    requires Heads(trig, ux, uy, a, rho) && Heads(trig, vx, vy, a + d, sigma)
    requires rho >= 0.0 && sigma >= 0.0 && s >= 0.0 && t >= 0.0
    requires px == s * ux + t * vx && py == s * uy + t * vy && (px != 0.0 || py != 0.0)
    ensures LonWithin(trig, px, py, a, d)
  {
    if d == 0.0 || d == 180.0 {
      MeridianEdge(trig, ux, uy, a, rho, vx, vy, d, sigma, s, t, px, py);
    } else if t == 0.0 || sigma == 0.0 {
      VanishingShare(trig, vx, vy, a + d, sigma, t);
      EndDirection(trig, ux, uy, a, rho, s, px, py);
      assert a + 0.0 == a;
      assert Within(0.0, d) && Turned(trig, px, py, a, 0.0, s * rho);
    } else if s == 0.0 || rho == 0.0 {
      VanishingShare(trig, ux, uy, a, rho, s);
      EndDirection(trig, vx, vy, a + d, sigma, t, px, py);
      assert Within(d, d) && Turned(trig, px, py, a, d, t * sigma);
    } else {
      ProperEdge(trig, root, ux, uy, a, rho, vx, vy, d, sigma, s, t, px, py);
    }
  }

  lemma VanishingShare(trig: Trig, x: real, y: real, lon: real, rho: real, s: real)
    requires Heads(trig, x, y, lon, rho) && (s == 0.0 || rho == 0.0)
    ensures s * x == 0.0 && s * y == 0.0
  {
    if rho == 0.0 {
      assert x == 0.0 * trig.cos(lon) && y == 0.0 * trig.sin(lon);
    }
  }

  // --- The ring ---

  /** Every vertex is where its longitude says. */
  ghost predicate AllLocated(trig: Trig, ring: seq<Vertex>) {
    forall i :: 0 <= i < |ring| ==> Located(trig, ring[i])
  }

  lemma VerticesWithinTurn(trig: Trig, root: real -> real, u: Vertex, v: Vertex, p: Vec, s: real, t: real,
                           rho: real, sigma: real, d: real)
    requires trig.Valid() && IsRoot(root) && OffAxis(p)
    requires rho >= 0.0 && Heads(trig, u.dir.x, u.dir.y, u.lon, rho)
    requires sigma >= 0.0 && Heads(trig, v.dir.x, v.dir.y, v.lon, sigma)
    requires s >= 0.0 && t >= 0.0 && Combines(p, s, u.dir, t, v.dir)
    requires -180.0 < d <= 180.0 && Congruent(u.lon + d, v.lon)
    ensures LonWithin(trig, p.x, p.y, u.lon, d)
  {
    HeadsTurned(trig, v.dir.x, v.dir.y, v.lon, u.lon + d, sigma);
    EdgeWithinTurn(trig, root, u.dir.x, u.dir.y, u.lon, rho, v.dir.x, v.dir.y, d, sigma, s, t, p.x, p.y);
  }

  lemma EdgeTurn(ring: seq<Vertex>, i: nat)
    requires i < |ring|
    ensures -180.0 < Step(ring, i) <= 180.0
    ensures Congruent(ring[i].lon + Step(ring, i), ring[Next(ring, i)].lon)
  {
    WrapFacts(ring[Next(ring, i)].lon - ring[i].lon);
    TurnReaches(ring[i].lon, ring[Next(ring, i)].lon, Step(ring, i));
  }

  lemma PointWithinTurn(trig: Trig, root: real -> real, ring: seq<Vertex>, i: nat, p: Vec)
    requires trig.Valid() && IsRoot(root) && AllLocated(trig, ring) && OnEdge(ring, i, p)
    requires OffAxis(p)
    ensures LonWithin(trig, p.x, p.y, ring[i].lon, Step(ring, i))
  {
    var u, v := ring[i], ring[Next(ring, i)];
    assert Located(trig, u) && Located(trig, v);
    var s: real, t: real :| OnArc(p, s, u.dir, t, v.dir);
    var rho: real :| rho >= 0.0 && Heads(trig, u.dir.x, u.dir.y, u.lon, rho);
    var sigma: real :| sigma >= 0.0 && Heads(trig, v.dir.x, v.dir.y, v.lon, sigma);
    EdgeTurn(ring, i);
    VerticesWithinTurn(trig, root, u, v, p, s, t, rho, sigma, Step(ring, i));
  }

  /** A point of edge `i` has a longitude between the two that were followed. */
  lemma PointFollowed(trig: Trig, root: real -> real, ring: seq<Vertex>, i: nat, p: Vec) returns (x: real)
    requires trig.Valid() && IsRoot(root) && AllLocated(trig, ring) && OnEdge(ring, i, p)
    requires OffAxis(p)
    ensures HasLongitude(trig, p, x)
    ensures Within(x - Unwrapped(ring, i), Unwrapped(ring, i + 1) - Unwrapped(ring, i))
  {
    PointWithinTurn(trig, root, ring, i, p);
    UnwrappedIsLongitude(ring, i);
    x := FollowedWithin(trig, p, ring[i].lon, Step(ring, i), Unwrapped(ring, i), Unwrapped(ring, i + 1));
  }

  lemma FollowedWithin(trig: Trig, p: Vec, a: real, d: real, followed: real, next: real) returns (x: real)
    requires trig.Valid() && LonWithin(trig, p.x, p.y, a, d) && Congruent(followed, a) && next == followed + d
    ensures HasLongitude(trig, p, x) && Within(x - followed, next - followed)
  {
    var theta: real, r: real :| Within(theta, d) && Turned(trig, p.x, p.y, a, theta, r);
    x := FollowedTo(trig, p, a, theta, r, followed);
  }

  lemma FollowedTo(trig: Trig, p: Vec, a: real, theta: real, r: real, followed: real) returns (x: real)
    requires trig.Valid() && Turned(trig, p.x, p.y, a, theta, r) && Congruent(followed, a)
    ensures x == followed + theta && HasLongitude(trig, p, x)
  {
    x := followed + theta;
    CongruentSelf(theta);
    CongruentAdd(followed, a, theta, theta);
    HeadsTurned(trig, p.x, p.y, a + theta, x, r);
  }

  lemma TurnReaches(a: real, b: real, d: real)
    requires Congruent(d, b - a)
    ensures Congruent(a + d, b)
  {
    CongruentSelf(a);
    CongruentAdd(a, a, d, b - a);
    assert a + (b - a) == b;
  }

  /** A ring that does not go round a pole: the arc that spans its vertices spans
      every point of every edge, those on the axis aside. */
  lemma EdgesInSpan(trig: Trig, root: real -> real, ring: seq<Vertex>, arc: Arc, i: nat, p: Vec)
    requires trig.Valid() && IsRoot(root) && AllLocated(trig, ring) && OnEdge(ring, i, p)
    requires OffAxis(p)
    requires Winding(ring) == 0.0 && SpansRing(ring, arc)
    ensures exists x: real :: arc.start <= x <= arc.end && HasLongitude(trig, p, x)
  {
    var x := PointFollowed(trig, root, ring, i, p);
    var k := EndsInSpan(ring, arc, i);
    LongitudeTurned(trig, p, x, k);
    assert arc.start <= x + Turns(k) <= arc.end;
  }

  lemma EndsInSpan(ring: seq<Vertex>, arc: Arc, i: nat) returns (k: int)
    requires i < |ring| && Winding(ring) == 0.0 && SpansRing(ring, arc)
    ensures arc.start <= Unwrapped(ring, i) + Turns(k) <= arc.end
    ensures arc.start <= Unwrapped(ring, i + 1) + Turns(k) <= arc.end
  {
    k :| SpansShifted(ring, arc, k);
    var n := if i + 1 == |ring| then 0 else i + 1;
    assert Unwrapped(ring, i + 1) == Unwrapped(ring, n);
    assert arc.start <= Unwrapped(ring, n) + Turns(k) <= arc.end;
  }

  lemma LongitudeTurned(trig: Trig, p: Vec, x: real, k: int)
    requires trig.Valid() && HasLongitude(trig, p, x)
    ensures HasLongitude(trig, p, x + Turns(k))
  {
    var rho: real :| rho > 0.0 && Heads(trig, p.x, p.y, x, rho);
    CongruentSelf(x);
    CongruentTurns(x, x, k);
    HeadsTurned(trig, p.x, p.y, x, x + Turns(k), rho);
  }
}
