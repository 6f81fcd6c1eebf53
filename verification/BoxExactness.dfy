/** Exactly when a feature's box holds the longitudes of all its edges, and two
    rings for which it does not. */
module BoxExactness {
  import opened Results
  import opened Vectors
  import opened ArcGeometry
  import opened Longitudes
  import opened RingBounds
  import opened EdgeLongitudes
  import opened LongitudesReached
  import opened FeatureBoxes
  import UnionArcs

  // --- Points and arcs ---

  /** One of the point's longitudes is in the arc, up to whole turns. */
  ghost predicate HoldsPoint(trig: Trig, arc: Arc, p: Vec) {
    exists x: real :: UnionArcs.HoldsLongitude(arc, x) && HasLongitude(trig, p, x)
  }

  /** If one of a point's longitudes is outside, all are. */
  lemma PointOutside(trig: Trig, arc: Arc, p: Vec, x: real)
    requires trig.Valid() && HasLongitude(trig, p, x) && !UnionArcs.HoldsLongitude(arc, x)
    ensures !HoldsPoint(trig, arc, p)
  {
    forall y: real | HasLongitude(trig, p, y) ensures !UnionArcs.HoldsLongitude(arc, y) {
      LongitudeUnique(trig, p, x, y);
      SameOutside(arc, x, y);
    }
  }

  lemma SameOutside(arc: Arc, x: real, y: real)
    requires Congruent(y, x) && !UnionArcs.HoldsLongitude(arc, x)
    ensures !UnionArcs.HoldsLongitude(arc, y)
  {
    var k: int :| y == x + Turns(k);
    UnionArcs.HoldsShifted(arc, x, k);
  }

  // --- The exact condition ---

  /** No vertex of the feature's parts is at a pole. */
  ghost predicate PartsPlaced(trig: Trig, rings: seq<seq<Vertex>>, features: seq<nat>, f: nat)
    requires |rings| == |features|
  {
    forall i: nat :: IsPart(rings, features, f, i) ==> AllPlaced(trig, rings[i])
  }

  /** The arc holds every point of every edge of the feature's parts, those at a
      pole aside. */
  ghost predicate HoldsParts(trig: Trig, rings: seq<seq<Vertex>>, features: seq<nat>, f: nat, arc: Arc)
    requires |rings| == |features|
  {
    forall i: nat, e: nat, p: Vec ::
      IsPart(rings, features, f, i) && OnEdge(rings[i], e, p) && OffAxis(p) ==> HoldsPoint(trig, arc, p)
  }

  lemma PlacedLocated(trig: Trig, ring: seq<Vertex>)
    requires AllPlaced(trig, ring)
    ensures AllLocated(trig, ring)
  {
    forall i | 0 <= i < |ring| ensures Located(trig, ring[i]) {
      assert HasLongitude(trig, ring[i].dir, ring[i].lon);
      var rho: real :| rho > 0.0 && Heads(trig, ring[i].dir.x, ring[i].dir.y, ring[i].lon, rho);
    }
  }

  /** With the guard, every point is held. */
  lemma GuardHoldsParts(trig: Trig, root: real -> real, rings: seq<seq<Vertex>>, features: seq<nat>, f: nat,
                        bounds: seq<Bounds>, box: Option<Bounds>)
    requires trig.Valid() && IsRoot(root)
    requires |rings| == |features| && Gathered(rings, PartsOf(rings, features, |rings|, f), bounds) && IsBox(bounds, box)
    requires PartsPlaced(trig, rings, features, f) && box.Some? && box.value.lon.Some?
    requires UnionArcs.LastArcFits(Arcs(bounds).value)
    ensures HoldsParts(trig, rings, features, f, box.value.lon.value)
  {
    forall i: nat, e: nat, p: Vec | IsPart(rings, features, f, i) && OnEdge(rings[i], e, p) && OffAxis(p)
      ensures HoldsPoint(trig, box.value.lon.value, p)
    {
      PlacedLocated(trig, rings[i]);
      BoxHoldsLongitudes(trig, root, rings, features, f, bounds, box, i, e, p);
    }
  }

  /** Without it, the union misses a longitude of some bounds' arc. */
  lemma MissedLongitude(bounds: seq<Bounds>, box: Option<Bounds>) returns (j: nat, x: real)
    requires IsBox(bounds, box) && box.Some? && box.value.lon.Some? && UnionArcs.GoodArcs(Arcs(bounds).value)
    requires !UnionArcs.LastArcFits(Arcs(bounds).value)
    ensures j < |bounds| && bounds[j].lon.Some?
    ensures bounds[j].lon.value.start <= x <= bounds[j].lon.value.end
    ensures !UnionArcs.HoldsLongitude(box.value.lon.value, x)
  {
    BoxCoversArcs(bounds, box);
    var arcs := Arcs(bounds).value;
    x :| UnionArcs.InSome(arcs, x) && !UnionArcs.HoldsLongitude(box.value.lon.value, x);
    j :| 0 <= j < |arcs| && arcs[j].start <= x <= arcs[j].end;
  }

  /** And some edge has a point there. */
  lemma MissedPoint(trig: Trig, root: real -> real, rings: seq<seq<Vertex>>, features: seq<nat>, f: nat,
                    bounds: seq<Bounds>, box: Option<Bounds>)
    requires trig.Valid() && IsRoot(root)
    requires |rings| == |features| && Gathered(rings, PartsOf(rings, features, |rings|, f), bounds) && IsBox(bounds, box)
    requires PartsPlaced(trig, rings, features, f) && box.Some? && box.value.lon.Some?
    requires !UnionArcs.LastArcFits(Arcs(bounds).value)
    ensures !HoldsParts(trig, rings, features, f, box.value.lon.value)
  {
    var parts := PartsOf(rings, features, |rings|, f);
    GoodBounds(rings, parts, bounds);
    var j, x := MissedLongitude(bounds, box);
    var i := parts[j];
    assert i in parts;
    SpanReached(trig, root, rings[i], bounds[j].lon.value, x);
    var e: nat, p: Vec :| OnEdge(rings[i], e, p) && HasLongitude(trig, p, x);
    OffAxisWhereLongitude(trig, p, x);
    PointOutside(trig, box.value.lon.value, p, x);
  }

  /** No vertex being at a pole, a box that is not round the whole sphere holds
      every point of every edge exactly when the last arc leaves the largest gap
      free. */
  lemma BoxHoldsPartsExactly(trig: Trig, root: real -> real, rings: seq<seq<Vertex>>, features: seq<nat>, f: nat,
                             bounds: seq<Bounds>, box: Option<Bounds>)
    requires trig.Valid() && IsRoot(root)
    requires |rings| == |features| && Gathered(rings, PartsOf(rings, features, |rings|, f), bounds) && IsBox(bounds, box)
    requires PartsPlaced(trig, rings, features, f) && box.Some? && box.value.lon.Some?
    ensures HoldsParts(trig, rings, features, f, box.value.lon.value) <==> UnionArcs.LastArcFits(Arcs(bounds).value)
  {
    if UnionArcs.LastArcFits(Arcs(bounds).value) {
      GuardHoldsParts(trig, root, rings, features, f, bounds, box);
    } else {
      MissedPoint(trig, root, rings, features, f, bounds, box);
    }
  }

  // --- Rings that show it ---

  /** A triangle on the equator. */
  function EquatorRing(trig: Trig, a: real, b: real, c: real): seq<Vertex> {
    [OnEquator(trig, a), OnEquator(trig, b), OnEquator(trig, c)]
  }

  /** Three longitudes eastwards from one in range, within half a turn. */
  predicate Eastwards(a: real, b: real, c: real) {
    -180.0 <= a < 180.0 && a < b < c < a + 180.0
  }

  lemma EastwardsFollowed(trig: Trig, a: real, b: real, c: real)
    requires Eastwards(a, b, c)
    ensures var ring := EquatorRing(trig, a, b, c);
            Unwrapped(ring, 0) == a && Unwrapped(ring, 1) == b && Unwrapped(ring, 2) == c && Unwrapped(ring, 3) == a
  {
    var ring := EquatorRing(trig, a, b, c);
    NextWraps(ring, 0);
    NextWraps(ring, 1);
    NextWraps(ring, 2);
    ShortTurn(b - a);
    ShortTurn(c - b);
    ShortTurn(a - c);
    assert Step(ring, 0) == b - a && Step(ring, 1) == c - b && Step(ring, 2) == a - c;
  }

  /** Its bounds span its longitudes. */
  lemma EastwardsBounds(trig: Trig, a: real, b: real, c: real, bounds: Bounds)
    requires Eastwards(a, b, c) && BoundsOf(EquatorRing(trig, a, b, c), bounds)
    ensures bounds.lon == Some(Arc(a, c))
  {
    EastwardsFollowed(trig, a, b, c);
    EastwardsSpan(EquatorRing(trig, a, b, c), a, b, c, bounds.lon.value);
  }

  lemma EastwardsSpan(ring: seq<Vertex>, a: real, b: real, c: real, arc: Arc)
    requires |ring| == 3 && Eastwards(a, b, c) && SpansRing(ring, arc)
    requires Unwrapped(ring, 0) == a && Unwrapped(ring, 1) == b && Unwrapped(ring, 2) == c
    ensures arc == Arc(a, c)
  {
    var k: int :| SpansShifted(ring, arc, k);
    var low, high := SpanEnds(ring, arc, k);
    FirstAndLast(Unwrapped(ring, low), Unwrapped(ring, high), a, b, c, arc, Turns(k));
    WholeTurnOrNone(k);
  }

  lemma FirstAndLast(low: real, high: real, a: real, b: real, c: real, arc: Arc, shift: real)
    requires a < b < c && low in {a, b, c} && high in {a, b, c}
    requires arc.start == low + shift && arc.end == high + shift
    requires arc.start <= a + shift && c + shift <= arc.end
    ensures arc == Arc(a + shift, c + shift)
  {
  }

  /** Two directions less than half a turn apart are not opposite. */
  lemma NotOpposite(trig: Trig, a: real, b: real)
    requires trig.Valid() && trig.sin(b - a) != 0.0
    ensures OnEquator(trig, b).dir != Negate(OnEquator(trig, a).dir)
  {
    assert trig.Subtracts(b, a);
  }

  lemma EquatorVertex(trig: Trig, lon: real)
    requires trig.OnCircle(trig.cos(lon), trig.sin(lon))
    ensures Unit(OnEquator(trig, lon).dir)
    ensures HasLongitude(trig, OnEquator(trig, lon).dir, lon)
  {
    assert Heads(trig, trig.cos(lon), trig.sin(lon), lon, 1.0);
  }

  /** A good ring, as the method that bounds it requires. */
  lemma EastwardsGood(trig: Trig, a: real, b: real, c: real)
    requires trig.Valid() && trig.Unital() && Eastwards(a, b, c)
    ensures GoodRing(EquatorRing(trig, a, b, c)) && AllPlaced(trig, EquatorRing(trig, a, b, c))
  {
    var ring := EquatorRing(trig, a, b, c);
    NextWraps(ring, 0);
    NextWraps(ring, 1);
    NextWraps(ring, 2);
    assert trig.SineSigns();
    NotOpposite(trig, a, b);
    NotOpposite(trig, b, c);
    NotOpposite(trig, c, a);
    forall i | 0 <= i < |ring| ensures Unit(ring[i].dir) && HasLongitude(trig, ring[i].dir, ring[i].lon) {
      assert trig.OnCircle(trig.cos(ring[i].lon), trig.sin(ring[i].lon));
      EquatorVertex(trig, ring[i].lon);
    }
  }

  /** One feature of two triangles: from 170 by 250 to 300 and from -175 by -170
      to -160. */
  function TwoRings(trig: Trig): seq<seq<Vertex>> {
    [EquatorRing(trig, 170.0, 250.0, 300.0), EquatorRing(trig, -175.0, -170.0, -160.0)]
  }

  lemma TwoParts(trig: Trig)
    ensures PartsOf(TwoRings(trig), [1, 1], 2, 0) == [0, 1]
  {
    var rings, features := TwoRings(trig), [1, 1];
    assert PartsOf(rings, features, 0, 0) == [];
    assert PartsOf(rings, features, 1, 0) == [0];
  }

  lemma TwoArcs(trig: Trig, bounds: seq<Bounds>)
    requires Gathered(TwoRings(trig), [0, 1], bounds)
    ensures |bounds| == 2 && bounds[0].lon == Some(Arc(170.0, 300.0)) && bounds[1].lon == Some(Arc(-175.0, -160.0))
  {
    EastwardsBounds(trig, 170.0, 250.0, 300.0, bounds[0]);
    EastwardsBounds(trig, -175.0, -170.0, -160.0, bounds[1]);
  }

  /** Bounds with those arcs give a box cut short. */
  lemma BoxCutShort(bounds: seq<Bounds>, box: Option<Bounds>)
    requires |bounds| == 2 && IsBox(bounds, box)
    requires bounds[0].lon == Some(Arc(170.0, 300.0)) && bounds[1].lon == Some(Arc(-175.0, -160.0))
    ensures box.Some? && box.value.lon == Some(Arc(170.0, 200.0))
  {
    UnionArcs.GuardIsNeeded();
    assert Arcs(bounds).value == [Arc(170.0, 300.0), Arc(-175.0, -160.0)];
  }

  /** The guard is needed: good rings, each with its bounds, give a box from 170
      to 200, and a vertex of the first, at 250, is not in it. */
  lemma BoxCanMiss(trig: Trig, bounds: seq<Bounds>, box: Option<Bounds>)
    requires trig.Valid() && trig.Unital()
    requires Gathered(TwoRings(trig), PartsOf(TwoRings(trig), [1, 1], 2, 0), bounds) && IsBox(bounds, box)
    ensures GoodRing(TwoRings(trig)[0]) && GoodRing(TwoRings(trig)[1])
    ensures PartsPlaced(trig, TwoRings(trig), [1, 1], 0)
    ensures box.Some? && box.value.lon == Some(Arc(170.0, 200.0))
    ensures OnEdge(TwoRings(trig)[0], 1, OnEquator(trig, 250.0).dir)
    ensures !HoldsPoint(trig, box.value.lon.value, OnEquator(trig, 250.0).dir)
  {
    EastwardsGood(trig, 170.0, 250.0, 300.0);
    EastwardsGood(trig, -175.0, -170.0, -160.0);
    TwoParts(trig);
    TwoArcs(trig, bounds);
    BoxCutShort(bounds, box);
    VertexOnEdge(TwoRings(trig)[0], 1);
    assert trig.OnCircle(trig.cos(250.0), trig.sin(250.0));
    EquatorVertex(trig, 250.0);
    UnionArcs.OutsideNotHeld(Arc(170.0, 200.0), 250.0);
    PointOutside(trig, Arc(170.0, 200.0), OnEquator(trig, 250.0).dir, 250.0);
  }

  lemma VertexOnEdge(ring: seq<Vertex>, v: nat)
    requires GoodRing(ring) && v < |ring|
    ensures OnEdge(ring, v, ring[v].dir)
  {
    assert OnArc(ring[v].dir, 1.0, ring[v].dir, 0.0, ring[Next(ring, v)].dir);
  }
}
