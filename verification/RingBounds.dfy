/** Bounds of one outer ring: the heights its edges reach and the longitudes its
    vertices span, unwrapped along the ring. */
module RingBounds {
  import opened Results
  import opened Vectors
  import opened ArcGeometry
  import opened EdgeHeights
  import opened Longitudes

  /** A ring vertex: its longitude in degrees and its direction. */
  datatype Vertex = Vertex(lon: real, dir: Vec)

  /** `lon` is None for a ring around a pole: all longitudes. */
  datatype Bounds = Bounds(lon: Option<Arc>, heights: Heights)

  function Next(ring: seq<Vertex>, i: nat): (j: nat)
    requires i < |ring|
    ensures j < |ring|
  {
    (i + 1) % |ring|
  }

  lemma NextWraps(ring: seq<Vertex>, i: nat)
    requires i < |ring|
    ensures Next(ring, i) == if i + 1 == |ring| then 0 else i + 1
  {
    if i + 1 == |ring| {
      assert (i + 1) % |ring| == 0;
    }
  }

  // --- Longitudes ---

  /** Change of longitude along an edge, the short way round. */
  function Step(ring: seq<Vertex>, i: nat): real
    requires i < |ring|
  {
    Wrap(ring[Next(ring, i)].lon - ring[i].lon)
  }

  /** Longitude after `i` edges, followed continuously from the first vertex. */
  function Unwrapped(ring: seq<Vertex>, i: nat): real
    requires ring != [] && i <= |ring|
  {
    if i == 0 then ring[0].lon else Unwrapped(ring, i - 1) + Step(ring, i - 1)
  }

  /** Total change of longitude round the ring. */
  function Winding(ring: seq<Vertex>): real
    requires ring != []
  {
    Unwrapped(ring, |ring|) - ring[0].lon
  }

  /** Following one edge from `x` to `y`. */
  lemma StepCongruent(u: real, x: real, y: real, d: real, next: real)
    requires Congruent(u, x) && d == y - x && next == u + Wrap(d)
    ensures Congruent(next, y)
  {
    WrapFacts(d);
    CongruentAdd(u, x, Wrap(d), d);
    assert x + d == y;
  }

  lemma UnwrapEdge(ring: seq<Vertex>, i: nat)
    requires i < |ring| && Congruent(Unwrapped(ring, i), ring[i].lon)
    ensures Congruent(Unwrapped(ring, i + 1), ring[Next(ring, i)].lon)
  {
    var x, y := ring[i].lon, ring[Next(ring, i)].lon;
    StepCongruent(Unwrapped(ring, i), x, y, y - x, Unwrapped(ring, i + 1));
  }

  /** The followed longitude is each vertex's own, up to whole turns. */
  lemma {:induction false} UnwrappedIsLongitude(ring: seq<Vertex>, i: nat)
    requires ring != [] && i <= |ring|
    ensures Congruent(Unwrapped(ring, i), ring[if i == |ring| then 0 else i].lon)
  {
    if i == 0 {
      CongruentSelf(ring[0].lon);
    } else {
      UnwrappedIsLongitude(ring, i - 1);
      UnwrapEdge(ring, i - 1);
      NextWraps(ring, i - 1);
    }
  }

  /** A ring closes up after a whole number of turns, so testing for more than
      half a turn is testing for any turn at all. */
  lemma WindingIsWhole(ring: seq<Vertex>)
    requires ring != []
    ensures Congruent(Winding(ring), 0.0)
    ensures Abs(Winding(ring)) > 180.0 <==> Winding(ring) != 0.0
  {
    UnwrappedIsLongitude(ring, |ring|);
    var k: int :| Unwrapped(ring, |ring|) == ring[0].lon + Turns(k);
    assert Winding(ring) == 0.0 + Turns(k);
    WholeTurnOrNone(k);
  }

  /** The least of a list, as a fold. */
  function Least(xs: seq<real>): real
    requires xs != []
  {
    if |xs| == 1 then xs[0] else Min(Least(xs[..|xs| - 1]), xs[|xs| - 1])
  }

  function Greatest(xs: seq<real>): real
    requires xs != []
  {
    if |xs| == 1 then xs[0] else Max(Greatest(xs[..|xs| - 1]), xs[|xs| - 1])
  }

  lemma {:induction false} LeastFacts(xs: seq<real>)
    requires xs != []
    ensures Least(xs) in xs
    ensures forall i :: 0 <= i < |xs| ==> Least(xs) <= xs[i]
  {
    if |xs| > 1 {
      LeastFacts(xs[..|xs| - 1]);
      assert forall i :: 0 <= i < |xs| - 1 ==> xs[..|xs| - 1][i] == xs[i];
    }
  }

  lemma {:induction false} GreatestFacts(xs: seq<real>)
    requires xs != []
    ensures Greatest(xs) in xs
    ensures forall i :: 0 <= i < |xs| ==> xs[i] <= Greatest(xs)
  {
    if |xs| > 1 {
      GreatestFacts(xs[..|xs| - 1]);
      assert forall i :: 0 <= i < |xs| - 1 ==> xs[..|xs| - 1][i] == xs[i];
    }
  }

  /** The vertices' longitudes, followed along the ring. */
  ghost predicate FollowsRing(ring: seq<Vertex>, unwrapped: seq<real>) {
    |unwrapped| == |ring| && forall i :: 0 <= i < |ring| ==> unwrapped[i] == Unwrapped(ring, i)
  }

  /** The arc from the least to the greatest followed longitude, moved by whole
      turns to start in [-180, 180). */
  function SpanArc(unwrapped: seq<real>): Arc
    requires unwrapped != []
  {
    var lo, hi := Least(unwrapped), Greatest(unwrapped);
    var shift := Turns(((lo + 180.0) / 360.0).Floor);
    Arc(lo - shift, hi - shift)
  }

  /** `arc` holds the ring's followed path and is no longer than it: it starts in
      range, both ends are vertices, and one shift by whole turns puts every
      vertex inside. */
  ghost predicate SpansRing(ring: seq<Vertex>, arc: Arc) {
    -180.0 <= arc.start < 180.0 && exists k: int :: SpansShifted(ring, arc, k)
  }

  ghost predicate SpansShifted(ring: seq<Vertex>, arc: Arc, k: int) {
    && (forall i :: 0 <= i < |ring| ==> arc.start <= Unwrapped(ring, i) + Turns(k) <= arc.end)
    && (exists i :: 0 <= i < |ring| && arc.start == Unwrapped(ring, i) + Turns(k))
    && (exists i :: 0 <= i < |ring| && arc.end == Unwrapped(ring, i) + Turns(k))
  }

  lemma SpanArcSpans(ring: seq<Vertex>, unwrapped: seq<real>)
    requires ring != [] && FollowsRing(ring, unwrapped)
    ensures SpansRing(ring, SpanArc(unwrapped))
  {
    LeastFacts(unwrapped);
    GreatestFacts(unwrapped);
    var lo := Least(unwrapped);
    var f := ((lo + 180.0) / 360.0).Floor;
    StartInRange(lo);
    var k := -f;
    assert Turns(k) == -Turns(f);
    var arc := SpanArc(unwrapped);
    var i :| 0 <= i < |unwrapped| && unwrapped[i] == lo;
    var j :| 0 <= j < |unwrapped| && unwrapped[j] == Greatest(unwrapped);
    assert arc.start == Unwrapped(ring, i) + Turns(k);
    assert arc.end == Unwrapped(ring, j) + Turns(k);
    assert SpansShifted(ring, arc, k);
  }

  lemma StartInRange(lo: real)
    ensures -180.0 <= lo - Turns(((lo + 180.0) / 360.0).Floor) < 180.0
  {
    RemEuclidFacts(lo + 180.0);
  }

  /** So every vertex lies in the arc, up to whole turns. */
  lemma VertexInSpan(ring: seq<Vertex>, arc: Arc, i: nat)
    requires SpansRing(ring, arc) && i < |ring|
    ensures exists x: real :: arc.start <= x <= arc.end && Congruent(x, ring[i].lon)
  {
    var k: int :| SpansShifted(ring, arc, k);
    UnwrappedIsLongitude(ring, i);
    CongruentTurns(Unwrapped(ring, i), ring[i].lon, k);
  }

  // --- Heights ---

  function Zs(ring: seq<Vertex>): seq<real> {
    seq(|ring|, i requires 0 <= i < |ring| => ring[i].dir.z)
  }

  function VertexHeights(ring: seq<Vertex>): Heights
    requires ring != []
  {
    Heights(Least(Zs(ring)), Greatest(Zs(ring)))
  }

  /** Heights after looking at the first `i` edges. */
  function HeightsAfter(root: real -> real, ring: seq<Vertex>, i: nat): Heights
    requires ring != [] && i <= |ring|
  {
    if i == 0 then VertexHeights(ring)
    else WidenByEdge(root, HeightsAfter(root, ring, i - 1), ring[i - 1].dir, ring[Next(ring, i - 1)].dir)
  }

  lemma WidenByEdgeKeeps(root: real -> real, h: Heights, a: Vec, b: Vec, z: real)
    requires Holds(h, z)
    ensures Holds(WidenByEdge(root, h, a, b), z)
  {
  }

  lemma {:induction false} HeightsKeep(root: real -> real, ring: seq<Vertex>, i: nat, j: nat, z: real)
    requires ring != [] && i <= j <= |ring| && Holds(HeightsAfter(root, ring, i), z)
    ensures Holds(HeightsAfter(root, ring, j), z)
    decreases j
  {
    if i < j {
      HeightsKeep(root, ring, i, j - 1, z);
      WidenByEdgeKeeps(root, HeightsAfter(root, ring, j - 1), ring[j - 1].dir, ring[Next(ring, j - 1)].dir, z);
    }
  }

  lemma VertexHeld(root: real -> real, ring: seq<Vertex>, i: nat, v: nat)
    requires ring != [] && i <= |ring| && v < |ring|
    ensures Holds(HeightsAfter(root, ring, i), ring[v].dir.z)
  {
    LeastFacts(Zs(ring));
    GreatestFacts(Zs(ring));
    assert Zs(ring)[v] == ring[v].dir.z;
    HeightsKeep(root, ring, 0, i, ring[v].dir.z);
  }

  /** Unit directions with no edge between opposite points. */
  ghost predicate GoodRing(ring: seq<Vertex>) {
    && (forall i :: 0 <= i < |ring| ==> Unit(ring[i].dir))
    && (forall i :: 0 <= i < |ring| ==> ring[Next(ring, i)].dir != Negate(ring[i].dir))
  }

  /** `p` is a point of the ring's i-th edge. */
  ghost predicate OnEdge(ring: seq<Vertex>, i: nat, p: Vec) {
    i < |ring| && exists s: real, t: real :: OnArc(p, s, ring[i].dir, t, ring[Next(ring, i)].dir)
  }

  lemma EdgeHeld(root: real -> real, ring: seq<Vertex>, i: nat, p: Vec)
    requires IsRoot(root) && GoodRing(ring) && ring != [] && OnEdge(ring, i, p)
    ensures Holds(HeightsAfter(root, ring, |ring|), p.z)
  {
    var s: real, t: real :| OnArc(p, s, ring[i].dir, t, ring[Next(ring, i)].dir);
    VertexHeld(root, ring, i, i);
    VertexHeld(root, ring, i, Next(ring, i));
    EdgeWithinHeights(root, HeightsAfter(root, ring, i), ring[i].dir, ring[Next(ring, i)].dir, p, s, t);
    HeightsKeep(root, ring, i + 1, |ring|, p.z);
  }

  /** Some point of some edge has height `z`. */
  ghost predicate RingReaches(ring: seq<Vertex>, z: real) {
    exists i: nat, p: Vec :: OnEdge(ring, i, p) && p.z == z
  }

  lemma VertexReached(ring: seq<Vertex>, v: nat)
    requires GoodRing(ring) && v < |ring|
    ensures RingReaches(ring, ring[v].dir.z)
  {
    var a, b := ring[v].dir, ring[Next(ring, v)].dir;
    assert OnArc(a, 1.0, a, 0.0, b);
    assert OnEdge(ring, v, a);
  }

  lemma {:induction false} HeightsReached(root: real -> real, ring: seq<Vertex>, i: nat)
    requires IsRoot(root) && GoodRing(ring) && ring != [] && i <= |ring|
    ensures RingReaches(ring, HeightsAfter(root, ring, i).lo)
    ensures RingReaches(ring, HeightsAfter(root, ring, i).hi)
  {
    if i == 0 {
      LeastFacts(Zs(ring));
      GreatestFacts(Zs(ring));
      var u :| 0 <= u < |ring| && Zs(ring)[u] == Least(Zs(ring));
      var v :| 0 <= v < |ring| && Zs(ring)[v] == Greatest(Zs(ring));
      VertexReached(ring, u);
      VertexReached(ring, v);
    } else {
      HeightsReached(root, ring, i - 1);
      var a, b := ring[i - 1].dir, ring[Next(ring, i - 1)].dir;
      var before, after := HeightsAfter(root, ring, i - 1), HeightsAfter(root, ring, i);
      EdgeHeightsReached(root, before, a, b);
      if Reached(a, b, after.lo) {
        ReachedOnEdge(ring, i - 1, after.lo);
      }
      if Reached(a, b, after.hi) {
        ReachedOnEdge(ring, i - 1, after.hi);
      }
    }
  }

  lemma ReachedOnEdge(ring: seq<Vertex>, i: nat, z: real)
    requires i < |ring| && Reached(ring[i].dir, ring[Next(ring, i)].dir, z)
    ensures RingReaches(ring, z)
  {
    var p: Vec, s: real, t: real :| OnArc(p, s, ring[i].dir, t, ring[Next(ring, i)].dir) && p.z == z;
    assert OnEdge(ring, i, p);
  }

  // --- The bounds ---

  function SumZ(ring: seq<Vertex>, i: nat): real
    requires i <= |ring|
  {
    if i == 0 then 0.0 else SumZ(ring, i - 1) + ring[i - 1].dir.z
  }

  lemma {:induction false} SumOfTwo(x: seq<Vertex>, y: seq<Vertex>, i: nat)
    requires i <= |y|
    ensures SumZ(x + y, |x| + i) == SumZ(x, |x|) + SumZ(y, i)
  {
    if i == 0 {
      SumOfPrefix(x, y, |x|);
    } else {
      SumOfTwo(x, y, i - 1);
    }
  }

  lemma {:induction false} SumOfPrefix(x: seq<Vertex>, y: seq<Vertex>, i: nat)
    requires i <= |x|
    ensures SumZ(x + y, i) == SumZ(x, i)
  {
    if i > 0 {
      SumOfPrefix(x, y, i - 1);
    }
  }

  /** The sum of the vertices' heights: a single one's is its own, and two lists'
      sums add. */
  lemma SumOfHeights(x: seq<Vertex>, y: seq<Vertex>, v: Vertex)
    ensures SumZ([v], 1) == v.dir.z
    ensures SumZ(x + y, |x + y|) == SumZ(x, |x|) + SumZ(y, |y|)
  {
    SumOfTwo(x, y, |y|);
  }

  lemma {:induction false} SumHasSign(ring: seq<Vertex>, i: nat)
    requires i <= |ring|
    ensures (forall v :: v in ring ==> v.dir.z >= 0.0) ==> SumZ(ring, i) >= 0.0
    ensures i > 0 && (forall v :: v in ring ==> v.dir.z < 0.0) ==> SumZ(ring, i) < 0.0
  {
    if i > 0 {
      SumHasSign(ring, i - 1);
      assert ring[i - 1] in ring;
    }
  }

  /** A ring around a pole with no vertex in the south extends to the north pole,
      and only as far south as its edges; one wholly in the south, the other way
      round. */
  lemma PoleOfHemisphere(ring: seq<Vertex>, b: Bounds)
    requires ring != [] && TightHeights(ring, b) && b.lon.None?
    ensures (forall v :: v in ring ==> v.dir.z >= 0.0) ==> b.heights.hi == 1.0 && RingReaches(ring, b.heights.lo)
    ensures (forall v :: v in ring ==> v.dir.z < 0.0) ==> b.heights.lo == -1.0 && RingReaches(ring, b.heights.hi)
  {
    SumHasSign(ring, |ring|);
  }

  /** The heights are exactly the range the edges reach, save that a ring around
      a pole extends to the pole on its centroid's side. */
  ghost predicate TightHeights(ring: seq<Vertex>, b: Bounds) {
    && (forall i: nat, p: Vec :: OnEdge(ring, i, p) ==> Holds(b.heights, p.z))
    && (b.lon.None? && SumZ(ring, |ring|) < 0.0 ==> b.heights.lo == -1.0)
    && (!(b.lon.None? && SumZ(ring, |ring|) < 0.0) ==> RingReaches(ring, b.heights.lo))
    && (b.lon.None? && SumZ(ring, |ring|) >= 0.0 ==> b.heights.hi == 1.0)
    && (!(b.lon.None? && SumZ(ring, |ring|) >= 0.0) ==> RingReaches(ring, b.heights.hi))
  }

  lemma PolarKeeps(ring: seq<Vertex>, i: nat, p: Vec)
    requires OnEdge(ring, i, p)
    ensures -1.0 <= p.z <= 1.0
  {
    UnitCoordinates(p);
  }

  ghost predicate FollowsFirst(ring: seq<Vertex>, unwrapped: seq<real>)
    requires ring != []
  {
    |unwrapped| <= |ring| && forall j :: 0 <= j < |unwrapped| ==> unwrapped[j] == Unwrapped(ring, j)
  }

  /** One pass round the ring: the followed longitudes, the total winding and
      the heights of the edges. */
  method Follow(root: real -> real, ring: seq<Vertex>)
    returns (unwrapped: seq<real>, winding: real, heights: Heights)
    requires ring != []
    ensures FollowsRing(ring, unwrapped)
    ensures winding == Winding(ring)
    ensures heights == HeightsAfter(root, ring, |ring|)
  {
    var n := |ring|;
    heights := VertexHeights(ring);
    unwrapped := [];
    var x := ring[0].lon;
    winding := 0.0;
    for i := 0 to n
      invariant x == Unwrapped(ring, i) && winding == x - ring[0].lon
      invariant |unwrapped| == i && FollowsFirst(ring, unwrapped)
      invariant heights == HeightsAfter(root, ring, i)
    {
      var j := Next(ring, i);
      unwrapped := unwrapped + [x];
      var d := Wrap(ring[j].lon - ring[i].lon);
      UnwrapOneMore(ring, i, d);
      x := x + d;
      winding := winding + d;
      heights := WidenByEdge(root, heights, ring[i].dir, ring[j].dir);
      WidenOneMore(root, ring, i);
    }
  }

  lemma UnwrapOneMore(ring: seq<Vertex>, i: nat, d: real)
    requires i < |ring| && d == Wrap(ring[Next(ring, i)].lon - ring[i].lon)
    ensures Unwrapped(ring, i + 1) == Unwrapped(ring, i) + d
  {
  }

  lemma WidenOneMore(root: real -> real, ring: seq<Vertex>, i: nat)
    requires i < |ring|
    ensures HeightsAfter(root, ring, i + 1)
            == WidenByEdge(root, HeightsAfter(root, ring, i), ring[i].dir, ring[Next(ring, i)].dir)
  {
  }

  lemma EdgesHeld(root: real -> real, ring: seq<Vertex>)
    requires IsRoot(root) && GoodRing(ring) && ring != []
    ensures var h := HeightsAfter(root, ring, |ring|);
            && (forall i: nat, p: Vec :: OnEdge(ring, i, p) ==> Holds(h, p.z) && -1.0 <= p.z <= 1.0)
            && RingReaches(ring, h.lo) && RingReaches(ring, h.hi)
  {
    HeightsReached(root, ring, |ring|);
    forall i: nat, p: Vec | OnEdge(ring, i, p)
      ensures Holds(HeightsAfter(root, ring, |ring|), p.z) && -1.0 <= p.z <= 1.0
    {
      EdgeHeld(root, ring, i, p);
      PolarKeeps(ring, i, p);
    }
  }

  method FindRingBounds(root: real -> real, ring: seq<Vertex>) returns (out: Option<Bounds>)
    requires IsRoot(root) && GoodRing(ring)
    ensures out.None? <==> ring == []
    ensures out.Some? ==> TightHeights(ring, out.value)
    ensures out.Some? ==> (out.value.lon.None? <==> Winding(ring) != 0.0)
    ensures out.Some? && out.value.lon.Some? ==> SpansRing(ring, out.value.lon.value)
  {
    if |ring| == 0 {
      return None;
    }
    var unwrapped, winding, heights := Follow(root, ring);
    WindingIsWhole(ring);
    EdgesHeld(root, ring);
    if Abs(winding) > 180.0 {
      var cz := CentroidZ(ring);
      if cz >= 0.0 {
        heights := heights.(hi := 1.0);
      } else {
        heights := heights.(lo := -1.0);
      }
      return Some(Bounds(None, heights));
    }
    SpanArcSpans(ring, unwrapped);
    return Some(Bounds(Some(SpanArc(unwrapped)), heights));
  }

  method CentroidZ(ring: seq<Vertex>) returns (cz: real)
    ensures cz == SumZ(ring, |ring|)
  {
    cz := 0.0;
    for i := 0 to |ring|
      invariant cz == SumZ(ring, i)
    {
      cz := cz + ring[i].dir.z;
    }
  }
}
