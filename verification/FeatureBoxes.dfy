/** One bounding box per feature, from the bounds of its parts' outer rings. */
module FeatureBoxes {
  import opened Results
  import opened Vectors
  import opened EdgeHeights
  import opened Longitudes
  import opened RingBounds
  import opened EdgeLongitudes
  import UnionArcs

  /** What is promised of a ring's bounds. */
  ghost predicate BoundsOf(ring: seq<Vertex>, b: Bounds) {
    && ring != [] && TightHeights(ring, b)
    && (b.lon.None? <==> Winding(ring) != 0.0)
    && (b.lon.Some? ==> SpansRing(ring, b.lon.value))
  }

  // --- Gathering ---

  /** Part `i` belongs to feature `f`, from 0, and has an outer ring. */
  predicate IsPart(rings: seq<seq<Vertex>>, features: seq<nat>, f: nat, i: nat)
    requires |rings| == |features|
  {
    i < |rings| && features[i] == f + 1 && rings[i] != []
  }

  /** Feature `f`'s parts among the first `n`, in order. */
  ghost function PartsOf(rings: seq<seq<Vertex>>, features: seq<nat>, n: nat, f: nat): (parts: seq<nat>)
    requires n <= |rings| == |features|
    ensures forall i: nat :: i in parts <==> i < n && IsPart(rings, features, f, i)
  {
    if n == 0 then []
    else
      var before := PartsOf(rings, features, n - 1, f);
      if IsPart(rings, features, f, n - 1) then before + [n - 1] else before
  }

  /** `bounds` are those of these parts, one each. */
  ghost predicate Gathered(rings: seq<seq<Vertex>>, parts: seq<nat>, bounds: seq<Bounds>) {
    && |bounds| == |parts|
    && forall j :: 0 <= j < |parts| ==> parts[j] < |rings| && BoundsOf(rings[parts[j]], bounds[j])
  }

  method BoundRing(root: real -> real, ring: seq<Vertex>) returns (out: Option<Bounds>)
    requires IsRoot(root) && GoodRing(ring)
    ensures out.None? <==> ring == []
    ensures out.Some? ==> BoundsOf(ring, out.value)
  {
    out := FindRingBounds(root, ring);
  }

  method GatherBounds(root: real -> real, rings: seq<seq<Vertex>>, features: seq<nat>, n: nat) returns (all: seq<seq<Bounds>>)
    requires IsRoot(root) && forall i :: 0 <= i < |rings| ==> GoodRing(rings[i])
    requires |rings| == |features| && forall i :: 0 <= i < |features| ==> 1 <= features[i] <= n
    ensures |all| == n
    ensures forall f :: 0 <= f < n ==> Gathered(rings, PartsOf(rings, features, |rings|, f), all[f])
  {
    all := seq(n, (_: int) => []);
    for i := 0 to |rings|
      invariant |all| == n
      invariant forall f :: 0 <= f < n ==> Gathered(rings, PartsOf(rings, features, i, f), all[f])
    {
      var f := features[i] - 1;
      var bounds := BoundRing(root, rings[i]);
      if bounds.Some? {
        all := all[f := all[f] + [bounds.value]];
      }
    }
  }

  // --- One feature ---

  /** The arcs of all bounds, or None when one of them has all longitudes. */
  function Arcs(bounds: seq<Bounds>): (arcs: Option<seq<Arc>>)
    ensures arcs.Some? <==> forall i :: 0 <= i < |bounds| ==> bounds[i].lon.Some?
    ensures arcs.Some? ==> |arcs.value| == |bounds| && forall i :: 0 <= i < |bounds| ==> bounds[i].lon == Some(arcs.value[i])
  {
    if bounds == [] then Some([])
    else
      var last := |bounds| - 1;
      var rest := Arcs(bounds[..last]);
      assert bounds == bounds[..last] + [bounds[last]];
      if rest.Some? && bounds[last].lon.Some? then Some(rest.value + [bounds[last].lon.value]) else None
  }

  /** Heights holding all of the bounds', and no further than one of them. */
  ghost predicate HeightsOfAll(bounds: seq<Bounds>, h: Heights) {
    && (forall b :: b in bounds ==> h.lo <= b.heights.lo && b.heights.hi <= h.hi)
    && (exists b :: b in bounds && h.lo == b.heights.lo)
    && (exists b :: b in bounds && h.hi == b.heights.hi)
  }

  /** The box of one feature: `lon` is None for all longitudes. */
  ghost predicate IsBox(bounds: seq<Bounds>, box: Option<Bounds>) {
    && (box.None? <==> bounds == [])
    && (box.Some? ==> HeightsOfAll(bounds, box.value.heights))
    && (box.Some? ==> box.value.lon == if Arcs(bounds).Some? then UnionArcs.Union(Arcs(bounds).value) else None)
  }

  method FoldHeights(bounds: seq<Bounds>) returns (h: Heights)
    requires bounds != []
    ensures HeightsOfAll(bounds, h)
  {
    h := bounds[0].heights;
    for i := 1 to |bounds|
      invariant HeightsOfAll(bounds[..i], h)
    {
      var b := bounds[i];
      ghost var was := h;
      assert bounds[..i + 1] == bounds[..i] + [b];
      h := Heights(Min(h.lo, b.heights.lo), Max(h.hi, b.heights.hi));
      WiderHeights(bounds[..i], b, was, h);
    }
    assert bounds[..|bounds|] == bounds;
  }

  lemma WiderHeights(bounds: seq<Bounds>, b: Bounds, was: Heights, h: Heights)
    requires HeightsOfAll(bounds, was) && h == Heights(Min(was.lo, b.heights.lo), Max(was.hi, b.heights.hi))
    ensures HeightsOfAll(bounds + [b], h)
  {
    var lo :| lo in bounds && was.lo == lo.heights.lo;
    var hi :| hi in bounds && was.hi == hi.heights.hi;
    var all := bounds + [b];
    assert lo in all && hi in all && b in all;
  }

  /** Bounds whose arc the union can take. */
  predicate ArcInRange(b: Bounds) {
    b.lon.Some? ==> -180.0 <= b.lon.value.start < 180.0 && b.lon.value.start <= b.lon.value.end
  }

  lemma BoundsInRange(ring: seq<Vertex>, b: Bounds)
    requires BoundsOf(ring, b)
    ensures ArcInRange(b)
  {
    if b.lon.Some? {
      var k: int :| SpansShifted(ring, b.lon.value, k);
      assert b.lon.value.start <= Unwrapped(ring, 0) + Turns(k) <= b.lon.value.end;
    }
  }

  lemma GoodBounds(rings: seq<seq<Vertex>>, parts: seq<nat>, bounds: seq<Bounds>)
    requires Gathered(rings, parts, bounds) && Arcs(bounds).Some?
    ensures UnionArcs.GoodArcs(Arcs(bounds).value)
  {
    forall j | 0 <= j < |bounds| ensures ArcInRange(bounds[j]) {
      BoundsInRange(rings[parts[j]], bounds[j]);
    }
  }

  ghost predicate GoodIfAny(bounds: seq<Bounds>) {
    Arcs(bounds).Some? ==> UnionArcs.GoodArcs(Arcs(bounds).value)
  }

  method BoxOf(bounds: seq<Bounds>) returns (box: Option<Bounds>)
    requires GoodIfAny(bounds)
    ensures IsBox(bounds, box)
  {
    if bounds == [] {
      return None;
    }
    var h := FoldHeights(bounds);
    var lon: Option<Arc> := None;
    if Arcs(bounds).Some? {
      lon := UnionArcs.FindUnion(Arcs(bounds).value);
    }
    return Some(Bounds(lon, h));
  }

  method BoxesOf(bounds: seq<seq<Bounds>>) returns (boxes: seq<Option<Bounds>>)
    requires forall f :: 0 <= f < |bounds| ==> GoodIfAny(bounds[f])
    ensures |boxes| == |bounds| && forall f :: 0 <= f < |bounds| ==> IsBox(bounds[f], boxes[f])
  {
    boxes := [];
    for f := 0 to |bounds|
      invariant |boxes| == f && forall g :: 0 <= g < f ==> IsBox(bounds[g], boxes[g])
    {
      var box := BoxOf(bounds[f]);
      boxes := boxes + [box];
    }
  }

  /** The boxes of all features; `all` is what they were made from. */
  method FeatureBoxes(root: real -> real, rings: seq<seq<Vertex>>, features: seq<nat>, n: nat)
    returns (boxes: seq<Option<Bounds>>, all: seq<seq<Bounds>>)
    requires IsRoot(root) && forall i :: 0 <= i < |rings| ==> GoodRing(rings[i])
    requires |rings| == |features| && forall i :: 0 <= i < |features| ==> 1 <= features[i] <= n
    ensures |boxes| == |all| == n
    ensures forall f :: 0 <= f < n ==> Gathered(rings, PartsOf(rings, features, |rings|, f), all[f]) && IsBox(all[f], boxes[f])
  {
    all := GatherBounds(root, rings, features, n);
    forall f | 0 <= f < n ensures GoodIfAny(all[f]) {
      if Arcs(all[f]).Some? {
        GoodBounds(rings, PartsOf(rings, features, |rings|, f), all[f]);
      }
    }
    boxes := BoxesOf(all);
  }

  // --- What the box holds ---

  /** A feature has a box exactly when it has a part with an outer ring. */
  lemma BoxWherePart(rings: seq<seq<Vertex>>, features: seq<nat>, f: nat, bounds: seq<Bounds>, box: Option<Bounds>)
    requires |rings| == |features| && Gathered(rings, PartsOf(rings, features, |rings|, f), bounds) && IsBox(bounds, box)
    ensures box.Some? <==> exists i: nat :: IsPart(rings, features, f, i)
  {
    var parts := PartsOf(rings, features, |rings|, f);
    if parts != [] {
      assert parts[0] in parts;
    }
    if i: nat :| IsPart(rings, features, f, i) {
      assert i in parts;
    }
  }

  /** Every part has its bounds among those of its feature, and the box is at
      least as high and as low. */
  lemma BoxHoldsBounds(rings: seq<seq<Vertex>>, features: seq<nat>, f: nat, bounds: seq<Bounds>,
                       box: Option<Bounds>, i: nat) returns (b: Bounds)
    requires |rings| == |features| && Gathered(rings, PartsOf(rings, features, |rings|, f), bounds) && IsBox(bounds, box)
    requires IsPart(rings, features, f, i)
    ensures b in bounds && BoundsOf(rings[i], b) && box.Some?
    ensures box.value.heights.lo <= b.heights.lo && b.heights.hi <= box.value.heights.hi
  {
    var parts := PartsOf(rings, features, |rings|, f);
    assert i in parts;
    var j :| 0 <= j < |parts| && parts[j] == i;
    b := bounds[j];
  }

  /** Up to whole turns the box's arc holds each part's, if the last arc leaves
      the largest gap free. */
  lemma BoxHoldsArc(bounds: seq<Bounds>, box: Option<Bounds>, b: Bounds, x: real)
    requires IsBox(bounds, box) && b in bounds && box.Some? && box.value.lon.Some?
    requires UnionArcs.GoodArcs(Arcs(bounds).value) && UnionArcs.LastArcFits(Arcs(bounds).value)
    requires b.lon.Some? && b.lon.value.start <= x <= b.lon.value.end
    ensures UnionArcs.HoldsLongitude(box.value.lon.value, x)
  {
    var arcs := Arcs(bounds).value;
    var j :| 0 <= j < |bounds| && bounds[j] == b;
    UnionArcs.UnionIsSmallest(arcs);
    assert arcs[j].start <= x <= arcs[j].end;
    assert UnionArcs.InSome(arcs, x);
  }

  /** Every point of every edge of every part is as high as its feature's box
      allows. */
  lemma BoxHoldsHeights(rings: seq<seq<Vertex>>, features: seq<nat>, f: nat, bounds: seq<Bounds>, box: Option<Bounds>,
                        i: nat, e: nat, p: Vec)
    requires |rings| == |features| && Gathered(rings, PartsOf(rings, features, |rings|, f), bounds) && IsBox(bounds, box)
    requires IsPart(rings, features, f, i) && OnEdge(rings[i], e, p)
    ensures box.Some? && Holds(box.value.heights, p.z)
  {
    var b := BoxHoldsBounds(rings, features, f, bounds, box, i);
    EdgeInBounds(rings[i], b, e, p);
  }

  lemma EdgeInBounds(ring: seq<Vertex>, b: Bounds, e: nat, p: Vec)
    requires BoundsOf(ring, b) && OnEdge(ring, e, p)
    ensures Holds(b.heights, p.z)
  {
  }

  /** And, the poles aside, it has a longitude in that box, if the last arc leaves
      the largest gap free. */
  lemma BoxHoldsLongitudes(trig: Trig, root: real -> real, rings: seq<seq<Vertex>>, features: seq<nat>, f: nat,
                           bounds: seq<Bounds>, box: Option<Bounds>, i: nat, e: nat, p: Vec)
    requires trig.Valid() && IsRoot(root)
    requires |rings| == |features| && Gathered(rings, PartsOf(rings, features, |rings|, f), bounds) && IsBox(bounds, box)
    requires IsPart(rings, features, f, i) && AllLocated(trig, rings[i]) && OnEdge(rings[i], e, p)
    requires OffAxis(p)
    requires Arcs(bounds).Some? ==> UnionArcs.LastArcFits(Arcs(bounds).value)
    ensures box.Some?
    ensures box.value.lon.Some? ==> exists x: real :: UnionArcs.HoldsLongitude(box.value.lon.value, x) && HasLongitude(trig, p, x)
  {
    var b := BoxHoldsBounds(rings, features, f, bounds, box, i);
    if box.value.lon.Some? {
      var j :| 0 <= j < |bounds| && bounds[j] == b;
      var x := EdgeLongitude(trig, root, rings[i], b, e, p);
      GoodBounds(rings, PartsOf(rings, features, |rings|, f), bounds);
      BoxHoldsArc(bounds, box, b, x);
    }
  }

  lemma EdgeLongitude(trig: Trig, root: real -> real, ring: seq<Vertex>, b: Bounds, e: nat, p: Vec) returns (x: real)
    requires trig.Valid() && IsRoot(root) && AllLocated(trig, ring) && OnEdge(ring, e, p)
    requires OffAxis(p) && BoundsOf(ring, b) && b.lon.Some?
    ensures b.lon.value.start <= x <= b.lon.value.end && HasLongitude(trig, p, x)
  {
    EdgesInSpan(trig, root, ring, b.lon.value, e, p);
    x :| b.lon.value.start <= x <= b.lon.value.end && HasLongitude(trig, p, x);
  }

  /** That condition is exact: with it the box's arc holds every part's, and
      without it the arc misses some longitude of one. */
  lemma BoxCoversArcs(bounds: seq<Bounds>, box: Option<Bounds>)
    requires IsBox(bounds, box) && box.Some? && box.value.lon.Some? && UnionArcs.GoodArcs(Arcs(bounds).value)
    ensures UnionArcs.CoversAll(box.value.lon.value, Arcs(bounds).value) <==> UnionArcs.LastArcFits(Arcs(bounds).value)
  {
    UnionArcs.UnionCoversExactly(Arcs(bounds).value);
  }
}
