/** Whether a polygon ring crosses itself, by a sweep over its edges' boxes. */
module RingCheck {
  import opened Sequences
  import opened Vectors
  import opened ArcGeometry
  import opened Sorting

  // --- Cleaning ---

  /** Consecutive repeats dropped, each point compared with the last one kept. */
  function Deduplicated(points: seq<Vec>): (kept: seq<Vec>)
    ensures |kept| <= |points|
    ensures points != [] ==> kept != [] && kept[0] == points[0]
  {
    if points == [] then []
    else
      var last := |points| - 1;
      var kept := Deduplicated(points[..last]);
      if kept != [] && Same(kept[|kept| - 1], points[last]) then kept else kept + [points[last]]
  }

  /** The ring's distinct vertices: repeats dropped, then a closing vertex. */
  function Cleaned(points: seq<Vec>): seq<Vec> {
    var kept := Deduplicated(points);
    if |kept| > 1 && Same(kept[0], kept[|kept| - 1]) then kept[..|kept| - 1] else kept
  }

  method Clean(points: seq<Vec>) returns (pts: seq<Vec>)
    ensures pts == Cleaned(points)
  {
    pts := [];
    for i := 0 to |points|
      invariant pts == Deduplicated(points[..i])
    {
      assert points[..i + 1][..i] == points[..i];
      var p := points[i];
      if !(pts != [] && Same(pts[|pts| - 1], p)) {
        pts := pts + [p];
      }
    }
    assert points[..|points|] == points;
    if |pts| > 1 && Same(pts[0], pts[|pts| - 1]) {
      pts := pts[..|pts| - 1];
    }
  }

  /** `owner[i]` is the kept vertex that stands for point `i`: the same as the
      one before it when the point repeats that vertex, or else the next one,
      which is the point itself. */
  ghost predicate KeptBy(points: seq<Vec>, kept: seq<Vec>, owner: seq<nat>) {
    && |owner| == |points|
    && (points == [] ==> kept == [])
    && (points != [] ==> owner[0] == 0 && owner[|points| - 1] == |kept| - 1)
    && (forall i :: 0 <= i < |points| ==> owner[i] < |kept|)
    && (points != [] ==> kept[0] == points[0])
    && forall i :: 0 < i < |points| ==> PointKept(points, kept, owner, i)
  }

  ghost predicate PointKept(points: seq<Vec>, kept: seq<Vec>, owner: seq<nat>, i: nat)
    requires 0 < i < |points| == |owner| && owner[i - 1] < |kept| && owner[i] < |kept|
  {
    if Same(kept[owner[i - 1]], points[i]) then owner[i] == owner[i - 1]
    else owner[i] == owner[i - 1] + 1 && kept[owner[i]] == points[i]
  }

  /** A point is dropped exactly when it repeats the vertex kept before it, and
      every other point is kept, in order. */
  lemma {:induction false} DeduplicatedKeeps(points: seq<Vec>) returns (owner: seq<nat>)
    ensures KeptBy(points, Deduplicated(points), owner)
  {
    if points == [] {
      owner := [];
    } else {
      var last := |points| - 1;
      var rest, kept := points[..last], Deduplicated(points[..last]);
      var before := DeduplicatedKeeps(rest);
      if kept != [] && Same(kept[|kept| - 1], points[last]) {
        owner := before + [|kept| - 1];
      } else {
        owner := before + [|kept|];
      }
      forall i | 0 < i < |points| ensures PointKept(points, Deduplicated(points), owner, i) {
        assert i < last ==> PointKept(rest, kept, before, i);
      }
    }
  }

  /** Every vertex kept is a vertex given, and neighbours kept are distinct. */
  lemma {:induction false} DeduplicatedFacts(points: seq<Vec>)
    ensures forall p :: p in Deduplicated(points) ==> p in points
    ensures forall i :: 0 < i < |Deduplicated(points)| ==> !Same(Deduplicated(points)[i - 1], Deduplicated(points)[i])
  {
    if points != [] {
      var last := |points| - 1;
      DeduplicatedFacts(points[..last]);
      assert points[last] in points;
    }
  }

  /** The cleaned ring and, if the last vertex kept repeats the first of several,
      that vertex: together they are the vertices kept. */
  lemma CleanedKeeps(points: seq<Vec>) returns (closing: seq<Vec>)
    ensures Deduplicated(points) == Cleaned(points) + closing
    ensures |closing| <= 1
    ensures closing != [] <==> |Deduplicated(points)| > 1 && Same(Deduplicated(points)[0], Deduplicated(points)[|Deduplicated(points)| - 1])
    ensures closing != [] ==> Cleaned(points) != [] && Same(Cleaned(points)[0], closing[0])
  {
    var kept := Deduplicated(points);
    closing := kept[|Cleaned(points)|..];
  }

  /** Farther apart than points taken for one ever are. */
  predicate Apart(a: Vec, b: Vec) {
    DistanceSquared(a, b) > 0.000000000000000000000003
  }

  predicate StepsApart(points: seq<Vec>) {
    forall i :: 0 < i < |points| ==> Apart(points[i - 1], points[i])
  }

  lemma {:induction false} ApartKept(points: seq<Vec>)
    requires StepsApart(points)
    ensures Deduplicated(points) == points
  {
    if points != [] {
      var last := |points| - 1;
      ApartKept(points[..last]);
      if last > 0 {
        SameMeaning(points[last - 1], points[last]);
      }
      assert points == points[..last] + [points[last]];
    }
  }

  /** A ring whose consecutive points are apart loses no vertex but a closing
      one: none when its ends are apart too, and its last when that is the first
      again. */
  lemma ApartRingKept(points: seq<Vec>)
    requires StepsApart(points)
    ensures Cleaned(points) == points || (|points| > 1 && Cleaned(points) == points[..|points| - 1])
    ensures points != [] && Apart(points[0], points[|points| - 1]) ==> Cleaned(points) == points
    ensures |points| > 1 && DistanceSquared(points[0], points[|points| - 1]) <= 0.000000000000000000000001 ==>
              Cleaned(points) == points[..|points| - 1]
  {
    ApartKept(points);
    if points != [] {
      SameMeaning(points[0], points[|points| - 1]);
    }
  }

  // --- The sweep ---

  /** Indices of the boxes, leftmost first, ties in any order. */
  ghost predicate SweepOrder(boxes: seq<Box>, order: seq<nat>) {
    && |order| == |boxes|
    && (forall k :: 0 <= k < |order| ==> order[k] < |boxes|)
    && (forall k, l :: 0 <= k < l < |order| ==> boxes[order[k]].lo.x <= boxes[order[l]].lo.x)
    && (forall i: nat :: i < |boxes| ==> i in order)
    && (forall k, l :: 0 <= k < l < |order| ==> order[k] != order[l])
  }

  /** Neighbouring edges of a closed ring share a vertex. */
  predicate Neighbouring(n: nat, i: nat, j: nat)
    requires n > 0
  {
    (i + 1) % n == j || (j + 1) % n == i
  }

  predicate ApartYZ(a: Box, b: Box) {
    a.lo.y > b.hi.y || a.hi.y < b.lo.y || a.lo.z > b.hi.z || a.hi.z < b.lo.z
  }

  /** What the sweep relies on: crossing is symmetric, never holds between
      neighbours, and only between edges whose boxes meet. */
  ghost predicate CrossingFits(boxes: seq<Box>, crosses: (nat, nat) -> bool) {
    forall i: nat, j: nat :: i < |boxes| && j < |boxes| && crosses(i, j) ==>
      crosses(j, i) && i != j && !Neighbouring(|boxes|, i, j) && BoxesMeet(boxes[i], boxes[j])
  }

  ghost predicate SomeCross(n: nat, crosses: (nat, nat) -> bool) {
    exists i: nat, j: nat :: i < n && j < n && crosses(i, j)
  }

  /** The edges still open at the sweep line. */
  function Retain(boxes: seq<Box>, active: seq<nat>, x: real): (kept: seq<nat>)
    requires forall k :: 0 <= k < |active| ==> active[k] < |boxes|
    ensures forall o :: o in kept <==> o in active && boxes[o].hi.x >= x
  {
    if active == [] then []
    else
      var last := |active| - 1;
      var kept := Retain(boxes, active[..last], x);
      assert active == active[..last] + [active[last]];
      if boxes[active[last]].hi.x >= x then kept + [active[last]] else kept
  }

  /** Everything swept so far is either still open or ended before `x`, and no
      two swept edges cross. */
  ghost predicate Swept(boxes: seq<Box>, crosses: (nat, nat) -> bool, done: seq<nat>, active: seq<nat>, x: real) {
    && (forall o :: o in done ==> o < |boxes|)
    && (forall o :: o in active ==> o in done)
    && (forall o :: o in done ==> o in active || boxes[o].hi.x < x)
    && (forall i, j :: i in done && j in done ==> !crosses(i, j))
  }

  method Sweep(boxes: seq<Box>, order: seq<nat>, crosses: (nat, nat) -> bool) returns (found: bool)
    requires SweepOrder(boxes, order) && CrossingFits(boxes, crosses)
    ensures found <==> SomeCross(|boxes|, crosses)
  {
    var active: seq<nat> := [];
    ghost var line := if order == [] then 0.0 else boxes[order[0]].lo.x;
    for k := 0 to |order|
      invariant Swept(boxes, crosses, order[..k], active, line)
      invariant k < |order| ==> line <= boxes[order[k]].lo.x
    {
      found, active := SweepEdge(boxes, order[k], crosses, order[..k], active, line);
      if found {
        return;
      }
      assert order[..k + 1] == order[..k] + [order[k]];
      line := boxes[order[k]].lo.x;
    }
    assert order[..|order|] == order;
    NoneCross(boxes, order, crosses, active, line);
    return false;
  }

  lemma NoneCross(boxes: seq<Box>, order: seq<nat>, crosses: (nat, nat) -> bool, active: seq<nat>, x: real)
    requires SweepOrder(boxes, order) && Swept(boxes, crosses, order, active, x)
    ensures !SomeCross(|boxes|, crosses)
  {
  }

  /** One edge of the sweep: close what ended before it, and test it against the
      rest. */
  method SweepEdge(boxes: seq<Box>, e: nat, crosses: (nat, nat) -> bool, ghost done: seq<nat>, active: seq<nat>, ghost line: real)
    returns (hit: bool, open: seq<nat>)
    requires CrossingFits(boxes, crosses) && e < |boxes|
    requires Swept(boxes, crosses, done, active, line) && line <= boxes[e].lo.x
    ensures hit ==> SomeCross(|boxes|, crosses)
    ensures !hit ==> Swept(boxes, crosses, done + [e], open, boxes[e].lo.x)
  {
    MoveLine(boxes, crosses, done, active, line, boxes[e].lo.x);
    open := Retain(boxes, active, boxes[e].lo.x);
    hit := Probe(boxes, crosses, e, open);
    if !hit {
      Settle(boxes, crosses, done, open, e);
      open := open + [e];
    }
  }

  lemma MoveLine(boxes: seq<Box>, crosses: (nat, nat) -> bool, done: seq<nat>, active: seq<nat>, x: real, y: real)
    requires Swept(boxes, crosses, done, active, x) && x <= y
    ensures forall k :: 0 <= k < |active| ==> active[k] < |boxes|
    ensures Swept(boxes, crosses, done, Retain(boxes, active, y), y)
  {
    assert forall k :: 0 <= k < |active| ==> active[k] in active;
  }

  /** Test the new edge against the open ones, skipping neighbours and edges
      whose boxes are apart. */
  method Probe(boxes: seq<Box>, crosses: (nat, nat) -> bool, e: nat, active: seq<nat>) returns (hit: bool)
    requires CrossingFits(boxes, crosses) && e < |boxes|
    requires forall o :: o in active ==> o < |boxes|
    ensures hit <==> exists o :: o in active && crosses(e, o)
  {
    for k := 0 to |active|
      invariant forall l :: 0 <= l < k ==> !crosses(e, active[l])
    {
      var o := active[k];
      assert o in active;
      if Neighbouring(|boxes|, e, o) {
        continue;
      }
      if ApartYZ(boxes[o], boxes[e]) {
        assert crosses(e, o) ==> BoxesMeet(boxes[e], boxes[o]);
        continue;
      }
      if crosses(e, o) {
        return true;
      }
    }
    return false;
  }

  /** An edge that crosses no open edge crosses no edge swept before it: the
      closed ones ended to its left. */
  lemma Settle(boxes: seq<Box>, crosses: (nat, nat) -> bool, done: seq<nat>, active: seq<nat>, e: nat)
    requires CrossingFits(boxes, crosses) && e < |boxes|
    requires Swept(boxes, crosses, done, active, boxes[e].lo.x)
    requires forall o :: o in active ==> !crosses(e, o)
    ensures Swept(boxes, crosses, done + [e], active + [e], boxes[e].lo.x)
  {
    forall o | o in done ensures !crosses(e, o) && !crosses(o, e) {
      if o in active {
      } else {
        assert crosses(e, o) ==> BoxesMeet(boxes[e], boxes[o]);
      }
    }
    forall i, j | i in done + [e] && j in done + [e] ensures !crosses(i, j) {
    }
  }

  // --- The whole check ---

  lemma OccursOnce<T>(s: seq<T>, i: nat)
    requires Distinct(s) && i < |s|
    ensures multiset(s)[s[i]] == 1
  {
    assert s == s[..i] + [s[i]] + s[i + 1..];
    assert s[i] !in s[..i] && s[i] !in s[i + 1..];
  }

  lemma OccursTwice<T>(s: seq<T>, i: nat, j: nat)
    requires i < j < |s| && s[i] == s[j]
    ensures multiset(s)[s[i]] >= 2
  {
    assert s == s[..j] + [s[j]] + s[j + 1..];
    assert s[i] == s[..j][i];
    assert s[i] in multiset(s[..j]);
  }

  lemma StaysDistinct<T>(s: seq<T>, t: seq<T>)
    requires Distinct(s) && multiset(s) == multiset(t)
    ensures Distinct(t)
  {
    forall i, j | 0 <= i < j < |t| ensures t[i] != t[j] {
      if t[i] == t[j] {
        OccursTwice(t, i, j);
        assert t[i] in multiset(s);
        var k :| 0 <= k < |s| && s[k] == t[i];
        OccursOnce(s, k);
      }
    }
  }

  /** The key edges are sorted by. */
  function LeftEdge(boxes: seq<Box>, i: nat): real {
    if i < |boxes| then boxes[i].lo.x else 0.0
  }

  /** The sort of the source: indices by their boxes' left edges. */
  method OrderByLeft(boxes: seq<Box>) returns (order: seq<nat>)
    ensures SweepOrder(boxes, order)
  {
    var indices: seq<nat> := seq(|boxes|, (i: nat) => i);
    var le := (i: nat, j: nat) => LeftEdge(boxes, i) <= LeftEdge(boxes, j);
    order := Sort(indices, le);
    StaysDistinct(indices, order);
    forall k | 0 <= k < |order| ensures order[k] < |boxes| {
      assert order[k] in multiset(indices);
    }
    forall i: nat | i < |boxes| ensures i in order {
      assert indices[i] in multiset(order);
    }
    assert forall k, l :: 0 <= k < l < |order| ==> le(order[k], order[l]);
  }

  /** The i-th edge of a closed ring, from one vertex to the next. */
  function EdgeBox(root: real -> real, pts: seq<Vec>, i: nat): Box
    requires i < |pts|
  {
    ArcBox(root, pts[i], pts[(i + 1) % |pts|])
  }

  predicate EdgesCross(root: real -> real, pts: seq<Vec>, i: nat, j: nat) {
    i < |pts| && j < |pts| && ArcsCross(root, pts[i], pts[(i + 1) % |pts|], pts[j], pts[(j + 1) % |pts|])
  }

  ghost predicate RingCrosses(root: real -> real, pts: seq<Vec>) {
    exists i: nat, j: nat :: EdgesCross(root, pts, i, j)
  }

  /** Edges with a vertex in common never count as crossing. */
  lemma NeighboursDoNotCross(root: real -> real, pts: seq<Vec>, i: nat, j: nat)
    requires i < |pts| && j < |pts| && (i == j || Neighbouring(|pts|, i, j))
    ensures !EdgesCross(root, pts, i, j)
  {
  }

  /** Fewer than four edges are all neighbours. */
  lemma SmallRingsDoNotCross(root: real -> real, pts: seq<Vec>)
    requires |pts| < 4
    ensures !RingCrosses(root, pts)
  {
    forall i: nat, j: nat | i < |pts| && j < |pts| ensures !EdgesCross(root, pts, i, j) {
      AllNeighbours(|pts|, i, j);
      NeighboursDoNotCross(root, pts, i, j);
    }
  }

  lemma AllNeighbours(n: nat, i: nat, j: nat)
    requires 0 < n < 4 && i < n && j < n
    ensures i == j || Neighbouring(n, i, j)
  {
  }

  ghost predicate UnitPoints(points: seq<Vec>) {
    forall p :: p in points ==> Unit(p)
  }

  lemma EdgesFit(root: real -> real, pts: seq<Vec>, boxes: seq<Box>, crosses: (nat, nat) -> bool)
    requires IsRoot(root) && UnitPoints(pts)
    requires |boxes| == |pts| && (forall i :: 0 <= i < |pts| ==> boxes[i] == EdgeBox(root, pts, i))
    requires forall i: nat, j: nat :: crosses(i, j) == EdgesCross(root, pts, i, j)
    ensures CrossingFits(boxes, crosses)
  {
    forall i: nat, j: nat | i < |boxes| && j < |boxes| && crosses(i, j)
      ensures crosses(j, i) && i != j && !Neighbouring(|boxes|, i, j) && BoxesMeet(boxes[i], boxes[j])
    {
      EdgeFits(root, pts, i, j);
    }
  }

  lemma EdgeFits(root: real -> real, pts: seq<Vec>, i: nat, j: nat)
    requires IsRoot(root) && UnitPoints(pts)
    requires EdgesCross(root, pts, i, j)
    ensures EdgesCross(root, pts, j, i) && i != j && !Neighbouring(|pts|, i, j)
    ensures BoxesMeet(EdgeBox(root, pts, i), EdgeBox(root, pts, j))
  {
    var a, b, c, d := pts[i], pts[(i + 1) % |pts|], pts[j], pts[(j + 1) % |pts|];
    if i == j || Neighbouring(|pts|, i, j) {
      NeighboursDoNotCross(root, pts, i, j);
    }
    CrossingIsSymmetric(root, a, b, c, d);
    CrossingArcsHaveMeetingBoxes(root, a, b, c, d);
  }

  /** True exactly when some two edges of the cleaned ring cross: the sort, the
      pruning of closed edges, the box filter, the neighbour skip and the early
      exit for small rings lose and add nothing. */
  method RingCrossesItself(root: real -> real, points: seq<Vec>) returns (crosses: bool)
    requires IsRoot(root) && UnitPoints(points)
    ensures crosses <==> RingCrosses(root, Cleaned(points))
  {
    var pts := Clean(points);
    DeduplicatedFacts(points);
    assert UnitPoints(pts);
    if |pts| < 4 {
      SmallRingsDoNotCross(root, pts);
      return false;
    }
    var boxes := seq(|pts|, i requires 0 <= i < |pts| => EdgeBox(root, pts, i));
    var order := OrderByLeft(boxes);
    var test := (i: nat, j: nat) => EdgesCross(root, pts, i, j);
    EdgesFit(root, pts, boxes, test);
    crosses := Sweep(boxes, order, test);
    SweepMeaning(root, pts, test);
  }

  lemma SweepMeaning(root: real -> real, pts: seq<Vec>, test: (nat, nat) -> bool)
    requires forall i: nat, j: nat :: test(i, j) == EdgesCross(root, pts, i, j)
    ensures SomeCross(|pts|, test) <==> RingCrosses(root, pts)
  {
    if RingCrosses(root, pts) {
      var i: nat, j: nat :| EdgesCross(root, pts, i, j);
      assert test(i, j);
    }
    if SomeCross(|pts|, test) {
      var i: nat, j: nat :| i < |pts| && j < |pts| && test(i, j);
      assert EdgesCross(root, pts, i, j);
    }
  }

  /** One of the first `n` rings crosses itself. */
  ghost predicate SomeRingCrosses(root: real -> real, rings: seq<seq<Vec>>, n: nat)
    requires n <= |rings|
  {
    n > 0 && (SomeRingCrosses(root, rings, n - 1) || RingCrosses(root, Cleaned(rings[n - 1])))
  }

  /** Rings are tried in order; the answer counts them from 1 and is 0 when every
      ring is simple. */
  method FirstCrossing(root: real -> real, rings: seq<seq<Vec>>) returns (first: nat)
    requires IsRoot(root) && forall i :: 0 <= i < |rings| ==> UnitPoints(rings[i])
    ensures first == 0 ==> !SomeRingCrosses(root, rings, |rings|)
    ensures first > 0 ==>
              && first <= |rings|
              && RingCrosses(root, Cleaned(rings[first - 1]))
              && !SomeRingCrosses(root, rings, first - 1)
  {
    for i := 0 to |rings|
      invariant !SomeRingCrosses(root, rings, i)
    {
      var hit := RingCrossesItself(root, rings[i]);
      if hit {
        return i + 1;
      }
    }
    return 0;
  }

  // --- Two rings ---

  /** Four points at longitudes 0 and 90, as far south as north of the
      equator. */
  const SOUTH_0 := Vec(0.6, 0.0, -0.8)
  const NORTH_0 := Vec(0.6, 0.0, 0.8)
  const SOUTH_90 := Vec(0.0, 0.6, -0.8)
  const NORTH_90 := Vec(0.0, 0.6, 0.8)

  lemma FourUnitPoints()
    ensures Unit(SOUTH_0) && Unit(NORTH_0) && Unit(SOUTH_90) && Unit(NORTH_90)
    ensures Apart(SOUTH_0, NORTH_90) && Apart(NORTH_90, SOUTH_90) && Apart(SOUTH_90, NORTH_0) && Apart(SOUTH_0, NORTH_0)
    ensures Apart(SOUTH_0, SOUTH_90) && Apart(SOUTH_90, NORTH_90) && Apart(NORTH_90, NORTH_0)
  {
  }

  lemma FourKept(a: Vec, b: Vec, c: Vec, d: Vec)
    requires Apart(a, b) && Apart(b, c) && Apart(c, d) && Apart(a, d)
    ensures Cleaned([a, b, c, d]) == [a, b, c, d]
  {
    ApartRingKept([a, b, c, d]);
  }

  /** Joined crosswise they cross on the equator. */
  lemma BowTieCrosses(root: real -> real)
    requires IsRoot(root)
    ensures UnitPoints([SOUTH_0, NORTH_90, SOUTH_90, NORTH_0])
    ensures RingCrosses(root, Cleaned([SOUTH_0, NORTH_90, SOUTH_90, NORTH_0]))
  {
    var ring := [SOUTH_0, NORTH_90, SOUTH_90, NORTH_0];
    FourUnitPoints();
    FourKept(SOUTH_0, NORTH_90, SOUTH_90, NORTH_0);
    DiagonalsCross(root);
    EdgesAre(root, ring, 0, 2, SOUTH_0, NORTH_90, SOUTH_90, NORTH_0);
  }

  lemma DiagonalSides()
    ensures Cross(SOUTH_0, NORTH_90) == Vec(0.48, -0.48, 0.36) && Cross(SOUTH_90, NORTH_0) == Vec(0.48, -0.48, -0.36)
    ensures Dot(Cross(SOUTH_0, NORTH_90), SOUTH_90) == -0.576 && Dot(Cross(SOUTH_0, NORTH_90), NORTH_0) == 0.576
    ensures Dot(Cross(SOUTH_90, NORTH_0), SOUTH_0) == 0.576 && Dot(Cross(SOUTH_90, NORTH_0), NORTH_90) == -0.576
  {
  }

  lemma ClearByNumbers(root: real -> real, a: Vec, b: Vec, c: Vec, n: Vec)
    requires IsRoot(root) && n == Cross(a, b) && Dot(n, n) <= 1.0 && (Dot(n, c) == 0.576 || Dot(n, c) == -0.576)
    ensures ClearOf(root, a, b, c)
  {
    ClearOfMeaning(root, a, b, c);
    assert Dot(n, c) * Dot(n, c) == 0.331776;
  }

  lemma DiagonalsCross(root: real -> real)
    requires IsRoot(root)
    ensures ArcsCross(root, SOUTH_0, NORTH_90, SOUTH_90, NORTH_0)
  {
    var a, b, c, d := SOUTH_0, NORTH_90, SOUTH_90, NORTH_0;
    var n, m := Vec(0.48, -0.48, 0.36), Vec(0.48, -0.48, -0.36);
    DiagonalSides();
    ClearByNumbers(root, a, b, c, n);
    ClearByNumbers(root, a, b, d, n);
    ClearByNumbers(root, c, d, a, m);
    ClearByNumbers(root, c, d, b, m);
    DiagonalsMeet();
    CrossingByDistance(root, a, b, c, d);
  }

  lemma DiagonalsMeet()
    ensures Cross(Cross(SOUTH_0, NORTH_90), Cross(SOUTH_90, NORTH_0)) != ZERO
    ensures exists v: Vec :: StrictlyBetween(v, SOUTH_0, NORTH_90) && StrictlyBetween(v, SOUTH_90, NORTH_0)
  {
    DiagonalSides();
    assert Cross(Vec(0.48, -0.48, 0.36), Vec(0.48, -0.48, -0.36)).x == 0.3456;
    HalfWay(SOUTH_0, NORTH_90, Vec(0.6, 0.6, 0.0));
    HalfWay(SOUTH_90, NORTH_0, Vec(0.6, 0.6, 0.0));
  }

  lemma HalfWay(a: Vec, b: Vec, v: Vec)
    requires v.x == a.x + b.x && v.y == a.y + b.y && v.z == a.z + b.z
    ensures StrictlyBetween(v, a, b)
  {
    assert Combines(v, 1.0, a, 1.0, b);
  }

  /** Joined in turn they do not. */
  lemma SquareDoesNotCross(root: real -> real)
    requires IsRoot(root)
    ensures !RingCrosses(root, Cleaned([SOUTH_0, SOUTH_90, NORTH_90, NORTH_0]))
  {
    FourUnitPoints();
    FourKept(SOUTH_0, SOUTH_90, NORTH_90, NORTH_0);
    SquareIsSimple(root, [SOUTH_0, SOUTH_90, NORTH_90, NORTH_0]);
  }

  lemma SquareIsSimple(root: real -> real, ring: seq<Vec>)
    requires IsRoot(root) && ring == [SOUTH_0, SOUTH_90, NORTH_90, NORTH_0]
    ensures !RingCrosses(root, ring)
  {
    forall i: nat, j: nat | i < 4 && j < 4 ensures !EdgesCross(root, ring, i, j) {
      SquareEdges(root, i, j);
    }
  }

  lemma SquareEdges(root: real -> real, i: nat, j: nat)
    requires IsRoot(root) && i < 4 && j < 4
    ensures !EdgesCross(root, [SOUTH_0, SOUTH_90, NORTH_90, NORTH_0], i, j)
  {
    var ring := [SOUTH_0, SOUTH_90, NORTH_90, NORTH_0];
    if i == j || Neighbouring(4, i, j) {
      NeighboursDoNotCross(root, ring, i, j);
    } else {
      OppositeIndices(i, j);
      EdgesAre(root, ring, i, j, ring[i], ring[if i == 3 then 0 else i + 1], ring[j], ring[if j == 3 then 0 else j + 1]);
      OppositeEdges(root);
    }
  }

  lemma EdgesAre(root: real -> real, ring: seq<Vec>, i: nat, j: nat, a: Vec, b: Vec, c: Vec, d: Vec)
    requires |ring| == 4 && i < 4 && j < 4 && a == ring[i] && c == ring[j]
    requires b == ring[if i == 3 then 0 else i + 1] && d == ring[if j == 3 then 0 else j + 1]
    ensures EdgesCross(root, ring, i, j) == ArcsCross(root, a, b, c, d)
  {
    NextOfFour(i);
    NextOfFour(j);
  }

  lemma NextOfFour(i: nat)
    requires i < 4
    ensures (i + 1) % 4 == if i == 3 then 0 else i + 1
  {
  }

  lemma OppositeIndices(i: nat, j: nat)
    requires i < 4 && j < 4 && i != j && !Neighbouring(4, i, j)
    ensures (i == 0 && j == 2) || (i == 1 && j == 3) || (i == 2 && j == 0) || (i == 3 && j == 1)
  {
  }

  lemma OppositeEdges(root: real -> real)
    requires IsRoot(root)
    ensures !ArcsCross(root, SOUTH_0, SOUTH_90, NORTH_90, NORTH_0) && !ArcsCross(root, NORTH_90, NORTH_0, SOUTH_0, SOUTH_90)
    ensures !ArcsCross(root, SOUTH_90, NORTH_90, NORTH_0, SOUTH_0) && !ArcsCross(root, NORTH_0, SOUTH_0, SOUTH_90, NORTH_90)
  {
    SquareSides();
    OneSideDoesNotCross(root, SOUTH_0, SOUTH_90, NORTH_90, NORTH_0);
    OneSideDoesNotCross(root, SOUTH_90, NORTH_90, NORTH_0, SOUTH_0);
    CrossingIsSymmetric(root, SOUTH_0, SOUTH_90, NORTH_90, NORTH_0);
    CrossingIsSymmetric(root, SOUTH_90, NORTH_90, NORTH_0, SOUTH_0);
  }

  lemma SquareSides()
    ensures Cross(SOUTH_0, SOUTH_90) == Vec(0.48, 0.48, 0.36) && Cross(SOUTH_90, NORTH_90) == Vec(0.96, 0.0, 0.0)
    ensures Dot(Cross(SOUTH_0, SOUTH_90), NORTH_90) > 0.0 && Dot(Cross(SOUTH_0, SOUTH_90), NORTH_0) > 0.0
    ensures Dot(Cross(SOUTH_90, NORTH_90), NORTH_0) > 0.0 && Dot(Cross(SOUTH_90, NORTH_90), SOUTH_0) > 0.0
  {
  }
}
