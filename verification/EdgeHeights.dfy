/** How high and how low a great-circle edge reaches. */
module EdgeHeights {
  import opened Vectors
  import opened ArcGeometry

  /** Least and greatest height, as the sine of the latitude. */
  datatype Heights = Heights(lo: real, hi: real)

  /** The downward direction in the plane with normal `n`. */
  function Downhill(n: Vec): Vec {
    Vec(n.x * n.z, n.y * n.z, -(n.x * n.x + n.y * n.y))
  }

  /** `p` falls strictly inside the edge from `a` to `b`. */
  predicate InsideEdge(a: Vec, b: Vec, p: Vec) {
    Dot(Cross(a, p), Cross(a, b)) > 0.0 && Dot(Cross(p, b), Cross(a, b)) > 0.0
  }

  /** Heights widened by `p` when it falls inside the edge. */
  function WidenBy(h: Heights, a: Vec, b: Vec, p: Vec): Heights {
    if InsideEdge(a, b, p) then
      var z := Clamp(p.z);
      Heights(Min(h.lo, z), Max(h.hi, z))
    else h
  }

  /** The great circle's highest point. */
  function Top(n: Vec, len: real): Vec
    requires len > 0.0
  {
    var d := Downhill(n);
    Vec(-d.x / len, -d.y / len, -d.z / len)
  }

  /** Heights widened by an edge: by its great circle's top, and by the point
      opposite, where the edge reaches them. */
  function WidenByEdge(root: real -> real, h: Heights, a: Vec, b: Vec): Heights {
    var d := Downhill(Cross(a, b));
    var len := root(Dot(d, d));
    if len > 0.0 then
      var top := Top(Cross(a, b), len);
      WidenBy(WidenBy(h, a, b, top), a, b, Negate(top))
    else h
  }

  // --- Scalars: a point of the edge against the top ---

  /** Shares of a unit point on the edge, and its cosines with the ends. */
  ghost predicate UnitShare(s: real, t: real, c: real) {
    s >= 0.0 && t >= 0.0 && s * s + t * t + 2.0 * (s * t * c) == 1.0
  }

  lemma BehindOneEnd(x: real, y: real, c: real, s: real, t: real, e: real, f: real)
    requires UnitShare(s, t, c) && e == 1.0 - s - t * c && f == t + s * c - c
    ensures (1.0 - c * c) * (s * x + t * y - x) == -(x - y * c) * e + (y - x * c) * f
    ensures t * f == (1.0 + s) * e
  {
    FirstIdentity(x, y, c, s, t);
    SecondIdentity(c, s, t);
  }

  lemma FirstIdentity(x: real, y: real, c: real, s: real, t: real)
    ensures (1.0 - c * c) * (s * x + t * y - x) == -(x - y * c) * (1.0 - s - t * c) + (y - x * c) * (t + s * c - c)
  {
  }

  lemma SecondIdentity(c: real, s: real, t: real)
    requires s * s + t * t + 2.0 * (s * t * c) == 1.0
    ensures t * (t + s * c - c) == (1.0 + s) * (1.0 - s - t * c)
  {
  }

  lemma CosineAtMostOne(s: real, t: real, c: real)
    requires UnitShare(s, t, c) && c * c <= 1.0
    ensures s + t * c <= 1.0
  {
    var w := s + t * c;
    SquareNonneg(t);
    MulNonneg(t * t, 1.0 - c * c);
    CosineIdentity(s, t, c);
    RootAtMostOne(Abs(w), w * w);
  }

  lemma CosineIdentity(s: real, t: real, c: real)
    requires s * s + t * t + 2.0 * (s * t * c) == 1.0
    ensures (s + t * c) * (s + t * c) == 1.0 - (t * t) * (1.0 - c * c)
  {
  }

  /** From the scaled difference's sign back to the comparison. */
  lemma ScaledAtMost(n: real, p: real, x: real)
    requires n > 0.0 && n * (p - x) <= 0.0
    ensures p <= x
  {
    if p > x {
      MulPositive(n, p - x, n * (p - x));
    }
  }

  lemma SignedSum(u: real, v: real, e: real, f: real)
    requires u >= 0.0 && v <= 0.0 && e >= 0.0 && f >= 0.0
    ensures -u * e + v * f <= 0.0
  {
    MulNonneg(u, e);
    MulNonneg(-v, f);
  }

  /** When the top lies behind `b`'s side of `a` only, the edge falls away from
      `a`. */
  lemma FallsFromStart(x: real, y: real, c: real, s: real, t: real)
    requires UnitShare(s, t, c) && c * c < 1.0
    requires x - y * c >= 0.0 && y - x * c <= 0.0
    ensures s * x + t * y <= x
  {
    CosineAtMostOne(s, t, c);
    var e, f := 1.0 - s - t * c, t + s * c - c;
    BehindOneEnd(x, y, c, s, t, e, f);
    ForwardShare(s, t, c, e, f);
    SignedSum(x - y * c, y - x * c, e, f);
    ScaledAtMost(1.0 - c * c, s * x + t * y, x);
  }

  lemma ForwardShare(s: real, t: real, c: real, e: real, f: real)
    requires UnitShare(s, t, c) && c * c < 1.0 && e >= 0.0 && f == t + s * c - c
    requires t * f == (1.0 + s) * e
    ensures f >= 0.0
  {
    MulNonneg(1.0 + s, e);
    if t == 0.0 {
      assert s * s == 1.0;
      RootAtLeastOne(s, s * s);
      RootAtMostOne(s, s * s);
      assert s == 1.0;
    } else if f < 0.0 {
      MulPositive(t, -f, t * -f);
    }
  }

  /** When it lies behind both, the edge is below the nearer end. */
  lemma FallsFromNearerEnd(x: real, y: real, c: real, s: real, t: real)
    requires UnitShare(s, t, c) && c * c < 1.0
    requires x - y * c <= 0.0 && y - x * c <= 0.0
    ensures s * x + t * y <= Max(x, y)
  {
    var u, v := x - y * c, y - x * c;
    if v * (1.0 + s) <= u * t {
      BelowStart(x, y, c, s, t, u, v);
    } else {
      OtherEndNearer(u, v, s, t);
      UnitShareSwaps(s, t, c);
      BelowStart(y, x, c, t, s, v, u);
    }
  }

  lemma UnitShareSwaps(s: real, t: real, c: real)
    requires UnitShare(s, t, c)
    ensures UnitShare(t, s, c)
  {
    assert t * s * c == s * t * c;
  }

  lemma OtherEndNearer(u: real, v: real, s: real, t: real)
    requires u <= 0.0 && v <= 0.0 && s >= 0.0 && t >= 0.0
    requires v * (1.0 + s) > u * t
    ensures u * (1.0 + t) <= v * s
  {
    var g := v * s - u * (1.0 + t);
    MulMonotone(u * t, v * (1.0 + s), s);
    assert (1.0 + s) * g == (v * (1.0 + s)) * s - (u * t) * s - u * (1.0 + s + t);
    MulNonneg(-u, 1.0 + s + t);
    if g < 0.0 {
      MulPositive(1.0 + s, -g, (1.0 + s) * -g);
    }
  }

  lemma BelowStart(x: real, y: real, c: real, s: real, t: real, u: real, v: real)
    requires UnitShare(s, t, c) && c * c < 1.0
    requires u == x - y * c && v == y - x * c && v * (1.0 + s) <= u * t
    ensures s * x + t * y <= x
  {
    CosineAtMostOne(s, t, c);
    var e, f := 1.0 - s - t * c, t + s * c - c;
    BehindOneEnd(x, y, c, s, t, e, f);
    if t == 0.0 {
      assert s * s == 1.0;
      RootAtLeastOne(s, s * s);
      RootAtMostOne(s, s * s);
    } else {
      ScaledSign(u, v, s, t, e, f);
      ScaledAtMost(1.0 - c * c, s * x + t * y, x);
    }
  }

  lemma ScaledSign(u: real, v: real, s: real, t: real, e: real, f: real)
    requires t > 0.0 && e >= 0.0 && t * f == (1.0 + s) * e && v * (1.0 + s) <= u * t
    ensures -u * e + v * f <= 0.0
  {
    var w := -u * e + v * f;
    assert t * w == -u * t * e + v * (t * f);
    assert v * ((1.0 + s) * e) == (v * (1.0 + s)) * e;
    MulMonotone(v * (1.0 + s), u * t, e);
    if w > 0.0 {
      MulPositive(t, w, t * w);
    }
  }

  /** An edge whose great circle's top is not strictly inside it goes no higher
      than its ends. */
  lemma EndsAreHighest(x: real, y: real, c: real, s: real, t: real)
    requires UnitShare(s, t, c) && c * c < 1.0
    requires !(x - y * c > 0.0 && y - x * c > 0.0)
    ensures s * x + t * y <= Max(x, y)
  {
    if x - y * c >= 0.0 && y - x * c <= 0.0 {
      FallsFromStart(x, y, c, s, t);
    } else if y - x * c >= 0.0 {
      UnitShareSwaps(s, t, c);
      FallsFromStart(y, x, c, t, s);
    } else {
      FallsFromNearerEnd(x, y, c, s, t);
    }
  }

  // --- Vectors ---

  /** The inside test in terms of cosines. */
  lemma InsideInCosines(a: Vec, b: Vec, p: Vec)
    requires Unit(a) && Unit(b)
    ensures Dot(Cross(a, p), Cross(a, b)) == Dot(b, p) - Dot(a, p) * Dot(a, b)
    ensures Dot(Cross(p, b), Cross(a, b)) == Dot(a, p) - Dot(b, p) * Dot(a, b)
  {
    BinetCauchy(a, p, a, b);
    BinetCauchy(p, b, a, b);
    DotSymmetric(p, a);
    DotSymmetric(p, b);
    DotSymmetric(b, a);
  }

  lemma BinetCauchy(a: Vec, b: Vec, c: Vec, d: Vec)
    ensures Dot(Cross(a, b), Cross(c, d)) == Dot(a, c) * Dot(b, d) - Dot(a, d) * Dot(b, c)
  {
    ScalarTriple(a, b, Cross(c, d));
    TripleProductRight(b, c, d);
    CombineDot(Cross(b, Cross(c, d)), Dot(b, d), c, -Dot(b, c), d, a);
    DotSymmetric(a, Cross(b, Cross(c, d)));
    DotSymmetric(c, a);
    DotSymmetric(d, a);
  }

  lemma ScalarTriple(a: Vec, b: Vec, m: Vec)
    ensures Dot(Cross(a, b), m) == Dot(a, Cross(b, m))
  {
  }

  /** The squared sine of the edge's angle. */
  lemma NormalLength(a: Vec, b: Vec)
    requires Unit(a) && Unit(b)
    ensures Dot(Cross(a, b), Cross(a, b)) == 1.0 - Dot(a, b) * Dot(a, b)
  {
    BinetCauchy(a, b, a, b);
    DotSymmetric(b, a);
  }

  /** Height of a direction in the plane, by its dot product with downhill. */
  lemma HeightByDownhill(q: Vec, n: Vec)
    requires Dot(q, n) == 0.0
    ensures Dot(q, Downhill(n)) == -(q.z * Dot(n, n))
  {
    DownhillIdentity(q, n);
  }

  lemma DownhillIdentity(q: Vec, n: Vec)
    ensures Dot(q, Downhill(n)) == n.z * Dot(q, n) - q.z * Dot(n, n)
  {
  }

  lemma DownhillLength(n: Vec)
    ensures Dot(Downhill(n), Downhill(n)) == Dot(n, n) * (n.x * n.x + n.y * n.y)
  {
  }

  /** The top scaled back up to the downhill direction. */
  lemma TopScaled(n: Vec, len: real)
    requires len > 0.0
    ensures var t, d := Top(n, len), Downhill(n);
            t.x * len == -d.x && t.y * len == -d.y && t.z * len == -d.z
  {
  }

  lemma DotTop(q: Vec, n: Vec, len: real)
    requires len > 0.0
    ensures Dot(q, Top(n, len)) * len == -Dot(q, Downhill(n))
  {
    TopScaled(n, len);
    var t, d := Top(n, len), Downhill(n);
    assert q.x * t.x * len == q.x * (t.x * len);
    assert q.y * t.y * len == q.y * (t.y * len);
    assert q.z * t.z * len == q.z * (t.z * len);
  }

  /** `len` is the downhill direction's length. */
  ghost predicate DownhillLen(n: Vec, len: real) {
    len > 0.0 && len * len == Dot(Downhill(n), Downhill(n))
  }

  lemma TopIsUnit(n: Vec, len: real)
    requires DownhillLen(n, len)
    ensures Unit(Top(n, len))
  {
    var t := Top(n, len);
    DotTop(t, n, len);
    DotTop(Downhill(n), n, len);
    DotSymmetric(t, Downhill(n));
    UnitFromScaled(Dot(t, t), Dot(t, Downhill(n)), Dot(Downhill(n), Downhill(n)), len);
  }

  lemma UnitFromScaled(tt: real, td: real, dd: real, len: real)
    requires len > 0.0 && len * len == dd && tt * len == -td && td * len == -dd
    ensures tt == 1.0
  {
    assert tt * (len * len) == (tt * len) * len;
    assert (tt - 1.0) * (len * len) == 0.0;
    MulPositive(len, len, len * len);
    EqualFactor(tt, 1.0, len * len);
  }

  lemma NormalNonzero(n: Vec, len: real)
    requires DownhillLen(n, len)
    ensures Dot(n, n) > 0.0 && Top(n, len).z > 0.0 && Top(n, len).z * Dot(n, n) == len
  {
    var nn, flat := LengthParts(n, len);
    TopHeight(Top(n, len).z, len, nn, flat);
  }

  lemma LengthParts(n: Vec, len: real) returns (nn: real, flat: real)
    requires DownhillLen(n, len)
    ensures nn == Dot(n, n) >= 0.0 && len * len == nn * flat && Top(n, len).z * len == flat
  {
    nn, flat := Dot(n, n), n.x * n.x + n.y * n.y;
    DownhillLength(n);
    DotNonneg(n);
    TopScaled(n, len);
  }

  lemma TopHeight(z: real, len: real, nn: real, flat: real)
    requires len > 0.0 && nn >= 0.0 && len * len == nn * flat && z * len == flat
    ensures nn > 0.0 && z > 0.0 && z * nn == len
  {
    MulPositive(len, len, len * len);
    assert (z * nn) * len == nn * (z * len);
    EqualFactor(z * nn, len, len);
    if z <= 0.0 {
      MulNonneg(-z, nn);
    }
  }

  /** A direction's height is its share of the top's. */
  lemma HeightByTop(q: Vec, n: Vec, len: real)
    requires DownhillLen(n, len) && Dot(q, n) == 0.0
    ensures q.z == Top(n, len).z * Dot(q, Top(n, len))
  {
    NormalNonzero(n, len);
    HeightByDownhill(q, n);
    DotTop(q, n, len);
    ScaleOut(q.z, Top(n, len).z, Dot(q, Top(n, len)), Dot(n, n), len);
  }

  lemma ScaleOut(qz: real, z: real, w: real, nn: real, len: real)
    requires nn > 0.0 && w * len == qz * nn && z * nn == len
    ensures qz == z * w
  {
    assert (z * w) * nn == w * (z * nn);
    EqualFactor(qz, z * w, nn);
  }

  /** Cosines of an edge's ends with its plane's top (`x`, `y`), of the ends with
      each other (`c`), and of a point of the edge with the top (`w`). */
  ghost predicate EdgeScalars(a: Vec, b: Vec, p: Vec, s: real, t: real, top: Vec, x: real, y: real, c: real, w: real) {
    && x == Dot(a, top) && y == Dot(b, top) && c == Dot(a, b) && w == Dot(p, top)
    && w == s * x + t * y
    && UnitShare(s, t, c) && c * c < 1.0
  }

  lemma ScalarsOfEdge(a: Vec, b: Vec, p: Vec, s: real, t: real, top: Vec) returns (x: real, y: real, c: real, w: real)
    requires Unit(a) && Unit(b) && OnArc(p, s, a, t, b) && Dot(Cross(a, b), Cross(a, b)) > 0.0
    ensures EdgeScalars(a, b, p, s, t, top, x, y, c, w)
  {
    x, y, c, w := Dot(a, top), Dot(b, top), Dot(a, b), Dot(p, top);
    CombineDot(p, s, a, t, b, top);
    UnitShares(p, s, a, t, b);
    NormalLength(a, b);
  }

  /** Every height on the edge is its cosine with the top, times the top's
      height. */
  lemma HeightsOnEdge(a: Vec, b: Vec, p: Vec, s: real, t: real, len: real)
    requires Combines(p, s, a, t, b) && DownhillLen(Cross(a, b), len)
    ensures var top := Top(Cross(a, b), len);
            && a.z == top.z * Dot(a, top) && b.z == top.z * Dot(b, top) && p.z == top.z * Dot(p, top)
  {
    var n := Cross(a, b);
    OwnNormal(a, b);
    PlaneNormal(p, s, a, t, b);
    HeightByTop(a, n, len);
    HeightByTop(b, n, len);
    HeightByTop(p, n, len);
  }

  /** The edge goes no higher than its ends, or than the top where that falls
      inside it. */
  lemma EdgeBelow(a: Vec, b: Vec, p: Vec, s: real, t: real, top: Vec, x: real, y: real, c: real, w: real)
    requires Unit(a) && Unit(b) && Unit(p) && Unit(top) && EdgeScalars(a, b, p, s, t, top, x, y, c, w)
    ensures if InsideEdge(a, b, top) then w <= 1.0 else w <= Max(x, y)
  {
    UnitCosine(p, top);
    InsideScalars(a, b, top, x, y, c);
    if !InsideEdge(a, b, top) {
      EndsAreHighest(x, y, c, s, t);
    }
  }

  lemma InsideScalars(a: Vec, b: Vec, top: Vec, x: real, y: real, c: real)
    requires Unit(a) && Unit(b) && x == Dot(a, top) && y == Dot(b, top) && c == Dot(a, b)
    ensures InsideEdge(a, b, top) <==> x - y * c > 0.0 && y - x * c > 0.0
  {
    InsideInCosines(a, b, top);
  }

  lemma DotNegate(a: Vec, b: Vec)
    ensures Dot(a, Negate(b)) == -Dot(a, b) && Dot(Negate(b), Negate(b)) == Dot(b, b)
  {
  }

  lemma FlipScalars(a: Vec, b: Vec, p: Vec, s: real, t: real, top: Vec, x: real, y: real, c: real, w: real)
    requires EdgeScalars(a, b, p, s, t, top, x, y, c, w)
    ensures EdgeScalars(a, b, p, s, t, Negate(top), -x, -y, c, -w)
  {
    DotNegate(a, top);
    DotNegate(b, top);
    DotNegate(p, top);
    assert s * -x + t * -y == -(s * x + t * y);
  }

  /** And no lower than its ends, or than the bottom where that falls inside. */
  lemma EdgeAbove(a: Vec, b: Vec, p: Vec, s: real, t: real, top: Vec, x: real, y: real, c: real, w: real)
    requires Unit(a) && Unit(b) && Unit(p) && Unit(top) && EdgeScalars(a, b, p, s, t, top, x, y, c, w)
    ensures if InsideEdge(a, b, Negate(top)) then w >= -1.0 else w >= Min(x, y)
  {
    FlipScalars(a, b, p, s, t, top, x, y, c, w);
    DotNegate(top, top);
    EdgeBelow(a, b, p, s, t, Negate(top), -x, -y, c, -w);
  }

  lemma ScaleHeights(z: real, w: real, x: real, y: real, zw: real, zx: real, zy: real)
    requires z > 0.0 && zw == z * w && zx == z * x && zy == z * y
    ensures w <= Max(x, y) ==> zw <= Max(zx, zy)
    ensures w >= Min(x, y) ==> zw >= Min(zx, zy)
    ensures w <= 1.0 ==> zw <= z
    ensures w >= -1.0 ==> zw >= -z
  {
    ScaleOrder(z, w, x, zw, zx);
    ScaleOrder(z, x, w, zx, zw);
    ScaleOrder(z, w, y, zw, zy);
    ScaleOrder(z, y, w, zy, zw);
    ScaleOrder(z, w, 1.0, zw, z);
    ScaleOrder(z, -1.0, w, -z, zw);
  }

  lemma ScaleOrder(z: real, x: real, y: real, zx: real, zy: real)
    requires z > 0.0 && zx == z * x && zy == z * y
    ensures x <= y ==> zx <= zy
  {
    if x <= y {
      MulMonotone(x, y, z);
    }
  }

  // --- The whole edge ---

  /** The heights cover a point. */
  ghost predicate Holds(h: Heights, z: real) {
    h.lo <= z <= h.hi
  }

  lemma WidenKeeps(h: Heights, a: Vec, b: Vec, p: Vec)
    ensures WidenBy(h, a, b, p).lo <= h.lo && h.hi <= WidenBy(h, a, b, p).hi
    ensures InsideEdge(a, b, p) ==> Holds(WidenBy(h, a, b, p), Clamp(p.z))
  {
  }

  lemma ClampUnit(p: Vec)
    requires Unit(p)
    ensures Clamp(p.z) == p.z && Clamp(-p.z) == -p.z
  {
    UnitCoordinates(p);
  }

  lemma EdgeByTop(a: Vec, b: Vec, p: Vec, s: real, t: real, len: real, top: Vec) returns (x: real, y: real, c: real, w: real)
    requires Unit(a) && Unit(b) && OnArc(p, s, a, t, b) && DownhillLen(Cross(a, b), len)
    requires top == Top(Cross(a, b), len)
    ensures EdgeScalars(a, b, p, s, t, top, x, y, c, w) && top.z > 0.0
    ensures a.z == top.z * x && b.z == top.z * y && p.z == top.z * w
  {
    NormalNonzero(Cross(a, b), len);
    HeightsOnEdge(a, b, p, s, t, len);
    x, y, c, w := ScalarsOfEdge(a, b, p, s, t, top);
  }

  /** A point of the edge is as high as the top if that is inside the edge, and
      else no higher than the ends; and so for the lowest point. */
  lemma EdgeLimits(a: Vec, b: Vec, p: Vec, s: real, t: real, len: real, top: Vec)
    requires Unit(a) && Unit(b) && OnArc(p, s, a, t, b) && DownhillLen(Cross(a, b), len)
    requires top == Top(Cross(a, b), len) && Unit(top)
    ensures if InsideEdge(a, b, top) then p.z <= top.z else p.z <= Max(a.z, b.z)
    ensures if InsideEdge(a, b, Negate(top)) then p.z >= -top.z else p.z >= Min(a.z, b.z)
  {
    var x, y, c, w := EdgeByTop(a, b, p, s, t, len, top);
    EdgeBelow(a, b, p, s, t, top, x, y, c, w);
    EdgeAbove(a, b, p, s, t, top, x, y, c, w);
    ScaleHeights(top.z, w, x, y, p.z, a.z, b.z);
  }

  lemma EdgeWithTop(h: Heights, a: Vec, b: Vec, p: Vec, s: real, t: real, len: real)
    requires Unit(a) && Unit(b) && OnArc(p, s, a, t, b) && DownhillLen(Cross(a, b), len)
    requires Holds(h, a.z) && Holds(h, b.z)
    ensures var top := Top(Cross(a, b), len);
            Holds(WidenBy(WidenBy(h, a, b, top), a, b, Negate(top)), p.z)
  {
    var top := Top(Cross(a, b), len);
    TopIsUnit(Cross(a, b), len);
    EdgeLimits(a, b, p, s, t, len, top);
    ClampUnit(top);
    WithinWidened(h, a, b, top, p.z);
  }

  lemma WithinWidened(h: Heights, a: Vec, b: Vec, top: Vec, z: real)
    requires Holds(h, a.z) && Holds(h, b.z) && Clamp(top.z) == top.z && Clamp(-top.z) == -top.z
    requires if InsideEdge(a, b, top) then z <= top.z else z <= Max(a.z, b.z)
    requires if InsideEdge(a, b, Negate(top)) then z >= -top.z else z >= Min(a.z, b.z)
    ensures Holds(WidenBy(WidenBy(h, a, b, top), a, b, Negate(top)), z)
  {
    WidenKeeps(h, a, b, top);
    WidenKeeps(WidenBy(h, a, b, top), a, b, Negate(top));
  }

  lemma EqualUnits(a: Vec, b: Vec)
    requires Unit(a) && Unit(b) && Dot(a, b) == 1.0
    ensures a == b
  {
    var d := Vec(a.x - b.x, a.y - b.y, a.z - b.z);
    assert Dot(d, d) == Dot(a, a) + Dot(b, b) - 2.0 * Dot(a, b);
    if d != ZERO {
      NormPositive(d);
    }
  }

  lemma OppositeUnits(a: Vec, b: Vec)
    requires Unit(a) && Unit(b) && Dot(a, b) == -1.0
    ensures b == Negate(a)
  {
    DotNegate(b, a);
    DotSymmetric(a, b);
    EqualUnits(b, Negate(a));
  }

  lemma SquareIsOne(c: real)
    requires c * c == 1.0
    ensures c == 1.0 || c == -1.0
  {
    assert (c - 1.0) * (c + 1.0) == 0.0;
  }

  /** An edge without a plane is a single point. */
  lemma PointEdge(a: Vec, b: Vec, p: Vec, s: real, t: real)
    requires Unit(a) && Unit(b) && b != Negate(a) && OnArc(p, s, a, t, b) && Cross(a, b) == ZERO
    ensures p == a
  {
    NormalLength(a, b);
    SquareIsOne(Dot(a, b));
    if Dot(a, b) == -1.0 {
      OppositeUnits(a, b);
    }
    EqualUnits(a, b);
    UnitShares(p, s, a, t, b);
    SumIsOne(s, t, Dot(a, b));
    WholeShare(p, s, a, t);
  }

  lemma SumIsOne(s: real, t: real, c: real)
    requires s >= 0.0 && t >= 0.0 && c == 1.0 && s * s + t * t + 2.0 * (s * t * c) == 1.0
    ensures s + t == 1.0
  {
    var w := s + t;
    assert w * w == 1.0;
    RootAtLeastOne(w, w * w);
    RootAtMostOne(w, w * w);
  }

  lemma WholeShare(p: Vec, s: real, a: Vec, t: real)
    requires Combines(p, s, a, t, a) && s + t == 1.0
    ensures p == a
  {
    assert (s + t) * a.x == a.x && (s + t) * a.y == a.y && (s + t) * a.z == a.z;
  }

  lemma BothZero(nn: real, x: real, y: real)
    requires nn > 0.0 && nn * (x * x + y * y) == 0.0
    ensures x == 0.0 && y == 0.0
  {
    var flat := x * x + y * y;
    ZeroFactor(nn, flat);
    if x != 0.0 || y != 0.0 {
      PlanePositive(x, y, flat);
    }
  }

  lemma FlatNormal(n: Vec, q: Vec)
    requires n.x == 0.0 && n.y == 0.0 && n != ZERO && Dot(q, n) == 0.0
    ensures q.z == 0.0
  {
    assert q.x * n.x == 0.0 && q.y * n.y == 0.0;
    EqualFactor(q.z, 0.0, n.z);
  }

  /** An edge on the equator stays at height zero. */
  lemma FlatEdge(n: Vec, q: Vec)
    requires n != ZERO && Dot(Downhill(n), Downhill(n)) == 0.0 && Dot(q, n) == 0.0
    ensures q.z == 0.0
  {
    DownhillLength(n);
    NormPositive(n);
    BothZero(Dot(n, n), n.x, n.y);
    FlatNormal(n, q);
  }

  lemma ZeroFactor(x: real, y: real)
    requires x > 0.0 && x * y == 0.0
    ensures y == 0.0
  {
  }

  /** Every point of the edge lies between the heights, wherever the great
      circle's highest and lowest points fall. */
  lemma EdgeWithinHeights(root: real -> real, h: Heights, a: Vec, b: Vec, p: Vec, s: real, t: real)
    requires IsRoot(root) && Unit(a) && Unit(b) && b != Negate(a) && OnArc(p, s, a, t, b)
    requires Holds(h, a.z) && Holds(h, b.z)
    ensures Holds(WidenByEdge(root, h, a, b), p.z)
  {
    var n := Cross(a, b);
    var d := Downhill(n);
    DotNonneg(d);
    var len := root(Dot(d, d));
    if len > 0.0 {
      EdgeWithTop(h, a, b, p, s, t, len);
    } else if n == ZERO {
      PointEdge(a, b, p, s, t);
    } else {
      assert Dot(d, d) == 0.0;
      OwnNormal(a, b);
      PlaneNormal(p, s, a, t, b);
      FlatEdge(n, a);
      FlatEdge(n, p);
    }
  }

  // --- The heights are reached ---

  lemma CrossOfCombination(n: Vec, x: Vec, s: real, a: Vec, t: real, b: Vec)
    requires Combines(x, s, a, t, b)
    ensures Combines(Cross(n, x), s, Cross(n, a), t, Cross(n, b))
  {
    CrossTerm(n.y, n.z, s, t, a.y, a.z, b.y, b.z, x.y, x.z);
    CrossTerm(n.z, n.x, s, t, a.z, a.x, b.z, b.x, x.z, x.x);
    CrossTerm(n.x, n.y, s, t, a.x, a.y, b.x, b.y, x.x, x.y);
  }

  lemma CrossTerm(n: real, m: real, s: real, t: real, u: real, v: real, x: real, y: real, p: real, q: real)
    requires p == s * u + t * x && q == s * v + t * y
    ensures n * q - m * p == s * (n * v - m * u) + t * (n * y - m * x)
  {
    assert n * q == n * (s * v + t * y);
    assert m * p == m * (s * u + t * x);
  }

  /** One coordinate of a combination of two combinations. */
  ghost predicate Collects(r: real, y: real, na: real, x: real, nb: real, a: real, b: real, c: real) {
    r == y * na - x * nb && na == b - c * a && nb == c * b - a
  }

  lemma CollectTerm(r: real, y: real, na: real, x: real, nb: real, a: real, b: real, c: real)
    requires Collects(r, y, na, x, nb, a, b, c)
    ensures r == (x - y * c) * a + (y - x * c) * b
  {
    assert y * na == y * b - y * (c * a);
    assert x * nb == x * (c * b) - x * a;
  }

  lemma CollectsTerm(r: real, y: real, na: real, x: real, nb: real, a: real, b: real, c: real)
    requires r == y * na + -x * nb && na == 1.0 * b + -c * a && nb == c * b + -1.0 * a
    ensures Collects(r, y, na, x, nb, a, b, c)
  {
  }

  lemma CollectsShares(r: Vec, y: real, na: Vec, x: real, nb: Vec, a: Vec, b: Vec, c: real)
    requires Combines(r, y, na, -x, nb)
    requires Combines(na, 1.0, b, -c, a) && Combines(nb, c, b, -1.0, a)
    ensures Collects(r.x, y, na.x, x, nb.x, a.x, b.x, c)
    ensures Collects(r.y, y, na.y, x, nb.y, a.y, b.y, c)
    ensures Collects(r.z, y, na.z, x, nb.z, a.z, b.z, c)
  {
    CollectsTerm(r.x, y, na.x, x, nb.x, a.x, b.x, c);
    CollectsTerm(r.y, y, na.y, x, nb.y, a.y, b.y, c);
    CollectsTerm(r.z, y, na.z, x, nb.z, a.z, b.z, c);
  }

  lemma CollectShares(r: Vec, y: real, na: Vec, x: real, nb: Vec, a: Vec, b: Vec, c: real)
    requires Collects(r.x, y, na.x, x, nb.x, a.x, b.x, c)
    requires Collects(r.y, y, na.y, x, nb.y, a.y, b.y, c)
    requires Collects(r.z, y, na.z, x, nb.z, a.z, b.z, c)
    ensures Combines(r, x - y * c, a, y - x * c, b)
  {
    CollectTerm(r.x, y, na.x, x, nb.x, a.x, b.x, c);
    CollectTerm(r.y, y, na.y, x, nb.y, a.y, b.y, c);
    CollectTerm(r.z, y, na.z, x, nb.z, a.z, b.z, c);
  }

  /** Any direction in the edge's plane, in terms of its ends. */
  lemma PlaneShares(a: Vec, b: Vec, q: Vec)
    requires Unit(a) && Unit(b) && Dot(q, Cross(a, b)) == 0.0
    ensures var n := Cross(a, b);
            Combines(Scale(Dot(n, n), q), Dot(Cross(q, b), n), a, Dot(Cross(a, q), n), b)
  {
    var n := Cross(a, b);
    var u, v, x, y, c := CosineShares(a, b, q);
    var r := Cross(n, Cross(q, n));
    TripleProductRight(n, q, n);
    DotSymmetric(q, n);
    SameShares(r, Dot(n, n), Dot(n, n), q, -Dot(n, q), 0.0, n);
    ScaledBack(r, Dot(n, n), q, n);
    TripleProductRight(q, a, b);
    SameShares(Cross(q, n), Dot(q, b), y, a, -Dot(q, a), -x, b);
    CrossOfCombination(n, Cross(q, n), y, a, -x, b);
    TripleProduct(a, b, a);
    TripleProduct(a, b, b);
    SameShares(Cross(n, a), Dot(a, a), 1.0, b, -Dot(b, a), -c, a);
    SameShares(Cross(n, b), Dot(a, b), c, b, -Dot(b, b), -1.0, a);
    CollectsShares(r, y, Cross(n, a), x, Cross(n, b), a, b, c);
    CollectShares(r, y, Cross(n, a), x, Cross(n, b), a, b, c);
    SameShares(r, x - y * c, u, a, y - x * c, v, b);
  }

  /** The inside test's two values, by the cosines of `p` with the ends. */
  lemma CosineShares(a: Vec, b: Vec, p: Vec) returns (u: real, v: real, x: real, y: real, c: real)
    requires Unit(a) && Unit(b)
    ensures u == Dot(Cross(p, b), Cross(a, b)) && v == Dot(Cross(a, p), Cross(a, b))
    ensures x == Dot(a, p) == Dot(p, a) && y == Dot(b, p) == Dot(p, b) && c == Dot(a, b) == Dot(b, a)
    ensures u == x - y * c && v == y - x * c
  {
    u, v := Dot(Cross(p, b), Cross(a, b)), Dot(Cross(a, p), Cross(a, b));
    x, y, c := Dot(a, p), Dot(b, p), Dot(a, b);
    InsideInCosines(a, b, p);
    DotSymmetric(p, a);
    DotSymmetric(p, b);
    DotSymmetric(b, a);
  }

  lemma SameShares(v: Vec, s: real, s': real, a: Vec, t: real, t': real, b: Vec)
    requires Combines(v, s, a, t, b) && s == s' && t == t'
    ensures Combines(v, s', a, t', b)
  {
  }

  lemma ScaledBack(r: Vec, nn: real, q: Vec, n: Vec)
    requires Combines(r, nn, q, 0.0, n)
    ensures r == Scale(nn, q)
  {
  }

  /** A unit direction inside the edge is a point of it. */
  lemma InsideIsOnEdge(a: Vec, b: Vec, q: Vec) returns (s: real, t: real)
    requires Unit(a) && Unit(b) && Unit(q) && Dot(q, Cross(a, b)) == 0.0
    requires InsideEdge(a, b, q) && Dot(Cross(a, b), Cross(a, b)) > 0.0
    ensures OnArc(q, s, a, t, b)
  {
    PlaneShares(a, b, q);
    var n := Cross(a, b);
    var nn, u, v := Dot(n, n), Dot(Cross(q, b), n), Dot(Cross(a, q), n);
    s, t := u / nn, v / nn;
    DividedShares(q, nn, u, a, v, b, s, t);
  }

  lemma DividedShares(q: Vec, nn: real, u: real, a: Vec, v: real, b: Vec, s: real, t: real)
    requires nn > 0.0 && u > 0.0 && v > 0.0 && s == u / nn && t == v / nn
    requires Combines(Scale(nn, q), u, a, v, b)
    ensures s >= 0.0 && t >= 0.0 && Combines(q, s, a, t, b)
  {
    assert s * nn == u && t * nn == v;
    DividedTerm(q.x, nn, u, a.x, v, b.x, s, t);
    DividedTerm(q.y, nn, u, a.y, v, b.y, s, t);
    DividedTerm(q.z, nn, u, a.z, v, b.z, s, t);
    if s < 0.0 {
      MulPositive(-s, nn, -s * nn);
    }
    if t < 0.0 {
      MulPositive(-t, nn, -t * nn);
    }
  }

  lemma DividedTerm(q: real, nn: real, u: real, a: real, v: real, b: real, s: real, t: real)
    requires nn > 0.0 && s * nn == u && t * nn == v && nn * q == u * a + v * b
    ensures q == s * a + t * b
  {
    assert u * a == (s * nn) * a;
    assert v * b == (t * nn) * b;
    assert (s * a + t * b) * nn == q * nn;
    EqualFactor(q, s * a + t * b, nn);
  }

  /** The top lies in the edge's plane. */
  lemma TopInPlane(n: Vec, len: real)
    requires DownhillLen(n, len)
    ensures Dot(Top(n, len), n) == 0.0 && Dot(Negate(Top(n, len)), n) == 0.0
  {
    DotTop(n, n, len);
    DownhillIdentity(n, n);
    DotSymmetric(Top(n, len), n);
    DotNegate(n, Top(n, len));
    DotSymmetric(Negate(Top(n, len)), n);
    EqualFactor(Dot(n, Top(n, len)), 0.0, len);
  }

  /** Some point of the edge has height `z`. */
  ghost predicate Reached(a: Vec, b: Vec, z: real) {
    exists p: Vec, s: real, t: real :: OnArc(p, s, a, t, b) && p.z == z
  }

  lemma InsideReached(a: Vec, b: Vec, p: Vec)
    requires Unit(a) && Unit(b) && Unit(p) && Dot(p, Cross(a, b)) == 0.0 && Dot(Cross(a, b), Cross(a, b)) > 0.0
    requires InsideEdge(a, b, p)
    ensures Reached(a, b, Clamp(p.z))
  {
    ClampUnit(p);
    var s, t := InsideIsOnEdge(a, b, p);
  }

  lemma WidenReached(h: Heights, a: Vec, b: Vec, p: Vec)
    requires Unit(a) && Unit(b) && Unit(p) && Dot(p, Cross(a, b)) == 0.0 && Dot(Cross(a, b), Cross(a, b)) > 0.0
    ensures WidenBy(h, a, b, p).lo == h.lo || Reached(a, b, WidenBy(h, a, b, p).lo)
    ensures WidenBy(h, a, b, p).hi == h.hi || Reached(a, b, WidenBy(h, a, b, p).hi)
  {
    if InsideEdge(a, b, p) {
      InsideReached(a, b, p);
    }
  }

  /** Widening by an edge moves a bound only to a height the edge reaches, so
      the bounds are no wider than the edges need. */
  lemma EdgeHeightsReached(root: real -> real, h: Heights, a: Vec, b: Vec)
    requires IsRoot(root) && Unit(a) && Unit(b)
    ensures WidenByEdge(root, h, a, b).lo == h.lo || Reached(a, b, WidenByEdge(root, h, a, b).lo)
    ensures WidenByEdge(root, h, a, b).hi == h.hi || Reached(a, b, WidenByEdge(root, h, a, b).hi)
  {
    var n := Cross(a, b);
    DotNonneg(Downhill(n));
    var len := root(Dot(Downhill(n), Downhill(n)));
    if len > 0.0 {
      var top := Top(n, len);
      TopIsUnit(n, len);
      TopInPlane(n, len);
      NormalNonzero(n, len);
      DotNegate(top, top);
      WidenReached(h, a, b, top);
      WidenReached(WidenBy(h, a, b, top), a, b, Negate(top));
    }
  }
}
