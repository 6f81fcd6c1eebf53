/** Polygon features through the flat form and back: the R side's flattening,
    and the regrouping that undoes it. */
module Regions {
  import opened Sequences
  import opened Results
  import opened Flattening

  /** What the R side passes: coordinates, cumulative ring offsets, each ring's
      part and whether it is the outer one, and each part's feature. */
  datatype Bundle = Bundle(
    lon: seq<real>, lat: seq<real>, offsets: seq<nat>, partId: seq<nat>, isOuter: seq<nat>, partFeature: seq<nat>)

  // --- Flattening ---

  /** The parts' rings in order, each with its part. */
  function RingsOf(parts: seq<Part>): seq<(Part, Ring)> {
    if parts == [] then []
    else
      var last := parts[|parts| - 1];
      RingsOf(parts[..|parts| - 1]) + seq(|last.rings|, i requires 0 <= i < |last.rings| => (last, last.rings[i]))
  }

  /** The coordinate table of the rings. */
  function RowsOf(rings: seq<(Part, Ring)>): seq<Row> {
    if rings == [] then []
    else
      var (p, r) := rings[|rings| - 1];
      RowsOf(rings[..|rings| - 1]) + OwnRows(p, r)
  }

  /** A ring's own rows. */
  function OwnRows(p: Part, r: Ring): seq<Row> {
    seq(|r.points|, i requires 0 <= i < |r.points| => Row(p.feature, p.id, r.id, r.points[i]))
  }

  type RingKey = (nat, int, int)
  type PartKey = (nat, int)

  function RingKeys(rows: seq<Row>): seq<RingKey> {
    seq(|rows|, i requires 0 <= i < |rows| => (rows[i].feature, rows[i].part, rows[i].ring))
  }

  function PartKeys(rows: seq<Row>): seq<PartKey> {
    seq(|rows|, i requires 0 <= i < |rows| => (rows[i].feature, rows[i].part))
  }

  function MaxOf(x: seq<nat>): (m: nat)
    ensures forall i :: 0 <= i < |x| ==> x[i] <= m
    ensures x != [] ==> m in x
  {
    if x == [] then 0
    else
      var m, last := MaxOf(x[..|x| - 1]), x[|x| - 1];
      assert x == x[..|x| - 1] + [last];
      if m >= last && |x| > 1 then m else last
  }

  /** Entry `i`, where it exists. */
  function EntryOr(x: seq<nat>, i: nat): nat {
    if i < |x| then x[i] else 0
  }

  function FeatureAt(rows: seq<Row>, i: nat): nat {
    if i < |rows| then rows[i].feature else 0
  }

  /** The part of each ring's first row. */
  function RingPartIds(rowPartId: seq<nat>, offsets: seq<nat>): (ids: seq<nat>)
    requires offsets != []
    ensures |ids| == |offsets| - 1
    ensures forall k :: 0 <= k < |ids| ==> ids[k] == EntryOr(rowPartId, offsets[k])
  {
    seq(|offsets| - 1, k requires 0 <= k < |offsets| - 1 => EntryOr(rowPartId, offsets[k]))
  }

  /** The feature of part `m`'s first row. */
  function FeatureOfPart(rows: seq<Row>, rowPartId: seq<nat>, m: nat): nat {
    var first := Match(m, rowPartId);
    FeatureAt(rows, if first > 0 then first - 1 else |rows|)
  }

  function PartFeatures(rows: seq<Row>, rowPartId: seq<nat>): (f: seq<nat>)
    ensures |f| == MaxOf(rowPartId)
    ensures forall m :: 0 <= m < |f| ==> f[m] == FeatureOfPart(rows, rowPartId, m + 1)
  {
    seq(MaxOf(rowPartId), (m: nat) => FeatureOfPart(rows, rowPartId, m + 1))
  }

  function Lons(rows: seq<Row>): seq<real> {
    seq(|rows|, i requires 0 <= i < |rows| => rows[i].point.0)
  }

  function Lats(rows: seq<Row>): seq<real> {
    seq(|rows|, i requires 0 <= i < |rows| => rows[i].point.1)
  }

  /** The flattening: runs of ring groups give the offsets, first-seen part
      groups number the parts, and a part's first ring is its outer one. */
  function Flatten(rows: seq<Row>): Bundle {
    var ringGroup := Groups(RingKeys(rows));
    var rowPartId := Groups(PartKeys(rows));
    var offsets := Offsets(RunLengths(ringGroup));
    var ringPartId := RingPartIds(rowPartId, offsets);
    Bundle(Lons(rows), Lats(rows), offsets, ringPartId, FirstSeen(ringPartId), PartFeatures(rows, rowPartId))
  }

  // --- Regrouping ---

  /** Ring `i`'s points, by its offsets. */
  function RingPoints(b: Bundle, i: nat): seq<Point>
    requires i + 1 < |b.offsets|
  {
    if b.offsets[i] <= b.offsets[i + 1] <= |b.lon| && |b.lon| == |b.lat| then
      seq(b.offsets[i + 1] - b.offsets[i],
          j requires 0 <= j < b.offsets[i + 1] - b.offsets[i] => (b.lon[b.offsets[i] + j], b.lat[b.offsets[i] + j]))
    else []
  }

  /** Offsets ascend and stay within the coordinates. */
  ghost predicate OffsetsFit(b: Bundle) {
    && |b.lon| == |b.lat|
    && (forall i :: 0 <= i < |b.offsets| ==> b.offsets[i] <= |b.lon|)
    && (forall i :: 0 < i < |b.offsets| ==> b.offsets[i - 1] <= b.offsets[i])
  }

  method SplitRings(b: Bundle) returns (out: seq<seq<Point>>)
    requires OffsetsFit(b)
    ensures |out| == if |b.offsets| == 0 then 0 else |b.offsets| - 1
    ensures forall i :: 0 <= i < |out| ==> out[i] == RingPoints(b, i)
  {
    var n := if |b.offsets| == 0 then 0 else |b.offsets| - 1;
    out := [];
    for i := 0 to n
      invariant |out| == i
      invariant forall k :: 0 <= k < i ==> out[k] == RingPoints(b, k)
    {
      var start, end := b.offsets[i], b.offsets[i + 1];
      var ring: seq<Point> := [];
      for j := start to end
        invariant |ring| == j - start
        invariant forall k :: 0 <= k < |ring| ==> ring[k] == (b.lon[start + k], b.lat[start + k])
      {
        ring := ring + [(b.lon[j], b.lat[j])];
      }
      assert ring == RingPoints(b, i);
      out := out + [ring];
    }
  }

  /** The last outer ring of part `p` among the rings given. */
  function OuterOf<R>(rings: seq<R>, partId: seq<nat>, isOuter: seq<nat>, p: nat): Option<R>
    requires |rings| == |partId| == |isOuter|
  {
    if rings == [] then None
    else
      var last := |rings| - 1;
      if partId[last] == p && isOuter[last] != 0 then Some(rings[last])
      else OuterOf(rings[..last], partId[..last], isOuter[..last], p)
  }

  /** The holes of part `p`, in order. */
  function HolesOf<R>(rings: seq<R>, partId: seq<nat>, isOuter: seq<nat>, p: nat): seq<R>
    requires |rings| == |partId| == |isOuter|
  {
    if rings == [] then []
    else
      var last := |rings| - 1;
      HolesOf(rings[..last], partId[..last], isOuter[..last], p)
      + if partId[last] == p && isOuter[last] == 0 then [rings[last]] else []
  }

  /** Part `p` as `[outer, holes...]`; no rings without an outer one. */
  function PartRings<R>(rings: seq<R>, partId: seq<nat>, isOuter: seq<nat>, p: nat): seq<R>
    requires |rings| == |partId| == |isOuter|
  {
    match OuterOf(rings, partId, isOuter, p)
    case None => []
    case Some(outer) => [outer] + HolesOf(rings, partId, isOuter, p)
  }

  method GroupParts<R>(rings: seq<R>, partId: seq<nat>, isOuter: seq<nat>, nParts: nat) returns (parts: seq<seq<R>>)
    requires |rings| == |partId| == |isOuter|
    requires forall i :: 0 <= i < |partId| ==> 1 <= partId[i] <= nParts
    ensures |parts| == nParts
    ensures forall p :: 0 <= p < nParts ==> parts[p] == PartRings(rings, partId, isOuter, p + 1)
  {
    var outers: seq<Option<R>> := seq(nParts, _ => None);
    var holes: seq<seq<R>> := seq(nParts, _ => []);
    for i := 0 to |rings|
      invariant |outers| == |holes| == nParts
      invariant forall p :: 0 <= p < nParts ==>
                  && outers[p] == OuterOf(rings[..i], partId[..i], isOuter[..i], p + 1)
                  && holes[p] == HolesOf(rings[..i], partId[..i], isOuter[..i], p + 1)
    {
      assert rings[..i + 1][..i] == rings[..i] && partId[..i + 1][..i] == partId[..i] && isOuter[..i + 1][..i] == isOuter[..i];
      var p := partId[i] - 1;
      if isOuter[i] != 0 {
        outers := outers[p := Some(rings[i])];
      } else {
        holes := holes[p := holes[p] + [rings[i]]];
      }
    }
    assert rings[..|rings|] == rings && partId[..|rings|] == partId && isOuter[..|rings|] == isOuter;
    parts := Assemble(outers, holes);
  }

  /** Each outer ring followed by its holes. */
  method Assemble<R>(outers: seq<Option<R>>, holes: seq<seq<R>>) returns (parts: seq<seq<R>>)
    requires |outers| == |holes|
    ensures |parts| == |outers|
    ensures forall p :: 0 <= p < |parts| ==>
              parts[p] == match outers[p] case None => [] case Some(outer) => [outer] + holes[p]
  {
    parts := [];
    for p := 0 to |outers|
      invariant |parts| == p
      invariant forall k :: 0 <= k < p ==>
                  parts[k] == match outers[k] case None => [] case Some(outer) => [outer] + holes[k]
    {
      match outers[p]
      case None => parts := parts + [[]];
      case Some(outer) => parts := parts + [[outer] + holes[p]];
    }
  }

  // --- The round trip ---

  function PartKeyOf(p: Part): PartKey {
    (p.feature, p.id)
  }

  /** Parts told apart by feature and id, rings by id within their part, and
      nothing empty. */
  ghost predicate GoodParts(parts: seq<Part>) {
    && (forall i, j :: 0 <= i < j < |parts| ==> PartKeyOf(parts[i]) != PartKeyOf(parts[j]))
    && forall i :: 0 <= i < |parts| ==> GoodPart(parts[i])
  }

  ghost predicate GoodPart(p: Part) {
    && p.rings != []
    && (forall i, j :: 0 <= i < j < |p.rings| ==> p.rings[i].id != p.rings[j].id)
    && forall i :: 0 <= i < |p.rings| ==> p.rings[i].points != []
  }

  function RingCounts(parts: seq<Part>): seq<nat> {
    seq(|parts|, i requires 0 <= i < |parts| => |parts[i].rings|)
  }

  function PointCounts(rings: seq<(Part, Ring)>): seq<nat> {
    seq(|rings|, i requires 0 <= i < |rings| => |rings[i].1.points|)
  }

  function RingKeyOf(r: (Part, Ring)): RingKey {
    (r.0.feature, r.0.id, r.1.id)
  }

  function OwnersOf(rings: seq<(Part, Ring)>): seq<Part> {
    seq(|rings|, i requires 0 <= i < |rings| => rings[i].0)
  }

  /** Each ring's part: the parts, each as often as it has rings. */
  lemma {:induction false} OwnersRepeat(parts: seq<Part>)
    ensures OwnersOf(RingsOf(parts)) == Repeat(parts, RingCounts(parts))
  {
    if parts != [] {
      var n := |parts| - 1;
      OwnersRepeat(parts[..n]);
      assert RingCounts(parts)[..n] == RingCounts(parts[..n]);
      var own := seq(|parts[n].rings|, i requires 0 <= i < |parts[n].rings| => (parts[n], parts[n].rings[i]));
      assert OwnersOf(RingsOf(parts[..n]) + own) == OwnersOf(RingsOf(parts[..n])) + OwnersOf(own);
      assert OwnersOf(own) == Times(parts[n], |parts[n].rings|);
    }
  }

  /** Each row's ring, as its keys. */
  lemma {:induction false} RingKeysRepeat(rings: seq<(Part, Ring)>)
    ensures RingKeys(RowsOf(rings)) == Repeat(Mapped(RingKeyOf, rings), PointCounts(rings))
  {
    if rings != [] {
      var n := |rings| - 1;
      RingKeysRepeat(rings[..n]);
      var own := OwnRows(rings[n].0, rings[n].1);
      assert PointCounts(rings)[..n] == PointCounts(rings[..n]);
      assert Mapped(RingKeyOf, rings)[..n] == Mapped(RingKeyOf, rings[..n]);
      assert RingKeys(RowsOf(rings[..n]) + own) == RingKeys(RowsOf(rings[..n])) + RingKeys(own);
      assert RingKeys(own) == Times(RingKeyOf(rings[n]), |own|);
    }
  }

  /** And its part's. */
  lemma {:induction false} PartKeysRepeat(rings: seq<(Part, Ring)>)
    ensures PartKeys(RowsOf(rings)) == Repeat(Mapped(PartKeyOf, OwnersOf(rings)), PointCounts(rings))
  {
    if rings != [] {
      var n := |rings| - 1;
      PartKeysRepeat(rings[..n]);
      var own := OwnRows(rings[n].0, rings[n].1);
      assert PointCounts(rings)[..n] == PointCounts(rings[..n]);
      assert Mapped(PartKeyOf, OwnersOf(rings))[..n] == Mapped(PartKeyOf, OwnersOf(rings[..n]));
      assert PartKeys(RowsOf(rings[..n]) + own) == PartKeys(RowsOf(rings[..n])) + PartKeys(own);
      assert PartKeys(own) == Times(PartKeyOf(rings[n].0), |own|);
    }
  }

  lemma {:induction false} OwnersAreParts(parts: seq<Part>, i: nat)
    requires i < |RingsOf(parts)|
    ensures RingsOf(parts)[i].0 in parts && RingsOf(parts)[i].1 in RingsOf(parts)[i].0.rings
  {
    var n := |parts| - 1;
    if i < |RingsOf(parts[..n])| {
      OwnersAreParts(parts[..n], i);
    }
  }

  /** No two rings share a key. */
  lemma {:induction false} RingKeysDistinct(parts: seq<Part>)
    requires GoodParts(parts)
    ensures Distinct(Mapped(RingKeyOf, RingsOf(parts)))
  {
    if parts != [] {
      var n := |parts| - 1;
      assert GoodParts(parts[..n]);
      RingKeysDistinct(parts[..n]);
      var before, rings := RingsOf(parts[..n]), RingsOf(parts);
      forall i, j | 0 <= i < j < |rings| ensures RingKeyOf(rings[i]) != RingKeyOf(rings[j]) {
        if j < |before| {
          assert Mapped(RingKeyOf, before)[i] != Mapped(RingKeyOf, before)[j];
        } else if i < |before| {
          OwnersAreParts(parts[..n], i);
          var k :| 0 <= k < n && parts[..n][k] == before[i].0;
          assert PartKeyOf(parts[k]) != PartKeyOf(parts[n]);
        } else {
          assert GoodPart(parts[n]);
        }
      }
    }
  }

  lemma PointsPositive(parts: seq<Part>)
    requires GoodParts(parts)
    ensures Positive(PointCounts(RingsOf(parts))) && Positive(RingCounts(parts))
  {
    forall i | 0 <= i < |RingsOf(parts)| ensures |RingsOf(parts)[i].1.points| > 0 {
      OwnersAreParts(parts, i);
      var k :| 0 <= k < |parts| && parts[k] == RingsOf(parts)[i].0;
      assert GoodPart(parts[k]);
    }
    forall i | 0 <= i < |parts| ensures |parts[i].rings| > 0 {
      assert GoodPart(parts[i]);
    }
  }

  lemma PartKeysDistinct(parts: seq<Part>)
    requires GoodParts(parts)
    ensures Distinct(Mapped(PartKeyOf, parts))
  {
  }

  /** Part numbers per ring: part `m` as often as it has rings. */
  function Numbered(parts: seq<Part>): seq<nat> {
    Repeat(Iota(|parts|), RingCounts(parts))
  }

  /** Row by row, the groups found are the rings and parts in order. */
  lemma GroupsFound(parts: seq<Part>)
    requires GoodParts(parts)
    ensures var rings := RingsOf(parts);
            && |Numbered(parts)| == |rings|
            && Groups(RingKeys(RowsOf(rings))) == Repeat(Iota(|rings|), PointCounts(rings))
            && Groups(PartKeys(RowsOf(rings))) == Repeat(Numbered(parts), PointCounts(rings))
  {
    var rings := RingsOf(parts);
    RingKeysRepeat(rings);
    PartKeysRepeat(rings);
    RingKeysDistinct(parts);
    PointsPositive(parts);
    GroupsOfRepeat(Mapped(RingKeyOf, rings), PointCounts(rings));
    OwnersRepeat(parts);
    MapRepeat(PartKeyOf, parts, RingCounts(parts));
    PartKeysDistinct(parts);
    GroupsOfNested(Mapped(PartKeyOf, parts), RingCounts(parts), PointCounts(rings));
  }

  /** The offsets are the running totals of the rings' sizes. */
  lemma OffsetsFound(parts: seq<Part>)
    requires GoodParts(parts)
    ensures Flatten(RowsOf(RingsOf(parts))).offsets == Offsets(PointCounts(RingsOf(parts)))
  {
    var rings := RingsOf(parts);
    GroupsFound(parts);
    PointsPositive(parts);
    RunsOfRepeat(Iota(|rings|), PointCounts(rings));
  }

  lemma {:induction false} OffsetsGrow(times: seq<nat>, k: nat)
    requires k < |times|
    ensures Offsets(times)[k + 1] == Offsets(times)[k] + times[k]
    ensures Offsets(times)[k + 1] <= Offsets(times)[|times|]
    decreases |times|
  {
    OffsetsPrefix(times);
    if k < |times| - 1 {
      OffsetsGrow(times[..|times| - 1], k);
    }
  }

  /** Each ring is numbered with its part. */
  lemma PartIdsFound(parts: seq<Part>)
    requires GoodParts(parts)
    ensures Flatten(RowsOf(RingsOf(parts))).partId == Numbered(parts)
  {
    var rings := RingsOf(parts);
    var lens := PointCounts(rings);
    GroupsFound(parts);
    OffsetsFound(parts);
    PointsPositive(parts);
    var rowPartId := Groups(PartKeys(RowsOf(rings)));
    forall k | 0 <= k < |rings| ensures EntryOr(rowPartId, Offsets(lens)[k]) == Numbered(parts)[k] {
      OffsetsGrow(lens, k);
      RepeatAt(Numbered(parts), lens, k, Offsets(lens)[k]);
    }
    assert Flatten(RowsOf(rings)).partId == RingPartIds(rowPartId, Offsets(lens));
  }

  lemma {:induction false} RowCount(rings: seq<(Part, Ring)>)
    ensures |RowsOf(rings)| == Offsets(PointCounts(rings))[|rings|]
  {
    if rings != [] {
      var n := |rings| - 1;
      RowCount(rings[..n]);
      assert PointCounts(rings)[..n] == PointCounts(rings[..n]);
    }
  }

  /** A ring's rows are its points, in its stretch of the table. */
  lemma {:induction false} RowPoint(rings: seq<(Part, Ring)>, k: nat, j: nat)
    requires k < |rings| && j < |rings[k].1.points|
    ensures var i := Offsets(PointCounts(rings))[k] + j;
            i < |RowsOf(rings)| && RowsOf(rings)[i].point == rings[k].1.points[j]
  {
    var n := |rings| - 1;
    assert PointCounts(rings)[..n] == PointCounts(rings[..n]);
    OffsetsPrefix(PointCounts(rings));
    RowCount(rings[..n]);
    if k < n {
      RowPoint(rings[..n], k, j);
    }
  }

  function PointsOf(r: (Part, Ring)): seq<Point> {
    r.1.points
  }

  /** A stretch of the table read as points. */
  lemma StretchPoints(rows: seq<Row>, b: Bundle, k: nat, points: seq<Point>)
    requires b.lon == Lons(rows) && b.lat == Lats(rows) && k + 1 < |b.offsets|
    requires b.offsets[k] + |points| == b.offsets[k + 1] <= |rows|
    requires forall j :: 0 <= j < |points| ==> points[j] == rows[b.offsets[k] + j].point
    ensures RingPoints(b, k) == points
  {
    forall j | 0 <= j < |points| ensures RingPoints(b, k)[j] == points[j] {
      var row := rows[b.offsets[k] + j];
      assert points[j] == row.point;
      assert b.lon[b.offsets[k] + j] == row.point.0 && b.lat[b.offsets[k] + j] == row.point.1;
    }
  }

  lemma RingSplit(rings: seq<(Part, Ring)>, b: Bundle, k: nat)
    requires k < |rings| && b.offsets == Offsets(PointCounts(rings))
    requires b.lon == Lons(RowsOf(rings)) && b.lat == Lats(RowsOf(rings))
    ensures b.offsets[k] <= b.offsets[k + 1] <= |b.lon|
    ensures RingPoints(b, k) == PointsOf(rings[k])
  {
    RowCount(rings);
    OffsetsGrow(PointCounts(rings), k);
    var points := rings[k].1.points;
    forall j | 0 <= j < |points| ensures points[j] == RowsOf(rings)[b.offsets[k] + j].point {
      RowPoint(rings, k, j);
    }
    StretchPoints(RowsOf(rings), b, k, points);
  }

  /** Splitting by the offsets gives back every ring. */
  lemma RingsSplit(rings: seq<(Part, Ring)>, b: Bundle)
    requires b.offsets == Offsets(PointCounts(rings))
    requires b.lon == Lons(RowsOf(rings)) && b.lat == Lats(RowsOf(rings))
    ensures OffsetsFit(b) && |b.offsets| == |rings| + 1
    ensures forall k :: 0 <= k < |rings| ==> RingPoints(b, k) == PointsOf(rings[k])
  {
    forall k | 0 <= k < |rings| ensures RingPoints(b, k) == PointsOf(rings[k]) {
      RingSplit(rings, b, k);
    }
    OffsetsSplit(rings, b);
  }

  lemma OffsetsSplit(rings: seq<(Part, Ring)>, b: Bundle)
    requires b.offsets == Offsets(PointCounts(rings))
    requires b.lon == Lons(RowsOf(rings)) && b.lat == Lats(RowsOf(rings))
    ensures OffsetsFit(b)
  {
    forall k | 0 < k < |b.offsets| ensures b.offsets[k - 1] <= b.offsets[k] <= |b.lon| {
      RingSplit(rings, b, k - 1);
    }
  }

  /** The parts' keys, in first-seen order, are the parts in order. */
  lemma KeysSeen(parts: seq<Part>)
    requires GoodParts(parts)
    ensures Unique(PartKeys(RowsOf(RingsOf(parts)))) == Mapped(PartKeyOf, parts)
  {
    var rings := RingsOf(parts);
    PartKeysRepeat(rings);
    PointsPositive(parts);
    OwnersRepeat(parts);
    MapRepeat(PartKeyOf, parts, RingCounts(parts));
    UniqueOfRepeat(Mapped(PartKeyOf, OwnersOf(rings)), PointCounts(rings));
    UniqueOfRepeat(Mapped(PartKeyOf, parts), RingCounts(parts));
    PartKeysDistinct(parts);
    UniqueOfDistinct(Mapped(PartKeyOf, parts));
  }

  lemma IotaMembers(n: nat)
    ensures forall m: nat :: m in Iota(n) <==> 1 <= m <= n
  {
    forall m: nat | 1 <= m <= n ensures m in Iota(n) {
      assert Iota(n)[m - 1] == m;
    }
  }

  /** Numbers repeated, each at least once, are still the same numbers. */
  lemma NumberedMembers(parts: seq<Part>, counts: seq<nat>, m: nat)
    requires GoodParts(parts)
    requires |counts| == |Numbered(parts)| && forall k :: 0 <= k < |counts| ==> counts[k] > 0
    ensures m in Repeat(Numbered(parts), counts) <==> 1 <= m <= |parts|
  {
    PointsPositive(parts);
    RepeatMembers(Numbered(parts), counts);
    RepeatMembers(Iota(|parts|), RingCounts(parts));
    IotaMembers(|parts|);
  }

  lemma RowPartsAre(parts: seq<Part>)
    requires GoodParts(parts)
    ensures var ids := Groups(PartKeys(RowsOf(RingsOf(parts))));
            && MaxOf(ids) == |parts|
            && forall m: nat :: m in ids <==> 1 <= m <= |parts|
  {
    GroupsFound(parts);
    PointsPositive(parts);
    var ids := Groups(PartKeys(RowsOf(RingsOf(parts))));
    forall m: nat ensures m in ids <==> 1 <= m <= |parts| {
      NumberedMembers(parts, PointCounts(RingsOf(parts)), m);
    }
    MaxOfRange(ids, |parts|);
  }

  lemma MaxOfRange(ids: seq<nat>, n: nat)
    requires forall m: nat :: m in ids <==> 1 <= m <= n
    ensures MaxOf(ids) == n
  {
    if n > 0 {
      assert n in ids;
      var i :| 0 <= i < |ids| && ids[i] == n;
    }
  }

  /** The first row of group `m` holds the m-th value seen. */
  lemma ValueOfGroup<T(!new)>(x: seq<T>, m: nat) returns (first: nat)
    requires m > 0 && m in Groups(x)
    ensures first == Match(m, Groups(x))
    ensures 0 < first <= |x| && m <= |Unique(x)| && x[first - 1] == Unique(x)[m - 1]
  {
    first := Match(m, Groups(x));
    assert Groups(x)[first - 1] == m;
    assert Match(x[first - 1], Unique(x)) == m;
  }

  lemma FeatureOfRow(rows: seq<Row>, ids: seq<nat>, m: nat, first: nat, key: PartKey)
    requires first == Match(m, ids) && 0 < first <= |rows| && PartKeys(rows)[first - 1] == key
    ensures FeatureOfPart(rows, ids, m) == key.0
  {
  }

  lemma FeatureOfNumber(rows: seq<Row>, m: nat)
    requires m > 0 && m in Groups(PartKeys(rows)) && m <= |Unique(PartKeys(rows))|
    ensures FeatureOfPart(rows, Groups(PartKeys(rows)), m) == Unique(PartKeys(rows))[m - 1].0
  {
    var first := ValueOfGroup(PartKeys(rows), m);
    FeatureOfRow(rows, Groups(PartKeys(rows)), m, first, Unique(PartKeys(rows))[m - 1]);
  }

  lemma FeatureFound(parts: seq<Part>, m: nat)
    requires GoodParts(parts) && m < |parts|
    ensures var rows := RowsOf(RingsOf(parts));
            FeatureOfPart(rows, Groups(PartKeys(rows)), m + 1) == parts[m].feature
  {
    RowPartsAre(parts);
    KeysSeen(parts);
    FeatureOfNumber(RowsOf(RingsOf(parts)), m + 1);
  }

  /** Each part is given its own feature. */
  lemma FeaturesFound(parts: seq<Part>, rows: seq<Row>, ids: seq<nat>)
    requires GoodParts(parts) && rows == RowsOf(RingsOf(parts)) && ids == Groups(PartKeys(rows))
    ensures |PartFeatures(rows, ids)| == |parts|
    ensures forall m :: 0 <= m < |parts| ==> PartFeatures(rows, ids)[m] == parts[m].feature
  {
    RowPartsAre(parts);
    forall m: nat | m < |parts| ensures FeatureOfPart(rows, ids, m + 1) == parts[m].feature {
      FeatureFound(parts, m);
    }
  }

  /** The flat vectors' coordinates are the rows', and a ring's points are taken
      from its own stretch of them. */
  lemma CoordinatesKept(rows: seq<Row>, i: nat)
    requires i < |rows|
    ensures Flatten(rows).lon[i] == rows[i].point.0 && Flatten(rows).lat[i] == rows[i].point.1
  {
  }

  lemma PointsTaken(b: Bundle, i: nat, j: nat)
    requires OffsetsFit(b) && i + 1 < |b.offsets| && j < b.offsets[i + 1] - b.offsets[i]
    ensures j < |RingPoints(b, i)|
    ensures RingPoints(b, i)[j] == (b.lon[b.offsets[i] + j], b.lat[b.offsets[i] + j])
  {
  }

  // --- Regrouping a block at a time ---

  lemma {:induction false} OtherPartsKept<R(!new)>(rings: seq<R>, ids: seq<nat>, outer: seq<nat>,
                                             more: seq<R>, v: nat, flags: seq<nat>, p: nat)
    requires |rings| == |ids| == |outer| && |more| == |flags| && p != v
    ensures OuterOf(rings + more, ids + Times(v, |more|), outer + flags, p) == OuterOf(rings, ids, outer, p)
    ensures HolesOf(rings + more, ids + Times(v, |more|), outer + flags, p) == HolesOf(rings, ids, outer, p)
    decreases |more|
  {
    if more == [] {
      assert rings + more == rings && ids + Times(v, 0) == ids && outer + flags == outer;
    } else {
      var n := |more| - 1;
      OtherPartsKept(rings, ids, outer, more[..n], v, flags[..n], p);
      assert (rings + more)[..|rings| + n] == rings + more[..n];
      assert (ids + Times(v, |more|))[..|rings| + n] == ids + Times(v, n);
      assert (outer + flags)[..|rings| + n] == outer + flags[..n];
    }
  }

  lemma {:induction false} AbsentPartEmpty<R(!new)>(rings: seq<R>, ids: seq<nat>, outer: seq<nat>, p: nat)
    requires |rings| == |ids| == |outer| && p !in ids
    ensures OuterOf(rings, ids, outer, p).None? && HolesOf(rings, ids, outer, p) == []
  {
    if rings != [] {
      var n := |rings| - 1;
      AbsentPartEmpty(rings[..n], ids[..n], outer[..n], p);
    }
  }

  /** All but the last ring of a block. */
  lemma BlockPrefix<R>(rings: seq<R>, ids: seq<nat>, outer: seq<nat>, more: seq<R>, v: nat, flags: seq<nat>, n: nat)
    requires |rings| == |ids| == |outer| && |more| == |flags| == n + 1
    ensures (rings + more)[..|rings| + n] == rings + more[..n]
    ensures (ids + Times(v, n + 1))[..|rings| + n] == ids + Times(v, n)
    ensures (outer + flags)[..|rings| + n] == outer + flags[..n]
    ensures n == 0 ==> rings + more[..n] == rings && ids + Times(v, n) == ids && outer + flags[..n] == outer
  {
  }

  /** A new part's block has its first ring outer. */
  lemma {:induction false} NewPartOuter<R(!new)>(rings: seq<R>, ids: seq<nat>, outer: seq<nat>,
                                             more: seq<R>, v: nat, flags: seq<nat>)
    requires |rings| == |ids| == |outer| && |more| == |flags| > 0 && v !in ids
    requires flags[0] == 1 && forall i :: 0 < i < |flags| ==> flags[i] == 0
    ensures OuterOf(rings + more, ids + Times(v, |more|), outer + flags, v) == Some(more[0])
    decreases |more|
  {
    var n := |more| - 1;
    BlockPrefix(rings, ids, outer, more, v, flags, n);
    if n > 0 {
      NewPartOuter(rings, ids, outer, more[..n], v, flags[..n]);
    }
  }

  /** And the rest holes. */
  lemma {:induction false} NewPartHoles<R(!new)>(rings: seq<R>, ids: seq<nat>, outer: seq<nat>,
                                             more: seq<R>, v: nat, flags: seq<nat>)
    requires |rings| == |ids| == |outer| && |more| == |flags| > 0 && v !in ids
    requires flags[0] == 1 && forall i :: 0 < i < |flags| ==> flags[i] == 0
    ensures HolesOf(rings + more, ids + Times(v, |more|), outer + flags, v) == more[1..]
    decreases |more|
  {
    var n := |more| - 1;
    BlockPrefix(rings, ids, outer, more, v, flags, n);
    if n == 0 {
      AbsentPartEmpty(rings, ids, outer, v);
    } else {
      NewPartHoles(rings, ids, outer, more[..n], v, flags[..n]);
      assert more[1..] == more[..n][1..] + [more[n]];
    }
  }

  lemma FirstSeenAppend(x: seq<nat>, v: nat, n: nat)
    requires v !in x && n > 0
    ensures FirstSeen(x + Times(v, n))[..|x|] == FirstSeen(x)
    ensures FirstSeen(x + Times(v, n))[|x|] == 1
    ensures forall i :: |x| < i < |x| + n ==> FirstSeen(x + Times(v, n))[i] == 0
  {
    var s := x + Times(v, n);
    forall i | 0 <= i < |x| ensures s[..i] == x[..i] {
    }
    assert s[..|x|] == x;
    forall i | |x| < i < |s| ensures s[i] in s[..i] {
      assert s[..i][|x|] == v;
    }
  }

  /** The flags of a new part's block: the first ring's set, the rest clear. */
  lemma BlockFlags(x: seq<nat>, v: nat, n: nat) returns (flags: seq<nat>)
    requires v !in x && n > 0
    ensures |flags| == n && flags[0] == 1 && forall i :: 0 < i < n ==> flags[i] == 0
    ensures FirstSeen(x + Times(v, n)) == FirstSeen(x) + flags
  {
    FirstSeenAppend(x, v, n);
    var all := FirstSeen(x + Times(v, n));
    flags := all[|x|..];
    forall i | 0 < i < n ensures flags[i] == 0 {
      assert flags[i] == all[|x| + i];
    }
  }

  function PartPoints(p: Part): seq<seq<Point>> {
    seq(|p.rings|, i requires 0 <= i < |p.rings| => p.rings[i].points)
  }

  /** Part `p` when each part's first ring is its outer one. */
  function Grouped(rings: seq<seq<Point>>, ids: seq<nat>, p: nat): seq<seq<Point>>
    requires |rings| == |ids|
  {
    PartRings(rings, ids, FirstSeen(ids), p)
  }

  /** One more part's block regrouped: the parts before are unaffected, and it
      comes back whole. */
  lemma BlockRegrouped(rings: seq<seq<Point>>, ids: seq<nat>, more: seq<seq<Point>>, v: nat, p: nat)
    requires |rings| == |ids| && |more| > 0 && v !in ids
    ensures |rings + more| == |ids + Times(v, |more|)|
    ensures Grouped(rings + more, ids + Times(v, |more|), p) == if p == v then more else Grouped(rings, ids, p)
  {
    var flags := BlockFlags(ids, v, |more|);
    BlockRings(rings, ids, FirstSeen(ids), more, v, flags, p);
  }

  lemma BlockRings<R(!new)>(rings: seq<R>, ids: seq<nat>, outer: seq<nat>, more: seq<R>, v: nat, flags: seq<nat>, p: nat)
    requires |rings| == |ids| == |outer| && |more| == |flags| > 0 && v !in ids
    requires flags[0] == 1 && forall i :: 0 < i < |flags| ==> flags[i] == 0
    ensures PartRings(rings + more, ids + Times(v, |more|), outer + flags, p)
         == if p == v then more else PartRings(rings, ids, outer, p)
  {
    if p == v {
      NewPartOuter(rings, ids, outer, more, v, flags);
      NewPartHoles(rings, ids, outer, more, v, flags);
      assert [more[0]] + more[1..] == more;
    } else {
      OtherPartsKept(rings, ids, outer, more, v, flags, p);
    }
  }

  lemma {:induction false} NumberedCount(parts: seq<Part>)
    ensures |Numbered(parts)| == |RingsOf(parts)|
  {
    OwnersRepeat(parts);
    RepeatLength(parts, RingCounts(parts));
    RepeatLength(Iota(|parts|), RingCounts(parts));
  }

  lemma GoodPrefix(parts: seq<Part>)
    requires GoodParts(parts) && parts != []
    ensures GoodParts(parts[..|parts| - 1]) && GoodPart(parts[|parts| - 1])
  {
  }

  lemma PointsGrow(parts: seq<Part>)
    requires parts != []
    ensures Mapped(PointsOf, RingsOf(parts))
            == Mapped(PointsOf, RingsOf(parts[..|parts| - 1])) + PartPoints(parts[|parts| - 1])
  {
  }

  /** Part `p` of the parts' own numbering. */
  function OwnRings(parts: seq<Part>, p: nat): seq<seq<Point>>
  {
    NumberedCount(parts);
    Grouped(Mapped(PointsOf, RingsOf(parts)), Numbered(parts), p)
  }

  lemma OwnRingsGrow(parts: seq<Part>, p: nat)
    requires GoodParts(parts) && parts != []
    ensures OwnRings(parts, p)
            == if p == |parts| then PartPoints(parts[|parts| - 1]) else OwnRings(parts[..|parts| - 1], p)
  {
    var before := parts[..|parts| - 1];
    GoodPrefix(parts);
    NumberedCount(before);
    NumberedGrows(parts);
    PointsGrow(parts);
    BlockAdded(Mapped(PointsOf, RingsOf(parts)), Numbered(parts),
               Mapped(PointsOf, RingsOf(before)), Numbered(before), PartPoints(parts[|parts| - 1]), |parts|, p);
  }

  lemma BlockAdded(allRings: seq<seq<Point>>, allIds: seq<nat>, rings: seq<seq<Point>>, ids: seq<nat>,
                   more: seq<seq<Point>>, v: nat, p: nat)
    requires |rings| == |ids| && |more| > 0 && v !in ids
    requires allRings == rings + more && allIds == ids + Times(v, |more|)
    ensures |allRings| == |allIds|
    ensures Grouped(allRings, allIds, p) == if p == v then more else Grouped(rings, ids, p)
  {
    BlockRegrouped(rings, ids, more, v, p);
  }

  /** Regrouping restores each part as its outer ring and holes, in order. */
  lemma {:induction false} PartsRegrouped(parts: seq<Part>, p: nat)
    requires GoodParts(parts) && p < |parts|
    ensures OwnRings(parts, p + 1) == PartPoints(parts[p])
  {
    OwnRingsGrow(parts, p + 1);
    if p < |parts| - 1 {
      GoodPrefix(parts);
      PartsRegrouped(parts[..|parts| - 1], p);
    }
  }

  /** The last part's rings carry a new number. */
  lemma NumberedGrows(parts: seq<Part>)
    requires GoodParts(parts) && parts != []
    ensures Numbered(parts) == Numbered(parts[..|parts| - 1]) + Times(|parts|, |parts[|parts| - 1].rings|)
    ensures |parts| !in Numbered(parts[..|parts| - 1])
  {
    var n := |parts| - 1;
    assert Iota(|parts|)[..n] == Iota(n);
    assert RingCounts(parts)[..n] == RingCounts(parts[..n]);
    assert GoodParts(parts[..n]);
    PointsPositive(parts[..n]);
    RepeatMembers(Iota(n), RingCounts(parts[..n]));
  }

  /** What flattening gives for the rings of `parts`. */
  ghost predicate FlatForm(parts: seq<Part>, b: Bundle) {
    var rings := RingsOf(parts);
    && b.offsets == Offsets(PointCounts(rings))
    && b.lon == Lons(RowsOf(rings)) && b.lat == Lats(RowsOf(rings))
    && b.partId == Numbered(parts) && b.isOuter == FirstSeen(Numbered(parts))
    && |b.partFeature| == |parts|
    && forall m :: 0 <= m < |parts| ==> b.partFeature[m] == parts[m].feature
  }

  method FlattenParts(parts: seq<Part>) returns (b: Bundle)
    requires GoodParts(parts)
    ensures b == Flatten(RowsOf(RingsOf(parts)))
    ensures FlatForm(parts, b)
  {
    b := Flatten(RowsOf(RingsOf(parts)));
    OffsetsFound(parts);
    PartIdsFound(parts);
    FeaturesFound(parts, RowsOf(RingsOf(parts)), Groups(PartKeys(RowsOf(RingsOf(parts)))));
  }

  lemma NumbersInRange(parts: seq<Part>)
    requires GoodParts(parts)
    ensures forall i :: 0 <= i < |Numbered(parts)| ==> 1 <= Numbered(parts)[i] <= |parts|
  {
    PointsPositive(parts);
    RepeatMembers(Iota(|parts|), RingCounts(parts));
    forall i | 0 <= i < |Numbered(parts)| ensures 1 <= Numbered(parts)[i] <= |parts| {
      assert Numbered(parts)[i] in Iota(|parts|);
    }
  }

  method Regroup(b: Bundle, ghost parts: seq<Part>) returns (grouped: seq<seq<seq<Point>>>)
    requires GoodParts(parts) && FlatForm(parts, b)
    ensures |grouped| == |parts|
    ensures forall p :: 0 <= p < |parts| ==> grouped[p] == PartPoints(parts[p])
  {
    RingsSplit(RingsOf(parts), b);
    NumberedCount(parts);
    NumbersInRange(parts);
    var rings := SplitRings(b);
    assert rings == Mapped(PointsOf, RingsOf(parts));
    grouped := GroupParts(rings, b.partId, b.isOuter, |b.partFeature|);
    forall p | 0 <= p < |parts| ensures grouped[p] == PartPoints(parts[p]) {
      PartsRegrouped(parts, p);
    }
  }

  /** Flattening any parts and regrouping gives back every part's rings, outer
      ring first, in order, with the feature it came from. */
  method RoundTrip(parts: seq<Part>) returns (grouped: seq<seq<seq<Point>>>, features: seq<nat>)
    requires GoodParts(parts)
    ensures |grouped| == |features| == |parts|
    ensures forall p :: 0 <= p < |parts| ==> grouped[p] == PartPoints(parts[p]) && features[p] == parts[p].feature
  {
    var b := FlattenParts(parts);
    grouped := Regroup(b, parts);
    features := b.partFeature;
  }
}
