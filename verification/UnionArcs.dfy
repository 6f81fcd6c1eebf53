/** The smallest longitude arc covering several arcs, by merging them in order
    and leaving out the largest gap. */
module UnionArcs {
  import opened Results
  import opened Longitudes
  import opened Sorting

  // --- What an arc covers ---

  /** Some arc holds `x`, without going round. */
  ghost predicate InSome(arcs: seq<Arc>, x: real) {
    exists i :: 0 <= i < |arcs| && arcs[i].start <= x <= arcs[i].end
  }

  /** `arc` holds the longitude `x`, up to whole turns. */
  ghost predicate HoldsLongitude(arc: Arc, x: real) {
    exists k: int :: arc.start <= x + Turns(k) <= arc.end
  }

  ghost predicate CoversAll(arc: Arc, arcs: seq<Arc>) {
    forall x: real :: InSome(arcs, x) ==> HoldsLongitude(arc, x)
  }

  /** Arcs as `ring_bounds` makes them: starting in [-180, 180). */
  ghost predicate GoodArcs(arcs: seq<Arc>) {
    forall i :: 0 <= i < |arcs| ==> -180.0 <= arcs[i].start < 180.0 && arcs[i].start <= arcs[i].end
  }

  // --- Merging ---

  predicate StartLe(a: Arc, b: Arc) {
    a.start <= b.start
  }

  /** Overlapping neighbours joined, in order of their starts. */
  function Merge(sorted: seq<Arc>): seq<Arc> {
    if sorted == [] then []
    else Joined(Merge(sorted[..|sorted| - 1]), sorted[|sorted| - 1])
  }

  function Joined(m: seq<Arc>, a: Arc): seq<Arc> {
    var last := |m| - 1;
    if m != [] && a.start <= m[last].end then
      m[last := m[last].(end := if m[last].end >= a.end then m[last].end else a.end)]
    else m + [a]
  }

  function Merged(arcs: seq<Arc>): seq<Arc> {
    Merge(StableSorted(arcs, StartLe))
  }

  /** Non-empty arcs, ascending, with a gap between neighbours. */
  ghost predicate Separated(m: seq<Arc>) {
    && GoodArcs(m)
    && forall i, j :: 0 <= i < j < |m| ==> m[i].end < m[j].start
  }

  lemma JoinedSeparated(m: seq<Arc>, a: Arc)
    requires Separated(m) && -180.0 <= a.start < 180.0 && a.start <= a.end
    requires m != [] ==> m[|m| - 1].start <= a.start
    ensures Separated(Joined(m, a))
    ensures Joined(m, a) != [] && Joined(m, a)[|Joined(m, a)| - 1].start <= a.start
    ensures forall x: real :: InSome(Joined(m, a), x) <==> InSome(m, x) || a.start <= x <= a.end
  {
    var j := Joined(m, a);
    var last := |m| - 1;
    forall x: real ensures InSome(j, x) <==> InSome(m, x) || a.start <= x <= a.end {
      JoinedHolds(m, a, x);
    }
  }

  lemma JoinedHolds(m: seq<Arc>, a: Arc, x: real)
    requires m != [] ==> m[|m| - 1].start <= a.start
    requires a.start <= a.end
    ensures InSome(Joined(m, a), x) <==> InSome(m, x) || a.start <= x <= a.end
  {
    var j, last := Joined(m, a), |m| - 1;
    if InSome(m, x) {
      var i :| 0 <= i < |m| && m[i].start <= x <= m[i].end;
      assert j[i].start <= x <= j[i].end;
    }
    if a.start <= x <= a.end {
      assert j[|j| - 1].start <= x <= j[|j| - 1].end;
    }
    if InSome(j, x) {
      var i :| 0 <= i < |j| && j[i].start <= x <= j[i].end;
      if i < last {
        assert m[i] == j[i];
      } else if |j| == |m| {
        assert m[last].start <= x <= m[last].end || a.start <= x <= a.end;
      }
    }
  }

  lemma {:induction false} MergeFacts(s: seq<Arc>)
    requires GoodArcs(s) && SortedBy(s, StartLe)
    ensures Separated(Merge(s))
    ensures s != [] ==> Merge(s) != [] && Merge(s)[|Merge(s)| - 1].start <= s[|s| - 1].start
    ensures forall x: real :: InSome(Merge(s), x) <==> InSome(s, x)
  {
    if s != [] {
      var rest, a := s[..|s| - 1], s[|s| - 1];
      MergeFacts(rest);
      if rest != [] {
        assert StartLe(s[|s| - 2], s[|s| - 1]);
      }
      JoinedSeparated(Merge(rest), a);
      forall x: real ensures InSome(s, x) <==> InSome(rest, x) || a.start <= x <= a.end {
        SplitLast(s, x);
      }
    }
  }

  lemma SplitLast(s: seq<Arc>, x: real)
    requires s != []
    ensures InSome(s, x) <==> InSome(s[..|s| - 1], x) || s[|s| - 1].start <= x <= s[|s| - 1].end
  {
    var rest := s[..|s| - 1];
    if InSome(rest, x) {
      var i :| 0 <= i < |rest| && rest[i].start <= x <= rest[i].end;
      assert s[i] == rest[i];
    }
    if i :| 0 <= i < |s| && s[i].start <= x <= s[i].end {
      if i < |s| - 1 {
        assert rest[i] == s[i];
      }
    }
  }

  lemma Reordered(s: seq<Arc>, t: seq<Arc>, x: real)
    requires multiset(s) == multiset(t) && InSome(s, x)
    ensures InSome(t, x)
  {
    var i :| 0 <= i < |s| && s[i].start <= x <= s[i].end;
    assert s[i] in multiset(t);
    var j :| 0 <= j < |t| && t[j] == s[i];
  }

  /** Merging keeps what the arcs cover. */
  lemma MergedFacts(arcs: seq<Arc>)
    requires GoodArcs(arcs)
    ensures Separated(Merged(arcs))
    ensures arcs != [] ==> Merged(arcs) != []
    ensures forall x: real :: InSome(Merged(arcs), x) <==> InSome(arcs, x)
  {
    StableSortedOrder(arcs, StartLe);
    StableSortedKeeps(arcs, StartLe);
    var s := StableSorted(arcs, StartLe);
    forall i | 0 <= i < |s| ensures -180.0 <= s[i].start < 180.0 && s[i].start <= s[i].end {
      assert s[i] in multiset(arcs);
    }
    assert |s| == |multiset(s)| == |multiset(arcs)| == |arcs|;
    MergeFacts(s);
    forall x: real ensures InSome(s, x) <==> InSome(arcs, x) {
      if InSome(s, x) {
        Reordered(s, arcs, x);
      }
      if InSome(arcs, x) {
        Reordered(arcs, s, x);
      }
    }
  }

  // --- Gaps ---

  /** Where the arc after the i-th starts, going round the circle. */
  function NextStart(m: seq<Arc>, i: nat): real
    requires i < |m|
  {
    if i + 1 < |m| then m[i + 1].start else m[0].start + 360.0
  }

  function Gap(m: seq<Arc>, i: nat): real
    requires i < |m|
  {
    NextStart(m, i) - m[i].end
  }

  /** The first largest gap among the first `n`. */
  function BestGap(m: seq<Arc>, n: nat): (best: nat)
    requires 0 < n <= |m|
    ensures best < n
  {
    if n == 1 then 0
    else
      var best := BestGap(m, n - 1);
      if Gap(m, n - 1) > Gap(m, best) then n - 1 else best
  }

  lemma {:induction false} BestGapIsLargest(m: seq<Arc>, n: nat)
    requires 0 < n <= |m|
    ensures forall i :: 0 <= i < n ==> Gap(m, i) <= Gap(m, BestGap(m, n))
    ensures forall i :: 0 <= i < BestGap(m, n) ==> Gap(m, i) < Gap(m, BestGap(m, n))
  {
    if n > 1 {
      BestGapIsLargest(m, n - 1);
    }
  }

  /** The arc from after gap `b` round to before it. */
  function AcrossGap(m: seq<Arc>, b: nat): Arc
    requires b < |m|
  {
    if b + 1 < |m| then Arc(m[b + 1].start, m[b].end + 360.0) else Arc(m[0].start, m[b].end)
  }

  // --- Covering ---

  lemma HoldsShifted(arc: Arc, x: real, k: int)
    ensures HoldsLongitude(arc, x + Turns(k)) <==> HoldsLongitude(arc, x)
  {
    if HoldsLongitude(arc, x) {
      var j: int :| arc.start <= x + Turns(j) <= arc.end;
      assert x + Turns(j) == (x + Turns(k)) + Turns(j - k);
    }
    if HoldsLongitude(arc, x + Turns(k)) {
      var j: int :| arc.start <= (x + Turns(k)) + Turns(j) <= arc.end;
      assert x + Turns(j + k) == (x + Turns(k)) + Turns(j);
    }
  }

  /** Nothing strictly between an arc's end and its next start is held. */
  lemma OutsideNotHeld(arc: Arc, x: real)
    requires arc.end < x < arc.start + 360.0
    ensures !HoldsLongitude(arc, x)
  {
    forall k: int ensures !(arc.start <= x + Turns(k) <= arc.end) {
      WholeTurnOrNone(k);
    }
  }

  /** The merged arcs leave the gap after the b-th one free. */
  ghost predicate GapIsFree(m: seq<Arc>, b: nat)
    requires b < |m|
  {
    b + 1 == |m| || m[|m| - 1].end <= m[b].end + 360.0
  }

  lemma AcrossGapCovers(m: seq<Arc>, b: nat)
    requires Separated(m) && b < |m| && GapIsFree(m, b)
    ensures CoversAll(AcrossGap(m, b), m)
  {
    forall x: real | InSome(m, x) ensures HoldsLongitude(AcrossGap(m, b), x) {
      var i :| 0 <= i < |m| && m[i].start <= x <= m[i].end;
      EndsAscend(m, i, b);
      EndsAscend(m, b, i);
      EndsAscend(m, i, |m| - 1);
      StartsAscend(m, 0, i);
      StartsAscend(m, b + 1, i);
      if b + 1 == |m| || i > b {
        assert x + Turns(0) == x;
      } else {
        assert x + Turns(1) == x + 360.0;
      }
    }
  }

  lemma EndsAscend(m: seq<Arc>, i: nat, j: nat)
    requires Separated(m)
    ensures i <= j < |m| ==> m[i].end <= m[j].end
  {
  }

  lemma StartsAscend(m: seq<Arc>, i: nat, j: nat)
    requires Separated(m)
    ensures i <= j < |m| ==> m[i].start <= m[j].start
  {
  }

  /** When the last arc runs on past the chosen gap's near side, some of it is
      lost. */
  lemma AcrossGapMisses(m: seq<Arc>, b: nat)
    requires Separated(m) && b < |m| && !GapIsFree(m, b)
    ensures !CoversAll(AcrossGap(m, b), m)
  {
    var last := m[|m| - 1];
    var edge, limit := m[b].end + 360.0, m[b + 1].start + 360.0;
    var x := if last.end < limit then last.end else (edge + limit) / 2.0;
    assert edge < x < limit;
    assert last.start <= x <= last.end;
    assert InSome(m, x);
    OutsideNotHeld(AcrossGap(m, b), x);
  }

  // --- No shorter arc covers ---

  /** The merged arc at or before `x`, within the turn that starts at the
      first. */
  lemma ArcBefore(m: seq<Arc>, x: real) returns (i: nat)
    requires Separated(m) && m != [] && m[0].start <= x < m[0].start + 360.0
    ensures i < |m| && m[i].start <= x < NextStart(m, i)
  {
    i := 0;
    while i + 1 < |m| && m[i + 1].start <= x
      invariant i < |m| && m[i].start <= x
    {
      i := i + 1;
    }
  }

  /** A longitude held by no arc of a covering is outside every merged arc. */
  lemma GapPointFree(c: Arc, m: seq<Arc>, e: real, k: int, x: real)
    requires CoversAll(c, m) && e == c.end + Turns(k)
    requires e < x < e + (c.start + 360.0 - c.end)
    ensures !InSome(m, x) && !InSome(m, x - 360.0)
  {
    OutsideNotHeld(c, x - Turns(k));
    HoldsShifted(c, x, -k);
    assert x + Turns(-k) == x - Turns(k);
    HoldsShifted(c, x, -1);
    assert x + Turns(-1) == x - 360.0;
  }

  /** An arc that covers everything leaves out no more than the largest gap. */
  lemma NoShorterCover(m: seq<Arc>, c: Arc)
    requires Separated(m) && m != [] && CoversAll(c, m)
    ensures c.end - c.start >= 360.0 || c.end - c.start >= 360.0 - Gap(m, BestGap(m, |m|))
  {
    var g := c.start + 360.0 - c.end;
    if g > 0.0 {
      RemEuclidFacts(c.end - m[0].start);
      var k: int :| RemEuclid(c.end - m[0].start) == (c.end - m[0].start) + Turns(k);
      var e := c.end + Turns(k);
      var i := ArcBefore(m, e);
      FreeStretchInGap(m, c, k, e, g, i);
      BestGapIsLargest(m, |m|);
    }
  }

  lemma FreeStretchInGap(m: seq<Arc>, c: Arc, k: int, e: real, g: real, i: nat)
    requires Separated(m) && CoversAll(c, m) && e == c.end + Turns(k) && g == c.start + 360.0 - c.end && g > 0.0
    requires i < |m| && m[i].start <= e < NextStart(m, i)
    ensures Gap(m, i) >= g
  {
    if m[i].end > e {
      GapPointFree(c, m, e, k, if m[i].end < e + g then m[i].end else e + g / 2.0);
    }
    if NextStart(m, i) < e + g {
      GapPointFree(c, m, e, k, NextStart(m, i));
    }
  }

  // --- The union ---

  predicate WholeTurn(a: Arc) {
    a.end - a.start >= 360.0
  }

  /** The least arc holding every arc's longitudes; None when none shorter than
      a whole turn does. */
  ghost predicate SmallestCover(arcs: seq<Arc>, out: Option<Arc>) {
    match out
    case Some(u) =>
      && CoversAll(u, arcs)
      && u.end - u.start < 360.0
      && forall c: Arc :: CoversAll(c, arcs) ==> c.end - c.start >= u.end - u.start
    case None =>
      forall c: Arc :: CoversAll(c, arcs) ==> c.end - c.start >= 360.0
  }

  /** The merged arcs in sorted order do not run past the largest gap's near
      side, a turn later. */
  ghost predicate LastArcFits(arcs: seq<Arc>) {
    var m := Merged(arcs);
    HasWholeTurn(arcs) || m == [] || GapIsFree(m, BestGap(m, |m|))
  }

  /** What the method below computes, in terms of the merged list. */
  ghost function Union(arcs: seq<Arc>): Option<Arc> {
    if HasWholeTurn(arcs) then None
    else
      var m := Merged(arcs);
      if m == [] then None
      else
        var b := BestGap(m, |m|);
        if Gap(m, b) <= 0.0 then None else Some(AcrossGap(m, b))
  }

  lemma SameCover(arcs: seq<Arc>, c: Arc)
    requires GoodArcs(arcs)
    ensures CoversAll(c, arcs) <==> CoversAll(c, Merged(arcs))
  {
    MergedFacts(arcs);
  }

  /** A whole turn is covered only by a whole turn. */
  lemma WholeTurnNeedsTurn(a: Arc, arcs: seq<Arc>, c: Arc)
    requires a in arcs && WholeTurn(a) && CoversAll(c, arcs)
    ensures c.end - c.start >= 360.0
  {
    if c.end - c.start < 360.0 {
      var e := c.end + (c.start + 360.0 - c.end) / 2.0;
      RemEuclidFacts(e - a.start);
      var k: int :| RemEuclid(e - a.start) == (e - a.start) + Turns(k);
      var x := e + Turns(k);
      var i :| 0 <= i < |arcs| && arcs[i] == a;
      assert arcs[i].start <= x <= arcs[i].end;
      assert InSome(arcs, x);
      OutsideNotHeld(c, e);
      HoldsShifted(c, e, k);
    }
  }

  ghost predicate HasWholeTurn(arcs: seq<Arc>) {
    exists i :: 0 <= i < |arcs| && WholeTurn(arcs[i])
  }

  lemma WholeTurnUnion(arcs: seq<Arc>)
    requires HasWholeTurn(arcs)
    ensures SmallestCover(arcs, None)
  {
    var i :| 0 <= i < |arcs| && WholeTurn(arcs[i]);
    forall c: Arc | CoversAll(c, arcs) ensures c.end - c.start >= 360.0 {
      WholeTurnNeedsTurn(arcs[i], arcs, c);
    }
  }

  lemma SmallestOfMerged(m: seq<Arc>, b: nat)
    requires Separated(m) && m != [] && b == BestGap(m, |m|) && Gap(m, b) > 0.0
    ensures SmallestCover(m, Some(AcrossGap(m, b))) <==> GapIsFree(m, b)
  {
    if GapIsFree(m, b) {
      AcrossGapCovers(m, b);
    } else {
      AcrossGapMisses(m, b);
    }
    forall c: Arc | CoversAll(c, m)
      ensures c.end - c.start >= 360.0 - Gap(m, b)
    {
      NoShorterCover(m, c);
    }
    assert AcrossGap(m, b).end - AcrossGap(m, b).start == 360.0 - Gap(m, b);
  }

  lemma NothingShorter(m: seq<Arc>, b: nat)
    requires Separated(m) && m != [] && b == BestGap(m, |m|) && Gap(m, b) <= 0.0
    ensures SmallestCover(m, None) && GapIsFree(m, b)
  {
    NoGapOnlyAlone(m);
    forall c: Arc | CoversAll(c, m) ensures c.end - c.start >= 360.0 {
      NoShorterCover(m, c);
    }
  }

  lemma SameSmallest(arcs: seq<Arc>, out: Option<Arc>)
    requires GoodArcs(arcs)
    ensures SmallestCover(arcs, out) <==> SmallestCover(Merged(arcs), out)
  {
    forall c: Arc ensures CoversAll(c, arcs) <==> CoversAll(c, Merged(arcs)) {
      SameCover(arcs, c);
    }
  }

  /** The merged union is the smallest cover exactly when the last merged arc
      fits before the chosen gap comes round again. */
  lemma UnionIsSmallest(arcs: seq<Arc>)
    requires GoodArcs(arcs) && arcs != []
    ensures SmallestCover(arcs, Union(arcs)) <==> LastArcFits(arcs)
  {
    if HasWholeTurn(arcs) {
      WholeTurnUnion(arcs);
    } else {
      MergedFacts(arcs);
      SameSmallest(arcs, Union(arcs));
      UnionOfMerged(Merged(arcs));
    }
  }

  lemma UnionOfMerged(m: seq<Arc>)
    requires Separated(m) && m != []
    ensures var b := BestGap(m, |m|);
            SmallestCover(m, if Gap(m, b) <= 0.0 then None else Some(AcrossGap(m, b))) <==> GapIsFree(m, b)
  {
    var b := BestGap(m, |m|);
    if Gap(m, b) <= 0.0 {
      NothingShorter(m, b);
    } else {
      SmallestOfMerged(m, b);
    }
  }

  /** An arc is returned that covers every arc if and only if the last one leaves
      the gap free. */
  lemma UnionCoversExactly(arcs: seq<Arc>)
    requires GoodArcs(arcs) && Union(arcs).Some?
    ensures CoversAll(Union(arcs).value, arcs) <==> LastArcFits(arcs)
  {
    var m := Merged(arcs);
    MergedFacts(arcs);
    SameCover(arcs, Union(arcs).value);
    if GapIsFree(m, BestGap(m, |m|)) {
      AcrossGapCovers(m, BestGap(m, |m|));
    } else {
      AcrossGapMisses(m, BestGap(m, |m|));
    }
  }

  /** Several separated arcs always leave a gap. */
  lemma NoGapOnlyAlone(m: seq<Arc>)
    requires Separated(m) && m != []
    ensures |m| > 1 ==> Gap(m, BestGap(m, |m|)) > 0.0
  {
    BestGapIsLargest(m, |m|);
    if |m| > 1 {
      assert Gap(m, 0) > 0.0;
    }
  }

  /** It is enough that no arc ends more than a turn past where the first merged
      arc ends. */
  lemma EnoughRoom(arcs: seq<Arc>)
    requires GoodArcs(arcs) && arcs != []
    requires Merged(arcs)[|Merged(arcs)| - 1].end <= Merged(arcs)[0].end + 360.0
    ensures LastArcFits(arcs) && SmallestCover(arcs, Union(arcs))
  {
    MergedFacts(arcs);
    var m := Merged(arcs);
    EndsAscend(m, 0, BestGap(m, |m|));
    UnionIsSmallest(arcs);
  }

  /** The guard is needed: an arc crossing the antimeridian that holds another
      arc a turn later is cut short. */
  lemma GuardIsNeeded()
    ensures var arcs := [Arc(170.0, 300.0), Arc(-175.0, -160.0)];
            GoodArcs(arcs) && Union(arcs) == Some(Arc(170.0, 200.0)) && !SmallestCover(arcs, Union(arcs))
  {
    var far, near := Arc(170.0, 300.0), Arc(-175.0, -160.0);
    var arcs := [far, near];
    assert arcs[..1] == [far] && arcs[..0] == [];
    assert StableSorted([far], StartLe) == [far];
    assert StableSorted(arcs, StartLe) == [near, far];
    var m := [near, far];
    assert m[..1] == [near];
    assert Merge([near]) == [near];
    assert Merge(m) == m;
    assert Gap(m, 0) == 330.0 && Gap(m, 1) == -115.0;
    assert BestGap(m, 1) == 0;
    assert BestGap(m, 2) == 0;
    assert !GapIsFree(m, 0);
    UnionIsSmallest(arcs);
  }

  // --- The method ---

  method MergeSorted(sorted: seq<Arc>) returns (merged: seq<Arc>)
    ensures merged == Merge(sorted)
  {
    merged := [];
    for i := 0 to |sorted|
      invariant merged == Merge(sorted[..i])
    {
      assert sorted[..i + 1][..i] == sorted[..i];
      var a := sorted[i];
      var last := |merged| - 1;
      if merged != [] && a.start <= merged[last].end {
        merged := merged[last := merged[last].(end := if merged[last].end >= a.end then merged[last].end else a.end)];
      } else {
        merged := merged + [a];
      }
    }
    assert sorted[..|sorted|] == sorted;
  }

  /** The first largest gap, and its size. */
  method LargestGap(m: seq<Arc>) returns (best: nat, bestGap: real)
    requires m != []
    ensures best == BestGap(m, |m|) && bestGap == Gap(m, best)
  {
    best, bestGap := 0, Gap(m, 0);
    for i := 1 to |m|
      invariant best == BestGap(m, i) && bestGap == Gap(m, best)
    {
      var gap := Gap(m, i);
      if gap > bestGap {
        bestGap, best := gap, i;
      }
    }
  }

  method AnyWholeTurn(arcs: seq<Arc>) returns (any: bool)
    ensures any <==> HasWholeTurn(arcs)
  {
    for i := 0 to |arcs|
      invariant forall j :: 0 <= j < i ==> !WholeTurn(arcs[j])
    {
      if WholeTurn(arcs[i]) {
        return true;
      }
    }
    return false;
  }

  method FindUnion(arcs: seq<Arc>) returns (out: Option<Arc>)
    requires GoodArcs(arcs)
    ensures out == Union(arcs)
    ensures arcs != [] ==> (SmallestCover(arcs, out) <==> LastArcFits(arcs))
  {
    if arcs != [] {
      UnionIsSmallest(arcs);
    }
    var any := AnyWholeTurn(arcs);
    if any {
      return None;
    }
    MergedFacts(arcs);
    var merged := MergeSorted(StableSorted(arcs, StartLe));
    if merged == [] {
      return None;
    }
    var best, bestGap := LargestGap(merged);
    if bestGap <= 0.0 {
      return None;
    }
    var arc := RunRound(merged, best);
    return Some(arc);
  }

  /** The complement of a gap: starting where the gap stops, and ending where it
      starts, some turns later if need be. */
  method RunRound(m: seq<Arc>, best: nat) returns (arc: Arc)
    requires Separated(m) && best < |m|
    ensures arc == AcrossGap(m, best)
  {
    var start := if best + 1 < |m| then m[best + 1].start else m[0].start;
    var end := m[best].end;
    StartsAscend(m, 0, best);
    while end < start
      invariant end == m[best].end || end == m[best].end + 360.0
      invariant end == m[best].end + 360.0 ==> end >= start && best + 1 < |m|
      decreases if end < start then 1 else 0
    {
      end := end + 360.0;
    }
    return Arc(start, end);
  }
}
