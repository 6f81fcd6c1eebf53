/** Coverings: stored cells, ascending along the curve, and behind them a marker
    with the resolution of the cells meant. */
module Coverings {
  import opened Results
  import opened Slots
  import opened Upstream

  // --- Building ---

  ghost predicate NotFiner(a5: Crate, cells: seq<Id>, resolution: int) {
    forall i :: 0 <= i < |cells| ==> a5.isMarker(cells[i]) || a5.resolution(cells[i]) <= resolution
  }

  method CheckNotFiner(a5: Crate, cells: seq<Id>, resolution: int) returns (out: Result<()>)
    ensures out.Success? <==> NotFiner(a5, cells, resolution)
  {
    for i := 0 to |cells|
      invariant NotFiner(a5, cells[..i], resolution)
    {
      if a5.isMarker(cells[i]) {
        continue;
      }
      if a5.resolution(cells[i]) > resolution {
        return Failure("a cell is finer than the resolution");
      }
    }
    return Success(());
  }

  /** `cells` compacted, with a marker when a resolution is asked for; without
      one the finest cell decides what the result stands for. */
  method CellsToCovering(a5: Crate, cells: seq<Id>, resolution: Option<int>) returns (out: Result<seq<Id>>)
    ensures resolution.None? ==> out == a5.compact(cells)
    ensures resolution.Some? && NotFiner(a5, cells, resolution.value) ==>
              out == a5.compact(cells + [a5.marker(resolution.value)])
    ensures resolution.Some? && !NotFiner(a5, cells, resolution.value) ==> out.Failure?
  {
    match resolution
    case None =>
      out := a5.compact(cells);
    case Some(r) =>
      var ok := CheckNotFiner(a5, cells, r);
      if ok.Failure? {
        return ok.PropagateFailure();
      }
      out := a5.compact(cells + [a5.marker(r)]);
  }

  // --- Validity ---

  /** The values before the trailing marker, if there is one. */
  function StoredCells(a5: Crate, values: seq<Id>): seq<Id> {
    if values != [] && a5.isMarker(values[|values| - 1]) then values[..|values| - 1] else values
  }

  /** Valid cells, none finer than `resolution`. */
  ghost predicate CellsUpTo(a5: Crate, cells: seq<Id>, resolution: int) {
    forall i :: 0 <= i < |cells| ==> a5.isValidCell(cells[i]) && a5.resolution(cells[i]) <= resolution
  }

  /** Blocks pairwise disjoint and ascending along the curve. */
  ghost predicate InCurveOrder(a5: Crate, cells: seq<Id>) {
    forall i, j :: 0 <= i < j < |cells| ==> a5.End(cells[i]) <= a5.First(cells[j])
  }

  ghost predicate WellFormed(a5: Crate, values: seq<Id>) {
    && CellsUpTo(a5, StoredCells(a5, values), a5.coveringResolution(values))
    && InCurveOrder(a5, StoredCells(a5, values))
  }

  /** A cell after all those before it, and no finer than `resolution`, keeps
      the prefix in order. */
  lemma PrefixExtends(a5: Crate, cells: seq<Id>, i: nat, resolution: int)
    requires i < |cells| && CellsUpTo(a5, cells[..i], resolution) && InCurveOrder(a5, cells[..i])
    requires a5.isValidCell(cells[i]) && a5.resolution(cells[i]) <= resolution
    requires forall j :: 0 <= j < i ==> a5.End(cells[j]) <= a5.First(cells[i])
    ensures CellsUpTo(a5, cells[..i + 1], resolution) && InCurveOrder(a5, cells[..i + 1])
  {
    assert cells[..i + 1] == cells[..i] + [cells[i]];
  }

  /** A cell that starts before the end of the one before it. */
  lemma OutOfOrder(a5: Crate, cells: seq<Id>, i: nat)
    requires 0 < i < |cells| && a5.First(cells[i]) < a5.End(cells[i - 1])
    ensures !InCurveOrder(a5, cells)
  {
  }

  /** What the pass needs of the crate: a valid cell's block lies on the curve. */
  ghost predicate BlocksOnCurve(a5: Crate) {
    forall c: Id :: a5.isValidCell(c) ==> a5.firstSlot(c).Success? && a5.End(c) <= TOTAL
  }

  /** The pass: comparing each block with the end of the previous one settles
      every pair. The running end never leaves the curve, so it fits in 64
      bits. */
  method InOneOrder(a5: Crate, cells: seq<Id>, resolution: int) returns (ok: bool)
    requires BlocksOnCurve(a5)
    ensures ok <==> CellsUpTo(a5, cells, resolution) && InCurveOrder(a5, cells)
  {
    var nextFree: nat := 0;
    for i := 0 to |cells|
      invariant CellsUpTo(a5, cells[..i], resolution) && InCurveOrder(a5, cells[..i])
      invariant forall j :: 0 <= j < i ==> a5.End(cells[j]) <= nextFree
      invariant nextFree == if i == 0 then 0 else a5.End(cells[i - 1])
      invariant nextFree <= TOTAL
    {
      var cell := cells[i];
      if !a5.isValidCell(cell) || a5.resolution(cell) > resolution {
        return false;
      }
      var first := a5.firstSlot(cell);
      if first.Failure? {
        return false;
      }
      if first.value < nextFree {
        OutOfOrder(a5, cells, i);
        return false;
      }
      nextFree := first.value + a5.slotCount(cell);
      PrefixExtends(a5, cells, i, resolution);
    }
    assert cells[..|cells|] == cells;
    return true;
  }

  /** One pass decides well-formedness. */
  method IsValidCovering(a5: Crate, values: seq<Id>) returns (ok: bool)
    requires a5.CellsOwnBlocks()
    ensures ok <==> WellFormed(a5, values)
  {
    assert BlocksOnCurve(a5);
    ok := InOneOrder(a5, StoredCells(a5, values), a5.coveringResolution(values));
  }

  // --- Union ---

  ghost predicate CoversEither(a5: Crate, z: seq<Id>, x: seq<Id>, y: seq<Id>) {
    forall s: nat :: a5.Covers(z, s) <==> a5.Covers(x, s) || a5.Covers(y, s)
  }

  /** On coverings, a union that succeeds is a covering of what either covers. */
  ghost predicate UnionHolds(a5: Crate, union: (seq<Id>, seq<Id>) -> Result<seq<Id>>, x: seq<Id>, y: seq<Id>) {
    WellFormed(a5, x) && WellFormed(a5, y) && union(x, y).Success? ==>
      WellFormed(a5, union(x, y).value) && CoversEither(a5, union(x, y).value, x, y)
  }

  /** What is relied on of upstream's union. */
  ghost predicate UnionContract(a5: Crate, union: (seq<Id>, seq<Id>) -> Result<seq<Id>>) {
    forall x, y :: UnionHolds(a5, union, x, y)
  }

  // --- Canonical form ---

  /** Where the k-th child block of `(t, q)` starts. */
  function ChildStart(t: nat, q: int, k: nat): nat
    requires WORLD <= q < MAX_RESOLUTION
  {
    t + Times(k, Size(q + 1))
  }

  /** Every child block of the parent block `(t, q)` is stored. */
  ghost predicate CompleteGroup(a5: Crate, cells: seq<Id>, t: nat, q: int) {
    && WORLD <= q < MAX_RESOLUTION
    && Aligned(t, q)
    && forall k: nat :: k < Fan(q) ==> Stored(a5, cells, ChildStart(t, q, k), q + 1)
  }

  ghost predicate Stored(a5: Crate, cells: seq<Id>, t: nat, r: int) {
    exists i :: 0 <= i < |cells| && a5.CellAt(cells[i], r) && a5.First(cells[i]) == t
  }

  /** Compacted: no complete group of siblings is left, for parents from
      resolution `top` down. */
  ghost predicate Compacted(a5: Crate, cells: seq<Id>, top: int) {
    && (forall i :: 0 <= i < |cells| ==> a5.resolution(cells[i]) >= top)
    && forall t: nat, q: int :: q >= top ==> !CompleteGroup(a5, cells, t, q)
  }

  ghost predicate SameSlots(a5: Crate, cells: seq<Id>, other: seq<Id>) {
    forall s: nat :: a5.Covers(cells, s) <==> a5.Covers(other, s)
  }

  ghost predicate AllCells(a5: Crate, cells: seq<Id>) {
    forall i :: 0 <= i < |cells| ==> a5.isValidCell(cells[i])
  }

  /** The block `(s, q)` lies wholly in `cells`, in pieces finer than `q`. */
  ghost predicate SplitFiner(a5: Crate, cells: seq<Id>, s: nat, q: int) {
    && WORLD <= q <= MAX_RESOLUTION
    && Aligned(s, q)
    && (forall u: nat :: s <= u < s + Size(q) ==> a5.Covers(cells, u))
    && (forall i :: 0 <= i < |cells| && a5.resolution(cells[i]) <= q ==>
          a5.End(cells[i]) <= s || s + Size(q) <= a5.First(cells[i]))
  }

  /** A block held in finer pieces holds a complete group of siblings. */
  lemma {:induction false} SplitHasGroup(a5: Crate, cells: seq<Id>, s: nat, q: int) returns (t: nat, p: int)
    requires a5.CellsOwnBlocks() && AllCells(a5, cells) && SplitFiner(a5, cells, s, q)
    ensures p >= q && CompleteGroup(a5, cells, t, p)
    decreases MAX_RESOLUTION - q
  {
    SplitNotFinest(a5, cells, s, q);
    if k: nat :| k < Fan(q) && !Stored(a5, cells, ChildStart(s, q, k), q + 1) {
      SplitChild(a5, cells, s, q, k);
      t, p := SplitHasGroup(a5, cells, ChildStart(s, q, k), q + 1);
    } else {
      t, p := s, q;
    }
  }

  /** Nothing is finer than a leaf. */
  lemma SplitNotFinest(a5: Crate, cells: seq<Id>, s: nat, q: int)
    requires a5.CellsOwnBlocks() && AllCells(a5, cells) && SplitFiner(a5, cells, s, q)
    ensures q < MAX_RESOLUTION
  {
    assert a5.Covers(cells, s);
    var i :| 0 <= i < |cells| && !a5.isMarker(cells[i]) && a5.InBlock(cells[i], s);
    assert a5.isValidCell(cells[i]);
  }

  lemma ChildBlock(s: nat, q: int, k: nat)
    requires WORLD <= q < MAX_RESOLUTION && Aligned(s, q) && k < Fan(q)
    ensures Aligned(ChildStart(s, q, k), q + 1)
    ensures ChildStart(s, q, k) + Size(q + 1) <= s + Size(q)
  {
    GroupIsFan(q, Size(q + 1));
    assert Size(q) == Group(q, Size(q + 1));
    StridesOfTimes(Fan(q), Size(q + 1));
    StrideAligned(s, q, q + 1, k);
  }

  /** A child block that is not stored whole is itself held in finer pieces. */
  lemma SplitChild(a5: Crate, cells: seq<Id>, s: nat, q: int, k: nat)
    requires a5.CellsOwnBlocks() && AllCells(a5, cells) && SplitFiner(a5, cells, s, q)
    requires q < MAX_RESOLUTION && k < Fan(q)
    requires !Stored(a5, cells, ChildStart(s, q, k), q + 1)
    ensures SplitFiner(a5, cells, ChildStart(s, q, k), q + 1)
  {
    var child := ChildStart(s, q, k);
    ChildBlock(s, q, k);
    forall i | 0 <= i < |cells| && a5.resolution(cells[i]) <= q + 1
      ensures a5.End(cells[i]) <= child || child + Size(q + 1) <= a5.First(cells[i])
    {
      var c := cells[i];
      assert a5.isValidCell(c);
      if a5.resolution(c) == q + 1 {
        NestedOrDisjoint(a5.First(c), q + 1, child, q + 1);
        assert a5.First(c) != child;
      }
    }
  }

  /** The first stored cell starts at the least covered slot. */
  lemma FirstCovered(a5: Crate, cells: seq<Id>, s: nat)
    requires a5.CellsOwnBlocks() && AllCells(a5, cells) && InCurveOrder(a5, cells)
    requires a5.Covers(cells, s)
    ensures cells != [] && a5.First(cells[0]) <= s
    ensures a5.Covers(cells, a5.First(cells[0]))
  {
    var i :| 0 <= i < |cells| && !a5.isMarker(cells[i]) && a5.InBlock(cells[i], s);
    assert a5.isValidCell(cells[0]) && a5.isValidCell(cells[i]);
    assert a5.InBlock(cells[0], a5.First(cells[0]));
  }

  lemma CoversHead(a5: Crate, cells: seq<Id>)
    requires a5.CellsOwnBlocks() && AllCells(a5, cells) && cells != []
    ensures a5.Covers(cells, a5.First(cells[0]))
  {
    assert a5.isValidCell(cells[0]);
    assert a5.InBlock(cells[0], a5.First(cells[0]));
  }

  lemma SameStart(a5: Crate, x: seq<Id>, y: seq<Id>)
    requires a5.CellsOwnBlocks() && AllCells(a5, x) && AllCells(a5, y)
    requires InCurveOrder(a5, x) && InCurveOrder(a5, y) && SameSlots(a5, x, y)
    ensures x == [] <==> y == []
    ensures x != [] ==> a5.First(x[0]) == a5.First(y[0])
  {
    if x != [] {
      CoversHead(a5, x);
      FirstCovered(a5, y, a5.First(x[0]));
    }
    if y != [] {
      CoversHead(a5, y);
      FirstCovered(a5, x, a5.First(y[0]));
    }
  }

  /** Where one list stores a block whole and the other starts with a finer
      cell, the other holds a complete group of siblings. */
  lemma CoarserHeadSplits(a5: Crate, x: seq<Id>, y: seq<Id>)
    requires a5.CellsOwnBlocks() && AllCells(a5, x) && AllCells(a5, y)
    requires InCurveOrder(a5, y) && SameSlots(a5, x, y)
    requires x != [] && y != [] && a5.First(x[0]) == a5.First(y[0])
    requires a5.resolution(x[0]) < a5.resolution(y[0])
    ensures SplitFiner(a5, y, a5.First(x[0]), a5.resolution(x[0]))
  {
    var s, q := a5.First(x[0]), a5.resolution(x[0]);
    assert a5.isValidCell(x[0]) && a5.isValidCell(y[0]);
    forall u: nat | s <= u < s + Size(q) ensures a5.Covers(y, u) {
      assert a5.InBlock(x[0], u);
      assert a5.Covers(x, u);
    }
    forall i | 0 <= i < |y| && a5.resolution(y[i]) <= q
      ensures a5.End(y[i]) <= s || s + Size(q) <= a5.First(y[i])
    {
      assert a5.isValidCell(y[i]) && i != 0;
      NestedOrDisjoint(a5.First(y[i]), a5.resolution(y[i]), s, q);
    }
  }

  lemma TailSlots(a5: Crate, x: seq<Id>, y: seq<Id>)
    requires a5.CellsOwnBlocks() && AllCells(a5, x) && AllCells(a5, y)
    requires InCurveOrder(a5, x) && InCurveOrder(a5, y) && SameSlots(a5, x, y)
    requires x != [] && y != [] && x[0] == y[0]
    ensures SameSlots(a5, x[1..], y[1..])
  {
    forall s: nat ensures a5.Covers(x[1..], s) <==> a5.Covers(y[1..], s) {
      CoversTail(a5, x, s);
      CoversTail(a5, y, s);
    }
  }

  lemma CoversTail(a5: Crate, x: seq<Id>, s: nat)
    requires a5.CellsOwnBlocks() && AllCells(a5, x) && InCurveOrder(a5, x) && x != []
    ensures a5.Covers(x[1..], s) <==> a5.Covers(x, s) && !a5.InBlock(x[0], s)
  {
    if a5.Covers(x[1..], s) {
      var i :| 0 <= i < |x[1..]| && !a5.isMarker(x[1..][i]) && a5.InBlock(x[1..][i], s);
      assert x[1..][i] == x[i + 1];
    }
    if a5.Covers(x, s) && !a5.InBlock(x[0], s) {
      var i :| 0 <= i < |x| && !a5.isMarker(x[i]) && a5.InBlock(x[i], s);
      assert x[1..][i - 1] == x[i];
    }
  }

  lemma TailCompacted(a5: Crate, x: seq<Id>, top: int)
    requires Compacted(a5, x, top) && x != []
    ensures Compacted(a5, x[1..], top)
  {
    forall t: nat, q: int | q >= top ensures !CompleteGroup(a5, x[1..], t, q) {
      if CompleteGroup(a5, x[1..], t, q) {
        forall k: nat | k < Fan(q) ensures Stored(a5, x, ChildStart(t, q, k), q + 1) {
          assert Stored(a5, x[1..], ChildStart(t, q, k), q + 1);
          var i :| 0 <= i < |x[1..]| && a5.CellAt(x[1..][i], q + 1) && a5.First(x[1..][i]) == ChildStart(t, q, k);
          assert x[i + 1] == x[1..][i];
        }
        assert CompleteGroup(a5, x, t, q);
      }
    }
  }

  /** Canonical form: lists of cells in curve order, with no complete group of
      siblings left, are the same list whenever they hold the same slots. */
  lemma {:induction false} CanonicalForm(a5: Crate, x: seq<Id>, y: seq<Id>, top: int)
    requires a5.CellsOwnBlocks() && a5.BlocksAreUnique()
    requires AllCells(a5, x) && InCurveOrder(a5, x) && Compacted(a5, x, top)
    requires AllCells(a5, y) && InCurveOrder(a5, y) && Compacted(a5, y, top)
    requires SameSlots(a5, x, y)
    ensures x == y
  {
    SameStart(a5, x, y);
    if x != [] {
      HeadsAgree(a5, x, y, top);
      TailSlots(a5, x, y);
      TailCompacted(a5, x, top);
      TailCompacted(a5, y, top);
      CanonicalForm(a5, x[1..], y[1..], top);
      assert x == [x[0]] + x[1..] && y == [y[0]] + y[1..];
    }
  }

  lemma HeadsAgree(a5: Crate, x: seq<Id>, y: seq<Id>, top: int)
    requires a5.CellsOwnBlocks() && a5.BlocksAreUnique()
    requires AllCells(a5, x) && InCurveOrder(a5, x) && Compacted(a5, x, top)
    requires AllCells(a5, y) && InCurveOrder(a5, y) && Compacted(a5, y, top)
    requires SameSlots(a5, x, y)
    requires x != [] && y != [] && a5.First(x[0]) == a5.First(y[0])
    ensures x[0] == y[0]
  {
    if a5.resolution(x[0]) < a5.resolution(y[0]) {
      CoarserHeadSplits(a5, x, y);
      var t, p := SplitHasGroup(a5, y, a5.First(x[0]), a5.resolution(x[0]));
      assert false;
    } else if a5.resolution(y[0]) < a5.resolution(x[0]) {
      CoarserHeadSplits(a5, y, x);
      var t, p := SplitHasGroup(a5, x, a5.First(y[0]), a5.resolution(y[0]));
      assert false;
    } else {
      assert a5.isValidCell(x[0]) && a5.isValidCell(y[0]);
      assert a5.SameBlock(x[0], y[0]);
    }
  }

  /** Comparing stored values is comparing sets: two accepted, compacted
      coverings that end in their resolution's marker hold the same values
      exactly when they have the same resolution and hold the same slots. */
  lemma StoredValuesDecideEquality(a5: Crate, x: seq<Id>, y: seq<Id>, top: int)
    requires a5.CellsOwnBlocks() && a5.BlocksAreUnique() && a5.MarkersRecordResolution()
    requires WellFormed(a5, x) && Compacted(a5, StoredCells(a5, x), top)
    requires WellFormed(a5, y) && Compacted(a5, StoredCells(a5, y), top)
    requires x != [] && x[|x| - 1] == a5.marker(a5.coveringResolution(x)) && a5.isMarker(x[|x| - 1])
    requires y != [] && y[|y| - 1] == a5.marker(a5.coveringResolution(y)) && a5.isMarker(y[|y| - 1])
    ensures x == y <==>
              a5.coveringResolution(x) == a5.coveringResolution(y) && SameSlots(a5, StoredCells(a5, x), StoredCells(a5, y))
  {
    if a5.coveringResolution(x) == a5.coveringResolution(y) && SameSlots(a5, StoredCells(a5, x), StoredCells(a5, y)) {
      CanonicalForm(a5, StoredCells(a5, x), StoredCells(a5, y), top);
      assert x == StoredCells(a5, x) + [x[|x| - 1]];
      assert y == StoredCells(a5, y) + [y[|y| - 1]];
    }
  }
}
