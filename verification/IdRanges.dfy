/** Picking one descendant, and the id range a cell's descendants fill. */
module IdRanges {
  import opened Results
  import opened Slots
  import opened Upstream
  import opened Descendants
  import opened Coverings

  // --- The i-th child ---

  /** The child at 1-based position `i` is in range. */
  predicate InRange(a5: Crate, c: Id, r: int, i: int)
    requires r >= 0
  {
    New(a5, c, r).Success? && 1 <= i <= New(a5, c, r).value.count
  }

  /** One child of each cell, NA where the cell or its position is NA; an error
      when any position is out of range. */
  method CellChild(a5: Crate, cells: seq<Option<Id>>, r: int, positions: seq<Option<int>>) returns (out: Result<seq<Option<Id>>>)
    requires |cells| == |positions| && r >= 0
    ensures out.Success? <==> forall k :: 0 <= k < |cells| && cells[k].Some? && positions[k].Some? ==>
                                InRange(a5, cells[k].value, r, positions[k].value)
    ensures out.Success? ==> |out.value| == |cells| && forall k :: 0 <= k < |cells| ==>
              if cells[k].Some? && positions[k].Some? then
                out.value[k] == Some(New(a5, cells[k].value, r).value.Nth(a5, positions[k].value - 1))
              else out.value[k].None?
  {
    var results: seq<Option<Id>> := [];
    for k := 0 to |cells|
      invariant |results| == k
      invariant forall j :: 0 <= j < k && cells[j].Some? && positions[j].Some? ==>
                  InRange(a5, cells[j].value, r, positions[j].value)
      invariant forall j :: 0 <= j < k ==>
                  if cells[j].Some? && positions[j].Some? then
                    results[j] == Some(New(a5, cells[j].value, r).value.Nth(a5, positions[j].value - 1))
                  else results[j].None?
    {
      var child: Option<Id> := None;
      if cells[k].Some? && positions[k].Some? {
        var d := New(a5, cells[k].value, r);
        if d.Failure? {
          return Failure("cell_child failed");
        }
        var i := positions[k].value;
        if i < 1 || i > d.value.count {
          return Failure("child index is out of range");
        }
        child := Some(d.value.Nth(a5, i - 1));
      }
      results := results + [child];
    }
    return Success(results);
  }

  lemma StridesAscend(a: nat, b: nat, r: int)
    requires WORLD <= r <= MAX_RESOLUTION
    ensures a < b <==> Times(a, Size(r)) < Times(b, Size(r))
  {
    TimesGap(a, b, Size(r));
    TimesGap(b, a, Size(r));
  }

  /** `f` is the k-th descendant. */
  lemma DescendantAt(a5: Crate, c: Id, d: Descendants, k: nat, f: Id)
    requires a5.IndexContract() && a5.isValidCell(c) && 0 <= d.resolution < MAX_RESOLUTION
    requires New(a5, c, d.resolution) == Success(d) && k < d.count && f == d.Nth(a5, k)
    ensures IsStride(a5, d, k, f)
  {
    NthBelow30(a5, c, d.resolution, k);
  }

  ghost predicate IsStride(a5: Crate, d: Descendants, k: nat, f: Id)
    requires 0 <= d.resolution < MAX_RESOLUTION
  {
    a5.CellAt(f, d.resolution) && a5.First(f) == d.firstSlot + Times(k, Size(d.resolution))
  }

  lemma DescendantsAscend(a5: Crate, d: Descendants, i: nat, j: nat, f: Id, g: Id)
    requires a5.IndexContract() && 0 <= d.resolution < MAX_RESOLUTION
    requires IsStride(a5, d, i, f) && IsStride(a5, d, j, g)
    ensures f < g <==> i < j
  {
    IdsFollowSlots(a5, f, g, d.resolution);
    StridesAscend(i, j, d.resolution);
  }

  /** Below resolution 30, the descendants are listed in ascending id order,
      each once. */
  lemma ChildrenAscend(a5: Crate, c: Id, d: Descendants, i: nat, j: nat)
    requires a5.IndexContract() && a5.isValidCell(c) && 0 <= d.resolution < MAX_RESOLUTION
    requires New(a5, c, d.resolution) == Success(d) && i < d.count && j < d.count
    ensures d.Nth(a5, i) < d.Nth(a5, j) <==> i < j
  {
    var f, g := d.Nth(a5, i), d.Nth(a5, j);
    DescendantAt(a5, c, d, i, f);
    DescendantAt(a5, c, d, j, g);
    DescendantsAscend(a5, d, i, j, f, g);
  }

  // --- A covering as id ranges ---

  /** Fine cell `f` lies in the id range of stored cell `c`. */
  ghost predicate InIdRange(a5: Crate, c: Id, r: int, f: Id)
    requires r >= 0
  {
    && New(a5, c, r).Success? && New(a5, c, r).value.count > 0
    && New(a5, c, r).value.Range(a5).0 <= f <= New(a5, c, r).value.Range(a5).1
  }

  /** Covered slots are those of the stored cells. */
  lemma CoveredByStored(a5: Crate, values: seq<Id>, s: nat)
    requires a5.CellsOwnBlocks() && WellFormed(a5, values)
    ensures var stored := StoredCells(a5, values);
            a5.Covers(values, s) <==> exists i :: 0 <= i < |stored| && a5.InBlock(stored[i], s)
  {
    var stored := StoredCells(a5, values);
    forall i | 0 <= i < |stored| ensures values[i] == stored[i] && !a5.isMarker(stored[i]) {
      assert a5.isValidCell(stored[i]);
    }
    if a5.Covers(values, s) {
      var i :| 0 <= i < |values| && !a5.isMarker(values[i]) && a5.InBlock(values[i], s);
      assert i < |stored|;
    }
  }

  lemma BlockIsIdRange(a5: Crate, values: seq<Id>, r: int, f: Id, i: nat)
    requires a5.IndexContract() && WellFormed(a5, values)
    requires a5.coveringResolution(values) == r && 0 <= r < MAX_RESOLUTION && a5.CellAt(f, r)
    requires i < |StoredCells(a5, values)|
    ensures var c := StoredCells(a5, values)[i];
            InIdRange(a5, c, r, f) <==> a5.InBlock(c, a5.First(f))
  {
    var c := StoredCells(a5, values)[i];
    assert a5.isValidCell(c);
    RangeIsExact(a5, c, f, r);
  }

  /** Below resolution 30, a valid covering's fine cells are exactly the cells
      at its resolution in the id range of some stored cell. */
  lemma FineCellsFillIdRanges(a5: Crate, values: seq<Id>, r: int, f: Id)
    requires a5.IndexContract() && WellFormed(a5, values)
    requires a5.coveringResolution(values) == r && 0 <= r < MAX_RESOLUTION && a5.CellAt(f, r)
    ensures var stored := StoredCells(a5, values);
            a5.Covers(values, a5.First(f)) <==> exists i :: 0 <= i < |stored| && InIdRange(a5, stored[i], r, f)
  {
    var stored := StoredCells(a5, values);
    CoveredByStored(a5, values, a5.First(f));
    forall i | 0 <= i < |stored|
      ensures InIdRange(a5, stored[i], r, f) <==> a5.InBlock(stored[i], a5.First(f))
    {
      BlockIsIdRange(a5, values, r, f, i);
    }
  }

  /** Those ranges ascend and never meet, so a fine cell lies in at most one. */
  lemma IdRangesAscend(a5: Crate, values: seq<Id>, r: int, i: nat, j: nat)
    requires a5.IndexContract() && WellFormed(a5, values)
    requires a5.coveringResolution(values) == r && 0 <= r < MAX_RESOLUTION
    requires i < j < |StoredCells(a5, values)|
    ensures var stored := StoredCells(a5, values);
            && New(a5, stored[i], r).Success? && New(a5, stored[i], r).value.count > 0
            && New(a5, stored[j], r).Success? && New(a5, stored[j], r).value.count > 0
            && New(a5, stored[i], r).value.Range(a5).1 < New(a5, stored[j], r).value.Range(a5).0
  {
    var stored := StoredCells(a5, values);
    var c, d := stored[i], stored[j];
    assert a5.isValidCell(c) && a5.isValidCell(d);
    EndsOfRange(a5, c, r);
    EndsOfRange(a5, d, r);
    IdsFollowSlots(a5, New(a5, c, r).value.Range(a5).1, New(a5, d, r).value.Range(a5).0, r);
  }
}
