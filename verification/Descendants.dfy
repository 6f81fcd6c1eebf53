/** A cell's descendants at a finer resolution, by stride arithmetic on its
    block of slots. */
module Descendants {
  import opened Results
  import opened Slots
  import opened Upstream

  datatype Descendants = Descendants(firstSlot: nat, stride: nat, count: nat, resolution: int) {

    /** The k-th descendant. At resolution 30, slots past the last encodable
        quintant give their resolution-29 parent. */
    function Nth(a5: Crate, k: nat): Id {
      var slot := firstSlot + Times(k, stride);
      if resolution == MAX_RESOLUTION && slot / QUINTANT_SLOTS >= RES30_QUINTANTS then
        a5.slotToCell(slot - slot % 4, MAX_RESOLUTION - 1)
      else
        a5.slotToCell(slot, resolution)
    }

    function Range(a5: Crate): (Id, Id)
      requires count > 0
    {
      (Nth(a5, 0), Nth(a5, count - 1))
    }
  }

  /** The descendants of `index` at `childResolution`. The table of block sizes
      has no entry below resolution 0. */
  function New(a5: Crate, index: Id, childResolution: int): Result<Descendants>
    requires childResolution >= 0
  {
    if childResolution < a5.resolution(index) then
      Failure("target resolution must be equal to or greater than current resolution")
    else if childResolution > MAX_RESOLUTION then
      Failure("target resolution exceeds maximum resolution")
    else
      var first :- a5.firstSlot(index);
      var stride := Size(childResolution);
      Success(Descendants(first, stride, Strides(a5.slotCount(index), stride), childResolution))
  }

  /** `New` fails exactly when the target is coarser than the cell or past the
      finest resolution, and otherwise strides exactly fill the cell's block. */
  lemma NewOutcome(a5: Crate, c: Id, r: int)
    requires a5.IndexContract() && a5.isValidCell(c) && r >= 0
    ensures New(a5, c, r).Success? <==> a5.resolution(c) <= r <= MAX_RESOLUTION
    ensures New(a5, c, r).Success? ==>
              var d := New(a5, c, r).value;
              && d.firstSlot == a5.First(c) && d.stride == Size(r) && d.resolution == r
              && d.count > 0
              && d.firstSlot + Times(d.count, d.stride) == a5.End(c) <= TOTAL
  {
    if a5.resolution(c) <= r <= MAX_RESOLUTION {
      StridesFill(a5.resolution(c), r);
    }
  }

  /** Slot of the k-th descendant: a block boundary inside the cell, and no
      64-bit overflow on the way. */
  lemma NthSlot(a5: Crate, c: Id, r: int, k: nat)
    requires a5.IndexContract() && a5.isValidCell(c) && r >= 0 && New(a5, c, r).Success?
    requires k < New(a5, c, r).value.count
    ensures var slot := a5.First(c) + Times(k, Size(r));
            && Aligned(slot, r)
            && a5.First(c) <= slot && slot + Size(r) <= a5.End(c) <= TOTAL < 0x1_0000_0000_0000_0000
  {
    NewOutcome(a5, c, r);
    StrideAligned(a5.First(c), a5.resolution(c), r, k);
  }

  /** Below resolution 30 the k-th descendant is the cell at the k-th stride.
      At resolution 30 it is too, unless its quintant has no ids there; then it
      is the resolution-29 cell around that slot. */
  lemma NthCell(a5: Crate, c: Id, r: int, k: nat)
    requires a5.IndexContract() && a5.isValidCell(c) && r >= 0 && New(a5, c, r).Success?
    requires k < New(a5, c, r).value.count
    ensures NthIsCellAtSlot(a5, a5.First(c) + Times(k, Size(r)), New(a5, c, r).value.Nth(a5, k), r)
  {
    NthSlot(a5, c, r, k);
    NewOutcome(a5, c, r);
    StrideCell(a5, New(a5, c, r).value, k);
  }

  /** Where ids run out at resolution 30: at the end of the 42nd quintant, a
      quintant being a block of resolution 1. */
  lemma IdsRunOut(a5: Crate, slot: nat)
    ensures QUINTANT_SLOTS == Size(1)
    ensures Aligned(slot, 30) && slot < TOTAL ==> (a5.Encodable(slot, 30) <==> slot < 42 * Size(1))
  {
    QuintantFaceAndTotal();
    PastQuintants(slot);
  }

  lemma PastQuintants(slot: nat)
    ensures slot / QUINTANT_SLOTS >= RES30_QUINTANTS <==> slot >= 42 * 0x400_0000_0000_0000
  {
  }

  /** From there on the k-th descendant is the resolution-29 cell. */
  lemma FallsBackFrom(a5: Crate, d: Descendants, k: nat, slot: nat)
    requires d.resolution == 30 && slot == d.firstSlot + Times(k, d.stride)
    ensures d.Nth(a5, k) == if slot < 42 * Size(1) then a5.slotToCell(slot, 30) else a5.slotToCell(slot - slot % 4, 29)
  {
    QuintantFaceAndTotal();
    PastQuintants(slot);
  }

  lemma StrideCell(a5: Crate, d: Descendants, k: nat)
    requires a5.CellsOwnBlocks() && a5.SlotsNameCells()
    requires 0 <= d.resolution <= MAX_RESOLUTION
    requires Aligned(d.firstSlot + Times(k, d.stride), d.resolution) && d.firstSlot + Times(k, d.stride) < TOTAL
    ensures NthIsCellAtSlot(a5, d.firstSlot + Times(k, d.stride), d.Nth(a5, k), d.resolution)
  {
    var slot := d.firstSlot + Times(k, d.stride);
    if a5.Encodable(slot, d.resolution) {
      CellNamedAt(a5, slot, d.resolution);
    } else {
      QuadAround(slot);
      CellNamedAt(a5, slot - slot % 4, MAX_RESOLUTION - 1);
    }
  }

  /** `id` is the cell at `slot`, or where that has no id at resolution 30, the
      resolution-29 cell around it. */
  ghost predicate NthIsCellAtSlot(a5: Crate, slot: nat, id: Id, r: int)
    requires 0 <= r <= MAX_RESOLUTION
  {
    if a5.Encodable(slot, r) then
      a5.CellAt(id, r) && a5.First(id) == slot && a5.End(id) == slot + Size(r)
    else
      r == MAX_RESOLUTION && a5.CellAt(id, MAX_RESOLUTION - 1) && a5.InBlock(id, slot)
  }

  lemma CellNamedAt(a5: Crate, slot: nat, r: int)
    requires a5.CellsOwnBlocks() && a5.SlotsNameCells() && a5.Encodable(slot, r)
    ensures a5.CellAt(a5.slotToCell(slot, r), r)
    ensures a5.First(a5.slotToCell(slot, r)) == slot
    ensures a5.End(a5.slotToCell(slot, r)) == slot + Size(r)
  {
  }

  /** Clearing the two low bits of a slot gives its resolution-29 block. */
  lemma QuadAround(slot: nat)
    ensures Aligned(slot - slot % 4, MAX_RESOLUTION - 1)
    ensures Size(MAX_RESOLUTION - 1) == 4
  {
    assert Size(MAX_RESOLUTION - 1) == Group(MAX_RESOLUTION - 1, Size(MAX_RESOLUTION));
    TimesIsProduct(slot / 4, 4);
    assert slot - slot % 4 == Times(slot / 4, 4);
  }

  /** Every encodable fine block inside a cell is one of its descendants. */
  lemma NthReaches(a5: Crate, c: Id, f: Id, r: int) returns (k: nat)
    requires a5.IndexContract() && a5.isValidCell(c) && r >= 0 && New(a5, c, r).Success?
    requires a5.CellAt(f, r) && a5.InBlock(c, a5.First(f)) && a5.Encodable(a5.First(f), r)
    ensures k < New(a5, c, r).value.count
    ensures New(a5, c, r).value.Nth(a5, k) == f
    ensures a5.First(f) == a5.First(c) + Times(k, Size(r))
  {
    NewOutcome(a5, c, r);
    k := StrideOf(a5.First(c), a5.resolution(c), a5.First(f), r);
    NthCell(a5, c, r, k);
    assert a5.SameBlock(New(a5, c, r).value.Nth(a5, k), f);
  }

  // --- The id range (below resolution 30) ---

  lemma EncodableBelow30(a5: Crate, f: Id, r: int)
    requires a5.CellsOwnBlocks() && a5.CellAt(f, r) && 0 <= r < MAX_RESOLUTION
    ensures a5.Encodable(a5.First(f), r)
  {
  }

  /** The id order is the slot order. */
  lemma IdsFollowSlots(a5: Crate, f: Id, g: Id, r: int)
    requires a5.IndexContract() && 0 <= r < MAX_RESOLUTION
    requires a5.CellAt(f, r) && a5.CellAt(g, r)
    ensures f < g <==> a5.First(f) < a5.First(g)
    ensures f <= g <==> a5.First(f) <= a5.First(g)
  {
    NamedByFirst(a5, f, r);
    NamedByFirst(a5, g, r);
    assert a5.First(f) < a5.First(g) ==> a5.EncodablePair(a5.First(f), a5.First(g), r);
    assert a5.First(g) < a5.First(f) ==> a5.EncodablePair(a5.First(g), a5.First(f), r);
  }

  lemma NamedByFirst(a5: Crate, f: Id, r: int)
    requires a5.CellsOwnBlocks() && a5.SlotsNameCells() && a5.BlocksAreUnique()
    requires 0 <= r < MAX_RESOLUTION && a5.CellAt(f, r)
    ensures a5.Encodable(a5.First(f), r)
    ensures a5.slotToCell(a5.First(f), r) == f
  {
    EncodableBelow30(a5, f, r);
    CellNamedAt(a5, a5.First(f), r);
    assert a5.SameBlock(a5.slotToCell(a5.First(f), r), f);
  }

  /** The descendants of a cell at a resolution below 30 are exactly the cells
      at that resolution whose ids lie between `Range`'s two ends. */
  lemma RangeIsExact(a5: Crate, c: Id, f: Id, r: int)
    requires a5.IndexContract() && a5.isValidCell(c)
    requires 0 <= r < MAX_RESOLUTION && a5.resolution(c) <= r && a5.CellAt(f, r)
    ensures New(a5, c, r).Success? && New(a5, c, r).value.count > 0
    ensures var (lo, hi) := New(a5, c, r).value.Range(a5);
            lo <= f <= hi <==> a5.InBlock(c, a5.First(f))
    ensures a5.InBlock(c, a5.First(f)) <==>
              exists k: nat :: k < New(a5, c, r).value.count && New(a5, c, r).value.Nth(a5, k) == f
  {
    NewOutcome(a5, c, r);
    var d := New(a5, c, r).value;
    var (lo, hi) := d.Range(a5);
    EndsOfRange(a5, c, r);
    IdsFollowSlots(a5, lo, f, r);
    IdsFollowSlots(a5, f, hi, r);
    EncodableBelow30(a5, f, r);
    if a5.InBlock(c, a5.First(f)) {
      var k := NthReaches(a5, c, f, r);
      assert k < d.count && d.Nth(a5, k) == f;
      AlignedLast(a5, c, f, r);
    }
    forall k: nat | k < d.count && d.Nth(a5, k) == f ensures a5.InBlock(c, a5.First(f)) {
      NthBelow30(a5, c, r, k);
    }
  }

  lemma NthBelow30(a5: Crate, c: Id, r: int, k: nat)
    requires a5.IndexContract() && a5.isValidCell(c) && 0 <= r < MAX_RESOLUTION && New(a5, c, r).Success?
    requires k < New(a5, c, r).value.count
    ensures var id := New(a5, c, r).value.Nth(a5, k);
            && a5.CellAt(id, r)
            && a5.First(id) == a5.First(c) + Times(k, Size(r))
            && a5.End(id) == a5.First(id) + Size(r)
            && a5.InBlock(c, a5.First(id)) && a5.End(id) <= a5.End(c)
  {
    NthSlot(a5, c, r, k);
    NthCell(a5, c, r, k);
    assert a5.Encodable(a5.First(c) + Times(k, Size(r)), r);
  }

  /** Consecutive descendants are adjacent on the curve. */
  lemma NthFollows(a5: Crate, c: Id, r: int, k: nat)
    requires a5.IndexContract() && a5.isValidCell(c) && 0 <= r < MAX_RESOLUTION && New(a5, c, r).Success?
    requires 0 < k < New(a5, c, r).value.count
    ensures var f, g := New(a5, c, r).value.Nth(a5, k - 1), New(a5, c, r).value.Nth(a5, k);
            && a5.CellAt(f, r) && a5.CellAt(g, r)
            && a5.First(c) <= a5.First(f) && a5.First(g) == a5.End(f) && a5.End(g) <= a5.End(c)
  {
    NthBelow30(a5, c, r, k - 1);
    NthBelow30(a5, c, r, k);
    TimesStep(k, Size(r));
  }

  /** The range's ends sit at the two ends of the cell's block. */
  lemma EndsOfRange(a5: Crate, c: Id, r: int)
    requires a5.IndexContract() && a5.isValidCell(c) && 0 <= r < MAX_RESOLUTION && a5.resolution(c) <= r
    ensures New(a5, c, r).Success? && New(a5, c, r).value.count > 0
    ensures a5.CellAt(New(a5, c, r).value.Range(a5).0, r)
    ensures a5.CellAt(New(a5, c, r).value.Range(a5).1, r)
    ensures a5.First(New(a5, c, r).value.Range(a5).0) == a5.First(c)
    ensures a5.First(New(a5, c, r).value.Range(a5).1) + Size(r) == a5.End(c)
  {
    NewOutcome(a5, c, r);
    FirstDescendant(a5, c, r);
    LastDescendant(a5, c, r, New(a5, c, r).value.count - 1);
    RangeEnds(a5, New(a5, c, r).value);
  }

  lemma RangeEnds(a5: Crate, d: Descendants)
    requires d.count > 0
    ensures d.Range(a5) == (d.Nth(a5, 0), d.Nth(a5, d.count - 1))
  {
  }

  lemma FirstDescendant(a5: Crate, c: Id, r: int)
    requires a5.IndexContract() && a5.isValidCell(c) && 0 <= r < MAX_RESOLUTION && New(a5, c, r).Success?
    requires New(a5, c, r).value.count > 0
    ensures a5.CellAt(New(a5, c, r).value.Nth(a5, 0), r)
    ensures a5.First(New(a5, c, r).value.Nth(a5, 0)) == a5.First(c)
  {
    NthBelow30(a5, c, r, 0);
  }

  lemma LastDescendant(a5: Crate, c: Id, r: int, last: nat)
    requires a5.IndexContract() && a5.isValidCell(c) && 0 <= r < MAX_RESOLUTION && New(a5, c, r).Success?
    requires New(a5, c, r).value.count == last + 1
    ensures a5.CellAt(New(a5, c, r).value.Nth(a5, last), r)
    ensures a5.First(New(a5, c, r).value.Nth(a5, last)) + Size(r) == a5.End(c)
  {
    NewOutcome(a5, c, r);
    NthBelow30(a5, c, r, last);
    assert Times(last + 1, Size(r)) == Times(last, Size(r)) + Size(r);
  }

  lemma AlignedLast(a5: Crate, c: Id, f: Id, r: int)
    requires a5.CellsOwnBlocks() && a5.isValidCell(c) && a5.CellAt(f, r) && a5.resolution(c) <= r
    requires a5.InBlock(c, a5.First(f))
    ensures a5.First(f) + Size(r) <= a5.End(c)
  {
    NestedOrDisjoint(a5.First(c), a5.resolution(c), a5.First(f), r);
  }
}
