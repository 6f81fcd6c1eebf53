/** A crate meeting every contract, so the contracts are consistent. It numbers
    the cells of each resolution one after another; supercells are index
    parents, subcells are the cell itself, and a cell's neighbours are itself
    and the next one along the curve. */
module UpstreamWitness {
  import opened Results
  import opened Slots
  import opened Upstream
  import opened Coverings

  /** Cells at each resolution: `Fan` times as many per step. */
  function NumCells(r: int): (n: nat)
    requires WORLD <= r
    ensures n > 0
    decreases r
  {
    if r == WORLD then 1
    else
      var n := NumCells(r - 1);
      if r == 0 then 12 * n else if r == 1 then 5 * n else 4 * n
  }

  lemma TimesCommutes(a: nat, b: nat)
    ensures Times(a, b) == Times(b, a)
  {
    TimesIsProduct(a, b);
    TimesIsProduct(b, a);
  }

  lemma {:induction false} CellsFillCurve(r: int)
    requires WORLD <= r <= MAX_RESOLUTION
    ensures Times(NumCells(r), Size(r)) == TOTAL
    decreases r
  {
    QuintantFaceAndTotal();
    if r > WORLD {
      CellsFillCurve(r - 1);
      var n, f := NumCells(r - 1), Fan(r - 1);
      GroupIsFan(r - 1, Size(r));
      GroupIsFan(r - 1, n);
      TimesCommutes(n, f);
      TimesAssoc(n, f, Size(r));
    } else {
      assert Times(1, Size(WORLD)) == Size(WORLD);
    }
  }

  /** Ids handed out at resolution `r`: all cells, or at resolution 30 those of
      the encodable quintants. */
  function NumIds(r: int): nat
    requires WORLD <= r
  {
    if r < MAX_RESOLUTION then NumCells(r) else RES30_QUINTANTS * QUINTANT_SLOTS
  }

  /** First id of resolution `r`. */
  function Offset(r: int): nat
    requires WORLD <= r
    decreases r
  {
    if r == WORLD then 0 else Offset(r - 1) + NumIds(r - 1)
  }

  lemma OffsetStep(r: int)
    requires WORLD <= r
    ensures Offset(r + 1) == Offset(r) + NumIds(r)
  {
  }

  lemma {:induction false} OffsetsAscend(q: int, r: int)
    requires WORLD <= q <= r
    ensures Offset(q) <= Offset(r)
    decreases r
  {
    if q < r {
      OffsetsAscend(q, r - 1);
    }
  }

  lemma OffsetsApart(q: int, r: int)
    requires WORLD <= q < r
    ensures Offset(q) + NumIds(q) <= Offset(r)
  {
    OffsetStep(q);
    OffsetsAscend(q + 1, r);
  }

  lemma {:induction false} OffsetIsAThird(r: int)
    requires 1 <= r <= MAX_RESOLUTION
    ensures 3 * Offset(r) == NumCells(r) - 21
    decreases r
  {
    OffsetStep(r - 1);
    if r > 1 {
      OffsetIsAThird(r - 1);
    } else {
      OffsetStep(WORLD);
      assert NumCells(0) == 12 && NumCells(1) == 60;
    }
  }

  const FIRST_MARKER: nat := 63 * QUINTANT_SLOTS

  lemma AllIdsFit()
    ensures Offset(MAX_RESOLUTION + 1) <= FIRST_MARKER
    ensures FIRST_MARKER + 32 < 0x1_0000_0000_0000_0000
  {
    IdsBelow(MAX_RESOLUTION);
    OffsetStep(MAX_RESOLUTION);
  }

  lemma IdsBelow(r: int)
    requires 1 <= r <= MAX_RESOLUTION
    ensures 3 * Offset(r) <= TOTAL
  {
    OffsetIsAThird(r);
    CellsFillCurve(r);
    TimesAtLeast(NumCells(r), Size(r));
  }

  lemma {:induction false} TimesAtLeast(k: nat, n: nat)
    requires n > 0
    ensures Times(k, n) >= k
  {
    if k > 0 {
      TimesAtLeast(k - 1, n);
    }
  }

  // --- Decoding ---

  ghost predicate AtLevel(id: nat, r: int) {
    WORLD <= r <= MAX_RESOLUTION && Offset(r) <= id < Offset(r) + NumIds(r)
  }

  ghost predicate IsCell(id: Id) {
    exists r :: AtLevel(id, r)
  }

  /** The resolution whose range holds `id`. */
  ghost function ResolutionOf(id: Id): (r: int)
    ensures IsCell(id) ==> AtLevel(id, r)
  {
    if IsCell(id) then var r :| AtLevel(id, r); r else WORLD
  }

  lemma LevelIsUnique(id: Id, r: int)
    requires AtLevel(id, r)
    ensures IsCell(id) && ResolutionOf(id) == r
  {
    var l := ResolutionOf(id);
    if l < r {
      OffsetsApart(l, r);
    } else if r < l {
      OffsetsApart(r, l);
    }
  }

  /** How many cells of its resolution come before it. */
  ghost function IndexOf(id: Id): nat
    requires IsCell(id)
  {
    id - Offset(ResolutionOf(id))
  }

  ghost function FirstSlotOf(id: Id): Result<nat> {
    if IsCell(id) then Success(Times(IndexOf(id), Size(ResolutionOf(id))))
    else Failure("not a cell")
  }

  ghost function SlotCountOf(id: Id): nat {
    if IsCell(id) then Size(ResolutionOf(id)) else 0
  }

  /** The cell at `r` around a slot. */
  ghost function CellAround(s: nat, r: int): Id {
    if WORLD <= r <= MAX_RESOLUTION && Strides(s, Size(r)) < NumIds(r) then
      AllIdsFit();
      OffsetsAscend(r, MAX_RESOLUTION + 1);
      OffsetsAscend(r + 1, MAX_RESOLUTION + 1);
      Offset(r) + Strides(s, Size(r))
    else 0
  }

  // --- Markers ---

  predicate IsMarkerId(id: Id) {
    FIRST_MARKER <= id < FIRST_MARKER + 32
  }

  function MarkerAt(r: int): Id {
    AllIdsFit();
    if WORLD <= r <= MAX_RESOLUTION then FIRST_MARKER + (r + 1) else FIRST_MARKER
  }

  function ResolutionOfMarker(id: Id): int {
    if IsMarkerId(id) then id - FIRST_MARKER - 1 else WORLD
  }

  /** The finest of the values' resolutions. */
  function Finest(values: seq<Id>, resolution: Id -> int): int {
    if values == [] then WORLD
    else
      var rest, r := Finest(values[1..], resolution), resolution(values[0]);
      if r > rest then r else rest
  }

  lemma {:induction false} FinestBounds(values: seq<Id>, resolution: Id -> int, i: nat)
    requires i < |values|
    ensures resolution(values[i]) <= Finest(values, resolution)
  {
    if i > 0 {
      FinestBounds(values[1..], resolution, i - 1);
    }
  }

  lemma {:induction false} FinestAtLeastWorld(values: seq<Id>, resolution: Id -> int)
    ensures WORLD <= Finest(values, resolution)
  {
    if values != [] {
      FinestAtLeastWorld(values[1..], resolution);
    }
  }

  ghost function CoveringResolutionOf(values: seq<Id>): int {
    if values != [] && IsMarkerId(values[|values| - 1]) then ResolutionOfMarker(values[|values| - 1])
    else Finest(values, ResolutionOf)
  }

  // --- Location: index parents and the next cell along the curve ---

  ghost function SupercellOf(f: Id, q: int): Result<Id> {
    match FirstSlotOf(f)
    case Success(s) => Success(CellAround(s, q))
    case Failure(e) => Failure(e)
  }

  ghost function DiskOf(p: Id, k: nat): Result<seq<Id>> {
    if IsCell(p) then Success([p, NextCell(p, FirstSlotOf(p).value + SlotCountOf(p), ResolutionOf(p))])
    else Failure("not a cell")
  }

  /** The cell after `p`, whose block ends at `end`; the last cell's is itself. */
  ghost function NextCell(p: Id, end: nat, r: int): Id {
    if end < TOTAL then CellAround(end, r) else p
  }

  ghost function Witness(): Crate {
    Crate(
      IsMarkerId, MarkerAt, ResolutionOfMarker, IsCell, ResolutionOf, FirstSlotOf, SlotCountOf,
      CellAround, CoveringResolutionOf,
      (values: seq<Id>) => Success(values), (values: seq<Id>) => Success(values),
      SupercellOf, (p: Id, r: int) => Success([p]), DiskOf)
  }

  // --- The contracts hold ---

  lemma CellParts(c: Id)
    requires IsCell(c)
    ensures var r := ResolutionOf(c);
            && WORLD <= r <= MAX_RESOLUTION
            && IndexOf(c) < NumIds(r)
            && FirstSlotOf(c) == Success(Times(IndexOf(c), Size(r)))
            && SlotCountOf(c) == Size(r)
  {
  }

  lemma IdsWithinCells(r: int)
    requires WORLD <= r <= MAX_RESOLUTION
    ensures NumIds(r) <= NumCells(r)
  {
    if r == MAX_RESOLUTION {
      CellsFillCurve(MAX_RESOLUTION);
      TimesIsProduct(NumCells(MAX_RESOLUTION), Size(MAX_RESOLUTION));
    }
  }

  lemma BlockFits(k: nat, r: int)
    requires WORLD <= r <= MAX_RESOLUTION && k < NumCells(r)
    ensures Aligned(Times(k, Size(r)), r) && Times(k, Size(r)) + Size(r) <= TOTAL
  {
    TimesGap(k, NumCells(r), Size(r));
    CellsFillCurve(r);
  }

  lemma IdBelowMarkers(c: Id)
    requires IsCell(c)
    ensures !IsMarkerId(c)
  {
    OffsetsApart(ResolutionOf(c), MAX_RESOLUTION + 1);
    AllIdsFit();
  }

  lemma CellOwnsBlock(c: Id)
    requires IsCell(c)
    ensures !IsMarkerId(c)
    ensures WORLD <= ResolutionOf(c) <= MAX_RESOLUTION && Aligned(Witness().First(c), ResolutionOf(c))
    ensures Witness().End(c) <= TOTAL
  {
    CellParts(c);
    IdBelowMarkers(c);
    var r := ResolutionOf(c);
    IdsWithinCells(r);
    BlockFits(IndexOf(c), r);
  }

  lemma BlocksHold()
    ensures Witness().CellsOwnBlocks()
  {
    forall c: Id | IsCell(c)
      ensures !IsMarkerId(c) && WORLD <= ResolutionOf(c) <= MAX_RESOLUTION && FirstSlotOf(c).Success?
      ensures Aligned(Witness().First(c), ResolutionOf(c))
      ensures SlotCountOf(c) == Size(ResolutionOf(c)) && Witness().End(c) <= TOTAL
    {
      CellParts(c);
      CellOwnsBlock(c);
    }
  }

  /** A slot before the end of the curve, encodable at `r`, has the cell around
      it. */
  lemma CellAroundIsCell(s: nat, r: int)
    requires WORLD <= r <= MAX_RESOLUTION && Strides(s, Size(r)) < NumIds(r)
    ensures IsCell(CellAround(s, r)) && ResolutionOf(CellAround(s, r)) == r
    ensures CellAround(s, r) == Offset(r) + Strides(s, Size(r))
    ensures Witness().First(CellAround(s, r)) == Times(Strides(s, Size(r)), Size(r))
  {
    NumberedId(CellAround(s, r), r, Strides(s, Size(r)));
  }

  lemma NumberedId(c: Id, r: int, k: nat)
    requires WORLD <= r <= MAX_RESOLUTION && k < NumIds(r) && c == Offset(r) + k
    ensures IsCell(c) && ResolutionOf(c) == r && IndexOf(c) == k
  {
    LevelIsUnique(c, r);
  }

  lemma StridesBelow(s: nat, r: int)
    requires WORLD <= r < MAX_RESOLUTION && s < TOTAL
    ensures Strides(s, Size(r)) < NumIds(r)
  {
    BlockAround(s, Size(r));
    CellsFillCurve(r);
    TimesGap(NumCells(r), Strides(s, Size(r)), Size(r));
  }

  lemma EncodableHasId(s: nat, r: int)
    requires Witness().Encodable(s, r)
    ensures Strides(s, Size(r)) < NumIds(r)
    ensures Times(Strides(s, Size(r)), Size(r)) == s
  {
    var k: nat :| s == Times(k, Size(r));
    StridesOfTimes(k, Size(r));
    if r == MAX_RESOLUTION {
      TimesIsProduct(k, 1);
      QuintantBound(s);
    } else {
      StridesBelow(s, r);
    }
  }

  lemma QuintantBound(s: nat)
    requires s / QUINTANT_SLOTS < RES30_QUINTANTS
    ensures s < RES30_QUINTANTS * QUINTANT_SLOTS
  {
  }

  lemma NamesHold()
    ensures Witness().SlotsNameCells()
  {
    forall s: nat, r: int | Witness().Encodable(s, r)
      ensures Witness().CellAt(CellAround(s, r), r) && Witness().First(CellAround(s, r)) == s
    {
      EncodableHasId(s, r);
      CellAroundIsCell(s, r);
    }
  }

  lemma SameMultiple(i: nat, j: nat, n: nat)
    requires n > 0 && Times(i, n) == Times(j, n)
    ensures i == j
  {
    StridesOfTimes(i, n);
    StridesOfTimes(j, n);
  }

  lemma SameBlockSameId(c: Id, d: Id)
    requires Witness().SameBlock(c, d)
    ensures c == d
  {
    SameFirstSameId(c, d);
  }

  lemma SameFirstSameId(c: Id, d: Id)
    requires IsCell(c) && IsCell(d) && ResolutionOf(c) == ResolutionOf(d) && FirstSlotOf(c) == FirstSlotOf(d)
    ensures c == d
  {
    SameMultiple(IndexOf(c), IndexOf(d), Size(ResolutionOf(c)));
  }

  lemma IdsAscendHere(s: nat, t: nat, r: int)
    requires Witness().EncodablePair(s, t, r)
    ensures CellAround(s, r) < CellAround(t, r)
  {
    EncodableHasId(s, r);
    EncodableHasId(t, r);
    CellAroundIsCell(s, r);
    CellAroundIsCell(t, r);
    TimesGap(Strides(t, Size(r)), Strides(s, Size(r)), Size(r));
  }

  lemma IndexHolds()
    ensures Witness().IndexContract()
  {
    BlocksHold();
    NamesHold();
    forall c: Id, d: Id | Witness().SameBlock(c, d) ensures c == d {
      SameBlockSameId(c, d);
    }
    forall s: nat, t: nat, r: int | Witness().EncodablePair(s, t, r)
      ensures Witness().slotToCell(s, r) < Witness().slotToCell(t, r)
    {
      IdsAscendHere(s, t, r);
    }
  }

  lemma MarkersHold()
    ensures Witness().MarkersRecordResolution()
  {
    AllIdsFit();
    forall values: seq<Id> | values != [] ==> !IsMarkerId(values[|values| - 1])
      ensures WORLD <= CoveringResolutionOf(values)
      ensures forall i :: 0 <= i < |values| && IsCell(values[i]) ==> ResolutionOf(values[i]) <= CoveringResolutionOf(values)
    {
      FinestAtLeastWorld(values, ResolutionOf);
      forall i | 0 <= i < |values| ensures ResolutionOf(values[i]) <= Finest(values, ResolutionOf) {
        FinestBounds(values, ResolutionOf, i);
      }
    }
  }

  lemma CompactHolds()
    ensures Witness().CompactContract()
  {
    AllIdsFit();
    forall cells: seq<Id>, r: int | WORLD <= r <= MAX_RESOLUTION
      ensures CoveringResolutionOf(cells + [MarkerAt(r)]) == r
      ensures forall s: nat :: Witness().Covers(cells + [MarkerAt(r)], s) <==> Witness().Covers(cells, s)
    {
      forall s: nat ensures Witness().Covers(cells + [MarkerAt(r)], s) <==> Witness().Covers(cells, s) {
        MarkerCoversNothing(cells, r, s);
      }
    }
  }

  lemma MarkerCoversNothing(cells: seq<Id>, r: int, s: nat)
    requires WORLD <= r <= MAX_RESOLUTION
    ensures Witness().Covers(cells + [MarkerAt(r)], s) <==> Witness().Covers(cells, s)
  {
    var a5, marked := Witness(), cells + [MarkerAt(r)];
    assert IsMarkerId(marked[|cells|]);
    if a5.Covers(cells, s) {
      var i :| 0 <= i < |cells| && !a5.isMarker(cells[i]) && a5.InBlock(cells[i], s);
      assert marked[i] == cells[i];
    }
  }

  // --- Location ---

  lemma SupercellIsBlockAround(f: Id, q: int)
    requires IsCell(f) && 0 <= q < MAX_RESOLUTION
    ensures SupercellOf(f, q).Success? && Witness().Supercell(f, q) == CellAround(Witness().First(f), q)
    ensures Witness().CellAt(CellAround(Witness().First(f), q), q)
    ensures var p := CellAround(Witness().First(f), q);
            Witness().First(p) <= Witness().First(f) < Witness().End(p)
  {
    CellParts(f);
    CellOwnsBlock(f);
    var s := Witness().First(f);
    StridesBelow(s, q);
    CellAroundIsCell(s, q);
    CellParts(CellAround(s, q));
    BlockAround(s, Size(q));
  }

  /** Only one block at `q` holds a slot. */
  lemma SupercellIsUnique(f: Id, p: Id, q: int)
    requires IsCell(f) && Witness().CellAt(p, q) && 0 <= q < MAX_RESOLUTION
    ensures Witness().Supercell(f, q) == p <==> Witness().InBlock(p, Witness().First(f))
  {
    SupercellIsBlockAround(f, q);
    if Witness().InBlock(p, Witness().First(f)) {
      SharedSlotSameCell(Witness().Supercell(f, q), p, q, Witness().First(f));
    }
  }

  lemma SharedSlotSameCell(g: Id, p: Id, q: int, s: nat)
    requires Witness().CellAt(g, q) && Witness().CellAt(p, q)
    requires Witness().InBlock(g, s) && Witness().InBlock(p, s)
    ensures g == p
  {
    CellOwnsBlock(p);
    CellOwnsBlock(g);
    CellParts(p);
    CellParts(g);
    NestedOrDisjoint(Witness().First(g), q, Witness().First(p), q);
    SameBlockSameId(g, p);
  }

  lemma NeighboursHere(p: Id)
    requires IsCell(p)
    ensures Witness().Neighbours(p) == Success([p, NextCell(p, Witness().End(p), ResolutionOf(p))])
  {
    DiskHere(p, Witness().End(p));
    ExpandedDisk(Witness(), p, DiskOf(p, 1).value);
  }

  lemma DiskHere(p: Id, end: nat)
    requires IsCell(p) && end == FirstSlotOf(p).value + SlotCountOf(p)
    ensures DiskOf(p, 1) == Success([p, NextCell(p, end, ResolutionOf(p))])
  {
  }

  lemma ExpandedDisk(a5: Crate, p: Id, disk: seq<Id>)
    requires a5.gridDiskVertex(p, 1) == Success(disk) && a5.uncompact(disk) == Success(disk)
    ensures a5.Neighbours(p) == Success(disk)
  {
  }

  lemma NextCellIsCell(p: Id, end: nat, q: int)
    requires IsCell(p) && ResolutionOf(p) == q && 0 <= q < MAX_RESOLUTION
    ensures IsCell(NextCell(p, end, q)) && ResolutionOf(NextCell(p, end, q)) == q
  {
    if end < TOTAL {
      AroundIsCell(end, q);
    }
  }

  lemma AroundIsCell(s: nat, q: int)
    requires 0 <= q < MAX_RESOLUTION && s < TOTAL
    ensures IsCell(CellAround(s, q)) && ResolutionOf(CellAround(s, q)) == q
  {
    StridesBelow(s, q);
    CellAroundIsCell(s, q);
  }

  /** The next fine cell lies in the same coarse block or the next one. */
  lemma StepStaysNear(r: int, q: int, f: Id, g: Id)
    requires 0 <= q < r < MAX_RESOLUTION && Witness().CellAt(f, r) && Witness().CellAt(g, r)
    requires Witness().First(g) == Witness().End(f)
    ensures var p := Witness().Supercell(f, q);
            Witness().Supercell(g, q) == p || Witness().Supercell(g, q) in Witness().NeighbourSet(p)
  {
    var a5 := Witness();
    SupercellIsBlockAround(f, q);
    var p := a5.Supercell(f, q);
    CellParts(p);
    CellOwnsBlock(p);
    CellParts(f);
    CellOwnsBlock(f);
    CellParts(g);
    CellOwnsBlock(g);
    NestedOrDisjoint(a5.First(p), q, a5.First(f), r);
    if a5.InBlock(p, a5.First(g)) {
      SupercellIsUnique(g, p, q);
    } else {
      assert a5.End(p) == a5.First(g);
      NeighboursHere(p);
      SupercellIsBlockAround(g, q);
      var ns := a5.Neighbours(p).value;
      assert ns[1] in ns;
    }
  }

  lemma SupercellsHold(r: int, q: int)
    requires 0 <= q < r < MAX_RESOLUTION
    ensures Witness().SupercellsExist(r, q)
  {
    var a5 := Witness();
    forall f: Id | a5.CellAt(f, r) ensures a5.cellToSupercell(f, q).Success? && a5.CellAt(a5.Supercell(f, q), q) {
      SupercellIsBlockAround(f, q);
    }
  }

  lemma NeighboursHold(q: int)
    requires 0 <= q < MAX_RESOLUTION
    ensures Witness().NeighboursExist(q)
  {
    var a5 := Witness();
    forall p: Id | a5.CellAt(p, q)
      ensures a5.Neighbours(p).Success?
      ensures forall i :: 0 <= i < |a5.Neighbours(p).value| ==> a5.CellAt(a5.Neighbours(p).value[i], q)
    {
      NeighboursHere(p);
      NextCellIsCell(p, a5.End(p), q);
    }
  }

  lemma CurveHolds(r: int, q: int)
    requires 0 <= q < r < MAX_RESOLUTION
    ensures Witness().CurveIsContinuous(r, q)
  {
    var a5 := Witness();
    forall c: Id, f: Id, g: Id |
      a5.isValidCell(c) && a5.resolution(c) <= r && a5.CellAt(f, r) && a5.CellAt(g, r)
      && a5.First(c) <= a5.First(f) && a5.First(g) == a5.End(f) && a5.End(g) <= a5.End(c)
      ensures a5.Supercell(g, q) == a5.Supercell(f, q) || a5.Supercell(g, q) in a5.NeighbourSet(a5.Supercell(f, q))
    {
      StepStaysNear(r, q, f, g);
    }
  }

  lemma LocationHolds(r: int, q: int)
    requires 0 <= q < r < MAX_RESOLUTION
    ensures Witness().LocationContract(r, q)
  {
    SupercellsHold(r, q);
    SubcellsHold(r, q);
    NeighboursHold(q);
    CurveHolds(r, q);
  }

  lemma SubcellsHold(r: int, q: int)
    requires 0 <= q < r < MAX_RESOLUTION
    ensures Witness().SubcellsPartition(r, q)
  {
    var a5 := Witness();
    forall p: Id, f: Id | a5.CellAt(p, q) && a5.CellAt(f, r)
      ensures a5.Covers([p], a5.First(f)) <==> a5.Supercell(f, q) == p
    {
      SupercellIsUnique(f, p, q);
      CellOwnsBlock(p);
      assert [p][0] == p;
    }
  }

  // --- Union ---

  ghost predicate IsUnion(z: seq<Id>, x: seq<Id>, y: seq<Id>) {
    WellFormed(Witness(), z) && CoversEither(Witness(), z, x, y)
  }

  /** Some covering of both, where there is one. */
  ghost function UnionOf(x: seq<Id>, y: seq<Id>): Result<seq<Id>> {
    if exists z :: IsUnion(z, x, y) then var z :| IsUnion(z, x, y); Success(z) else Failure("no union")
  }

  lemma UnionHere()
    ensures UnionContract(Witness(), UnionOf)
    ensures forall x :: WellFormed(Witness(), x) ==> UnionOf(x, x).Success?
  {
    forall x, y ensures UnionHolds(Witness(), UnionOf, x, y) {
    }
    forall x | WellFormed(Witness(), x) ensures UnionOf(x, x).Success? {
      assert IsUnion(x, x, x);
    }
  }

  /** Every contract any module assumes; and the union does not simply fail. */
  ghost predicate ContractsHold(a5: Crate, union: (seq<Id>, seq<Id>) -> Result<seq<Id>>) {
    && a5.IndexContract() && a5.MarkersRecordResolution() && a5.CompactContract()
    && (forall r: int, q: int :: 0 <= q < r < MAX_RESOLUTION ==> a5.LocationContract(r, q))
    && UnionContract(a5, union)
    && forall x :: WellFormed(a5, x) ==> union(x, x).Success?
  }

  /** The contracts assumed of the crate can all hold together. */
  lemma ContractsAreConsistent()
    ensures exists a5: Crate, union: (seq<Id>, seq<Id>) -> Result<seq<Id>> :: ContractsHold(a5, union)
  {
    IndexHolds();
    MarkersHold();
    CompactHolds();
    UnionHere();
    forall r: int, q: int | 0 <= q < r < MAX_RESOLUTION ensures Witness().LocationContract(r, q) {
      LocationHolds(r, q);
    }
    assert ContractsHold(Witness(), UnionOf);
  }
}
