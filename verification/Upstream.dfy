/** The upstream `a5` crate as this package sees it: the functions it calls,
    and the contracts it relies on. Nothing is said about how the crate
    computes them, so every result holds for any crate meeting them;
    `UpstreamWitness` exhibits one. */
module Upstream {
  import opened Results
  import opened Slots

  /** A 64-bit cell id or covering value. */
  type Id = x: int | 0 <= x < 0x1_0000_0000_0000_0000

  /** Slots per quintant, as a shift, and how many quintants have ids at
      resolution 30. */
  const QUINTANT_SLOTS: nat := 0x400_0000_0000_0000
  const RES30_QUINTANTS: nat := 42

  datatype Crate = Crate(
    isMarker: Id -> bool,
    marker: int -> Id,
    markerResolution: Id -> int,
    isValidCell: Id -> bool,
    resolution: Id -> int,
    firstSlot: Id -> Result<nat>,
    slotCount: Id -> nat,
    slotToCell: (nat, int) -> Id,
    coveringResolution: seq<Id> -> int,
    compact: seq<Id> -> Result<seq<Id>>,
    uncompact: seq<Id> -> Result<seq<Id>>,
    cellToSupercell: (Id, int) -> Result<Id>,
    cellToSubcells: (Id, int) -> Result<seq<Id>>,
    gridDiskVertex: (Id, nat) -> Result<seq<Id>>
  )
  {
    // --- Blocks of slots ---

    /** First slot of a cell's block (0 for a value without one). */
    function First(c: Id): nat {
      match firstSlot(c)
      case Success(s) => s
      case Failure(_) => 0
    }

    /** One past the last slot of a cell's block. */
    function End(c: Id): nat {
      First(c) + slotCount(c)
    }

    ghost predicate InBlock(c: Id, s: nat) {
      First(c) <= s < End(c)
    }

    /** Some stored cell of `values` holds slot `s`. */
    ghost predicate Covers(values: seq<Id>, s: nat) {
      exists i :: 0 <= i < |values| && !isMarker(values[i]) && InBlock(values[i], s)
    }

    /** A valid cell at resolution `r`. */
    ghost predicate CellAt(c: Id, r: int) {
      isValidCell(c) && resolution(c) == r
    }

    // --- The index ---

    /** Every valid cell owns an aligned block of slots on the curve. */
    ghost predicate CellsOwnBlocks() {
      forall c: Id :: isValidCell(c) ==>
        && !isMarker(c)
        && WORLD <= resolution(c) <= MAX_RESOLUTION
        && firstSlot(c).Success?
        && Aligned(First(c), resolution(c))
        && slotCount(c) == Size(resolution(c))
        && End(c) <= TOTAL
    }

    /** The block at `s` has an id at resolution `r`: every block does, except
        past the last encodable quintant at resolution 30. */
    ghost predicate Encodable(s: nat, r: int) {
      && 0 <= r <= MAX_RESOLUTION
      && Aligned(s, r)
      && s < TOTAL
      && (r == MAX_RESOLUTION ==> s / QUINTANT_SLOTS < RES30_QUINTANTS)
    }

    /** `slotToCell` names the cell at every encodable block. */
    ghost predicate SlotsNameCells() {
      forall s: nat, r: int :: Encodable(s, r) ==>
        CellAt(slotToCell(s, r), r) && First(slotToCell(s, r)) == s
    }

    ghost predicate SameBlock(c: Id, d: Id) {
      isValidCell(c) && isValidCell(d) && resolution(c) == resolution(d) && First(c) == First(d)
    }

    /** A block has one id. */
    ghost predicate BlocksAreUnique() {
      forall c: Id, d: Id :: SameBlock(c, d) ==> c == d
    }

    ghost predicate EncodablePair(s: nat, t: nat, r: int) {
      Encodable(s, r) && Encodable(t, r) && r < MAX_RESOLUTION && s < t
    }

    /** Below resolution 30, ids ascend with their slots. */
    ghost predicate IdsAscend() {
      forall s: nat, t: nat, r: int :: EncodablePair(s, t, r) ==> slotToCell(s, r) < slotToCell(t, r)
    }

    /** A covering's resolution is its trailing marker's, or else its finest
        cell's. */
    ghost predicate MarkersRecordResolution() {
      && (forall r: int :: 0 <= r <= MAX_RESOLUTION ==> isMarker(marker(r)) && markerResolution(marker(r)) == r)
      && (forall m: Id :: isMarker(m) ==> WORLD <= markerResolution(m) <= MAX_RESOLUTION)
      && (forall values: seq<Id> :: values != [] && isMarker(values[|values| - 1]) ==>
            coveringResolution(values) == markerResolution(values[|values| - 1]))
      && (forall values: seq<Id> :: (values != [] ==> !isMarker(values[|values| - 1])) ==>
            && WORLD <= coveringResolution(values)
            && (forall i :: 0 <= i < |values| && isValidCell(values[i]) ==>
                  resolution(values[i]) <= coveringResolution(values)))
    }

    ghost predicate IndexContract() {
      && CellsOwnBlocks()
      && SlotsNameCells()
      && BlocksAreUnique()
      && IdsAscend()
    }

    // --- Location ---

    /** The cell at resolution `q` holding the centre of `f`. */
    function Supercell(f: Id, q: int): Id {
      match cellToSupercell(f, q)
      case Success(p) => p
      case Failure(_) => f
    }

    /** The cells sharing a vertex with `p`, and `p`: what the search expands a
        kept cell to. */
    function Neighbours(p: Id): Result<seq<Id>> {
      var disk :- gridDiskVertex(p, 1);
      uncompact(disk)
    }

    ghost predicate SupercellsExist(r: int, q: int) {
      forall f: Id :: CellAt(f, r) ==> cellToSupercell(f, q).Success? && CellAt(Supercell(f, q), q)
    }

    /** `cellToSubcells` inverts `cellToSupercell`: it covers a fine cell just
        when the supercell is the one asked about. It uses no cell finer than
        `r`. */
    ghost predicate SubcellsPartition(r: int, q: int) {
      forall p: Id :: CellAt(p, q) ==>
        && cellToSubcells(p, r).Success?
        && (forall i :: 0 <= i < |cellToSubcells(p, r).value| ==>
              var c := cellToSubcells(p, r).value[i];
              isMarker(c) || (isValidCell(c) && resolution(c) <= r))
        && (forall f: Id :: CellAt(f, r) ==>
              (Covers(cellToSubcells(p, r).value, First(f)) <==> Supercell(f, q) == p))
    }

    ghost predicate NeighboursExist(q: int) {
      forall p: Id :: CellAt(p, q) ==>
        && Neighbours(p).Success?
        && forall i :: 0 <= i < |Neighbours(p).value| ==> CellAt(Neighbours(p).value[i], q)
    }

    /** Consecutive fine cells inside one cell have supercells that are the same
        or neighbours. */
    ghost predicate CurveIsContinuous(r: int, q: int) {
      forall c: Id, f: Id, g: Id ::
        isValidCell(c) && resolution(c) <= r && CellAt(f, r) && CellAt(g, r)
        && First(c) <= First(f) && First(g) == End(f) && End(g) <= End(c) ==>
          Supercell(g, q) == Supercell(f, q) || Supercell(g, q) in NeighbourSet(Supercell(f, q))
    }

    ghost function NeighbourSet(p: Id): set<Id> {
      match Neighbours(p)
      case Success(ns) => set n | n in ns
      case Failure(_) => {}
    }

    ghost predicate LocationContract(r: int, q: int) {
      && SupercellsExist(r, q)
      && SubcellsPartition(r, q)
      && NeighboursExist(q)
      && CurveIsContinuous(r, q)
    }

    // --- Coverings ---

    /** Compacting marked cells no finer than the marker keeps the slots they
        cover, and records the marker's resolution. */
    ghost predicate CompactContract() {
      forall cells: seq<Id>, r: int ::
        && 0 <= r <= MAX_RESOLUTION
        && (forall i :: 0 <= i < |cells| ==> isValidCell(cells[i]) && resolution(cells[i]) <= r) ==>
          var out := compact(cells + [marker(r)]);
          && out.Success?
          && coveringResolution(out.value) == r
          && (forall s: nat :: Covers(out.value, s) <==> Covers(cells, s))
    }
  }
}
