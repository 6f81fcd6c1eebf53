/** The supercells of a covering, without visiting every fine cell. */
module Supercells {
  import opened Sequences
  import opened Results
  import opened Slots
  import opened Upstream
  import opened Sorting
  import Descendants
  import opened Coverings

  // --- What is computed ---

  /** A cell the covering stands for. */
  ghost predicate FineCell(a5: Crate, stored: seq<Id>, r: int, f: Id) {
    a5.CellAt(f, r) && a5.Covers(stored, a5.First(f))
  }

  /** `p` holds the centre of some fine cell of the covering. */
  ghost predicate IsSupercell(a5: Crate, stored: seq<Id>, r: int, q: int, p: Id) {
    exists f: Id :: FineCell(a5, stored, r, f) && a5.Supercell(f, q) == p
  }

  /** `found` lists exactly the supercells, each once. */
  ghost predicate ListsSupercells(a5: Crate, stored: seq<Id>, r: int, q: int, found: seq<Id>) {
    && Distinct(found)
    && forall p: Id :: p in found <==> IsSupercell(a5, stored, r, q, p)
  }

  // --- Runs of slots ---

  type Run = (nat, nat)

  ghost predicate Meets(a: Run, b: Run) {
    a.0 < b.1 && b.0 < a.1
  }

  predicate RunLe(a: Run, b: Run) {
    a.0 < b.0 || (a.0 == b.0 && a.1 <= b.1)
  }

  /** Non-empty, disjoint and ascending. */
  ghost predicate AscendingRuns(runs: seq<Run>) {
    && (forall i :: 0 <= i < |runs| ==> runs[i].0 < runs[i].1)
    && (forall i, j :: 0 <= i < j < |runs| ==> runs[i].1 <= runs[j].0)
  }

  /** The standard library's binary search for the first run in `[a, b)` that
      ends after `lo`. */
  function PartitionPoint(runs: seq<Run>, lo: nat, a: nat, b: nat): nat
    requires a <= b <= |runs|
    decreases b - a
  {
    if a == b then a else
    var mid := (a + b) / 2;
    if runs[mid].1 <= lo then PartitionPoint(runs, lo, mid + 1, b) else PartitionPoint(runs, lo, a, mid)
  }

  lemma {:induction false} PartitionPointSplits(runs: seq<Run>, lo: nat, a: nat, b: nat)
    requires a <= b <= |runs| && AscendingRuns(runs)
    requires forall i :: 0 <= i < a ==> runs[i].1 <= lo
    requires forall i :: b <= i < |runs| ==> lo < runs[i].1
    ensures var k := PartitionPoint(runs, lo, a, b);
            && a <= k <= b
            && (forall i :: 0 <= i < k ==> runs[i].1 <= lo)
            && (forall i :: k <= i < |runs| ==> lo < runs[i].1)
    decreases b - a
  {
    if a < b {
      var mid := (a + b) / 2;
      if runs[mid].1 <= lo {
        PartitionPointSplits(runs, lo, mid + 1, b);
      } else {
        PartitionPointSplits(runs, lo, a, mid);
      }
    }
  }

  predicate Overlaps(runs: seq<Run>, range: Run) {
    var i := PartitionPoint(runs, range.0, 0, |runs|);
    i < |runs| && runs[i].0 < range.1
  }

  /** One probe of the sorted runs decides whether any of them meets the
      range. */
  lemma OverlapsIsMeets(runs: seq<Run>, range: Run)
    requires AscendingRuns(runs)
    ensures Overlaps(runs, range) <==> exists i :: 0 <= i < |runs| && Meets(runs[i], range)
  {
    PartitionPointSplits(runs, range.0, 0, |runs|);
    var k := PartitionPoint(runs, range.0, 0, |runs|);
    if Overlaps(runs, range) {
      assert Meets(runs[k], range);
    }
  }

  // --- Budget ---

  function Pow2(n: nat): nat {
    if n == 0 then 1 else 2 * Pow2(n - 1)
  }

  /** How many fine cells are listed one by one rather than searched for. */
  function Budget(r: int, q: int): nat
    requires q <= r
  {
    var gap := if r - q <= 40 then r - q else 40;
    var b := 32 * Pow2(gap);
    if b >= 256 then b else 256
  }

  const U64_MAX: nat := 0xFFFF_FFFF_FFFF_FFFF

  function SaturatingAdd(a: nat, b: nat): nat {
    if a + b <= U64_MAX then a + b else U64_MAX
  }

  // --- Facts about a covering's fine cells ---

  /** What the search assumes of its input: the stored cells of a valid
      covering at a resolution below 30, and a coarser target. */
  ghost predicate Searchable(a5: Crate, stored: seq<Id>, r: int, q: int) {
    && 0 <= q < r < MAX_RESOLUTION
    && CellsUpTo(a5, stored, r)
    && InCurveOrder(a5, stored)
  }

  /** Fine cells are exactly the descendants of stored cells. */
  lemma DescendantIsFine(a5: Crate, stored: seq<Id>, r: int, i: nat, k: nat)
    requires a5.IndexContract() && 0 <= r < MAX_RESOLUTION && CellsUpTo(a5, stored, r) && i < |stored|
    requires Descendants.New(a5, stored[i], r).Success? && k < Descendants.New(a5, stored[i], r).value.count
    ensures FineCell(a5, stored, r, Descendants.New(a5, stored[i], r).value.Nth(a5, k))
  {
    Descendants.NthBelow30(a5, stored[i], r, k);
  }

  lemma FineIsDescendant(a5: Crate, stored: seq<Id>, r: int, f: Id) returns (i: nat, k: nat)
    requires a5.IndexContract() && 0 <= r < MAX_RESOLUTION && CellsUpTo(a5, stored, r)
    requires FineCell(a5, stored, r, f)
    ensures i < |stored| && Descendants.New(a5, stored[i], r).Success?
    ensures k < Descendants.New(a5, stored[i], r).value.count
    ensures Descendants.New(a5, stored[i], r).value.Nth(a5, k) == f
  {
    i :| 0 <= i < |stored| && !a5.isMarker(stored[i]) && a5.InBlock(stored[i], a5.First(f));
    Descendants.NewOutcome(a5, stored[i], r);
    Descendants.EncodableBelow30(a5, f, r);
    k := Descendants.NthReaches(a5, stored[i], f, r);
  }

  // --- Testing one coarse cell ---

  function RunOf(a5: Crate, c: Id): Run {
    (a5.First(c), a5.End(c))
  }

  method BlockOf(a5: Crate, c: Id) returns (out: Result<Run>)
    ensures a5.firstSlot(c).Success? ==> out == Success(RunOf(a5, c))
    ensures a5.firstSlot(c).Failure? ==> out.Failure?
  {
    var first := a5.firstSlot(c);
    if first.Failure? {
      return first.PropagateFailure();
    }
    return Success((first.value, first.value + a5.slotCount(c)));
  }

  /** `runs` are the blocks of `stored`, in order. */
  ghost predicate RunsOf(a5: Crate, stored: seq<Id>, runs: seq<Run>) {
    && |runs| == |stored|
    && forall i :: 0 <= i < |runs| ==> runs[i] == RunOf(a5, stored[i])
  }

  /** Fails exactly when some stored value has no block. */
  method CollectRuns(a5: Crate, stored: seq<Id>) returns (out: Result<seq<Run>>)
    ensures out.Success? <==> forall i :: 0 <= i < |stored| ==> a5.firstSlot(stored[i]).Success?
    ensures out.Success? ==> RunsOf(a5, stored, out.value)
  {
    var runs: seq<Run> := [];
    for i := 0 to |stored|
      invariant |runs| == i
      invariant forall j :: 0 <= j < i ==> a5.firstSlot(stored[j]).Success? && runs[j] == RunOf(a5, stored[j])
    {
      var run := BlockOf(a5, stored[i]);
      if run.Failure? {
        return run.PropagateFailure();
      }
      runs := runs + [run.value];
    }
    return Success(runs);
  }

  lemma RunsAscend(a5: Crate, stored: seq<Id>, r: int, runs: seq<Run>)
    requires a5.CellsOwnBlocks() && CellsUpTo(a5, stored, r) && InCurveOrder(a5, stored)
    requires RunsOf(a5, stored, runs)
    ensures AscendingRuns(runs) && SortedBy(runs, RunLe)
  {
    forall i | 0 <= i < |runs| ensures runs[i].0 < runs[i].1 {
      assert a5.isValidCell(stored[i]);
    }
  }

  /** Sorting the runs of a covering, already in curve order, leaves them as
      they are. */
  lemma SortedRunsUnchanged(runs: seq<Run>, sorted: seq<Run>)
    requires AscendingRuns(runs) && SortedBy(runs, RunLe)
    requires SortedBy(sorted, RunLe) && multiset(sorted) == multiset(runs)
    ensures sorted == runs
  {
    SortedUnique(runs, sorted, RunLe);
  }

  /** Two cells no finer than `r` whose blocks meet share a fine cell. */
  lemma SharedFineCell(a5: Crate, c: Id, d: Id, r: int) returns (f: Id)
    requires a5.CellsOwnBlocks() && a5.SlotsNameCells() && 0 <= r < MAX_RESOLUTION
    requires a5.isValidCell(c) && a5.resolution(c) <= r
    requires a5.isValidCell(d) && a5.resolution(d) <= r
    requires Meets(RunOf(a5, c), RunOf(a5, d))
    ensures a5.CellAt(f, r) && a5.InBlock(c, a5.First(f)) && a5.InBlock(d, a5.First(f))
  {
    var t := if a5.First(c) <= a5.First(d) then a5.First(d) else a5.First(c);
    AlignedFiner(a5.First(c), a5.resolution(c), r);
    AlignedFiner(a5.First(d), a5.resolution(d), r);
    assert a5.Encodable(t, r);
    f := a5.slotToCell(t, r);
  }

  /** Some subcell block of `p` meets the covering's runs. */
  ghost predicate SubcellMeets(a5: Crate, stored: seq<Id>, subcells: seq<Id>) {
    exists j, i :: 0 <= j < |subcells| && 0 <= i < |stored|
      && !a5.isMarker(subcells[j]) && Meets(RunOf(a5, stored[i]), RunOf(a5, subcells[j]))
  }

  /** The subcells of `p` meet the covering exactly when `p` is a supercell of
      one of its fine cells. */
  lemma MeetsIffSupercell(a5: Crate, stored: seq<Id>, r: int, q: int, p: Id)
    requires a5.IndexContract() && a5.LocationContract(r, q) && Searchable(a5, stored, r, q)
    requires a5.CellAt(p, q)
    ensures SubcellMeets(a5, stored, a5.cellToSubcells(p, r).value) <==> IsSupercell(a5, stored, r, q, p)
  {
    var subcells := a5.cellToSubcells(p, r).value;
    assert a5.CellsOwnBlocks() && a5.SlotsNameCells() && a5.SubcellsPartition(r, q);
    if SubcellMeets(a5, stored, subcells) {
      var j, i :| 0 <= j < |subcells| && 0 <= i < |stored|
        && !a5.isMarker(subcells[j]) && Meets(RunOf(a5, stored[i]), RunOf(a5, subcells[j]));
      MeetingSubcell(a5, stored, r, q, p, j, i);
    }
    if IsSupercell(a5, stored, r, q, p) {
      var f: Id :| FineCell(a5, stored, r, f) && a5.Supercell(f, q) == p;
      SubcellOfFine(a5, stored, r, q, p, f);
    }
  }

  lemma MeetingSubcell(a5: Crate, stored: seq<Id>, r: int, q: int, p: Id, j: nat, i: nat)
    requires a5.CellsOwnBlocks() && a5.SlotsNameCells() && a5.SubcellsPartition(r, q)
    requires Searchable(a5, stored, r, q) && a5.CellAt(p, q)
    requires j < |a5.cellToSubcells(p, r).value| && i < |stored|
    requires !a5.isMarker(a5.cellToSubcells(p, r).value[j])
    requires Meets(RunOf(a5, stored[i]), RunOf(a5, a5.cellToSubcells(p, r).value[j]))
    ensures IsSupercell(a5, stored, r, q, p)
  {
    var c := a5.cellToSubcells(p, r).value[j];
    var f := SharedFineCell(a5, stored[i], c, r);
    assert a5.isValidCell(stored[i]);
    assert a5.Covers(a5.cellToSubcells(p, r).value, a5.First(f));
    assert FineCell(a5, stored, r, f);
  }

  lemma SubcellOfFine(a5: Crate, stored: seq<Id>, r: int, q: int, p: Id, f: Id)
    requires a5.SubcellsPartition(r, q) && a5.CellAt(p, q)
    requires FineCell(a5, stored, r, f) && a5.Supercell(f, q) == p
    ensures a5.cellToSubcells(p, r).Success?
    ensures SubcellMeets(a5, stored, a5.cellToSubcells(p, r).value)
  {
    var s := a5.First(f);
    var subcells := a5.cellToSubcells(p, r).value;
    assert a5.Covers(subcells, s);
    var j :| 0 <= j < |subcells| && !a5.isMarker(subcells[j]) && a5.InBlock(subcells[j], s);
    var i :| 0 <= i < |stored| && !a5.isMarker(stored[i]) && a5.InBlock(stored[i], s);
    assert Meets(RunOf(a5, stored[i]), RunOf(a5, subcells[j]));
  }

  /** The subcell `c` reaches into one of the runs. */
  predicate Reaches(a5: Crate, runs: seq<Run>, c: Id) {
    !a5.isMarker(c) && a5.firstSlot(c).Success? && Overlaps(runs, RunOf(a5, c))
  }

  /** What a test of `p` may report: true as soon as some subcell reaches into
      the runs, false when every subcell has a block and none reaches, an error
      when the crate reports one. */
  ghost predicate HoldsOutcome(a5: Crate, runs: seq<Run>, p: Id, r: int, out: Result<bool>) {
    match a5.cellToSubcells(p, r)
    case Failure(_) => out.Failure?
    case Success(subcells) =>
      match out
      case Failure(_) => exists c :: c in subcells && !a5.isMarker(c) && a5.firstSlot(c).Failure?
      case Success(true) => exists c :: c in subcells && Reaches(a5, runs, c)
      case Success(false) => forall c :: c in subcells ==>
        !Reaches(a5, runs, c) && (a5.isMarker(c) || a5.firstSlot(c).Success?)
  }

  method Holds(a5: Crate, runs: seq<Run>, p: Id, r: int) returns (out: Result<bool>)
    ensures HoldsOutcome(a5, runs, p, r, out)
  {
    var subcells := a5.cellToSubcells(p, r);
    if subcells.Failure? {
      return subcells.PropagateFailure();
    }
    for j := 0 to |subcells.value|
      invariant forall k :: 0 <= k < j ==>
        !Reaches(a5, runs, subcells.value[k])
        && (a5.isMarker(subcells.value[k]) || a5.firstSlot(subcells.value[k]).Success?)
    {
      var c := subcells.value[j];
      if !a5.isMarker(c) {
        var run := BlockOf(a5, c);
        if run.Failure? {
          return run.PropagateFailure();
        }
        if Overlaps(runs, run.value) {
          assert c in subcells.value && Reaches(a5, runs, c);
          return Success(true);
        }
      }
    }
    return Success(false);
  }

  /** On a valid covering the test succeeds, and is true exactly for the
      supercells of its fine cells. */
  lemma HoldsIffSupercell(a5: Crate, stored: seq<Id>, runs: seq<Run>, r: int, q: int, p: Id, out: Result<bool>)
    requires a5.IndexContract() && a5.LocationContract(r, q) && Searchable(a5, stored, r, q)
    requires RunsOf(a5, stored, runs) && AscendingRuns(runs) && a5.CellAt(p, q)
    requires HoldsOutcome(a5, runs, p, r, out)
    ensures out == Success(IsSupercell(a5, stored, r, q, p))
  {
    MeetsIffSupercell(a5, stored, r, q, p);
    SubcellsHaveBlocks(a5, r, q, p);
    ReachesIsMeets(a5, stored, runs, a5.cellToSubcells(p, r).value);
  }

  lemma SubcellsHaveBlocks(a5: Crate, r: int, q: int, p: Id)
    requires a5.CellsOwnBlocks() && a5.SubcellsPartition(r, q) && a5.CellAt(p, q)
    ensures a5.cellToSubcells(p, r).Success?
    ensures forall c :: c in a5.cellToSubcells(p, r).value ==> a5.isMarker(c) || a5.firstSlot(c).Success?
  {
  }

  lemma ReachesIsMeets(a5: Crate, stored: seq<Id>, runs: seq<Run>, subcells: seq<Id>)
    requires RunsOf(a5, stored, runs) && AscendingRuns(runs)
    requires forall c :: c in subcells ==> a5.isMarker(c) || a5.firstSlot(c).Success?
    ensures (exists c :: c in subcells && Reaches(a5, runs, c)) <==> SubcellMeets(a5, stored, subcells)
  {
    if c :| c in subcells && Reaches(a5, runs, c) {
      OverlapsIsMeets(runs, RunOf(a5, c));
      var j :| 0 <= j < |subcells| && subcells[j] == c;
      var i :| 0 <= i < |runs| && Meets(runs[i], RunOf(a5, c));
      assert Meets(RunOf(a5, stored[i]), RunOf(a5, subcells[j]));
    }
    if SubcellMeets(a5, stored, subcells) {
      var j, i :| 0 <= j < |subcells| && 0 <= i < |stored|
        && !a5.isMarker(subcells[j]) && Meets(RunOf(a5, stored[i]), RunOf(a5, subcells[j]));
      OverlapsIsMeets(runs, RunOf(a5, subcells[j]));
      assert Meets(runs[i], RunOf(a5, subcells[j]));
      assert subcells[j] in subcells && Reaches(a5, runs, subcells[j]);
    }
  }

  // --- The search over coarse cells ---

  /** Every cell at resolution `q`. */
  ghost function CellsAt(a5: Crate, q: int): set<Id> {
    set p: Id | a5.CellAt(p, q)
  }

  ghost function SupercellSet(a5: Crate, stored: seq<Id>, r: int, q: int): set<Id> {
    set p: Id | a5.CellAt(p, q) && IsSupercell(a5, stored, r, q, p)
  }

  /** Everything seen is pending or decided, and what was found has had its
      neighbours seen. */
  ghost predicate SearchState(a5: Crate, want: set<Id>, seen: set<Id>, pending: seq<Id>, found: seq<Id>) {
    && Distinct(pending)
    && Distinct(found)
    && (forall p :: p in pending ==> p in seen)
    && (forall p :: p in found <==> p in seen && p !in pending && p in want)
    && (forall p :: p in found ==> a5.NeighbourSet(p) <= seen)
  }

  lemma SeeNew(a5: Crate, want: set<Id>, seen: set<Id>, pending: seq<Id>, found: seq<Id>, n: Id)
    requires SearchState(a5, want, seen, pending, found) && n !in seen
    ensures SearchState(a5, want, seen + {n}, pending + [n], found)
  {
  }

  lemma DropUnheld(a5: Crate, want: set<Id>, seen: set<Id>, p: Id, rest: seq<Id>, found: seq<Id>)
    requires SearchState(a5, want, seen, [p] + rest, found) && p !in want
    ensures SearchState(a5, want, seen, rest, found)
  {
    var pending := [p] + rest;
    assert rest == pending[1..];
    forall i | 0 <= i < |rest| ensures rest[i] != p {
      assert pending[i + 1] == rest[i] && pending[0] == p;
    }
    assert forall x :: x in pending <==> x == p || x in rest;
  }

  lemma KeepHeld(a5: Crate, want: set<Id>, seen: set<Id>, p: Id, rest: seq<Id>, found: seq<Id>)
    requires SearchState(a5, want, seen, [p] + rest, found) && p in want && a5.NeighbourSet(p) <= seen
    ensures SearchState(a5, want, seen, rest, found + [p])
  {
    var pending := [p] + rest;
    assert rest == pending[1..];
    assert p in pending;
    forall i | 0 <= i < |rest| ensures rest[i] != p {
      assert pending[i + 1] == rest[i] && pending[0] == p;
    }
    assert forall x :: x in pending <==> x == p || x in rest;
    assert forall x :: x in found + [p] <==> x == p || x in found;
  }

  /** Test every cell of the frontier, in order. */
  method TestFrontier(a5: Crate, runs: seq<Run>, frontier: seq<Id>, r: int) returns (kept: seq<Result<bool>>)
    ensures |kept| == |frontier|
    ensures forall i :: 0 <= i < |kept| ==> HoldsOutcome(a5, runs, frontier[i], r, kept[i])
  {
    kept := [];
    for i := 0 to |frontier|
      invariant |kept| == i
      invariant forall j :: 0 <= j < i ==> HoldsOutcome(a5, runs, frontier[j], r, kept[j])
    {
      var k := Holds(a5, runs, frontier[i], r);
      kept := kept + [k];
    }
  }

  /** The neighbours of a kept cell join the next round unless already seen. */
  method Expand(a5: Crate, ns: seq<Id>, seen0: set<Id>, next0: seq<Id>, ghost before: seq<Id>,
                ghost want: set<Id>, ghost found: seq<Id>)
    returns (seen: set<Id>, next: seq<Id>)
    requires SearchState(a5, want, seen0, before + next0, found)
    ensures SearchState(a5, want, seen, before + next, found)
    ensures seen == seen0 + set n | n in ns
    ensures next0 <= next && (next == next0 ==> seen == seen0)
    ensures |next| > |next0| ==> seen0 < seen
  {
    seen, next := seen0, next0;
    for i := 0 to |ns|
      invariant seen == seen0 + set n | n in ns[..i]
      invariant SearchState(a5, want, seen, before + next, found)
      invariant next0 <= next && (next == next0 ==> seen == seen0)
      invariant |next| > |next0| ==> seen0 < seen
    {
      var n := ns[i];
      assert ns[..i + 1] == ns[..i] + [n];
      if n !in seen {
        SeeNew(a5, want, seen, before + next, found, n);
        assert (before + next) + [n] == before + (next + [n]);
        seen, next := seen + {n}, next + [n];
      }
    }
    assert ns[..|ns|] == ns;
  }

  lemma VerdictsAreRight(a5: Crate, stored: seq<Id>, runs: seq<Run>, frontier: seq<Id>, r: int, q: int,
                         kept: seq<Result<bool>>)
    requires a5.IndexContract() && a5.LocationContract(r, q) && Searchable(a5, stored, r, q)
    requires RunsOf(a5, stored, runs) && AscendingRuns(runs)
    requires forall p :: p in frontier ==> a5.CellAt(p, q)
    requires |kept| == |frontier|
    requires forall i :: 0 <= i < |kept| ==> HoldsOutcome(a5, runs, frontier[i], r, kept[i])
    ensures Verdicts(SupercellSet(a5, stored, r, q), frontier, kept)
  {
    forall i | 0 <= i < |kept| ensures kept[i] == Success(frontier[i] in SupercellSet(a5, stored, r, q)) {
      assert frontier[i] in frontier;
      HoldsIffSupercell(a5, stored, runs, r, q, frontier[i], kept[i]);
    }
  }

  ghost predicate Verdicts(want: set<Id>, frontier: seq<Id>, kept: seq<Result<bool>>) {
    && |kept| == |frontier|
    && forall i :: 0 <= i < |kept| ==> kept[i] == Success(frontier[i] in want)
  }

  /** One round: keep the frontier's supercells and collect their unseen
      neighbours. */
  method Round(a5: Crate, frontier: seq<Id>, kept: seq<Result<bool>>, seen0: set<Id>, found0: seq<Id>,
               ghost want: set<Id>, ghost q: int)
    returns (out: Result<(set<Id>, seq<Id>, seq<Id>)>)
    requires a5.NeighboursExist(q) && Verdicts(want, frontier, kept)
    requires seen0 <= CellsAt(a5, q)
    requires SearchState(a5, want, seen0, frontier, found0)
    ensures out.Success?
    ensures var (seen, next, found) := out.value;
            && SearchState(a5, want, seen, next, found)
            && seen0 <= seen <= CellsAt(a5, q)
            && (next != [] ==> seen0 < seen)
  {
    var seen, next, found := seen0, [], found0;
    assert frontier[0..] + next == frontier;
    for i := 0 to |frontier|
      invariant SearchState(a5, want, seen, frontier[i..] + next, found)
      invariant seen0 <= seen <= CellsAt(a5, q)
      invariant next != [] ==> seen0 < seen
    {
      var p := frontier[i];
      assert frontier[i..] + next == [p] + (frontier[i + 1..] + next);
      match kept[i] {
        case Failure(e) =>
          return Failure(e);
        case Success(false) =>
          DropUnheld(a5, want, seen, p, frontier[i + 1..] + next, found);
        case Success(true) =>
          assert p in frontier[i..] + next;
          NeighboursAreCells(a5, q, p);
          match a5.Neighbours(p) {
            case Failure(e) =>
              return Failure(e);
            case Success(ns) =>
              seen, next := Expand(a5, ns, seen, next, frontier[i..], want, found);
              assert frontier[i..] + next == [p] + (frontier[i + 1..] + next);
              KeepHeld(a5, want, seen, p, frontier[i + 1..] + next, found);
              found := found + [p];
          }
      }
    }
    assert frontier[|frontier|..] + next == next;
    return Success((seen, next, found));
  }

  lemma NeighboursAreCells(a5: Crate, q: int, p: Id)
    requires a5.NeighboursExist(q) && a5.CellAt(p, q)
    ensures a5.Neighbours(p).Success?
    ensures (set n | n in a5.Neighbours(p).value) <= CellsAt(a5, q)
    ensures a5.NeighbourSet(p) == set n | n in a5.Neighbours(p).value
  {
  }

  /** The first descendant's supercell, where the search in `c` starts. */
  function SeedOf(a5: Crate, c: Id, r: int, q: int): Result<Id>
    requires r >= 0
  {
    var d :- Descendants.New(a5, c, r);
    a5.cellToSupercell(d.Nth(a5, 0), q)
  }

  lemma SeedIsSupercell(a5: Crate, stored: seq<Id>, r: int, q: int, i: nat)
    requires a5.IndexContract() && a5.SupercellsExist(r, q) && Searchable(a5, stored, r, q) && i < |stored|
    ensures SeedOf(a5, stored[i], r, q).Success?
    ensures Descendants.New(a5, stored[i], r).Success? && Descendants.New(a5, stored[i], r).value.count > 0
    ensures SeedOf(a5, stored[i], r, q).value == SuperOfNth(a5, stored[i], r, q, 0)
    ensures SeedOf(a5, stored[i], r, q).value in CellsAt(a5, q)
  {
    Descendants.NewOutcome(a5, stored[i], r);
    Descendants.NthBelow30(a5, stored[i], r, 0);
  }

  /** The distinct seeds of the stored cells. */
  method Seeds(a5: Crate, stored: seq<Id>, r: int, q: int, ghost want: set<Id>)
    returns (out: Result<(set<Id>, seq<Id>)>)
    requires r >= 0
    requires forall i :: 0 <= i < |stored| ==> SeedOf(a5, stored[i], r, q).Success?
    requires forall i :: 0 <= i < |stored| ==> SeedOf(a5, stored[i], r, q).value in CellsAt(a5, q)
    ensures out.Success?
    ensures var (seen, frontier) := out.value;
            && SearchState(a5, want, seen, frontier, [])
            && seen <= CellsAt(a5, q)
            && forall i :: 0 <= i < |stored| ==> SeedOf(a5, stored[i], r, q).value in seen
  {
    var seen: set<Id>, frontier: seq<Id> := {}, [];
    for i := 0 to |stored|
      invariant SearchState(a5, want, seen, frontier, [])
      invariant seen <= CellsAt(a5, q)
      invariant forall p :: p in seen ==> p in frontier
      invariant forall j :: 0 <= j < i ==> SeedOf(a5, stored[j], r, q).value in seen
    {
      match SeedOf(a5, stored[i], r, q) {
        case Failure(e) =>
          return Failure(e);
        case Success(seed) =>
          if seed !in seen {
            SeeNew(a5, want, seen, frontier, [], seed);
            seen, frontier := seen + {seed}, frontier + [seed];
          }
      }
    }
    return Success((seen, frontier));
  }

  /** A finished search: nothing pending, every stored cell's seed seen. */
  ghost predicate SearchDone(a5: Crate, stored: seq<Id>, r: int, q: int, seen: set<Id>, found: seq<Id>) {
    && r >= 0
    && SearchState(a5, SupercellSet(a5, stored, r, q), seen, [], found)
    && forall i :: 0 <= i < |stored| ==> SeedOf(a5, stored[i], r, q).Success? && SeedOf(a5, stored[i], r, q).value in seen
  }

  lemma SeenIsFound(a5: Crate, want: set<Id>, seen: set<Id>, found: seq<Id>, p: Id)
    requires SearchState(a5, want, seen, [], found) && p in seen && p in want
    ensures p in found
  {
  }

  lemma NearIsFound(a5: Crate, want: set<Id>, seen: set<Id>, found: seq<Id>, p: Id, n: Id)
    requires SearchState(a5, want, seen, [], found) && p in found && n in want
    requires n == p || n in a5.NeighbourSet(p)
    ensures n in found
  {
  }

  /** The supercells along a stored cell's stretch of curve are all wanted, and
      each is the previous one's or a neighbour of it. */
  ghost predicate Chained(a5: Crate, want: set<Id>, c: Id, r: int, q: int)
    requires r >= 0 && Descendants.New(a5, c, r).Success?
  {
    forall k: nat :: k < Descendants.New(a5, c, r).value.count ==>
      && SuperOfNth(a5, c, r, q, k) in want
      && (k > 0 ==>
            SuperOfNth(a5, c, r, q, k) == SuperOfNth(a5, c, r, q, k - 1)
            || SuperOfNth(a5, c, r, q, k) in a5.NeighbourSet(SuperOfNth(a5, c, r, q, k - 1)))
  }

  lemma StoredCellsChain(a5: Crate, stored: seq<Id>, r: int, q: int, i: nat)
    requires a5.IndexContract() && a5.LocationContract(r, q) && Searchable(a5, stored, r, q)
    requires i < |stored| && Descendants.New(a5, stored[i], r).Success?
    ensures Chained(a5, SupercellSet(a5, stored, r, q), stored[i], r, q)
  {
    forall k: nat | k < Descendants.New(a5, stored[i], r).value.count
      ensures SuperOfNth(a5, stored[i], r, q, k) in SupercellSet(a5, stored, r, q)
    {
      FineSupercellWanted(a5, stored, r, q, i, k);
    }
    forall k: nat | 0 < k < Descendants.New(a5, stored[i], r).value.count
      ensures SuperOfNth(a5, stored[i], r, q, k) == SuperOfNth(a5, stored[i], r, q, k - 1)
              || SuperOfNth(a5, stored[i], r, q, k) in a5.NeighbourSet(SuperOfNth(a5, stored[i], r, q, k - 1))
    {
      NextIsNear(a5, stored[i], r, q, k);
    }
  }

  /** So a search that has seen the first of them ends with all of them. */
  lemma {:induction false} StretchIsFound(a5: Crate, want: set<Id>, seen: set<Id>, found: seq<Id>,
                                          c: Id, r: int, q: int, k: nat)
    requires r >= 0 && Descendants.New(a5, c, r).Success? && Chained(a5, want, c, r, q)
    requires SearchState(a5, want, seen, [], found)
    requires SuperOfNth(a5, c, r, q, 0) in seen
    requires k < Descendants.New(a5, c, r).value.count
    ensures SuperOfNth(a5, c, r, q, k) in found
  {
    if k == 0 {
      SeenIsFound(a5, want, seen, found, SuperOfNth(a5, c, r, q, 0));
    } else {
      StretchIsFound(a5, want, seen, found, c, r, q, k - 1);
      NearIsFound(a5, want, seen, found, SuperOfNth(a5, c, r, q, k - 1), SuperOfNth(a5, c, r, q, k));
    }
  }

  /** The supercell of a stored cell's k-th descendant. */
  function SuperOfNth(a5: Crate, c: Id, r: int, q: int, k: nat): Id
    requires r >= 0 && Descendants.New(a5, c, r).Success?
  {
    a5.Supercell(Descendants.New(a5, c, r).value.Nth(a5, k), q)
  }

  lemma FineSupercellWanted(a5: Crate, stored: seq<Id>, r: int, q: int, i: nat, k: nat)
    requires a5.IndexContract() && a5.SupercellsExist(r, q) && Searchable(a5, stored, r, q)
    requires i < |stored| && Descendants.New(a5, stored[i], r).Success?
    requires k < Descendants.New(a5, stored[i], r).value.count
    ensures SuperOfNth(a5, stored[i], r, q, k) in SupercellSet(a5, stored, r, q)
  {
    DescendantIsFine(a5, stored, r, i, k);
  }

  lemma NextIsNear(a5: Crate, c: Id, r: int, q: int, k: nat)
    requires a5.IndexContract() && a5.CurveIsContinuous(r, q)
    requires a5.isValidCell(c) && 0 <= r < MAX_RESOLUTION && a5.resolution(c) <= r
    requires Descendants.New(a5, c, r).Success? && 0 < k < Descendants.New(a5, c, r).value.count
    ensures SuperOfNth(a5, c, r, q, k) == SuperOfNth(a5, c, r, q, k - 1)
            || SuperOfNth(a5, c, r, q, k) in a5.NeighbourSet(SuperOfNth(a5, c, r, q, k - 1))
  {
    Descendants.NthFollows(a5, c, r, k);
    var d := Descendants.New(a5, c, r).value;
    StepIsNear(a5, r, q, c, d.Nth(a5, k - 1), d.Nth(a5, k));
  }

  lemma StepIsNear(a5: Crate, r: int, q: int, c: Id, f: Id, g: Id)
    requires a5.CurveIsContinuous(r, q)
    requires a5.isValidCell(c) && a5.resolution(c) <= r && a5.CellAt(f, r) && a5.CellAt(g, r)
    requires a5.First(c) <= a5.First(f) && a5.First(g) == a5.End(f) && a5.End(g) <= a5.End(c)
    ensures a5.Supercell(g, q) == a5.Supercell(f, q) || a5.Supercell(g, q) in a5.NeighbourSet(a5.Supercell(f, q))
  {
  }

  /** The search misses nothing and adds nothing. */
  lemma SearchIsExact(a5: Crate, stored: seq<Id>, r: int, q: int, seen: set<Id>, found: seq<Id>)
    requires a5.IndexContract() && a5.LocationContract(r, q) && Searchable(a5, stored, r, q)
    requires SearchDone(a5, stored, r, q, seen, found)
    ensures ListsSupercells(a5, stored, r, q, found)
  {
    forall p: Id | IsSupercell(a5, stored, r, q, p) ensures p in found {
      var f: Id :| FineCell(a5, stored, r, f) && a5.Supercell(f, q) == p;
      var i, k := FineIsDescendant(a5, stored, r, f);
      SeedIsSupercell(a5, stored, r, q, i);
      StoredCellsChain(a5, stored, r, q, i);
      StretchIsFound(a5, SupercellSet(a5, stored, r, q), seen, found, stored[i], r, q, k);
    }
  }

  /** The frontier search. Each round either sees a new coarse cell or empties
      the frontier, so it ends. */
  method Search(a5: Crate, stored: seq<Id>, r: int, q: int) returns (out: Result<seq<Id>>)
    requires a5.IndexContract() && a5.LocationContract(r, q) && Searchable(a5, stored, r, q)
    ensures out.Success? && ListsSupercells(a5, stored, r, q, out.value)
  {
    StoredCellsHaveSeeds(a5, stored, r, q);
    ghost var want := SupercellSet(a5, stored, r, q);
    var collected := CollectRuns(a5, stored);
    match collected {
      case Failure(e) =>
        return Failure(e);
      case Success(unsorted) =>
        RunsAscend(a5, stored, r, unsorted);
        var runs := Sort(unsorted, RunLe);
        SortedRunsUnchanged(unsorted, runs);
        var seeds := Seeds(a5, stored, r, q, want);
        match seeds {
          case Failure(e) =>
            return Failure(e);
          case Success((seen0, frontier0)) =>
            var found := SearchFrom(a5, stored, runs, r, q, seen0, frontier0);
            return found;
        }
    }
  }

  lemma StoredCellsHaveSeeds(a5: Crate, stored: seq<Id>, r: int, q: int)
    requires a5.IndexContract() && a5.SupercellsExist(r, q) && Searchable(a5, stored, r, q)
    ensures forall i :: 0 <= i < |stored| ==>
              a5.firstSlot(stored[i]).Success?
              && SeedOf(a5, stored[i], r, q).Success? && SeedOf(a5, stored[i], r, q).value in CellsAt(a5, q)
  {
    forall i | 0 <= i < |stored|
      ensures a5.firstSlot(stored[i]).Success?
              && SeedOf(a5, stored[i], r, q).Success? && SeedOf(a5, stored[i], r, q).value in CellsAt(a5, q)
    {
      SeedIsSupercell(a5, stored, r, q, i);
    }
  }

  method SearchFrom(a5: Crate, ghost stored: seq<Id>, runs: seq<Run>, r: int, ghost q: int,
                    seen0: set<Id>, frontier0: seq<Id>) returns (out: Result<seq<Id>>)
    requires a5.IndexContract() && a5.LocationContract(r, q) && Searchable(a5, stored, r, q)
    requires RunsOf(a5, stored, runs) && AscendingRuns(runs)
    requires SearchState(a5, SupercellSet(a5, stored, r, q), seen0, frontier0, [])
    requires seen0 <= CellsAt(a5, q)
    requires forall i :: 0 <= i < |stored| ==>
               SeedOf(a5, stored[i], r, q).Success? && SeedOf(a5, stored[i], r, q).value in seen0
    ensures out.Success? && ListsSupercells(a5, stored, r, q, out.value)
  {
    ghost var want := SupercellSet(a5, stored, r, q);
    var seen, frontier, found: seq<Id> := seen0, frontier0, [];
    while frontier != []
      invariant SearchState(a5, want, seen, frontier, found)
      invariant seen0 <= seen <= CellsAt(a5, q)
      decreases |CellsAt(a5, q) - seen|, |frontier|
    {
      var kept := TestFrontier(a5, runs, frontier, r);
      VerdictsAreRight(a5, stored, runs, frontier, r, q, kept);
      var round := Round(a5, frontier, kept, seen, found, want, q);
      match round {
        case Failure(e) =>
          return Failure(e);
        case Success((seen', next, found')) =>
          if next != [] {
            FewerUnseen(CellsAt(a5, q), seen, seen');
          }
          FewerOrEqualUnseen(CellsAt(a5, q), seen, seen');
          seen, frontier, found := seen', next, found';
      }
    }
    SearchIsExact(a5, stored, r, q, seen, found);
    return Success(found);
  }

  lemma FewerUnseen(all: set<Id>, seen: set<Id>, more: set<Id>)
    requires seen < more <= all
    ensures |all - more| < |all - seen|
  {
    var n :| n in more && n !in seen;
    SubsetIsSmaller(all - more, all - seen - {n});
  }

  lemma FewerOrEqualUnseen(all: set<Id>, seen: set<Id>, more: set<Id>)
    requires seen <= more
    ensures |all - more| <= |all - seen|
  {
    SubsetIsSmaller(all - more, all - seen);
  }

  lemma {:induction false} SubsetIsSmaller(a: set<Id>, b: set<Id>)
    requires a <= b
    ensures |a| <= |b|
  {
    if a != {} {
      var x :| x in a;
      SubsetIsSmaller(a - {x}, b - {x});
    }
  }

  // --- The shortcut: list every fine cell ---

  function CountOf(a5: Crate, c: Id, r: int): nat
    requires r >= 0
  {
    match Descendants.New(a5, c, r)
    case Success(d) => d.count
    case Failure(_) => 0
  }

  /** How many fine cells the first `n` stored cells stand for. */
  ghost function FineCount(a5: Crate, stored: seq<Id>, r: int, n: nat): nat
    requires r >= 0 && n <= |stored|
  {
    if n == 0 then 0 else FineCount(a5, stored, r, n - 1) + CountOf(a5, stored[n - 1], r)
  }

  lemma {:induction false} FineCountGrows(a5: Crate, stored: seq<Id>, r: int, n: nat, m: nat)
    requires r >= 0 && n <= m <= |stored|
    ensures FineCount(a5, stored, r, n) <= FineCount(a5, stored, r, m)
  {
    if n < m {
      FineCountGrows(a5, stored, r, n, m - 1);
    }
  }

  /** The descendants of every stored cell, unless they exceed the budget. */
  method ListFine(a5: Crate, stored: seq<Id>, r: int, budget: nat)
    returns (out: Result<(bool, seq<Descendants.Descendants>)>)
    requires r >= 0 && budget < U64_MAX
    ensures out.Failure? ==> exists i :: 0 <= i < |stored| && Descendants.New(a5, stored[i], r).Failure?
    ensures out.Success? ==> (out.value.0 <==> FineCount(a5, stored, r, |stored|) <= budget)
    ensures out.Success? && out.value.0 ==>
              && |out.value.1| == |stored|
              && forall i :: 0 <= i < |stored| ==> Descendants.New(a5, stored[i], r) == Success(out.value.1[i])
  {
    var fine: seq<Descendants.Descendants> := [];
    var total: nat := 0;
    for i := 0 to |stored|
      invariant |fine| == i
      invariant total == FineCount(a5, stored, r, i) <= budget
      invariant forall j :: 0 <= j < i ==> Descendants.New(a5, stored[j], r) == Success(fine[j])
    {
      var d := Descendants.New(a5, stored[i], r);
      if d.Failure? {
        return d.PropagateFailure();
      }
      total := SaturatingAdd(total, d.value.count);
      if total > budget {
        FineCountGrows(a5, stored, r, i + 1, |stored|);
        return Success((false, fine));
      }
      fine := fine + [d.value];
    }
    return Success((true, fine));
  }

  /** `p` is the supercell of one of the first `n` descendants of `d`. */
  ghost predicate FromDescendants(a5: Crate, d: Descendants.Descendants, n: nat, q: int, p: Id) {
    exists k: nat :: k < n && a5.Supercell(d.Nth(a5, k), q) == p
  }

  method SupercellsOfFine(a5: Crate, fine: seq<Descendants.Descendants>, q: int) returns (out: Result<set<Id>>)
    ensures (forall i, k: nat :: 0 <= i < |fine| && k < fine[i].count ==> a5.cellToSupercell(fine[i].Nth(a5, k), q).Success?)
            ==> out.Success?
    ensures out.Success? ==>
              forall p: Id :: p in out.value <==> exists i :: 0 <= i < |fine| && FromDescendants(a5, fine[i], fine[i].count, q, p)
  {
    var found: set<Id> := {};
    for i := 0 to |fine|
      invariant forall p: Id :: p in found <==>
                  exists j :: 0 <= j < i && FromDescendants(a5, fine[j], fine[j].count, q, p)
    {
      ghost var before := found;
      for k := 0 to fine[i].count
        invariant forall p: Id :: p in found <==> p in before || FromDescendants(a5, fine[i], k, q, p)
      {
        match a5.cellToSupercell(fine[i].Nth(a5, k), q) {
          case Failure(e) =>
            return Failure(e);
          case Success(p) =>
            forall x: Id ensures FromDescendants(a5, fine[i], k + 1, q, x) <==> FromDescendants(a5, fine[i], k, q, x) || x == p {
              FromOneMore(a5, fine[i], k, q, x);
            }
            found := found + {p};
        }
      }
    }
    return Success(found);
  }

  lemma FromOneMore(a5: Crate, d: Descendants.Descendants, n: nat, q: int, p: Id)
    ensures FromDescendants(a5, d, n + 1, q, p) <==> FromDescendants(a5, d, n, q, p) || a5.Supercell(d.Nth(a5, n), q) == p
  {
  }

  /** A set's elements in some order. */
  method Elements(s: set<Id>) returns (out: seq<Id>)
    ensures Distinct(out)
    ensures forall p :: p in out <==> p in s
  {
    out := [];
    var rest := s;
    while rest != {}
      invariant Distinct(out)
      invariant forall p :: p in s <==> p in out || p in rest
      invariant forall p :: p in out ==> p !in rest
      decreases rest
    {
      var p :| p in rest;
      out, rest := out + [p], rest - {p};
    }
  }

  /** Listing finds exactly the supercells. */
  lemma ListingIsExact(a5: Crate, stored: seq<Id>, r: int, q: int, fine: seq<Descendants.Descendants>, p: Id)
    requires a5.IndexContract() && Searchable(a5, stored, r, q)
    requires |fine| == |stored|
    requires forall i :: 0 <= i < |stored| ==> Descendants.New(a5, stored[i], r) == Success(fine[i])
    ensures IsSupercell(a5, stored, r, q, p) <==>
              exists i :: 0 <= i < |fine| && FromDescendants(a5, fine[i], fine[i].count, q, p)
  {
    if IsSupercell(a5, stored, r, q, p) {
      var f: Id :| FineCell(a5, stored, r, f) && a5.Supercell(f, q) == p;
      var i, k := FineIsDescendant(a5, stored, r, f);
      assert FromDescendants(a5, fine[i], fine[i].count, q, p);
    }
    if i :| 0 <= i < |fine| && FromDescendants(a5, fine[i], fine[i].count, q, p) {
      var k: nat :| k < fine[i].count && a5.Supercell(fine[i].Nth(a5, k), q) == p;
      DescendantIsFine(a5, stored, r, i, k);
    }
  }

  // --- The whole operation ---

  /** The values that are not compaction markers. */
  function WithoutMarkers(a5: Crate, values: seq<Id>): seq<Id> {
    if values == [] then []
    else
      var last := |values| - 1;
      WithoutMarkers(a5, values[..last]) + if a5.isMarker(values[last]) then [] else [values[last]]
  }

  lemma {:induction false} NothingToRemove(a5: Crate, cells: seq<Id>)
    requires forall i :: 0 <= i < |cells| ==> !a5.isMarker(cells[i])
    ensures WithoutMarkers(a5, cells) == cells
  {
    if cells != [] {
      var last := |cells| - 1;
      NothingToRemove(a5, cells[..last]);
      assert cells == cells[..last] + [cells[last]];
    }
  }

  /** In a well-formed covering only the trailing marker is removed. */
  lemma OnlyTrailingMarker(a5: Crate, values: seq<Id>)
    requires a5.CellsOwnBlocks() && WellFormed(a5, values)
    ensures WithoutMarkers(a5, values) == StoredCells(a5, values)
  {
    var stored := StoredCells(a5, values);
    NoMarkerStored(a5, stored, a5.coveringResolution(values));
    NothingToRemove(a5, stored);
    if values != [] && a5.isMarker(values[|values| - 1]) {
      LastRemoved(a5, values);
    }
  }

  lemma NoMarkerStored(a5: Crate, stored: seq<Id>, r: int)
    requires a5.CellsOwnBlocks() && CellsUpTo(a5, stored, r)
    ensures forall i :: 0 <= i < |stored| ==> !a5.isMarker(stored[i])
  {
    forall i | 0 <= i < |stored| ensures !a5.isMarker(stored[i]) {
      assert a5.isValidCell(stored[i]);
    }
  }

  lemma LastRemoved(a5: Crate, values: seq<Id>)
    requires values != [] && a5.isMarker(values[|values| - 1])
    ensures WithoutMarkers(a5, values) == WithoutMarkers(a5, values[..|values| - 1])
  {
  }

  /** `out` is a covering at `q` that stands for exactly the supercells. */
  ghost predicate StandsForSupercells(a5: Crate, stored: seq<Id>, r: int, q: int, out: seq<Id>) {
    && a5.coveringResolution(out) == q
    && (forall p: Id :: a5.CellAt(p, q) ==> (a5.Covers(out, a5.First(p)) <==> IsSupercell(a5, stored, r, q, p)))
    && (forall s: nat :: a5.Covers(out, s) ==> exists p: Id :: IsSupercell(a5, stored, r, q, p) && a5.InBlock(p, s))
  }

  /** Every fine cell has its supercell at `q`. */
  lemma SupercellsAreCells(a5: Crate, stored: seq<Id>, r: int, q: int, p: Id)
    requires a5.SupercellsExist(r, q) && IsSupercell(a5, stored, r, q, p)
    ensures a5.CellAt(p, q)
  {
  }

  lemma ListedCellsCover(a5: Crate, stored: seq<Id>, r: int, q: int, found: seq<Id>, p: Id)
    requires a5.CellsOwnBlocks() && a5.BlocksAreUnique() && a5.SupercellsExist(r, q)
    requires ListsSupercells(a5, stored, r, q, found) && a5.CellAt(p, q)
    ensures a5.Covers(found, a5.First(p)) <==> IsSupercell(a5, stored, r, q, p)
  {
    if a5.Covers(found, a5.First(p)) {
      var i :| 0 <= i < |found| && !a5.isMarker(found[i]) && a5.InBlock(found[i], a5.First(p));
      assert found[i] in found;
      SupercellsAreCells(a5, stored, r, q, found[i]);
      NestedOrDisjoint(a5.First(found[i]), q, a5.First(p), q);
      assert a5.SameBlock(found[i], p);
    }
    if IsSupercell(a5, stored, r, q, p) {
      var i :| 0 <= i < |found| && found[i] == p;
      assert a5.InBlock(found[i], a5.First(p));
    }
  }

  /** Compacting the list keeps what it stands for. */
  lemma CompactedListing(a5: Crate, stored: seq<Id>, r: int, q: int, found: seq<Id>, out: Result<seq<Id>>)
    requires a5.IndexContract() && a5.SupercellsExist(r, q) && a5.CompactContract() && 0 <= q <= MAX_RESOLUTION
    requires ListsSupercells(a5, stored, r, q, found)
    requires out == a5.compact(found + [a5.marker(q)])
    ensures out.Success? && StandsForSupercells(a5, stored, r, q, out.value)
  {
    forall i | 0 <= i < |found| ensures a5.CellAt(found[i], q) {
      assert found[i] in found;
      SupercellsAreCells(a5, stored, r, q, found[i]);
    }
    CompactKeeps(a5, found, q);
    forall p: Id | a5.CellAt(p, q)
      ensures a5.Covers(out.value, a5.First(p)) <==> IsSupercell(a5, stored, r, q, p)
    {
      ListedCellsCover(a5, stored, r, q, found, p);
    }
    forall s: nat | a5.Covers(out.value, s)
      ensures exists p: Id :: IsSupercell(a5, stored, r, q, p) && a5.InBlock(p, s)
    {
      var i :| 0 <= i < |found| && !a5.isMarker(found[i]) && a5.InBlock(found[i], s);
      assert found[i] in found;
    }
  }

  lemma CompactKeeps(a5: Crate, cells: seq<Id>, q: int)
    requires a5.CompactContract() && 0 <= q <= MAX_RESOLUTION
    requires forall i :: 0 <= i < |cells| ==> a5.CellAt(cells[i], q)
    ensures var out := a5.compact(cells + [a5.marker(q)]);
            && out.Success? && a5.coveringResolution(out.value) == q
            && forall s: nat :: a5.Covers(out.value, s) <==> a5.Covers(cells, s)
  {
  }

  lemma ListingNotFiner(a5: Crate, stored: seq<Id>, r: int, q: int, found: seq<Id>)
    requires a5.SupercellsExist(r, q) && ListsSupercells(a5, stored, r, q, found)
    ensures NotFiner(a5, found, q)
  {
    forall i | 0 <= i < |found| ensures a5.resolution(found[i]) <= q {
      assert found[i] in found;
      SupercellsAreCells(a5, stored, r, q, found[i]);
    }
  }

  /** The distinct supercells, by whichever route the budget picks. */
  method FindSupercells(a5: Crate, stored: seq<Id>, r: int, q: int) returns (out: Result<seq<Id>>)
    requires a5.IndexContract() && a5.LocationContract(r, q) && Searchable(a5, stored, r, q)
    ensures out.Success? && ListsSupercells(a5, stored, r, q, out.value)
  {
    StoredCellsHaveSeeds(a5, stored, r, q);
    BudgetFits(r, q);
    var listed := ListFine(a5, stored, r, Budget(r, q));
    match listed {
      case Failure(e) =>
        return Failure(e);
      case Success((true, fine)) =>
        FineHaveSupercells(a5, stored, r, q, fine);
        var found := SupercellsOfFine(a5, fine, q);
        match found {
          case Failure(e) =>
            return Failure(e);
          case Success(ps) =>
            var list := Elements(ps);
            forall p: Id ensures p in list <==> IsSupercell(a5, stored, r, q, p) {
              ListingIsExact(a5, stored, r, q, fine, p);
            }
            return Success(list);
        }
      case Success((false, _)) =>
        out := Search(a5, stored, r, q);
    }
  }

  lemma FineHaveSupercells(a5: Crate, stored: seq<Id>, r: int, q: int, fine: seq<Descendants.Descendants>)
    requires a5.IndexContract() && a5.SupercellsExist(r, q) && Searchable(a5, stored, r, q)
    requires |fine| == |stored|
    requires forall i :: 0 <= i < |stored| ==> Descendants.New(a5, stored[i], r) == Success(fine[i])
    ensures forall i, k: nat :: 0 <= i < |fine| && k < fine[i].count ==>
              a5.cellToSupercell(fine[i].Nth(a5, k), q).Success?
  {
    forall i, k: nat | 0 <= i < |fine| && k < fine[i].count
      ensures a5.cellToSupercell(fine[i].Nth(a5, k), q).Success?
    {
      DescendantIsFine(a5, stored, r, i, k);
    }
  }

  lemma {:induction false} Pow2Grows(n: nat, m: nat)
    requires n <= m
    ensures Pow2(n) <= Pow2(m)
  {
    if n < m {
      Pow2Grows(n, m - 1);
    }
  }

  lemma BudgetFits(r: int, q: int)
    requires q <= r
    ensures 256 <= Budget(r, q) < U64_MAX
    ensures r - q <= 3 ==> Budget(r, q) == 256
    ensures 3 < r - q <= 40 ==> Budget(r, q) == 32 * Pow2(r - q)
    ensures 40 < r - q ==> Budget(r, q) == 32 * 0x100_0000_0000
  {
    var gap := if r - q <= 40 then r - q else 40;
    Pow2Grows(gap, 40);
    Pow2Of40();
    if gap > 3 {
      Pow2Grows(3, gap);
      assert Pow2(3) == 8;
    } else {
      Pow2Grows(gap, 3);
      assert Pow2(3) == 8;
    }
  }

  lemma Pow2Of40()
    ensures Pow2(40) == 0x100_0000_0000
  {
    Pow2PlusTen(0);
    Pow2PlusTen(10);
    Pow2PlusTen(20);
    Pow2PlusTen(30);
  }

  lemma Pow2PlusTen(n: nat)
    ensures Pow2(n + 10) == 1024 * Pow2(n)
  {
    Pow2PlusFive(n);
    Pow2PlusFive(n + 5);
  }

  lemma Pow2PlusFive(n: nat)
    ensures Pow2(n + 5) == 32 * Pow2(n)
  {
    assert Pow2(n + 3) == 8 * Pow2(n) by {
      assert Pow2(n + 2) == 4 * Pow2(n);
    }
  }

  method CoarserCovering(a5: Crate, stored: seq<Id>, r: int, q: int) returns (out: Result<seq<Id>>)
    requires a5.IndexContract() && a5.CompactContract() && a5.LocationContract(r, q) && Searchable(a5, stored, r, q)
    ensures out.Success? && StandsForSupercells(a5, stored, r, q, out.value)
  {
    var found := FindSupercells(a5, stored, r, q);
    match found {
      case Failure(e) =>
        return Failure(e);
      case Success(list) =>
        ListingNotFiner(a5, stored, r, q, list);
        out := CellsToCovering(a5, list, Some(q));
        CompactedListing(a5, stored, r, q, list, out);
    }
  }

  /** A covering seen at a coarser resolution, each fine cell by where its centre
      lies. */
  method CoveringSupercells(a5: Crate, values: seq<Id>, resolution: int) returns (out: Result<seq<Id>>)
    requires a5.IndexContract() && a5.CompactContract() && WellFormed(a5, values)
    requires 0 <= resolution <= MAX_RESOLUTION
    requires resolution < a5.coveringResolution(values) ==>
               && a5.coveringResolution(values) < MAX_RESOLUTION
               && a5.LocationContract(a5.coveringResolution(values), resolution)
    ensures StoredCells(a5, values) == [] ==> out == a5.compact([a5.marker(resolution)])
    ensures StoredCells(a5, values) != [] ==>
              var r := a5.coveringResolution(values);
              && (resolution > r ==> out.Failure?)
              && (resolution == r ==> out == a5.compact(StoredCells(a5, values) + [a5.marker(r)]))
              && (resolution < r ==>
                    out.Success? && StandsForSupercells(a5, StoredCells(a5, values), r, resolution, out.value))
  {
    var r := a5.coveringResolution(values);
    var stored := WithoutMarkers(a5, values);
    OnlyTrailingMarker(a5, values);
    if stored == [] {
      assert [] + [a5.marker(resolution)] == [a5.marker(resolution)];
      out := CellsToCovering(a5, [], Some(resolution));
      return;
    }
    if resolution > r {
      return Failure("resolution must not be finer than the covering's resolution");
    }
    if resolution == r {
      out := CellsToCovering(a5, stored, Some(resolution));
      return;
    }
    out := CoarserCovering(a5, stored, r, resolution);
  }
}
