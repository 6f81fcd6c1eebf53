/** Who owns an Arrow struct, from export to release.

    A struct is filled or empty: empty means its release callback is null. A
    filled array or schema owns what it was exported with, and for a list a
    child struct, which a consumer may move out. */
module ArrowOwnership {

  /** `id` names the export that filled the struct. */
  datatype Struct = Empty | Filled(id: nat, child: Struct)

  /** How often a struct, its child included, still owns export `id`. */
  function Owns(s: Struct, id: nat): nat {
    match s
    case Empty => 0
    case Filled(own, child) => (if own == id then 1 else 0) + Owns(child, id)
  }

  /** The release callback: the struct's own call, then its child's if that has
      not been moved out. */
  function ReleaseCalls(s: Struct): seq<nat> {
    match s
    case Empty => []
    case Filled(id, child) => [id] + ReleaseCalls(child)
  }

  /** How often `id` has been released. */
  function Calls(log: seq<nat>, id: nat): nat {
    if log == [] then 0 else Calls(log[..|log| - 1], id) + if log[|log| - 1] == id then 1 else 0
  }

  lemma {:induction false} CallsAppend(a: seq<nat>, b: seq<nat>, id: nat)
    ensures Calls(a + b, id) == Calls(a, id) + Calls(b, id)
  {
    if b == [] {
      assert a + b == a;
    } else {
      assert (a + b)[..|a + b| - 1] == a + b[..|b| - 1];
      CallsAppend(a, b[..|b| - 1], id);
    }
  }

  lemma {:induction false} CallsCount(log: seq<nat>, id: nat)
    ensures Calls(log, id) > 0 <==> id in log
  {
    if log != [] {
      var n := |log| - 1;
      assert log == log[..n] + [log[n]];
      CallsCount(log[..n], id);
    }
  }

  /** A release calls back once for everything the struct owns. */
  lemma {:induction false} ReleaseCallsOwned(s: Struct, id: nat)
    ensures Calls(ReleaseCalls(s), id) == Owns(s, id)
  {
    if s.Filled? {
      ReleaseCallsOwned(s.child, id);
      CallsAppend([s.id], ReleaseCalls(s.child), id);
      assert [s.id][..0] == [];
    }
  }

  // --- Several structs ---

  function OwnedByAll(structs: seq<Struct>, id: nat): nat {
    if structs == [] then 0 else OwnedByAll(structs[..|structs| - 1], id) + Owns(structs[|structs| - 1], id)
  }

  function ReleaseAll(structs: seq<Struct>): seq<nat> {
    if structs == [] then [] else ReleaseAll(structs[..|structs| - 1]) + ReleaseCalls(structs[|structs| - 1])
  }

  lemma {:induction false} ReleaseAllOwned(structs: seq<Struct>, id: nat)
    ensures Calls(ReleaseAll(structs), id) == OwnedByAll(structs, id)
  {
    if structs != [] {
      var n := |structs| - 1;
      ReleaseAllOwned(structs[..n], id);
      ReleaseCallsOwned(structs[n], id);
      CallsAppend(ReleaseAll(structs[..n]), ReleaseCalls(structs[n]), id);
    }
  }

  /** Replacing one struct changes what is owned by just that much. */
  lemma {:induction false} OwnedUpdate(structs: seq<Struct>, i: nat, s: Struct, id: nat)
    requires i < |structs|
    ensures OwnedByAll(structs[i := s], id) + Owns(structs[i], id) == OwnedByAll(structs, id) + Owns(s, id)
  {
    var n := |structs| - 1;
    if i == n {
      assert structs[i := s][..n] == structs[..n];
    } else {
      assert structs[i := s][..n] == structs[..n][i := s];
      OwnedUpdate(structs[..n], i, s, id);
    }
  }

  lemma OwnedAppend(structs: seq<Struct>, s: Struct, id: nat)
    ensures OwnedByAll(structs + [s], id) == OwnedByAll(structs, id) + Owns(s, id)
  {
    assert (structs + [s])[..|structs|] == structs;
  }

  lemma {:induction false} AllEmptyOwnNothing(structs: seq<Struct>, id: nat)
    requires forall i :: 0 <= i < |structs| ==> structs[i].Empty?
    ensures OwnedByAll(structs, id) == 0
  {
    if structs != [] {
      AllEmptyOwnNothing(structs[..|structs| - 1], id);
    }
  }

  lemma {:induction false} ReleaseAllAppend(a: seq<Struct>, b: seq<Struct>)
    ensures ReleaseAll(a + b) == ReleaseAll(a) + ReleaseAll(b)
  {
    if b == [] {
      assert a + b == a;
    } else {
      var rest, v := b[..|b| - 1], b[|b| - 1];
      ReleaseAllAppend(a, rest);
      ReleaseAllLast(a + rest, v);
      ReleaseAllLast(rest, v);
      assert b == rest + [v];
      assert a + b == (a + rest) + [v];
    }
  }

  lemma ReleaseAllLast(a: seq<Struct>, v: Struct)
    ensures ReleaseAll(a + [v]) == ReleaseAll(a) + ReleaseCalls(v)
  {
    assert (a + [v])[..|a|] == a;
  }

  // --- The slot holder ---

  /** The release callback run: the struct's memory is freed, then its child is
      released if its own callback is still set; both end empty. */
  method Release(s: Struct) returns (after: Struct, calls: seq<nat>)
    requires s.Filled?
    ensures after == Empty && calls == ReleaseCalls(s)
    ensures s.child.Empty? ==> calls == [s.id]
    ensures s.child.Filled? && s.child.child.Empty? ==> calls == [s.id, s.child.id]
    decreases s
  {
    calls := [s.id];
    if s.child.Filled? {
      var child, more := Release(s.child);
      calls := calls + more;
    }
    after := Empty;
  }

  /** The array and schema structs handed to a consumer. `log` records the
      callbacks made. */
  class FfiSlots {
    var arrays: seq<Struct>
    var schemas: seq<Struct>
    ghost var log: seq<nat>

    ghost function Structs(): seq<Struct>
      reads this
    {
      arrays + schemas
    }

    /** `n` empty pairs; none for a negative `n`. */
    constructor (n: int)
      ensures |arrays| == |schemas| == (if n > 0 then n else 0) && log == []
      ensures forall s :: s in Structs() ==> s.Empty?
    {
      var size := if n > 0 then n else 0;
      arrays := seq(size, (_: int) => Empty);
      schemas := seq(size, (_: int) => Empty);
      log := [];
    }

    /** Whatever is still filled is released, and all end empty. */
    method Drop()
      modifies this
      ensures |arrays| == |old(arrays)| && |schemas| == |old(schemas)|
      ensures forall s :: s in Structs() ==> s.Empty?
      ensures log == old(log) + ReleaseAll(old(Structs()))
    {
      var calls;
      ReleaseAllAppend(arrays, schemas);
      arrays, calls := ReleaseEach(arrays);
      log := log + calls;
      schemas, calls := ReleaseEach(schemas);
      log := log + calls;
    }

    /** After a successful read the holder is left without slots, what they held
        released. */
    method ReplaceByNone()
      modifies this
      ensures Structs() == []
      ensures log == old(log) + ReleaseAll(old(Structs()))
    {
      Drop();
      arrays, schemas := [], [];
    }
  }

  method ReleaseEach(structs: seq<Struct>) returns (after: seq<Struct>, calls: seq<nat>)
    ensures |after| == |structs| && (forall s :: s in after ==> s.Empty?)
    ensures calls == ReleaseAll(structs)
  {
    after, calls := [], [];
    for i := 0 to |structs|
      invariant |after| == i && forall s :: s in after ==> s.Empty?
      invariant calls == ReleaseAll(structs[..i])
    {
      assert structs[..i + 1][..i] == structs[..i];
      var s := structs[i];
      if s.Filled? {
        var more;
        s, more := Release(s);
        calls := calls + more;
      }
      after := after + [s];
    }
    assert structs[..|structs|] == structs;
  }

  // --- Runs ---

  /** The structs in this package's slots and in a consumer's hands, how many
      exports there have been, and the release callbacks made. */
  datatype World = World(slots: seq<Struct>, consumer: seq<Struct>, exports: nat, log: seq<nat>)

  const START := World([], [], 0, [])

  datatype Step =
    | NewSlot                    // an empty slot for a consumer to fill
    | ExportPrimitive(i: nat)    // fill an empty slot
    | ExportList(i: nat)         // fill an empty slot, with a child
    | ConsumerExports(list: bool) // a consumer makes a struct of its own
    | Import(i: nat)             // a consumer moves a slot's struct out
    | GiveBack(i: nat, j: nat)   // a consumer moves one of its structs into an empty slot
    | MoveChild(j: nat)          // a consumer moves a child out of its parent
    | ConsumerRelease(j: nat)
    | DropSlot(i: nat)           // a holder being dropped reaches this slot
    | ReadAll                    // a successful read drops the slots' contents
    | ReadFails                  // an error part way leaves the slots to their holder
    | Collect                    // every holder is garbage collected

  predicate Enabled(w: World, s: Step) {
    match s
    case NewSlot => true
    case ExportPrimitive(i) => i < |w.slots| && w.slots[i].Empty?
    case ExportList(i) => i < |w.slots| && w.slots[i].Empty?
    case ConsumerExports(_) => true
    case Import(i) => i < |w.slots| && w.slots[i].Filled?
    case GiveBack(i, j) => i < |w.slots| && j < |w.consumer| && w.slots[i].Empty? && w.consumer[j].Filled?
    case MoveChild(j) => j < |w.consumer| && w.consumer[j].Filled? && w.consumer[j].child.Filled?
    case ConsumerRelease(j) => j < |w.consumer| && w.consumer[j].Filled?
    case DropSlot(i) => i < |w.slots|
    case ReadAll => true
    case ReadFails => true
    case Collect => true
  }

  /** A newly exported struct: its child, if any, is exported first. */
  function Fresh(exports: nat, list: bool): Struct {
    if list then Filled(exports + 1, Filled(exports, Empty)) else Filled(exports, Empty)
  }

  function Next(w: World, s: Step): World
    requires Enabled(w, s)
  {
    match s
    case NewSlot => w.(slots := w.slots + [Empty])
    case ExportPrimitive(i) => w.(slots := w.slots[i := Fresh(w.exports, false)], exports := w.exports + 1)
    case ExportList(i) => w.(slots := w.slots[i := Fresh(w.exports, true)], exports := w.exports + 2)
    case ConsumerExports(list) =>
      w.(consumer := w.consumer + [Fresh(w.exports, list)], exports := w.exports + if list then 2 else 1)
    case Import(i) => w.(slots := w.slots[i := Empty], consumer := w.consumer + [w.slots[i]])
    case GiveBack(i, j) => w.(slots := w.slots[i := w.consumer[j]], consumer := w.consumer[j := Empty])
    case MoveChild(j) =>
      w.(consumer := w.consumer[j := w.consumer[j].(child := Empty)] + [w.consumer[j].child])
    case ConsumerRelease(j) =>
      w.(consumer := w.consumer[j := Empty], log := w.log + ReleaseCalls(w.consumer[j]))
    case DropSlot(i) => w.(slots := w.slots[i := Empty], log := w.log + ReleaseCalls(w.slots[i]))
    case ReadAll => w.(slots := [], log := w.log + ReleaseAll(w.slots))
    case ReadFails => w
    case Collect => w.(slots := [], log := w.log + ReleaseAll(w.slots))
  }

  /** How often export `id` is still held. */
  function Held(w: World, id: nat): nat {
    OwnedByAll(w.slots, id) + OwnedByAll(w.consumer, id)
  }

  /** Export `id` is still held somewhere or has been released, never both and
      neither twice. */
  ghost predicate Conserved(w: World, id: nat) {
    Calls(w.log, id) + Held(w, id) == if id < w.exports then 1 else 0
  }

  /** Moving a child out splits what its parent owned in two. */
  lemma MoveChildConserves(consumer: seq<Struct>, j: nat, parent: Struct, id: nat)
    requires j < |consumer| && consumer[j] == parent && parent.Filled?
    ensures OwnedByAll(consumer[j := parent.(child := Empty)] + [parent.child], id) == OwnedByAll(consumer, id)
  {
    var bare := parent.(child := Empty);
    OwnedUpdate(consumer, j, bare, id);
    OwnedAppend(consumer[j := bare], parent.child, id);
  }

  lemma NextConserves(w: World, s: Step, id: nat)
    requires Conserved(w, id) && Enabled(w, s)
    ensures Conserved(Next(w, s), id)
  {
    match s
    case NewSlot => OwnedAppend(w.slots, Empty, id);
    case ExportPrimitive(_) => ExportConserves(w, s, id);
    case ExportList(_) => ExportConserves(w, s, id);
    case ConsumerExports(_) => ExportConserves(w, s, id);
    case Import(_) => MoveConserves(w, s, id);
    case GiveBack(_, _) => MoveConserves(w, s, id);
    case MoveChild(_) => MoveConserves(w, s, id);
    case ConsumerRelease(_) => ReleaseConserves(w, s, id);
    case DropSlot(_) => ReleaseConserves(w, s, id);
    case ReadAll => CollectConserves(w, s, id);
    case ReadFails =>
    case Collect => CollectConserves(w, s, id);
  }

  lemma ExportConserves(w: World, s: Step, id: nat)
    requires Conserved(w, id) && Enabled(w, s) && (s.ExportPrimitive? || s.ExportList? || s.ConsumerExports?)
    ensures Conserved(Next(w, s), id)
  {
    match s
    case ExportPrimitive(i) => OwnedUpdate(w.slots, i, Fresh(w.exports, false), id);
    case ExportList(i) => OwnedUpdate(w.slots, i, Fresh(w.exports, true), id);
    case ConsumerExports(list) => OwnedAppend(w.consumer, Fresh(w.exports, list), id);
  }

  lemma MoveConserves(w: World, s: Step, id: nat)
    requires Conserved(w, id) && Enabled(w, s) && (s.Import? || s.GiveBack? || s.MoveChild?)
    ensures Conserved(Next(w, s), id)
  {
    match s
    case Import(i) =>
      OwnedUpdate(w.slots, i, Empty, id);
      OwnedAppend(w.consumer, w.slots[i], id);
    case GiveBack(i, j) =>
      OwnedUpdate(w.slots, i, w.consumer[j], id);
      OwnedUpdate(w.consumer, j, Empty, id);
    case MoveChild(j) => MoveChildConserves(w.consumer, j, w.consumer[j], id);
  }

  lemma ReleaseConserves(w: World, s: Step, id: nat)
    requires Conserved(w, id) && Enabled(w, s) && (s.ConsumerRelease? || s.DropSlot?)
    ensures Conserved(Next(w, s), id)
  {
    match s
    case ConsumerRelease(j) =>
      OwnedUpdate(w.consumer, j, Empty, id);
      ReleaseCallsOwned(w.consumer[j], id);
      CallsAppend(w.log, ReleaseCalls(w.consumer[j]), id);
    case DropSlot(i) =>
      OwnedUpdate(w.slots, i, Empty, id);
      ReleaseCallsOwned(w.slots[i], id);
      CallsAppend(w.log, ReleaseCalls(w.slots[i]), id);
  }

  lemma CollectConserves(w: World, s: Step, id: nat)
    requires Conserved(w, id) && Enabled(w, s) && (s.ReadAll? || s.Collect?)
    ensures Conserved(Next(w, s), id)
  {
    ReleaseAllOwned(w.slots, id);
    CallsAppend(w.log, ReleaseAll(w.slots), id);
  }

  ghost predicate Runs(w: World, steps: seq<Step>)
    decreases |steps|
  {
    steps == [] || (Enabled(w, steps[0]) && Runs(Next(w, steps[0]), steps[1..]))
  }

  ghost function After(w: World, steps: seq<Step>): World
    requires Runs(w, steps)
    decreases |steps|
  {
    if steps == [] then w else After(Next(w, steps[0]), steps[1..])
  }

  lemma {:induction false} RunConserves(w: World, steps: seq<Step>, id: nat)
    requires Conserved(w, id) && Runs(w, steps)
    ensures Conserved(After(w, steps), id)
    decreases |steps|
  {
    if steps != [] {
      NextConserves(w, steps[0], id);
      RunConserves(Next(w, steps[0]), steps[1..], id);
    }
  }

  /** In every run of exports, moves, reads, errors and collections, no export is
      released twice, and none while it is still held anywhere. */
  lemma ReleasedAtMostOnce(steps: seq<Step>, id: nat)
    requires Runs(START, steps)
    ensures var w := After(START, steps);
            && Calls(w.log, id) <= 1
            && (Held(w, id) > 0 ==> id !in w.log)
            && (id in w.log ==> id < w.exports)
  {
    RunConserves(START, steps, id);
    CallsCount(After(START, steps).log, id);
  }

  ghost predicate NothingFilled(w: World) {
    forall s :: s in w.slots + w.consumer ==> s.Empty?
  }

  /** Once no struct is filled any more, every export has been released exactly
      once: a parent and its child each once, together or apart. */
  lemma ReleasedExactlyOnce(steps: seq<Step>, id: nat)
    requires Runs(START, steps)
    requires NothingFilled(After(START, steps))
    ensures Calls(After(START, steps).log, id) == if id < After(START, steps).exports then 1 else 0
  {
    RunConserves(START, steps, id);
    var w := After(START, steps);
    AllEmptyOwnNothing(w.slots, id);
    AllEmptyOwnNothing(w.consumer, id);
  }

  /** Releases of what a consumer still holds, from its j-th struct on. */
  ghost function Releases(w: World, j: nat): (steps: seq<Step>)
    requires j <= |w.consumer|
    ensures forall s :: s in steps ==> s.ConsumerRelease?
    decreases |w.consumer| - j
  {
    if j == |w.consumer| then []
    else if w.consumer[j].Empty? then Releases(w, j + 1)
    else [ConsumerRelease(j)] + Releases(Next(w, ConsumerRelease(j)), j + 1)
  }

  lemma {:induction false} ReleasesRun(w: World, j: nat)
    requires j <= |w.consumer| && w.slots == [] && forall i :: 0 <= i < j ==> w.consumer[i].Empty?
    ensures Runs(w, Releases(w, j))
    ensures var v := After(w, Releases(w, j)); NothingFilled(v) && v.exports == w.exports
    decreases |w.consumer| - j
  {
    if j < |w.consumer| {
      if w.consumer[j].Empty? {
        ReleasesRun(w, j + 1);
      } else {
        var next := Next(w, ConsumerRelease(j));
        ReleasesRun(next, j + 1);
        assert Releases(w, j)[1..] == Releases(next, j + 1);
      }
    }
  }

  lemma {:induction false} RunsOn(w: World, steps: seq<Step>, more: seq<Step>)
    requires Runs(w, steps) && Runs(After(w, steps), more)
    ensures Runs(w, steps + more) && After(w, steps + more) == After(After(w, steps), more)
    decreases |steps|
  {
    if steps == [] {
      assert steps + more == more;
    } else {
      RunsOn(Next(w, steps[0]), steps[1..], more);
      assert (steps + more)[1..] == steps[1..] + more;
    }
  }

  /** Every holder collected, then each consumer's structs released. */
  ghost function Ending(w: World): seq<Step> {
    [Collect] + Releases(Next(w, Collect), 0)
  }

  /** That state can be reached from wherever a run has got to: a collection and
      the consumers' releases end it, with every export released exactly once. */
  lemma EveryRunCanEnd(steps: seq<Step>)
    requires Runs(START, steps)
    ensures var w := After(START, steps);
            && Runs(START, steps + Ending(w))
            && NothingFilled(After(START, steps + Ending(w)))
            && After(START, steps + Ending(w)).exports == w.exports
            && forall id: nat :: Calls(After(START, steps + Ending(w)).log, id) == if id < w.exports then 1 else 0
  {
    var w := After(START, steps);
    var next := Next(w, Collect);
    ReleasesRun(next, 0);
    assert Ending(w)[1..] == Releases(next, 0);
    RunsOn(START, steps, Ending(w));
    forall id: nat ensures Calls(After(START, steps + Ending(w)).log, id) == if id < w.exports then 1 else 0 {
      ReleasedExactlyOnce(steps + Ending(w), id);
    }
  }

  // --- Some runs, step by step ---

  /** What a run leaves. */
  ghost predicate Leaves(w: World, steps: seq<Step>, end: World) {
    Runs(w, steps) && After(w, steps) == end
  }

  lemma Then(w: World, steps: seq<Step>, k: nat, next: World, end: World)
    requires k < |steps| && Enabled(w, steps[k]) && Next(w, steps[k]) == next && Leaves(next, steps[k + 1..], end)
    ensures Leaves(w, steps[k..], end)
  {
    assert steps[k..][1..] == steps[k + 1..];
  }

  /** A list is exported, a consumer takes it, moves the child out and releases
      both: the parent's callback runs, then the child's. */
  lemma ConsumedList()
    ensures Leaves(START, [NewSlot, ExportList(0), Import(0), MoveChild(0), ConsumerRelease(0), ConsumerRelease(1)],
                   World([Empty], [Empty, Empty], 2, [1, 0]))
  {
    var steps := [NewSlot, ExportList(0), Import(0), MoveChild(0), ConsumerRelease(0), ConsumerRelease(1)];
    var child, parent := Filled(0, Empty), Filled(1, Filled(0, Empty));
    var w1, w2 := World([Empty], [], 0, []), World([parent], [], 2, []);
    var w3, w4 := World([Empty], [parent], 2, []), World([Empty], [Filled(1, Empty), child], 2, []);
    var w5, end := World([Empty], [Empty, child], 2, [1]), World([Empty], [Empty, Empty], 2, [1, 0]);
    Then(w5, steps, 5, end, end);
    Then(w4, steps, 4, w5, end);
    Then(w3, steps, 3, w4, end);
    Then(w2, steps, 2, w3, end);
    Then(w1, steps, 1, w2, end);
    Then(START, steps, 0, w1, end);
    assert steps[0..] == steps;
  }

  /** A consumer gives a struct of its own back, and a read that succeeds after
      one that fails releases it. */
  lemma GivenBackAndRead()
    ensures Leaves(START, [ConsumerExports(false), NewSlot, GiveBack(0, 0), ReadFails, ReadAll], World([], [Empty], 1, [0]))
  {
    var steps := [ConsumerExports(false), NewSlot, GiveBack(0, 0), ReadFails, ReadAll];
    var own := Filled(0, Empty);
    var w1, w2 := World([], [own], 1, []), World([Empty], [own], 1, []);
    var w3, end := World([own], [Empty], 1, []), World([], [Empty], 1, [0]);
    ReleaseOne(own);
    Then(w3, steps, 4, end, end);
    Then(w3, steps, 3, w3, end);
    Then(w2, steps, 2, w3, end);
    Then(w1, steps, 1, w2, end);
    Then(START, steps, 0, w1, end);
    assert steps[0..] == steps;
  }

  /** A filled slot is released when its holder is dropped, and another when its
      holder is collected. */
  lemma DroppedAndCollected()
    ensures Leaves(START, [NewSlot, ExportPrimitive(0), DropSlot(0), ExportPrimitive(0), Collect], World([], [], 2, [0, 1]))
  {
    var steps := [NewSlot, ExportPrimitive(0), DropSlot(0), ExportPrimitive(0), Collect];
    var w1, w2 := World([Empty], [], 0, []), World([Filled(0, Empty)], [], 1, []);
    var w3, w4 := World([Empty], [], 1, [0]), World([Filled(1, Empty)], [], 2, [0]);
    var end := World([], [], 2, [0, 1]);
    ReleaseOne(Filled(1, Empty));
    Then(w4, steps, 4, end, end);
    Then(w3, steps, 3, w4, end);
    Then(w2, steps, 2, w3, end);
    Then(w1, steps, 1, w2, end);
    Then(START, steps, 0, w1, end);
    assert steps[0..] == steps;
  }

  lemma ReleaseOne(a: Struct)
    ensures ReleaseAll([a]) == ReleaseCalls(a)
  {
    ReleaseAllLast([], a);
    assert [] + [a] == [a];
  }
}
