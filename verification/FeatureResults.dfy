/** Results per line or part gathered into one result per feature. */
module FeatureResults {
  import opened Results
  import opened Sequences
  import opened Flattening
  import opened Upstream
  import opened Coverings

  // --- Lines: one path per feature ---

  /** The cells of feature `f`'s lines among the first `n`, in order. */
  function Traced(lines: seq<Result<seq<Id>>>, features: seq<nat>, f: nat, n: nat): seq<Id>
    requires n <= |lines| == |features|
  {
    if n == 0 then []
    else
      var before := Traced(lines, features, f, n - 1);
      if features[n - 1] == f && lines[n - 1].Success? then before + lines[n - 1].value else before
  }

  ghost predicate Holds(seen: set<Id>, path: seq<Id>) {
    forall c :: c in seen <==> c in path
  }

  lemma UniqueNext(x: seq<Id>, c: Id)
    ensures Unique(x + [c]) == if c in Unique(x) then Unique(x) else Unique(x) + [c]
  {
    assert (x + [c])[..|x|] == x;
  }

  lemma UniqueStep(before: seq<Id>, cells: seq<Id>, i: nat)
    requires i < |cells|
    ensures var u := Unique(before + cells[..i]);
            Unique(before + cells[..i + 1]) == if cells[i] in u then u else u + [cells[i]]
  {
    UniqueNext(before + cells[..i], cells[i]);
    assert before + cells[..i + 1] == before + cells[..i] + [cells[i]];
  }

  /** A path extended by one line, skipping cells seen before. */
  method ExtendPath(path: seq<Id>, seen: set<Id>, cells: seq<Id>, ghost before: seq<Id>)
    returns (path': seq<Id>, seen': set<Id>)
    requires path == Unique(before) && Holds(seen, path)
    ensures path' == Unique(before + cells) && Holds(seen', path')
  {
    path', seen' := path, seen;
    assert before + cells[..0] == before;
    for i := 0 to |cells|
      invariant path' == Unique(before + cells[..i]) && Holds(seen', path')
    {
      var c := cells[i];
      UniqueStep(before, cells, i);
      if c !in seen' {
        path', seen' := path' + [c], seen' + {c};
      }
    }
    assert cells[..|cells|] == cells;
  }

  /** Path `f`, from 0, of the first `n` lines; features count from 1. */
  ghost predicate IsPath(lines: seq<Result<seq<Id>>>, features: seq<nat>, n: nat, f: nat, path: seq<Id>)
    requires n <= |lines| == |features|
  {
    path == Unique(Traced(lines, features, f + 1, n))
  }

  /** One path per feature, its lines in order with each cell kept where it was
      first seen; an error when any line fails. */
  method GatherLines(lines: seq<Result<seq<Id>>>, features: seq<nat>, n: nat) returns (out: Result<seq<seq<Id>>>)
    requires |lines| == |features| && forall i :: 0 <= i < |features| ==> 1 <= features[i] <= n
    ensures out.Success? <==> forall i :: 0 <= i < |lines| ==> lines[i].Success?
    ensures out.Success? ==>
              |out.value| == n
              && forall f :: 0 <= f < n ==>
                   && FirstOccurrences(Traced(lines, features, f + 1, |lines|), out.value[f])
                   && Distinct(out.value[f])
  {
    var paths: seq<seq<Id>> := seq(n, (_: int) => []);
    var seen: seq<set<Id>> := seq(n, (_: int) => {});
    for i := 0 to |lines|
      invariant forall k :: 0 <= k < i ==> lines[k].Success?
      invariant |paths| == |seen| == n
      invariant forall f :: 0 <= f < n ==> IsPath(lines, features, i, f, paths[f]) && Holds(seen[f], paths[f])
    {
      if lines[i].Failure? {
        return Failure(lines[i].error);
      }
      var f := features[i] - 1;
      var path, cells := ExtendPath(paths[f], seen[f], lines[i].value, Traced(lines, features, f + 1, i));
      paths, seen := paths[f := path], seen[f := cells];
    }
    forall f | 0 <= f < n
      ensures FirstOccurrences(Traced(lines, features, f + 1, |lines|), paths[f]) && Distinct(paths[f])
    {
      assert IsPath(lines, features, |lines|, f, paths[f]);
      UniqueFirstOccurrences(Traced(lines, features, f + 1, |lines|));
      FirstOccurrencesDistinct(Traced(lines, features, f + 1, |lines|), paths[f]);
    }
    return Success(paths);
  }

  // --- Parts: one covering per feature ---

  /** A slot of some part of feature `f` among the first `n`. */
  ghost predicate InPart(a5: Crate, parts: seq<Result<seq<Id>>>, features: seq<nat>, f: nat, n: nat, s: nat)
    requires n <= |parts| == |features|
  {
    exists i :: 0 <= i < n && features[i] == f && parts[i].Success? && a5.Covers(parts[i].value, s)
  }

  /** What has been gathered for feature `f`, from 0: nothing before its first
      part, then a well-formed covering of exactly its parts' slots. */
  ghost predicate IsGathered(a5: Crate, parts: seq<Result<seq<Id>>>, features: seq<nat>, n: nat, f: nat, got: Option<seq<Id>>)
    requires n <= |parts| == |features|
  {
    && (got.None? <==> forall i :: 0 <= i < n ==> features[i] != f + 1)
    && (got.Some? ==> WellFormed(a5, got.value))
    && (got.Some? ==> forall s: nat :: a5.Covers(got.value, s) <==> InPart(a5, parts, features, f + 1, n, s))
  }

  lemma GatheredNext(a5: Crate, parts: seq<Result<seq<Id>>>, features: seq<nat>, n: nat, f: nat,
                     got: Option<seq<Id>>, next: seq<Id>)
    requires n < |parts| == |features| && parts[n].Success? && IsGathered(a5, parts, features, n, f, got)
    requires features[n] == f + 1
    requires WellFormed(a5, next)
    requires got.None? ==> next == parts[n].value
    requires got.Some? ==> CoversEither(a5, next, got.value, parts[n].value)
    ensures IsGathered(a5, parts, features, n + 1, f, Some(next))
  {
    forall s: nat ensures a5.Covers(next, s) <==> InPart(a5, parts, features, f + 1, n + 1, s) {
      if InPart(a5, parts, features, f + 1, n + 1, s) {
        var i :| 0 <= i < n + 1 && features[i] == f + 1 && parts[i].Success? && a5.Covers(parts[i].value, s);
        assert i < n ==> InPart(a5, parts, features, f + 1, n, s);
      }
    }
  }

  lemma GatheredElsewhere(a5: Crate, parts: seq<Result<seq<Id>>>, features: seq<nat>, n: nat, f: nat, got: Option<seq<Id>>)
    requires n < |parts| == |features| && IsGathered(a5, parts, features, n, f, got) && features[n] != f + 1
    ensures IsGathered(a5, parts, features, n + 1, f, got)
  {
    if got.Some? {
      forall s: nat ensures a5.Covers(got.value, s) <==> InPart(a5, parts, features, f + 1, n + 1, s) {
        if InPart(a5, parts, features, f + 1, n + 1, s) {
          var i :| 0 <= i < n + 1 && features[i] == f + 1 && parts[i].Success? && a5.Covers(parts[i].value, s);
          assert i < n && InPart(a5, parts, features, f + 1, n, s);
        }
      }
    }
  }

  /** Upstream's union failed on what feature `f` had gathered from the parts
      before part `i`, and that part. */
  ghost predicate UnionFails(a5: Crate, union: (seq<Id>, seq<Id>) -> Result<seq<Id>>, parts: seq<Result<seq<Id>>>,
                             features: seq<nat>, i: nat, gathered: seq<Id>)
    requires |parts| == |features|
  {
    && i < |parts| && parts[i].Success? && features[i] > 0
    && IsGathered(a5, parts, features, i, features[i] - 1, Some(gathered))
    && union(gathered, parts[i].value).Failure?
  }

  ghost predicate PartsWellFormed(a5: Crate, parts: seq<Result<seq<Id>>>) {
    forall i :: 0 <= i < |parts| && parts[i].Success? ==> WellFormed(a5, parts[i].value)
  }

  ghost predicate AllGathered(a5: Crate, parts: seq<Result<seq<Id>>>, features: seq<nat>, n: nat, i: nat, slots: seq<Option<seq<Id>>>)
    requires i <= |parts| == |features|
  {
    |slots| == n && forall f :: 0 <= f < n ==> IsGathered(a5, parts, features, i, f, slots[f])
  }

  method NothingGathered(a5: Crate, parts: seq<Result<seq<Id>>>, features: seq<nat>, n: nat) returns (slots: seq<Option<seq<Id>>>)
    requires |parts| == |features|
    ensures AllGathered(a5, parts, features, n, 0, slots)
  {
    slots := seq(n, (_: int) => None);
  }

  /** The next part on its own, or united with what its feature has. */
  method WithNext(a5: Crate, union: (seq<Id>, seq<Id>) -> Result<seq<Id>>, parts: seq<Result<seq<Id>>>,
                  features: seq<nat>, i: nat, got: Option<seq<Id>>) returns (next: Result<seq<Id>>)
    requires UnionContract(a5, union)
    requires i < |parts| == |features| && parts[i].Success? && PartsWellFormed(a5, parts) && features[i] > 0
    requires IsGathered(a5, parts, features, i, features[i] - 1, got)
    ensures next.Success? ==> IsGathered(a5, parts, features, i + 1, features[i] - 1, Some(next.value))
    ensures next.Failure? ==> got.Some? && UnionFails(a5, union, parts, features, i, got.value)
  {
    next := parts[i];
    if got.Some? {
      next := union(got.value, parts[i].value);
      assert UnionHolds(a5, union, got.value, parts[i].value);
    }
    if next.Success? {
      GatheredNext(a5, parts, features, i, features[i] - 1, got, next.value);
    }
  }

  lemma GatheredStep(a5: Crate, parts: seq<Result<seq<Id>>>, features: seq<nat>, n: nat, i: nat,
                     slots: seq<Option<seq<Id>>>, next: seq<Id>)
    requires i < |parts| == |features| && 1 <= features[i] <= n && AllGathered(a5, parts, features, n, i, slots)
    requires IsGathered(a5, parts, features, i + 1, features[i] - 1, Some(next))
    ensures AllGathered(a5, parts, features, n, i + 1, slots[features[i] - 1 := Some(next)])
  {
    forall f | 0 <= f < n && f != features[i] - 1 ensures IsGathered(a5, parts, features, i + 1, f, slots[f]) {
      GatheredElsewhere(a5, parts, features, i, f, slots[f]);
    }
  }

  /** One covering per feature, holding exactly the slots of its parts; None for
      a feature without any. It fails where a part does, or the union of what a
      feature has with its next part. */
  method GatherParts(a5: Crate, union: (seq<Id>, seq<Id>) -> Result<seq<Id>>, parts: seq<Result<seq<Id>>>,
                     features: seq<nat>, n: nat) returns (out: Result<seq<Option<seq<Id>>>>)
    requires UnionContract(a5, union)
    requires |parts| == |features| && forall i :: 0 <= i < |features| ==> 1 <= features[i] <= n
    requires PartsWellFormed(a5, parts)
    ensures out.Success? ==> forall i :: 0 <= i < |parts| ==> parts[i].Success?
    ensures out.Success? ==> AllGathered(a5, parts, features, n, |parts|, out.value)
    ensures out.Failure? ==>
              || (exists i :: 0 <= i < |parts| && parts[i].Failure?)
              || exists i: nat, gathered: seq<Id> :: UnionFails(a5, union, parts, features, i, gathered)
  {
    var slots := NothingGathered(a5, parts, features, n);
    for i := 0 to |parts|
      invariant forall k :: 0 <= k < i ==> parts[k].Success?
      invariant AllGathered(a5, parts, features, n, i, slots)
    {
      if parts[i].Failure? {
        return Failure(parts[i].error);
      }
      var next := WithNext(a5, union, parts, features, i, slots[features[i] - 1]);
      if next.Failure? {
        return Failure(next.error);
      }
      GatheredStep(a5, parts, features, n, i, slots, next.value);
      slots := slots[features[i] - 1 := Some(next.value)];
    }
    return Success(slots);
  }
}
