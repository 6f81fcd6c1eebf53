/** Boxes take two routes to coverings: those covering the globe give every
    cell, the others go through as polygons. The results are put back in input
    order by sorting the positions they came from. */
module BoxOrder {
  import opened Sequences
  import opened Sorting

  /** `which(flags)`, from 0. */
  function Which(flags: seq<bool>): seq<nat> {
    if flags == [] then []
    else
      var n := |flags| - 1;
      if flags[n] then Which(flags[..n]) + [n] else Which(flags[..n])
  }

  /** Positions of set flags, ascending. */
  ghost predicate SetPositions(w: seq<nat>, flags: seq<bool>) {
    && (forall k :: 0 <= k < |w| ==> w[k] < |flags| && flags[w[k]])
    && (forall j, k :: 0 <= j < k < |w| ==> w[j] < w[k])
  }

  lemma {:induction false} WhichFacts(flags: seq<bool>)
    ensures SetPositions(Which(flags), flags)
  {
    if flags != [] {
      var rest := flags[..|flags| - 1];
      WhichFacts(rest);
      var w := Which(rest);
      assert SetPositions(w, flags);
    }
  }

  function Negated(flags: seq<bool>): seq<bool> {
    seq(|flags|, i requires 0 <= i < |flags| => !flags[i])
  }

  /** Where each result came from: the boxes not covering the globe, then those
      that do. */
  function Origins(globe: seq<bool>): seq<nat> {
    Which(Negated(globe)) + Which(globe)
  }

  function Positions(n: nat): seq<nat> {
    if n == 0 then [] else Positions(n - 1) + [n - 1]
  }

  /** The comparison `order(p)` sorts positions by. */
  function ByValue(p: seq<nat>): (nat, nat) -> bool {
    (a: nat, b: nat) => (if a < |p| then p[a] else 0) <= (if b < |p| then p[b] else 0)
  }

  /** `order(p)`, from 0. */
  function Order(p: seq<nat>): seq<nat> {
    StableSorted(Positions(|p|), ByValue(p))
  }

  lemma {:induction false} PositionsCounts(n: nat, x: nat)
    ensures multiset(Positions(n))[x] == if x < n then 1 else 0
    ensures |Positions(n)| == n
  {
    if n > 0 {
      PositionsCounts(n - 1, x);
    }
  }

  lemma OnceIsDistinct(s: seq<nat>)
    requires forall x :: multiset(s)[x] <= 1
    ensures Distinct(s)
  {
    forall i, j | 0 <= i < j < |s| ensures s[i] != s[j] {
      assert s == s[..j] + s[j..];
      assert s[..j][i] == s[i] && s[j..][0] == s[j];
      assert multiset(s)[s[i]] == multiset(s[..j])[s[i]] + multiset(s[j..])[s[i]];
      assert s[i] in multiset(s[..j]) && s[j] in multiset(s[j..]);
    }
  }

  /** `order` lists every position once, by ascending value. */
  lemma OrderFacts(p: seq<nat>)
    ensures |Order(p)| == |p| && Distinct(Order(p))
    ensures forall k :: 0 <= k < |p| ==> Order(p)[k] < |p|
    ensures SortedBy(Order(p), ByValue(p))
  {
    var o := Order(p);
    StableSortedOrder(Positions(|p|), ByValue(p));
    StableSortedKeeps(Positions(|p|), ByValue(p));
    PositionsCounts(|p|, 0);
    assert |o| == |multiset(o)| == |multiset(Positions(|p|))| == |p|;
    forall x: nat ensures multiset(o)[x] == if x < |p| then 1 else 0 {
      PositionsCounts(|p|, x);
    }
    OnceIsDistinct(o);
    forall k | 0 <= k < |p| ensures o[k] < |p| {
      assert o[k] in multiset(o);
    }
  }

  /** Strictly ascending numbers below `n`, `n` of them, are 0, 1, ..., n - 1. */
  lemma {:induction false} AscendingFromZero(q: seq<nat>, k: nat)
    requires k < |q|
    requires forall i, j :: 0 <= i < j < |q| ==> q[i] < q[j]
    requires forall i :: 0 <= i < |q| ==> q[i] < |q|
    ensures q[k] == k
  {
    AtLeast(q, k);
    AtMost(q, k);
  }

  lemma {:induction false} AtLeast(q: seq<nat>, k: nat)
    requires k < |q| && forall i, j :: 0 <= i < j < |q| ==> q[i] < q[j]
    ensures q[k] >= k
  {
    if k > 0 {
      AtLeast(q, k - 1);
    }
  }

  lemma {:induction false} AtMost(q: seq<nat>, k: nat)
    requires k < |q| && forall i, j :: 0 <= i < j < |q| ==> q[i] < q[j]
    requires forall i :: 0 <= i < |q| ==> q[i] < |q|
    ensures q[k] <= k
    decreases |q| - k
  {
    if k + 1 < |q| {
      AtMost(q, k + 1);
    }
  }

  /** Sorting distinct positions undoes them. */
  lemma OrderInverts(p: seq<nat>, k: nat)
    requires Distinct(p) && (forall i :: 0 <= i < |p| ==> p[i] < |p|) && k < |p|
    ensures |Order(p)| == |p| && Order(p)[k] < |p| && p[Order(p)[k]] == k
  {
    OrderFacts(p);
    var o := Order(p);
    var q := seq(|p|, i requires 0 <= i < |p| => assert o[i] < |p|; p[o[i]]);
    forall i, j | 0 <= i < j < |q| ensures q[i] < q[j] {
      assert ByValue(p)(o[i], o[j]);
      assert o[i] != o[j];
    }
    AscendingFromZero(q, k);
  }

  lemma {:induction false} WhichSplit(flags: seq<bool>)
    ensures |Which(Negated(flags))| + |Which(flags)| == |flags|
  {
    if flags == [] {
      assert Negated(flags) == [];
    } else {
      var n := |flags| - 1;
      WhichSplit(flags[..n]);
      assert Negated(flags)[..n] == Negated(flags[..n]);
    }
  }

  lemma OriginsOnce(globe: seq<bool>)
    ensures |Origins(globe)| == |globe| && Distinct(Origins(globe))
    ensures forall i :: 0 <= i < |globe| ==> Origins(globe)[i] < |globe|
  {
    WhichSplit(globe);
    WhichFacts(globe);
    WhichFacts(Negated(globe));
  }

  lemma OriginAt(globe: seq<bool>, j: nat)
    requires j < |globe|
    ensures |Origins(globe)| == |globe| && Origins(globe)[j] < |globe|
    ensures var n := |Which(Negated(globe))|;
            if j < n then Origins(globe)[j] == Which(Negated(globe))[j] && !globe[Origins(globe)[j]]
            else globe[Origins(globe)[j]]
  {
    WhichSplit(globe);
    WhichFacts(globe);
    WhichFacts(Negated(globe));
  }

  /** The coverings of all boxes, from those of the boxes not covering the
      globe. */
  function Restored<C>(globe: seq<bool>, polygons: seq<C>, whole: C): seq<C>
    requires |polygons| == |Which(Negated(globe))|
  {
    OriginsOnce(globe);
    var out := polygons + seq(|Which(globe)|, (_: int) => whole);
    var order := Order(Origins(globe));
    OrderFacts(Origins(globe));
    WhichSplit(globe);
    seq(|globe|, k requires 0 <= k < |globe| => out[order[k]])
  }

  /** However the two kinds are mixed, each box gets its own covering. */
  lemma EachBoxInPlace<C>(globe: seq<bool>, polygons: seq<C>, whole: C, covering: nat -> C, i: nat)
    requires |polygons| == |Which(Negated(globe))| && i < |globe|
    requires forall k :: 0 <= k < |polygons| ==> polygons[k] == covering(Which(Negated(globe))[k])
    ensures |Restored(globe, polygons, whole)| == |globe|
    ensures Restored(globe, polygons, whole)[i] == if globe[i] then whole else covering(i)
  {
    OriginsOnce(globe);
    OrderInverts(Origins(globe), i);
    OriginAt(globe, Order(Origins(globe))[i]);
  }
}
