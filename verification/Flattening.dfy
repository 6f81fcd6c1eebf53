/** Polygon features as flat coordinate vectors, the way the R side passes them:
    rows of coordinates labelled by feature, part and ring, then run lengths
    and first-seen group numbers. */
module Flattening {
  import opened Sequences

  type Point = (real, real)

  /** A ring of a part, a part of a feature; ids are arbitrary but distinct
      among siblings. */
  datatype Ring = Ring(id: int, points: seq<Point>)
  datatype Part = Part(feature: nat, id: int, rings: seq<Ring>)

  /** One row of the coordinate table. */
  datatype Row = Row(feature: nat, part: int, ring: int, point: Point)

  // --- R's vectors ---

  /** `unique(x)`: first occurrences, in order. */
  function Unique<T(==,!new)>(x: seq<T>): (u: seq<T>)
    ensures forall v :: v in u <==> v in x
  {
    if x == [] then []
    else
      var last := |x| - 1;
      var u := Unique(x[..last]);
      assert x == x[..last] + [x[last]];
      if x[last] in u then u else u + [x[last]]
  }

  /** `match(v, table)`: 1-based position of the first occurrence, 0 if none. */
  function Match<T(==,!new)>(v: T, table: seq<T>): (k: nat)
    ensures k <= |table|
    ensures k == 0 <==> v !in table
    ensures k > 0 ==> table[k - 1] == v && v !in table[..k - 1]
  {
    if table == [] then 0
    else
      var last := |table| - 1;
      var k := Match(v, table[..last]);
      assert table == table[..last] + [table[last]];
      assert k > 0 ==> table[..last][..k - 1] == table[..k - 1];
      if k > 0 then k else if table[last] == v then last + 1 else 0
  }

  /** `path` holds the values of `x`, each once, in the order they first occur. */
  ghost predicate FirstOccurrences<T(!new)>(x: seq<T>, path: seq<T>) {
    && (forall v :: v in path <==> v in x)
    && forall j, k :: 0 <= j < k < |path| ==> Match(path[j], x) < Match(path[k], x)
  }

  lemma MatchAppend<T(!new)>(v: T, x: seq<T>, last: T)
    ensures v in x ==> Match(v, x + [last]) == Match(v, x)
    ensures v !in x && v == last ==> Match(v, x + [last]) == |x| + 1
  {
    assert (x + [last])[..|x|] == x;
  }

  lemma {:induction false} UniqueFirstOccurrences<T(!new)>(x: seq<T>)
    ensures FirstOccurrences(x, Unique(x))
  {
    if x != [] {
      var rest, v := x[..|x| - 1], x[|x| - 1];
      UniqueFirstOccurrences(rest);
      OneMoreOccurrence(rest, Unique(rest), v);
      LastApart(x, rest, v);
      UniqueOneMore(rest, v);
    }
  }

  lemma LastApart<T>(x: seq<T>, rest: seq<T>, v: T)
    requires x != [] && rest == x[..|x| - 1] && v == x[|x| - 1]
    ensures x == rest + [v]
  {
  }

  lemma OneMoreOccurrence<T(!new)>(x: seq<T>, u: seq<T>, v: T)
    requires FirstOccurrences(x, u)
    ensures FirstOccurrences(x + [v], if v in u then u else u + [v])
  {
    var w := if v in u then u else u + [v];
    forall j, k | 0 <= j < k < |w| ensures Match(w[j], x + [v]) < Match(w[k], x + [v]) {
      assert w[j] in u;
      MatchAppend(w[j], x, v);
      MatchAppend(w[k], x, v);
    }
  }

  lemma FirstOccurrencesDistinct<T(!new)>(x: seq<T>, path: seq<T>)
    requires FirstOccurrences(x, path)
    ensures Distinct(path)
  {
  }

  /** `match(x, unique(x))`: first-seen group numbers. */
  function Groups<T(==,!new)>(x: seq<T>): (g: seq<nat>)
    ensures |g| == |x|
    ensures forall i :: 0 <= i < |x| ==> g[i] == Match(x[i], Unique(x)) >= 1
  {
    var u := Unique(x);
    seq(|x|, i requires 0 <= i < |x| => Match(x[i], u))
  }

  /** `rle(x)$lengths`. */
  function RunLengths<T(==,!new)>(x: seq<T>): (r: seq<nat>)
    ensures x != [] ==> r != []
  {
    if x == [] then []
    else
      var last := |x| - 1;
      var r := RunLengths(x[..last]);
      if last > 0 && x[last - 1] == x[last] then r[|r| - 1 := r[|r| - 1] + 1] else r + [1]
  }

  /** `c(0, cumsum(x))`. */
  function Offsets(x: seq<nat>): (o: seq<nat>)
    ensures |o| == |x| + 1 && o[0] == 0
  {
    if x == [] then [0]
    else
      var o := Offsets(x[..|x| - 1]);
      o + [o[|o| - 1] + x[|x| - 1]]
  }

  /** `!duplicated(x)` as 0 or 1. */
  function FirstSeen<T(==,!new)>(x: seq<T>): (f: seq<nat>)
    ensures |f| == |x|
    ensures forall i :: 0 <= i < |x| ==> f[i] == if x[i] in x[..i] then 0 else 1
  {
    seq(|x|, i requires 0 <= i < |x| => if x[i] in x[..i] then 0 else 1)
  }

  // --- Repetition: `rep(x, times)` ---

  function Times<T>(v: T, n: nat): (s: seq<T>)
    ensures |s| == n && forall i :: 0 <= i < n ==> s[i] == v
  {
    seq(n, _ => v)
  }

  function Repeat<T>(x: seq<T>, times: seq<nat>): seq<T>
    requires |x| == |times|
  {
    if x == [] then [] else Repeat(x[..|x| - 1], times[..|x| - 1]) + Times(x[|x| - 1], times[|x| - 1])
  }

  lemma {:induction false} RepeatMembers<T(!new)>(x: seq<T>, times: seq<nat>)
    requires |x| == |times| && forall i :: 0 <= i < |times| ==> times[i] > 0
    ensures forall v :: v in Repeat(x, times) <==> v in x
  {
    if x != [] {
      var n := |x| - 1;
      RepeatMembers(x[..n], times[..n]);
      assert Times(x[n], times[n])[0] == x[n];
      assert x == x[..n] + [x[n]];
    }
  }

  lemma {:induction false} UniqueOfTimes<T(!new)>(p: seq<T>, v: T, n: nat)
    requires n > 0
    ensures Unique(p + Times(v, n)) == if v in p then Unique(p) else Unique(p) + [v]
  {
    var before := p + Times(v, n - 1);
    TimesLast(p, v, n, before);
    UniqueOneMore(before, v);
    if n > 1 {
      UniqueOfTimes(p, v, n - 1);
    }
  }

  lemma TimesLast<T>(p: seq<T>, v: T, n: nat, before: seq<T>)
    requires n > 0 && before == p + Times(v, n - 1)
    ensures p + Times(v, n) == before + [v]
    ensures n == 1 ==> before == p
    ensures n > 1 ==> v in before
  {
    if n > 1 {
      assert before[|p|] == v;
    }
  }

  lemma UniqueOneMore<T(!new)>(x: seq<T>, v: T)
    ensures Unique(x + [v]) == if v in x then Unique(x) else Unique(x) + [v]
  {
    assert (x + [v])[..|x|] == x;
  }

  /** Repeating does not change what is seen first. */
  lemma {:induction false} UniqueOfRepeat<T(!new)>(x: seq<T>, times: seq<nat>)
    requires |x| == |times| && forall i :: 0 <= i < |times| ==> times[i] > 0
    ensures Unique(Repeat(x, times)) == Unique(x)
  {
    if x != [] {
      var n := |x| - 1;
      UniqueOfRepeat(x[..n], times[..n]);
      RepeatMembers(x[..n], times[..n]);
      UniqueOfTimes(Repeat(x[..n], times[..n]), x[n], times[n]);
    }
  }

  lemma {:induction false} UniqueOfDistinct<T(!new)>(x: seq<T>)
    requires Distinct(x)
    ensures Unique(x) == x
  {
    if x != [] {
      UniqueOfDistinct(x[..|x| - 1]);
    }
  }

  lemma MatchOfDistinct<T(!new)>(x: seq<T>, k: nat)
    requires Distinct(x) && k < |x|
    ensures Match(x[k], x) == k + 1
  {
  }

  lemma {:induction false} RunsOfTimes<T(!new)>(p: seq<T>, v: T, n: nat)
    requires n > 0 && (p != [] ==> p[|p| - 1] != v)
    ensures RunLengths(p + Times(v, n)) == RunLengths(p) + [n]
  {
    var s := p + Times(v, n);
    if n == 1 {
      assert s[..|s| - 1] == p;
    } else {
      assert s[..|s| - 1] == p + Times(v, n - 1);
      RunsOfTimes(p, v, n - 1);
    }
  }

  /** The runs of a repetition are its counts. */
  lemma {:induction false} RunsOfRepeat<T(!new)>(x: seq<T>, times: seq<nat>)
    requires |x| == |times| && (forall i :: 0 <= i < |times| ==> times[i] > 0)
    requires forall i :: 0 < i < |x| ==> x[i - 1] != x[i]
    ensures RunLengths(Repeat(x, times)) == times
  {
    if x != [] {
      var n := |x| - 1;
      RunsOfRepeat(x[..n], times[..n]);
      if n > 0 {
        LastOfRepeat(x[..n], times[..n]);
      }
      RunsOfTimes(Repeat(x[..n], times[..n]), x[n], times[n]);
      assert times == times[..n] + [times[n]];
    }
  }

  lemma LastOfRepeat<T(!new)>(x: seq<T>, times: seq<nat>)
    requires |x| == |times| && x != [] && times[|x| - 1] > 0
    ensures Repeat(x, times) != [] && Repeat(x, times)[|Repeat(x, times)| - 1] == x[|x| - 1]
  {
  }

  /** Each entry of a repetition occupies its stretch between offsets. */
  lemma {:induction false} RepeatAt<T(!new)>(x: seq<T>, times: seq<nat>, k: nat, i: nat)
    requires |x| == |times| && k < |x|
    requires Offsets(times)[k] <= i < Offsets(times)[k + 1]
    ensures Offsets(times)[k + 1] == Offsets(times)[k] + times[k]
    ensures i < |Repeat(x, times)| && Repeat(x, times)[i] == x[k]
  {
    var n := |x| - 1;
    RepeatLength(x[..n], times[..n]);
    OffsetsPrefix(times);
    if k < n {
      RepeatAt(x[..n], times[..n], k, i);
    }
  }

  lemma OffsetsPrefix(times: seq<nat>)
    requires times != []
    ensures Offsets(times)[..|times|] == Offsets(times[..|times| - 1])
    ensures Offsets(times)[|times|] == Offsets(times[..|times| - 1])[|times| - 1] + times[|times| - 1]
  {
  }

  lemma {:induction false} RepeatLength<T(!new)>(x: seq<T>, times: seq<nat>)
    requires |x| == |times|
    ensures |Repeat(x, times)| == Offsets(times)[|times|]
  {
    if x != [] {
      RepeatLength(x[..|x| - 1], times[..|x| - 1]);
    }
  }

  // --- Mapping over a repetition ---

  function Mapped<T, U>(f: T -> U, s: seq<T>): (m: seq<U>)
    ensures |m| == |s| && forall i :: 0 <= i < |s| ==> m[i] == f(s[i])
  {
    seq(|s|, i requires 0 <= i < |s| => f(s[i]))
  }

  lemma {:induction false} MapRepeat<T(!new), U(!new)>(f: T -> U, x: seq<T>, times: seq<nat>)
    requires |x| == |times|
    ensures Mapped(f, Repeat(x, times)) == Repeat(Mapped(f, x), times)
  {
    if x != [] {
      var n := |x| - 1;
      MapRepeat(f, x[..n], times[..n]);
      var front, back := Repeat(x[..n], times[..n]), Times(x[n], times[n]);
      assert Mapped(f, front + back) == Mapped(f, front) + Mapped(f, back);
      assert Mapped(f, back) == Times(f(x[n]), times[n]);
      assert Mapped(f, x)[..n] == Mapped(f, x[..n]);
    }
  }

  /** 1, 2, ..., n. */
  function Iota(n: nat): (s: seq<nat>)
    ensures |s| == n && forall i :: 0 <= i < n ==> s[i] == i + 1
  {
    seq(n, i => i + 1)
  }

  ghost predicate Positive(times: seq<nat>) {
    forall i :: 0 <= i < |times| ==> times[i] > 0
  }

  /** The groups of a repetition of distinct values are numbered in order. */
  lemma GroupsOfRepeat<T(!new)>(x: seq<T>, times: seq<nat>)
    requires |x| == |times| && Distinct(x) && Positive(times)
    ensures Unique(Repeat(x, times)) == x
    ensures Groups(Repeat(x, times)) == Repeat(Iota(|x|), times)
  {
    UniqueOfRepeat(x, times);
    UniqueOfDistinct(x);
    NumberedByMatch(Repeat(x, times), x, times, x);
  }

  /** Matching a repetition against a table repeats the matches. */
  lemma NumberedByMatch<T(!new)>(s: seq<T>, x: seq<T>, times: seq<nat>, table: seq<T>)
    requires |x| == |times| && s == Repeat(x, times) && Unique(s) == table && Distinct(x) && table == x
    ensures Groups(s) == Repeat(Iota(|x|), times)
  {
    var f := (v: T) => Match(v, table);
    MapRepeat(f, x, times);
    assert Groups(s) == Mapped(f, s);
    forall k | 0 <= k < |x| ensures f(x[k]) == k + 1 {
      MatchOfDistinct(x, k);
    }
    assert Mapped(f, x) == Iota(|x|);
  }

  /** Two levels of repetition: parts into rings, rings into rows. */
  lemma GroupsOfNested<T(!new)>(x: seq<T>, counts: seq<nat>, lens: seq<nat>)
    requires |x| == |counts| && Distinct(x) && Positive(counts) && Positive(lens)
    requires |Repeat(x, counts)| == |lens|
    ensures |Repeat(Iota(|x|), counts)| == |lens|
    ensures Groups(Repeat(Repeat(x, counts), lens)) == Repeat(Repeat(Iota(|x|), counts), lens)
  {
    var y := Repeat(x, counts);
    UniqueOfRepeat(y, lens);
    UniqueOfRepeat(x, counts);
    UniqueOfDistinct(x);
    var f := (v: T) => Match(v, x);
    MapRepeat(f, y, lens);
    MapRepeat(f, x, counts);
    assert Groups(Repeat(y, lens)) == Mapped(f, Repeat(y, lens));
    forall k | 0 <= k < |x| ensures f(x[k]) == k + 1 {
      MatchOfDistinct(x, k);
    }
    assert Mapped(f, x) == Iota(|x|);
  }
}
