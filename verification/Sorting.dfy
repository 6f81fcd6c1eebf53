/** The standard library's sorts, known only by what they promise: a sorted
    permutation of the input. Callers see nothing else, so their proofs hold
    for stable and unstable sorts alike. */
module Sorting {

  ghost predicate TotalPreorder<T(!new)>(le: (T, T) -> bool) {
    && (forall x, y :: le(x, y) || le(y, x))
    && (forall x, y, z :: le(x, y) && le(y, z) ==> le(x, z))
  }

  ghost predicate SortedBy<T>(s: seq<T>, le: (T, T) -> bool) {
    forall i, j :: 0 <= i < j < |s| ==> le(s[i], s[j])
  }

  /** `x` placed before the first element that does not precede it. */
  function Insert<T>(x: T, s: seq<T>, le: (T, T) -> bool): seq<T> {
    if s == [] || !le(s[0], x) then [x] + s else [s[0]] + Insert(x, s[1..], le)
  }

  lemma {:induction false} InsertMultiset<T>(x: T, s: seq<T>, le: (T, T) -> bool)
    ensures multiset(Insert(x, s, le)) == multiset{x} + multiset(s)
  {
    if s == [] || !le(s[0], x) {
    } else {
      InsertMultiset(x, s[1..], le);
      assert s == [s[0]] + s[1..];
    }
  }

  lemma {:induction false} InsertSorted<T(!new)>(x: T, s: seq<T>, le: (T, T) -> bool)
    requires TotalPreorder(le) && SortedBy(s, le)
    ensures SortedBy(Insert(x, s, le), le)
  {
    if s == [] {
    } else if !le(s[0], x) {
      forall j | 0 <= j < |s| ensures le(x, s[j]) {
        assert le(x, s[0]);
      }
    } else {
      InsertSorted(x, s[1..], le);
      var r := Insert(x, s[1..], le);
      forall j | 0 <= j < |r| ensures le(s[0], r[j]) {
        assert r[j] in multiset(r);
        InsertMultiset(x, s[1..], le);
      }
    }
  }

  /** A stable sort: each element goes after those that precede or tie it. */
  function StableSorted<T>(s: seq<T>, le: (T, T) -> bool): seq<T> {
    if s == [] then [] else Insert(s[|s| - 1], StableSorted(s[..|s| - 1], le), le)
  }

  lemma {:induction false} StableSortedOrder<T(!new)>(s: seq<T>, le: (T, T) -> bool)
    requires TotalPreorder(le)
    ensures SortedBy(StableSorted(s, le), le)
  {
    if s != [] {
      StableSortedOrder(s[..|s| - 1], le);
      InsertSorted(s[|s| - 1], StableSorted(s[..|s| - 1], le), le);
    }
  }

  lemma {:induction false} StableSortedKeeps<T>(s: seq<T>, le: (T, T) -> bool)
    ensures multiset(StableSorted(s, le)) == multiset(s)
  {
    if s != [] {
      StableSortedKeeps(s[..|s| - 1], le);
      InsertMultiset(s[|s| - 1], StableSorted(s[..|s| - 1], le), le);
      LastAside(s);
    }
  }

  lemma LastAside<T>(s: seq<T>)
    requires s != []
    ensures multiset(s) == multiset{s[|s| - 1]} + multiset(s[..|s| - 1])
  {
    assert s == s[..|s| - 1] + [s[|s| - 1]];
  }

  method Sort<T(!new)>(s: seq<T>, le: (T, T) -> bool) returns (t: seq<T>)
    requires TotalPreorder(le)
    ensures SortedBy(t, le)
    ensures multiset(t) == multiset(s)
    ensures |t| == |s|
  {
    t := [];
    for i := 0 to |s|
      invariant SortedBy(t, le)
      invariant multiset(t) == multiset(s[..i])
    {
      InsertSorted(s[i], t, le);
      InsertMultiset(s[i], t, le);
      assert s[..i + 1] == s[..i] + [s[i]];
      t := Insert(s[i], t, le);
    }
    assert s[..|s|] == s;
    assert |t| == |multiset(t)| == |multiset(s)| == |s|;
  }

  lemma HeadPrecedes<T>(s: seq<T>, y: T, le: (T, T) -> bool)
    requires SortedBy(s, le) && y in multiset(s)
    ensures s != [] && (s[0] == y || le(s[0], y))
  {
    var i :| 0 <= i < |s| && s[i] == y;
  }

  lemma TailMultiset<T>(s: seq<T>)
    requires s != []
    ensures multiset(s[1..]) == multiset(s) - multiset{s[0]}
  {
    assert s == [s[0]] + s[1..];
  }

  /** Two sorted arrangements of the same elements are equal when ties are
      equal elements. */
  lemma {:induction false} SortedUnique<T(!new)>(s: seq<T>, t: seq<T>, le: (T, T) -> bool)
    requires forall x, y :: le(x, y) && le(y, x) ==> x == y
    requires SortedBy(s, le) && SortedBy(t, le)
    requires multiset(s) == multiset(t)
    ensures s == t
  {
    if s == [] {
      assert |t| == |multiset(t)| == 0;
    } else {
      assert s[0] in multiset(s);
      HeadPrecedes(t, s[0], le);
      assert t[0] in multiset(t);
      HeadPrecedes(s, t[0], le);
      TailMultiset(s);
      TailMultiset(t);
      SortedUnique(s[1..], t[1..], le);
      assert s == [s[0]] + s[1..] && t == [t[0]] + t[1..];
    }
  }
}
