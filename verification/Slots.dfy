/** The curve's leaf slots and the aligned blocks cells occupy on it.

    A slot is one resolution-30 leaf. Every cell holds `Size(r)` consecutive
    slots, starting at a multiple of that size: 12 roots under the world cell,
    5 children from resolution 0, and 4 per step below that. */
module Slots {

  const MAX_RESOLUTION := 30
  const WORLD := -1

  /** All slots: the block of the world cell. */
  const TOTAL: nat := 60 * 0x400_0000_0000_0000

  /** Children of a cell at resolution `r`, one resolution finer. */
  function Fan(r: int): (n: nat)
    requires WORLD <= r < MAX_RESOLUTION
    ensures 4 <= n <= 12
  {
    if r == WORLD then 12 else if r == 0 then 5 else 4
  }

  /** As many children of a cell at resolution `r`, `n` each. */
  function Group(r: int, n: nat): nat
    requires WORLD <= r < MAX_RESOLUTION
  {
    if r == WORLD then 12 * n else if r == 0 then 5 * n else 4 * n
  }

  lemma GroupIsFan(r: int, n: nat)
    requires WORLD <= r < MAX_RESOLUTION
    ensures Group(r, n) == Times(Fan(r), n)
  {
    TimesIsProduct(Fan(r), n);
  }

  /** `k` copies of `n` in a row. Written as repeated addition so that proofs
      about strides stay linear; `TimesIsProduct` ties it to `*`. */
  function Times(k: nat, n: nat): nat {
    if k == 0 then 0 else Times(k - 1, n) + n
  }

  lemma {:induction false} TimesIsProduct(k: nat, n: nat)
    ensures Times(k, n) == k * n
  {
    if k > 0 {
      TimesIsProduct(k - 1, n);
      assert (k - 1) * n + n == k * n;
    }
  }

  lemma TimesStep(k: nat, n: nat)
    requires k > 0
    ensures Times(k, n) == Times(k - 1, n) + n
  {
  }

  lemma {:induction false} TimesAdd(a: nat, b: nat, n: nat)
    ensures Times(a + b, n) == Times(a, n) + Times(b, n)
  {
    if b > 0 {
      TimesAdd(a, b - 1, n);
    }
  }

  lemma {:induction false} TimesAssoc(a: nat, b: nat, n: nat)
    ensures Times(Times(a, b), n) == Times(a, Times(b, n))
  {
    if a > 0 {
      TimesAssoc(a - 1, b, n);
      TimesAdd(Times(a - 1, b), b, n);
    }
  }

  /** A strictly larger multiple is at least one step further. */
  lemma TimesGap(a: nat, b: nat, n: nat)
    ensures a < b ==> Times(a, n) + n <= Times(b, n)
    ensures a <= b ==> Times(a, n) <= Times(b, n)
  {
    if a < b {
      TimesAdd(a + 1, b - a - 1, n);
    }
  }

  /** How many whole strides fit in `n` slots: the quotient, by repeated
      subtraction. */
  function Strides(n: nat, stride: nat): nat
    requires stride > 0
  {
    if n < stride then 0 else 1 + Strides(n - stride, stride)
  }

  lemma {:induction false} StridesIsQuotient(n: nat, stride: nat)
    requires stride > 0
    ensures Strides(n, stride) == n / stride
  {
    if n >= stride {
      StridesIsQuotient(n - stride, stride);
      QuotientStep(n, stride);
    } else {
      QuotientSmall(n, stride);
    }
  }

  lemma QuotientSmall(n: nat, d: nat)
    requires n < d
    ensures n / d == 0
  {
  }

  lemma QuotientStep(n: nat, d: nat)
    requires n >= d > 0
    ensures n / d == 1 + (n - d) / d
  {
    var q, m := (n - d) / d, (n - d) % d;
    assert n - d == d * q + m;
    assert n == d * (q + 1) + m;
    QuotientUnique(n, d, q + 1, m);
  }

  lemma QuotientUnique(n: nat, d: nat, q: nat, m: nat)
    requires d > 0 && n == d * q + m && m < d
    ensures n / d == q
  {
    var p, o := n / d, n % d;
    assert n == d * p + o;
    TimesIsProduct(p, d);
    TimesIsProduct(q, d);
    SameQuotient(p, o, q, m, d);
  }

  lemma SameQuotient(p: nat, o: nat, q: nat, m: nat, d: nat)
    requires Times(p, d) + o == Times(q, d) + m && o < d && m < d
    ensures p == q
  {
    TimesGap(p, q, d);
    TimesGap(q, p, d);
  }

  lemma {:induction false} StridesOfTimes(k: nat, n: nat)
    requires n > 0
    ensures Strides(Times(k, n), n) == k
  {
    if k > 0 {
      StridesOfTimes(k - 1, n);
    }
  }

  /** Leaf slots in a cell at resolution `r`. */
  function Size(r: int): (n: nat)
    requires WORLD <= r <= MAX_RESOLUTION
    ensures n > 0
    decreases MAX_RESOLUTION - r
  {
    if r == MAX_RESOLUTION then 1 else Group(r, Size(r + 1))
  }

  /** `4^n`. */
  function Pow4(n: nat): (p: nat)
    ensures p > 0
  {
    if n == 0 then 1 else 4 * Pow4(n - 1)
  }

  /** The table of block sizes: a power of four from resolution 1 on. */
  lemma {:induction false} SizeIsPowerOfFour(r: int)
    requires 1 <= r <= MAX_RESOLUTION
    ensures Size(r) == Pow4(MAX_RESOLUTION - r)
    decreases MAX_RESOLUTION - r
  {
    if r < MAX_RESOLUTION {
      SizeIsPowerOfFour(r + 1);
    }
  }

  lemma Pow4PlusFour(n: nat, p: nat)
    requires Pow4(n) == p
    ensures Pow4(n + 4) == 256 * p
  {
    assert Pow4(n + 2) == 16 * p;
  }

  lemma Pow4Value29()
    ensures Pow4(29) == 0x400_0000_0000_0000
  {
    Pow4PlusFour(1, 4);
    Pow4PlusFour(5, 0x400);
    Pow4PlusFour(9, 0x4_0000);
    Pow4PlusFour(13, 0x400_0000);
    Pow4PlusFour(17, 0x4_0000_0000);
    Pow4PlusFour(21, 0x400_0000_0000);
    Pow4PlusFour(25, 0x4_0000_0000_0000);
  }

  /** A quintant, a face and the whole curve, and none of it overflows a
      64-bit slot number. */
  lemma QuintantFaceAndTotal()
    ensures Size(1) == 0x400_0000_0000_0000
    ensures Size(0) == 5 * Size(1)
    ensures Size(WORLD) == TOTAL == 60 * Size(1)
    ensures TOTAL < 0x1_0000_0000_0000_0000
  {
    SizeIsPowerOfFour(1);
    Pow4Value29();
    assert Size(0) == Group(0, Size(1));
    assert Size(WORLD) == Group(WORLD, Size(0));
  }

  // --- Alignment ---

  /** `s` is a block boundary at resolution `r`. */
  ghost predicate Aligned(s: nat, r: int)
    requires WORLD <= r <= MAX_RESOLUTION
  {
    exists k: nat :: s == Times(k, Size(r))
  }

  /** How many blocks at `r` fill one at `q`. */
  lemma {:induction false} SizeMultiple(q: int, r: int) returns (f: nat)
    requires WORLD <= q <= r <= MAX_RESOLUTION
    ensures f > 0 && Size(q) == Times(f, Size(r))
    decreases r - q
  {
    if q == r {
      f := 1;
    } else {
      var g := SizeMultiple(q + 1, r);
      f := Times(Fan(q), g);
      TimesAssoc(Fan(q), g, Size(r));
      GroupIsFan(q, Size(q + 1));
      TimesGap(1, Fan(q), g);
      assert Times(1, g) == g;
    }
  }

  /** A coarser block's ends are finer blocks' boundaries. */
  lemma AlignedFiner(s: nat, q: int, r: int)
    requires WORLD <= q <= r <= MAX_RESOLUTION
    requires Aligned(s, q)
    ensures Aligned(s, r) && Aligned(s + Size(q), r)
  {
    var k: nat :| s == Times(k, Size(q));
    var f := SizeMultiple(q, r);
    TimesAssoc(k, f, Size(r));
    TimesAssoc(k + 1, f, Size(r));
    assert s + Size(q) == Times(k + 1, Size(q));
  }

  /** Boundaries at one resolution are at least a block apart. */
  lemma AlignedApart(s: nat, t: nat, r: int)
    requires WORLD <= r <= MAX_RESOLUTION
    requires Aligned(s, r) && Aligned(t, r) && s < t
    ensures s + Size(r) <= t
  {
    var j: nat :| s == Times(j, Size(r));
    var k: nat :| t == Times(k, Size(r));
    TimesGap(j, k, Size(r));
    TimesGap(k, j, Size(r));
  }

  /** Two cells' blocks are nested or disjoint: a finer block that reaches into
      a coarser one lies inside it. */
  lemma NestedOrDisjoint(s: nat, q: int, t: nat, r: int)
    requires WORLD <= q <= r <= MAX_RESOLUTION
    requires Aligned(s, q) && Aligned(t, r)
    ensures t + Size(r) <= s || s + Size(q) <= t || (s <= t && t + Size(r) <= s + Size(q))
  {
    AlignedFiner(s, q, r);
    if t < s {
      AlignedApart(t, s, r);
    } else if t < s + Size(q) {
      AlignedApart(t, s + Size(q), r);
    }
  }

  /** A slot lies in the block its quotient names. */
  lemma {:induction false} BlockAround(s: nat, n: nat)
    requires n > 0
    ensures Times(Strides(s, n), n) <= s < Times(Strides(s, n), n) + n
  {
    if s >= n {
      BlockAround(s - n, n);
    }
  }

  /** An aligned block inside another starts a whole number of strides in. */
  lemma StrideOf(s: nat, q: int, t: nat, r: int) returns (k: nat)
    requires WORLD <= q <= r <= MAX_RESOLUTION
    requires Aligned(s, q) && Aligned(t, r) && s <= t < s + Size(q)
    ensures t == s + Times(k, Size(r)) && k < Strides(Size(q), Size(r))
  {
    AlignedFiner(s, q, r);
    var i: nat :| s == Times(i, Size(r));
    var j: nat :| t == Times(j, Size(r));
    var f := SizeMultiple(q, r);
    k := StridesBetween(i, j, f, Size(r));
    StridesOfTimes(f, Size(r));
  }

  /** Stride `j` counted from stride `i`, `f` strides on at most. */
  lemma StridesBetween(i: nat, j: nat, f: nat, n: nat) returns (k: nat)
    requires n > 0 && Times(i, n) <= Times(j, n) < Times(i, n) + Times(f, n)
    ensures Times(j, n) == Times(i, n) + Times(k, n) && k < f
  {
    TimesGap(j, i, n);
    k := j - i;
    TimesAdd(i, k, n);
    TimesGap(f, k, n);
  }

  /** Block counts: whole strides exactly fill a coarser block. */
  lemma StridesFill(q: int, r: int)
    requires WORLD <= q <= r <= MAX_RESOLUTION
    ensures Strides(Size(q), Size(r)) > 0
    ensures Times(Strides(Size(q), Size(r)), Size(r)) == Size(q)
  {
    var f := SizeMultiple(q, r);
    StridesOfTimes(f, Size(r));
  }

  /** Every stride position inside a block is a boundary whose block stays
      inside. */
  lemma StrideAligned(s: nat, q: int, r: int, k: nat)
    requires WORLD <= q <= r <= MAX_RESOLUTION
    requires Aligned(s, q) && k < Strides(Size(q), Size(r))
    ensures Aligned(s + Times(k, Size(r)), r)
    ensures s + Times(k, Size(r)) + Size(r) <= s + Size(q)
  {
    AlignedFiner(s, q, r);
    StridesFill(q, r);
    var n := Size(r);
    var i: nat :| s == Times(i, n);
    TimesAdd(i, k, n);
    TimesIsProduct(k, n);
    TimesGap(k, Strides(Size(q), n), n);
    assert s + Times(k, n) == Times(i + k, n);
  }
}
