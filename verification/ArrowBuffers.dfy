/** Cells and coverings in Arrow buffers: validity bitmaps, uint64 values,
    32-bit list offsets, and any slicing of them. */
module ArrowBuffers {
  import opened Results
  import Slots

  // --- Bitmaps ---

  function Shifted(b: bv8, k: nat): bv8
    requires k < 8
  {
    if k == 0 then b else if k == 1 then b >> 1 else if k == 2 then b >> 2 else if k == 3 then b >> 3
    else if k == 4 then b >> 4 else if k == 5 then b >> 5 else if k == 6 then b >> 6 else b >> 7
  }

  function Mask(k: nat): bv8
    requires k < 8
  {
    if k == 0 then 1 else if k == 1 then 2 else if k == 2 then 4 else if k == 3 then 8
    else if k == 4 then 16 else if k == 5 then 32 else if k == 6 then 64 else 128
  }

  predicate Bit(b: bv8, k: nat)
    requires k < 8
  {
    Shifted(b, k) & 1 == 1
  }

  predicate BitAt(bitmap: seq<bv8>, i: nat)
    requires i < 8 * |bitmap|
  {
    Bit(bitmap[i / 8], i % 8)
  }

  lemma BitsAdd(b: bv8)
    ensures b as int
         == (if b & 1 == 1 then 1 else 0) + (if (b >> 1) & 1 == 1 then 2 else 0) + (if (b >> 2) & 1 == 1 then 4 else 0)
            + (if (b >> 3) & 1 == 1 then 8 else 0) + (if (b >> 4) & 1 == 1 then 16 else 0) + (if (b >> 5) & 1 == 1 then 32 else 0)
            + (if (b >> 6) & 1 == 1 then 64 else 0) + (if (b >> 7) & 1 == 1 then 128 else 0)
  {
  }

  /** A byte is the sum of its bits' weights, the first bit's 1. */
  lemma ByteIsBits(b: bv8)
    ensures b as int
         == (if Bit(b, 0) then 1 else 0) + (if Bit(b, 1) then 2 else 0) + (if Bit(b, 2) then 4 else 0)
            + (if Bit(b, 3) then 8 else 0) + (if Bit(b, 4) then 16 else 0) + (if Bit(b, 5) then 32 else 0)
            + (if Bit(b, 6) then 64 else 0) + (if Bit(b, 7) then 128 else 0)
  {
    BitsAdd(b);
  }

  function Power2(k: nat): (p: nat)
    ensures p > 0
  {
    if k == 0 then 1 else 2 * Power2(k - 1)
  }

  /** The number that binary digits spell, the first counting for 1. */
  function Binary(bits: seq<bool>): nat {
    if bits == [] then 0 else (if bits[0] then 1 else 0) + 2 * Binary(bits[1..])
  }

  /** Dropping the first digit halves what the others count for. */
  lemma DropDigit(n: nat, first: bool, rest: nat, p: nat, double: nat)
    requires p > 0 && double == 2 * p && n == (if first then 1 else 0) + 2 * rest
    ensures n / double == rest / p
  {
    var q, r, f := rest / p, rest % p, if first then 1 else 0;
    assert rest == p * q + r;
    assert double * q == 2 * (p * q);
    Slots.QuotientUnique(n, double, q, 2 * r + f);
  }

  lemma FirstDigit(n: nat, first: bool, rest: nat)
    requires n == (if first then 1 else 0) + 2 * rest
    ensures first <==> (n / 1) % 2 == 1
  {
  }

  lemma {:induction false} BinaryDigit(bits: seq<bool>, k: nat)
    requires k < |bits|
    ensures bits[k] <==> (Binary(bits) / Power2(k)) % 2 == 1
  {
    if k == 0 {
      FirstDigit(Binary(bits), bits[0], Binary(bits[1..]));
    } else {
      BinaryDigit(bits[1..], k - 1);
      DropDigit(Binary(bits), bits[0], Binary(bits[1..]), Power2(k - 1), Power2(k));
    }
  }

  lemma BinaryOfEight(b0: bool, b1: bool, b2: bool, b3: bool, b4: bool, b5: bool, b6: bool, b7: bool)
    ensures Binary([b0, b1, b2, b3, b4, b5, b6, b7])
         == (if b0 then 1 else 0) + (if b1 then 2 else 0) + (if b2 then 4 else 0) + (if b3 then 8 else 0)
            + (if b4 then 16 else 0) + (if b5 then 32 else 0) + (if b6 then 64 else 0) + (if b7 then 128 else 0)
  {
    BinaryNext(b0, [b1, b2, b3, b4, b5, b6, b7]);
    BinaryNext(b1, [b2, b3, b4, b5, b6, b7]);
    BinaryNext(b2, [b3, b4, b5, b6, b7]);
    BinaryNext(b3, [b4, b5, b6, b7]);
    BinaryNext(b4, [b5, b6, b7]);
    BinaryNext(b5, [b6, b7]);
    BinaryNext(b6, [b7]);
    BinaryNext(b7, []);
  }

  lemma BinaryNext(b: bool, rest: seq<bool>)
    ensures Binary([b] + rest) == (if b then 1 else 0) + 2 * Binary(rest)
  {
  }

  /** Bit `k` is the digit of 2^k. */
  lemma BitIsDigit(b: bv8, k: nat)
    requires k < 8
    ensures Bit(b, k) <==> (b as int / Power2(k)) % 2 == 1
  {
    var bits := [Bit(b, 0), Bit(b, 1), Bit(b, 2), Bit(b, 3), Bit(b, 4), Bit(b, 5), Bit(b, 6), Bit(b, 7)];
    ByteIsBits(b);
    BinaryOfEight(bits[0], bits[1], bits[2], bits[3], bits[4], bits[5], bits[6], bits[7]);
    BinaryDigit(bits, k);
    EachBit(b, bits, k);
  }

  lemma EachBit(b: bv8, bits: seq<bool>, k: nat)
    requires bits == [Bit(b, 0), Bit(b, 1), Bit(b, 2), Bit(b, 3), Bit(b, 4), Bit(b, 5), Bit(b, 6), Bit(b, 7)] && k < 8
    ensures bits[k] == Bit(b, k)
  {
  }

  lemma SetBit(b: bv8, k: nat, l: nat)
    requires k < 8 && l < 8
    ensures Bit(b | Mask(k), l) == (l == k || Bit(b, l))
  {
  }

  lemma SetBitAt(bitmap: seq<bv8>, i: nat, j: nat)
    requires i < 8 * |bitmap| && j < 8 * |bitmap|
    ensures BitAt(bitmap[i / 8 := bitmap[i / 8] | Mask(i % 8)], j) == (j == i || BitAt(bitmap, j))
  {
    SetBit(bitmap[i / 8], i % 8, j % 8);
  }

  lemma ZerosHaveNoBits(bitmap: seq<bv8>, i: nat)
    requires i < 8 * |bitmap| && bitmap[i / 8] == 0
    ensures !BitAt(bitmap, i)
  {
  }

  /** How many of the first `n` elements are null. */
  function Nulls(n: nat, isValid: nat -> bool): nat {
    if n == 0 then 0 else Nulls(n - 1, isValid) + if isValid(n - 1) then 0 else 1
  }

  lemma {:induction false} NoNulls(n: nat, isValid: nat -> bool)
    ensures Nulls(n, isValid) == 0 <==> forall i: nat :: i < n ==> isValid(i)
  {
    if n > 0 {
      NoNulls(n - 1, isValid);
    }
  }

  /** The bits of the first `n` elements. */
  ghost predicate BitsOf(bitmap: seq<bv8>, n: nat, isValid: nat -> bool) {
    forall j: nat :: j < 8 * |bitmap| ==> BitAt(bitmap, j) == (j < n && isValid(j))
  }

  predicate ValidAt(n: nat, isValid: nat -> bool, j: nat) {
    j < n && isValid(j)
  }

  /** The number of bitmap byte `i`: 1 for its first element if that is valid, 2
      for the second, and so on to 128. */
  function ByteOf(n: nat, isValid: nat -> bool, i: nat): nat {
    (if ValidAt(n, isValid, 8 * i) then 1 else 0) + (if ValidAt(n, isValid, 8 * i + 1) then 2 else 0)
    + (if ValidAt(n, isValid, 8 * i + 2) then 4 else 0) + (if ValidAt(n, isValid, 8 * i + 3) then 8 else 0)
    + (if ValidAt(n, isValid, 8 * i + 4) then 16 else 0) + (if ValidAt(n, isValid, 8 * i + 5) then 32 else 0)
    + (if ValidAt(n, isValid, 8 * i + 6) then 64 else 0) + (if ValidAt(n, isValid, 8 * i + 7) then 128 else 0)
  }

  /** A bitmap by its bytes' numbers. */
  lemma BitmapByte(bitmap: seq<bv8>, n: nat, isValid: nat -> bool, i: nat)
    requires BitsOf(bitmap, n, isValid) && i < |bitmap|
    ensures bitmap[i] as int == ByteOf(n, isValid, i)
  {
    ByteIsBits(bitmap[i]);
    forall k: nat | k < 8 ensures Bit(bitmap[i], k) == ValidAt(n, isValid, 8 * i + k) {
      BitInByte(bitmap, n, isValid, i, k);
    }
  }

  lemma BitInByte(bitmap: seq<bv8>, n: nat, isValid: nat -> bool, i: nat, k: nat)
    requires BitsOf(bitmap, n, isValid) && i < |bitmap| && k < 8
    ensures Bit(bitmap[i], k) == ValidAt(n, isValid, 8 * i + k)
  {
    assert (8 * i + k) / 8 == i && (8 * i + k) % 8 == k;
    assert BitAt(bitmap, 8 * i + k) == (8 * i + k < n && isValid(8 * i + k));
  }

  lemma NextBitSet(was: seq<bv8>, now: seq<bv8>, i: nat, isValid: nat -> bool)
    requires i < 8 * |was| && BitsOf(was, i, isValid) && isValid(i)
    requires now == was[i / 8 := was[i / 8] | Mask(i % 8)]
    ensures BitsOf(now, i + 1, isValid)
  {
    forall j: nat | j < 8 * |was| ensures BitAt(now, j) == (j < i + 1 && isValid(j)) {
      SetBitAt(was, i, j);
    }
  }

  lemma NoBitsSet(bitmap: seq<bv8>, isValid: nat -> bool)
    requires forall k :: 0 <= k < |bitmap| ==> bitmap[k] == 0
    ensures BitsOf(bitmap, 0, isValid)
  {
    forall j: nat | j < 8 * |bitmap| ensures !BitAt(bitmap, j) {
      ZerosHaveNoBits(bitmap, j);
    }
  }

  /** Bytes for `n` bits. */
  function BytesFor(n: nat): (bytes: nat)
    ensures n <= 8 * bytes < n + 8
  {
    (n + 7) / 8
  }

  /** One element's turn: its bit is set if it is valid. */
  method MarkElement(bitmap: array<bv8>, i: nat, isValid: nat -> bool) returns (isNull: bool)
    requires i < 8 * bitmap.Length && BitsOf(bitmap[..], i, isValid)
    modifies bitmap
    ensures BitsOf(bitmap[..], i + 1, isValid) && isNull == !isValid(i)
  {
    ghost var was := bitmap[..];
    if isValid(i) {
      bitmap[i / 8] := bitmap[i / 8] | Mask(i % 8);
      NextBitSet(was, bitmap[..], i, isValid);
    } else {
      NextBitUnset(was, i, isValid);
    }
    isNull := !isValid(i);
  }

  lemma NextBitUnset(bitmap: seq<bv8>, i: nat, isValid: nat -> bool)
    requires BitsOf(bitmap, i, isValid) && !isValid(i)
    ensures BitsOf(bitmap, i + 1, isValid)
  {
  }

  /** Every element's turn, counting the nulls. */
  method MarkElements(bitmap: array<bv8>, n: nat, isValid: nat -> bool) returns (nulls: nat)
    requires n <= 8 * bitmap.Length && BitsOf(bitmap[..], 0, isValid)
    modifies bitmap
    ensures BitsOf(bitmap[..], n, isValid) && nulls == Nulls(n, isValid)
  {
    nulls := 0;
    for i := 0 to n
      invariant nulls == Nulls(i, isValid)
      invariant BitsOf(bitmap[..], i, isValid)
    {
      var isNull := MarkElement(bitmap, i, isValid);
      if isNull {
        nulls := nulls + 1;
      }
    }
  }

  /** Valid elements as set bits, and no bitmap at all where nothing is null. */
  method ValidityBitmap(n: nat, isValid: nat -> bool) returns (validity: Option<seq<bv8>>, nulls: nat)
    ensures nulls == Nulls(n, isValid)
    ensures validity.None? <==> nulls == 0
    ensures validity.None? <==> forall i: nat :: i < n ==> isValid(i)
    ensures validity.Some? ==> |validity.value| == BytesFor(n) && BitsOf(validity.value, n, isValid)
    ensures validity.Some? ==> forall i: nat :: i < |validity.value| ==> validity.value[i] as int == ByteOf(n, isValid, i)
  {
    var bitmap := new bv8[BytesFor(n)](_ => 0);
    NoBitsSet(bitmap[..], isValid);
    nulls := MarkElements(bitmap, n, isValid);
    NoNulls(n, isValid);
    validity := if nulls == 0 then None else Some(bitmap[..]);
    forall i: nat | i < bitmap.Length ensures bitmap[..][i] as int == ByteOf(n, isValid, i) {
      BitmapByte(bitmap[..], n, isValid, i);
    }
  }

  // --- Arrays ---

  /** What cell and list arrays share. A null count of -1 means not counted. */
  datatype Header = Header(length: nat, nullCount: int, offset: nat, validity: Option<seq<bv8>>) {

    /** The bitmap covers the elements, and a count of 0 is true. */
    ghost predicate Valid() {
      validity.Some? ==>
        && offset + length <= 8 * |validity.value|
        && (nullCount == 0 ==> forall k: nat :: offset <= k < offset + length ==> BitAt(validity.value, k))
    }

    /** Whether element `i` of this array, counted from its offset, is valid. */
    predicate IsValid(i: nat)
      requires Valid() && i < length
    {
      if validity.None? || nullCount == 0 then true else BitAt(validity.value, offset + i)
    }

    /** Element `i` is valid where its bit, counted from the array's offset, is
        set. */
    lemma ValidByNumbers(i: nat)
      requires Valid() && i < length
      ensures IsValid(i) <==>
              || validity.None? || nullCount == 0
              || (validity.value[(offset + i) / 8] as int / Power2((offset + i) % 8)) % 2 == 1
    {
      if validity.Some? && nullCount != 0 {
        BitIsDigit(validity.value[(offset + i) / 8], (offset + i) % 8);
      }
    }

    /** `part` is elements `from` to `from + part.length` of this array. It may
        leave its nulls uncounted, and drop the bitmap when it has none. */
    ghost predicate HasSlice(part: Header, from: nat)
      requires Valid()
    {
      && from + part.length <= length
      && part.offset == offset + from
      && (part.validity == validity || part.validity.None?)
      && (part.nullCount == 0 || part.validity.None? ==>
            forall k: nat :: from <= k < from + part.length ==> IsValid(k))
    }

    lemma SliceValid(part: Header, from: nat)
      requires Valid() && HasSlice(part, from)
      ensures part.Valid()
      ensures forall i: nat :: i < part.length ==> part.IsValid(i) == IsValid(from + i)
    {
      if part.validity.Some? && part.nullCount == 0 {
        forall k: nat | part.offset <= k < part.offset + part.length ensures BitAt(part.validity.value, k) {
          assert IsValid(k - offset);
        }
      }
    }
  }

  /** A uint64 array. */
  datatype Cells = Cells(head: Header, values: Option<seq<bv64>>) {

    ghost predicate Valid() {
      && head.Valid()
      && (values.Some? ==> head.offset + head.length <= |values.value|)
      && (values.None? ==> head.length == 0)
    }

    function U64Values(): (r: seq<bv64>)
      requires Valid()
      ensures |r| == head.length
    {
      if values.None? || head.length == 0 then [] else values.value[head.offset..head.offset + head.length]
    }

    /** Element `i`: None when null, else a cell. */
    function Element(i: nat): Option<bv64>
      requires Valid() && i < head.length
    {
      if head.IsValid(i) then Some(U64Values()[i]) else None
    }

    function Elements(): (r: seq<Option<bv64>>)
      requires Valid()
      ensures |r| == head.length
    {
      seq(head.length, i requires 0 <= i < head.length => Element(i))
    }

    /** An element in the buffers: its value stands at the offset and its index,
        unless its bit says null. */
    lemma ElementInBuffers(i: nat)
      requires Valid() && i < head.length
      ensures Element(i) == if head.IsValid(i) then Some(values.value[head.offset + i]) else None
    {
    }

    lemma ValuesInBuffer(start: nat, end: nat)
      requires Valid() && values.Some? && start <= end <= head.length
      ensures U64Values()[start..end] == values.value[head.offset + start..head.offset + end]
    {
      SliceOfSlice(values.value, head.offset, head.offset + head.length, head.offset + start, head.offset + end);
    }

    ghost predicate HasSlice(part: Cells, from: nat)
      requires Valid()
    {
      && head.HasSlice(part.head, from)
      && part.values == values
    }

    lemma SliceElements(part: Cells, from: nat)
      requires Valid() && HasSlice(part, from)
      ensures part.Valid() && part.Elements() == Elements()[from..from + part.head.length]
    {
      head.SliceValid(part.head, from);
      forall i: nat | i < part.head.length ensures part.Element(i) == Element(from + i) {
        var k := head.offset + (from + i);
        assert U64Values()[from + i] == values.value[k] && part.U64Values()[i] == values.value[k];
      }
    }
  }

  type I32 = x: int | -0x8000_0000 <= x < 0x8000_0000
  const I32_MAX := 0x7FFF_FFFF

  /** A cast to 32 bits keeps the low bits. */
  function AsI32(n: nat): (r: I32)
    ensures n <= I32_MAX ==> r == n
  {
    var low := n % 0x1_0000_0000;
    if low >= 0x8000_0000 then low - 0x1_0000_0000 else low
  }

  /** A list<uint64> array. Element `i`'s cells run between offsets `i` and
      `i + 1`, counted from the child's own offset. */
  datatype Lists = Lists(head: Header, offsets: seq<I32>, child: Cells) {

    ghost predicate Valid() {
      && head.Valid()
      && child.Valid()
      && (head.length > 0 ==> head.offset + head.length < |offsets|)
      && forall k: nat :: head.offset <= k < head.offset + head.length ==> OffsetsAscend(k)
    }

    ghost predicate OffsetsAscend(k: nat)
      requires k + 1 < |offsets|
    {
      0 <= offsets[k] <= offsets[k + 1] <= child.head.length
    }

    function Start(i: nat): (r: nat)
      requires Valid() && i < head.length
      ensures r <= child.head.length
    {
      assert OffsetsAscend(head.offset + i);
      offsets[head.offset + i]
    }

    function End(i: nat): (r: nat)
      requires Valid() && i < head.length
      ensures Start(i) <= r <= child.head.length
    {
      assert OffsetsAscend(head.offset + i);
      offsets[head.offset + i + 1]
    }

    /** Whether some cell of element `i` is null. */
    ghost predicate HasNullCell(i: nat)
      requires Valid() && i < head.length
    {
      head.IsValid(i) && exists k: nat :: Start(i) <= k < End(i) && !child.head.IsValid(k)
    }

    ghost predicate NoNullCells()
      requires Valid()
    {
      forall i: nat :: i < head.length ==> !HasNullCell(i)
    }

    /** Element `i`: None when null, else its cells. */
    function Element(i: nat): Option<seq<bv64>>
      requires Valid() && i < head.length
    {
      if head.IsValid(i) then Some(child.U64Values()[Start(i)..End(i)]) else None
    }

    function Elements(): (r: seq<Option<seq<bv64>>>)
      requires Valid()
      ensures |r| == head.length
    {
      seq(head.length, i requires 0 <= i < head.length => Element(i))
    }

    /** An element in the buffers: the child's values from its offset to the
        next. */
    lemma ElementInBuffers(i: nat)
      requires Valid() && i < head.length && head.IsValid(i) && child.values.Some?
      ensures 0 <= offsets[head.offset + i] <= offsets[head.offset + i + 1] <= child.head.length
      ensures child.head.offset + child.head.length <= |child.values.value|
      ensures Element(i) == Some(child.values.value[child.head.offset + offsets[head.offset + i]
                                                    ..child.head.offset + offsets[head.offset + i + 1]])
    {
      assert OffsetsAscend(head.offset + i);
      child.ValuesInBuffer(Start(i), End(i));
    }

    ghost predicate HasSlice(part: Lists, from: nat)
      requires Valid()
    {
      && head.HasSlice(part.head, from)
      && part.offsets == offsets
      && part.child == child
    }

    lemma SliceElements(part: Lists, from: nat)
      requires Valid() && HasSlice(part, from)
      ensures part.Valid() && part.Elements() == Elements()[from..from + part.head.length]
      ensures NoNullCells() ==> part.NoNullCells()
    {
      head.SliceValid(part.head, from);
      forall k: nat | part.head.offset <= k < part.head.offset + part.head.length ensures part.OffsetsAscend(k) {
        assert OffsetsAscend(k);
      }
      forall i: nat | i < part.head.length
        ensures part.Element(i) == Element(from + i)
        ensures part.HasNullCell(i) == HasNullCell(from + i)
      {
        assert part.Start(i) == Start(from + i) && part.End(i) == End(from + i);
      }
    }

    /** `part` has the same list elements over a slice of the child, from `d`
        on, with its offsets lowered to match. */
    ghost predicate HasChildSlice(part: Lists, d: nat)
      requires Valid()
    {
      && part.head == head
      && |part.offsets| == |offsets|
      && child.HasSlice(part.child, d)
      && forall k: nat :: head.length > 0 && head.offset <= k <= head.offset + head.length ==>
           0 <= part.offsets[k] <= part.child.head.length && part.offsets[k] == offsets[k] - d
    }

    lemma ChildSliceElements(part: Lists, d: nat)
      requires Valid() && HasChildSlice(part, d)
      ensures part.Valid() && part.Elements() == Elements()
      ensures NoNullCells() ==> part.NoNullCells()
    {
      child.SliceElements(part.child, d);
      child.head.SliceValid(part.child.head, d);
      forall k: nat | head.offset <= k < head.offset + head.length ensures part.OffsetsAscend(k) {
        assert OffsetsAscend(k);
      }
      forall i: nat | i < head.length ensures part.Element(i) == Element(i) {
        ChildSliceElement(part, d, i);
      }
      if NoNullCells() {
        forall i: nat | i < head.length ensures !part.HasNullCell(i) {
          ChildSliceNulls(part, d, i);
        }
      }
    }

    lemma ChildSliceNulls(part: Lists, d: nat, i: nat)
      requires Valid() && HasChildSlice(part, d) && part.Valid() && i < head.length && !HasNullCell(i)
      requires forall k: nat :: k < part.child.head.length ==> part.child.head.IsValid(k) == child.head.IsValid(d + k)
      ensures !part.HasNullCell(i)
    {
      assert part.Start(i) == Start(i) - d && part.End(i) == End(i) - d;
      if head.IsValid(i) {
        forall k: nat | part.Start(i) <= k < part.End(i) ensures part.child.head.IsValid(k) {
          assert child.head.IsValid(d + k);
        }
      }
    }

    /** An array is its own child slice. */
    lemma WholeChild()
      requires Valid()
      ensures HasChildSlice(this, 0)
    {
      forall k: nat | head.length > 0 && head.offset <= k <= head.offset + head.length
        ensures 0 <= offsets[k] <= child.head.length
      {
        assert k == head.offset + head.length ==> OffsetsAscend(k - 1);
        assert k < head.offset + head.length ==> OffsetsAscend(k);
      }
    }

    lemma ChildSliceElement(part: Lists, d: nat, i: nat)
      requires Valid() && HasChildSlice(part, d) && part.Valid() && i < head.length
      ensures part.Element(i) == Element(i)
    {
      ChildSliceValues(part, d);
      assert part.Start(i) == Start(i) - d && part.End(i) == End(i) - d;
      SliceOfSlice(child.U64Values(), d, d + part.child.head.length, Start(i), End(i));
    }

    lemma ChildSliceValues(part: Lists, d: nat)
      requires Valid() && HasChildSlice(part, d) && part.child.Valid()
      ensures part.child.U64Values() == child.U64Values()[d..d + part.child.head.length]
    {
      var n := part.child.head.length;
      forall i | 0 <= i < n ensures part.child.U64Values()[i] == child.U64Values()[d + i] {
        var k := child.head.offset + (d + i);
        assert child.U64Values()[d + i] == child.values.value[k] && part.child.U64Values()[i] == child.values.value[k];
      }
    }
  }

  lemma SliceOfSlice<T>(s: seq<T>, lo: nat, hi: nat, start: nat, end: nat)
    requires lo <= start <= end <= hi <= |s|
    ensures s[lo..hi][start - lo..end - lo] == s[start..end]
  {
    forall i | 0 <= i < end - start ensures s[lo..hi][start - lo..end - lo][i] == s[start..end][i] {
      assert s[lo..hi][start - lo + i] == s[start + i];
    }
  }
}
