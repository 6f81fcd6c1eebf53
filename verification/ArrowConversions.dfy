/** Cells and coverings to and from Arrow arrays, and what any slicing and
    chunking in between gives back. */
module ArrowConversions {
  import opened Results
  import opened CellBytes
  import opened ArrowBuffers

  // --- Slots to read ---

  /** A slot a consumer was asked to export into. `OtherList` is a list of
      something other than uint64, `Other` any other format. */
  datatype Slot = Unfilled | CellSlot(cells: Cells) | ListSlot(lists: Lists) | OtherList | Other {
    ghost predicate Valid() {
      && (CellSlot? ==> cells.Valid())
      && (ListSlot? ==> lists.Valid())
    }
  }

  /** `position` counts the elements of every slot from 1. */
  datatype Read<+T> = Read(value: T) | NotExported | WrongFormat | NullCell(position: nat)

  ghost predicate AllValid(slots: seq<Slot>) {
    forall i :: 0 <= i < |slots| ==> slots[i].Valid()
  }

  // --- Cells ---

  /** The cells of every slot, concatenated. */
  function AllCells(slots: seq<Slot>): seq<Option<bv64>>
    requires AllValid(slots)
  {
    if slots == [] then []
    else AllCells(slots[..|slots| - 1])
         + if slots[|slots| - 1].CellSlot? then slots[|slots| - 1].cells.Elements() else []
  }

  function NullsIn<T>(elements: seq<Option<T>>): nat {
    if elements == [] then 0
    else NullsIn(elements[..|elements| - 1]) + if elements[|elements| - 1].None? then 1 else 0
  }

  lemma {:induction false} NullsAre<T>(elements: seq<Option<T>>, isValid: nat -> bool, n: nat)
    requires n <= |elements| && forall i: nat :: i < n ==> isValid(i) == elements[i].Some?
    ensures Nulls(n, isValid) == NullsIn(elements[..n])
  {
    if n > 0 {
      NullsAre(elements, isValid, n - 1);
      assert elements[..n][..n - 1] == elements[..n - 1];
    }
  }

  /** Which elements are there; all past the end are. */
  function Presence<T>(elements: seq<Option<T>>): nat -> bool {
    (i: nat) => i >= |elements| || elements[i].Some?
  }

  /** The bitmap's bytes are the elements' presence, and its length theirs. */
  ghost predicate ShowsPresence<T(!new)>(head: Header, elements: seq<Option<T>>) {
    && head.length == |elements|
    && (head.validity.None? <==> NullsIn(elements) == 0)
    && (head.validity.Some? ==>
          forall i: nat :: i < |head.validity.value| ==>
            head.validity.value[i] as int == ByteOf(|elements|, Presence(elements), i))
  }

  /** A cell vector as an array: the same cells, NA a null, and a bitmap only
      where there is one. */
  method CellsToArrow(cells: seq<Option<bv64>>) returns (a: Cells)
    ensures a.Valid() && a.Elements() == cells
    ensures a.head.offset == 0 && a.head.nullCount == NullsIn(cells)
    ensures ShowsPresence(a.head, cells)
    ensures a.values.Some? && |a.values.value| == |cells|
    ensures forall i :: 0 <= i < |cells| ==> a.values.value[i] == match cells[i] case Some(id) => id case None => 0
  {
    var values, anyNa := CellValues(cells);
    var head := Header(|cells|, 0, 0, None);
    if anyNa {
      head := PresenceHeader(cells);
    } else {
      NoneMissing(cells);
    }
    a := Cells(head, Some(values));
    ExportedCells(cells, a);
  }

  /** The header of an array of these elements, with their bitmap. */
  method PresenceHeader<T(!new)>(elements: seq<Option<T>>) returns (head: Header)
    ensures head.Valid() && head.offset == 0 && head.nullCount == NullsIn(elements) && ShowsPresence(head, elements)
    ensures forall i: nat :: i < |elements| ==> head.IsValid(i) == elements[i].Some?
  {
    var n, isValid := |elements|, Presence(elements);
    NullsAre(elements, isValid, n);
    assert elements[..n] == elements;
    var validity, nulls := ValidityBitmap(n, isValid);
    head := Header(n, nulls, 0, validity);
    BitsShowPresence(head, n, isValid);
  }

  lemma BitsShowPresence(head: Header, n: nat, isValid: nat -> bool)
    requires head == Header(n, Nulls(n, isValid), 0, head.validity)
    requires head.validity.None? <==> head.nullCount == 0
    requires head.validity.Some? ==> |head.validity.value| == BytesFor(n) && BitsOf(head.validity.value, n, isValid)
    ensures head.Valid() && forall i: nat :: i < n ==> head.IsValid(i) == isValid(i)
  {
    NoNulls(n, isValid);
  }

  lemma {:induction false} NoneMissing<T(!new)>(elements: seq<Option<T>>)
    requires forall i :: 0 <= i < |elements| ==> elements[i].Some?
    ensures NullsIn(elements) == 0
  {
    if elements != [] {
      NoneMissing(elements[..|elements| - 1]);
    }
  }

  /** The ids, 0 for NA, and whether there is an NA. */
  method CellValues(cells: seq<Option<bv64>>) returns (values: seq<bv64>, anyNa: bool)
    ensures |values| == |cells|
    ensures forall j :: 0 <= j < |cells| ==> values[j] == match cells[j] case Some(id) => id case None => 0
    ensures anyNa <==> exists j :: 0 <= j < |cells| && cells[j].None?
  {
    values, anyNa := [], false;
    for i := 0 to |cells|
      invariant |values| == i
      invariant forall j :: 0 <= j < i ==> values[j] == match cells[j] case Some(id) => id case None => 0
      invariant anyNa <==> exists j :: 0 <= j < i && cells[j].None?
    {
      anyNa := anyNa || cells[i].None?;
      values := values + [if cells[i].Some? then cells[i].value else 0];
    }
  }

  lemma ExportedCells(cells: seq<Option<bv64>>, a: Cells)
    requires a.head.Valid() && a.head.offset == 0 && a.head.length == |cells|
    requires a.values.Some? && |a.values.value| == |cells|
    requires forall i: nat :: i < |cells| ==> a.head.IsValid(i) == cells[i].Some?
    requires forall i :: 0 <= i < |cells| && cells[i].Some? ==> a.values.value[i] == cells[i].value
    ensures a.Valid() && a.Elements() == cells
  {
    forall i: nat | i < |cells| ensures a.Element(i) == cells[i] {
    }
  }

  /** Eight growing byte vectors. */
  type Vectors = p: seq<seq<bv8>> | |p| == 8 witness [[], [], [], [], [], [], [], []]

  /** The vectors hold the stored bytes of these cells. */
  ghost predicate Hold(p: Vectors, cells: seq<Option<bv64>>) {
    forall j :: 0 <= j < 8 ==> |p[j]| == |cells| && forall i :: 0 <= i < |cells| ==> p[j][i] == Stored(cells[i])[j]
  }

  function Pushed(p: Vectors, b: Bytes): Vectors {
    [p[0] + [b[0]], p[1] + [b[1]], p[2] + [b[2]], p[3] + [b[3]],
     p[4] + [b[4]], p[5] + [b[5]], p[6] + [b[6]], p[7] + [b[7]]]
  }

  lemma PushedHolds(p: Vectors, cells: seq<Option<bv64>>, cell: Option<bv64>)
    requires Hold(p, cells)
    ensures Hold(Pushed(p, Stored(cell)), cells + [cell])
  {
    var q := Pushed(p, Stored(cell));
    forall j | 0 <= j < 8 ensures q[j] == p[j] + [Stored(cell)[j]] {
    }
  }

  lemma CellsAppend(slots: seq<Slot>, i: nat)
    requires AllValid(slots) && i < |slots| && slots[i].CellSlot?
    ensures AllCells(slots[..i + 1]) == AllCells(slots[..i]) + slots[i].cells.Elements()
  {
    assert slots[..i + 1][..i] == slots[..i];
  }

  /** A null becomes NA, stored as eight zero bytes. */
  method BytesAt(cells: Cells, values: seq<bv64>, j: nat) returns (bytes: Bytes)
    requires cells.Valid() && values == cells.U64Values() && j < |values|
    ensures bytes == Stored(cells.Element(j))
  {
    bytes := if cells.head.IsValid(j) then Encode(values[j]) else ZEROS;
  }

  /** One array's cells pushed onto the vectors. */
  method PushCells(planes: Vectors, cells: Cells, ghost before: seq<Option<bv64>>) returns (out: Vectors)
    requires cells.Valid() && Hold(planes, before)
    ensures Hold(out, before + cells.Elements())
  {
    out := planes;
    var values := cells.U64Values();
    assert before + cells.Elements()[..0] == before;
    for j := 0 to |values|
      invariant Hold(out, before + cells.Elements()[..j])
    {
      PushedHolds(out, before + cells.Elements()[..j], cells.Element(j));
      assert before + cells.Elements()[..j] + [cells.Element(j)] == before + cells.Elements()[..j + 1];
      var bytes := BytesAt(cells, values, j);
      out := Pushed(out, bytes);
    }
    assert cells.Elements()[..|values|] == cells.Elements();
  }

  /** Reading every slot: the cells of all of them in order, or the first slot
      that was not exported into or has another format. */
  method CellsFromArrow(slots: seq<Slot>) returns (r: Read<Vectors>)
    requires AllValid(slots)
    ensures r.Read? <==> forall i :: 0 <= i < |slots| ==> slots[i].CellSlot?
    ensures r.Read? ==> Hold(r.value, AllCells(slots))
    ensures r.NotExported? ==> exists i :: 0 <= i < |slots| && slots[i].Unfilled? && forall k :: 0 <= k < i ==> slots[k].CellSlot?
    ensures r.WrongFormat? ==> exists i :: 0 <= i < |slots| && !slots[i].Unfilled? && !slots[i].CellSlot?
                                           && forall k :: 0 <= k < i ==> slots[k].CellSlot?
    ensures !r.NullCell?
  {
    for i := 0 to |slots|
      invariant forall k :: 0 <= k < i ==> slots[k].CellSlot?
    {
      match slots[i] {
        case Unfilled => return NotExported;
        case CellSlot(_) =>
        case ListSlot(_) => return WrongFormat;
        case OtherList => return WrongFormat;
        case Other => return WrongFormat;
      }
    }
    var planes := PushSlots(slots);
    return Read.Read(planes);
  }

  method PushSlots(slots: seq<Slot>) returns (planes: Vectors)
    requires AllValid(slots) && forall i :: 0 <= i < |slots| ==> slots[i].CellSlot?
    ensures Hold(planes, AllCells(slots))
  {
    planes := [[], [], [], [], [], [], [], []];
    for i := 0 to |slots|
      invariant Hold(planes, AllCells(slots[..i]))
    {
      CellsAppend(slots, i);
      planes := PushCells(planes, slots[i].cells, AllCells(slots[..i]));
    }
    assert slots[..|slots|] == slots;
  }

  // --- Coverings ---

  /** The cells of every covering that is not missing, in order. */
  function Joined(coverings: seq<Option<seq<bv64>>>): seq<bv64> {
    if coverings == [] then []
    else Joined(coverings[..|coverings| - 1]) + Present(coverings[|coverings| - 1])
  }

  function Present(covering: Option<seq<bv64>>): seq<bv64> {
    if covering.Some? then covering.value else []
  }

  lemma JoinedAppend(coverings: seq<Option<seq<bv64>>>, i: nat)
    requires i < |coverings|
    ensures Joined(coverings[..i + 1]) == Joined(coverings[..i]) + Present(coverings[i])
  {
    assert coverings[..i + 1][..i] == coverings[..i];
  }

  /** A part's cells stand where its prefix ends. */
  lemma {:induction false} JoinedPrefix(coverings: seq<Option<seq<bv64>>>, i: nat, n: nat)
    requires i <= n <= |coverings|
    ensures Joined(coverings[..i]) <= Joined(coverings[..n])
  {
    if i < n {
      JoinedPrefix(coverings, i, n - 1);
      JoinedAppend(coverings, n - 1);
    }
  }

  lemma JoinedPart(coverings: seq<Option<seq<bv64>>>, i: nat)
    requires i < |coverings|
    ensures |Joined(coverings[..i])| <= |Joined(coverings[..i + 1])| <= |Joined(coverings)|
    ensures Joined(coverings)[|Joined(coverings[..i])|..|Joined(coverings[..i + 1])|] == Present(coverings[i])
  {
    JoinedAppend(coverings, i);
    JoinedPrefix(coverings, i + 1, |coverings|);
    assert coverings[..|coverings|] == coverings;
  }

  /** How many cells the coverings hold. */
  method CountCells(coverings: seq<Option<seq<bv64>>>) returns (total: nat)
    ensures total == |Joined(coverings)|
  {
    total := 0;
    for i := 0 to |coverings|
      invariant total == |Joined(coverings[..i])|
    {
      JoinedAppend(coverings, i);
      total := total + if coverings[i].Some? then |coverings[i].value| else 0;
    }
    assert coverings[..|coverings|] == coverings;
  }

  /** Coverings as a list array: the same coverings, a missing one a null; an
      error exactly when their cells outnumber a 32-bit offset. */
  method CoveringsToArrow(coverings: seq<Option<seq<bv64>>>) returns (a: Option<Lists>)
    ensures a.None? <==> |Joined(coverings)| > 0x7FFF_FFFF
    ensures a.Some? ==>
      && ShowsPresence(a.value.head, coverings)
      && StartsOf(coverings, a.value.offsets) && |a.value.offsets| == |coverings| + 1
      && a.value.child == Cells(Header(|Joined(coverings)|, 0, 0, None), Some(Joined(coverings)))
    ensures a.Some? ==>
      && a.value.Valid() && a.value.NoNullCells() && a.value.Elements() == coverings
      && a.value.head.offset == 0 && a.value.head.nullCount == NullsIn(coverings)
  {
    var total := CountCells(coverings);
    if total > I32_MAX {
      return None;
    }
    var values, offsets := JoinCells(coverings);
    var head := PresenceHeader(coverings);
    var lists := Lists(head, offsets, Cells(Header(total, 0, 0, None), Some(values)));
    ExportedLists(coverings, lists);
    return Some(lists);
  }

  /** All coverings' cells in a row, and where each covering's start. */
  method JoinCells(coverings: seq<Option<seq<bv64>>>) returns (values: seq<bv64>, offsets: seq<I32>)
    requires |Joined(coverings)| <= I32_MAX
    ensures values == Joined(coverings)
    ensures StartsOf(coverings, offsets) && |offsets| == |coverings| + 1
  {
    values, offsets := [], [0];
    assert coverings[..|coverings|] == coverings;
    for i := 0 to |coverings|
      invariant values == Joined(coverings[..i])
      invariant StartsOf(coverings, offsets) && |offsets| == i + 1
    {
      NextStart(coverings, i);
      if coverings[i].Some? {
        values := values + coverings[i].value;
      }
      offsets := offsets + [AsI32(|values|)];
    }
  }

  /** Where each covering's cells start, and where the last's end. */
  ghost predicate StartsOf(coverings: seq<Option<seq<bv64>>>, offsets: seq<I32>) {
    |offsets| <= |coverings| + 1 && forall k: nat :: k < |offsets| ==> offsets[k] == |Joined(coverings[..k])|
  }

  lemma NextStart(coverings: seq<Option<seq<bv64>>>, i: nat)
    requires i < |coverings|
    ensures Joined(coverings[..i + 1]) == Joined(coverings[..i]) + Present(coverings[i])
    ensures |Joined(coverings[..i + 1])| <= |Joined(coverings)|
  {
    JoinedAppend(coverings, i);
    JoinedPrefix(coverings, i + 1, |coverings|);
    assert coverings[..|coverings|] == coverings;
  }

  lemma ExportedElement(coverings: seq<Option<seq<bv64>>>, a: Lists, i: nat)
    requires a.Valid() && a.head.offset == 0 && i < a.head.length == |coverings| == |a.offsets| - 1
    requires a.head.IsValid(i) == coverings[i].Some?
    requires a.offsets[i] == |Joined(coverings[..i])| && a.offsets[i + 1] == |Joined(coverings[..i + 1])|
    requires a.child.U64Values() == Joined(coverings)
    ensures a.Element(i) == coverings[i]
  {
    JoinedPart(coverings, i);
  }

  lemma ExportedLists(coverings: seq<Option<seq<bv64>>>, a: Lists)
    requires a.head.Valid() && a.head.offset == 0 && a.head.length == |coverings| == |a.offsets| - 1
    requires forall i: nat :: i < |coverings| ==> a.head.IsValid(i) == coverings[i].Some?
    requires forall k: nat :: k < |a.offsets| ==> a.offsets[k] == |Joined(coverings[..k])|
    requires a.child == Cells(Header(|Joined(coverings)|, 0, 0, None), Some(Joined(coverings)))
    ensures a.Valid() && a.NoNullCells() && a.Elements() == coverings
  {
    forall k: nat | k < |coverings| ensures a.OffsetsAscend(k) {
      JoinedPart(coverings, k);
    }
    assert a.child.U64Values() == Joined(coverings);
    forall i: nat | i < |coverings| ensures a.Element(i) == coverings[i] {
      ExportedElement(coverings, a, i);
    }
  }

  // --- Reading coverings ---

  /** A covering's stored bytes: its values, little-endian, one after another. */
  function ToRaw(values: seq<bv64>): seq<bv8> {
    Encoded(ToLittleEndian, values)
  }

  function Encoded(encode: bv64 -> Bytes, values: seq<bv64>): (raw: seq<bv8>)
    ensures |raw| == 8 * |values|
  {
    if values == [] then [] else Encoded(encode, values[..|values| - 1]) + encode(values[|values| - 1])
  }

  /** The values in stored bytes, eight bytes at a time; a shorter tail is
      ignored. */
  function FromRaw(raw: seq<bv8>): seq<bv64> {
    if |raw| < 8 then [] else [FromLittleEndian(raw[..8])] + FromRaw(raw[8..])
  }

  lemma {:induction false} EncodedPrepend(encode: bv64 -> Bytes, v: bv64, values: seq<bv64>)
    ensures Encoded(encode, [v] + values) == encode(v) + Encoded(encode, values)
  {
    if values == [] {
      assert [v] + values == [v] && [v][..0] == [];
    } else {
      var n := |values| - 1;
      assert ([v] + values)[..n + 1] == [v] + values[..n];
      EncodedPrepend(encode, v, values[..n]);
    }
  }

  lemma {:induction false} RawRoundTrip(values: seq<bv64>)
    ensures |ToRaw(values)| == 8 * |values|
    ensures FromRaw(ToRaw(values)) == values
  {
    if values != [] {
      EncodedPrepend(ToLittleEndian, values[0], values[1..]);
      assert values == [values[0]] + values[1..];
      RawRoundTrip(values[1..]);
      LittleEndianRoundTrip(values[0], ZEROS);
      assert ToRaw(values)[..8] == ToLittleEndian(values[0]);
      assert ToRaw(values)[8..] == ToRaw(values[1..]);
    }
  }

  /** Byte `j` of a value counts for 256^j, unmasked. */
  lemma RawNumber(values: seq<bv64>, k: nat, b: seq<bv8>)
    requires k < |values|
    requires b == ToRaw(values)[8 * k..8 * k + 8]
    ensures values[k] as int
         == b[0] as int + 0x100 * b[1] as int + 0x1_0000 * b[2] as int + 0x100_0000 * b[3] as int
            + 0x1_0000_0000 * b[4] as int + 0x100_0000_0000 * b[5] as int
            + 0x1_0000_0000_0000 * b[6] as int + 0x100_0000_0000_0000 * b[7] as int
  {
    RawPart(values, k);
    LittleEndianOf(values[k], b);
  }

  lemma {:induction false} RawPart(values: seq<bv64>, k: nat)
    requires k < |values|
    ensures ToRaw(values)[8 * k..8 * k + 8] == ToLittleEndian(values[k])
  {
    var rest := values[..|values| - 1];
    assert ToRaw(values) == ToRaw(rest) + ToLittleEndian(values[|values| - 1]);
    if k < |rest| {
      RawPart(rest, k);
    }
  }

  function RawOf(covering: Option<seq<bv64>>): Option<seq<bv8>> {
    if covering.Some? then Some(ToRaw(covering.value)) else None
  }

  /** The coverings of every slot, concatenated. */
  function AllCoverings(slots: seq<Slot>): seq<Option<seq<bv64>>>
    requires AllValid(slots)
  {
    if slots == [] then []
    else AllCoverings(slots[..|slots| - 1])
         + if slots[|slots| - 1].ListSlot? then slots[|slots| - 1].lists.Elements() else []
  }

  ghost predicate Readable(slot: Slot)
    requires slot.Valid()
  {
    slot.ListSlot? && slot.lists.NoNullCells()
  }

  /** Slot `i` is the first that cannot be read. */
  ghost predicate FirstBad(slots: seq<Slot>, i: nat)
    requires AllValid(slots)
  {
    i < |slots| && !Readable(slots[i]) && forall k :: 0 <= k < i ==> Readable(slots[k])
  }

  /** Element `j` of slot `i` is the first that holds a null cell. */
  ghost predicate FirstNullCell(slots: seq<Slot>, i: nat, j: nat)
    requires AllValid(slots)
  {
    && FirstBad(slots, i) && slots[i].ListSlot?
    && j < slots[i].lists.head.length && slots[i].lists.HasNullCell(j)
    && forall l: nat :: l < j ==> !slots[i].lists.HasNullCell(l)
  }

  method HasNull(lists: Lists, j: nat) returns (found: bool)
    requires lists.Valid() && j < lists.head.length && lists.head.IsValid(j)
    ensures found == lists.HasNullCell(j)
  {
    for k := lists.Start(j) to lists.End(j)
      invariant forall l: nat :: lists.Start(j) <= l < k ==> lists.child.head.IsValid(l)
    {
      if !lists.child.head.IsValid(k) {
        return true;
      }
    }
    return false;
  }

  /** The stored bytes of one list element. */
  method RawElement(lists: Lists, j: nat) returns (raw: seq<bv8>)
    requires lists.Valid() && j < lists.head.length && lists.head.IsValid(j)
    ensures Some(raw) == RawOf(lists.Element(j))
  {
    raw := [];
    var values := lists.child.U64Values();
    var start := lists.Start(j);
    for k := start to lists.End(j)
      invariant raw == ToRaw(values[start..k])
    {
      assert values[start..k + 1][..k - start] == values[start..k];
      raw := raw + ToLittleEndian(values[k]);
    }
  }

  /** The bytes are those of these coverings. */
  ghost predicate RawFor(raws: seq<Option<seq<bv8>>>, coverings: seq<Option<seq<bv64>>>) {
    |raws| == |coverings| && forall i :: 0 <= i < |raws| ==> raws[i] == RawOf(coverings[i])
  }

  /** The stored bytes of every element of one slot, up to a null cell. */
  method ReadLists(lists: Lists) returns (out: seq<Option<seq<bv8>>>)
    requires lists.Valid()
    ensures |out| <= lists.head.length
    ensures forall j: nat :: j < |out| ==> out[j] == RawOf(lists.Element(j)) && !lists.HasNullCell(j)
    ensures |out| < lists.head.length ==> lists.HasNullCell(|out|)
  {
    out := [];
    for j := 0 to lists.head.length
      invariant |out| == j
      invariant forall k: nat :: k < j ==> out[k] == RawOf(lists.Element(k)) && !lists.HasNullCell(k)
    {
      if !lists.head.IsValid(j) {
        out := out + [None];
      } else {
        var hasNull := HasNull(lists, j);
        if hasNull {
          return;
        }
        var raw := RawElement(lists, j);
        out := out + [Some(raw)];
      }
    }
  }

  /** One slot read: its coverings' stored bytes, or what is wrong with it; a
      null cell is given by its covering's position, from 0. */
  method ReadSlot(slot: Slot) returns (r: Read<seq<Option<seq<bv8>>>>)
    requires slot.Valid()
    ensures r.Read? ==> Readable(slot) && RawFor(r.value, slot.lists.Elements())
    ensures r.NotExported? ==> slot.Unfilled?
    ensures r.WrongFormat? ==> !slot.Unfilled? && !slot.ListSlot?
    ensures r.NullCell? ==>
              && slot.ListSlot? && r.position < slot.lists.head.length && slot.lists.HasNullCell(r.position)
              && forall l: nat :: l < r.position ==> !slot.lists.HasNullCell(l)
  {
    match slot
    case Unfilled => return NotExported;
    case CellSlot(_) => return WrongFormat;
    case OtherList => return WrongFormat;
    case Other => return WrongFormat;
    case ListSlot(lists) =>
      var raws := ReadLists(lists);
      if |raws| < lists.head.length {
        return NullCell(|raws|);
      }
      return Read.Read(raws);
  }

  lemma RawForAppend(a: seq<Option<seq<bv8>>>, b: seq<Option<seq<bv64>>>, c: seq<Option<seq<bv8>>>, d: seq<Option<seq<bv64>>>)
    requires RawFor(a, b) && RawFor(c, d)
    ensures RawFor(a + c, b + d)
  {
  }

  lemma CoveringsAppend(slots: seq<Slot>, i: nat)
    requires AllValid(slots) && i < |slots| && slots[i].ListSlot?
    ensures AllCoverings(slots[..i + 1]) == AllCoverings(slots[..i]) + slots[i].lists.Elements()
  {
    assert slots[..i + 1][..i] == slots[..i];
  }

  lemma RawForNext(slots: seq<Slot>, i: nat, out: seq<Option<seq<bv8>>>, raws: seq<Option<seq<bv8>>>)
    requires AllValid(slots) && i < |slots| && slots[i].ListSlot?
    requires RawFor(out, AllCoverings(slots[..i])) && RawFor(raws, slots[i].lists.Elements())
    ensures RawFor(out + raws, AllCoverings(slots[..i + 1]))
  {
    CoveringsAppend(slots, i);
    RawForAppend(out, AllCoverings(slots[..i]), raws, slots[i].lists.Elements());
  }

  lemma StopsAt(slots: seq<Slot>, i: nat)
    requires AllValid(slots) && i < |slots| && !slots[i].ListSlot? && forall k :: 0 <= k < i ==> Readable(slots[k])
    ensures FirstBad(slots, i)
  {
  }

  lemma StopsAtNull(slots: seq<Slot>, i: nat, j: nat)
    requires AllValid(slots) && i < |slots| && slots[i].ListSlot? && forall k :: 0 <= k < i ==> Readable(slots[k])
    requires j < slots[i].lists.head.length && slots[i].lists.HasNullCell(j)
    requires forall l: nat :: l < j ==> !slots[i].lists.HasNullCell(l)
    ensures FirstNullCell(slots, i, j)
  {
  }

  /** Reading every slot: each covering's stored bytes, in order, or the first
      slot that was not exported into or has another format, or the first
      covering with a null cell, counted from 1. */
  method CoveringsFromArrow(slots: seq<Slot>) returns (r: Read<seq<Option<seq<bv8>>>>)
    requires AllValid(slots)
    ensures r.Read? ==> forall i :: 0 <= i < |slots| ==> Readable(slots[i])
    ensures r.Read? ==> RawFor(r.value, AllCoverings(slots))
    ensures r.NotExported? ==> exists i: nat :: FirstBad(slots, i) && slots[i].Unfilled?
    ensures r.WrongFormat? ==> exists i: nat :: FirstBad(slots, i) && !slots[i].Unfilled? && !slots[i].ListSlot?
    ensures r.NullCell? ==> exists i: nat, j: nat :: FirstNullCell(slots, i, j) && r.position == |AllCoverings(slots[..i])| + j + 1
  {
    var out: seq<Option<seq<bv8>>> := [];
    for i := 0 to |slots|
      invariant forall k :: 0 <= k < i ==> Readable(slots[k])
      invariant RawFor(out, AllCoverings(slots[..i]))
    {
      var one := ReadSlot(slots[i]);
      match one {
        case Read(raws) =>
          RawForNext(slots, i, out, raws);
          out := out + raws;
        case NotExported =>
          StopsAt(slots, i);
          return NotExported;
        case WrongFormat =>
          StopsAt(slots, i);
          return WrongFormat;
        case NullCell(j) =>
          StopsAtNull(slots, i, j);
          return NullCell(|out| + j + 1);
      }
    }
    assert slots[..|slots|] == slots;
    return Read.Read(out);
  }

  // --- Slices and chunks ---

  /** The elements at each range, one range after another. */
  function Pieces<T>(s: seq<T>, ranges: seq<(nat, nat)>): seq<T>
    requires forall k :: 0 <= k < |ranges| ==> ranges[k].0 + ranges[k].1 <= |s|
  {
    if ranges == [] then []
    else var r := ranges[|ranges| - 1]; Pieces(s, ranges[..|ranges| - 1]) + s[r.0..r.0 + r.1]
  }

  lemma PiecesNext<T>(s: seq<T>, ranges: seq<(nat, nat)>, n: nat)
    requires |ranges| == n + 1 && ranges[n].0 + ranges[n].1 <= |s|
    requires forall k :: 0 <= k < n ==> ranges[..n][k].0 + ranges[..n][k].1 <= |s|
    ensures forall k :: 0 <= k < |ranges| ==> ranges[k].0 + ranges[k].1 <= |s|
    ensures Pieces(s, ranges) == Pieces(s, ranges[..n]) + s[ranges[n].0..ranges[n].0 + ranges[n].1]
  {
    forall k | 0 <= k < |ranges| ensures ranges[k].0 + ranges[k].1 <= |s| {
      assert k < n ==> ranges[..n][k] == ranges[k];
    }
  }

  /** Ranges end to end, from 0 to `n`; some may be empty. */
  ghost predicate EndToEnd(ranges: seq<(nat, nat)>, n: nat) {
    if ranges == [] then n == 0
    else var r := ranges[|ranges| - 1]; r.0 + r.1 == n && EndToEnd(ranges[..|ranges| - 1], r.0)
  }

  lemma {:induction false} EndToEndPieces<T>(s: seq<T>, ranges: seq<(nat, nat)>, n: nat)
    requires EndToEnd(ranges, n) && n <= |s|
    ensures forall k :: 0 <= k < |ranges| ==> ranges[k].0 + ranges[k].1 <= |s|
    ensures Pieces(s, ranges) == s[..n]
  {
    if ranges != [] {
      var r := ranges[|ranges| - 1];
      EndToEndPieces(s, ranges[..|ranges| - 1], r.0);
      assert s[..n] == s[..r.0] + s[r.0..n];
    }
  }

  /** Slot `k` holds the cells of `a` at range `k`. */
  ghost predicate CellSlices(slots: seq<Slot>, a: Cells, ranges: seq<(nat, nat)>)
    requires a.Valid()
  {
    |slots| == |ranges| && forall k :: 0 <= k < |slots| ==> IsCellSlice(slots[k], a, ranges[k])
  }

  ghost predicate IsCellSlice(slot: Slot, a: Cells, r: (nat, nat))
    requires a.Valid()
  {
    slot.CellSlot? && a.HasSlice(slot.cells, r.0) && slot.cells.head.length == r.1
  }

  ghost predicate IsCellPiece(slot: Slot, e: seq<Option<bv64>>, r: (nat, nat))
    requires slot.Valid()
  {
    slot.CellSlot? && r.0 + r.1 <= |e| && slot.cells.Elements() == e[r.0..r.0 + r.1]
  }

  lemma {:induction false} CellPiecesRead(slots: seq<Slot>, e: seq<Option<bv64>>, ranges: seq<(nat, nat)>)
    requires AllValid(slots) && |slots| == |ranges|
    requires forall k :: 0 <= k < |slots| ==> IsCellPiece(slots[k], e, ranges[k])
    ensures forall k :: 0 <= k < |ranges| ==> ranges[k].0 + ranges[k].1 <= |e|
    ensures AllCells(slots) == Pieces(e, ranges)
  {
    if slots != [] {
      var n := |slots| - 1;
      assert IsCellPiece(slots[n], e, ranges[n]);
      CellPiecesRead(slots[..n], e, ranges[..n]);
    }
  }

  /** Reading slices of an array, at any offsets and in any number, overlapping
      or not, gives its elements at those ranges. */
  lemma CellSlicesRead(slots: seq<Slot>, a: Cells, ranges: seq<(nat, nat)>)
    requires a.Valid() && CellSlices(slots, a, ranges)
    ensures AllValid(slots)
    ensures forall k :: 0 <= k < |ranges| ==> ranges[k].0 + ranges[k].1 <= |a.Elements()|
    ensures AllCells(slots) == Pieces(a.Elements(), ranges)
  {
    forall k | 0 <= k < |slots|
      ensures slots[k].Valid() && IsCellPiece(slots[k], a.Elements(), ranges[k])
    {
      assert IsCellSlice(slots[k], a, ranges[k]);
      a.SliceElements(slots[k].cells, ranges[k].0);
    }
    CellPiecesRead(slots, a.Elements(), ranges);
  }

  /** A stored cell vector, exported, cut into any chunks and read back, has the
      bytes it started with. */
  lemma CellRoundTrip(vector: seq<Bytes>, a: Cells, slots: seq<Slot>, ranges: seq<(nat, nat)>)
    requires a.Valid() && |a.Elements()| == |vector|
    requires forall i :: 0 <= i < |vector| ==> a.Elements()[i] == Decode(vector[i])
    requires CellSlices(slots, a, ranges) && EndToEnd(ranges, |vector|)
    ensures AllValid(slots) && |AllCells(slots)| == |vector|
    ensures forall i :: 0 <= i < |vector| ==> Stored(AllCells(slots)[i]) == vector[i]
  {
    CellSlicesRead(slots, a, ranges);
    EndToEndPieces(a.Elements(), ranges, |vector|);
    forall i | 0 <= i < |vector| ensures Stored(AllCells(slots)[i]) == vector[i] {
      EveryBytesAreStored(vector[i]);
    }
  }

  /** Slot `k` holds the coverings of `a` at range `k`. */
  ghost predicate ListSlices(slots: seq<Slot>, a: Lists, ranges: seq<(nat, nat)>)
    requires a.Valid()
  {
    |slots| == |ranges| && forall k :: 0 <= k < |slots| ==> IsListSlice(slots[k], a, ranges[k])
  }

  /** A slice of `a`, its child whole or sliced in turn. */
  ghost predicate IsListSlice(slot: Slot, a: Lists, r: (nat, nat))
    requires a.Valid()
  {
    slot.ListSlot? && exists whole: Lists, d: nat :: IsSliceOver(slot.lists, a, r, whole, d)
  }

  /** `whole` is the slice of `a` over its whole child, and `part` the same over
      the child from `d` on. */
  ghost predicate IsSliceOver(part: Lists, a: Lists, r: (nat, nat), whole: Lists, d: nat)
    requires a.Valid()
  {
    && a.HasSlice(whole, r.0) && whole.head.length == r.1
    && whole.Valid() && whole.HasChildSlice(part, d)
  }

  lemma SliceOverElements(part: Lists, a: Lists, r: (nat, nat), whole: Lists, d: nat)
    requires a.Valid() && IsSliceOver(part, a, r, whole, d)
    ensures part.Valid() && r.0 + r.1 <= |a.Elements()|
    ensures part.Elements() == a.Elements()[r.0..r.0 + r.1]
    ensures a.NoNullCells() ==> part.NoNullCells()
  {
    a.SliceElements(whole, r.0);
    whole.ChildSliceElements(part, d);
  }

  /** The plain case: the child unchanged. */
  lemma PlainSlice(part: Lists, a: Lists, r: (nat, nat))
    requires a.Valid() && a.HasSlice(part, r.0) && part.head.length == r.1
    ensures IsListSlice(ListSlot(part), a, r)
  {
    a.SliceElements(part, r.0);
    part.WholeChild();
    assert IsSliceOver(part, a, r, part, 0);
  }

  ghost predicate IsListPiece(slot: Slot, e: seq<Option<seq<bv64>>>, r: (nat, nat))
    requires slot.Valid()
  {
    slot.ListSlot? && r.0 + r.1 <= |e| && slot.lists.Elements() == e[r.0..r.0 + r.1]
  }

  lemma {:induction false} ListPiecesRead(slots: seq<Slot>, e: seq<Option<seq<bv64>>>, ranges: seq<(nat, nat)>)
    requires AllValid(slots) && |slots| == |ranges|
    requires forall k :: 0 <= k < |slots| ==> IsListPiece(slots[k], e, ranges[k])
    ensures forall k :: 0 <= k < |ranges| ==> ranges[k].0 + ranges[k].1 <= |e|
    ensures AllCoverings(slots) == Pieces(e, ranges)
  {
    if slots != [] {
      var n := |slots| - 1;
      assert IsListPiece(slots[n], e, ranges[n]);
      ListPiecesRead(slots[..n], e, ranges[..n]);
      PiecesNext(e, ranges, n);
      CoveringsAppend(slots, n);
      assert slots[..n + 1] == slots;
    }
  }

  lemma ListSlicesRead(slots: seq<Slot>, a: Lists, ranges: seq<(nat, nat)>)
    requires a.Valid() && ListSlices(slots, a, ranges)
    ensures AllValid(slots)
    ensures forall k :: 0 <= k < |ranges| ==> ranges[k].0 + ranges[k].1 <= |a.Elements()|
    ensures AllCoverings(slots) == Pieces(a.Elements(), ranges)
    ensures a.NoNullCells() ==> forall k :: 0 <= k < |slots| ==> Readable(slots[k])
  {
    forall k | 0 <= k < |slots|
      ensures slots[k].Valid() && IsListPiece(slots[k], a.Elements(), ranges[k])
      ensures a.NoNullCells() ==> Readable(slots[k])
    {
      assert IsListSlice(slots[k], a, ranges[k]);
      var whole: Lists, d: nat :| IsSliceOver(slots[k].lists, a, ranges[k], whole, d);
      SliceOverElements(slots[k].lists, a, ranges[k], whole, d);
    }
    ListPiecesRead(slots, a.Elements(), ranges);
  }

  /** Stored coverings as their values, read as the rest of the package reads
      them. */
  function ReadCoverings(raws: seq<Option<seq<bv8>>>): (c: seq<Option<seq<bv64>>>)
    ensures |c| == |raws|
  {
    seq(|raws|, i requires 0 <= i < |raws| => if raws[i].Some? then Some(FromRaw(raws[i].value)) else None)
  }

  lemma ReadBack(raws: seq<Option<seq<bv8>>>, coverings: seq<Option<seq<bv64>>>)
    requires RawFor(raws, coverings)
    ensures ReadCoverings(raws) == coverings
  {
    forall i | 0 <= i < |coverings| ensures ReadCoverings(raws)[i] == coverings[i] {
      if coverings[i].Some? {
        RawRoundTrip(coverings[i].value);
      }
    }
  }

  /** Coverings, exported, cut into any chunks, over a sliced child or not: every
      slot can be read, and they hold the coverings started with. */
  lemma CoveringRoundTrip(coverings: seq<Option<seq<bv64>>>, a: Lists, slots: seq<Slot>, ranges: seq<(nat, nat)>)
    requires a.Valid() && a.NoNullCells() && a.Elements() == coverings
    requires ListSlices(slots, a, ranges) && EndToEnd(ranges, |coverings|)
    ensures AllValid(slots) && AllCoverings(slots) == coverings
    ensures forall k :: 0 <= k < |slots| ==> Readable(slots[k])
  {
    ListSlicesRead(slots, a, ranges);
    EndToEndPieces(coverings, ranges, |coverings|);
  }

  /** Reading those slots back succeeds, and its bytes are the coverings'. */
  method ReadChunks(slots: seq<Slot>, ghost coverings: seq<Option<seq<bv64>>>, ghost a: Lists, ghost ranges: seq<(nat, nat)>)
    returns (out: Read<seq<Option<seq<bv8>>>>)
    requires a.Valid() && a.NoNullCells() && a.Elements() == coverings
    requires ListSlices(slots, a, ranges) && EndToEnd(ranges, |coverings|)
    ensures out.Read? && ReadCoverings(out.value) == coverings
  {
    CoveringRoundTrip(coverings, a, slots, ranges);
    out := CoveringsFromArrow(slots);
    if out.Read? {
      ReadBack(out.value, coverings);
    }
  }
}
