/** Cells as eight planes of bytes: the little-endian bytes of each id, the
    last one masked so that eight zero bytes mean NA. */
module CellBytes {
  import opened Results

  const NA_SENTINEL: bv64 := 0xFC00_0000_0000_0000
  const B8_MASK: bv8 := 0xFC

  /** Eight bytes. */
  type Bytes = b: seq<bv8> | |b| == 8 witness [0, 0, 0, 0, 0, 0, 0, 0]

  const ZEROS: Bytes := [0, 0, 0, 0, 0, 0, 0, 0]

  // --- One id ---

  function ToLittleEndian(id: bv64): Bytes {
    [(id & 0xFF) as bv8, ((id >> 8) & 0xFF) as bv8, ((id >> 16) & 0xFF) as bv8, ((id >> 24) & 0xFF) as bv8,
     ((id >> 32) & 0xFF) as bv8, ((id >> 40) & 0xFF) as bv8, ((id >> 48) & 0xFF) as bv8, ((id >> 56) & 0xFF) as bv8]
  }

  function FromLittleEndian(b: Bytes): bv64 {
    (b[0] as bv64) | ((b[1] as bv64) << 8) | ((b[2] as bv64) << 16) | ((b[3] as bv64) << 24)
    | ((b[4] as bv64) << 32) | ((b[5] as bv64) << 40) | ((b[6] as bv64) << 48) | ((b[7] as bv64) << 56)
  }

  /** The stored bytes of an id. Encoding and decoding mask the same byte. */
  function Encode(id: bv64): Bytes {
    var b := ToLittleEndian(id);
    b[7 := b[7] ^ B8_MASK]
  }

  /** The id in stored bytes, or None for the sentinel. */
  function Decode(b: Bytes): Option<bv64> {
    var id := FromLittleEndian(b[7 := b[7] ^ B8_MASK]);
    if id == NA_SENTINEL then None else Some(id)
  }

  /** The stored bytes of a cell; NA is eight zero bytes. */
  function Stored(cell: Option<bv64>): Bytes {
    match cell
    case None => ZEROS
    case Some(id) => Encode(id)
  }

  lemma LittleEndianRoundTrip(id: bv64, b: Bytes)
    ensures FromLittleEndian(ToLittleEndian(id)) == id
    ensures ToLittleEndian(FromLittleEndian(b)) == b
  {
  }

  // --- Bytes as numbers ---

  lemma JoinedBytes(b0: bv8, b1: bv8, b2: bv8, b3: bv8, b4: bv8, b5: bv8, b6: bv8, b7: bv8)
    ensures ((b0 as bv64) | ((b1 as bv64) << 8) | ((b2 as bv64) << 16) | ((b3 as bv64) << 24)
             | ((b4 as bv64) << 32) | ((b5 as bv64) << 40) | ((b6 as bv64) << 48) | ((b7 as bv64) << 56)) as int
         == b0 as int + 0x100 * b1 as int + 0x1_0000 * b2 as int + 0x100_0000 * b3 as int
            + 0x1_0000_0000 * b4 as int + 0x100_0000_0000 * b5 as int
            + 0x1_0000_0000_0000 * b6 as int + 0x100_0000_0000_0000 * b7 as int
  {
  }

  /** Byte `j` counts for 256^j, in reading and in writing. */
  lemma LittleEndianNumber(b: Bytes)
    ensures FromLittleEndian(b) as int
         == b[0] as int + 0x100 * b[1] as int + 0x1_0000 * b[2] as int + 0x100_0000 * b[3] as int
            + 0x1_0000_0000 * b[4] as int + 0x100_0000_0000 * b[5] as int
            + 0x1_0000_0000_0000 * b[6] as int + 0x100_0000_0000_0000 * b[7] as int
  {
    JoinedBytes(b[0], b[1], b[2], b[3], b[4], b[5], b[6], b[7]);
  }

  lemma LittleEndianOf(id: bv64, b: Bytes)
    requires b == ToLittleEndian(id)
    ensures id as int
         == b[0] as int + 0x100 * b[1] as int + 0x1_0000 * b[2] as int + 0x100_0000 * b[3] as int
            + 0x1_0000_0000 * b[4] as int + 0x100_0000_0000 * b[5] as int
            + 0x1_0000_0000_0000 * b[6] as int + 0x100_0000_0000_0000 * b[7] as int
  {
    LittleEndianRoundTrip(id, b);
    LittleEndianNumber(b);
  }

  /** The number that stored bytes spell: the first counts for 1, the next for
      256 and so on, and 0xFC is flipped in the last. */
  function MaskedNumber(b: Bytes): int {
    b[0] as int + 0x100 * b[1] as int + 0x1_0000 * b[2] as int + 0x100_0000 * b[3] as int
    + 0x1_0000_0000 * b[4] as int + 0x100_0000_0000 * b[5] as int
    + 0x1_0000_0000_0000 * b[6] as int + 0x100_0000_0000_0000 * (b[7] ^ 0xFC) as int
  }

  /** A stored id is spelt by its bytes. */
  lemma EncodedNumber(id: bv64, b: Bytes)
    requires b == Encode(id)
    ensures MaskedNumber(b) == id as int
  {
    var u := ToLittleEndian(id);
    LittleEndianOf(id, u);
    FlipTwice(u[7]);
    LastFlipped(b, u);
  }

  lemma LastFlipped(b: Bytes, u: Bytes)
    requires b == u[7 := b[7]] && b[7] ^ 0xFC == u[7]
    ensures MaskedNumber(b)
         == u[0] as int + 0x100 * u[1] as int + 0x1_0000 * u[2] as int + 0x100_0000 * u[3] as int
            + 0x1_0000_0000 * u[4] as int + 0x100_0000_0000 * u[5] as int
            + 0x1_0000_0000_0000 * u[6] as int + 0x100_0000_0000_0000 * u[7] as int
  {
  }

  lemma FlipTwice(b: bv8)
    ensures (b ^ B8_MASK) ^ 0xFC == b
  {
  }

  /** And the cell that stored bytes hold: NA when all are zero. */
  lemma DecodedNumber(b: Bytes)
    ensures Decode(b).None? <==> b == [0, 0, 0, 0, 0, 0, 0, 0]
    ensures Decode(b).Some? ==> MaskedNumber(b) == Decode(b).value as int
  {
    BytesDecideCells(b, b);
    if Decode(b).Some? {
      EveryBytesAreStored(b);
      EncodedNumber(Decode(b).value, b);
    }
  }

  lemma MaskTwice(b: bv8)
    ensures (b ^ B8_MASK) ^ B8_MASK == b
  {
  }

  /** Every cell but the sentinel itself reads back as stored, NA included; the
      sentinel's id and NA are stored alike. */
  lemma StoredReadsBack(cell: Option<bv64>)
    ensures Decode(Stored(cell)) == (if cell == Some(NA_SENTINEL) then None else cell)
    ensures Decode(Stored(cell)) == cell <==> cell != Some(NA_SENTINEL)
    ensures Stored(Some(NA_SENTINEL)) == ZEROS
  {
    SentinelIsZeros();
    match cell {
      case None =>
        assert Encode(NA_SENTINEL) == ZEROS;
        EncodeDecodes(NA_SENTINEL);
      case Some(id) =>
        EncodeDecodes(id);
    }
  }

  lemma SentinelIsZeros()
    ensures Encode(NA_SENTINEL) == ZEROS
  {
    assert ToLittleEndian(NA_SENTINEL) == [0, 0, 0, 0, 0, 0, 0, 0xFC];
  }

  lemma EncodeDecodes(id: bv64)
    ensures Decode(Encode(id)) == if id == NA_SENTINEL then None else Some(id)
  {
    var b := ToLittleEndian(id);
    MaskTwice(b[7]);
    assert Encode(id)[7 := Encode(id)[7] ^ B8_MASK] == b;
    LittleEndianRoundTrip(id, b);
  }

  /** And every eight bytes are some cell's: the layout wastes nothing. */
  lemma EveryBytesAreStored(b: Bytes)
    ensures Stored(Decode(b)) == b
  {
    var u := b[7 := b[7] ^ B8_MASK];
    MaskTwice(b[7]);
    LittleEndianRoundTrip(0, u);
    assert ToLittleEndian(FromLittleEndian(u)) == u;
    SentinelIsZeros();
    assert Encode(FromLittleEndian(u)) == b;
  }

  /** So comparing stored bytes is comparing cells, NA included, and only cells
      whose last byte is zero can be NA. */
  lemma BytesDecideCells(b: Bytes, c: Bytes)
    ensures b == c <==> Decode(b) == Decode(c)
    ensures Decode(b).None? ==> b[7] == 0
    ensures Decode(b).None? <==> b == ZEROS
  {
    EveryBytesAreStored(b);
    EveryBytesAreStored(c);
    SentinelIsZeros();
    EncodeDecodes(NA_SENTINEL);
  }

  // --- Planes ---

  /** Eight byte vectors of one length, no two the same object. */
  ghost predicate Planes(p: seq<array<bv8>>, n: nat) {
    && |p| == 8
    && (forall j :: 0 <= j < 8 ==> p[j].Length == n)
    && forall j, k :: 0 <= j < k < 8 ==> p[j] != p[k]
  }

  /** The bytes of element `i`. */
  ghost function At(p: seq<array<bv8>>, n: nat, i: nat): Bytes
    requires Planes(p, n) && i < n
    reads p
  {
    [p[0][i], p[1][i], p[2][i], p[3][i], p[4][i], p[5][i], p[6][i], p[7][i]]
  }

  /** Plane `j` holds byte `j`. */
  lemma PlaneBytes(p: seq<array<bv8>>, n: nat, i: nat, j: nat)
    requires Planes(p, n) && i < n && j < 8
    ensures At(p, n, i)[j] == p[j][i]
  {
  }

  /** The planes' bytes at `i` spell `id`. */
  ghost predicate HoldsId(p: seq<array<bv8>>, n: nat, i: nat, id: int)
    requires Planes(p, n) && i < n
    reads p
  {
    MaskedNumber([p[0][i], p[1][i], p[2][i], p[3][i], p[4][i], p[5][i], p[6][i], p[7][i]]) == id
  }

  ghost predicate AllZero(p: seq<array<bv8>>, n: nat, i: nat)
    requires Planes(p, n) && i < n
    reads p
  {
    forall j :: 0 <= j < 8 ==> p[j][i] == 0
  }

  lemma StoredInPlanes(p: seq<array<bv8>>, n: nat, i: nat, cell: Option<bv64>)
    requires Planes(p, n) && i < n && At(p, n, i) == Stored(cell)
    ensures cell.Some? ==> HoldsId(p, n, i, cell.value as int)
    ensures cell.None? ==> AllZero(p, n, i)
  {
    if cell.Some? {
      EncodedNumber(cell.value, At(p, n, i));
    } else {
      forall j | 0 <= j < 8 ensures p[j][i] == 0 {
        PlaneBytes(p, n, i, j);
      }
    }
  }

  lemma ReportedFromPlanes(p: seq<array<bv8>>, n: nat, i: nat, id: bv64, na: bool)
    requires Planes(p, n) && i < n && Reported(At(p, n, i), id, na)
    ensures na <==> AllZero(p, n, i)
    ensures na ==> id == 0
    ensures !na ==> HoldsId(p, n, i, id as int)
  {
    ZeroPlanes(p, n, i);
    ReportedNumber(At(p, n, i), id, na);
  }

  lemma ZeroPlanes(p: seq<array<bv8>>, n: nat, i: nat)
    requires Planes(p, n) && i < n
    ensures AllZero(p, n, i) <==> At(p, n, i) == [0, 0, 0, 0, 0, 0, 0, 0]
  {
    forall j | 0 <= j < 8 ensures At(p, n, i)[j] == p[j][i] {
      PlaneBytes(p, n, i, j);
    }
  }

  lemma ReportedNumber(b: Bytes, id: bv64, na: bool)
    requires Reported(b, id, na)
    ensures na <==> b == [0, 0, 0, 0, 0, 0, 0, 0]
    ensures na ==> id == 0
    ensures !na ==> MaskedNumber(b) == id as int
  {
    DecodedNumber(b);
  }

  method WriteElement(p: seq<array<bv8>>, i: nat, b: Bytes, ghost n: nat)
    requires Planes(p, n) && i < n
    modifies p
    ensures At(p, n, i) == b
    ensures forall k: nat :: k < n && k != i ==> At(p, n, k) == old(At(p, n, k))
  {
    for j := 0 to 8
      invariant forall l :: 0 <= l < j ==> p[l][i] == b[l]
      invariant forall l, k :: 0 <= l < 8 && 0 <= k < n && k != i ==> p[l][k] == old(p[l][k])
    {
      p[j][i] := b[j];
    }
  }

  method NewPlanes(n: nat) returns (p: seq<array<bv8>>)
    ensures Planes(p, n)
    ensures forall j :: 0 <= j < |p| ==> fresh(p[j])
  {
    p := [];
    for j := 0 to 8
      invariant |p| == j
      invariant forall k :: 0 <= k < j ==> p[k].Length == n && fresh(p[k])
      invariant forall k, l :: 0 <= k < l < j ==> p[k] != p[l]
    {
      var plane := new bv8[n];
      p := p + [plane];
    }
  }

  /** Element `i`'s cell. */
  method Get(p: seq<array<bv8>>, n: nat, i: nat) returns (cell: Option<bv64>)
    requires Planes(p, n) && i < n
    ensures cell == Decode(At(p, n, i))
  {
    var b: Bytes := [p[0][i], p[1][i], p[2][i], p[3][i], p[4][i], p[5][i], p[6][i], p[7][i] ^ B8_MASK];
    assert b == At(p, n, i)[7 := At(p, n, i)[7] ^ B8_MASK];
    var id := FromLittleEndian(b);
    cell := if id == NA_SENTINEL then None else Some(id);
  }

  // --- The C functions ---

  /** The low byte of `id >> (8 * j)`. */
  function ShiftedByte(id: bv64, j: nat): bv8
    requires j < 8
  {
    if j == 0 then (id & 0xFF) as bv8
    else if j == 1 then ((id >> 8) & 0xFF) as bv8
    else if j == 2 then ((id >> 16) & 0xFF) as bv8
    else if j == 3 then ((id >> 24) & 0xFF) as bv8
    else if j == 4 then ((id >> 32) & 0xFF) as bv8
    else if j == 5 then ((id >> 40) & 0xFF) as bv8
    else if j == 6 then ((id >> 48) & 0xFF) as bv8
    else ((id >> 56) & 0xFF) as bv8
  }

  /** `byte << (8 * j)`. */
  function ShiftLeft(byte: bv64, j: nat): bv64
    requires j < 8
  {
    if j == 0 then byte else if j == 1 then byte << 8 else if j == 2 then byte << 16 else if j == 3 then byte << 24
    else if j == 4 then byte << 32 else if j == 5 then byte << 40 else if j == 6 then byte << 48 else byte << 56
  }

  /** The first `j` bytes put together. */
  function Gathered(b: Bytes, j: nat): bv64
    requires j <= 8
  {
    if j == 0 then 0 else Gathered(b, j - 1) | ShiftLeft(b[j - 1] as bv64, j - 1)
  }

  lemma GatheredIsLittleEndian(b: Bytes)
    ensures Gathered(b, 8) == FromLittleEndian(b)
  {
    var g1 := GatherOne(b, 0);
    var g2 := GatherOne(b, 1);
    var g3 := GatherOne(b, 2);
    var g4 := GatherOne(b, 3);
    var g5 := GatherOne(b, 4);
    var g6 := GatherOne(b, 5);
    var g7 := GatherOne(b, 6);
    var g8 := GatherOne(b, 7);
  }

  lemma GatherOne(b: Bytes, j: nat) returns (g: bv64)
    requires j < 8
    ensures g == Gathered(b, j) | ShiftLeft(b[j] as bv64, j)
    ensures g == Gathered(b, j + 1)
  {
    g := Gathered(b, j + 1);
  }

  /** The cell a C caller describes: `isNa` may be absent. */
  function Described(ids: seq<bv64>, isNa: Option<seq<bool>>, i: nat): Option<bv64>
    requires i < |ids| && (isNa.Some? ==> |isNa.value| == |ids|)
  {
    if isNa.Some? && isNa.value[i] then None else Some(ids[i])
  }

  /** The bytes of one id, masked, as the C loop writes them. */
  method BytesOf(id: bv64) returns (b: Bytes)
    ensures b == Encode(id)
  {
    b := ZEROS;
    for j := 0 to 8
      invariant forall l :: 0 <= l < j ==> b[l] == ToLittleEndian(id)[l]
    {
      b := b[j := ShiftedByte(id, j)];
    }
    assert b == ToLittleEndian(id);
    b := b[7 := b[7] ^ B8_MASK];
  }

  /** Writes what the package itself would for the same cells. */
  method CellsFromU64(ids: seq<bv64>, isNa: Option<seq<bool>>) returns (p: seq<array<bv8>>)
    requires isNa.Some? ==> |isNa.value| == |ids|
    ensures Planes(p, |ids|)
    ensures forall i: nat :: i < |ids| ==> At(p, |ids|, i) == Stored(Described(ids, isNa, i))
    ensures forall i: nat :: i < |ids| ==>
              if isNa.Some? && isNa.value[i] then AllZero(p, |ids|, i) else HoldsId(p, |ids|, i, ids[i] as int)
  {
    var n := |ids|;
    p := NewPlanes(n);
    SentinelIsZeros();
    for i := 0 to n
      invariant forall j :: 0 <= j < 8 ==> fresh(p[j])
      invariant forall k: nat :: k < i ==> At(p, n, k) == Stored(Described(ids, isNa, k))
    {
      var id := if isNa.Some? && isNa.value[i] then NA_SENTINEL else ids[i];
      var b := BytesOf(id);
      assert b == Stored(Described(ids, isNa, i));
      WriteElement(p, i, b, n);
    }
    forall i: nat | i < n
      ensures if isNa.Some? && isNa.value[i] then AllZero(p, n, i) else HoldsId(p, n, i, ids[i] as int)
    {
      StoredInPlanes(p, n, i, Described(ids, isNa, i));
    }
  }

  lemma GatherStep(b: Bytes, j: nat, id: bv64)
    requires j < 8 && id == Gathered(b, j)
    ensures id | ShiftLeft(b[j] as bv64, j) == Gathered(b, j + 1)
  {
  }

  /** The id the C loop gathers from one element, byte by byte. */
  method Gather(b: Bytes) returns (id: bv64)
    ensures id == FromLittleEndian(b)
  {
    id := 0;
    for j := 0 to 8
      invariant id == Gathered(b, j)
    {
      GatherStep(b, j, id);
      id := id | ShiftLeft(b[j] as bv64, j);
    }
    GatheredIsLittleEndian(b);
  }

  /** One element as the C function reports it: its id, or 0, and an NA flag. */
  ghost predicate Reported(b: Bytes, id: bv64, na: bool) {
    match Decode(b)
    case None => na && id == 0
    case Some(cell) => !na && id == cell
  }

  method Report(p: seq<array<bv8>>, n: nat, i: nat) returns (id: bv64, na: bool)
    requires Planes(p, n) && i < n
    ensures Reported(At(p, n, i), id, na)
  {
    var b: Bytes := [p[0][i], p[1][i], p[2][i], p[3][i], p[4][i], p[5][i], p[6][i], p[7][i] ^ B8_MASK];
    assert b == At(p, n, i)[7 := At(p, n, i)[7] ^ B8_MASK];
    id := Gather(b);
    ReportMeaning(At(p, n, i), b, id);
    na := id == NA_SENTINEL;
    id := if na then 0 else id;
  }

  lemma ReportMeaning(b: Bytes, unmasked: Bytes, id: bv64)
    requires unmasked == b[7 := b[7] ^ B8_MASK] && id == FromLittleEndian(unmasked)
    ensures Reported(b, if id == NA_SENTINEL then 0 else id, id == NA_SENTINEL)
  {
  }

  /** Reads what the package itself would. */
  method CellsToU64(p: seq<array<bv8>>, n: nat) returns (ids: seq<bv64>, isNa: seq<bool>)
    requires Planes(p, n)
    ensures |ids| == |isNa| == n
    ensures forall i: nat :: i < n ==> Reported(At(p, n, i), ids[i], isNa[i])
    ensures forall i: nat :: i < n ==> (isNa[i] <==> AllZero(p, n, i))
    ensures forall i: nat :: i < n ==> if isNa[i] then ids[i] == 0 else HoldsId(p, n, i, ids[i] as int)
  {
    ids, isNa := [], [];
    for i := 0 to n
      invariant |ids| == |isNa| == i
      invariant forall k: nat :: k < i ==> Reported(At(p, n, k), ids[k], isNa[k])
    {
      var id, na := Report(p, n, i);
      ids := ids + [id];
      isNa := isNa + [na];
    }
    forall i: nat | i < n
      ensures isNa[i] <==> AllZero(p, n, i)
      ensures if isNa[i] then ids[i] == 0 else HoldsId(p, n, i, ids[i] as int)
    {
      ReportedFromPlanes(p, n, i, ids[i], isNa[i]);
    }
  }

  /** What is written from C is read back, save that the sentinel's id comes back
      as NA. */
  lemma CRoundTrip(cell: Option<bv64>, id: bv64, na: bool)
    requires Reported(Stored(cell), id, na)
    ensures cell.None? || cell == Some(NA_SENTINEL) ==> na && id == 0
    ensures cell.Some? && cell != Some(NA_SENTINEL) ==> !na && id == cell.value
  {
    StoredReadsBack(cell);
  }
}
