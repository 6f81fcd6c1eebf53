/** New cell vectors filled in parallel: each plane is cut into chunks by an
    iterator of its own, and the chunks are filled in any interleaving. */
module ChunkedFill {
  import opened Results
  import opened CellBytes

  const PAR_MIN: nat := 4096

  /** Elements per parallel chunk. */
  function ParChunk(n: nat, threads: nat): (size: nat)
    ensures size >= 1024
  {
    var t := if threads >= 1 then threads else 1;
    var even := (n + 4 * t - 1) / (4 * t);
    if even >= 1024 then even else 1024
  }

  // --- Cutting ---

  /** Part of one plane. */
  datatype Part = Part(from: nat, len: nat)

  /** A plane's iterator over parts of `size`, with what lies before `at` given. */
  datatype ChunksMut = ChunksMut(at: nat, length: nat, size: nat) {

    function Next(): (r: (Option<Part>, ChunksMut))
      ensures r.0.None? <==> at >= length
      ensures r.0.Some? ==> r.0.value.from == at && r.1 == ChunksMut(at + r.0.value.len, length, size)
    {
      if at >= length then (None, this)
      else
        var len := if length - at < size then length - at else size;
        (Some(Part(at, len)), this.(at := at + len))
    }

    /** All it has still to give. */
    function Rest(): seq<Part>
      requires size > 0
      decreases length - at
    {
      if Next().0.None? then [] else [Next().0.value] + Next().1.Rest()
    }
  }

  /** The start recorded, and the part of each plane. */
  datatype Chunk = Chunk(start: nat, parts: seq<Part>) {

    /** Every plane's part is the same stretch, and it begins at `start`. */
    ghost predicate Aligned() {
      |parts| == 8 && parts[0].len > 0 && forall j :: 0 <= j < 8 ==> parts[j] == Part(start, parts[0].len)
    }

    ghost function Len(): nat
      requires Aligned()
    {
      parts[0].len
    }
  }

  ghost predicate AllAligned(chunks: seq<Chunk>) {
    forall k :: 0 <= k < |chunks| ==> chunks[k].Aligned()
  }

  /** Each chunk starts where the one before ends, and together they run from 0
      to `n`. */
  ghost predicate Tiles(chunks: seq<Chunk>, n: nat) {
    && AllAligned(chunks)
    && (chunks == [] ==> n == 0)
    && (chunks != [] ==> chunks[0].start == 0 && chunks[|chunks| - 1].start + chunks[|chunks| - 1].Len() == n)
    && (forall k :: 0 <= k < |chunks| - 1 ==> chunks[k].start + chunks[k].Len() == chunks[k + 1].start)
  }

  /** The parts given to plane `j`, chunk by chunk. */
  ghost function PartsOf(chunks: seq<Chunk>, j: nat): seq<Part>
    requires AllAligned(chunks) && j < 8
  {
    seq(|chunks|, k requires 0 <= k < |chunks| => chunks[k].parts[j])
  }

  /** The eight iterators advanced once each. */
  method NextParts(iters: seq<ChunksMut>) returns (parts: seq<Part>, next: seq<ChunksMut>)
    requires |iters| == 8 && forall j :: 0 <= j < 8 ==> iters[j].Next().0.Some?
    ensures |parts| == |next| == 8
    ensures forall j :: 0 <= j < 8 ==> (Some(parts[j]), next[j]) == iters[j].Next()
  {
    parts, next := [], [];
    for j := 0 to 8
      invariant |parts| == |next| == j
      invariant forall l :: 0 <= l < j ==> (Some(parts[l]), next[l]) == iters[l].Next()
    {
      var (part, rest) := iters[j].Next();
      parts, next := parts + [part.value], next + [rest];
    }
  }

  /** Planes of one length, cut in step: no iterator runs out before the first
      does, each plane's parts are all its own iterator gives, and they are
      aligned chunk by chunk at the starts recorded. */
  method ChunkPlanes(lengths: seq<nat>, size: nat, ghost n: nat) returns (chunks: seq<Chunk>)
    requires |lengths| == 8 && (forall j :: 0 <= j < 8 ==> lengths[j] == n) && size > 0
    ensures Tiles(chunks, n)
    ensures forall j: nat :: j < 8 ==> PartsOf(chunks, j) == ChunksMut(0, lengths[j], size).Rest()
  {
    var iters := seq(8, j requires 0 <= j < 8 => ChunksMut(0, lengths[j], size));
    chunks := [];
    var start := 0;
    while iters[0].Next().0.Some?
      invariant |iters| == 8 && start <= n
      invariant forall j :: 0 <= j < 8 ==> iters[j] == ChunksMut(start, n, size)
      invariant Tiles(chunks, start)
      invariant forall j: nat :: j < 8 ==> PartsOf(chunks, j) + iters[j].Rest() == ChunksMut(0, n, size).Rest()
      decreases n - start
    {
      var parts, next := NextParts(iters);
      var chunk := Chunk(start, parts);
      PartsGrow(chunks, chunk, iters);
      chunks := chunks + [chunk];
      iters := next;
      start := start + parts[0].len;
    }
    forall j: nat | j < 8 ensures PartsOf(chunks, j) == ChunksMut(0, n, size).Rest() {
      assert iters[j].Rest() == [];
    }
  }

  /** What an iterator gives next moves from what it has left to what it gave. */
  lemma PartsGrow(chunks: seq<Chunk>, chunk: Chunk, iters: seq<ChunksMut>)
    requires AllAligned(chunks) && chunk.Aligned() && |iters| == 8
    requires forall j :: 0 <= j < 8 ==> iters[j].size > 0 && iters[j].Next().0 == Some(chunk.parts[j])
    ensures forall j: nat :: j < 8 ==>
              PartsOf(chunks + [chunk], j) + iters[j].Next().1.Rest() == PartsOf(chunks, j) + iters[j].Rest()
  {
    forall j: nat | j < 8
      ensures PartsOf(chunks + [chunk], j) + iters[j].Next().1.Rest() == PartsOf(chunks, j) + iters[j].Rest()
    {
      assert PartsOf(chunks + [chunk], j) == PartsOf(chunks, j) + [chunk.parts[j]];
      assert iters[j].Rest() == [chunk.parts[j]] + iters[j].Next().1.Rest();
    }
  }

  // --- One chunk per element ---

  lemma {:induction false} ChunksAscend(chunks: seq<Chunk>, n: nat, k: nat, l: nat)
    requires Tiles(chunks, n) && k < l < |chunks|
    ensures chunks[k].start + chunks[k].Len() <= chunks[l].start
  {
    if k + 1 < l {
      ChunksAscend(chunks, n, k, l - 1);
    }
  }

  lemma ChunksWithin(chunks: seq<Chunk>, n: nat, k: nat)
    requires Tiles(chunks, n) && k < |chunks|
    ensures chunks[k].start + chunks[k].Len() <= n
  {
    if k < |chunks| - 1 {
      ChunksAscend(chunks, n, k, |chunks| - 1);
    }
  }

  /** Element `k` of a chunk. */
  ghost predicate IsElement(chunk: Chunk, k: nat, i: nat)
    requires chunk.Aligned()
  {
    k < chunk.Len() && i == chunk.start + k
  }

  /** Every element lies in exactly one chunk. */
  lemma ExactlyOneChunk(chunks: seq<Chunk>, n: nat, i: nat) returns (c: nat)
    requires Tiles(chunks, n) && i < n
    ensures c < |chunks| && chunks[c].start <= i && IsElement(chunks[c], i - chunks[c].start, i)
    ensures forall l, k: nat :: 0 <= l < |chunks| && IsElement(chunks[l], k, i) ==> l == c
  {
    c := 0;
    while !(i < chunks[c].start + chunks[c].Len())
      invariant c < |chunks| && chunks[c].start <= i
      decreases |chunks| - c
    {
      c := c + 1;
    }
    forall l, k: nat | 0 <= l < |chunks| && IsElement(chunks[l], k, i) ensures l == c {
      if l < c {
        ChunksAscend(chunks, n, l, c);
      } else if c < l {
        ChunksAscend(chunks, n, c, l);
      }
    }
  }

  // --- Filling ---

  /** The planes hold `fill`, element by element. */
  ghost predicate Filled(p: seq<array<bv8>>, n: nat, fill: nat -> Option<bv64>)
    requires Planes(p, n)
    reads p
  {
    forall i: nat :: i < n ==> At(p, n, i) == Stored(fill(i))
  }

  /** One element of a chunk: byte `j` goes to place `k` of the chunk's part of
      plane `j`. */
  method WriteInChunk(p: seq<array<bv8>>, chunk: Chunk, k: nat, b: Bytes, ghost n: nat)
    requires Planes(p, n) && chunk.Aligned() && k < chunk.Len() && chunk.start + chunk.Len() <= n
    modifies p
    ensures At(p, n, chunk.start + k) == b
    ensures forall i: nat :: i < n && i != chunk.start + k ==> At(p, n, i) == old(At(p, n, i))
  {
    ghost var at := chunk.start + k;
    for j := 0 to 8
      invariant forall l :: 0 <= l < j ==> p[l][at] == b[l]
      invariant forall l, i :: 0 <= l < 8 && 0 <= i < n && i != at ==> p[l][i] == old(p[l][i])
    {
      p[j][chunk.parts[j].from + k] := b[j];
    }
  }

  /** How many elements of each chunk have been written, and how often each
      element of the vectors has been. */
  ghost predicate Progress(chunks: seq<Chunk>, n: nat, done: seq<nat>, writes: multiset<nat>)
    requires Tiles(chunks, n)
  {
    && |done| == |chunks|
    && (forall c :: 0 <= c < |chunks| ==> done[c] <= chunks[c].Len())
    && forall c, k: nat, i: nat :: 0 <= c < |chunks| && IsElement(chunks[c], k, i) ==> writes[i] == if k < done[c] then 1 else 0
  }

  /** What has been written is right. */
  ghost predicate WrittenRight(p: seq<array<bv8>>, chunks: seq<Chunk>, done: seq<nat>, fill: nat -> Option<bv64>, n: nat)
    requires Planes(p, n) && Tiles(chunks, n) && |done| == |chunks|
    reads p
  {
    forall c, k: nat, i: nat :: 0 <= c < |chunks| && IsElement(chunks[c], k, i) && k < done[c] && i < n ==>
      At(p, n, i) == Stored(fill(i))
  }

  lemma OneMoreWrite(chunks: seq<Chunk>, n: nat, done: seq<nat>, writes: multiset<nat>, c: nat)
    requires Tiles(chunks, n) && Progress(chunks, n, done, writes) && c < |chunks| && done[c] < chunks[c].Len()
    ensures Progress(chunks, n, done[c := done[c] + 1], writes + multiset{chunks[c].start + done[c]})
  {
    var at := chunks[c].start + done[c];
    ChunksWithin(chunks, n, c);
    var own := ExactlyOneChunk(chunks, n, at);
    assert IsElement(chunks[c], done[c], at);
    forall d, k: nat, i: nat | 0 <= d < |chunks| && IsElement(chunks[d], k, i)
      ensures (writes + multiset{at})[i] == if k < done[c := done[c] + 1][d] then 1 else 0
    {
      if i == at {
        assert d == own;
      }
    }
  }

  /** A thread working on chunk `c` writes its next element. */
  method Advance(p: seq<array<bv8>>, chunks: seq<Chunk>, done: seq<nat>, c: nat, fill: nat -> Option<bv64>, ghost n: nat,
                 ghost writes: multiset<nat>)
    returns (done': seq<nat>, ghost writes': multiset<nat>)
    requires Planes(p, n) && Tiles(chunks, n) && Progress(chunks, n, done, writes)
    requires WrittenRight(p, chunks, done, fill, n) && c < |chunks| && done[c] < chunks[c].Len()
    modifies p
    ensures Progress(chunks, n, done', writes') && WrittenRight(p, chunks, done', fill, n)
    ensures done' == done[c := done[c] + 1]
  {
    ChunksWithin(chunks, n, c);
    OneMoreWrite(chunks, n, done, writes, c);
    var at := chunks[c].start + done[c];
    WriteInChunk(p, chunks[c], done[c], Stored(fill(at)), n);
    done' := done[c := done[c] + 1];
    writes' := writes + multiset{at};
  }

  /** Threads advance in any interleaving, as `schedule` says, and then what is
      left of each chunk is finished. Every element is written exactly once,
      with its own cell. */
  method FillChunks(p: seq<array<bv8>>, chunks: seq<Chunk>, schedule: seq<nat>, fill: nat -> Option<bv64>, ghost n: nat)
    returns (ghost writes: multiset<nat>)
    requires Planes(p, n) && Tiles(chunks, n)
    modifies p
    ensures Filled(p, n, fill)
    ensures forall i: nat :: i < n ==> writes[i] == 1
  {
    var done: seq<nat> := seq(|chunks|, (_: int) => 0);
    writes := multiset{};
    for t := 0 to |schedule|
      invariant Progress(chunks, n, done, writes) && WrittenRight(p, chunks, done, fill, n)
    {
      var c := schedule[t];
      if c < |chunks| && done[c] < chunks[c].parts[0].len {
        done, writes := Advance(p, chunks, done, c, fill, n, writes);
      }
    }
    for c := 0 to |chunks|
      invariant Progress(chunks, n, done, writes) && WrittenRight(p, chunks, done, fill, n)
      invariant forall d :: 0 <= d < c ==> done[d] == chunks[d].Len()
    {
      while done[c] < chunks[c].parts[0].len
        invariant Progress(chunks, n, done, writes) && WrittenRight(p, chunks, done, fill, n)
        invariant forall d :: 0 <= d < c ==> done[d] == chunks[d].Len()
        decreases chunks[c].Len() - done[c]
      {
        done, writes := Advance(p, chunks, done, c, fill, n, writes);
      }
    }
    AllWritten(p, chunks, done, fill, n, writes);
  }

  lemma AllWritten(p: seq<array<bv8>>, chunks: seq<Chunk>, done: seq<nat>, fill: nat -> Option<bv64>, n: nat, writes: multiset<nat>)
    requires Planes(p, n) && Tiles(chunks, n) && Progress(chunks, n, done, writes)
    requires WrittenRight(p, chunks, done, fill, n) && forall d :: 0 <= d < |chunks| ==> done[d] == chunks[d].Len()
    ensures Filled(p, n, fill) && forall i: nat :: i < n ==> writes[i] == 1
  {
    forall i: nat | i < n ensures At(p, n, i) == Stored(fill(i)) && writes[i] == 1 {
      var c := ExactlyOneChunk(chunks, n, i);
      assert IsElement(chunks[c], i - chunks[c].start, i);
    }
  }

  /** The same planes for every number of threads and every interleaving. */
  method CellsFromFn(n: nat, fill: nat -> Option<bv64>, threads: nat, schedule: seq<nat>) returns (p: seq<array<bv8>>)
    ensures Planes(p, n) && Filled(p, n, fill)
    ensures forall i: nat :: i < n ==>
              match fill(i) case Some(id) => HoldsId(p, n, i, id as int) case None => AllZero(p, n, i)
    ensures forall j :: 0 <= j < |p| ==> fresh(p[j])
  {
    p := NewPlanes(n);
    if threads <= 1 || n < PAR_MIN {
      for i := 0 to n
        invariant forall k: nat :: k < i ==> At(p, n, k) == Stored(fill(k))
        invariant forall j :: 0 <= j < |p| ==> fresh(p[j])
      {
        WriteElement(p, i, Stored(fill(i)), n);
      }
    } else {
      var lengths: seq<nat> := seq(8, (_: int) => n);
      var chunks := ChunkPlanes(lengths, ParChunk(n, threads), n);
      ghost var writes := FillChunks(p, chunks, schedule, fill, n);
    }
    forall i: nat | i < n ensures match fill(i) case Some(id) => HoldsId(p, n, i, id as int) case None => AllZero(p, n, i) {
      StoredInPlanes(p, n, i, fill(i));
    }
  }
}
