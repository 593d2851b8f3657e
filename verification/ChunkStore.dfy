/** A chunked dataset through the file: chunks stored in regions of their own, found again through the stored index, and
    assembled (dataset_write_chunked.go, internal/core/dataset_reader.go). */
module ChunkStore {
  import opened Arith
  import opened Bytes
  import opened Storage
  import opened MixedRadix
  import A = ChunkAssembly
  import W = ChunkWriting
  import N = ChunkNode
  import T = ChunkTree
  import I = ChunkIndex

  /** Extents, element size and chunk sizes fit the fields that store them. */
  ghost predicate Fits(g: A.Grid)
    requires g.Valid()
  {
    && (forall i | 0 <= i < |g.dims| :: 0 < g.dims[i] < 0x1_0000_0000_0000_0000 && g.chunk[i] < 0x1_0000_0000_0000_0000)
    && g.elem < 0x1_0000_0000 && Prod(g.chunk) * g.elem < 0x1_0000_0000 && Prod(W.NumChunks(g)) < T.MAX_ENTRIES
  }

  /** The entry describes the chunk, which is in the file in a region of its own. */
  ghost predicate Kept(m: Mem, regions: map<nat, nat>, e: T.Entry, ch: A.Chunk)
  {
    && e.coord == ch.coord && e.nbytes == |ch.data| && Holds(m, e.address, ch.data)
    && e.address as nat in regions && regions[e.address as nat] == |ch.data|
  }

  ghost predicate Storable(ch: A.Chunk)
  {
    0 < |ch.data| < 0x1_0000_0000 && forall i | 0 <= i < |ch.coord| :: ch.coord[i] < 0x1_0000_0000_0000_0000
  }

  /** The body of the write loop: each chunk is allocated, written and noted for the index. */
  method StoreChunks(file: FileWriter, chunks: seq<A.Chunk>) returns (r: Result<seq<T.Entry>>)
    requires file.Valid() && forall i | 0 <= i < |chunks| :: Storable(chunks[i])
    modifies file
    ensures file.Valid() && file.refusals == old(file.refusals) + if r.Err? then 1 else 0
    ensures r.Ok? ==> |r.value| == |chunks| && forall i | 0 <= i < |chunks| :: Kept(file.mem, file.regions, r.value[i], chunks[i])
  {
    hide AllApart, Store;
    var entries: seq<T.Entry> := [];
    var i := 0;
    while i < |chunks|
      invariant i == |entries| <= |chunks| && file.Valid() && file.refusals == old(file.refusals)
      invariant forall j | 0 <= j < i :: Kept(file.mem, file.regions, entries[j], chunks[j])
    {
      var ch := chunks[i];
      var at := file.Allocate(|ch.data|);
      if at.Err? {
        return Err;
      }
      ghost var before := file.mem;
      file.WriteAt(at.value, ch.data);
      StoreHolds(before, at.value, ch.data);
      forall j | 0 <= j < i ensures Kept(file.mem, file.regions, entries[j], chunks[j]) {
        StoreKeeps(before, at.value, ch.data, entries[j].address, chunks[j].data);
      }
      entries := entries + [T.Entry(Words(ch.coord), at.value, |ch.data|)];
      i := i + 1;
    }
    r := Ok(entries);
  }

  /** Numbers below 2^64 as 64-bit words. */
  function Words(c: seq<nat>): (w: seq<u64>)
    requires forall i | 0 <= i < |c| :: c[i] < 0x1_0000_0000_0000_0000
    ensures w == c
  {
    seq(|c|, i requires 0 <= i < |c| => c[i] as u64)
  }

  /** The chunk a collected key leads to. */
  function LoadedChunk(m: Mem, f: I.Found, rank: nat): A.Chunk
  {
    ChunkOf(m, T.Entry(if rank <= |f.key.coords| then f.key.coords[..rank] else [], f.address, f.key.nbytes))
  }

  /** The read loop up to the copying: each collected chunk is read from where its key says, unless its key gives a size
      that is refused. */
  method LoadChunks(m: Mem, found: seq<I.Found>, rank: nat) returns (r: Result<seq<A.Chunk>>)
    requires forall i | 0 <= i < |found| :: |found[i].key.coords| >= rank
    ensures r.Ok? <==> forall i | 0 <= i < |found| ::
      0 < found[i].key.nbytes <= 0x4000_0000 && Load(m, found[i].address, found[i].key.nbytes).Some?
    ensures r.Ok? ==> |r.value| == |found| && forall i | 0 <= i < |found| :: r.value[i] == LoadedChunk(m, found[i], rank)
  {
    hide Load;
    var chunks: seq<A.Chunk> := [];
    var i := 0;
    while i < |found|
      invariant i == |chunks| <= |found|
      invariant forall j | 0 <= j < i ::
        && A.SizeOk(found[j].key.nbytes as nat, A.MAX_CHUNK_SIZE) && Load(m, found[j].address, found[j].key.nbytes).Some?
        && chunks[j] == LoadedChunk(m, found[j], rank)
    {
      if !A.SizeOk(found[i].key.nbytes as nat, A.MAX_CHUNK_SIZE) {
        return Err;
      }
      var data := Load(m, found[i].address, found[i].key.nbytes);
      if data.None? {
        return Err;
      }
      chunks := chunks + [A.Chunk(found[i].key.coords[..rank], data.value)];
      i := i + 1;
    }
    r := Ok(chunks);
  }

  /** Writes a dataset in chunks with their index and reads it back through the index: unless space runs out, the data
      come back exactly when the shapes meet the round-trip condition and the reader's limits, and otherwise the read
      fails. */
  method WriteThenRead(file: FileWriter, g: A.Grid, data: seq<byte>) returns (r: A.ReadResult, written: bool)
    requires file.Valid() && g.Valid() && Fits(g) && |data| == g.Size()
    modifies file
    ensures written <==> file.refusals == old(file.refusals)
    ensures written ==> r == if W.RoundTrips(g) && W.WithinLimits(g) then A.Ok(data) else A.Failed
  {
    hide W.Complete, W.RoundTrips, W.WithinLimits, W.WrittenFrom, FileWriter.Valid, Prod, T.Uniform, T.Sorted, Untouched, Kept, Storable, N.NoWrap, I.Exact, W.NumChunks,
         Load, LoadedChunk, ChunkOf;
    r := A.Failed;
    var chunks := W.WriteChunkedData(g, data);
    W.WrittenComplete(g, data, chunks);
    ChunksStorable(g, data, chunks);
    var stored := StoreChunks(file, chunks);
    if stored.Err? {
      return r, false;
    }
    var dims := Words(g.chunk);
    EntriesUniform(file.mem, file.regions, g, stored.value, chunks);
    ghost var mem0, regions0 := file.mem, file.regions;
    var found, indexed, sorted, _, _ := I.WriteThenCollect(file, dims, g.elem, stored.value);
    if !indexed {
      return r, false;
    }
    ExactSurvives(g, data, chunks, mem0, regions0, stored.value, sorted, found.value);
    KeptStays(mem0, file.mem, regions0, stored.value, chunks);
    FoundLoads(file.mem, regions0, chunks, stored.value, sorted, found.value);
    if W.WithinLimits(g) {
      SizesAccepted(file.mem, regions0, g, data, chunks, stored.value, sorted, found.value);
    }
    written := true;
    var loaded := LoadChunks(file.mem, found.value, |g.dims|);
    if loaded.Err? {
      return;
    }
    LoadedComplete(file.mem, regions0, g, data, chunks, stored.value, sorted, loaded.value);
    r := W.ReadComplete(g, loaded.value, data);
  }

  /** Chunks have at least one element and at most a full chunk's, at coordinates below the dataset's extents. */
  lemma ChunksStorable(g: A.Grid, data: seq<byte>, chunks: seq<A.Chunk>)
    requires g.Valid() && Fits(g) && |data| == g.Size() && W.WrittenFrom(g, data, chunks, Prod(W.NumChunks(g)))
    ensures chunks != [] && forall i | 0 <= i < |chunks| :: Storable(chunks[i]) && |chunks[i].coord| == |g.dims|
    ensures |chunks| == Prod(W.NumChunks(g))
  {
    hide Prod, W.Stored, W.NumChunks, Unrank;
    forall i | 0 <= i < |chunks| ensures Storable(chunks[i]) {
      ChunkStorable(g, data, chunks[i].coord);
    }
    var zero := seq(|g.dims|, _ => 0);
    W.GridIsBox(g, zero);
    LinearBound(zero, W.NumChunks(g));
  }

  lemma ChunkStorable(g: A.Grid, data: seq<byte>, c: seq<nat>)
    requires g.Valid() && Fits(g) && g.InGrid(c)
    ensures Storable(A.Chunk(c, W.Stored(g, data, c)))
  {
    hide Prod, W.NumChunks, W.Stored;
    W.ProdClipped(g.CopyDims(c), g.chunk);
    MulMono(Prod(g.CopyDims(c)), Prod(g.chunk), g.elem);
    MulMono(1, Prod(g.CopyDims(c)), g.elem);
    forall i | 0 <= i < |c| ensures c[i] < 0x1_0000_0000_0000_0000 {
      MulMono(1, g.chunk[i], c[i]);
    }
  }

  lemma EntriesUniform(m: Mem, regions: map<nat, nat>, g: A.Grid, entries: seq<T.Entry>, chunks: seq<A.Chunk>)
    requires |entries| == |chunks| && forall i | 0 <= i < |chunks| :: Kept(m, regions, entries[i], chunks[i]) && |chunks[i].coord| == |g.dims|
    ensures T.Uniform(entries, |g.dims|)
  {
  }

  /** The coordinates of grid chunks scale to offsets inside the dataset, so every key survives. */
  lemma ExactSurvives(g: A.Grid, data: seq<byte>, chunks: seq<A.Chunk>, m: Mem, regions: map<nat, nat>, entries: seq<T.Entry>,
                      sorted: seq<T.Entry>, found: seq<I.Found>)
    requires g.Valid() && Fits(g) && W.Complete(g, data, chunks) && |entries| == |chunks|
    requires forall i | 0 <= i < |chunks| :: Kept(m, regions, entries[i], chunks[i])
    requires multiset(sorted) == multiset(entries) && |found| == |sorted|
    requires forall i | 0 <= i < |sorted| :: I.Exact(sorted[i], found[i]) <==> N.NoWrap(T.EntryKey(sorted[i]), Words(g.chunk))
    ensures forall i | 0 <= i < |sorted| :: I.Exact(sorted[i], found[i]) && |sorted[i].coord| == |g.dims|
    ensures forall i | 0 <= i < |found| :: |found[i].key.coords| == |g.dims| + 1
  {
    hide Prod, W.Stored, W.NumChunks, I.Exact, Holds;
    forall i | 0 <= i < |sorted| ensures I.Exact(sorted[i], found[i]) && |sorted[i].coord| == |g.dims| {
      assert sorted[i] in multiset(entries);
      var j :| 0 <= j < |entries| && entries[j] == sorted[i];
      assert chunks[j] in chunks && Kept(m, regions, entries[j], chunks[j]);
    }
    forall i | 0 <= i < |found| ensures |found[i].key.coords| == |g.dims| + 1 {
      FoundRank(sorted[i], found[i]);
    }
  }

  lemma FoundRank(e: T.Entry, f: I.Found)
    requires I.Exact(e, f)
    ensures |f.key.coords| == |e.coord| + 1
  {
  }

  lemma KeptStays(m: Mem, m': Mem, regions: map<nat, nat>, entries: seq<T.Entry>, chunks: seq<A.Chunk>)
    requires |entries| == |chunks| && Untouched(m, m', regions)
    requires forall i | 0 <= i < |chunks| :: Kept(m, regions, entries[i], chunks[i])
    ensures forall i | 0 <= i < |chunks| :: Kept(m', regions, entries[i], chunks[i])
  {
    hide Untouched, Holds;
    forall i | 0 <= i < |chunks| ensures Kept(m', regions, entries[i], chunks[i]) {
      UntouchedHolds(m, m', regions, entries[i].address, chunks[i].data);
    }
  }

  /** The chunk an entry describes. */
  function ChunkOf(m: Mem, e: T.Entry): A.Chunk
  {
    A.Chunk(e.coord, match Load(m, e.address, e.nbytes) case None => [] case Some(data) => data)
  }

  /** What is loaded through the index is what was stored, in another order. */
  lemma LoadedComplete(m: Mem, regions: map<nat, nat>, g: A.Grid, data: seq<byte>, chunks: seq<A.Chunk>, entries: seq<T.Entry>,
                       sorted: seq<T.Entry>, loaded: seq<A.Chunk>)
    requires g.Valid() && W.Complete(g, data, chunks) && |entries| == |chunks|
    requires forall i | 0 <= i < |chunks| :: Kept(m, regions, entries[i], chunks[i])
    requires multiset(sorted) == multiset(entries) && |loaded| == |sorted|
    requires forall i | 0 <= i < |sorted| :: loaded[i] == ChunkOf(m, sorted[i])
    ensures W.Complete(g, data, loaded)
  {
    hide Load, Holds, W.Stored, Kept, ChunkOf;
    forall i | 0 <= i < |entries| ensures chunks[i] == ChunkOf(m, entries[i]) {
      KeptLoads(m, regions, entries[i], chunks[i]);
    }
    ImagesWithin(m, sorted, entries, loaded, chunks);
    ImagesWithin(m, entries, sorted, chunks, loaded);
    forall c | g.InGrid(c) ensures A.Chunk(c, W.Stored(g, data, c)) in loaded {
      assert A.Chunk(c, W.Stored(g, data, c)) in chunks;
    }
  }

  lemma ImagesWithin(m: Mem, es: seq<T.Entry>, more: seq<T.Entry>, chunks: seq<A.Chunk>, all: seq<A.Chunk>)
    requires multiset(es) == multiset(more) && |chunks| == |es| && |all| == |more|
    requires forall i | 0 <= i < |es| :: chunks[i] == ChunkOf(m, es[i])
    requires forall i | 0 <= i < |more| :: all[i] == ChunkOf(m, more[i])
    ensures forall ch | ch in chunks :: ch in all
  {
    hide ChunkOf;
    forall ch | ch in chunks ensures ch in all {
      var i :| 0 <= i < |chunks| && chunks[i] == ch;
      assert es[i] in multiset(more);
      var j :| 0 <= j < |more| && more[j] == es[i];
      assert all[j] == ch;
    }
  }

  lemma KeptLoads(m: Mem, regions: map<nat, nat>, e: T.Entry, ch: A.Chunk)
    requires Kept(m, regions, e, ch)
    ensures ChunkOf(m, e) == ch && Load(m, e.address, e.nbytes) == Some(ch.data)
  {
    hide Load;
    LoadHeld(m, e.address, ch.data, 0, |ch.data|);
    assert ch.data[0..|ch.data|] == ch.data;
  }

  /** Within the reader's limits no collected key has a size that is refused. */
  lemma SizesAccepted(m: Mem, regions: map<nat, nat>, g: A.Grid, data: seq<byte>, chunks: seq<A.Chunk>, entries: seq<T.Entry>,
                      sorted: seq<T.Entry>, found: seq<I.Found>)
    requires g.Valid() && Fits(g) && W.WithinLimits(g) && W.Complete(g, data, chunks)
    requires |entries| == |chunks| && forall i | 0 <= i < |chunks| :: Kept(m, regions, entries[i], chunks[i])
    requires multiset(sorted) == multiset(entries) && |found| == |sorted|
    requires forall i | 0 <= i < |sorted| :: I.Exact(sorted[i], found[i])
    ensures forall i | 0 <= i < |found| :: A.SizeOk(found[i].key.nbytes as nat, A.MAX_CHUNK_SIZE)
  {
    hide Prod, Holds, W.Stored, W.NumChunks;
    forall i | 0 <= i < |found| ensures A.SizeOk(found[i].key.nbytes as nat, A.MAX_CHUNK_SIZE) {
      assert sorted[i] in multiset(entries);
      var j :| 0 <= j < |entries| && entries[j] == sorted[i];
      assert chunks[j] in chunks && Kept(m, regions, entries[j], chunks[j]);
      W.FirstIsLargest(g, data, chunks[j].coord);
    }
  }

  /** Every entry's bytes are in the file, and a collected key that is exact leads to them. */
  lemma FoundLoads(m: Mem, regions: map<nat, nat>, chunks: seq<A.Chunk>, entries: seq<T.Entry>, sorted: seq<T.Entry>,
                   found: seq<I.Found>)
    requires |entries| == |chunks| && forall i | 0 <= i < |chunks| :: Kept(m, regions, entries[i], chunks[i])
    requires multiset(sorted) == multiset(entries) && |found| == |sorted|
    requires forall i | 0 <= i < |sorted| :: I.Exact(sorted[i], found[i])
    ensures forall i | 0 <= i < |sorted| ::
      Load(m, found[i].address, found[i].key.nbytes).Some? && LoadedChunk(m, found[i], |sorted[i].coord|) == ChunkOf(m, sorted[i])
  {
    hide Load, Kept;
    forall i | 0 <= i < |sorted|
      ensures Load(m, found[i].address, found[i].key.nbytes).Some? && LoadedChunk(m, found[i], |sorted[i].coord|) == ChunkOf(m, sorted[i])
    {
      assert sorted[i] in multiset(entries);
      var j :| 0 <= j < |entries| && entries[j] == sorted[i];
      KeptLoads(m, regions, entries[j], chunks[j]);
      assert (sorted[i].coord + [0])[..|sorted[i].coord|] == sorted[i].coord;
    }
  }
}
