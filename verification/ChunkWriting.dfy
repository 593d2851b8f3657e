/** Cutting a dataset into chunks on write (internal/writer/chunk_coordinator.go,
    dataset_write_chunked.go) and reading it back.

    An edge chunk is stored clipped to the dataset, row-major in its clipped extents; the reader
    takes every chunk to be row-major in the full chunk extents. */
module ChunkWriting {
  import opened Arith
  import opened Bytes
  import opened MixedRadix
  import opened RowMajor
  import opened ChunkAssembly

  /** Number of chunks in each dimension. */
  function NumChunks(g: Grid): (n: seq<nat>)
    requires g.Valid()
    ensures |n| == |g.dims| && forall i | 0 <= i < |n| :: n[i] == (g.dims[i] + g.chunk[i] - 1) / g.chunk[i]
  {
    seq(|g.dims|, i requires 0 <= i < |g.dims| => (g.dims[i] + g.chunk[i] - 1) / g.chunk[i])
  }

  lemma CeilDiv(c: nat, d: nat, m: nat)
    requires m > 0
    ensures c < (d + m - 1) / m <==> c * m < d
  {
    var q := (d + m - 1) / m;
    assert d + m - 1 == q * m + (d + m - 1) % m;
    if c < q {
      MulMono(c, q, m);
    } else {
      MulMono(q, c, m);
    }
  }

  lemma GridIsBox(g: Grid, c: seq<nat>)
    requires g.Valid()
    ensures InBox(c, NumChunks(g)) <==> g.InGrid(c)
  {
    if |c| == |g.dims| {
      forall i | 0 <= i < |c| ensures c[i] < NumChunks(g)[i] <==> c[i] * g.chunk[i] < g.dims[i] {
        CeilDiv(c[i], g.dims[i], g.chunk[i]);
      }
    }
  }

  /** The bytes stored for chunk `c` of the dataset `data`. */
  function StoredByte(g: Grid, data: seq<byte>, c: seq<nat>, k: nat): byte
    requires g.Valid() && g.InGrid(c) && k < Prod(g.CopyDims(c)) * g.elem
  {
    ByteAt(data, Linear(Add(g.Origin(c), SlotOf(g.CopyDims(c), g.elem, k)), g.dims) * g.elem + k % g.elem)
  }

  function Stored(g: Grid, data: seq<byte>, c: seq<nat>): (s: seq<byte>)
    requires g.Valid() && g.InGrid(c)
    ensures |s| == Prod(g.CopyDims(c)) * g.elem
    ensures forall k | 0 <= k < |s| :: s[k] == StoredByte(g, data, c, k)
  {
    seq(Prod(g.CopyDims(c)) * g.elem, k requires 0 <= k < Prod(g.CopyDims(c)) * g.elem => StoredByte(g, data, c, k))
  }

  /** `Shifted(o, pre)`: the dataset coordinates of a chunk index prefix. */
  function Shifted(o: seq<nat>, pre: seq<nat>): (p: seq<nat>)
    requires |pre| <= |o|
    ensures |p| == |pre| && forall i | 0 <= i < |pre| :: p[i] == o[i] + pre[i]
  {
    seq(|pre|, i requires 0 <= i < |pre| => o[i] + pre[i])
  }

  method StrideAfter(d: seq<nat>, dim: nat, elem: nat) returns (stride: nat)
    requires dim < |d|
    ensures stride == Prod(d[dim + 1..]) * elem
  {
    stride := 1;
    var i := dim + 1;
    assert d[dim + 1..][..0] == [];
    while i < |d|
      invariant dim + 1 <= i <= |d|
      invariant stride * Prod(d[i..]) == Prod(d[dim + 1..])
    {
      ProdHead(d, i);
      assert (stride * d[i]) * Prod(d[i + 1..]) == stride * (d[i] * Prod(d[i + 1..]));
      stride := stride * d[i];
      i := i + 1;
    }
    assert d[i..] == [];
    stride := stride * elem;
  }

  lemma ProdHead(d: seq<nat>, i: nat)
    requires i < |d|
    ensures Prod(d[i..]) == d[i] * Prod(d[i + 1..])
  {
    assert d[i..][1..] == d[i + 1..];
  }

  lemma StepBytes(b: nat, t: nat, rest: nat, elem: nat)
    ensures b * elem + t * (rest * elem) == (b + t * rest) * elem
  {
    Regroup(t, rest, 0, elem, 0);
    assert (b + t * rest) * elem == b * elem + (t * rest) * elem;
  }

  method ExtractRecursive(g: Grid, src: seq<byte>, dst: array<byte>, c: seq<nat>, dim: nat, srcOff: nat, dstOff: nat,
                          ghost pre: seq<nat>)
    requires g.Valid() && g.InGrid(c) && |src| == g.Size() && dst.Length == Prod(g.CopyDims(c)) * g.elem
    requires dim == |pre| <= |g.dims| && forall i | 0 <= i < |pre| :: pre[i] < g.CopyDims(c)[i]
    requires srcOff == Base(Shifted(g.Origin(c), pre), g.dims) * g.elem
    requires dstOff == Base(pre, g.CopyDims(c)) * g.elem
    modifies dst
    ensures Filled(dst[..], old(dst[..]), Stored(g, src, c), Everywhere(dst.Length), g.CopyDims(c), g.elem, pre)
    decreases |g.dims| - dim
  {
    hide Linear, Prod, SlotOf, StoredByte, Stored, Base, Filled, FilledTo, Grid.Size;
    ghost var before, want, mask := dst[..], Stored(g, src, c), Everywhere(dst.Length);
    var size := g.CopyDims(c);
    if dim == |g.dims| {
      ElementMove(g, src, c, pre);
      Blit(dst, dstOff, src[srcOff..srcOff + g.elem]);
      ElementFilled(g, src, c, pre, dst[..], before);
      return;
    }
    var dsStride := StrideAfter(g.dims, dim, g.elem);
    var chunkStride := StrideAfter(size, dim, g.elem);
    var start := c[dim] * g.chunk[dim];
    FilledSteps(before, before, before, want, mask, size, g.elem, pre, 0);
    var i := 0;
    while i < size[dim]
      invariant i <= size[dim]
      invariant FilledTo(dst[..], before, want, mask, size, g.elem, pre, i)
    {
      ghost var mid := dst[..];
      var newSrc := srcOff + (start + i) * dsStride;
      var newDst := dstOff + i * chunkStride;
      OffsetStep(g, c, pre, i);
      ExtractRecursive(g, src, dst, c, dim + 1, newSrc, newDst, pre + [i]);
      FilledSteps(dst[..], mid, before, want, mask, size, g.elem, pre, i);
      i := i + 1;
    }
    FilledSteps(dst[..], dst[..], before, want, mask, size, g.elem, pre, i);
  }

  lemma OffsetStep(g: Grid, c: seq<nat>, pre: seq<nat>, i: nat)
    requires g.Valid() && g.InGrid(c) && |pre| < |g.dims|
    ensures var o, size, n := g.Origin(c), g.CopyDims(c), |pre|;
      && Base(Shifted(o, pre + [i]), g.dims) * g.elem ==
           Base(Shifted(o, pre), g.dims) * g.elem + (c[n] * g.chunk[n] + i) * (Prod(g.dims[n + 1..]) * g.elem)
      && Base(pre + [i], size) * g.elem == Base(pre, size) * g.elem + i * (Prod(size[n + 1..]) * g.elem)
  {
    hide Linear, Prod, Base;
    var o, size, n := g.Origin(c), g.CopyDims(c), |pre|;
    assert Shifted(o, pre + [i]) == Shifted(o, pre) + [o[n] + i];
    BaseStep(Shifted(o, pre), o[n] + i, g.dims);
    BaseStep(pre, i, size);
    StepBytes(Base(Shifted(o, pre), g.dims), o[n] + i, Prod(g.dims[n + 1..]), g.elem);
    StepBytes(Base(pre, size), i, Prod(size[n + 1..]), g.elem);
  }

  lemma ElementMove(g: Grid, src: seq<byte>, c: seq<nat>, p: seq<nat>)
    requires g.Valid() && g.InGrid(c) && |src| == g.Size() && InBox(p, g.CopyDims(c))
    ensures Base(Shifted(g.Origin(c), p), g.dims) * g.elem == Linear(Add(g.Origin(c), p), g.dims) * g.elem
    ensures Linear(Add(g.Origin(c), p), g.dims) * g.elem + g.elem <= |src|
    ensures Base(p, g.CopyDims(c)) * g.elem == Linear(p, g.CopyDims(c)) * g.elem
    ensures Linear(p, g.CopyDims(c)) * g.elem + g.elem <= Prod(g.CopyDims(c)) * g.elem
  {
    hide Linear, Prod, Base;
    var x := Add(g.Origin(c), p);
    assert Shifted(g.Origin(c), p) == x;
    BaseWhole(x, g.dims);
    BaseWhole(p, g.CopyDims(c));
    LinearBound(x, g.dims);
    LinearBound(p, g.CopyDims(c));
    MulMono(Linear(x, g.dims), Prod(g.dims), g.elem);
    MulMono(Linear(p, g.CopyDims(c)), Prod(g.CopyDims(c)), g.elem);
  }

  lemma ElementFilled(g: Grid, src: seq<byte>, c: seq<nat>, p: seq<nat>, out: seq<byte>, before: seq<byte>)
    requires g.Valid() && g.InGrid(c) && InBox(p, g.CopyDims(c))
    requires |out| == |before| == Prod(g.CopyDims(c)) * g.elem
    requires var s, d := Linear(Add(g.Origin(c), p), g.dims) * g.elem, Linear(p, g.CopyDims(c)) * g.elem;
      && s + g.elem <= |src|
      && forall k | 0 <= k < |out| :: out[k] == if d <= k < d + g.elem then src[s + (k - d)] else before[k]
    ensures Filled(out, before, Stored(g, src, c), Everywhere(|out|), g.CopyDims(c), g.elem, p)
  {
    hide Linear, Prod, SlotOf, Stored;
    var want, mask := Stored(g, src, c), Everywhere(|out|);
    forall k | 0 <= k < |out|
      ensures out[k] == if mask[k] && SlotOf(g.CopyDims(c), g.elem, k) == p then want[k] else before[k]
    {
      ElementRun(g.CopyDims(c), g.elem, p, k);
      assert want[k] == StoredByte(g, src, c, k);
    }
    FilledElement(out, before, want, mask, g.CopyDims(c), g.elem, p);
  }

  method ExtractChunkData(g: Grid, data: seq<byte>, c: seq<nat>) returns (chunk: seq<byte>)
    requires g.Valid() && g.InGrid(c) && |data| == g.Size()
    ensures chunk == Stored(g, data, c)
  {
    hide Linear, Prod, SlotOf, StoredByte, Stored, Base, Grid.Size;
    var numElements := 1;
    var size := g.CopyDims(c);
    var i := 0;
    assert size[0..] == size;
    while i < |size|
      invariant i <= |size| && numElements * Prod(size[i..]) == Prod(size)
    {
      ProdHead(size, i);
      assert (numElements * size[i]) * Prod(size[i + 1..]) == numElements * (size[i] * Prod(size[i + 1..]));
      numElements := numElements * size[i];
      i := i + 1;
    }
    assert size[i..] == [];
    ProdEmpty();
    var dst := new byte[numElements * g.elem](_ => 0);
    BaseEmpty(size);
    BaseEmpty(g.dims);
    ExtractRecursive(g, data, dst, c, 0, 0, 0, []);
    chunk := dst[..];
  }

  // ---- the write loop ----

  /** GetChunkCoordinate: the row-major coordinate of chunk number `index`. */
  method GetChunkCoordinate(g: Grid, index: nat) returns (coord: seq<nat>)
    requires g.Valid() && index < Prod(NumChunks(g))
    ensures coord == Unrank(index, NumChunks(g)) && g.InGrid(coord)
  {
    hide Linear, Prod, Unrank, Ranked;
    var n := NumChunks(g);
    var c := new nat[|n|];
    var remaining: nat := index;
    var i := |n|;
    RankStart(n, index);
    assert c[i..] == [];
    while i > 0
      invariant 0 <= i <= |n| && 0 <= remaining
      invariant forall j | i <= j < |n| :: c[j] < n[j]
      invariant Ranked(remaining, c[i..], n, i, index)
    {
      ghost var before := c[i..];
      i := i - 1;
      RankStep(remaining, n, i, before, index);
      c[i] := remaining % n[i];
      assert c[i..] == [c[i]] + before;
      remaining := remaining / n[i];
    }
    coord := c[..];
    assert c[0..] == coord;
    RankEnd(remaining, coord, n, index);
    LinearInjective(coord, Unrank(index, n), n);
    GridIsBox(g, coord);
  }

  /** `rank` encodes the dimensions before `i`, `low` holds the coordinates from `i` on, and together they are `index`. */
  ghost predicate Ranked(rank: nat, low: seq<nat>, n: seq<nat>, i: nat, index: nat)
  {
    && i <= |n| && |low| == |n| - i && rank < Prod(n[..i])
    && rank * Prod(n[i..]) + Linear(low, n[i..]) == index
  }

  lemma RankStart(n: seq<nat>, index: nat)
    requires index < Prod(n)
    ensures Ranked(index, [], n, |n|, index)
  {
    assert n[|n|..] == [] && n[..|n|] == n;
  }

  lemma RankEnd(rank: nat, low: seq<nat>, n: seq<nat>, index: nat)
    requires Ranked(rank, low, n, 0, index)
    ensures |low| == |n| && Linear(low, n) == index
  {
    assert n[..0] == [] && n[0..] == n;
  }

  /** Peeling dimension `i` off a rank: quotient, remainder, and what they still encode. */
  lemma RankStep(rank: nat, n: seq<nat>, i: nat, low: seq<nat>, index: nat)
    requires i < |n| && Ranked(rank, low, n, i + 1, index)
    ensures n[i] > 0 && rank % n[i] < n[i] && Ranked(rank / n[i], [rank % n[i]] + low, n, i, index)
  {
    hide Linear, Prod;
    ProdLast(n, i);
    UnrankStep(rank, Prod(n[..i]), n[i]);
    ProdHead(n, i);
    assert n[i..][1..] == n[i + 1..];
    LinearCons(rank % n[i], low, n[i..]);
    Regroup(rank / n[i], n[i], rank % n[i], Prod(n[i + 1..]), Linear(low, n[i + 1..]));
  }

  lemma ProdLast(d: seq<nat>, i: nat)
    requires i < |d|
    ensures Prod(d[..i + 1]) == Prod(d[..i]) * d[i]
  {
    hide Prod;
    ProdSplit(d[..i + 1], i);
    assert d[..i + 1][..i] == d[..i] && d[..i + 1][i..] == [d[i]];
    ProdOne(d[i]);
  }

  lemma ProdOne(e: nat)
    ensures Prod([e]) == e
  {
    assert [e][1..] == [];
  }

  /** What the write loop hands to the chunk index, in writing order. */
  ghost predicate WrittenFrom(g: Grid, data: seq<byte>, chunks: seq<Chunk>, n: nat)
    requires g.Valid()
  {
    && |chunks| == n <= Prod(NumChunks(g))
    && forall i | 0 <= i < n ::
        chunks[i].coord == Unrank(i, NumChunks(g)) && g.InGrid(chunks[i].coord) &&
        chunks[i].data == Stored(g, data, chunks[i].coord)
  }

  method WriteChunkedData(g: Grid, data: seq<byte>) returns (chunks: seq<Chunk>)
    requires g.Valid() && |data| == g.Size()
    ensures WrittenFrom(g, data, chunks, Prod(NumChunks(g)))
  {
    hide Linear, Prod, Unrank, Stored;
    var total := 1;
    var counts := NumChunks(g);
    var j := 0;
    assert counts[0..] == counts;
    while j < |counts|
      invariant j <= |counts| && total * Prod(counts[j..]) == Prod(counts)
    {
      ProdHead(counts, j);
      assert (total * counts[j]) * Prod(counts[j + 1..]) == total * (counts[j] * Prod(counts[j + 1..]));
      total := total * counts[j];
      j := j + 1;
    }
    assert counts[j..] == [];
    ProdEmpty();
    chunks := [];
    var i := 0;
    while i < total
      invariant i <= total && WrittenFrom(g, data, chunks, i)
    {
      var coord := GetChunkCoordinate(g, i);
      var chunk := ExtractChunkData(g, data, coord);
      chunks := chunks + [Chunk(coord, chunk)];
      i := i + 1;
    }
  }

  /** Exactly the chunks of the grid, in any order, each with its region of the data. */
  ghost predicate Complete(g: Grid, data: seq<byte>, chunks: seq<Chunk>)
    requires g.Valid()
  {
    && (forall ch | ch in chunks :: g.InGrid(ch.coord) && ch.data == Stored(g, data, ch.coord))
    && forall c | g.InGrid(c) :: Chunk(c, Stored(g, data, c)) in chunks
  }

  lemma CompleteIndex(g: Grid, data: seq<byte>, chunks: seq<Chunk>, c: seq<nat>)
    requires g.Valid() && Complete(g, data, chunks) && g.InGrid(c)
    ensures c in Index(chunks) && Index(chunks)[c] == Stored(g, data, c) && Chunk(c, Stored(g, data, c)) in chunks
  {
    hide Index, Stored;
    IndexHas(chunks, Chunk(c, Stored(g, data, c)));
    IndexMember(chunks, c);
  }

  /** Every chunk of the grid is written. */
  lemma WrittenComplete(g: Grid, data: seq<byte>, chunks: seq<Chunk>)
    requires g.Valid() && WrittenFrom(g, data, chunks, Prod(NumChunks(g)))
    ensures Complete(g, data, chunks)
  {
    hide Linear, Prod, Unrank, Stored;
    WrittenInGrid(g, data, chunks, Prod(NumChunks(g)));
    forall c | g.InGrid(c) ensures Chunk(c, Stored(g, data, c)) in chunks {
      GridIsBox(g, c);
      UnrankLinear(c, NumChunks(g));
      assert chunks[Linear(c, NumChunks(g))] == Chunk(c, Stored(g, data, c));
    }
  }

  // ---- when the stored layout is the layout the reader expects ----

  /** A clipped dimension may only follow dimensions in which the chunk has one element. */
  predicate Compatible(copy: seq<nat>, chunk: seq<nat>)
  {
    |copy| == |chunk| && forall i, j | 0 <= j < i < |copy| :: copy[i] == chunk[i] || copy[j] == 1
  }

  predicate Clipped(copy: seq<nat>, chunk: seq<nat>)
  {
    |copy| == |chunk| && forall i | 0 <= i < |copy| :: 0 < copy[i] <= chunk[i]
  }

  lemma {:induction false} ProdClipped(copy: seq<nat>, chunk: seq<nat>)
    requires Clipped(copy, chunk)
    ensures 0 < Prod(copy) <= Prod(chunk)
    ensures Prod(copy) == Prod(chunk) <==> copy == chunk
  {
    if copy != [] {
      ProdClipped(copy[1..], chunk[1..]);
      var a, b, p, q := copy[0], chunk[0], Prod(copy[1..]), Prod(chunk[1..]);
      MulMono(a, b, q);
      MulMono(p, q, a);
      MulMono(1, a, p);
      assert p * a == a * p && q * a == a * q;
      assert copy == [a] + copy[1..] && chunk == [b] + chunk[1..];
    }
  }

  lemma CompatibleTail(copy: seq<nat>, chunk: seq<nat>)
    requires |copy| == |chunk| >= 1
    ensures Compatible(copy, chunk) <==>
            Compatible(copy[1..], chunk[1..]) && (copy[0] == 1 || copy[1..] == chunk[1..])
  {
    if Compatible(copy, chunk) {
      if copy[0] != 1 {
        forall i | 0 <= i < |copy| - 1 ensures copy[1..][i] == chunk[1..][i] {
          assert copy[1..][i] == copy[i + 1];
        }
      }
      forall i, j | 0 <= j < i < |copy| - 1 ensures copy[1..][i] == chunk[1..][i] || copy[1..][j] == 1 {
        assert copy[i + 1] == chunk[i + 1] || copy[j + 1] == 1;
      }
    }
    if Compatible(copy[1..], chunk[1..]) && (copy[0] == 1 || copy[1..] == chunk[1..]) {
      forall i, j | 0 <= j < i < |copy| ensures copy[i] == chunk[i] || copy[j] == 1 {
        assert copy[i] == copy[1..][i - 1] && chunk[i] == chunk[1..][i - 1];
        if j > 0 {
          assert copy[j] == copy[1..][j - 1];
        }
      }
    }
  }

  /** The two layouts place every element alike exactly when they are compatible. */
  lemma {:induction false} LayoutsAgree(copy: seq<nat>, chunk: seq<nat>, c: seq<nat>)
    requires Clipped(copy, chunk) && InBox(c, copy)
    ensures Linear(c, copy) <= Linear(c, chunk)
    ensures Compatible(copy, chunk) ==> Linear(c, copy) == Linear(c, chunk)
    ensures c == Last(copy) && Linear(c, copy) == Linear(c, chunk) ==> Compatible(copy, chunk)
  {
    if copy != [] {
      LayoutsAgree(copy[1..], chunk[1..], c[1..]);
      ProdClipped(copy[1..], chunk[1..]);
      CompatibleTail(copy, chunk);
      var p, q := Prod(copy[1..]), Prod(chunk[1..]);
      MulMono(p, q, c[0]);
      assert p * c[0] == c[0] * p && q * c[0] == c[0] * q;
      if c == Last(copy) {
        assert c[1..] == Last(copy[1..]);
      }
    }
  }

  lemma {:induction false} LastOffset(d: seq<nat>)
    requires forall i | 0 <= i < |d| :: d[i] > 0
    ensures Linear(Last(d), d) + 1 == Prod(d)
  {
    if d != [] {
      LastOffset(d[1..]);
      assert Last(d)[1..] == Last(d[1..]);
      assert (d[0] - 1) * Prod(d[1..]) + Prod(d[1..]) == d[0] * Prod(d[1..]);
    }
  }

  lemma StoredReadable(g: Grid, data: seq<byte>, c: seq<nat>)
    requires g.Valid() && g.InGrid(c)
    ensures Readable(g, Chunk(c, Stored(g, data, c))) <==> Compatible(g.CopyDims(c), g.chunk)
  {
    hide Linear, Prod, Stored, Compatible;
    var copy := g.CopyDims(c);
    LayoutsAgree(copy, g.chunk, Last(copy));
    LastOffset(copy);
    var need := Linear(Last(copy), g.chunk) + 1;
    if need <= Prod(copy) {
      MulMono(need, Prod(copy), g.elem);
    } else {
      MulMono(Prod(copy), need, g.elem);
    }
  }

  /** No dimension is cut by the dataset's edge after one in which chunks span several elements. */
  predicate RoundTrips(g: Grid)
    requires g.Valid()
  {
    forall i, j | 0 <= j < i < |g.dims| :: g.dims[i] % g.chunk[i] == 0 || g.chunk[j] == 1 || g.dims[j] == 1
  }

  lemma ClipOnlyAtRemainder(c: nat, d: nat, m: nat)
    requires m > 0 && c * m < d && d % m == 0
    ensures c * m + m <= d
  {
    var q := d / m;
    assert d == q * m;
    if q <= c {
      MulMono(q, c, m);
    }
    MulMono(c, q, m);
  }

  lemma GridCompatible(g: Grid, c: seq<nat>)
    requires g.Valid() && RoundTrips(g) && g.InGrid(c)
    ensures Compatible(g.CopyDims(c), g.chunk)
  {
    forall i, j | 0 <= j < i < |c| ensures g.CopyDims(c)[i] == g.chunk[i] || g.CopyDims(c)[j] == 1 {
      if g.dims[i] % g.chunk[i] == 0 {
        ClipOnlyAtRemainder(c[i], g.dims[i], g.chunk[i]);
      }
    }
  }

  lemma GridIncompatible(g: Grid) returns (c: seq<nat>)
    requires g.Valid() && !RoundTrips(g) && forall i | 0 <= i < |g.dims| :: g.dims[i] > 0
    ensures g.InGrid(c) && !Compatible(g.CopyDims(c), g.chunk)
  {
    var i, j :| 0 <= j < i < |g.dims| && !(g.dims[i] % g.chunk[i] == 0 || g.chunk[j] == 1 || g.dims[j] == 1);
    c := seq(|g.dims|, k requires 0 <= k < |g.dims| => if k == i then g.dims[i] / g.chunk[i] else 0);
    assert g.dims[i] == (g.dims[i] / g.chunk[i]) * g.chunk[i] + g.dims[i] % g.chunk[i];
    assert g.CopyDims(c)[i] != g.chunk[i] && g.CopyDims(c)[j] != 1;
  }

  lemma ReadBackByte(g: Grid, data: seq<byte>, chunks: seq<Chunk>, k: nat)
    requires g.Valid() && RoundTrips(g) && |data| == g.Size() && k < g.Size()
    requires Complete(g, data, chunks)
    ensures ElementByte(g, Index(chunks), g.ElementOf(k), k % g.elem) == data[k]
  {
    hide Linear, Prod, SlotOf, Index, Stored, Complete, Compatible;
    var x, b := g.ElementOf(k), k % g.elem;
    var c, w := g.Owner(x), g.Within(x);
    OwnerInGrid(g, x);
    CompleteIndex(g, data, chunks, c);
    GridCompatible(g, c);
    RegionIsOwner(g, c, x);
    WithinClipped(g, c, x);
    LayoutsAgree(g.CopyDims(c), g.chunk, w);
    var s := Linear(w, g.CopyDims(c)) * g.elem + b;
    LinearBound(w, g.CopyDims(c));
    MulMono(Linear(w, g.CopyDims(c)), Prod(g.CopyDims(c)), g.elem);
    ElementRun(g.CopyDims(c), g.elem, w, s);
    assert s % g.elem == b by { DivUnique(s, Linear(w, g.CopyDims(c)), b, g.elem); }
    assert Add(g.Origin(c), w) == x;
    assert Stored(g, data, c)[s] == StoredByte(g, data, c, s);
    assert k == (k / g.elem) * g.elem + b;
  }

  lemma WithinClipped(g: Grid, c: seq<nat>, x: seq<nat>)
    requires g.Valid() && g.InGrid(c) && InBox(x, g.dims) && g.Owner(x) == c
    ensures InBox(g.Within(x), g.CopyDims(c)) && Add(g.Origin(c), g.Within(x)) == x
  {
    RegionIsOwner(g, c, x);
  }

  /** The reader takes a dataset of this size, and its first chunk, which no other exceeds. */
  predicate WithinLimits(g: Grid)
    requires g.Valid() && forall i | 0 <= i < |g.dims| :: g.dims[i] > 0
  {
    g.Size() <= 0x100_0000_0000 && Prod(g.CopyDims(FirstChunk(g))) * g.elem <= 0x4000_0000
  }

  function FirstChunk(g: Grid): (c: seq<nat>)
    requires g.Valid() && forall i | 0 <= i < |g.dims| :: g.dims[i] > 0
    ensures g.InGrid(c)
  {
    seq(|g.dims|, _ => 0)
  }

  /** No chunk is empty or longer than the first one. */
  lemma FirstIsLargest(g: Grid, data: seq<byte>, c: seq<nat>)
    requires g.Valid() && g.InGrid(c) && forall i | 0 <= i < |g.dims| :: g.dims[i] > 0
    ensures 0 < |Stored(g, data, c)| <= |Stored(g, data, FirstChunk(g))| == Prod(g.CopyDims(FirstChunk(g))) * g.elem
  {
    hide Prod;
    var copy, first := g.CopyDims(c), g.CopyDims(FirstChunk(g));
    forall i | 0 <= i < |copy| ensures 0 < copy[i] <= first[i] {
      MulMono(0, c[i], g.chunk[i]);
    }
    ProdClipped(copy, first);
    MulMono(Prod(copy), Prod(first), g.elem);
    MulMono(1, Prod(copy), g.elem);
  }

  /** Assembling all chunks of a dataset returns the data exactly when it is not too large for the reader and no clipped
      dimension follows a dimension with longer chunks; otherwise it fails. */
  method ReadComplete(g: Grid, chunks: seq<Chunk>, ghost data: seq<byte>) returns (r: ReadResult)
    requires g.Valid() && |data| == g.Size() && forall i | 0 <= i < |g.dims| :: g.dims[i] > 0
    requires Complete(g, data, chunks)
    ensures r == if RoundTrips(g) && WithinLimits(g) then Ok(data) else Failed
  {
    hide Linear, Prod, SlotOf, Index, Stored, Compatible, RoundTrips, Readable, Grid.ElementOf;
    r := ReadChunkedData(g, chunks);
    SizePositive(g);
    if !WithinLimits(g) {
      FirstIsLargest(g, data, FirstChunk(g));
      CompleteIndex(g, data, chunks, FirstChunk(g));
    } else if RoundTrips(g) {
      forall k | 0 <= k < |data| ensures Assembled(g, Index(chunks))[k] == data[k] {
        ReadBackByte(g, data, chunks, k);
      }
      forall ch | ch in chunks ensures Accepted(g, ch) {
        GridCompatible(g, ch.coord);
        StoredReadable(g, data, ch.coord);
        FirstIsLargest(g, data, ch.coord);
      }
    } else {
      var c := GridIncompatible(g);
      CompleteIndex(g, data, chunks, c);
      StoredReadable(g, data, c);
    }
  }

  lemma SizePositive(g: Grid)
    requires g.Valid() && forall i | 0 <= i < |g.dims| :: g.dims[i] > 0
    ensures g.Size() > 0
  {
    hide Prod;
    ProdClipped(g.dims, g.dims);
    MulMono(1, Prod(g.dims), g.elem);
  }

  /** Writing a chunked dataset and reading it back. */
  method WriteThenRead(g: Grid, data: seq<byte>) returns (r: ReadResult)
    requires g.Valid() && |data| == g.Size() && forall i | 0 <= i < |g.dims| :: g.dims[i] > 0
    ensures r == if RoundTrips(g) && WithinLimits(g) then Ok(data) else Failed
  {
    hide Complete, RoundTrips, WrittenFrom, WithinLimits;
    var chunks := WriteChunkedData(g, data);
    WrittenComplete(g, data, chunks);
    r := ReadComplete(g, chunks, data);
  }

  lemma WrittenInGrid(g: Grid, data: seq<byte>, chunks: seq<Chunk>, n: nat)
    requires g.Valid() && WrittenFrom(g, data, chunks, n)
    ensures forall ch | ch in chunks :: g.InGrid(ch.coord) && ch == Chunk(ch.coord, Stored(g, data, ch.coord))
  {
    hide Prod, Unrank, Stored;
  }
}
