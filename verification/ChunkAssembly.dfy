/** Assembling a whole N-dimensional array from its stored chunks
    (internal/core/dataset_reader.go).

    Offsets are unbounded naturals: the reader checks the total size for 64-bit
    overflow before it allocates, so no offset below it wraps. */
module ChunkAssembly {
  import opened Arith
  import opened Bytes
  import opened MixedRadix
  import opened RowMajor

  /** A dataset of extents `dims`, cut into chunks of extents `chunk`, of `elem`-byte elements. */
  datatype Grid = Grid(dims: seq<nat>, chunk: seq<nat>, elem: nat) {

    ghost predicate Valid() {
      && |dims| == |chunk| >= 1
      && elem > 0
      && forall i | 0 <= i < |chunk| :: chunk[i] > 0
    }

    function Size(): nat { Prod(dims) * elem }

    /** A chunk coordinate whose first element lies in the dataset. */
    predicate InGrid(c: seq<nat>)
      requires Valid()
    {
      |c| == |dims| && forall i | 0 <= i < |c| :: c[i] * chunk[i] < dims[i]
    }

    function Origin(c: seq<nat>): (o: seq<nat>)
      requires Valid() && InGrid(c)
      ensures |o| == |dims| && forall i | 0 <= i < |o| :: o[i] == c[i] * chunk[i] < dims[i]
    {
      seq(|dims|, i requires 0 <= i < |dims| => c[i] * chunk[i])
    }

    /** The extents of a chunk clipped to the dataset. */
    function CopyDims(c: seq<nat>): (d: seq<nat>)
      requires Valid() && InGrid(c)
      ensures |d| == |dims| && forall i | 0 <= i < |d| ::
        d[i] == (if c[i] * chunk[i] + chunk[i] > dims[i] then dims[i] - c[i] * chunk[i] else chunk[i]) && d[i] > 0
    {
      seq(|dims|, i requires 0 <= i < |dims| =>
        if c[i] * chunk[i] + chunk[i] > dims[i] then dims[i] - c[i] * chunk[i] else chunk[i])
    }

    /** The chunk that holds element `x`, and where in that chunk it sits. */
    function Owner(x: seq<nat>): (c: seq<nat>)
      requires Valid() && |x| == |dims|
      ensures |c| == |dims| && forall i | 0 <= i < |c| :: c[i] == x[i] / chunk[i]
    {
      seq(|dims|, i requires 0 <= i < |dims| => x[i] / chunk[i])
    }

    function Within(x: seq<nat>): (r: seq<nat>)
      requires Valid() && |x| == |dims|
      ensures InBox(r, chunk) && forall i | 0 <= i < |r| :: r[i] == x[i] % chunk[i]
    {
      seq(|dims|, i requires 0 <= i < |dims| => x[i] % chunk[i])
    }

    /** The element that holds byte `k` of the whole array. */
    function ElementOf(k: nat): (x: seq<nat>)
      requires Valid() && k < Size()
      ensures InBox(x, dims) && Linear(x, dims) == k / elem
    {
      SlotOf(dims, elem, k)
    }
  }

  datatype Chunk = Chunk(coord: seq<nat>, data: seq<byte>)

  function ByteAt(data: seq<byte>, i: nat): byte
  {
    if i < |data| then data[i] else 0
  }

  /** `Last(d)` is the greatest coordinate of the box of extents `d`. */
  function Last(d: seq<nat>): (c: seq<nat>)
    requires forall i | 0 <= i < |d| :: d[i] > 0
    ensures InBox(c, d) && forall i | 0 <= i < |d| :: c[i] == d[i] - 1
  {
    seq(|d|, i requires 0 <= i < |d| => d[i] - 1)
  }

  /** The stored bytes reach the last element that must be copied. */
  predicate Readable(g: Grid, ch: Chunk)
    requires g.Valid() && g.InGrid(ch.coord)
  {
    (Linear(Last(g.CopyDims(ch.coord)), g.chunk) + 1) * g.elem <= |ch.data|
  }

  /** The chunk index; a later chunk with the same coordinate replaces an earlier one. */
  function Index(chunks: seq<Chunk>): (m: map<seq<nat>, seq<byte>>)
  {
    if chunks == [] then map[]
    else Index(chunks[..|chunks| - 1])[chunks[|chunks| - 1].coord := chunks[|chunks| - 1].data]
  }

  /** Byte `b` of element `x`: taken from the owning chunk, zero when that chunk is absent. */
  function ElementByte(g: Grid, store: map<seq<nat>, seq<byte>>, x: seq<nat>, b: nat): byte
    requires g.Valid() && |x| == |g.dims|
  {
    if g.Owner(x) in store
    then ByteAt(store[g.Owner(x)], Linear(g.Within(x), g.chunk) * g.elem + b)
    else 0
  }

  /** The whole array a chunk store stands for. */
  function Assembled(g: Grid, store: map<seq<nat>, seq<byte>>): (raw: seq<byte>)
    requires g.Valid()
    ensures |raw| == g.Size()
    ensures forall k | 0 <= k < |raw| :: raw[k] == ElementByte(g, store, g.ElementOf(k), k % g.elem)
  {
    seq(g.Size(), k requires 0 <= k < g.Size() => ElementByte(g, store, g.ElementOf(k), k % g.elem))
  }

  // ---- geometry of one chunk ----

  function Rel(x: seq<nat>, origin: seq<nat>): (r: seq<nat>)
    requires |x| == |origin|
    ensures |r| == |x|
    ensures forall i | 0 <= i < |x| :: r[i] == if origin[i] <= x[i] then x[i] - origin[i] else 0
  {
    seq(|x|, i requires 0 <= i < |x| => if origin[i] <= x[i] then x[i] - origin[i] else 0)
  }

  /** `x` lies in the chunk box and agrees with the index prefix `pre`. */
  ghost predicate InRegion(x: seq<nat>, origin: seq<nat>, copy: seq<nat>, pre: seq<nat>)
    requires |x| == |origin| == |copy| >= |pre|
  {
    && (forall j | 0 <= j < |pre| :: x[j] == origin[j] + pre[j])
    && (forall j | |pre| <= j < |x| :: origin[j] <= x[j] < origin[j] + copy[j])
  }

  lemma DivInterval(x: nat, c: nat, m: nat)
    requires m > 0
    ensures c * m <= x < c * m + m <==> x / m == c
    ensures x / m == c ==> x % m == x - c * m
  {
    assert x == (x / m) * m + x % m;
    if c * m <= x < c * m + m {
      DivUnique(x, c, x - c * m, m);
    }
  }

  lemma RegionIsOwner(g: Grid, c: seq<nat>, x: seq<nat>)
    requires g.Valid() && g.InGrid(c) && InBox(x, g.dims)
    ensures InRegion(x, g.Origin(c), g.CopyDims(c), []) <==> g.Owner(x) == c
    ensures g.Owner(x) == c ==> Rel(x, g.Origin(c)) == g.Within(x)
  {
    forall i | 0 <= i < |x|
      ensures c[i] * g.chunk[i] <= x[i] < c[i] * g.chunk[i] + g.CopyDims(c)[i] <==> x[i] / g.chunk[i] == c[i]
      ensures x[i] / g.chunk[i] == c[i] ==> x[i] % g.chunk[i] == x[i] - c[i] * g.chunk[i]
    {
      DivInterval(x[i], c[i], g.chunk[i]);
    }
    if InRegion(x, g.Origin(c), g.CopyDims(c), []) {
      assert g.Owner(x) == c;
    }
    if g.Owner(x) == c {
      forall j | 0 <= j < |x| ensures g.Origin(c)[j] <= x[j] < g.Origin(c)[j] + g.CopyDims(c)[j] {
        assert g.Owner(x)[j] == c[j];
      }
    }
  }

  lemma OwnerInGrid(g: Grid, x: seq<nat>)
    requires g.Valid() && InBox(x, g.dims)
    ensures g.InGrid(g.Owner(x))
  {
    forall i | 0 <= i < |x| ensures g.Owner(x)[i] * g.chunk[i] < g.dims[i] {
      DivInterval(x[i], x[i] / g.chunk[i], g.chunk[i]);
    }
  }

  lemma {:induction false} LinearMono(a: seq<nat>, b: seq<nat>, d: seq<nat>)
    requires |a| == |b| == |d| && forall i | 0 <= i < |a| :: a[i] <= b[i]
    ensures Linear(a, d) <= Linear(b, d)
  {
    if a != [] {
      LinearMono(a[1..], b[1..], d[1..]);
      MulMono(a[0], b[0], Prod(d[1..]));
    }
  }

  // ---- strides ----

  function Dot(a: seq<nat>, s: seq<nat>): nat
    requires |a| == |s|
  {
    if a == [] then 0 else a[0] * s[0] + Dot(a[1..], s[1..])
  }

  function Strides(d: seq<nat>): (s: seq<nat>)
    ensures |s| == |d| && forall i | 0 <= i < |d| :: s[i] == Prod(d[i + 1..])
  {
    seq(|d|, i requires 0 <= i < |d| => Prod(d[i + 1..]))
  }

  lemma {:induction false} DotStrides(c: seq<nat>, d: seq<nat>)
    requires |c| == |d|
    ensures Dot(c, Strides(d)) == Linear(c, d)
  {
    if c != [] {
      DotStrides(c[1..], d[1..]);
      assert Strides(d)[1..] == Strides(d[1..]) by {
        forall i | 0 <= i < |d| - 1 ensures Strides(d)[1..][i] == Strides(d[1..])[i] {
          assert d[1..][i + 1..] == d[i + 2..];
        }
      }
    }
  }

  method ComputeStrides(d: seq<nat>) returns (s: array<nat>)
    requires |d| >= 1
    ensures fresh(s) && s[..] == Strides(d)
  {
    var n := |d|;
    s := new nat[n](_ => 1);
    assert d[n..] == [];
    var i := n - 1;
    while i > 0
      invariant 0 <= i < n
      invariant forall j | i <= j < n :: s[j] == Prod(d[j + 1..])
    {
      i := i - 1;
      assert d[i + 1..][1..] == d[i + 2..] && d[i + 1..][0] == d[i + 1];
      assert Prod(d[i + 1..]) == d[i + 1] * Prod(d[i + 2..]);
      s[i] := s[i + 1] * d[i + 1];
    }
  }

  /** The forward accumulator loop over the first `count` indices. */
  method DotPrefix(a: array<nat>, s: seq<nat>, count: nat) returns (sum: nat)
    requires count <= a.Length == |s|
    requires forall i | count <= i < a.Length :: a[i] == 0
    ensures sum == Dot(a[..], s)
  {
    sum := 0;
    var i := 0;
    assert a[0..] == a[..] && s[0..] == s;
    while i < count
      invariant i <= count
      invariant sum + Dot(a[i..], s[i..]) == Dot(a[..], s)
    {
      assert a[i..][1..] == a[i + 1..] && s[i..][1..] == s[i + 1..];
      sum := sum + a[i] * s[i];
      i := i + 1;
    }
    DotZero(a[i..], s[i..]);
  }

  lemma {:induction false} DotZero(a: seq<nat>, s: seq<nat>)
    requires |a| == |s| && forall i | 0 <= i < |a| :: a[i] == 0
    ensures Dot(a, s) == 0
  {
    if a != [] {
      DotZero(a[1..], s[1..]);
    }
  }

  // ---- one row ----

  ghost predicate InChunk(dims: seq<nat>, origin: seq<nat>, copy: seq<nat>)
  {
    && |dims| == |origin| == |copy| >= 1
    && forall j | 0 <= j < |dims| :: copy[j] > 0 && origin[j] + copy[j] <= dims[j]
  }

  /** A row of the chunk is one contiguous run of the full array. */
  lemma RowMembership(dims: seq<nat>, origin: seq<nat>, copy: seq<nat>, pre: seq<nat>, q: nat)
    requires InChunk(dims, origin, copy) && |pre| == |dims| - 1
    requires forall j | 0 <= j < |pre| :: pre[j] < copy[j]
    requires q < Prod(dims)
    ensures var n, s, x := |pre|, Linear(Add(origin, pre + [0]), dims), Unrank(q, dims);
      && (s <= q < s + copy[n] <==> InRegion(x, origin, copy, pre))
      && (InRegion(x, origin, copy, pre) ==> q - s == x[n] - origin[n])
  {
    hide Linear, Prod, Unrank;
    var n, y, x := |pre|, Add(origin, pre + [0]), Unrank(q, dims);
    var s := Linear(y, dims);
    LinearLast(y, dims);
    if InRegion(x, origin, copy, pre) {
      LinearLast(x, dims);
      assert x[..n] == y[..n];
    }
    if s <= q < s + copy[n] {
      var x' := y[..n] + [origin[n] + (q - s)];
      LinearLast(x', dims);
      assert x'[..n] == y[..n];
      LinearInjective(x', x, dims);
    }
  }

  lemma RowInside(dims: seq<nat>, origin: seq<nat>, copy: seq<nat>, pre: seq<nat>)
    requires InChunk(dims, origin, copy) && |pre| == |dims| - 1
    requires forall j | 0 <= j < |pre| :: pre[j] < copy[j]
    ensures Linear(Add(origin, pre + [0]), dims) + copy[|pre|] <= Prod(dims)
  {
    var n, y := |pre|, Add(origin, pre + [0]);
    var z := y[..n] + [origin[n] + copy[n] - 1];
    LinearLast(y, dims);
    LinearLast(z, dims);
    assert z[..n] == y[..n];
    LinearBound(z, dims);
  }

  /** The greatest chunk index with prefix `pre`. */
  function Top(pre: seq<nat>, copy: seq<nat>): (c: seq<nat>)
    requires |pre| <= |copy| && forall i | 0 <= i < |copy| :: copy[i] > 0
    ensures |c| == |copy|
    ensures forall i | 0 <= i < |c| :: c[i] == if i < |pre| then pre[i] else copy[i] - 1
  {
    pre + Last(copy[|pre|..])
  }

  predicate Fits(c: seq<nat>, chunk: seq<nat>, elem: nat, length: nat)
    requires |c| == |chunk|
  {
    (Linear(c, chunk) + 1) * elem <= length
  }

  lemma FitsBelow(a: seq<nat>, b: seq<nat>, chunk: seq<nat>, elem: nat, length: nat)
    requires |a| == |b| == |chunk| && forall i | 0 <= i < |a| :: a[i] <= b[i]
    requires Fits(b, chunk, elem, length)
    ensures Fits(a, chunk, elem, length)
  {
    LinearMono(a, b, chunk);
    MulMono(Linear(a, chunk) + 1, Linear(b, chunk) + 1, elem);
  }

  /** The byte a chunk at `origin` supplies for byte `k` of the full array. */
  function Supplied(g: Grid, data: seq<byte>, origin: seq<nat>, k: nat): byte
    requires g.Valid() && |origin| == |g.dims| && k < g.Size()
  {
    ByteAt(data, Linear(Rel(g.ElementOf(k), origin), g.chunk) * g.elem + k % g.elem)
  }

  /** Element offsets of a row's first element, in the chunk and in the full array. */
  method RowOffsets(g: Grid, indices: array<nat>, chunkStrides: seq<nat>, dataStrides: seq<nat>, base: nat,
                    ghost origin: seq<nat>, ghost pre: seq<nat>)
    returns (chunkElem: nat, dataElem: nat)
    requires g.Valid() && indices[..] == pre + [0] && |pre| + 1 == |g.dims| == |origin|
    requires chunkStrides == Strides(g.chunk) && dataStrides == Strides(g.dims)
    requires base == Linear(origin, g.dims)
    ensures chunkElem == Linear(pre + [0], g.chunk)
    ensures dataElem == Linear(Add(origin, pre + [0]), g.dims)
  {
    hide Linear, Prod, Dot;
    chunkElem := DotPrefix(indices, chunkStrides, |g.dims|);
    dataElem := DotPrefix(indices, dataStrides, |g.dims| - 1);
    DotStrides(pre + [0], g.chunk);
    DotStrides(pre + [0], g.dims);
    LinearAdd(origin, pre + [0], g.dims);
    dataElem := base + dataElem;
  }

  method CopyRow(g: Grid, data: seq<byte>, full: array<byte>, indices: array<nat>, copy: seq<nat>,
                 chunkStrides: seq<nat>, dataStrides: seq<nat>, base: nat,
                 ghost origin: seq<nat>, ghost pre: seq<nat>)
    returns (ok: bool)
    requires g.Valid() && full.Length == g.Size() && InChunk(g.dims, origin, copy)
    requires |pre| + 1 == |g.dims| && indices[..] == pre + [0]
    requires forall j | 0 <= j < |pre| :: pre[j] < copy[j]
    requires chunkStrides == Strides(g.chunk) && dataStrides == Strides(g.dims)
    requires base == Linear(origin, g.dims)
    modifies full
    ensures ok <==> Fits(Top(pre, copy), g.chunk, g.elem, |data|)
    ensures ok ==> forall k | 0 <= k < full.Length ::
      full[k] == if InRegion(g.ElementOf(k), origin, copy, pre) then Supplied(g, data, origin, k) else old(full[k])
  {
    hide Linear, Prod, Unrank, Strides;
    var n := |g.dims| - 1;
    var chunkElem, dataElem := RowOffsets(g, indices, chunkStrides, dataStrides, base, origin, pre);
    var chunkOffset, dataOffset, numBytes := chunkElem * g.elem, dataElem * g.elem, copy[n] * g.elem;
    RowBounds(g, |data|, origin, copy, pre);
    if chunkOffset + numBytes > |data| {
      return false;
    }
    // The destination bound of the source holds by RowBounds.
    RowBytes(g, data, origin, copy, pre);
    hide Supplied, InRegion, Grid.ElementOf, Fits, Grid.Size;
    Blit(full, dataOffset, data[chunkOffset..chunkOffset + numBytes]);
    ok := true;
  }

  lemma RowBounds(g: Grid, length: nat, origin: seq<nat>, copy: seq<nat>, pre: seq<nat>)
    requires g.Valid() && InChunk(g.dims, origin, copy) && |pre| + 1 == |g.dims|
    requires forall j | 0 <= j < |pre| :: pre[j] < copy[j]
    ensures Linear(Add(origin, pre + [0]), g.dims) * g.elem + copy[|pre|] * g.elem <= g.Size()
    ensures Linear(pre + [0], g.chunk) * g.elem + copy[|pre|] * g.elem <= length <==>
            Fits(Top(pre, copy), g.chunk, g.elem, length)
  {
    hide Linear, Prod;
    var m, s, c := copy[|pre|], Linear(Add(origin, pre + [0]), g.dims), Linear(pre + [0], g.chunk);
    RowInside(g.dims, origin, copy, pre);
    MulMono(s + m, Prod(g.dims), g.elem);
    assert (s + m) * g.elem == s * g.elem + m * g.elem;
    LinearLast(Top(pre, copy), g.chunk);
    assert Top(pre, copy)[..|pre|] == pre;
    assert (c + m) * g.elem == c * g.elem + m * g.elem;
  }

  lemma RowBytes(g: Grid, data: seq<byte>, origin: seq<nat>, copy: seq<nat>, pre: seq<nat>)
    requires g.Valid() && InChunk(g.dims, origin, copy) && |pre| + 1 == |g.dims|
    requires forall j | 0 <= j < |pre| :: pre[j] < copy[j]
    requires Linear(pre + [0], g.chunk) * g.elem + copy[|pre|] * g.elem <= |data|
    ensures var s, c, m := Linear(Add(origin, pre + [0]), g.dims) * g.elem, Linear(pre + [0], g.chunk) * g.elem, copy[|pre|] * g.elem;
      forall k | 0 <= k < g.Size() ::
        && (s <= k < s + m <==> InRegion(g.ElementOf(k), origin, copy, pre))
        && (s <= k < s + m ==> data[c + (k - s)] == Supplied(g, data, origin, k))
  {
    hide Linear, Prod, Unrank, InRegion, Supplied, Grid.ElementOf, Grid.Size;
    var s, c, m := Linear(Add(origin, pre + [0]), g.dims) * g.elem, Linear(pre + [0], g.chunk) * g.elem, copy[|pre|] * g.elem;
    forall k | 0 <= k < g.Size()
      ensures s <= k < s + m <==> InRegion(g.ElementOf(k), origin, copy, pre)
      ensures s <= k < s + m ==> data[c + (k - s)] == Supplied(g, data, origin, k)
    {
      RowByte(g, data, origin, copy, pre, k);
    }
  }

  lemma RowByte(g: Grid, data: seq<byte>, origin: seq<nat>, copy: seq<nat>, pre: seq<nat>, k: nat)
    requires g.Valid() && InChunk(g.dims, origin, copy) && |pre| == |g.dims| - 1 && k < g.Size()
    requires forall j | 0 <= j < |pre| :: pre[j] < copy[j]
    ensures var s, c, n := Linear(Add(origin, pre + [0]), g.dims) * g.elem, Linear(pre + [0], g.chunk) * g.elem, |pre|;
      && (s <= k < s + copy[n] * g.elem <==> InRegion(g.ElementOf(k), origin, copy, pre))
      && (s <= k && c + (k - s) < |data| && InRegion(g.ElementOf(k), origin, copy, pre) ==>
            data[c + (k - s)] == Supplied(g, data, origin, k))
  {
    hide Linear, Prod, Unrank;
    var n, x, e := |pre|, g.ElementOf(k), g.elem;
    var s, c := Linear(Add(origin, pre + [0]), g.dims), Linear(pre + [0], g.chunk);
    LinearInjective(x, Unrank(k / e, g.dims), g.dims);
    RowMembership(g.dims, origin, copy, pre, k / e);
    ByteRange(k, s, copy[n], e);
    assert (s + copy[n]) * e == s * e + copy[n] * e;
    if InRegion(x, origin, copy, pre) {
      var r := Rel(x, origin);
      LinearLast(r, g.chunk);
      assert r[..n] == pre;
      var t := x[n] - origin[n];
      assert (c + t) * e == c * e + t * e;
    }
  }

  // ---- the recursion over dimensions ----

  /** `x` lies in the chunk box, has prefix `pre`, and its next index is below `t`. */
  ghost predicate InPart(x: seq<nat>, origin: seq<nat>, copy: seq<nat>, pre: seq<nat>, t: nat)
    requires |x| == |origin| == |copy| > |pre|
  {
    InRegion(x, origin, copy, pre) && x[|pre|] < origin[|pre|] + t
  }

  lemma PartStep(x: seq<nat>, origin: seq<nat>, copy: seq<nat>, pre: seq<nat>, t: nat)
    requires |x| == |origin| == |copy| > |pre| && t < copy[|pre|]
    ensures InPart(x, origin, copy, pre, t + 1) <==>
            InPart(x, origin, copy, pre, t) || InRegion(x, origin, copy, pre + [t])
  {
    var n := |pre|;
    if InRegion(x, origin, copy, pre + [t]) {
      assert x[n] == origin[n] + (pre + [t])[n];
      forall j | 0 <= j < n ensures x[j] == origin[j] + pre[j] {
        assert (pre + [t])[j] == pre[j];
      }
    }
  }

  method CopyRecursive(g: Grid, data: seq<byte>, full: array<byte>, indices: array<nat>, dim: nat, copy: seq<nat>,
                       chunkStrides: seq<nat>, dataStrides: seq<nat>, base: nat,
                       ghost origin: seq<nat>, ghost pre: seq<nat>)
    returns (ok: bool)
    requires g.Valid() && full.Length == g.Size() && InChunk(g.dims, origin, copy)
    requires dim == |pre| < |g.dims| == indices.Length
    requires indices[..dim] == pre && indices[indices.Length - 1] == 0
    requires forall j | 0 <= j < |pre| :: pre[j] < copy[j]
    requires chunkStrides == Strides(g.chunk) && dataStrides == Strides(g.dims)
    requires base == Linear(origin, g.dims)
    modifies full, indices
    ensures indices[..dim] == pre && indices[indices.Length - 1] == 0
    ensures ok <==> Fits(Top(pre, copy), g.chunk, g.elem, |data|)
    ensures ok ==> forall k | 0 <= k < full.Length ::
      full[k] == if InRegion(g.ElementOf(k), origin, copy, pre) then Supplied(g, data, origin, k) else old(full[k])
    decreases |g.dims| - dim
  {
    hide Linear, Prod, Unrank, Strides, Supplied, InRegion, Fits, Grid.ElementOf, Grid.Size;
    if dim == indices.Length - 1 {
      assert indices[..] == pre + [0];
      ok := CopyRow(g, data, full, indices, copy, chunkStrides, dataStrides, base, origin, pre);
      return;
    }
    var t := 0;
    indices[dim] := 0;
    PartIsRegion(g, origin, copy, pre);
    while indices[dim] < copy[dim]
      invariant t == indices[dim] <= copy[dim]
      invariant indices[..dim] == pre && indices[indices.Length - 1] == 0
      invariant t > 0 ==> Fits(Top(pre + [t - 1], copy), g.chunk, g.elem, |data|)
      invariant forall k | 0 <= k < full.Length ::
        full[k] == if InPart(g.ElementOf(k), origin, copy, pre, t) then Supplied(g, data, origin, k) else old(full[k])
      decreases copy[dim] - indices[dim]
    {
      assert indices[..dim + 1] == pre + [t];
      ok := CopyRecursive(g, data, full, indices, dim + 1, copy, chunkStrides, dataStrides, base, origin, pre + [t]);
      if !ok {
        if Fits(Top(pre, copy), g.chunk, g.elem, |data|) {
          FitsBelow(Top(pre + [t], copy), Top(pre, copy), g.chunk, g.elem, |data|);
        }
        return;
      }
      forall k | 0 <= k < full.Length
        ensures InPart(g.ElementOf(k), origin, copy, pre, t + 1) <==>
                InPart(g.ElementOf(k), origin, copy, pre, t) || InRegion(g.ElementOf(k), origin, copy, pre + [t])
      {
        PartStep(g.ElementOf(k), origin, copy, pre, t);
      }
      assert indices[dim] == (pre + [t])[dim];
      indices[dim] := indices[dim] + 1;
      t := t + 1;
    }
    assert Top(pre + [t - 1], copy) == Top(pre, copy);
    ok := true;
  }

  lemma PartIsRegion(g: Grid, origin: seq<nat>, copy: seq<nat>, pre: seq<nat>)
    requires g.Valid() && |origin| == |copy| == |g.dims| > |pre|
    ensures forall k | 0 <= k < g.Size() ::
      && !InPart(g.ElementOf(k), origin, copy, pre, 0)
      && (InPart(g.ElementOf(k), origin, copy, pre, copy[|pre|]) <==> InRegion(g.ElementOf(k), origin, copy, pre))
  {
    hide Linear, Prod, Unrank;
  }

  method ClipToDataset(g: Grid, coord: seq<nat>) returns (copyDims: array<nat>)
    requires g.Valid() && g.InGrid(coord)
    ensures fresh(copyDims) && copyDims[..] == g.CopyDims(coord)
  {
    var n := |g.dims|;
    copyDims := new nat[n];
    for i := 0 to n
      invariant forall j | 0 <= j < i :: copyDims[j] == g.CopyDims(coord)[j]
    {
      var startPos := coord[i] * g.chunk[i];
      var maxCopy := g.chunk[i];
      if startPos + maxCopy > g.dims[i] {
        maxCopy := g.dims[i] - startPos;
      }
      copyDims[i] := maxCopy;
    }
  }

  method BaseOffset(g: Grid, coord: seq<nat>, dataStrides: seq<nat>) returns (base: nat)
    requires g.Valid() && g.InGrid(coord) && dataStrides == Strides(g.dims)
    ensures base == Linear(g.Origin(coord), g.dims)
  {
    hide Linear, Prod, Strides;
    ghost var origin := g.Origin(coord);
    base := 0;
    var i := 0;
    assert origin[0..] == origin && dataStrides[0..] == dataStrides;
    while i < |g.dims|
      invariant i <= |g.dims|
      invariant base + Dot(origin[i..], dataStrides[i..]) == Dot(origin, dataStrides)
    {
      assert origin[i..][1..] == origin[i + 1..] && dataStrides[i..][1..] == dataStrides[i + 1..];
      base := base + coord[i] * g.chunk[i] * dataStrides[i];
      i := i + 1;
    }
    DotStrides(origin, g.dims);
  }

  method CopyNDChunk(g: Grid, ch: Chunk, full: array<byte>) returns (ok: bool)
    requires g.Valid() && g.InGrid(ch.coord) && full.Length == g.Size()
    modifies full
    ensures ok <==> Readable(g, ch)
    ensures ok ==> forall k | 0 <= k < full.Length ::
      full[k] == if g.Owner(g.ElementOf(k)) == ch.coord
                 then ByteAt(ch.data, Linear(g.Within(g.ElementOf(k)), g.chunk) * g.elem + k % g.elem)
                 else old(full[k])
  {
    hide Linear, Prod, Unrank, Strides, InRegion, Grid.ElementOf, Grid.Size;
    var chunkStrides := ComputeStrides(g.chunk);
    var dataStrides := ComputeStrides(g.dims);
    var copyDims := ClipToDataset(g, ch.coord);
    var base := BaseOffset(g, ch.coord, dataStrides[..]);
    var indices := new nat[|g.dims|](_ => 0);
    ghost var origin, copy := g.Origin(ch.coord), g.CopyDims(ch.coord);
    ok := CopyRecursive(g, ch.data, full, indices, 0, copyDims[..], chunkStrides[..], dataStrides[..], base, origin, []);
    assert Top([], copy) == Last(copy) by { assert copy[0..] == copy; }
    forall k | 0 <= k < full.Length
      ensures InRegion(g.ElementOf(k), origin, copy, []) <==> g.Owner(g.ElementOf(k)) == ch.coord
      ensures g.Owner(g.ElementOf(k)) == ch.coord ==> Rel(g.ElementOf(k), origin) == g.Within(g.ElementOf(k))
    {
      RegionIsOwner(g, ch.coord, g.ElementOf(k));
    }
  }

  const MAX_CHUNK_SIZE: nat := 1024 * 1024 * 1024
  const MAX_DATASET_SIZE: nat := 1024 * MAX_CHUNK_SIZE

  /** ValidateBufferSize. */
  predicate SizeOk(size: nat, max: nat) { 0 < size <= max }

  /** A chunk the reader does not refuse for its size, and that reaches far enough. */
  ghost predicate Accepted(g: Grid, ch: Chunk)
    requires g.Valid() && g.InGrid(ch.coord)
  {
    0 < |ch.data| <= 0x4000_0000 && Readable(g, ch)
  }

  datatype ReadResult = Ok(raw: seq<byte>) | Failed

  /** The whole read: an error exactly when the dataset or some chunk has a size that is refused, or some chunk is too
      short; otherwise the assembled array. */
  method ReadChunkedData(g: Grid, chunks: seq<Chunk>) returns (r: ReadResult)
    requires g.Valid() && forall ch | ch in chunks :: g.InGrid(ch.coord)
    ensures r == if 0 < g.Size() <= 0x100_0000_0000 && forall ch | ch in chunks :: Accepted(g, ch)
                 then Ok(Assembled(g, Index(chunks))) else Failed
  {
    hide Linear, Prod, Unrank, Grid.ElementOf, Readable, Grid.Size;
    if !SizeOk(g.Size(), MAX_DATASET_SIZE) {
      return Failed;
    }
    var full := new byte[g.Size()](_ => 0);
    var n := 0;
    while n < |chunks|
      invariant n <= |chunks|
      invariant forall ch | ch in chunks[..n] :: Accepted(g, ch)
      invariant forall k | 0 <= k < full.Length ::
        full[k] == ElementByte(g, Index(chunks[..n]), g.ElementOf(k), k % g.elem)
    {
      assert chunks[n] in chunks;
      if !SizeOk(|chunks[n].data|, MAX_CHUNK_SIZE) {
        return Failed;
      }
      var ok := CopyNDChunk(g, chunks[n], full);
      if !ok {
        return Failed;
      }
      assert chunks[..n + 1][..n] == chunks[..n];
      n := n + 1;
    }
    assert chunks[..n] == chunks;
    assert full[..] == Assembled(g, Index(chunks));
    r := Ok(full[..]);
  }

  // ---- order of visits ----

  ghost predicate DistinctCoords(chunks: seq<Chunk>)
  {
    forall i, j | 0 <= i < j < |chunks| :: chunks[i].coord != chunks[j].coord
  }

  lemma {:induction false} IndexMember(chunks: seq<Chunk>, c: seq<nat>)
    requires c in Index(chunks)
    ensures Chunk(c, Index(chunks)[c]) in chunks
  {
    var n := |chunks| - 1;
    if chunks[n].coord != c {
      IndexMember(chunks[..n], c);
    }
  }

  lemma {:induction false} IndexHas(chunks: seq<Chunk>, ch: Chunk)
    requires ch in chunks
    ensures ch.coord in Index(chunks)
  {
    var n := |chunks| - 1;
    if chunks[n] != ch {
      IndexHas(chunks[..n], ch);
    }
  }

  lemma {:induction false} IndexLookup(chunks: seq<Chunk>, c: seq<nat>)
    requires DistinctCoords(chunks)
    ensures c in Index(chunks) <==> exists ch :: ch in chunks && ch.coord == c
    ensures forall ch | ch in chunks && ch.coord == c :: c in Index(chunks) && Index(chunks)[c] == ch.data
  {
    if chunks != [] {
      var n := |chunks| - 1;
      IndexLookup(chunks[..n], c);
      assert chunks == chunks[..n] + [chunks[n]];
    }
  }

  /** Two visiting orders of the same distinct chunks assemble the same array. */
  lemma OrderDoesNotMatter(g: Grid, a: seq<Chunk>, b: seq<Chunk>)
    requires g.Valid() && DistinctCoords(a) && DistinctCoords(b) && multiset(a) == multiset(b)
    ensures Index(a) == Index(b) && Assembled(g, Index(a)) == Assembled(g, Index(b))
  {
    forall ch ensures ch in a <==> ch in b {
      assert ch in a <==> ch in multiset(a);
      assert ch in b <==> ch in multiset(b);
    }
    forall c
      ensures c in Index(a) <==> c in Index(b)
      ensures c in Index(a) ==> Index(a)[c] == Index(b)[c]
    {
      IndexLookup(a, c);
      IndexLookup(b, c);
    }
  }

  /** Chunks with distinct coordinates write disjoint parts of the array. */
  lemma ChunksDisjoint(g: Grid, c: seq<nat>, d: seq<nat>, x: seq<nat>)
    requires g.Valid() && g.InGrid(c) && g.InGrid(d) && c != d && InBox(x, g.dims)
    ensures !(InRegion(x, g.Origin(c), g.CopyDims(c), []) && InRegion(x, g.Origin(d), g.CopyDims(d), []))
  {
    RegionIsOwner(g, c, x);
    RegionIsOwner(g, d, x);
  }
}
