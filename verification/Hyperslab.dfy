/** Strided, blocked N-dimensional selections (dataset_read_hyperslab.go).

    Two readers are modelled: the reference reader slices a whole row-major array and
    fills its output with a running counter; the chunked reader visits the chunks that
    overlap the selection and computes every element's output slot from its coordinate. */
module Hyperslab {
  import opened Arith
  import opened Bytes
  import opened MixedRadix
  import opened RowMajor
  import opened ChunkAssembly

  datatype Selection = Selection(start: seq<nat>, count: seq<nat>, stride: seq<nat>, block: seq<nat>) {

    /** What the public entry points check in each dimension before any read: no zero parameter, nothing out of bounds.
        Their cap on the product of the counts is not needed here. */
    ghost predicate Valid(dims: seq<nat>) {
      && |start| == |count| == |stride| == |block| == |dims|
      && forall i | 0 <= i < |dims| ::
        && count[i] > 0 && stride[i] > 0 && block[i] > 0
        && start[i] + (count[i] - 1) * stride[i] + block[i] <= dims[i]
    }

    ghost predicate Shaped(n: nat) {
      && |start| == |count| == |stride| == |block| == n
      && forall i | 0 <= i < n :: count[i] > 0 && stride[i] > 0 && block[i] > 0
    }

    /** Output extent of each dimension. */
    function Extents(): (e: seq<nat>)
      requires |count| == |block|
      ensures |e| == |count| && forall i | 0 <= i < |e| :: e[i] == count[i] * block[i]
    {
      seq(|count|, i requires 0 <= i < |count| => count[i] * block[i])
    }

    /** The dataset coordinate at output position `p`. */
    function CoordAt(p: seq<nat>): (x: seq<nat>)
      requires Shaped(|p|)
      ensures |x| == |p| && forall i | 0 <= i < |p| :: x[i] == DimCoord(start[i], stride[i], block[i], p[i])
    {
      seq(|p|, i requires 0 <= i < |p| => DimCoord(start[i], stride[i], block[i], p[i]))
    }

    ghost predicate Selects(x: seq<nat>)
      requires Shaped(|x|)
    {
      exists p :: InBox(p, Extents()) && CoordAt(p) == x
    }

    /** The per-dimension output position the chunked reader derives from a coordinate. */
    function PosOf(x: seq<nat>): (p: seq<nat>)
      requires Shaped(|x|)
      ensures |p| == |x| && forall i | 0 <= i < |x| :: p[i] == DimPos(x[i], start[i], stride[i], block[i])
    {
      seq(|x|, i requires 0 <= i < |x| => DimPos(x[i], start[i], stride[i], block[i]))
    }

    function OutputIndex(x: seq<nat>): nat
      requires Shaped(|x|)
    {
      Linear(PosOf(x), Extents())
    }

    /** The selections whose output slots can be recovered from coordinates. */
    predicate Supported()
      requires |count| == |stride| == |block|
    {
      forall i | 0 <= i < |count| :: block[i] <= stride[i] || (count[i] == 1 && stride[i] == 1)
    }
  }

  /** The coordinate at position `v` of one dimension. */
  function DimCoord(start: nat, stride: nat, block: nat, v: nat): nat
    requires block > 0
  {
    start + (v / block) * stride + v % block
  }

  function DimPos(x: nat, start: nat, stride: nat, block: nat): nat
    requires stride > 0
  {
    var rel := if start <= x then x - start else 0;
    if stride <= 1 then rel else (rel / stride) * block + rel % stride
  }

  lemma DimPosInverse(start: nat, count: nat, stride: nat, block: nat, p: nat)
    requires count > 0 && stride > 0 && block > 0 && p < count * block
    requires block <= stride || (count == 1 && stride == 1)
    ensures DimPos(DimCoord(start, stride, block, p), start, stride, block) == p
  {
    hide DimPos, DimCoord;
    if stride > 1 {
      PosStrided(start, stride, block, p);
    } else if count == 1 {
      PosOneBlock(start, block, p);
    } else {
      PosOneByOne(start, p);
    }
  }

  /** Beyond stride 1, quotient and remainder of the relative coordinate give the position back. */
  lemma PosStrided(start: nat, stride: nat, block: nat, p: nat)
    requires 0 < block <= stride && stride > 1
    ensures DimPos(DimCoord(start, stride, block, p), start, stride, block) == p
  {
    var q, r := p / block, p % block;
    assert p == q * block + r;
    DivUnique(q * stride + r, q, r, stride);
  }

  lemma PosOneBlock(start: nat, block: nat, p: nat)
    requires p < block
    ensures DimPos(DimCoord(start, 1, block, p), start, 1, block) == p
  {
    DivUnique(p, 0, p, block);
  }

  lemma PosOneByOne(start: nat, p: nat)
    ensures DimPos(DimCoord(start, 1, 1, p), start, 1, 1) == p
  {
    DivUnique(p, p, 0, 1);
  }

  /** The output index inverts the enumeration of positions: it is a bijection from the
      selected coordinates onto the output slots. */
  lemma OutputIndexBijective(sel: Selection, p: seq<nat>)
    requires sel.Shaped(|p|) && sel.Supported() && InBox(p, sel.Extents())
    ensures sel.PosOf(sel.CoordAt(p)) == p
    ensures sel.OutputIndex(sel.CoordAt(p)) == Linear(p, sel.Extents()) < Prod(sel.Extents())
  {
    hide Linear, Prod, DimPos, DimCoord;
    forall i | 0 <= i < |p| ensures sel.PosOf(sel.CoordAt(p))[i] == p[i] {
      DimPosInverse(sel.start[i], sel.count[i], sel.stride[i], sel.block[i], p[i]);
    }
    LinearBound(p, sel.Extents());
  }

  lemma DimInBounds(start: nat, count: nat, stride: nat, block: nat, v: nat)
    requires v < count * block
    ensures block > 0 && DimCoord(start, stride, block, v) < start + (count - 1) * stride + block
  {
    DivBelow(v, count, block);
    MulMono(v / block, count - 1, stride);
  }

  lemma CoordInBounds(sel: Selection, dims: seq<nat>, p: seq<nat>)
    requires sel.Valid(dims) && InBox(p, sel.Extents())
    ensures InBox(sel.CoordAt(p), dims)
  {
    hide DimPos, Linear, Prod, DimCoord;
    forall i | 0 <= i < |p| ensures sel.CoordAt(p)[i] < dims[i] {
      DimInBounds(sel.start[i], sel.count[i], sel.stride[i], sel.block[i], p[i]);
    }
  }

  function SlicedByte(raw: seq<byte>, dims: seq<nat>, sel: Selection, elem: nat, k: nat): byte
    requires sel.Shaped(|dims|) && elem > 0 && k < Prod(sel.Extents()) * elem
  {
    ByteAt(raw, Linear(sel.CoordAt(SlotOf(sel.Extents(), elem, k)), dims) * elem + k % elem)
  }

  /** The selection applied to a whole row-major array. */
  function Sliced(raw: seq<byte>, dims: seq<nat>, sel: Selection, elem: nat): (out: seq<byte>)
    requires sel.Shaped(|dims|) && elem > 0
    ensures |out| == Prod(sel.Extents()) * elem
    ensures forall k | 0 <= k < |out| :: out[k] == SlicedByte(raw, dims, sel, elem, k)
  {
    seq(Prod(sel.Extents()) * elem, k requires 0 <= k < Prod(sel.Extents()) * elem => SlicedByte(raw, dims, sel, elem, k))
  }

  /** The selection applied directly to a chunk store. */
  function Selected(g: Grid, store: map<seq<nat>, seq<byte>>, sel: Selection): (out: seq<byte>)
    requires g.Valid() && sel.Shaped(|g.dims|)
    ensures |out| == Prod(sel.Extents()) * g.elem
    ensures forall k | 0 <= k < |out| ::
      out[k] == ElementByte(g, store, sel.CoordAt(SlotOf(sel.Extents(), g.elem, k)), k % g.elem)
  {
    seq(Prod(sel.Extents()) * g.elem, k requires 0 <= k < Prod(sel.Extents()) * g.elem =>
      ElementByte(g, store, sel.CoordAt(SlotOf(sel.Extents(), g.elem, k)), k % g.elem))
  }

  /** Slicing the assembled array is selecting from the chunks: every rank, shape, chunking and selection. */
  lemma SlicedAssembledIsSelected(g: Grid, store: map<seq<nat>, seq<byte>>, sel: Selection)
    requires g.Valid() && sel.Valid(g.dims)
    ensures Sliced(Assembled(g, store), g.dims, sel, g.elem) == Selected(g, store, sel)
  {
    hide Linear, Prod, Unrank, SlotOf, Grid.ElementOf, ElementByte, Grid.Size;
    var raw := Assembled(g, store);
    forall k | 0 <= k < Prod(sel.Extents()) * g.elem
      ensures Sliced(raw, g.dims, sel, g.elem)[k] == Selected(g, store, sel)[k]
    {
      SelectedByte(g, store, sel, k);
    }
  }

  lemma SelectedByte(g: Grid, store: map<seq<nat>, seq<byte>>, sel: Selection, k: nat)
    requires g.Valid() && sel.Valid(g.dims) && k < Prod(sel.Extents()) * g.elem
    ensures var x := sel.CoordAt(SlotOf(sel.Extents(), g.elem, k));
      ByteAt(Assembled(g, store), Linear(x, g.dims) * g.elem + k % g.elem) == ElementByte(g, store, x, k % g.elem)
  {
    hide Linear, Prod, Unrank, SlotOf, ElementByte;
    var x, b := sel.CoordAt(SlotOf(sel.Extents(), g.elem, k)), k % g.elem;
    CoordInBounds(sel, g.dims, SlotOf(sel.Extents(), g.elem, k));
    ElementStart(g, x, b);
  }

  lemma ElementStart(g: Grid, x: seq<nat>, b: nat)
    requires g.Valid() && InBox(x, g.dims) && b < g.elem
    ensures var k := Linear(x, g.dims) * g.elem + b;
      k < g.Size() && g.ElementOf(k) == x && k % g.elem == b
  {
    hide Linear, Prod, Unrank;
    var k := Linear(x, g.dims) * g.elem + b;
    LinearBound(x, g.dims);
    DivUnique(k, Linear(x, g.dims), b, g.elem);
    MulMono(Linear(x, g.dims), Prod(g.dims), g.elem);
    LinearInjective(g.ElementOf(k), x, g.dims);
  }

  // ---- positions along one dimension, and output bases of prefixes ----

  lemma DimCoordAt(start: nat, stride: nat, block: nat, c: nat, b: nat)
    requires b < block
    ensures DimCoord(start, stride, block, c * block + b) == start + c * stride + b
  {
    DivUnique(c * block + b, c, b, block);
  }

  lemma DimCoordMono(start: nat, count: nat, stride: nat, block: nat, t: nat, v: nat)
    requires block > 0 && t <= v < count * block
    requires block <= stride || (count == 1 && stride == 1)
    ensures DimCoord(start, stride, block, t) <= DimCoord(start, stride, block, v)
  {
    var q, r, q', r' := t / block, t % block, v / block, v % block;
    assert t == q * block + r && v == q' * block + r';
    DivBelow(v, count, block);
    if q < q' {
      MulMono(q, q', stride);
    } else if q' < q {
      MulMono(q', q, block);
    }
  }

  // ---- accumulator loops ----

  lemma LinearNone()
    ensures Linear([], []) == 0 && Prod([]) == 1
  {
  }

  lemma ProdCons(d: seq<nat>)
    requires d != []
    ensures Prod(d) == Prod(d[1..]) * d[0]
  {
    Commute(d[0], Prod(d[1..]));
  }

  lemma Commute(a: nat, b: nat)
    ensures a * b == b * a
  {
  }

  method SelectionOutputIndex(coords: seq<nat>, sel: Selection) returns (idx: nat)
    requires sel.Shaped(|coords|) && forall i | 0 <= i < |coords| :: sel.start[i] <= coords[i]
    ensures idx == sel.OutputIndex(coords)
  {
    hide Linear, Prod;
    LinearNone();
    idx := 0;
    var stride := 1;
    var i := |coords|;
    ghost var pos, ext := sel.PosOf(coords), sel.Extents();
    assert pos[i..] == [] && ext[i..] == [];
    while i > 0
      invariant 0 <= i <= |coords|
      invariant idx == Linear(pos[i..], ext[i..]) && stride == Prod(ext[i..])
    {
      i := i - 1;
      assert pos[i..] == [pos[i]] + pos[i + 1..] && ext[i..][1..] == ext[i + 1..];
      LinearCons(pos[i], pos[i + 1..], ext[i..]);
      ProdCons(ext[i..]);
      var rel := coords[i] - sel.start[i];
      var p := rel;
      if sel.stride[i] > 1 {
        p := (rel / sel.stride[i]) * sel.block[i] + rel % sel.stride[i];
      }
      idx := idx + p * stride;
      stride := stride * (sel.count[i] * sel.block[i]);
    }
  }

  // ---- the reference reader ----

  ghost predicate PrefixCoords(sel: Selection, pre: seq<nat>, coords: seq<nat>)
    requires sel.Shaped(|coords|)
  {
    && |pre| <= |coords|
    && forall i | 0 <= i < |pre| ::
      pre[i] < sel.count[i] * sel.block[i] && coords[i] == DimCoord(sel.start[i], sel.stride[i], sel.block[i], pre[i])
  }

  lemma PrefixIsCoordAt(sel: Selection, p: seq<nat>, coords: seq<nat>)
    requires |p| == |coords| && sel.Shaped(|coords|) && PrefixCoords(sel, p, coords)
    ensures InBox(p, sel.Extents()) && sel.CoordAt(p) == coords
  {
  }

  method CopyElement(raw: seq<byte>, out: array<byte>, dims: seq<nat>, sel: Selection, coords: seq<nat>,
                     elem: nat, outputIdx: nat, ghost p: seq<nat>)
    returns (next: nat)
    requires sel.Valid(dims) && elem > 0 && |p| == |coords| == |dims| && PrefixCoords(sel, p, coords)
    requires out.Length == Prod(sel.Extents()) * elem && outputIdx <= Linear(p, sel.Extents())
    modifies out
    ensures outputIdx <= next <= outputIdx + 1
    ensures |raw| >= Prod(dims) * elem ==> next == outputIdx + 1
    ensures |raw| >= Prod(dims) * elem && outputIdx == Linear(p, sel.Extents()) ==> forall k | 0 <= k < out.Length ::
      out[k] == if SlotOf(sel.Extents(), elem, k) == p then SlicedByte(raw, dims, sel, elem, k) else old(out[k])
  {
    hide Linear, Prod, Unrank, SlotOf, DimCoord;
    PrefixIsCoordAt(sel, p, coords);
    CoordInBounds(sel, dims, p);
    var offset := LinearOffset(coords, dims);
    var byteOffset := offset * elem;
    assert Linear(coords, dims) * elem + elem <= Prod(dims) * elem by {
      LinearBound(coords, dims);
      MulMono(Linear(coords, dims), Prod(dims), elem);
    }
    if byteOffset + elem > |raw| {
      return outputIdx;
    }
    var outputOffset := outputIdx * elem;
    assert outputOffset + elem <= out.Length by {
      LinearBound(p, sel.Extents());
      MulMono(outputIdx, Prod(sel.Extents()), elem);
    }
    forall k | 0 <= k < out.Length
      ensures Linear(p, sel.Extents()) * elem <= k < Linear(p, sel.Extents()) * elem + elem <==> SlotOf(sel.Extents(), elem, k) == p
      ensures SlotOf(sel.Extents(), elem, k) == p ==> k - Linear(p, sel.Extents()) * elem == k % elem
    {
      ElementRun(sel.Extents(), elem, p, k);
    }
    Blit(out, outputOffset, raw[byteOffset..byteOffset + elem]);
    next := outputIdx + 1;
  }

  /** The counter-based recursion: with enough raw bytes the counter always equals the
      row-major position of the element being copied. */
  method ExtractRecursive(raw: seq<byte>, out: array<byte>, dims: seq<nat>, sel: Selection, coords: array<nat>,
                          dim: nat, elem: nat, outputIdx: nat, ghost pre: seq<nat>)
    returns (next: nat)
    requires sel.Valid(dims) && elem > 0 && coords.Length == |dims| && dim == |pre| <= |dims|
    requires PrefixCoords(sel, pre, coords[..])
    requires out.Length == Prod(sel.Extents()) * elem
    requires outputIdx <= Base(pre, sel.Extents())
    modifies out, coords
    ensures coords[..dim] == old(coords[..dim])
    ensures outputIdx <= next <= outputIdx + Prod(sel.Extents()[dim..])
    ensures |raw| >= Prod(dims) * elem ==> next == outputIdx + Prod(sel.Extents()[dim..])
    ensures |raw| >= Prod(dims) * elem && outputIdx == Base(pre, sel.Extents()) ==>
      Filled(out[..], old(out[..]), Sliced(raw, dims, sel, elem), Everywhere(out.Length), sel.Extents(), elem, pre)
    decreases |dims| - dim
  {
    hide Linear, Prod, Unrank, SlotOf, SlicedByte, Sliced, DimCoord, Base, Filled, FilledTo, PrefixCoords;
    ghost var ext := sel.Extents();
    if dim == |dims| {
      BaseWhole(pre, ext);
      ProdEmpty();
      assert ext[dim..] == [];
      next := CopyElement(raw, out, dims, sel, coords[..], elem, outputIdx, pre);
      if |raw| >= Prod(dims) * elem && outputIdx == Base(pre, ext) {
        FilledElement(out[..], old(out[..]), Sliced(raw, dims, sel, elem), Everywhere(out.Length), sel.Extents(), elem, pre);
      }
      return;
    }
    ghost var enough := |raw| >= Prod(dims) * elem;
    ghost var exact := enough && outputIdx == Base(pre, ext);
    ghost var rest := Prod(ext[dim + 1..]);
    ghost var before, want, mask := out[..], Sliced(raw, dims, sel, elem), Everywhere(out.Length);
    ghost var t: nat := 0;
    FilledSteps(before, before, before, want, mask, sel.Extents(), elem, pre, 0);
    next := outputIdx;
    var c := 0;
    while c < sel.count[dim]
      invariant c <= sel.count[dim] && t == c * sel.block[dim]
      invariant coords[..dim] == old(coords[..dim])
      invariant outputIdx <= next <= outputIdx + t * rest && (enough ==> next == outputIdx + t * rest)
      invariant exact ==> FilledTo(out[..], before, want, mask, sel.Extents(), elem, pre, t)
    {
      var blockStart := sel.start[dim] + c * sel.stride[dim];
      var b := 0;
      while b < sel.block[dim]
        invariant b <= sel.block[dim] && t == c * sel.block[dim] + b
        invariant coords[..dim] == old(coords[..dim])
        invariant outputIdx <= next <= outputIdx + t * rest && (enough ==> next == outputIdx + t * rest)
        invariant exact ==> FilledTo(out[..], before, want, mask, sel.Extents(), elem, pre, t)
      {
        ghost var mid := out[..];
        coords[dim] := blockStart + b;
        PrefixKept(sel, pre, old(coords[..]), coords[..]);
        StepInDimension(sel, dims, pre, coords[..], c, b);
        BaseStep(pre, t, ext);
        CountedStep(t, rest);
        if coords[dim] < dims[dim] {
          next := ExtractRecursive(raw, out, dims, sel, coords, dim + 1, elem, next, pre + [t]);
        }
        FilledSteps(out[..], mid, before, want, mask, sel.Extents(), elem, pre, t);
        assert coords[..dim] == coords[..dim + 1][..dim];
        t := t + 1;
        b := b + 1;
      }
      assert t == (c + 1) * sel.block[dim];
      c := c + 1;
    }
    BaseStep(pre, t, ext);
    FilledSteps(out[..], out[..], before, want, mask, sel.Extents(), elem, pre, t);
  }

  lemma CountedStep(t: nat, rest: nat)
    ensures (t + 1) * rest == t * rest + rest
  {
  }

  lemma PrefixKept(sel: Selection, pre: seq<nat>, a: seq<nat>, b: seq<nat>)
    requires |a| == |b| >= |pre| && sel.Shaped(|a|) && PrefixCoords(sel, pre, a) && a[..|pre|] == b[..|pre|]
    ensures PrefixCoords(sel, pre, b)
  {
    hide DimCoord;
    forall i | 0 <= i < |pre| ensures a[i] == b[i] {
      assert a[i] == a[..|pre|][i] && b[i] == b[..|pre|][i];
    }
  }

  /** Storing `blockStart + b` extends the coordinate prefix by position `c * block + b`. */
  lemma StepInDimension(sel: Selection, dims: seq<nat>, pre: seq<nat>, coords: seq<nat>, c: nat, b: nat)
    requires sel.Valid(dims) && |pre| < |dims| == |coords| && PrefixCoords(sel, pre, coords)
    requires c < sel.count[|pre|] && b < sel.block[|pre|]
    requires coords[|pre|] == sel.start[|pre|] + c * sel.stride[|pre|] + b
    ensures PrefixCoords(sel, pre + [c * sel.block[|pre|] + b], coords)
    ensures coords[|pre|] < dims[|pre|]
  {
    hide DimCoord;
    var n := |pre|;
    DimCoordAt(sel.start[n], sel.stride[n], sel.block[n], c, b);
    MulMono(c, sel.count[n], sel.block[n]);
    MulMono(c, sel.count[n] - 1, sel.stride[n]);
  }

  /** extractHyperslabFromRawData: with enough raw bytes the output is the slice. */
  method ExtractHyperslab(raw: seq<byte>, dims: seq<nat>, sel: Selection, elem: nat) returns (out: seq<byte>)
    requires sel.Valid(dims) && elem > 0
    ensures |out| == Prod(sel.Extents()) * elem
    ensures |raw| >= Prod(dims) * elem ==> out == Sliced(raw, dims, sel, elem)
  {
    hide Linear, Prod, Unrank, SlotOf, Base;
    var buffer := new byte[Prod(sel.Extents()) * elem](_ => 0);
    var coords := new nat[|dims|](i requires 0 <= i < |dims| => sel.start[i]);
    assert sel.Extents()[0..] == sel.Extents();
    BaseEmpty(sel.Extents());
    var _ := ExtractRecursive(raw, buffer, dims, sel, coords, 0, elem, 0, []);
    out := buffer[..];
  }

  // ---- the chunked reader ----

  /** Output slot `d` is never the slot of a selected coordinate. */
  ghost predicate Dead(sel: Selection, n: nat, d: nat)
    requires sel.Shaped(n)
  {
    forall x: seq<nat> | |x| == n && sel.Selects(x) :: sel.OutputIndex(x) != d
  }

  ghost predicate DeadUntouched(out: seq<byte>, before: seq<byte>, sel: Selection, n: nat, elem: nat)
    requires sel.Shaped(n) && elem > 0 && |out| == |before|
  {
    forall k | 0 <= k < |out| && Dead(sel, n, k / elem) :: out[k] == before[k]
  }

  /** The bytes chunk `ch` supplies to the output, wherever it owns the element. */
  function PortionByte(g: Grid, data: seq<byte>, sel: Selection, k: nat): byte
    requires g.Valid() && sel.Shaped(|g.dims|) && k < Prod(sel.Extents()) * g.elem
  {
    ByteAt(data, Linear(g.Within(sel.CoordAt(SlotOf(sel.Extents(), g.elem, k))), g.chunk) * g.elem + k % g.elem)
  }

  function Portion(g: Grid, data: seq<byte>, sel: Selection): (want: seq<byte>)
    requires g.Valid() && sel.Shaped(|g.dims|)
    ensures |want| == Prod(sel.Extents()) * g.elem
    ensures forall k | 0 <= k < |want| :: want[k] == PortionByte(g, data, sel, k)
  {
    seq(Prod(sel.Extents()) * g.elem, k requires 0 <= k < Prod(sel.Extents()) * g.elem => PortionByte(g, data, sel, k))
  }

  /** The chunk's data reach past the element at `x`. */
  predicate HasElement(g: Grid, data: seq<byte>, x: seq<nat>)
    requires g.Valid() && |x| == |g.dims|
  {
    Linear(g.Within(x), g.chunk) * g.elem + g.elem <= |data|
  }

  /** Where chunk `ch` owns the element and holds it whole. */
  function Owned(g: Grid, ch: Chunk, sel: Selection): (mask: seq<bool>)
    requires g.Valid() && sel.Shaped(|g.dims|)
    ensures |mask| == Prod(sel.Extents()) * g.elem
    ensures forall k | 0 <= k < |mask| ::
      var x := sel.CoordAt(SlotOf(sel.Extents(), g.elem, k)); mask[k] == (g.Owner(x) == ch.coord && HasElement(g, ch.data, x))
  {
    seq(Prod(sel.Extents()) * g.elem, k requires 0 <= k < Prod(sel.Extents()) * g.elem =>
      var x := sel.CoordAt(SlotOf(sel.Extents(), g.elem, k)); g.Owner(x) == ch.coord && HasElement(g, ch.data, x))
  }

  /** Output byte `k` of a chunk-by-chunk read: the owning chunk's byte at the element's place, if the chunk is there and
      its data reach past that element, and 0 otherwise. */
  function HeldByte(g: Grid, store: map<seq<nat>, seq<byte>>, sel: Selection, k: nat): byte
    requires g.Valid() && sel.Shaped(|g.dims|) && k < Prod(sel.Extents()) * g.elem
  {
    var x := sel.CoordAt(SlotOf(sel.Extents(), g.elem, k));
    var at := Linear(g.Within(x), g.chunk) * g.elem;
    if g.Owner(x) in store && at + g.elem <= |store[g.Owner(x)]| then store[g.Owner(x)][at + k % g.elem] else 0
  }

  /** What the chunks hold of the selection. */
  function Found(g: Grid, store: map<seq<nat>, seq<byte>>, sel: Selection): (out: seq<byte>)
    requires g.Valid() && sel.Shaped(|g.dims|)
    ensures |out| == Prod(sel.Extents()) * g.elem
    ensures forall k | 0 <= k < |out| :: out[k] == HeldByte(g, store, sel, k)
  {
    seq(Prod(sel.Extents()) * g.elem, k requires 0 <= k < Prod(sel.Extents()) * g.elem => HeldByte(g, store, sel, k))
  }

  /** When every chunk is long enough to be read, that is the whole selection. */
  lemma FoundWhole(g: Grid, chunks: seq<Chunk>, sel: Selection)
    requires g.Valid() && sel.Valid(g.dims) && forall ch | ch in chunks :: g.InGrid(ch.coord) && Readable(g, ch)
    ensures Found(g, Index(chunks), sel) == Selected(g, Index(chunks), sel)
  {
    hide Linear, Prod, SlotOf, Readable, Index, Found, Selected;
    forall k | 0 <= k < |Found(g, Index(chunks), sel)| ensures Found(g, Index(chunks), sel)[k] == Selected(g, Index(chunks), sel)[k] {
      var x := sel.CoordAt(SlotOf(sel.Extents(), g.elem, k));
      CoordInBounds(sel, g.dims, SlotOf(sel.Extents(), g.elem, k));
      if g.Owner(x) in Index(chunks) {
        IndexMember(chunks, g.Owner(x));
        OwnedFits(g, Chunk(g.Owner(x), Index(chunks)[g.Owner(x)]), x);
      }
    }
  }

  lemma FromStart(start: nat, stride: nat, block: nat, v: nat)
    requires block > 0
    ensures start <= DimCoord(start, stride, block, v)
  {
    MulMono(0, v / block, stride);
  }

  lemma SelectedIsAlive(sel: Selection, p: seq<nat>, x: seq<nat>)
    requires |p| == |x| && sel.Shaped(|x|) && InBox(p, sel.Extents()) && sel.CoordAt(p) == x
    ensures sel.Selects(x) && !Dead(sel, |x|, sel.OutputIndex(x))
    ensures forall i | 0 <= i < |x| :: sel.start[i] <= x[i]
  {
    hide Linear, Prod, Selection.OutputIndex, Selection.PosOf, DimCoord;
    assert sel.Selects(x);
    forall i | 0 <= i < |x| ensures sel.start[i] <= x[i] {
      FromStart(sel.start[i], sel.stride[i], sel.block[i], p[i]);
    }
  }

  /** In a chunk long enough to be read, every element of the clipped chunk is stored. */
  lemma OwnedFits(g: Grid, ch: Chunk, x: seq<nat>)
    requires g.Valid() && g.InGrid(ch.coord) && Readable(g, ch) && InBox(x, g.dims) && g.Owner(x) == ch.coord
    ensures Linear(g.Within(x), g.chunk) * g.elem + g.elem <= |ch.data|
  {
    hide Linear, Prod;
    var top := Last(g.CopyDims(ch.coord));
    RegionIsOwner(g, ch.coord, x);
    LinearMono(g.Within(x), top, g.chunk);
    MulMono(Linear(g.Within(x), g.chunk) + 1, Linear(top, g.chunk) + 1, g.elem);
    assert (Linear(g.Within(x), g.chunk) + 1) * g.elem == Linear(g.Within(x), g.chunk) * g.elem + g.elem;
  }

  method InsideChunk(coords: seq<nat>, chunkStart: seq<nat>, chunkEnd: seq<nat>) returns (inChunk: bool)
    requires |coords| == |chunkStart| == |chunkEnd|
    ensures inChunk <==> forall i | 0 <= i < |coords| :: chunkStart[i] <= coords[i] < chunkEnd[i]
  {
    inChunk := true;
    var i := 0;
    while i < |coords|
      invariant i <= |coords| && inChunk
      invariant forall j | 0 <= j < i :: chunkStart[j] <= coords[j] < chunkEnd[j]
    {
      if coords[i] < chunkStart[i] || coords[i] >= chunkEnd[i] {
        return false;
      }
      i := i + 1;
    }
  }

  method OwnsElement(g: Grid, coord: seq<nat>, chunkStart: seq<nat>, chunkEnd: seq<nat>, coords: seq<nat>)
    returns (owned: bool)
    requires g.Valid() && g.InGrid(coord) && InBox(coords, g.dims)
    requires chunkStart == g.Origin(coord) && chunkEnd == Add(chunkStart, g.CopyDims(coord))
    ensures owned <==> g.Owner(coords) == coord
    ensures owned ==> Rel(coords, chunkStart) == g.Within(coords)
  {
    RegionIsOwner(g, coord, coords);
    owned := InsideChunk(coords, chunkStart, chunkEnd);
  }

  /** Where element `slot` starts. */
  function ByteOf(slot: nat, elem: nat): nat { slot * elem }

  /** The element at `c` in `data` was copied to `s`, if it lies inside both buffers; nothing else changed. */
  ghost predicate ElementCopied(out: seq<byte>, before: seq<byte>, data: seq<byte>, s: nat, c: nat, elem: nat)
  {
    && |out| == |before|
    && (forall k | 0 <= k < |out| ::
          out[k] == if c + elem <= |data| && s + elem <= |out| && s <= k < s + elem then data[c + (k - s)] else before[k])
  }

  /** The guarded element copy: chunk element at `rel` to the slot of `coords`. */
  method StoreElement(data: seq<byte>, chunkDims: seq<nat>, rel: seq<nat>, sel: Selection, coords: seq<nat>,
                      elem: nat, out: array<byte>)
    requires |rel| == |chunkDims| && sel.Shaped(|coords|) && forall i | 0 <= i < |coords| :: sel.start[i] <= coords[i]
    modifies out
    ensures ElementCopied(out[..], old(out[..]), data, ByteOf(sel.OutputIndex(coords), elem), ByteOf(Linear(rel, chunkDims), elem), elem)
  {
    hide Linear, Prod, Selection.OutputIndex;
    var chunkOffset := LinearOffset(rel, chunkDims);
    var srcOffset := chunkOffset * elem;
    var slot := SelectionOutputIndex(coords, sel);
    var dstOffset := slot * elem;
    if srcOffset + elem <= |data| && dstOffset + elem <= out.Length {
      Blit(out, dstOffset, data[srcOffset..srcOffset + elem]);
    }
  }

  method CopyChunkElement(g: Grid, ch: Chunk, chunkStart: seq<nat>, chunkEnd: seq<nat>, sel: Selection, coords: seq<nat>,
                          out: array<byte>, ghost p: seq<nat>)
    requires g.Valid() && g.InGrid(ch.coord) && sel.Valid(g.dims)
    requires chunkStart == g.Origin(ch.coord) && chunkEnd == Add(chunkStart, g.CopyDims(ch.coord))
    requires |p| == |coords| == |g.dims| && PrefixCoords(sel, p, coords)
    requires out.Length == Prod(sel.Extents()) * g.elem
    modifies out
    ensures sel.Supported() ==>
      Filled(out[..], old(out[..]), Portion(g, ch.data, sel), Owned(g, ch, sel), sel.Extents(), g.elem, p)
    ensures DeadUntouched(out[..], old(out[..]), sel, |g.dims|, g.elem)
  {
    hide Linear, Prod, Unrank, SlotOf, DimCoord, PortionByte, Portion, Owned, Dead, Filled, HasElement,
         Selection.OutputIndex, Selection.Supported;
    PrefixIsCoordAt(sel, p, coords);
    CoordInBounds(sel, g.dims, p);
    SelectedIsAlive(sel, p, coords);
    ghost var before := out[..];
    var inChunk := OwnsElement(g, ch.coord, chunkStart, chunkEnd, coords);
    if !inChunk {
      if sel.Supported() {
        OutsideFilled(out[..], Portion(g, ch.data, sel), Owned(g, ch, sel), sel, g, ch, p);
      }
      return;
    }
    StoreElement(ch.data, g.chunk, Rel(coords, chunkStart), sel, coords, g.elem, out);
    RunIsAlive(sel, |g.dims|, g.elem, sel.OutputIndex(coords));
    if sel.Supported() {
      InsideFilled(out[..], before, g, ch, sel, p, coords);
    }
  }

  lemma OutsideFilled(out: seq<byte>, want: seq<byte>, mask: seq<bool>, sel: Selection, g: Grid, ch: Chunk, p: seq<nat>)
    requires g.Valid() && sel.Shaped(|g.dims|) && |p| == |g.dims| && g.Owner(sel.CoordAt(p)) != ch.coord
    requires |out| == |want| == Prod(sel.Extents()) * g.elem && mask == Owned(g, ch, sel)
    ensures Filled(out, out, want, mask, sel.Extents(), g.elem, p)
  {
    hide Linear, Prod, SlotOf, HasElement;
    FilledElement(out, out, want, mask, sel.Extents(), g.elem, p);
  }

  lemma RunIsAlive(sel: Selection, n: nat, elem: nat, slot: nat)
    requires sel.Shaped(n) && elem > 0 && !Dead(sel, n, slot)
    ensures forall k: nat | slot * elem <= k < slot * elem + elem :: !Dead(sel, n, k / elem)
  {
    hide Dead;
    forall k: nat | slot * elem <= k < slot * elem + elem ensures k / elem == slot {
      DivUnique(k, slot, k - slot * elem, elem);
    }
  }

  lemma InsideFilled(out: seq<byte>, before: seq<byte>, g: Grid, ch: Chunk, sel: Selection, p: seq<nat>, x: seq<nat>)
    requires g.Valid() && g.InGrid(ch.coord) && sel.Valid(g.dims) && sel.Supported()
    requires InBox(p, sel.Extents()) && |p| == |g.dims| && g.Owner(sel.CoordAt(p)) == ch.coord
    requires |out| == |before| == Prod(sel.Extents()) * g.elem && x == sel.CoordAt(p)
    requires ElementCopied(out, before, ch.data, ByteOf(sel.OutputIndex(x), g.elem), ByteOf(Linear(g.Within(x), g.chunk), g.elem), g.elem)
    ensures Filled(out, before, Portion(g, ch.data, sel), Owned(g, ch, sel), sel.Extents(), g.elem, p)
  {
    hide Linear, Prod, SlotOf, Portion, Owned, Selection.OutputIndex;
    var want, mask := Portion(g, ch.data, sel), Owned(g, ch, sel);
    CoordInBounds(sel, g.dims, p);
    OutputIndexBijective(sel, p);
    forall k | 0 <= k < |out|
      ensures out[k] == if mask[k] && SlotOf(sel.Extents(), g.elem, k) == p then want[k] else before[k]
    {
      ElementRun(sel.Extents(), g.elem, p, k);
      assert want[k] == PortionByte(g, ch.data, sel, k);
    }
    FilledElement(out, before, want, mask, sel.Extents(), g.elem, p);
  }

  /** Once a coordinate passes the chunk's end, no later position of the dimension is owned. */
  lemma BeyondChunk(g: Grid, ch: Chunk, sel: Selection, pre: seq<nat>, t: nat, out: seq<byte>, before: seq<byte>, want: seq<byte>)
    requires g.Valid() && g.InGrid(ch.coord) && sel.Valid(g.dims) && sel.Supported() && |pre| < |g.dims|
    requires t < sel.Extents()[|pre|]
    requires DimCoord(sel.start[|pre|], sel.stride[|pre|], sel.block[|pre|], t) >= g.Origin(ch.coord)[|pre|] + g.CopyDims(ch.coord)[|pre|]
    requires FilledTo(out, before, want, Owned(g, ch, sel), sel.Extents(), g.elem, pre, t)
    ensures Filled(out, before, want, Owned(g, ch, sel), sel.Extents(), g.elem, pre)
  {
    hide Linear, Prod, SlotOf, DimCoord, Selection.Supported, HasElement;
    var n, mask := |pre|, Owned(g, ch, sel);
    forall k | 0 <= k < |out| && mask[k] && HasPrefix(SlotOf(sel.Extents(), g.elem, k), pre)
      ensures Reached(SlotOf(sel.Extents(), g.elem, k), pre, t)
    {
      var p := SlotOf(sel.Extents(), g.elem, k);
      CoordInBounds(sel, g.dims, p);
      RegionIsOwner(g, ch.coord, sel.CoordAt(p));
      OwnedBelow(g, ch.coord, sel, p, n, t);
    }
  }

  lemma OwnedBelow(g: Grid, coord: seq<nat>, sel: Selection, p: seq<nat>, n: nat, t: nat)
    requires g.Valid() && g.InGrid(coord) && sel.Valid(g.dims) && sel.Supported() && n < |g.dims|
    requires InBox(p, sel.Extents()) && t < sel.Extents()[n]
    requires DimCoord(sel.start[n], sel.stride[n], sel.block[n], t) >= g.Origin(coord)[n] + g.CopyDims(coord)[n]
    requires InRegion(sel.CoordAt(p), g.Origin(coord), g.CopyDims(coord), [])
    ensures p[n] < t
  {
    hide Linear, Prod;
    assert sel.CoordAt(p)[n] == DimCoord(sel.start[n], sel.stride[n], sel.block[n], p[n]);
    assert sel.CoordAt(p)[n] < g.Origin(coord)[n] + g.CopyDims(coord)[n];
    if t <= p[n] {
      DimCoordMono(sel.start[n], sel.count[n], sel.stride[n], sel.block[n], t, p[n]);
    }
  }

  lemma DeadTransitive(a: seq<byte>, b: seq<byte>, c: seq<byte>, sel: Selection, n: nat, elem: nat)
    requires sel.Shaped(n) && elem > 0 && |a| == |b| == |c|
    requires DeadUntouched(b, a, sel, n, elem) && DeadUntouched(c, b, sel, n, elem)
    ensures DeadUntouched(c, a, sel, n, elem)
  {
    hide Dead;
  }

  method ExtractPortionRecursive(g: Grid, ch: Chunk, chunkStart: seq<nat>, chunkEnd: seq<nat>, sel: Selection,
                                 coords: array<nat>, dim: nat, out: array<byte>, ghost pre: seq<nat>)
    requires g.Valid() && g.InGrid(ch.coord) && sel.Valid(g.dims)
    requires chunkStart == g.Origin(ch.coord) && chunkEnd == Add(chunkStart, g.CopyDims(ch.coord))
    requires coords.Length == |g.dims| && dim == |pre| <= |g.dims|
    requires PrefixCoords(sel, pre, coords[..])
    requires out.Length == Prod(sel.Extents()) * g.elem
    modifies out, coords
    ensures coords[..dim] == old(coords[..dim])
    ensures sel.Supported() ==>
      Filled(out[..], old(out[..]), Portion(g, ch.data, sel), Owned(g, ch, sel), sel.Extents(), g.elem, pre)
    ensures DeadUntouched(out[..], old(out[..]), sel, |g.dims|, g.elem)
    decreases |g.dims| - dim
  {
    hide Linear, Prod, Unrank, SlotOf, Portion, Owned, DimCoord, Filled, FilledTo, PrefixCoords, DeadUntouched,
         Selection.Supported;
    if dim == |g.dims| {
      assert coords[..] == coords[..dim];
      CopyChunkElement(g, ch, chunkStart, chunkEnd, sel, coords[..], out, pre);
      return;
    }
    ghost var good := sel.Supported();
    ghost var before, want, mask := out[..], Portion(g, ch.data, sel), Owned(g, ch, sel);
    ghost var t: nat := 0;
    FilledSteps(before, before, before, want, mask, sel.Extents(), g.elem, pre, 0);
    assert DeadUntouched(before, before, sel, |g.dims|, g.elem) by { DeadReflexive(before, sel, |g.dims|, g.elem); }
    var c := 0;
    while c < sel.count[dim]
      invariant c <= sel.count[dim] && t == c * sel.block[dim]
      invariant coords[..dim] == old(coords[..dim])
      invariant good ==> FilledTo(out[..], before, want, mask, sel.Extents(), g.elem, pre, t)
      invariant DeadUntouched(out[..], before, sel, |g.dims|, g.elem)
    {
      var blockStart := sel.start[dim] + c * sel.stride[dim];
      var b := 0;
      while b < sel.block[dim]
        invariant b <= sel.block[dim] && t == c * sel.block[dim] + b
        invariant coords[..dim] == old(coords[..dim])
        invariant good ==> FilledTo(out[..], before, want, mask, sel.Extents(), g.elem, pre, t)
        invariant DeadUntouched(out[..], before, sel, |g.dims|, g.elem)
      {
        ghost var mid := out[..];
        coords[dim] := blockStart + b;
        PrefixKept(sel, pre, old(coords[..]), coords[..]);
        StepInDimension(sel, g.dims, pre, coords[..], c, b);
        PositionOfStep(sel, pre, coords[..], t);
        if coords[dim] >= chunkEnd[dim] {
          if good {
            BeyondChunk(g, ch, sel, pre, t, out[..], before, want);
          }
          return;
        }
        ExtractPortionRecursive(g, ch, chunkStart, chunkEnd, sel, coords, dim + 1, out, pre + [t]);
        FilledSteps(out[..], mid, before, want, mask, sel.Extents(), g.elem, pre, t);
        DeadTransitive(before, mid, out[..], sel, |g.dims|, g.elem);
        assert coords[..dim] == coords[..dim + 1][..dim];
        t := t + 1;
        b := b + 1;
      }
      assert t == (c + 1) * sel.block[dim];
      c := c + 1;
    }
    FilledSteps(out[..], out[..], before, want, mask, sel.Extents(), g.elem, pre, t);
  }

  lemma DeadReflexive(a: seq<byte>, sel: Selection, n: nat, elem: nat)
    requires sel.Shaped(n) && elem > 0
    ensures DeadUntouched(a, a, sel, n, elem)
  {
  }

  lemma PositionOfStep(sel: Selection, pre: seq<nat>, coords: seq<nat>, t: nat)
    requires sel.Shaped(|coords|) && |pre| < |coords| && PrefixCoords(sel, pre + [t], coords)
    ensures t < sel.Extents()[|pre|]
    ensures coords[|pre|] == DimCoord(sel.start[|pre|], sel.stride[|pre|], sel.block[|pre|], t)
  {
    assert (pre + [t])[|pre|] == t;
  }

  method ChunkBounds(g: Grid, coord: seq<nat>) returns (chunkStart: seq<nat>, chunkEnd: seq<nat>)
    requires g.Valid() && g.InGrid(coord)
    ensures chunkStart == g.Origin(coord) && chunkEnd == Add(chunkStart, g.CopyDims(coord))
  {
    var n := |g.dims|;
    var starts, ends := new nat[n], new nat[n];
    for i := 0 to n
      invariant forall j | 0 <= j < i :: starts[j] == g.Origin(coord)[j]
      invariant forall j | 0 <= j < i :: ends[j] == g.Origin(coord)[j] + g.CopyDims(coord)[j]
    {
      starts[i] := coord[i] * g.chunk[i];
      ends[i] := starts[i] + g.chunk[i];
      if ends[i] > g.dims[i] {
        ends[i] := g.dims[i];
      }
    }
    chunkStart, chunkEnd := starts[..], ends[..];
  }

  method ExtractChunkPortion(g: Grid, ch: Chunk, sel: Selection, out: array<byte>)
    requires g.Valid() && g.InGrid(ch.coord) && sel.Valid(g.dims)
    requires out.Length == Prod(sel.Extents()) * g.elem
    modifies out
    ensures sel.Supported() ==> forall k | 0 <= k < out.Length ::
      out[k] == if Owned(g, ch, sel)[k] then Portion(g, ch.data, sel)[k] else old(out[k])
    ensures DeadUntouched(out[..], old(out[..]), sel, |g.dims|, g.elem)
  {
    hide Linear, Prod, Unrank, SlotOf, Portion, Owned, DeadUntouched, Selection.Supported;
    var chunkStart, chunkEnd := ChunkBounds(g, ch.coord);
    var coords := new nat[|g.dims|](i requires 0 <= i < |g.dims| => sel.start[i]);
    ExtractPortionRecursive(g, ch, chunkStart, chunkEnd, sel, coords, 0, out, []);
  }

  // ---- which chunks are visited ----

  function FirstChunk(g: Grid, sel: Selection): (c: seq<nat>)
    requires g.Valid() && sel.Valid(g.dims)
    ensures |c| == |g.dims| && forall i | 0 <= i < |c| :: c[i] == sel.start[i] / g.chunk[i]
  {
    seq(|g.dims|, i requires 0 <= i < |g.dims| => sel.start[i] / g.chunk[i])
  }

  function LastChunk(g: Grid, sel: Selection): (c: seq<nat>)
    requires g.Valid() && sel.Valid(g.dims)
    ensures |c| == |g.dims| && forall i | 0 <= i < |c| ::
      c[i] == (sel.start[i] + (sel.count[i] - 1) * sel.stride[i] + sel.block[i] - 1) / g.chunk[i]
  {
    seq(|g.dims|, i requires 0 <= i < |g.dims| =>
      (sel.start[i] + (sel.count[i] - 1) * sel.stride[i] + sel.block[i] - 1) / g.chunk[i])
  }

  predicate Between(c: seq<nat>, first: seq<nat>, last: seq<nat>)
  {
    |c| == |first| == |last| && forall i | 0 <= i < |c| :: first[i] <= c[i] <= last[i]
  }

  lemma DivMono(a: nat, b: nat, m: nat)
    requires a <= b && m > 0
    ensures a / m <= b / m
  {
    assert a == (a / m) * m + a % m && b == (b / m) * m + b % m;
    if b / m < a / m {
      MulMono(b / m, a / m, m);
    }
  }

  /** Every selected element's chunk is in the visited range, and every visited chunk is in the grid. */
  lemma OwnersAreVisited(g: Grid, sel: Selection, p: seq<nat>)
    requires g.Valid() && sel.Valid(g.dims) && InBox(p, sel.Extents())
    ensures Between(g.Owner(sel.CoordAt(p)), FirstChunk(g, sel), LastChunk(g, sel))
  {
    hide Linear, Prod;
    forall i | 0 <= i < |p|
      ensures FirstChunk(g, sel)[i] <= g.Owner(sel.CoordAt(p))[i] <= LastChunk(g, sel)[i]
    {
      OwnerBetween(p[i], sel.start[i], sel.count[i], sel.stride[i], sel.block[i], g.chunk[i]);
    }
  }

  lemma OwnerBetween(v: nat, start: nat, count: nat, stride: nat, block: nat, m: nat)
    requires count > 0 && block > 0 && m > 0 && v < count * block
    ensures start / m <= (start + (v / block) * stride + v % block) / m
    ensures (start + (v / block) * stride + v % block) / m <= (start + (count - 1) * stride + block - 1) / m
  {
    DivBelow(v, count, block);
    MulMono(0, v / block, stride);
    MulMono(v / block, count - 1, stride);
    DivMono(start, start + (v / block) * stride + v % block, m);
    DivMono(start + (v / block) * stride + v % block, start + (count - 1) * stride + block - 1, m);
  }

  lemma VisitedInGrid(g: Grid, sel: Selection, c: seq<nat>)
    requires g.Valid() && sel.Valid(g.dims) && Between(c, FirstChunk(g, sel), LastChunk(g, sel))
    ensures g.InGrid(c)
  {
    forall i | 0 <= i < |c| ensures c[i] * g.chunk[i] < g.dims[i] {
      var end := sel.start[i] + (sel.count[i] - 1) * sel.stride[i] + sel.block[i] - 1;
      MulMono(c[i], end / g.chunk[i], g.chunk[i]);
    }
  }

  /** `c` is in the box `[first, last]` and starts with `pre`. */
  ghost predicate Generated(c: seq<nat>, first: seq<nat>, last: seq<nat>, pre: seq<nat>)
  {
    && |c| == |first| == |last| && HasPrefix(c, pre)
    && forall i | |pre| <= i < |c| :: first[i] <= c[i] <= last[i]
  }

  lemma GeneratedStep(c: seq<nat>, first: seq<nat>, last: seq<nat>, pre: seq<nat>, i: nat)
    requires |pre| < |first| == |last| && first[|pre|] <= i <= last[|pre|]
    ensures Generated(c, first, last, pre + [i]) <==> Generated(c, first, last, pre) && c[|pre|] == i
  {
    if |c| == |first| {
      assert c[..|pre| + 1] == c[..|pre|] + [c[|pre|]];
    }
  }

  method GenerateRecursive(first: seq<nat>, last: seq<nat>, current: array<nat>, dim: nat, result: seq<seq<nat>>,
                           ghost pre: seq<nat>)
    returns (result': seq<seq<nat>>)
    requires |first| == |last| == current.Length && dim == |pre| <= |first| && current[..dim] == pre
    modifies current
    ensures current[..dim] == pre
    ensures forall c :: c in result' <==> (c in result || Generated(c, first, last, pre))
    decreases |first| - dim
  {
    result' := result;
    if dim == |first| {
      forall c ensures Generated(c, first, last, pre) <==> c == pre {
        if |c| == dim { assert c[..dim] == c; }
      }
      assert current[..] == pre;
      result' := result' + [current[..]];
      return;
    }
    var i := first[dim];
    while i <= last[dim]
      invariant first[dim] <= i && current[..dim] == pre
      invariant forall c :: c in result' <==> (c in result || (Generated(c, first, last, pre) && c[dim] < i))
      decreases last[dim] as int - i
    {
      current[dim] := i;
      result' := GenerateRecursive(first, last, current, dim + 1, result', pre + [i]);
      assert current[..dim] == current[..dim + 1][..dim];
      forall c ensures Generated(c, first, last, pre + [i]) <==> Generated(c, first, last, pre) && c[dim] == i {
        GeneratedStep(c, first, last, pre, i);
      }
      i := i + 1;
    }
  }

  function ClipEnd(endPos: nat, dim: nat): nat
    requires dim > 0
  {
    if endPos >= dim then dim - 1 else endPos
  }

  /** findOverlappingChunks: exactly the chunk coordinates between the first and last touched chunk. */
  method FindOverlappingChunks(g: Grid, sel: Selection) returns (coords: seq<seq<nat>>)
    requires g.Valid() && sel.Valid(g.dims)
    ensures forall c :: c in coords <==> Between(c, FirstChunk(g, sel), LastChunk(g, sel))
  {
    var n := |g.dims|;
    var first, last := new nat[n], new nat[n];
    for i := 0 to n
      invariant forall j | 0 <= j < i :: first[j] == FirstChunk(g, sel)[j] && last[j] == LastChunk(g, sel)[j]
    {
      first[i] := sel.start[i] / g.chunk[i];
      MulMono(0, sel.count[i] - 1, sel.stride[i]);
      var endPos := sel.start[i] + (sel.count[i] - 1) * sel.stride[i] + sel.block[i] - 1;
      last[i] := ClipEnd(endPos, g.dims[i]) / g.chunk[i];
    }
    var current := new nat[n](i requires 0 <= i < n reads first => first[i]);
    coords := GenerateRecursive(first[..], last[..], current, 0, [], []);
  }

  // ---- the whole chunked read ----

  /** Only the chunks in `visited` have been extracted. */
  ghost predicate VisitedRead(out: seq<byte>, g: Grid, store: map<seq<nat>, seq<byte>>, sel: Selection, visited: seq<seq<nat>>)
    requires g.Valid() && sel.Valid(g.dims)
  {
    && |out| == Prod(sel.Extents()) * g.elem
    && forall k | 0 <= k < |out| :: out[k] ==
        if g.Owner(sel.CoordAt(SlotOf(sel.Extents(), g.elem, k))) in visited then Found(g, store, sel)[k] else 0
  }

  lemma VisitStep(out: seq<byte>, before: seq<byte>, g: Grid, store: map<seq<nat>, seq<byte>>, sel: Selection,
                  visited: seq<seq<nat>>, c: seq<nat>)
    requires g.Valid() && sel.Valid(g.dims) && VisitedRead(before, g, store, sel, visited)
    requires |out| == |before|
    requires c !in store ==> out == before
    requires c in store ==> forall k | 0 <= k < |out| ::
      out[k] == if Owned(g, Chunk(c, store[c]), sel)[k] then Portion(g, store[c], sel)[k] else before[k]
    ensures VisitedRead(out, g, store, sel, visited + [c])
  {
    hide Linear, Prod, SlotOf, Portion, Owned, Found;
    forall k | 0 <= k < |out|
      ensures Found(g, store, sel)[k] == HeldByte(g, store, sel, k)
      ensures c in store ==> Portion(g, store[c], sel)[k] == PortionByte(g, store[c], sel, k)
    {
    }
  }

  lemma {:induction false} IndexSnoc(chunks: seq<Chunk>, ch: Chunk)
    ensures Index(chunks + [ch]) == Index(chunks)[ch.coord := ch.data]
  {
    assert (chunks + [ch])[..|chunks|] == chunks;
  }

  /** The map from chunk coordinate to chunk; later chunks win. */
  method BuildIndex(chunks: seq<Chunk>) returns (index: map<seq<nat>, seq<byte>>)
    ensures index == Index(chunks)
  {
    index := map[];
    var i := 0;
    while i < |chunks|
      invariant i <= |chunks| && index == Index(chunks[..i])
    {
      IndexSnoc(chunks[..i], chunks[i]);
      assert chunks[..i + 1] == chunks[..i] + [chunks[i]];
      index := index[chunks[i].coord := chunks[i].data];
      i := i + 1;
    }
    assert chunks[..i] == chunks;
  }

  ghost predicate DeadZero(out: seq<byte>, sel: Selection, n: nat, elem: nat)
    requires sel.Shaped(n) && elem > 0
  {
    forall k | 0 <= k < |out| && Dead(sel, n, k / elem) :: out[k] == 0
  }

  lemma DeadStayZero(out: seq<byte>, before: seq<byte>, sel: Selection, n: nat, elem: nat)
    requires sel.Shaped(n) && elem > 0 && |out| == |before| && DeadUntouched(out, before, sel, n, elem)
    requires DeadZero(before, sel, n, elem)
    ensures DeadZero(out, sel, n, elem)
  {
    hide Dead;
  }

  /** readHyperslabChunked. */
  method ReadHyperslabChunked(g: Grid, sel: Selection, chunks: seq<Chunk>) returns (out: seq<byte>)
    requires g.Valid() && sel.Valid(g.dims) && forall ch | ch in chunks :: g.InGrid(ch.coord)
    ensures |out| == Prod(sel.Extents()) * g.elem
    ensures sel.Supported() ==> forall k | 0 <= k < |out| ::
      var x := sel.CoordAt(SlotOf(sel.Extents(), g.elem, k));
      var c, at, store := g.Owner(x), Linear(g.Within(x), g.chunk) * g.elem, Index(chunks);
      out[k] == if c in store && at + g.elem <= |store[c]| then store[c][at + k % g.elem] else 0
    ensures sel.Supported() && (forall ch | ch in chunks :: Readable(g, ch)) ==> out == Selected(g, Index(chunks), sel)
    ensures DeadZero(out, sel, |g.dims|, g.elem)
  {
    hide Linear, Prod, Unrank, SlotOf, Portion, Owned, Readable, Selected, Selection.Supported, Dead, VisitedRead, Index,
         DeadUntouched, Found;
    var overlapping := FindOverlappingChunks(g, sel);
    var index := BuildIndex(chunks);
    ghost var good := sel.Supported();
    var buffer := new byte[Prod(sel.Extents()) * g.elem](_ => 0);
    assert VisitedRead(buffer[..], g, index, sel, []) by { NothingVisited(buffer[..], g, index, sel); }
    var n := 0;
    while n < |overlapping|
      invariant n <= |overlapping|
      invariant good ==> VisitedRead(buffer[..], g, index, sel, overlapping[..n])
      invariant DeadZero(buffer[..], sel, |g.dims|, g.elem)
    {
      var c := overlapping[n];
      ghost var before := buffer[..];
      if c in index {
        VisitedInGrid(g, sel, c);
        IndexMember(chunks, c);
        ExtractChunkPortion(g, Chunk(c, index[c]), sel, buffer);
        DeadStayZero(buffer[..], before, sel, |g.dims|, g.elem);
      }
      if good {
        VisitStep(buffer[..], before, g, index, sel, overlapping[..n], c);
      }
      assert overlapping[..n + 1] == overlapping[..n] + [c];
      n := n + 1;
    }
    out := buffer[..];
    assert overlapping[..n] == overlapping;
    if good {
      AllVisited(out, g, index, sel, overlapping);
      if forall ch | ch in chunks :: Readable(g, ch) {
        FoundWhole(g, chunks, sel);
      }
    }
  }

  lemma NothingVisited(out: seq<byte>, g: Grid, store: map<seq<nat>, seq<byte>>, sel: Selection)
    requires g.Valid() && sel.Valid(g.dims) && |out| == Prod(sel.Extents()) * g.elem
    requires forall k | 0 <= k < |out| :: out[k] == 0
    ensures VisitedRead(out, g, store, sel, [])
  {
    hide Linear, Prod, SlotOf, Found;
  }

  lemma AllVisited(out: seq<byte>, g: Grid, store: map<seq<nat>, seq<byte>>, sel: Selection, visited: seq<seq<nat>>)
    requires g.Valid() && sel.Valid(g.dims) && VisitedRead(out, g, store, sel, visited)
    requires forall c :: c in visited <==> Between(c, FirstChunk(g, sel), LastChunk(g, sel))
    ensures out == Found(g, store, sel)
  {
    hide Linear, Prod, SlotOf, Found, Between;
    forall k | 0 <= k < |out| ensures out[k] == Found(g, store, sel)[k] {
      OwnersAreVisited(g, sel, SlotOf(sel.Extents(), g.elem, k));
    }
  }

  // ---- exactly when the two readers agree ----

  /** The last dimension that is not supported. */
  lemma LastUnsupported(sel: Selection, n: nat) returns (i: nat)
    requires sel.Shaped(n) && !sel.Supported()
    ensures i < n && sel.block[i] > sel.stride[i] && !(sel.count[i] == 1 && sel.stride[i] == 1)
    ensures forall j | i < j < n :: sel.block[j] <= sel.stride[j] || (sel.count[j] == 1 && sel.stride[j] == 1)
  {
    i := n - 1;
    while !(sel.block[i] > sel.stride[i] && !(sel.count[i] == 1 && sel.stride[i] == 1))
      invariant i < n
      invariant exists j :: 0 <= j <= i && sel.block[j] > sel.stride[j] && !(sel.count[j] == 1 && sel.stride[j] == 1)
      invariant forall j | i < j < n :: sel.block[j] <= sel.stride[j] || (sel.count[j] == 1 && sel.stride[j] == 1)
      decreases i
    {
      i := i - 1;
    }
  }

  /** The position along an unsupported dimension that no selected coordinate maps to. */
  function MissedPosition(count: nat, stride: nat, block: nat): nat
    requires count > 0 && block > 0
  {
    if stride <= 1 then count * block - 1 else block - 1
  }

  lemma PosOfCoord(start: nat, stride: nat, block: nat, v: nat)
    requires stride > 0 && block > 0
    ensures var rel := (v / block) * stride + v % block;
      DimPos(DimCoord(start, stride, block, v), start, stride, block) ==
      if stride <= 1 then rel else (rel / stride) * block + rel % stride
  {
    MulMono(0, v / block, stride);
  }

  lemma UnitStrideMissed(count: nat, block: nat, pos: nat)
    requires count > 1 && block > 1 && pos <= count + block - 2
    ensures pos % (count * block) != count * block - 1
  {
    AreaBeatsPerimeter(count, block);
    SmallMod(pos, count * block);
  }

  lemma WideBlockMissed(count: nat, block: nat, a: nat, r: nat)
    requires count > 0 && r < block - 1
    ensures count * block > 0 && (a * block + r) % (count * block) != block - 1
  {
    ModOfMod(a * block + r, a, r, count, block);
    SmallMod(block - 1, block);
  }

  lemma PositionMissed(start: nat, count: nat, stride: nat, block: nat, v: nat)
    requires count > 0 && stride > 0 && block > stride && !(count == 1 && stride == 1) && v < count * block
    ensures MissedPosition(count, stride, block) < count * block
    ensures DimPos(DimCoord(start, stride, block, v), start, stride, block) % (count * block) != MissedPosition(count, stride, block)
  {
    hide DimPos, DimCoord;
    MulMono(1, count, block);
    PosOfCoord(start, stride, block, v);
    var rel := (v / block) * stride + v % block;
    if stride <= 1 {
      DivBelow(v, count, block);
      UnitStrideMissed(count, block, rel);
    } else {
      WideBlockMissed(count, block, rel / stride, rel % stride);
    }
  }

  lemma SmallMod(a: nat, m: nat)
    requires a < m
    ensures a % m == a
  {
  }

  lemma AreaBeatsPerimeter(count: nat, block: nat)
    requires count > 1 && block > 1
    ensures count + block - 2 < count * block - 1
  {
    MulMono(2, count, block - 1);
    assert count * (block - 1) == count * block - count;
  }

  lemma ModOfMod(pos: nat, a: nat, r: nat, count: nat, block: nat)
    requires count > 0 && r < block && pos == a * block + r
    ensures count * block > 0 && (pos % (count * block)) % block == r
  {
    MulMono(1, count, block);
    var w, z := a / count, a % count;
    Regroup(w, count, z, block, r);
    MulMono(z, count, block);
    DivUnique(pos, w, z * block + r, count * block);
    DivUnique(z * block + r, z, r, block);
  }

  /** An unsupported selection leaves an output slot that the chunked reader never writes. */
  lemma DeadSlotExists(sel: Selection, n: nat) returns (d: nat)
    requires sel.Shaped(n) && !sel.Supported()
    ensures d < Prod(sel.Extents()) && Dead(sel, n, d)
  {
    hide Linear, Prod, DimPos, MissedPosition;
    var i := LastUnsupported(sel, n);
    var ext := sel.Extents();
    var miss := MissedPosition(sel.count[i], sel.stride[i], sel.block[i]);
    var p := seq(n, j => if j == i then miss else 0);
    PositionMissed(sel.start[i], sel.count[i], sel.stride[i], sel.block[i], 0);
    forall j | 0 <= j < n ensures p[j] < ext[j] {
      MulMono(1, sel.count[j], sel.block[j]);
    }
    LinearBound(p, ext);
    d := Linear(p, ext);
    forall x: seq<nat> | |x| == n && sel.Selects(x) ensures sel.OutputIndex(x) != d {
      var v :| InBox(v, ext) && sel.CoordAt(v) == x;
      NeverHits(sel, v, i, p);
    }
  }

  lemma NeverHits(sel: Selection, v: seq<nat>, i: nat, p: seq<nat>)
    requires |v| == |p| && sel.Shaped(|v|) && i < |v| && InBox(v, sel.Extents()) && InBox(p, sel.Extents())
    requires sel.block[i] > sel.stride[i] && !(sel.count[i] == 1 && sel.stride[i] == 1)
    requires forall j | i < j < |v| :: sel.block[j] <= sel.stride[j] || (sel.count[j] == 1 && sel.stride[j] == 1)
    requires p[i] == MissedPosition(sel.count[i], sel.stride[i], sel.block[i])
    requires forall j | 0 <= j < |p| && j != i :: p[j] == 0
    ensures Linear(sel.PosOf(sel.CoordAt(v)), sel.Extents()) != Linear(p, sel.Extents())
  {
    hide Linear, Prod, DimPos, MissedPosition, Selection.PosOf, Selection.CoordAt;
    var n, ext, pos := |v|, sel.Extents(), sel.PosOf(sel.CoordAt(v));
    assert forall j | i < j < n :: pos[j] < ext[j] by {
      forall j | i < j < n ensures pos[j] < ext[j] {
        DimPosInverse(sel.start[j], sel.count[j], sel.stride[j], sel.block[j], v[j]);
      }
    }
    PositionMissed(sel.start[i], sel.count[i], sel.stride[i], sel.block[i], v[i]);
    assert pos[i] % ext[i] != p[i];
    SmallMod(p[i], ext[i]);
    SameOffsetSameDigit(pos, p, ext, i);
  }

  /** With in-range digits after dimension `i`, equal offsets force equal digits at `i` modulo its extent. */
  lemma SameOffsetSameDigit(pos: seq<nat>, p: seq<nat>, ext: seq<nat>, i: nat)
    requires |pos| == |p| == |ext| && i < |ext| && ext[i] > 0
    requires forall j | i < j < |ext| :: pos[j] < ext[j] && p[j] < ext[j]
    ensures Linear(pos, ext) == Linear(p, ext) ==> pos[i] % ext[i] == p[i] % ext[i]
  {
    hide Linear, Prod;
    var tail := ext[i + 1..];
    LinearSplit(pos, ext, i + 1);
    LinearSplit(p, ext, i + 1);
    LinearBound(pos[i + 1..], tail);
    LinearBound(p[i + 1..], tail);
    HeadOf(pos, ext, i);
    HeadOf(p, ext, i);
    if Linear(pos, ext) == Linear(p, ext) {
      DivUnique(Linear(pos, ext), Linear(pos[..i + 1], ext[..i + 1]), Linear(pos[i + 1..], tail), Prod(tail));
      DivUnique(Linear(p, ext), Linear(p[..i + 1], ext[..i + 1]), Linear(p[i + 1..], tail), Prod(tail));
    }
  }

  lemma HeadOf(pos: seq<nat>, ext: seq<nat>, i: nat)
    requires |pos| == |ext| && i < |pos| && ext[i] > 0
    ensures Linear(pos[..i + 1], ext[..i + 1]) % ext[i] == pos[i] % ext[i]
  {
    hide Linear, Prod;
    LinearLast(pos[..i + 1], ext[..i + 1]);
    var q := pos[..i + 1][..i] + [0];
    LinearSplit(q, ext[..i + 1], i);
    assert q[i..] == [0] && ext[..i + 1][i..] == [ext[i]];
    LinearOne(0, ext[i]);
    var a := Linear(q[..i], ext[..i + 1][..i]);
    DivUnique(a * ext[i] + pos[i], a + pos[i] / ext[i], pos[i] % ext[i], ext[i]) by {
      assert pos[i] == (pos[i] / ext[i]) * ext[i] + pos[i] % ext[i];
      assert (a + pos[i] / ext[i]) * ext[i] == a * ext[i] + (pos[i] / ext[i]) * ext[i];
    }
  }

  /** Every chunk of the grid is stored, and no stored byte is zero. */
  ghost predicate DenseAndNonZero(g: Grid, chunks: seq<Chunk>)
    requires g.Valid()
  {
    && (forall c | g.InGrid(c) :: c in Index(chunks))
    && (forall ch, i | ch in chunks && 0 <= i < |ch.data| :: ch.data[i] != 0)
  }

  /** Whole chunks of ones, for every grid coordinate among the first `n` coordinates of the dataset's box. */
  ghost function Ones(g: Grid, n: nat): (chunks: seq<Chunk>)
    requires g.Valid() && n <= Prod(g.dims)
    ensures forall ch | ch in chunks :: g.InGrid(ch.coord) && ch.data == seq(Prod(g.chunk) * g.elem, _ => 1)
  {
    if n == 0 then []
    else
      var c := Unrank(n - 1, g.dims);
      Ones(g, n - 1) + if g.InGrid(c) then [Chunk(c, seq(Prod(g.chunk) * g.elem, _ => 1))] else []
  }

  lemma {:induction false} OnesCover(g: Grid, n: nat, c: seq<nat>)
    requires g.Valid() && n <= Prod(g.dims) && g.InGrid(c) && InBox(c, g.dims) && Linear(c, g.dims) < n
    ensures c in Index(Ones(g, n))
  {
    hide Prod, Linear, Index, Ones, Unrank;
    OnesStep(g, n);
    if Linear(c, g.dims) == n - 1 {
      LinearInjective(c, Unrank(n - 1, g.dims), g.dims);
    } else {
      OnesCover(g, n - 1, c);
    }
  }

  lemma OnesStep(g: Grid, n: nat)
    requires g.Valid() && 0 < n <= Prod(g.dims)
    ensures var d := Unrank(n - 1, g.dims);
      Index(Ones(g, n)) == if g.InGrid(d) then Index(Ones(g, n - 1))[d := seq(Prod(g.chunk) * g.elem, _ => 1)] else Index(Ones(g, n - 1))
  {
    hide Prod, Linear, Index;
    var d := Unrank(n - 1, g.dims);
    if g.InGrid(d) {
      IndexSnoc(Ones(g, n - 1), Chunk(d, seq(Prod(g.chunk) * g.elem, _ => 1)));
    } else {
      assert Ones(g, n - 1) + [] == Ones(g, n - 1);
    }
  }

  /** Every grid has dense readable data without zero bytes, which the whole read accepts if its chunks are not too
      large. */
  lemma DenseDataExists(g: Grid) returns (chunks: seq<Chunk>)
    requires g.Valid()
    ensures forall ch | ch in chunks :: g.InGrid(ch.coord) && Readable(g, ch)
    ensures DenseAndNonZero(g, chunks)
    ensures Prod(g.chunk) * g.elem <= MAX_CHUNK_SIZE ==> forall ch | ch in chunks :: Accepted(g, ch)
  {
    hide Prod, Linear, Index, Ones, Readable;
    chunks := Ones(g, Prod(g.dims));
    forall c | g.InGrid(c) ensures c in Index(chunks) {
      forall i | 0 <= i < |c| ensures c[i] < g.dims[i] {
        MulMono(1, g.chunk[i], c[i]);
      }
      LinearBound(c, g.dims);
      OnesCover(g, Prod(g.dims), c);
    }
    forall ch | ch in chunks ensures Readable(g, ch) && |ch.data| == Prod(g.chunk) * g.elem > 0 {
      WholeReadable(g, ch);
    }
  }

  lemma WholeReadable(g: Grid, ch: Chunk)
    requires g.Valid() && g.InGrid(ch.coord) && |ch.data| == Prod(g.chunk) * g.elem
    ensures Readable(g, ch) && |ch.data| > 0
  {
    hide Prod, Linear;
    LinearBound(Last(g.CopyDims(ch.coord)), g.chunk);
    MulMono(Linear(Last(g.CopyDims(ch.coord)), g.chunk) + 1, Prod(g.chunk), g.elem);
  }

  lemma SelectedNonZero(g: Grid, sel: Selection, chunks: seq<Chunk>, k: nat)
    requires g.Valid() && sel.Valid(g.dims) && DenseAndNonZero(g, chunks)
    requires forall ch | ch in chunks :: g.InGrid(ch.coord) && Readable(g, ch)
    requires k < Prod(sel.Extents()) * g.elem
    ensures Selected(g, Index(chunks), sel)[k] != 0
  {
    hide Linear, Prod, SlotOf, Readable, Index;
    var x := sel.CoordAt(SlotOf(sel.Extents(), g.elem, k));
    CoordInBounds(sel, g.dims, SlotOf(sel.Extents(), g.elem, k));
    var c := g.Owner(x);
    OwnerInGrid(g, x);
    IndexMember(chunks, c);
    OwnedFits(g, Chunk(c, Index(chunks)[c]), x);
  }

  lemma AcceptedReadable(g: Grid, chunks: seq<Chunk>)
    requires g.Valid() && forall ch | ch in chunks :: g.InGrid(ch.coord) && Accepted(g, ch)
    ensures forall ch | ch in chunks :: Readable(g, ch)
  {
    hide Readable;
  }

  /** Reading a selection both ways.  Whenever the whole read succeeds, the chunk-by-chunk read
      returns the same bytes if the selection is supported; if it is not, the two differ on
      every dense dataset without zero bytes. */
  method ReadBothWays(g: Grid, sel: Selection, chunks: seq<Chunk>)
    returns (whole: ReadResult, viaWhole: seq<byte>, viaChunks: seq<byte>)
    requires g.Valid() && sel.Valid(g.dims) && forall ch | ch in chunks :: g.InGrid(ch.coord)
    ensures whole.Ok? <==> 0 < g.Size() <= 0x100_0000_0000 && forall ch | ch in chunks :: Accepted(g, ch)
    ensures whole.Ok? ==> viaWhole == Selected(g, Index(chunks), sel)
    ensures |viaChunks| == Prod(sel.Extents()) * g.elem
    ensures sel.Supported() ==> forall k | 0 <= k < |viaChunks| :: viaChunks[k] == HeldByte(g, Index(chunks), sel, k)
    ensures whole.Ok? && sel.Supported() ==> viaChunks == viaWhole
    ensures whole.Ok? && !sel.Supported() && DenseAndNonZero(g, chunks) ==> viaChunks != viaWhole
  {
    hide Linear, Prod, Readable, Selected, Sliced, Selection.Supported, DenseAndNonZero, Dead, Accepted, SizeOk;
    whole := ReadChunkedData(g, chunks);
    viaChunks := ReadHyperslabChunked(g, sel, chunks);
    viaWhole := [];
    if whole.Ok? {
      AcceptedReadable(g, chunks);
      viaWhole := ExtractHyperslab(whole.raw, g.dims, sel, g.elem);
      SlicedAssembledIsSelected(g, Index(chunks), sel);
      if !sel.Supported() && DenseAndNonZero(g, chunks) {
        var d := DeadSlotExists(sel, |g.dims|);
        MulMono(d, Prod(sel.Extents()), g.elem);
        DivUnique(d * g.elem, d, 0, g.elem);
        SelectedNonZero(g, sel, chunks, d * g.elem);
      }
    }
  }
}
