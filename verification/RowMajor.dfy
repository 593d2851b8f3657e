/** Row-major buffers of `elem`-byte elements: which element a byte belongs to, and
    what a recursive traversal by coordinate prefix has filled so far. */
module RowMajor {
  import opened Arith
  import opened Bytes
  import opened MixedRadix

  /** The element, of a box of extents `ext`, that holds byte `k`. */
  function SlotOf(ext: seq<nat>, elem: nat, k: nat): (p: seq<nat>)
    requires elem > 0 && k < Prod(ext) * elem
    ensures InBox(p, ext) && Linear(p, ext) == k / elem
  {
    DivBelow(k, Prod(ext), elem);
    Unrank(k / elem, ext)
  }

  lemma ElementRun(ext: seq<nat>, elem: nat, p: seq<nat>, k: nat)
    requires elem > 0 && InBox(p, ext) && k < Prod(ext) * elem
    ensures var s := Linear(p, ext) * elem;
      && s + elem <= Prod(ext) * elem
      && (s <= k < s + elem <==> SlotOf(ext, elem, k) == p)
      && (SlotOf(ext, elem, k) == p ==> k - s == k % elem)
  {
    hide Linear, Prod, Unrank;
    var e := Linear(p, ext);
    ByteRange(k, e, 1, elem);
    assert (e + 1) * elem == e * elem + elem;
    LinearBound(p, ext);
    MulMono(e + 1, Prod(ext), elem);
    if SlotOf(ext, elem, k) != p && k / elem == e {
      LinearInjective(SlotOf(ext, elem, k), p, ext);
    }
  }

  // ---- prefixes ----

  ghost predicate HasPrefix(p: seq<nat>, pre: seq<nat>)
  {
    |pre| <= |p| && p[..|pre|] == pre
  }

  /** First output element of the positions with prefix `pre`. */
  function Base(pre: seq<nat>, ext: seq<nat>): nat
    requires |pre| <= |ext|
  {
    Linear(pre, ext[..|pre|]) * Prod(ext[|pre|..])
  }

  lemma BaseStep(pre: seq<nat>, t: nat, ext: seq<nat>)
    requires |pre| < |ext|
    ensures Base(pre + [t], ext) == Base(pre, ext) + t * Prod(ext[|pre| + 1..])
    ensures Prod(ext[|pre|..]) == ext[|pre|] * Prod(ext[|pre| + 1..])
  {
    var n, d := |pre|, ext[..|pre| + 1];
    var rest := Prod(ext[n + 1..]);
    assert ext[n..][1..] == ext[n + 1..];
    assert Prod(ext[n..]) == ext[n] * rest;
    LinearSplit(pre + [t], d, n);
    assert (pre + [t])[..n] == pre && d[..n] == ext[..n] && (pre + [t])[n..] == [t] && d[n..] == [ext[n]];
    assert [t][1..] == [] && [ext[n]][1..] == [];
    assert Linear([t], [ext[n]]) == t && Prod([ext[n]]) == ext[n];
    Regroup(Linear(pre, ext[..n]), ext[n], t, rest, 0);
  }

  lemma BaseWhole(p: seq<nat>, ext: seq<nat>)
    requires |p| == |ext|
    ensures Base(p, ext) == Linear(p, ext)
  {
    assert ext[..|p|] == ext && ext[|p|..] == [];
  }

  /** Which output bytes an extractor at prefix `pre` has filled once it passed position `t`. */
  ghost predicate Reached(p: seq<nat>, pre: seq<nat>, t: nat)
  {
    |pre| < |p| && HasPrefix(p, pre) && p[|pre|] < t
  }

  lemma ReachedStep(p: seq<nat>, pre: seq<nat>, t: nat)
    requires |pre| < |p|
    ensures !Reached(p, pre, 0)
    ensures Reached(p, pre, t + 1) <==> Reached(p, pre, t) || HasPrefix(p, pre + [t])
  {
    var n := |pre|;
    assert p[..n + 1] == p[..n] + [p[n]];
  }

  lemma ReachedAll(p: seq<nat>, pre: seq<nat>, ext: seq<nat>)
    requires InBox(p, ext) && |pre| < |ext|
    ensures Reached(p, pre, ext[|pre|]) <==> HasPrefix(p, pre)
  {
  }

  /** Inside `mask`, `out` holds `want` at the slots with prefix `pre`; elsewhere it still holds `before`. */
  ghost predicate Filled(out: seq<byte>, before: seq<byte>, want: seq<byte>, mask: seq<bool>, ext: seq<nat>, elem: nat,
                         pre: seq<nat>)
    requires elem > 0
  {
    && |out| == |before| == |want| == |mask| == Prod(ext) * elem
    && forall k | 0 <= k < |out| ::
      out[k] == if mask[k] && HasPrefix(SlotOf(ext, elem, k), pre) then want[k] else before[k]
  }

  ghost predicate FilledTo(out: seq<byte>, before: seq<byte>, want: seq<byte>, mask: seq<bool>, ext: seq<nat>, elem: nat,
                           pre: seq<nat>, t: nat)
    requires elem > 0
  {
    && |out| == |before| == |want| == |mask| == Prod(ext) * elem
    && forall k | 0 <= k < |out| ::
      out[k] == if mask[k] && Reached(SlotOf(ext, elem, k), pre, t) then want[k] else before[k]
  }

  lemma FilledSteps(out: seq<byte>, mid: seq<byte>, before: seq<byte>, want: seq<byte>, mask: seq<bool>, ext: seq<nat>,
                    elem: nat, pre: seq<nat>, t: nat)
    requires |ext| > |pre| && elem > 0
    requires |before| == |want| == |mask| == Prod(ext) * elem
    ensures FilledTo(before, before, want, mask, ext, elem, pre, 0)
    ensures FilledTo(mid, before, want, mask, ext, elem, pre, t) && Filled(out, mid, want, mask, ext, elem, pre + [t]) ==>
              FilledTo(out, before, want, mask, ext, elem, pre, t + 1)
    ensures FilledTo(out, before, want, mask, ext, elem, pre, ext[|pre|]) ==>
              Filled(out, before, want, mask, ext, elem, pre)
  {
    hide Linear, Prod, SlotOf, Reached, HasPrefix;
    forall k | 0 <= k < |before|
      ensures !Reached(SlotOf(ext, elem, k), pre, 0)
      ensures Reached(SlotOf(ext, elem, k), pre, t + 1) <==>
              Reached(SlotOf(ext, elem, k), pre, t) || HasPrefix(SlotOf(ext, elem, k), pre + [t])
      ensures Reached(SlotOf(ext, elem, k), pre, ext[|pre|]) <==> HasPrefix(SlotOf(ext, elem, k), pre)
    {
      ReachedStep(SlotOf(ext, elem, k), pre, t);
      ReachedAll(SlotOf(ext, elem, k), pre, ext);
    }
  }

  lemma FilledElement(out: seq<byte>, before: seq<byte>, want: seq<byte>, mask: seq<bool>, ext: seq<nat>, elem: nat, p: seq<nat>)
    requires |ext| == |p| && elem > 0
    requires |out| == |before| == |want| == |mask| == Prod(ext) * elem
    requires forall k | 0 <= k < |out| ::
      out[k] == if mask[k] && SlotOf(ext, elem, k) == p then want[k] else before[k]
    ensures Filled(out, before, want, mask, ext, elem, p)
  {
    hide Linear, Prod, SlotOf;
    forall k | 0 <= k < |out| ensures HasPrefix(SlotOf(ext, elem, k), p) <==> SlotOf(ext, elem, k) == p {
      var q := SlotOf(ext, elem, k);
      assert q[..|p|] == q;
    }
  }

  function Everywhere(n: nat): (mask: seq<bool>)
    ensures |mask| == n && forall k | 0 <= k < n :: mask[k]
  {
    seq(n, _ => true)
  }

  lemma ProdEmpty()
    ensures Prod([]) == 1
  {
  }

  lemma BaseEmpty(ext: seq<nat>)
    ensures Base([], ext) == 0
  {
  }

  /** Row-major offset, accumulated from the last dimension. */
  method LinearOffset(coords: seq<nat>, dims: seq<nat>) returns (offset: nat)
    requires |coords| == |dims|
    ensures offset == Linear(coords, dims)
  {
    offset := 0;
    var stride := 1;
    var i := |coords|;
    while i > 0
      invariant 0 <= i <= |coords|
      invariant offset == Linear(coords[i..], dims[i..]) && stride == Prod(dims[i..])
    {
      i := i - 1;
      assert coords[i..][1..] == coords[i + 1..] && dims[i..][1..] == dims[i + 1..];
      offset := offset + coords[i] * stride;
      stride := stride * dims[i];
    }
  }
}
