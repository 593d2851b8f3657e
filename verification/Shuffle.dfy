/** The byte-shuffle filter: ShuffleFilter.Apply on the writing side (internal/writer/filter_shuffle.go) and
    applyShuffle on the reading side (internal/core/filterpipeline.go). */
module Shuffle {
  import opened Arith
  import opened Bytes
  import opened Storage

  /** Byte `k` of the transpose of `n` rows of `e` bytes. */
  function Source(k: nat, n: nat, e: nat): nat
    requires n > 0
  {
    (k % n) * e + k / n
  }

  lemma SourceInside(k: nat, n: nat, e: nat)
    requires k < e * n
    ensures n > 0 && Source(k, n, e) < n * e
  {
    DivBelow(k, e, n);
    MulMono(k % n, n - 1, e);
    assert (n - 1) * e + e == n * e;
  }

  /** Byte `b` of element `i` moves to place `b * n + i`. */
  lemma SourceAt(i: nat, b: nat, n: nat, e: nat)
    requires i < n && b < e
    ensures b * n + i < e * n && Source(b * n + i, n, e) == i * e + b
  {
    DivUnique(b * n + i, b, i, n);
    MulMono(b, e - 1, n);
    assert (e - 1) * n + n == e * n;
  }

  /** `n` elements of `e` bytes, transposed: all first bytes, then all second bytes, and so on. */
  function Transposed(data: seq<byte>, n: nat, e: nat): (s: seq<byte>)
    requires |data| == n * e == e * n
    ensures |s| == |data|
  {
    seq(|data|, k requires 0 <= k < |data| => (SourceInside(k, n, e); data[Source(k, n, e)]))
  }

  /** Transposing back restores every byte. */
  lemma TransposedTwice(data: seq<byte>, n: nat, e: nat)
    requires |data| == n * e == e * n
    ensures Transposed(Transposed(data, n, e), e, n) == data
  {
    hide Source;
    var s := Transposed(data, n, e);
    forall k | 0 <= k < |data| ensures Transposed(s, e, n)[k] == data[k] {
      SourceInside(k, e, n);
      SourceBack(k, n, e);
    }
  }

  lemma SourceBack(k: nat, n: nat, e: nat)
    requires k < n * e
    ensures n > 0 && e > 0 && Source(Source(k, e, n), n, e) == k
  {
    DivBelow(k, n, e);
    SourceAt(k / e, k % e, n, e);
    assert k == (k / e) * e + k % e;
  }

  lemma Elements(len: nat, e: nat)
    requires e > 0 && len % e == 0
    ensures (len / e) * e == len == e * (len / e)
  {
  }

  /** The length as the writer computes it, in 32 bits. */
  function Word(n: nat): u32 { n % 0x1_0000_0000 }

  /** ShuffleFilter.Apply: the bytes its 32-bit length counts are transposed and the rest is dropped, except that
      everything is passed on when that length is 0; an element size of zero is never configured. */
  method ApplyFilter(data: seq<byte>, elementSize: u32) returns (r: Result<seq<byte>>)
    requires elementSize > 0
    ensures r.Ok? <==> Word(|data|) % elementSize == 0
    ensures Word(|data|) == 0 ==> r == Ok(data)
    ensures Word(|data|) > 0 && r.Ok? ==> var d := Word(|data|);
      && d <= |data| && (d / elementSize) * elementSize == d == elementSize * (d / elementSize)
      && r == Ok(Transposed(data[..d], d / elementSize, elementSize))
  {
    var e, d: nat := elementSize, Word(|data|);
    if d == 0 {
      return Ok(data);
    }
    if d % e != 0 {
      return Err;
    }
    Elements(d, e);
    var shuffled := Transpose(data[..d], d / e, e);
    r := Ok(shuffled);
  }

  /** The first `upto` bytes are final. */
  ghost predicate Agrees(out: seq<byte>, want: seq<byte>, upto: nat)
  {
    |out| == |want| && forall k | 0 <= k < |out| && k < upto :: out[k] == want[k]
  }

  lemma AgreesAtStart(out: seq<byte>, want: seq<byte>)
    requires |out| == |want|
    ensures Agrees(out, want, 0)
  {
  }

  lemma AgreesStep(out: seq<byte>, want: seq<byte>, at: nat)
    requires Agrees(out, want, at) && at < |want|
    ensures |out| == |want| && Agrees(out[at := want[at]], want, at + 1)
  {
  }

  lemma AgreesEnd(out: seq<byte>, want: seq<byte>, upto: nat)
    requires Agrees(out, want, upto) && upto == |want|
    ensures out == want
  {
  }

  lemma NextRow(row: nat, width: nat)
    ensures row * width + width == (row + 1) * width
  {
  }

  lemma TransposedAt(data: seq<byte>, n: nat, e: nat, i: nat, b: nat)
    requires |data| == n * e == e * n && i < n && b < e
    ensures b * n + i < |data| && i * e + b < |data|
    ensures Transposed(data, n, e)[b * n + i] == data[i * e + b]
  {
    hide Source;
    SourceAt(i, b, n, e);
    SourceInside(b * n + i, n, e);
  }

  /** The two nested loops of the writer: byte position outside, element inside. */
  method Transpose(data: seq<byte>, n: nat, e: nat) returns (s: seq<byte>)
    requires |data| == n * e == e * n
    ensures s == Transposed(data, n, e)
  {
    hide Source, Transposed, Agrees;
    AgreesAtStart(Zeros(|data|), Transposed(data, n, e));
    var out := new byte[|data|](_ => 0);
    assert out[..] == Zeros(|data|);
    var b := 0;
    while b < e
      invariant b <= e
      invariant Agrees(out[..], Transposed(data, n, e), b * n)
    {
      var i := 0;
      while i < n
        invariant i <= n
        invariant Agrees(out[..], Transposed(data, n, e), b * n + i)
      {
        TransposedAt(data, n, e, i, b);
        AgreesStep(out[..], Transposed(data, n, e), b * n + i);
        var srcIndex, dstIndex := i * e + b, b * n + i;
        ghost var before := out[..];
        out[dstIndex] := data[srcIndex];
        assert out[..] == before[dstIndex := data[srcIndex]];
        i := i + 1;
      }
      NextRow(b, n);
      b := b + 1;
    }
    s := out[..];
    AgreesEnd(s, Transposed(data, n, e), e * n);
  }

  /** applyShuffle with the element size from the filter's client data. */
  method Unshuffle(data: seq<byte>, clientData: seq<u32>) returns (r: Result<seq<byte>>)
    ensures r.Ok? <==> clientData != [] && 0 < clientData[0] <= |data| && |data| % clientData[0] == 0
    ensures r.Ok? ==> var e := clientData[0];
      (|data| / e) * e == |data| == e * (|data| / e) && r.value == Transposed(data, e, |data| / e)
  {
    if |clientData| == 0 {
      return Err;
    }
    var e: nat := clientData[0];
    if e <= 0 || e > |data| {
      return Err;
    }
    var n := |data| / e;
    if |data| % e != 0 {
      return Err;
    }
    Elements(|data|, e);
    var back := TransposeBack(data, n, e);
    r := Ok(back);
  }

  /** The reader's loops: element outside, byte position inside. */
  method TransposeBack(data: seq<byte>, n: nat, e: nat) returns (s: seq<byte>)
    requires |data| == n * e == e * n
    ensures s == Transposed(data, e, n)
  {
    hide Source, Transposed, Agrees;
    AgreesAtStart(Zeros(|data|), Transposed(data, e, n));
    var out := new byte[|data|](_ => 0);
    assert out[..] == Zeros(|data|);
    var i := 0;
    while i < n
      invariant i <= n
      invariant Agrees(out[..], Transposed(data, e, n), i * e)
    {
      var b := 0;
      while b < e
        invariant b <= e
        invariant Agrees(out[..], Transposed(data, e, n), i * e + b)
      {
        TransposedAt(data, e, n, b, i);
        AgreesStep(out[..], Transposed(data, e, n), i * e + b);
        var srcPos, dstPos := b * n + i, i * e + b;
        ghost var before := out[..];
        out[dstPos] := data[srcPos];
        assert out[..] == before[dstPos := data[srcPos]];
        b := b + 1;
      }
      NextRow(i, e);
      i := i + 1;
    }
    s := out[..];
    AgreesEnd(s, Transposed(data, e, n), n * e);
  }

  /** Writing and reading agree on non-empty buffers below 2^32 bytes.  The reader refuses the empty buffer the writer
      passes through; from 2^32 bytes on it recovers only what the 32-bit length counts, and when that is nothing, it
      unshuffles what was never shuffled. */
  method RoundTrip(data: seq<byte>, elementSize: u32) returns (stored: Result<seq<byte>>, r: Result<seq<byte>>)
    requires elementSize > 0
    ensures stored.Ok? <==> Word(|data|) % elementSize == 0
    ensures stored.Ok? && 0 < |data| < 0x1_0000_0000 ==> r == Ok(data)
    ensures data == [] ==> stored == Ok(data) && r == Err
    ensures stored.Ok? && |data| >= 0x1_0000_0000 && Word(|data|) > 0 ==> r == Ok(data[..Word(|data|)])
    ensures |data| >= 0x1_0000_0000 && Word(|data|) == 0 ==> stored == Ok(data) && (r.Ok? <==> |data| % elementSize == 0)
  {
    hide Transposed;
    r := Err;
    stored := ApplyFilter(data, elementSize);
    if stored.Ok? {
      var d: nat := Word(|data|);
      r := Unshuffle(stored.value, [elementSize]);
      if d > 0 {
        WholeElements(d, elementSize);
        TransposedTwice(data[..d], d / elementSize, elementSize);
        if |data| < 0x1_0000_0000 {
          assert data[..d] == data;
        }
      }
    }
  }

  lemma WholeElements(len: nat, e: nat)
    requires e > 0 && len % e == 0
    ensures len > 0 ==> e <= len
  {
    if 0 < len < e {
      DivUnique(len, 0, len, e);
    }
  }
}
