/** Bytes, little-endian integers and buffer writes shared by every encoder and parser. */
module Bytes {
  import opened Arith

  type byte = b: int | 0 <= b < 256

  type u16 = v: int | 0 <= v < 0x1_0000
  type u32 = v: int | 0 <= v < 0x1_0000_0000
  type u64 = v: int | 0 <= v < 0x1_0000_0000_0000_0000

  const UNDEFINED: u64 := 0xFFFF_FFFF_FFFF_FFFF

  function Pow256(n: nat): (p: nat)
    ensures p > 0
  {
    if n == 0 then 1 else 256 * Pow256(n - 1)
  }

  lemma Pow256Values()
    ensures Pow256(1) == 0x100 && Pow256(2) == 0x1_0000 && Pow256(4) == 0x1_0000_0000
    ensures Pow256(8) == 0x1_0000_0000_0000_0000
  {
    assert Pow256(2) == 256 * Pow256(1);
    assert Pow256(3) == 256 * Pow256(2);
    assert Pow256(4) == 256 * Pow256(3);
    assert Pow256(5) == 256 * Pow256(4);
    assert Pow256(6) == 256 * Pow256(5);
    assert Pow256(7) == 256 * Pow256(6);
    assert Pow256(8) == 256 * Pow256(7);
  }

  /** The low `n` bytes of `v`, least significant first. */
  function LE(v: nat, n: nat): (s: seq<byte>)
    ensures |s| == n
  {
    if n == 0 then [] else [v % 256] + LE(v / 256, n - 1)
  }

  function FromLE(s: seq<byte>): (v: nat)
    ensures v < Pow256(|s|)
  {
    if s == [] then 0 else s[0] + 256 * FromLE(s[1..])
  }

  /** Writing keeps the low `n` bytes and nothing else. */
  lemma {:induction false} FromLEOfLE(v: nat, n: nat)
    ensures FromLE(LE(v, n)) == v % Pow256(n)
  {
    if n > 0 {
      FromLEOfLE(v / 256, n - 1);
      assert LE(v, n)[1..] == LE(v / 256, n - 1);
      ModSplit(v, Pow256(n - 1));
    }
  }

  lemma ModSplit(v: nat, m: nat)
    requires m > 0
    ensures v % (256 * m) == v % 256 + 256 * ((v / 256) % m)
  {
    var q, r := v / 256, v % 256;
    var k, t := q / m, q % m;
    assert q == m * k + t;
    assert v == 256 * (m * k + t) + r;
    assert 256 * (m * k) == (256 * m) * k;
    var low := 256 * t + r;
    assert v == (256 * m) * k + low;
    assert 256 * t <= 256 * (m - 1);
    assert low < 256 * m;
    assert k * (256 * m) == (256 * m) * k;
    DivUnique(v, k, low, 256 * m);
  }

  /** Reading loses nothing either. */
  lemma {:induction false} LEOfFromLE(s: seq<byte>)
    ensures LE(FromLE(s), |s|) == s
  {
    if s != [] {
      LEOfFromLE(s[1..]);
      var v := FromLE(s[1..]);
      assert FromLE(s) / 256 == v && FromLE(s) % 256 == s[0];
    }
  }

  lemma FromLEOfSmall(v: nat, n: nat)
    requires v < Pow256(n)
    ensures FromLE(LE(v, n)) == v
  {
    FromLEOfLE(v, n);
    DivUnique(v, 0, v, Pow256(n));
  }

  function Zeros(n: nat): (s: seq<byte>)
    ensures |s| == n && forall i | 0 <= i < n :: s[i] == 0
  {
    seq(n, _ => 0)
  }

  /** Go's `copy(dst[at:], src)` for a source that fits. */
  method Blit(dst: array<byte>, at: nat, src: seq<byte>)
    requires at + |src| <= dst.Length
    modifies dst
    ensures forall k | 0 <= k < dst.Length ::
      dst[k] == if at <= k < at + |src| then src[k - at] else old(dst[k])
  {
    forall i | 0 <= i < |src| {
      dst[at + i] := src[i];
    }
  }

  /** Blit into a zeroed tail extends the written prefix. */
  method Append(dst: array<byte>, at: nat, src: seq<byte>) returns (next: nat)
    requires at + |src| <= dst.Length
    modifies dst
    ensures next == at + |src|
    ensures dst[..next] == old(dst[..at]) + src
    ensures dst[next..] == old(dst[next..])
    ensures forall k | next <= k < dst.Length :: dst[k] == old(dst[k])
  {
    Blit(dst, at, src);
    next := at + |src|;
  }

  // ---- fixed-width fields ----

  lemma RoundTrip16(v: u16) ensures FromLE(LE(v, 2)) == v
  {
    hide LE, FromLE;
    Pow256Values();
    FromLEOfSmall(v, 2);
  }

  lemma RoundTrip32(v: u32) ensures FromLE(LE(v, 4)) == v
  {
    hide LE, FromLE;
    Pow256Values();
    FromLEOfSmall(v, 4);
  }

  lemma RoundTrip64(v: u64) ensures FromLE(LE(v, 8)) == v
  {
    hide LE, FromLE;
    Pow256Values();
    FromLEOfSmall(v, 8);
  }

  function U16At(s: seq<byte>, at: nat): u16
    requires at + 2 <= |s|
  {
    Pow256Values();
    FromLE(s[at..at + 2])
  }

  function U32At(s: seq<byte>, at: nat): u32
    requires at + 4 <= |s|
  {
    Pow256Values();
    FromLE(s[at..at + 4])
  }

  function U64At(s: seq<byte>, at: nat): u64
    requires at + 8 <= |s|
  {
    Pow256Values();
    FromLE(s[at..at + 8])
  }

  /** A 16-bit field, byte by byte. */
  lemma Word16(s: seq<byte>, at: nat)
    requires at + 2 <= |s|
    ensures U16At(s, at) == s[at] + (s[at + 1] as int) * 0x100
  {
    var w := s[at..at + 2];
    assert w[1..][1..] == [];
    assert FromLE(w[1..]) == w[1];
  }

  /** A 32-bit field, byte by byte. */
  lemma Word32(s: seq<byte>, at: nat)
    requires at + 4 <= |s|
    ensures U32At(s, at) == s[at] + (s[at + 1] as int) * 0x100 + (s[at + 2] as int) * 0x1_0000 + (s[at + 3] as int) * 0x100_0000
  {
    var w := s[at..at + 4];
    Word16(s, at + 2);
    assert w[1..][1..] == s[at + 2..at + 4];
    assert FromLE(w[1..]) == w[1] + 256 * FromLE(w[1..][1..]);
  }

  /** A field is 0 exactly when all its bytes are. */
  lemma {:induction false} ZeroValue(s: seq<byte>)
    ensures FromLE(s) == 0 <==> forall i | 0 <= i < |s| :: s[i] == 0
  {
    if s != [] {
      ZeroValue(s[1..]);
      assert forall i | 1 <= i < |s| :: s[i] == s[1..][i - 1];
    }
  }

  /** A slice of a slice. */
  lemma SubRange(data: seq<byte>, at: nat, part: seq<byte>, from: nat, n: nat)
    requires at + |part| <= |data| && data[at..at + |part|] == part && from + n <= |part|
    ensures data[at + from..at + from + n] == part[from..from + n]
  {
    var a, b := data[at + from..at + from + n], part[from..from + n];
    forall i | 0 <= i < |a| ensures a[i] == b[i] {
      assert a[i] == data[at + (from + i)] == data[at..at + |part|][from + i];
    }
  }

  /** Index of the first zero byte from `from` on, or the end. */
  function NulEnd(p: seq<byte>, from: nat): (e: nat)
    requires from <= |p|
    ensures from <= e <= |p| && (e < |p| ==> p[e] == 0)
    ensures forall i | from <= i < e :: p[i] != 0
    decreases |p| - from
  {
    if from == |p| || p[from] == 0 then from else NulEnd(p, from + 1)
  }

  ghost predicate NulFree(s: seq<byte>)
  {
    forall i | 0 <= i < |s| :: s[i] != 0
  }

  // ---- elements of a permutation ----

  lemma Twice<T>(s: seq<T>, i: nat, j: nat)
    requires i < j < |s| && s[i] == s[j]
    ensures multiset(s)[s[i]] >= 2
  {
    assert s == s[..j] + s[j..];
    assert s[i] in s[..j] && s[j] in s[j..];
  }

  lemma {:induction false} AtMostOnce<T>(s: seq<T>, x: T)
    requires forall i, j | 0 <= i < j < |s| :: s[i] != s[j]
    ensures multiset(s)[x] <= 1
  {
    if s != [] {
      var n := |s| - 1;
      AtMostOnce(s[..n], x);
      assert s == s[..n] + [s[n]];
      assert x == s[n] ==> x !in s[..n];
    }
  }
}
