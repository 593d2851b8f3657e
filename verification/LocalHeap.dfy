/** The local heap's data segment as bytes: null-terminated strings at offsets (internal/structures/localheap.go). */
module LocalHeap {
  import opened Bytes
  import opened Storage

  /** GetString. */
  function StringAt(data: seq<byte>, offset: nat): Option<seq<byte>>
  {
    if offset >= |data| then None
    else
      var e := NulEnd(data, offset);
      if e >= |data| then None else Some(data[offset..e])
  }

  method GetString(data: seq<byte>, offset: nat) returns (r: Option<seq<byte>>)
    ensures r == StringAt(data, offset)
  {
    if offset >= |data| {
      return None;
    }
    var end := offset;
    while end < |data| && data[end] != 0
      invariant offset <= end <= |data| && NulEnd(data, offset) == NulEnd(data, end)
    {
      end := end + 1;
    }
    if end >= |data| {
      return None;
    }
    r := Some(data[offset..end]);
  }

  /** Bytes in use, counting the terminator of the last string; at least the empty string at offset 0. */
  function Used(data: seq<byte>): (n: nat)
    ensures n <= |data| + 1
  {
    if data == [] || (|data| == 1 && data[0] == 0) then 1
    else if data[|data| - 1] != 0 then |data|
    else if |data| >= 2 && data[|data| - 2] != 0 then |data|
    else Used(data[..|data| - 1])
  }

  /** A segment holds the empty string at offset 0 and ends with a terminator. */
  ghost predicate WellFormed(data: seq<byte>)
  {
    |data| >= 1 && data[0] == 0 && data[|data| - 1] == 0
  }

  /** The used part ends with the terminator of the last string; everything behind it is zero. */
  lemma {:induction false} UsedFacts(data: seq<byte>)
    requires WellFormed(data)
    ensures 1 <= Used(data) <= |data| && data[Used(data) - 1] == 0
    ensures forall i | Used(data) <= i < |data| :: data[i] == 0
    ensures Used(data) == 1 || data[Used(data) - 2] != 0
  {
    if |data| > 1 && data[|data| - 2] == 0 {
      UsedFacts(data[..|data| - 1]);
    }
  }

  /** PrepareForModification: the scan for the last non-zero byte. */
  method MeasureUsed(data: seq<byte>) returns (used: nat)
    requires WellFormed(data)
    ensures used == Used(data)
  {
    used := 1;
    var i := |data| - 1;
    while i >= 0
      invariant -1 <= i < |data| && used == 1
      invariant forall j | i < j < |data| :: data[j] == 0
    {
      if data[i] != 0 {
        UsedEnds(data, i);
        return i + 2;
      }
      i := i - 1;
    }
    AllZero(data);
  }

  lemma {:induction false} AllZero(data: seq<byte>)
    requires data != [] && forall j | 0 <= j < |data| :: data[j] == 0
    ensures Used(data) == 1
  {
    if |data| > 1 {
      AllZero(data[..|data| - 1]);
    }
  }

  lemma {:induction false} UsedEnds(data: seq<byte>, i: nat)
    requires WellFormed(data) && i < |data| && data[i] != 0 && forall j | i < j < |data| :: data[j] == 0
    ensures Used(data) == i + 2
    decreases |data|
  {
    if |data| > i + 2 {
      UsedEnds(data[..|data| - 1], i);
    }
  }

  /** AddString and the rewrite: the string and its terminator go behind the used part, if they fit. */
  function Added(data: seq<byte>, s: seq<byte>): Option<seq<byte>>
  {
    var used := Used(data);
    if used + |s| + 1 > |data| then None else Some(data[..used] + s + [0] + Zeros(|data| - used - |s| - 1))
  }

  /** The new string is read at its offset; strings that started in the used part are unchanged. */
  lemma AddedReads(data: seq<byte>, s: seq<byte>)
    requires WellFormed(data) && NulFree(s) && Added(data, s).Some?
    ensures var data' := Added(data, s).value;
      && WellFormed(data') && |data'| == |data| && StringAt(data', Used(data)) == Some(s)
      && (s != [] ==> Used(data') == Used(data) + |s| + 1)
      && forall o | 0 <= o < Used(data) :: StringAt(data', o) == StringAt(data, o) && StringAt(data, o).Some?
  {
    hide Used;
    UsedFacts(data);
    var data', used := Added(data, s).value, Used(data);
    EndFound(data', used, used + |s|);
    assert data'[used..used + |s|] == s;
    forall o | 0 <= o < used ensures StringAt(data', o) == StringAt(data, o) && StringAt(data, o).Some? {
      EndFound(data', o, NulEnd(data, o));
      assert data'[o..NulEnd(data, o)] == data[o..NulEnd(data, o)];
    }
    if s != [] {
      assert data'[used + |s| - 1] == s[|s| - 1];
      UsedEnds(data', used + |s| - 1);
    }
  }

  /** NewLocalHeap: at least 16 bytes, in multiples of 8. */
  function RoundedSize(n: nat): (r: nat)
    ensures n <= r && 16 <= r && r % 8 == 0 && (r == 16 || r < n + 8)
  {
    if n < 16 then 16 else (n + 7) / 8 * 8
  }

  /** expandHeapAndAdd up to the new string: a segment of twice the size with the same strings at the same offsets. */
  function Grown(data: seq<byte>): (r: seq<byte>)
    ensures |r| == RoundedSize(2 * |data|)
  {
    data + Zeros(RoundedSize(2 * |data|) - |data|)
  }

  /** Growing changes no string and uses no space. */
  lemma GrownReads(data: seq<byte>)
    requires WellFormed(data)
    ensures WellFormed(Grown(data)) && Used(Grown(data)) == Used(data)
    ensures 2 * |data| <= |Grown(data)| && (8 <= |data| ==> |Grown(data)| < 2 * |data| + 8)
    ensures forall o | 0 <= o < Used(data) :: StringAt(Grown(data), o) == StringAt(data, o)
  {
    hide Used;
    UsedFacts(data);
    UsedPadded(data, |Grown(data)| - |data|);
    forall o | 0 <= o < Used(data) ensures StringAt(Grown(data), o) == StringAt(data, o) {
      EndFound(Grown(data), o, NulEnd(data, o));
      assert Grown(data)[o..NulEnd(data, o)] == data[o..NulEnd(data, o)];
    }
  }

  lemma {:induction false} UsedPadded(data: seq<byte>, n: nat)
    requires WellFormed(data)
    ensures Used(data + Zeros(n)) == Used(data)
  {
    if n == 0 {
      assert data + Zeros(0) == data;
    } else {
      var more := data + Zeros(n);
      UsedPadded(data, n - 1);
      assert more[..|more| - 1] == data + Zeros(n - 1);
      assert more[|more| - 1] == 0 && more[|more| - 2] == 0;
    }
  }

  lemma {:induction false} EndFound(data: seq<byte>, from: nat, e: nat)
    requires from <= e < |data| && data[e] == 0 && forall i | from <= i < e :: data[i] != 0
    ensures NulEnd(data, from) == e
    decreases e - from
  {
    if from < e {
      EndFound(data, from + 1, e);
    }
  }
}
