/** The file: bytes by address, and the allocator's contract of fresh, disjoint ranges. */
module Storage {
  import opened Bytes

  datatype Option<+T> = None | Some(value: T)

  datatype Result<+T> = Ok(value: T) | Err

  /** A list read so far, before what the rest of the read gives. */
  function Prepend<T>(first: seq<T>, rest: Result<seq<T>>): Result<seq<T>>
  {
    if rest.Err? then Err else Ok(first + rest.value)
  }

  lemma PrependLaws<T>(a: seq<T>, b: seq<T>, r: Result<seq<T>>)
    ensures Prepend(a, Prepend(b, r)) == Prepend(a + b, r) && Prepend([], r) == r
  {
    if r.Ok? {
      assert a + (b + r.value) == a + b + r.value && [] + r.value == r.value;
    }
  }

  lemma PrependErr<T>(a: seq<T>)
    ensures Prepend(a, Err) == Err
  {
  }

  lemma PrependEnd<T>(a: seq<T>)
    ensures Prepend(a, Ok([])) == Ok(a)
  {
    assert a + [] == a;
  }

  /** Bytes written so far; reading an address never written fails, as past the end of the file. */
  type Mem = map<nat, byte>

  function Load(m: Mem, at: nat, n: nat): (r: Option<seq<byte>>)
    ensures r.Some? <==> forall i | at <= i < at + n :: i in m
    ensures r.Some? ==> |r.value| == n && forall i | 0 <= i < n :: r.value[i] == m[at + i]
  {
    if forall i | at <= i < at + n :: i in m
    then Some(seq(n, i requires 0 <= i < n => m[at + i]))
    else None
  }

  function Store(m: Mem, at: nat, bs: seq<byte>): (m': Mem)
    ensures forall i: nat {:trigger i in m'} :: i in m' <==> (i in m || at <= i < at + |bs|)
    ensures forall i | i in m' :: m'[i] == if at <= i < at + |bs| then bs[i - at] else m[i]
    decreases |bs|
  {
    if bs == [] then m else Store(m[at := bs[0]], at + 1, bs[1..])
  }

  ghost predicate Holds(m: Mem, at: nat, bs: seq<byte>)
  {
    forall i: nat | at <= i < at + |bs| :: i in m && m[i] == bs[i - at]
  }

  lemma LoadHeld(m: Mem, at: nat, bs: seq<byte>, from: nat, n: nat)
    requires Holds(m, at, bs) && from + n <= |bs|
    ensures Load(m, at + from, n) == Some(bs[from..from + n])
  {
    var r := Load(m, at + from, n);
    assert r.Some? && r.value == bs[from..from + n];
  }

  lemma StoreHolds(m: Mem, at: nat, bs: seq<byte>)
    ensures Holds(Store(m, at, bs), at, bs)
  {
  }

  predicate Disjoint(a: nat, n: nat, b: nat, k: nat)
  {
    a + n <= b || b + k <= a
  }

  lemma StoreKeeps(m: Mem, at: nat, bs: seq<byte>, other: nat, cs: seq<byte>)
    requires Holds(m, other, cs) && Disjoint(at, |bs|, other, |cs|)
    ensures Holds(Store(m, at, bs), other, cs)
  {
  }

  ghost predicate AllApart(regions: map<nat, nat>)
  {
    forall a, b | a in regions && b in regions && a != b :: Disjoint(a, regions[a], b, regions[b])
  }

  /** Bytes already written in `regions` are unchanged. */
  ghost predicate Untouched(before: Mem, after: Mem, regions: map<nat, nat>)
  {
    forall a, i: nat | a in regions && a <= i < a + regions[a] && i in before :: i in after && after[i] == before[i]
  }

  lemma UntouchedStep(m0: Mem, m1: Mem, regions: map<nat, nat>, at: nat, bs: seq<byte>)
    requires Untouched(m0, m1, regions)
    requires forall a | a in regions :: Disjoint(at, |bs|, a, regions[a])
    ensures Untouched(m0, Store(m1, at, bs), regions)
  {
  }

  lemma UntouchedSelf(m: Mem, regions: map<nat, nat>)
    ensures Untouched(m, m, regions)
  {
  }

  ghost predicate Extends(before: map<nat, nat>, after: map<nat, nat>)
  {
    forall a | a in before :: a in after && after[a] == before[a]
  }

  lemma UntouchedChain(m0: Mem, m1: Mem, m2: Mem, regions0: map<nat, nat>, regions1: map<nat, nat>)
    requires Untouched(m0, m1, regions0) && Untouched(m1, m2, regions1) && Extends(regions0, regions1)
    ensures Untouched(m0, m2, regions0)
  {
    forall a, i: nat | a in regions0 && a <= i < a + regions0[a] && i in m0 ensures i in m2 && m2[i] == m0[i] {
      assert i in m1 && m1[i] == m0[i] && regions1[a] == regions0[a];
    }
  }

  lemma ExtendsChain(regions0: map<nat, nat>, regions1: map<nat, nat>, regions2: map<nat, nat>)
    requires Extends(regions0, regions1) && Extends(regions1, regions2)
    ensures Extends(regions0, regions2)
  {
  }

  lemma UntouchedHolds(before: Mem, after: Mem, regions: map<nat, nat>, at: nat, bs: seq<byte>)
    requires Untouched(before, after, regions) && at in regions && |bs| <= regions[at] && Holds(before, at, bs)
    ensures Holds(after, at, bs)
  {
  }

  /** The writer's view of the file.  `regions` maps each allocated address to its size; `refusals` counts
      failed reservations. */
  class FileWriter {
    var mem: Mem
    var nextOffset: nat
    ghost var regions: map<nat, nat>
    ghost var refusals: nat

    const MAX_FILE: nat := 0x7FFF_FFFF_FFFF_FFFF

    ghost predicate Valid()
      reads this
    {
      && 0 < nextOffset
      && (forall a | a in regions :: 0 < a && 0 < regions[a] && a + regions[a] <= nextOffset)
      && AllApart(regions)
    }

    /** Space before `initialOffset` holds the superblock. */
    constructor (initialOffset: nat)
      requires 0 < initialOffset
      ensures Valid() && mem == map[] && regions == map[] && refusals == 0
    {
      mem, nextOffset, regions, refusals := map[], initialOffset, map[], 0;
    }

    /** Reserves a range disjoint from every range reserved before; fails when the file would be too large. */
    method Allocate(size: nat) returns (r: Result<u64>)
      requires Valid()
      modifies this
      ensures Valid() && mem == old(mem)
      ensures r.Err? <==> size == 0 || old(nextOffset) + size > MAX_FILE
      ensures r.Err? ==> regions == old(regions)
      ensures refusals == old(refusals) + if r.Err? then 1 else 0
      ensures r.Ok? ==> 0 < size && 0 < r.value && r.value + size <= MAX_FILE
      ensures r.Ok? ==> r.value !in old(regions) && regions == old(regions)[r.value := size]
      ensures r.Ok? ==> forall a | a in old(regions) :: Disjoint(a, old(regions)[a], r.value, size)
    {
      if size == 0 || nextOffset + size > MAX_FILE {
        refusals := refusals + 1;
        return Err;
      }
      r := Ok(nextOffset);
      regions := regions[nextOffset := size];
      nextOffset := nextOffset + size;
    }

    method WriteAt(at: nat, bs: seq<byte>)
      requires Valid()
      modifies this`mem
      ensures Valid() && mem == Store(old(mem), at, bs)
    {
      mem := Store(mem, at, bs);
    }
  }
}
