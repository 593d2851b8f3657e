/** Links of a symbol-table group: sorted leaf nodes of eight entries under one rebuilt B-tree node
    (group_write.go, internal/structures/btree_group.go).
    Formats: sections III.A.1 and III.B of the HDF5 File Format Specification Version 3.0. */
module GroupLinks {
  import opened Bytes
  import opened Storage
  import opened LocalHeap

  const SNOD_CAPACITY: nat := 8
  const SNOD_SIZE: nat := 8 + SNOD_CAPACITY * 40
  const MAX_KEYS: nat := 33
  const MAX_CHILDREN: nat := 32

  /** A symbol table entry: name by heap offset, object by header address. */
  datatype Entry = Entry(nameOffset: u64, target: u64)

  // ---- name order ----

  /** Go's string order: byte by byte, a proper prefix first. */
  function Compare(a: seq<byte>, b: seq<byte>): int
  {
    if a == [] then (if b == [] then 0 else -1)
    else if b == [] then 1
    else if a[0] < b[0] then -1
    else if a[0] > b[0] then 1
    else Compare(a[1..], b[1..])
  }

  /** One name is before another exactly when it is a proper prefix of it, or smaller at the first difference. */
  lemma {:induction false} CompareMeans(a: seq<byte>, b: seq<byte>)
    ensures Compare(a, b) < 0 <==>
      exists k: nat :: k < |b| && k <= |a| && a[..k] == b[..k] && (k == |a| || a[k] < b[k])
  {
    if a != [] && b != [] && a[0] == b[0] {
      CompareMeans(a[1..], b[1..]);
      if Compare(a, b) < 0 {
        var k: nat :| k < |b[1..]| && k <= |a[1..]| && a[1..][..k] == b[1..][..k] && (k == |a[1..]| || a[1..][k] < b[1..][k]);
        assert a[..k + 1] == [a[0]] + a[1..][..k] && b[..k + 1] == [b[0]] + b[1..][..k];
      }
      if k: nat :| k < |b| && k <= |a| && a[..k] == b[..k] && (k == |a| || a[k] < b[k]) {
        assert a[1..][..k - 1] == a[..k][1..] && b[1..][..k - 1] == b[..k][1..];
      }
    } else if a != [] && b != [] {
      assert forall k: nat | 0 < k <= |a| && k <= |b| :: a[..k][0] == a[0] && b[..k][0] == b[0];
      assert a[..0] == b[..0];
    } else if b != [] {
      assert a[..0] == b[..0];
    }
  }

  lemma {:induction false} CompareTotal(a: seq<byte>, b: seq<byte>, c: seq<byte>)
    ensures Compare(a, b) == -Compare(b, a) && (Compare(a, b) == 0 <==> a == b)
    ensures Compare(a, b) <= 0 && Compare(b, c) <= 0 ==> Compare(a, c) <= 0
    ensures Compare(a, b) < 0 && Compare(b, c) <= 0 ==> Compare(a, c) < 0
    ensures Compare(a, b) <= 0 && Compare(b, c) < 0 ==> Compare(a, c) < 0
    ensures b != [] ==> Compare([], b) < 0
  {
    if a != [] && b != [] {
      CompareTotal(a[1..], b[1..], if c == [] then [] else c[1..]);
      assert a == [a[0]] + a[1..] && b == [b[0]] + b[1..];
    } else if b != [] && c != [] {
      CompareSame(b, c);
    }
  }

  lemma CompareSame(b: seq<byte>, c: seq<byte>)
    ensures b != [] && Compare(b, c) <= 0 ==> c != []
  {
  }

  /** The name an entry has in a heap; unreadable names count as empty. */
  function NameIn(heap: seq<byte>, e: Entry): seq<byte>
  {
    var s := StringAt(heap, e.nameOffset);
    if s.Some? then s.value else []
  }

  ghost predicate SortedIn(heap: seq<byte>, es: seq<Entry>)
  {
    forall i, j | 0 <= i < j < |es| :: Compare(NameIn(heap, es[i]), NameIn(heap, es[j])) <= 0
  }

  ghost predicate DistinctNames(heap: seq<byte>, es: seq<Entry>)
  {
    forall i, j | 0 <= i < j < |es| :: NameIn(heap, es[i]) != NameIn(heap, es[j])
  }

  /** resolveEntryName: the new name is not yet in the heap that was read. */
  function Resolved(heap: seq<byte>, newOffset: nat, newName: seq<byte>, e: Entry): seq<byte>
  {
    if e.nameOffset == newOffset then newName else NameIn(heap, e)
  }

  ghost predicate SortedBy(heap: seq<byte>, newOffset: nat, newName: seq<byte>, es: seq<Entry>)
  {
    forall i, j | 0 <= i < j < |es| ::
      Compare(Resolved(heap, newOffset, newName, es[i]), Resolved(heap, newOffset, newName, es[j])) <= 0
  }

  /** sortEntriesByName, as a library sort: a permutation in name order that leaves entries in order alone. */
  method SortEntriesByName(es: seq<Entry>, heap: seq<byte>, newOffset: nat, newName: seq<byte>) returns (sorted: seq<Entry>)
    ensures multiset(sorted) == multiset(es) && SortedBy(heap, newOffset, newName, sorted)
    ensures SortedBy(heap, newOffset, newName, es) ==> sorted == es
  {
    hide Resolved, SortedBy, Compare;
    sorted := [];
    NothingSorted(heap, newOffset, newName);
    var n := 0;
    while n < |es|
      invariant n <= |es| && multiset(sorted) == multiset(es[..n]) && SortedBy(heap, newOffset, newName, sorted)
      invariant SortedBy(heap, newOffset, newName, es) ==> sorted == es[..n]
    {
      var i := PlaceFor(sorted, es[n], heap, newOffset, newName);
      InsertedSorted(heap, newOffset, newName, sorted, es[n], i);
      InsertedNext(heap, newOffset, newName, es, n, sorted, i);
      sorted := sorted[..i] + [es[n]] + sorted[i..];
      n := n + 1;
    }
    assert es[..n] == es;
  }

  /** Inserting the next entry takes up one more; when all are in order it goes to the end. */
  lemma InsertedNext(heap: seq<byte>, newOffset: nat, newName: seq<byte>, es: seq<Entry>, n: nat, sorted: seq<Entry>, i: nat)
    requires n < |es| && i <= |sorted| && multiset(sorted) == multiset(es[..n])
    requires SortedBy(heap, newOffset, newName, es) ==> sorted == es[..n]
    requires forall j | i <= j < |sorted| :: Compare(Resolved(heap, newOffset, newName, es[n]), Resolved(heap, newOffset, newName, sorted[j])) < 0
    ensures multiset(sorted[..i] + [es[n]] + sorted[i..]) == multiset(es[..n + 1])
    ensures SortedBy(heap, newOffset, newName, es) ==> sorted[..i] + [es[n]] + sorted[i..] == es[..n + 1]
  {
    hide Compare, Resolved, SortedBy;
    assert es[..n + 1] == es[..n] + [es[n]];
    assert sorted == sorted[..i] + sorted[i..];
    if SortedBy(heap, newOffset, newName, es) && n > 0 {
      SortedStep(heap, newOffset, newName, es, n);
      assert sorted[n - 1] == es[n - 1];
      assert i == n;
    }
  }

  /** Where an entry goes among sorted ones: behind all that are not greater. */
  method PlaceFor(es: seq<Entry>, e: Entry, heap: seq<byte>, newOffset: nat, newName: seq<byte>) returns (i: nat)
    ensures i <= |es|
    ensures i > 0 ==> Compare(Resolved(heap, newOffset, newName, e), Resolved(heap, newOffset, newName, es[i - 1])) >= 0
    ensures forall j | i <= j < |es| :: Compare(Resolved(heap, newOffset, newName, e), Resolved(heap, newOffset, newName, es[j])) < 0
  {
    hide Resolved, Compare;
    i := |es|;
    while i > 0 && Compare(Resolved(heap, newOffset, newName, e), Resolved(heap, newOffset, newName, es[i - 1])) < 0
      invariant i <= |es|
      invariant forall j | i <= j < |es| :: Compare(Resolved(heap, newOffset, newName, e), Resolved(heap, newOffset, newName, es[j])) < 0
    {
      i := i - 1;
    }
  }

  lemma NothingSorted(heap: seq<byte>, newOffset: nat, newName: seq<byte>)
    ensures SortedBy(heap, newOffset, newName, [])
  {
  }

  lemma SortedStep(heap: seq<byte>, newOffset: nat, newName: seq<byte>, es: seq<Entry>, n: nat)
    requires SortedBy(heap, newOffset, newName, es) && 0 < n < |es|
    ensures Compare(Resolved(heap, newOffset, newName, es[n]), Resolved(heap, newOffset, newName, es[n - 1])) >= 0
  {
    hide Compare, Resolved;
    CompareTotal(Resolved(heap, newOffset, newName, es[n - 1]), Resolved(heap, newOffset, newName, es[n]), []);
  }

  lemma InsertedSorted(heap: seq<byte>, newOffset: nat, newName: seq<byte>, es: seq<Entry>, e: Entry, i: nat)
    requires SortedBy(heap, newOffset, newName, es) && i <= |es|
    requires i > 0 ==> Compare(Resolved(heap, newOffset, newName, e), Resolved(heap, newOffset, newName, es[i - 1])) >= 0
    requires forall j | i <= j < |es| :: Compare(Resolved(heap, newOffset, newName, e), Resolved(heap, newOffset, newName, es[j])) < 0
    ensures SortedBy(heap, newOffset, newName, es[..i] + [e] + es[i..])
  {
    hide Compare, Resolved;
    var name := x => Resolved(heap, newOffset, newName, x);
    forall j | 0 <= j < i ensures Compare(name(es[j]), name(e)) <= 0 {
      CompareTotal(name(e), name(es[i - 1]), name(e));
      CompareTotal(name(es[j]), name(es[i - 1]), name(e));
    }
    var r := es[..i] + [e] + es[i..];
    forall a, b | 0 <= a < b < |r| ensures Compare(name(r[a]), name(r[b])) <= 0 {
      if b < i {
        assert r[a] == es[a] && r[b] == es[b];
      } else if b == i {
        assert r[a] == es[a];
      } else if a < i {
        assert r[a] == es[a] && r[b] == es[b - 1];
      } else if a == i {
        assert r[b] == es[b - 1];
      } else {
        assert r[a] == es[a - 1] && r[b] == es[b - 1];
      }
    }
  }

  // ---- the B-tree node ----

  /** The node as stored: a count, 33 key slots and 32 child slots. */
  datatype StoredNode = StoredNode(used: nat, keys: seq<u64>, children: seq<u64>) {
    ghost predicate Valid() { |keys| == 33 && |children| == 32 }
  }

  /** BTreeNodeV1 under construction. */
  class BTreeNode {
    var keys: seq<u64>
    var children: seq<u64>

    constructor ()
      ensures keys == [] && children == []
    {
      keys, children := [], [];
    }

    /** AddKey: refused when the key slice is at its capacity of 33. */
    method AddKey(key: u64, child: u64) returns (ok: bool)
      modifies this
      ensures ok <==> |old(keys)| < 33
      ensures keys == old(keys) + if ok then [key] else []
      ensures children == old(children) + if ok then [child] else []
    {
      ok := |keys| < MAX_KEYS;
      if ok {
        keys := keys + [key];
        children := children + [child];
      }
    }

    /** WriteAt: keys and children beyond the slots are dropped, missing ones are zero, the count is kept. */
    method Write() returns (node: StoredNode)
      ensures node.Valid() && node.used == |children|
      ensures forall i | 0 <= i < 33 :: node.keys[i] == if i < |keys| then keys[i] else 0
      ensures forall i | 0 <= i < 32 :: node.children[i] == if i < |children| then children[i] else 0
    {
      var ks: seq<u64>, cs: seq<u64> := [], [];
      var i := 0;
      while i < MAX_KEYS
        invariant i == |ks| <= MAX_KEYS && |cs| == if i < MAX_CHILDREN then i else MAX_CHILDREN
        invariant forall j | 0 <= j < |ks| :: ks[j] == if j < |keys| then keys[j] else 0
        invariant forall j | 0 <= j < |cs| :: cs[j] == if j < |children| then children[j] else 0
      {
        ks := ks + [if i < |keys| then keys[i] else 0];
        if i < MAX_CHILDREN {
          cs := cs + [if i < |children| then children[i] else 0];
        }
        i := i + 1;
      }
      node := StoredNode(|children|, ks, cs);
    }
  }

  // ---- leaves ----

  /** Leaves needed for `n` entries; an empty group keeps one. */
  function NumLeaves(n: nat): (k: nat)
    ensures k >= 1
  {
    if n == 0 then 1 else (n + SNOD_CAPACITY - 1) / SNOD_CAPACITY
  }

  function Upto(n: nat, i: nat): (c: nat)
    ensures c <= n
  {
    if i * SNOD_CAPACITY < n then i * SNOD_CAPACITY else n
  }

  /** Leaf `i`: entries 8i to 8i+7, as far as there are any. */
  function Leaf(es: seq<Entry>, i: nat): seq<Entry>
  {
    es[Upto(|es|, i)..Upto(|es|, i + 1)]
  }

  lemma LeafSizes(n: nat, i: nat)
    ensures i + 1 < NumLeaves(n) ==> Upto(n, i + 1) == Upto(n, i) + 8
    ensures i < NumLeaves(n) ==> Upto(n, i) == i * 8
    ensures Upto(n, i) <= Upto(n, i + 1) <= Upto(n, i) + 8
    ensures NumLeaves(0) == 1 && n <= 8 * NumLeaves(n) && (n > 0 ==> 8 * NumLeaves(n) < n + 8)
    ensures i >= NumLeaves(n) ==> Upto(n, i) == n
    ensures n <= 256 <==> NumLeaves(n) <= 32
    ensures 0 < i < NumLeaves(n) ==> i * 8 < n
  {
  }

  /** The entries of the leaves at `addrs`, one after another. */
  function Gathered(leaves: map<u64, seq<Entry>>, addrs: seq<u64>): seq<Entry>
  {
    if addrs == [] then []
    else
      var n := |addrs| - 1;
      Gathered(leaves, addrs[..n]) + if addrs[n] in leaves then leaves[addrs[n]] else []
  }

  ghost predicate Spread(leaves: map<u64, seq<Entry>>, addrs: seq<u64>, es: seq<Entry>)
  {
    |addrs| == NumLeaves(|es|) && forall i | 0 <= i < |addrs| :: addrs[i] in leaves && leaves[addrs[i]] == Leaf(es, i)
  }

  /** Concatenating the leaves gives the entries back. */
  lemma {:induction false} GatheredPrefix(leaves: map<u64, seq<Entry>>, addrs: seq<u64>, es: seq<Entry>, n: nat)
    requires n <= |addrs| && forall i | 0 <= i < |addrs| :: addrs[i] in leaves && leaves[addrs[i]] == Leaf(es, i)
    ensures Gathered(leaves, addrs[..n]) == es[..Upto(|es|, n)]
  {
    if n > 0 {
      GatheredPrefix(leaves, addrs, es, n - 1);
      assert addrs[..n][..n - 1] == addrs[..n - 1];
      LeafSizes(|es|, n - 1);
      assert es[..Upto(|es|, n)] == es[..Upto(|es|, n - 1)] + Leaf(es, n - 1);
    }
  }

  lemma GatheredAll(leaves: map<u64, seq<Entry>>, addrs: seq<u64>, es: seq<Entry>)
    requires Spread(leaves, addrs, es)
    ensures Gathered(leaves, addrs) == es
  {
    hide Gathered, NumLeaves;
    GatheredPrefix(leaves, addrs, es, |addrs|);
    LeafSizes(|es|, |addrs|);
    assert addrs[..|addrs|] == addrs && es[..|es|] == es;
  }

  /** The key to the left of leaf `i`: the last name of the leaf before it, the empty name for the first;
      behind the last leaf, the largest name. */
  function KeyAt(es: seq<Entry>, i: nat): u64
  {
    if i == 0 || i > NumLeaves(|es|) || es == [] then 0
    else es[Upto(|es|, i) - 1].nameOffset
  }

  ghost predicate KeysFor(node: StoredNode, es: seq<Entry>)
  {
    node.Valid() && forall i | 0 <= i <= NumLeaves(|es|) && i < MAX_KEYS :: node.keys[i] == KeyAt(es, i)
  }

  /** Usable names: not empty, stored in the used part of the heap. */
  ghost predicate NamesIn(heap: seq<byte>, es: seq<Entry>)
  {
    forall i | 0 <= i < |es| :: es[i].nameOffset < Used(heap) && NameIn(heap, es[i]) != []
  }

  /** Each name of leaf `i` is above key `i` and not above key `i + 1`. */
  lemma KeysBound(heap: seq<byte>, node: StoredNode, es: seq<Entry>, i: nat, p: nat)
    requires WellFormed(heap) && KeysFor(node, es) && SortedIn(heap, es) && NamesIn(heap, es) && DistinctNames(heap, es)
    requires i < NumLeaves(|es|) <= MAX_CHILDREN && Upto(|es|, i) <= p < Upto(|es|, i + 1)
    ensures Compare(NameIn(heap, Entry(node.keys[i], 0)), NameIn(heap, es[p])) < 0
    ensures Compare(NameIn(heap, es[p]), NameIn(heap, Entry(node.keys[i + 1], 0))) <= 0
  {
    hide Compare, StringAt, Used;
    LeafSizes(|es|, i);
    LeafSizes(|es|, i + 1);
    if i == 0 {
      FirstKeyEmpty(heap);
      CompareTotal([], NameIn(heap, es[p]), []);
    } else {
      var q := Upto(|es|, i) - 1;
      assert NameIn(heap, Entry(node.keys[i], 0)) == NameIn(heap, es[q]);
      CompareTotal(NameIn(heap, es[q]), NameIn(heap, es[p]), []);
    }
    var r := Upto(|es|, i + 1) - 1;
    assert NameIn(heap, Entry(node.keys[i + 1], 0)) == NameIn(heap, es[r]);
    CompareTotal(NameIn(heap, es[p]), NameIn(heap, es[r]), []);
  }

  lemma FirstKeyEmpty(heap: seq<byte>)
    requires WellFormed(heap)
    ensures NameIn(heap, Entry(0, 0)) == []
  {
    hide Compare;
  }
}
