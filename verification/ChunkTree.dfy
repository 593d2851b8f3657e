/** The chunk index as a tree: bottom-up bulk loading (internal/structures/btree_chunk.go)
    and collection (internal/core/btree_v1.go). */
module ChunkTree {
  import opened Arith
  import opened Bytes
  import opened Storage
  import opened ChunkNode

  datatype Entry = Entry(coord: seq<u64>, address: u64, nbytes: u32)

  /** The stored tree, with the sibling links its nodes carry. */
  datatype Tree =
    | Leaf(addr: u64, left: u64, right: u64, entries: seq<Entry>)
    | Inner(addr: u64, left: u64, right: u64, level: byte, kids: seq<Tree>)

  // ---- coordinate order ----

  /** Row-major comparison over the common length. */
  function CompareCoords(a: seq<u64>, b: seq<u64>): int
  {
    if a == [] || b == [] then 0
    else if a[0] < b[0] then -1
    else if a[0] > b[0] then 1
    else CompareCoords(a[1..], b[1..])
  }

  method CompareChunkCoords(a: seq<u64>, b: seq<u64>) returns (c: int)
    ensures c == CompareCoords(a, b)
  {
    var i := 0;
    while i < |a| && i < |b|
      invariant i <= |a| && i <= |b|
      invariant CompareCoords(a, b) == CompareCoords(a[i..], b[i..])
    {
      if a[i] < b[i] {
        return -1;
      } else if a[i] > b[i] {
        return 1;
      }
      i := i + 1;
    }
    return 0;
  }

  /** One coordinate is before another exactly when it is smaller at the first difference. */
  lemma {:induction false} CompareMeans(a: seq<u64>, b: seq<u64>)
    ensures CompareCoords(a, b) < 0 <==> exists k :: 0 <= k < |a| && k < |b| && a[..k] == b[..k] && a[k] < b[k]
  {
    if a != [] && b != [] {
      assert a[..0] == b[..0];
      if a[0] == b[0] {
        CompareMeans(a[1..], b[1..]);
        if CompareCoords(a, b) < 0 {
          var k :| 0 <= k < |a[1..]| && k < |b[1..]| && a[1..][..k] == b[1..][..k] && a[1..][k] < b[1..][k];
          assert a[..k + 1] == [a[0]] + a[1..][..k] && b[..k + 1] == [b[0]] + b[1..][..k];
        }
        if k :| 0 <= k < |a| && k < |b| && a[..k] == b[..k] && a[k] < b[k] {
          assert a[1..][..k - 1] == a[..k][1..] && b[1..][..k - 1] == b[..k][1..];
        }
      } else {
        assert forall k | 0 < k <= |a| && k <= |b| :: a[..k][0] == a[0] && b[..k][0] == b[0];
      }
    }
  }

  lemma {:induction false} CompareTotal(a: seq<u64>, b: seq<u64>, c: seq<u64>)
    requires |a| == |b| == |c|
    ensures CompareCoords(a, b) == -CompareCoords(b, a)
    ensures CompareCoords(a, b) == 0 <==> a == b
    ensures CompareCoords(a, b) <= 0 && CompareCoords(b, c) <= 0 ==> CompareCoords(a, c) <= 0
    ensures CompareCoords(a, b) <= 0 && CompareCoords(b, c) < 0 ==> CompareCoords(a, c) < 0
    ensures CompareCoords(a, b) < 0 && CompareCoords(b, c) <= 0 ==> CompareCoords(a, c) < 0
  {
    if a != [] {
      CompareTotal(a[1..], b[1..], c[1..]);
      assert a == [a[0]] + a[1..] && b == [b[0]] + b[1..];
    }
  }

  ghost predicate Uniform(es: seq<Entry>, dim: nat)
  {
    forall i | 0 <= i < |es| :: |es[i].coord| == dim
  }

  ghost predicate Sorted(es: seq<Entry>)
  {
    forall i, j | 0 <= i < j < |es| :: CompareCoords(es[i].coord, es[j].coord) <= 0
  }

  ghost predicate DistinctCoords(es: seq<Entry>)
  {
    forall i, j | 0 <= i < j < |es| :: es[i].coord != es[j].coord
  }

  /** The library sort: a sorted permutation; the order of equal coordinates is not promised. */
  method SortEntries(es: seq<Entry>, ghost dim: nat) returns (sorted: seq<Entry>)
    requires Uniform(es, dim)
    ensures multiset(sorted) == multiset(es) && Uniform(sorted, dim) && Sorted(sorted)
  {
    sorted := [];
    var n := 0;
    while n < |es|
      invariant n <= |es| && multiset(sorted) == multiset(es[..n]) && Uniform(sorted, dim) && Sorted(sorted)
    {
      assert es[..n + 1] == es[..n] + [es[n]];
      assert es[n] in es;
      sorted := InsertSorted(sorted, es[n], dim);
      n := n + 1;
    }
    assert es[..n] == es;
  }

  method InsertSorted(es: seq<Entry>, e: Entry, ghost dim: nat) returns (r: seq<Entry>)
    requires Uniform(es, dim) && Sorted(es) && |e.coord| == dim
    ensures multiset(r) == multiset(es) + multiset{e} && Uniform(r, dim) && Sorted(r)
  {
    hide CompareCoords, Sorted, Uniform;
    var i := |es|;
    while i > 0
      invariant 0 <= i <= |es|
      invariant forall j | i <= j < |es| :: CompareCoords(e.coord, es[j].coord) < 0
    {
      var c := CompareChunkCoords(e.coord, es[i - 1].coord);
      if c >= 0 {
        break;
      }
      i := i - 1;
    }
    InsertedSorted(es, e, i, dim);
    InsertedSame(es, e, i, dim);
    r := es[..i] + [e] + es[i..];
  }

  lemma InsertedSame(es: seq<Entry>, e: Entry, i: nat, dim: nat)
    requires Uniform(es, dim) && |e.coord| == dim && i <= |es|
    ensures multiset(es[..i] + [e] + es[i..]) == multiset(es) + multiset{e}
    ensures Uniform(es[..i] + [e] + es[i..], dim)
  {
    assert es == es[..i] + es[i..];
  }

  lemma InsertedSorted(es: seq<Entry>, e: Entry, i: nat, dim: nat)
    requires Uniform(es, dim) && Sorted(es) && |e.coord| == dim && i <= |es|
    requires i > 0 ==> CompareCoords(e.coord, es[i - 1].coord) >= 0
    requires forall j | i <= j < |es| :: CompareCoords(e.coord, es[j].coord) < 0
    ensures Sorted(es[..i] + [e] + es[i..])
  {
    hide CompareCoords;
    forall j | 0 <= j < i ensures CompareCoords(es[j].coord, e.coord) <= 0 {
      CompareTotal(es[i - 1].coord, e.coord, e.coord);
      CompareTotal(es[j].coord, es[i - 1].coord, e.coord);
      CompareTotal(es[i - 1].coord, es[i - 1].coord, e.coord);
    }
    var r := es[..i] + [e] + es[i..];
    forall a, b | 0 <= a < b < |r| ensures CompareCoords(r[a].coord, r[b].coord) <= 0 {
      if a < i && b < i {
        assert r[a] == es[a] && r[b] == es[b];
      } else if a < i && b == i {
        assert r[a] == es[a];
      } else if a < i {
        assert r[a] == es[a] && r[b] == es[b - 1];
      } else if a == i {
        assert r[b] == es[b - 1];
      } else {
        assert r[a] == es[a - 1] && r[b] == es[b - 1];
      }
    }
  }

  // ---- trees ----

  function Flatten(t: Tree): seq<Entry>
  {
    match t
    case Leaf(_, _, _, entries) => entries
    case Inner(_, _, _, _, kids) => FlattenAll(kids)
  }

  function FlattenAll(ts: seq<Tree>): seq<Entry>
  {
    if ts == [] then [] else Flatten(ts[0]) + FlattenAll(ts[1..])
  }

  lemma {:induction false} FlattenSplit(a: seq<Tree>, b: seq<Tree>)
    ensures FlattenAll(a + b) == FlattenAll(a) + FlattenAll(b)
  {
    hide Flatten;
    if a == [] {
      assert a + b == b;
    } else {
      FlattenSplit(a[1..], b);
      assert (a + b)[1..] == a[1..] + b && (a + b)[0] == a[0];
      assert FlattenAll(a + b) == Flatten(a[0]) + FlattenAll(a[1..] + b);
    }
  }

  /** Height `h`, every node with 1 to 64 children, and levels recorded in the nodes. */
  ghost predicate Shaped(t: Tree, h: nat, dim: nat)
  {
    match t
    case Leaf(_, _, _, entries) => h == 0 && 1 <= |entries| <= 64 && Uniform(entries, dim)
    case Inner(_, _, _, level, kids) =>
      h >= 1 && level == h && 1 <= |kids| <= 64 &&
      forall i | 0 <= i < |kids| :: Shaped(kids[i], h - 1, dim)
  }

  function EntryKey(e: Entry): Key { Key(e.coord, e.nbytes, 0) }

  function Increment64(v: u64): u64 { if v == UNDEFINED then 0 else v + 1 }

  /** The sentinel key: one past the last coordinate in every dimension (64-bit), zero after that. */
  function SentinelKey(e: Entry, dim: nat): Key
  {
    Key(seq(dim + 1, i requires 0 <= i => if i < dim && i < |e.coord| then Increment64(e.coord[i]) else 0), 0, 0)
  }

  function FirstKey(t: Tree, h: nat, dim: nat): Key
    requires Shaped(t, h, dim)
    decreases t
  {
    match t
    case Leaf(_, _, _, entries) => EntryKey(entries[0])
    case Inner(_, _, _, _, kids) => FirstKey(kids[0], h - 1, dim)
  }

  function LastKey(t: Tree, h: nat, dim: nat): Key
    requires Shaped(t, h, dim)
    decreases t
  {
    match t
    case Leaf(_, _, _, entries) => SentinelKey(entries[|entries| - 1], dim)
    case Inner(_, _, _, _, kids) => LastKey(kids[|kids| - 1], h - 1, dim)
  }

  /** The node the tree stores at its address. */
  function NodeOf(t: Tree, h: nat, dim: nat): (node: Node)
    requires Shaped(t, h, dim)
    ensures node.Valid() && node.children != []
    ensures node.level == h && node.left == t.left && node.right == t.right
  {
    match t
    case Leaf(_, left, right, entries) =>
      Node(0, left, right, seq(|entries|, i requires 0 <= i < |entries| => EntryKey(entries[i])) + [LastKey(t, h, dim)],
        seq(|entries|, i requires 0 <= i < |entries| => entries[i].address))
    case Inner(_, left, right, level, kids) =>
      Node(level, left, right,
        seq(|kids|, i requires 0 <= i < |kids| => FirstKey(kids[i], h - 1, dim)) + [LastKey(t, h, dim)],
        seq(|kids|, i requires 0 <= i < |kids| => kids[i].addr))
  }

  /** Every node of the tree is in memory at its address. */
  ghost predicate Stored(m: Mem, t: Tree, h: nat, dim: nat, chunkDims: seq<u64>)
    requires Shaped(t, h, dim)
    decreases t
  {
    && Holds(m, t.addr, Serialized(NodeOf(t, h, dim), chunkDims, dim + 1))
    && (t.Inner? ==> forall i | 0 <= i < |t.kids| :: Stored(m, t.kids[i], h - 1, dim, chunkDims))
  }

  /** The nodes at height `g`, left to right. */
  function LevelNodes(t: Tree, h: nat, g: nat): seq<Tree>
    decreases t, 0
  {
    if g >= h then [t]
    else match t
      case Leaf(_, _, _, _) => [t]
      case Inner(_, _, _, _, kids) => LevelAll(kids, h - 1, g)
  }

  function LevelAll(ts: seq<Tree>, h: nat, g: nat): seq<Tree>
    decreases ts, 1
  {
    if ts == [] then [] else LevelNodes(ts[0], h, g) + LevelAll(ts[1..], h, g)
  }

  lemma {:induction false} LevelSplit(a: seq<Tree>, b: seq<Tree>, h: nat, g: nat)
    ensures LevelAll(a + b, h, g) == LevelAll(a, h, g) + LevelAll(b, h, g)
  {
    hide LevelNodes;
    if a == [] {
      assert a + b == b;
    } else {
      LevelSplit(a[1..], b, h, g);
      assert (a + b)[1..] == a[1..] + b && (a + b)[0] == a[0];
      assert LevelAll(a + b, h, g) == LevelNodes(a[0], h, g) + LevelAll(a[1..] + b, h, g);
    }
  }

  lemma {:induction false} LevelOfSelf(ts: seq<Tree>, h: nat)
    ensures LevelAll(ts, h, h) == ts
  {
    if ts != [] {
      LevelOfSelf(ts[1..], h);
    }
  }

  /** One doubly linked chain. */
  ghost predicate Chained(ts: seq<Tree>)
  {
    forall i | 0 <= i < |ts| ::
      && ts[i].left == (if i == 0 then 0xFFFF_FFFF_FFFF_FFFF else ts[i - 1].addr)
      && ts[i].right == (if i == |ts| - 1 then 0xFFFF_FFFF_FFFF_FFFF else ts[i + 1].addr)
  }

  // ---- partition into groups of at most 64 ----

  function NumGroups(n: nat): nat { (n + MAX_CHILDREN - 1) / MAX_CHILDREN }

  function Cut(n: nat, i: nat): (c: nat)
    ensures c <= n
  {
    if i * MAX_CHILDREN < n then i * MAX_CHILDREN else n
  }

  function GroupOf<T>(s: seq<T>, i: nat): seq<T>
  {
    s[Cut(|s|, i)..Cut(|s|, i + 1)]
  }

  /** As few groups of at most 64 as there can be; every group but the last is full, and group `i` starts at 64i. */
  lemma GroupSizes<T>(s: seq<T>, i: nat)
    ensures i < NumGroups(|s|) ==> 1 <= |GroupOf(s, i)| <= 64 && GroupOf(s, i) == s[64 * i..64 * i + |GroupOf(s, i)|]
    ensures i + 1 < NumGroups(|s|) ==> |GroupOf(s, i)| == 64
    ensures |s| <= 64 * NumGroups(|s|) < |s| + 64
    ensures i >= NumGroups(|s|) ==> Cut(|s|, i) == |s|
    ensures |s| > 0 ==> 1 <= NumGroups(|s|)
    ensures |s| > 1 ==> 2 * NumGroups(|s|) <= |s|
  {
  }

  method Partition<T>(s: seq<T>) returns (groups: seq<seq<T>>)
    ensures |groups| == NumGroups(|s|) && forall i | 0 <= i < |groups| :: groups[i] == GroupOf(s, i)
  {
    groups := [];
    var i := 0;
    while i < |s|
      invariant i == |groups| * MAX_CHILDREN && |groups| <= NumGroups(|s|)
      invariant forall j | 0 <= j < |groups| :: groups[j] == GroupOf(s, j)
    {
      var end := i + MAX_CHILDREN;
      if end > |s| {
        end := |s|;
      }
      assert s[i..end] == GroupOf(s, |groups|);
      groups := groups + [s[i..end]];
      i := i + MAX_CHILDREN;
    }
  }

  // ---- one level of new nodes ----

  function LeftLink(addrs: seq<u64>, i: nat): u64
    requires i < |addrs|
  {
    if i > 0 then addrs[i - 1] else UNDEFINED
  }

  function RightLink(addrs: seq<u64>, i: nat): u64
    requires i < |addrs|
  {
    if i < |addrs| - 1 then addrs[i + 1] else UNDEFINED
  }

  function LeafAt(es: seq<Entry>, addrs: seq<u64>, i: nat): Tree
    requires i < |addrs|
  {
    Leaf(addrs[i], LeftLink(addrs, i), RightLink(addrs, i), GroupOf(es, i))
  }

  function LeafLevel(es: seq<Entry>, addrs: seq<u64>): (ts: seq<Tree>)
    ensures |ts| == |addrs| && forall i | 0 <= i < |ts| :: ts[i] == LeafAt(es, addrs, i)
  {
    seq(|addrs|, i requires 0 <= i < |addrs| => LeafAt(es, addrs, i))
  }

  function InnerAt(ts: seq<Tree>, addrs: seq<u64>, level: byte, i: nat): Tree
    requires i < |addrs|
  {
    Inner(addrs[i], LeftLink(addrs, i), RightLink(addrs, i), level, GroupOf(ts, i))
  }

  function InnerLevel(ts: seq<Tree>, addrs: seq<u64>, level: byte): (r: seq<Tree>)
    ensures |r| == |addrs| && forall i | 0 <= i < |r| :: r[i] == InnerAt(ts, addrs, level, i)
  {
    seq(|addrs|, i requires 0 <= i < |addrs| => InnerAt(ts, addrs, level, i))
  }

  ghost predicate AllShaped(ts: seq<Tree>, h: nat, dim: nat)
  {
    forall i | 0 <= i < |ts| :: Shaped(ts[i], h, dim)
  }

  lemma LeavesShaped(es: seq<Entry>, addrs: seq<u64>, dim: nat)
    requires Uniform(es, dim) && |addrs| == NumGroups(|es|)
    ensures AllShaped(LeafLevel(es, addrs), 0, dim)
  {
    hide NumGroups, GroupOf;
    forall i | 0 <= i < |addrs| ensures Shaped(LeafLevel(es, addrs)[i], 0, dim) {
      GroupSizes(es, i);
      GroupUniform(es, i, dim);
    }
  }

  lemma GroupUniform(es: seq<Entry>, i: nat, dim: nat)
    requires Uniform(es, dim)
    ensures Uniform(GroupOf(es, i), dim)
  {
  }

  lemma InnersShaped(ts: seq<Tree>, addrs: seq<u64>, level: byte, h: nat, dim: nat)
    requires AllShaped(ts, h, dim) && |addrs| == NumGroups(|ts|) && level == h + 1
    ensures AllShaped(InnerLevel(ts, addrs, level), h + 1, dim)
  {
    hide NumGroups;
    forall i | 0 <= i < |addrs| ensures Shaped(InnerLevel(ts, addrs, level)[i], h + 1, dim) {
      GroupSizes(ts, i);
    }
  }

  /** The groups, concatenated, are the sequence again. */
  lemma {:induction false} LeavesFlatten(es: seq<Entry>, addrs: seq<u64>, n: nat)
    requires n <= |addrs| == NumGroups(|es|)
    ensures FlattenAll(LeafLevel(es, addrs)[..n]) == es[..Cut(|es|, n)]
  {
    var ts := LeafLevel(es, addrs);
    if n > 0 {
      LeavesFlatten(es, addrs, n - 1);
      assert ts[..n] == ts[..n - 1] + [ts[n - 1]];
      FlattenSplit(ts[..n - 1], [ts[n - 1]]);
      FlattenOne(ts[n - 1]);
      assert es[..Cut(|es|, n)] == es[..Cut(|es|, n - 1)] + GroupOf(es, n - 1);
    }
  }

  lemma FlattenOne(t: Tree)
    ensures FlattenAll([t]) == Flatten(t)
  {
    hide Flatten;
    assert [t][1..] == [];
  }

  lemma LevelOne(t: Tree, h: nat, g: nat)
    ensures LevelAll([t], h, g) == LevelNodes(t, h, g)
  {
    hide LevelNodes;
    assert [t][1..] == [];
  }

  lemma {:induction false} InnersFlatten(ts: seq<Tree>, addrs: seq<u64>, level: byte, h: nat, g: nat, n: nat)
    requires n <= |addrs| == NumGroups(|ts|) && g <= h
    ensures FlattenAll(InnerLevel(ts, addrs, level)[..n]) == FlattenAll(ts[..Cut(|ts|, n)])
    ensures LevelAll(InnerLevel(ts, addrs, level)[..n], h + 1, g) == LevelAll(ts[..Cut(|ts|, n)], h, g)
  {
    hide NumGroups, FlattenAll, LevelAll;
    var r := InnerLevel(ts, addrs, level);
    if n == 0 {
      assert r[..0] == [] && ts[..Cut(|ts|, 0)] == [];
      EmptyLevels(h, g);
    } else {
      InnersFlatten(ts, addrs, level, h, g, n - 1);
      assert r[..n] == r[..n - 1] + [r[n - 1]];
      FlattenSplit(r[..n - 1], [r[n - 1]]);
      LevelSplit(r[..n - 1], [r[n - 1]], h + 1, g);
      FlattenOne(r[n - 1]);
      LevelOne(r[n - 1], h + 1, g);
      assert ts[..Cut(|ts|, n)] == ts[..Cut(|ts|, n - 1)] + GroupOf(ts, n - 1);
      FlattenSplit(ts[..Cut(|ts|, n - 1)], GroupOf(ts, n - 1));
      LevelSplit(ts[..Cut(|ts|, n - 1)], GroupOf(ts, n - 1), h, g);
    }
  }

  lemma EmptyLevels(h: nat, g: nat)
    ensures FlattenAll([]) == [] && LevelAll([], h, g) == [] && LevelAll([], h + 1, g) == []
  {
  }

  /** Every level below and including `h` is one doubly linked chain. */
  ghost predicate LevelsChained(ts: seq<Tree>, h: nat)
  {
    forall g | 0 <= g <= h :: Chained(LevelAll(ts, h, g))
  }

  lemma LeavesChained(es: seq<Entry>, addrs: seq<u64>)
    ensures LevelsChained(LeafLevel(es, addrs), 0)
  {
    hide LevelAll;
    LevelOfSelf(LeafLevel(es, addrs), 0);
  }

  lemma InnersChained(ts: seq<Tree>, addrs: seq<u64>, level: byte, h: nat)
    requires |addrs| == NumGroups(|ts|) && LevelsChained(ts, h)
    ensures LevelsChained(InnerLevel(ts, addrs, level), h + 1)
  {
    hide LevelAll, NumGroups;
    var r := InnerLevel(ts, addrs, level);
    LevelOfSelf(r, h + 1);
    GroupSizes(ts, |addrs|);
    assert r[..|addrs|] == r && ts[..Cut(|ts|, |addrs|)] == ts;
    var up := h + 1;
    forall g | 0 <= g <= h ensures Chained(LevelAll(r, up, g)) {
      InnersFlatten(ts, addrs, level, h, g, |addrs|);
    }
  }

  // ---- placing nodes in the file ----

  /** Every node of the tree occupies a region of exactly one node image. */
  ghost predicate Placed(t: Tree, regions: map<nat, nat>, size: nat)
  {
    && t.addr in regions && regions[t.addr] == size
    && (t.Inner? ==> forall i | 0 <= i < |t.kids| :: Placed(t.kids[i], regions, size))
  }

  lemma {:induction false} PlacedGrows(t: Tree, regions: map<nat, nat>, more: map<nat, nat>, size: nat)
    requires Placed(t, regions, size)
    requires forall a | a in regions :: a in more && more[a] == regions[a]
    ensures Placed(t, more, size)
  {
    if t.Inner? {
      forall i | 0 <= i < |t.kids| ensures Placed(t.kids[i], more, size) {
        PlacedGrows(t.kids[i], regions, more, size);
      }
    }
  }

  /** Writing outside all the tree's regions leaves it stored. */
  lemma {:induction false} StoredKept(m: Mem, at: nat, bs: seq<byte>, t: Tree, h: nat, dim: nat, chunkDims: seq<u64>, regions: map<nat, nat>)
    requires Shaped(t, h, dim) && Stored(m, t, h, dim, chunkDims) && Placed(t, regions, NodeSize(dim + 1))
    requires forall a | a in regions :: Disjoint(at, |bs|, a, regions[a])
    ensures Stored(Store(m, at, bs), t, h, dim, chunkDims)
    decreases t
  {
    hide NodeOf, Store, Serialized, Holds, NodeSize;
    StoreKeeps(m, at, bs, t.addr, Serialized(NodeOf(t, h, dim), chunkDims, dim + 1));
    if t.Inner? {
      forall i | 0 <= i < |t.kids| ensures Stored(Store(m, at, bs), t.kids[i], h - 1, dim, chunkDims) {
        StoredKept(m, at, bs, t.kids[i], h - 1, dim, chunkDims, regions);
      }
    }
  }

  /** `addrs` are new regions of `size` bytes, distinct, on top of those in `before`. */
  ghost predicate Reserved(addrs: seq<u64>, before: map<nat, nat>, after: map<nat, nat>, size: nat)
  {
    && (forall a | a in before :: a in after && after[a] == before[a])
    && (forall i | 0 <= i < |addrs| :: addrs[i] in after && after[addrs[i]] == size && addrs[i] !in before)
    && (forall i, j | 0 <= i < j < |addrs| :: addrs[i] != addrs[j])
  }

  method AllocateNodes(file: FileWriter, count: nat, size: nat) returns (r: Result<seq<u64>>)
    requires file.Valid()
    modifies file
    ensures file.Valid() && file.mem == old(file.mem)
    ensures Reserved(if r.Ok? then r.value else [], old(file.regions), file.regions, size)
    ensures r.Ok? ==> |r.value| == count
    ensures file.refusals == old(file.refusals) + if r.Err? then 1 else 0
  {
    var addrs: seq<u64> := [];
    var i := 0;
    while i < count
      invariant i == |addrs| <= count
      invariant file.Valid() && file.mem == old(file.mem) && file.refusals == old(file.refusals)
      invariant Reserved(addrs, old(file.regions), file.regions, size)
    {
      var a := file.Allocate(size);
      if a.Err? {
        return Err;
      }
      addrs := addrs + [a.value];
      i := i + 1;
    }
    r := Ok(addrs);
  }

  /** Child summary that one level hands to the next. */
  datatype InternalChild = InternalChild(addr: u64, firstKey: Key, lastKey: Key)

  ghost predicate Aligned(children: seq<InternalChild>, ts: seq<Tree>, h: nat, dim: nat)
    requires AllShaped(ts, h, dim)
  {
    && |children| == |ts|
    && forall i | 0 <= i < |ts| ::
        children[i] == InternalChild(ts[i].addr, FirstKey(ts[i], h, dim), LastKey(ts[i], h, dim))
  }

  /** The level invariant: shaped, stored, placed, in order and chained. */
  ghost predicate LevelWritten(m: Mem, regions: map<nat, nat>, children: seq<InternalChild>, ts: seq<Tree>, h: nat,
                               dim: nat, chunkDims: seq<u64>, es: seq<Entry>)
  {
    && AllShaped(ts, h, dim)
    && Aligned(children, ts, h, dim)
    && (forall i | 0 <= i < |ts| :: Stored(m, ts[i], h, dim, chunkDims))
    && (forall i | 0 <= i < |ts| :: Placed(ts[i], regions, NodeSize(dim + 1)))
    && FlattenAll(ts) == es
    && LevelsChained(ts, h)
  }

  class ChunkBTreeWriter {
    const dimensionality: nat
    const chunkDims: seq<u64>
    var entries: seq<Entry>

    ghost predicate Valid()
      reads this
    {
      Uniform(entries, dimensionality)
    }

    constructor (dimensionality: nat, chunkDims: seq<u64>)
      ensures Valid() && entries == [] && this.dimensionality == dimensionality && this.chunkDims == chunkDims
    {
      this.dimensionality, this.chunkDims, entries := dimensionality, chunkDims, [];
    }

    method AddChunkWithSize(coord: seq<u64>, address: u64, nbytes: u32) returns (ok: bool)
      requires Valid()
      modifies this
      ensures Valid() && (ok <==> |coord| == dimensionality)
      ensures entries == old(entries) + if ok then [Entry(coord, address, nbytes)] else []
    {
      ok := |coord| == dimensionality;
      if ok {
        entries := entries + [Entry(coord, address, nbytes)];
      }
    }

    method BuildLeafNode(es: seq<Entry>, left: u64, right: u64, ghost addr: u64) returns (node: Node)
      requires Shaped(Leaf(addr, left, right, es), 0, dimensionality)
      ensures node == NodeOf(Leaf(addr, left, right, es), 0, dimensionality)
    {
      var keys: seq<Key>, addrs: seq<u64> := [], [];
      var i := 0;
      while i < |es|
        invariant i == |keys| == |addrs| <= |es|
        invariant forall j | 0 <= j < i :: keys[j] == EntryKey(es[j]) && addrs[j] == es[j].address
      {
        keys := keys + [EntryKey(es[i])];
        addrs := addrs + [es[i].address];
        i := i + 1;
      }
      keys := keys + [SentinelKey(es[|es| - 1], dimensionality)];
      node := Node(0, left, right, keys, addrs);
      assert node.keys == NodeOf(Leaf(addr, left, right, es), 0, dimensionality).keys;
      assert node.children == NodeOf(Leaf(addr, left, right, es), 0, dimensionality).children;
    }

    method BuildInnerNode(group: seq<InternalChild>, level: byte, left: u64, right: u64, ghost t: Tree, ghost h: nat)
      returns (node: Node)
      requires Shaped(t, h + 1, dimensionality) && t.Inner? && t.left == left && t.right == right && t.level == level
      requires AllShaped(t.kids, h, dimensionality) && Aligned(group, t.kids, h, dimensionality)
      ensures node == NodeOf(t, h + 1, dimensionality)
    {
      hide Shaped, FirstKey, AllShaped;
      var keys: seq<Key>, addrs: seq<u64> := [], [];
      var i := 0;
      while i < |group|
        invariant i == |keys| == |addrs| <= |group|
        invariant forall j | 0 <= j < i :: keys[j] == group[j].firstKey && addrs[j] == group[j].addr
      {
        keys := keys + [group[i].firstKey];
        addrs := addrs + [group[i].addr];
        i := i + 1;
      }
      InnerNodeParts(t, h + 1, dimensionality);
      keys := keys + [group[|group| - 1].lastKey];
      node := Node(level, left, right, keys, addrs);
      assert node.keys == NodeOf(t, h + 1, dimensionality).keys;
      assert node.children == NodeOf(t, h + 1, dimensionality).children;
    }

    /** Serializes and writes root `i` of a level at its reserved address. */
    method PutRoot(file: FileWriter, node: Node, ghost level: NewLevel, ghost i: nat, addr: u64)
      requires file.Valid() && level.Valid(dimensionality) && file.regions == level.after
      requires i < |level.ts| && addr == level.ts[i].addr && node == NodeOf(level.ts[i], level.h, dimensionality)
      requires RootsHeld(file.mem, level.ts, i, level.h, dimensionality, chunkDims)
      modifies file`mem
      ensures file.Valid()
      ensures RootsHeld(file.mem, level.ts, i + 1, level.h, dimensionality, chunkDims)
      ensures file.mem == Store(old(file.mem), addr, Serialized(node, chunkDims, dimensionality + 1))
      ensures forall a | a in level.before :: Disjoint(addr, NodeSize(dimensionality + 1), a, level.before[a])
    {
      hide Serialized, NodeSize, Store, NodeOf, Shaped, RootsHeld;
      ReservedApart(level.Addrs(), i, level.before, level.after, NodeSize(dimensionality + 1));
      RootStep(file.mem, level, i, dimensionality, chunkDims);
      var buf := Serialize(node, chunkDims, dimensionality + 1);
      file.WriteAt(addr, buf);
    }

    /** One leaf of the level: build, serialize, write. */
    method WriteLeaf(file: FileWriter, group: seq<Entry>, addrs: seq<u64>, i: nat, ghost level: NewLevel,
                     ghost es: seq<Entry>, ghost mem0: Mem)
      returns (child: InternalChild)
      requires file.Valid() && level.Valid(dimensionality) && file.regions == level.after && level.h == 0
      requires level.ts == LeafLevel(es, addrs) && i < |addrs| && group == GroupOf(es, i)
      requires RootsHeld(file.mem, level.ts, i, 0, dimensionality, chunkDims)
      requires Untouched(mem0, file.mem, level.before)
      modifies file`mem
      ensures file.Valid() && Untouched(mem0, file.mem, level.before)
      ensures RootsHeld(file.mem, level.ts, i + 1, 0, dimensionality, chunkDims)
      ensures child == InternalChild(level.ts[i].addr, FirstKey(level.ts[i], 0, dimensionality), LastKey(level.ts[i], 0, dimensionality))
    {
      hide NodeSize, Serialized, Store, NodeOf, GroupOf, Shaped, Untouched, FirstKey, LastKey, RootsHeld, Reserved, AllApart;
      var leftSib, rightSib := UNDEFINED, UNDEFINED;
      if i > 0 {
        leftSib := addrs[i - 1];
      }
      if i < |addrs| - 1 {
        rightSib := addrs[i + 1];
      }
      assert level.ts[i] == Leaf(addrs[i], leftSib, rightSib, group);
      var node := BuildLeafNode(group, leftSib, rightSib, addrs[i]);
      ghost var mem1 := file.mem;
      PutRoot(file, node, level, i, addrs[i]);
      UntouchedStep(mem0, mem1, level.before, addrs[i], Serialized(node, chunkDims, dimensionality + 1));
      LeafNodeKeys(level.ts[i], dimensionality);
      child := InternalChild(addrs[i], node.keys[0], node.keys[|node.keys| - 1]);
    }

    /** Second pass over the leaves: write each with its sibling links. */
    method WriteLeaves(file: FileWriter, groups: seq<seq<Entry>>, addrs: seq<u64>, ghost level: NewLevel, ghost es: seq<Entry>)
      returns (children: seq<InternalChild>)
      requires file.Valid() && level.Valid(dimensionality) && file.regions == level.after && level.h == 0
      requires level.ts == LeafLevel(es, addrs) && |groups| == |addrs|
      requires forall i | 0 <= i < |groups| :: groups[i] == GroupOf(es, i)
      modifies file`mem
      ensures file.Valid() && Untouched(old(file.mem), file.mem, level.before)
      ensures RootsHeld(file.mem, level.ts, |level.ts|, 0, dimensionality, chunkDims)
      ensures AlignedTo(children, level.ts, |level.ts|, 0, dimensionality) && |children| == |groups|
    {
      hide NodeSize, GroupOf, Shaped, Untouched, FirstKey, LastKey, RootsHeld, AlignedTo, AllApart, Reserved;
      ghost var mem0 := file.mem;
      UntouchedSelf(mem0, level.before);
      NoRoots(file.mem, level.ts, 0, dimensionality, chunkDims);
      children := [];
      var i := 0;
      while i < |groups|
        invariant i == |children| <= |groups| && file.Valid()
        invariant Untouched(mem0, file.mem, level.before)
        invariant RootsHeld(file.mem, level.ts, i, 0, dimensionality, chunkDims)
        invariant AlignedTo(children, level.ts, i, 0, dimensionality)
      {
        var child := WriteLeaf(file, groups[i], addrs, i, level, es, mem0);
        AlignedStep(children, level.ts, i, 0, dimensionality, child);
        children := children + [child];
        i := i + 1;
      }
    }

    /** The leaf level of buildMultiLevelTree: reserve all leaves, then write them. */
    method WriteLeafLevel(file: FileWriter, es: seq<Entry>)
      returns (r: Result<seq<InternalChild>>, ghost ts: seq<Tree>)
      requires file.Valid() && Uniform(es, dimensionality) && es != []
      modifies file
      ensures file.Valid() && Untouched(old(file.mem), file.mem, old(file.regions))
      ensures Extends(old(file.regions), file.regions)
      ensures file.refusals == old(file.refusals) + if r.Err? then 1 else 0
      ensures r.Ok? ==> |r.value| == NumGroups(|es|)
      ensures r.Ok? ==> LevelWritten(file.mem, file.regions, r.value, ts, 0, dimensionality, chunkDims, es)
    {
      hide NumGroups, NodeSize, GroupOf, Shaped, Untouched, RootsHeld, AlignedTo, AllShaped, Uniform, LevelWritten,
           NewLevel.Valid, AllApart;
      UntouchedSelf(file.mem, file.regions);
      ts := [];
      var groups := Partition(es);
      var reserved := AllocateNodes(file, |groups|, NodeSize(dimensionality + 1));
      if reserved.Err? {
        return Err, ts;
      }
      var addrs := reserved.value;
      ts := LeafLevel(es, addrs);
      LeavesShaped(es, addrs, dimensionality);
      ghost var level := NewLevel(ts, 0, old(file.regions), file.regions);
      LevelReserved(level, addrs, dimensionality);
      var children := WriteLeaves(file, groups, addrs, level, es);
      LeafLevelWritten(file.mem, level.after, children, ts, es, addrs, dimensionality, chunkDims);
      r := Ok(children);
    }

    /** One internal node of the level: build, serialize, write; the level below stays stored. */
    method WriteInner(file: FileWriter, group: seq<InternalChild>, addrs: seq<u64>, i: nat, level: byte,
                      ghost up: NewLevel, ghost ts: seq<Tree>, ghost mem0: Mem)
      returns (child: InternalChild)
      requires file.Valid() && up.Valid(dimensionality) && file.regions == up.after && up.h == level >= 1
      requires up.ts == InnerLevel(ts, addrs, level) && i < |addrs|
      requires AllShaped(up.ts[i].kids, level - 1, dimensionality) && Aligned(group, up.ts[i].kids, level - 1, dimensionality)
      requires RootsHeld(file.mem, up.ts, i, up.h, dimensionality, chunkDims)
      requires BelowStored(file.mem, ts, up, dimensionality, chunkDims)
      requires Untouched(mem0, file.mem, up.before)
      modifies file`mem
      ensures file.Valid() && Untouched(mem0, file.mem, up.before)
      ensures RootsHeld(file.mem, up.ts, i + 1, up.h, dimensionality, chunkDims)
      ensures BelowStored(file.mem, ts, up, dimensionality, chunkDims)
      ensures child == InternalChild(up.ts[i].addr, FirstKey(up.ts[i], up.h, dimensionality), LastKey(up.ts[i], up.h, dimensionality))
    {
      hide NodeSize, Serialized, Store, NodeOf, GroupOf, Shaped, Untouched, FirstKey, LastKey, RootsHeld, Reserved, AllApart,
           BelowStored, Aligned;
      var leftSib, rightSib := UNDEFINED, UNDEFINED;
      if i > 0 {
        leftSib := addrs[i - 1];
      }
      if i < |addrs| - 1 {
        rightSib := addrs[i + 1];
      }
      assert up.ts[i] == InnerAt(ts, addrs, level, i);
      var node := BuildInnerNode(group, level, leftSib, rightSib, up.ts[i], level - 1);
      ghost var mem1 := file.mem;
      PutRoot(file, node, up, i, addrs[i]);
      UntouchedStep(mem0, mem1, up.before, addrs[i], Serialized(node, chunkDims, dimensionality + 1));
      BelowKept(mem1, addrs[i], Serialized(node, chunkDims, dimensionality + 1), ts, up, dimensionality, chunkDims);
      InnerNodeParts(up.ts[i], up.h, dimensionality);
      child := InternalChild(addrs[i], node.keys[0], node.keys[|node.keys| - 1]);
    }

    /** Second pass over the internal nodes of one level. */
    method WriteInners(file: FileWriter, groups: seq<seq<InternalChild>>, addrs: seq<u64>, level: byte,
                       ghost up: NewLevel, ghost ts: seq<Tree>, ghost children: seq<InternalChild>)
      returns (parents: seq<InternalChild>)
      requires file.Valid() && up.Valid(dimensionality) && file.regions == up.after && up.h == level >= 1
      requires up.ts == InnerLevel(ts, addrs, level) && |groups| == |addrs| == NumGroups(|ts|)
      requires forall i | 0 <= i < |groups| :: groups[i] == GroupOf(children, i)
      requires AllShaped(ts, level - 1, dimensionality) && Aligned(children, ts, level - 1, dimensionality)
      requires BelowStored(file.mem, ts, up, dimensionality, chunkDims)
      modifies file`mem
      ensures file.Valid() && Untouched(old(file.mem), file.mem, up.before)
      ensures RootsHeld(file.mem, up.ts, |up.ts|, up.h, dimensionality, chunkDims)
      ensures BelowStored(file.mem, ts, up, dimensionality, chunkDims)
      ensures AlignedTo(parents, up.ts, |up.ts|, up.h, dimensionality) && |parents| == |groups|
    {
      hide NodeSize, GroupOf, Shaped, AllShaped, Untouched, FirstKey, LastKey, RootsHeld, AlignedTo, AllApart, Reserved,
           BelowStored, Aligned, NumGroups, NewLevel.Valid;
      UpShaped(up, dimensionality);
      ghost var mem0 := file.mem;
      UntouchedSelf(mem0, up.before);
      NoRoots(file.mem, up.ts, up.h, dimensionality, chunkDims);
      parents := [];
      var i := 0;
      while i < |groups|
        invariant i == |parents| <= |groups| && file.Valid()
        invariant Untouched(mem0, file.mem, up.before)
        invariant RootsHeld(file.mem, up.ts, i, up.h, dimensionality, chunkDims)
        invariant BelowStored(file.mem, ts, up, dimensionality, chunkDims)
        invariant AlignedTo(parents, up.ts, i, up.h, dimensionality)
      {
        GroupAligned(children, ts, i, level - 1, dimensionality);
        var child := WriteInner(file, groups[i], addrs, i, level, up, ts, mem0);
        AlignedStep(parents, up.ts, i, up.h, dimensionality, child);
        parents := parents + [child];
        i := i + 1;
      }
    }

    /** writeInternalLevel: a strictly shorter child list, whose trees contain the same entries. */
    method WriteInternalLevel(file: FileWriter, children: seq<InternalChild>, level: byte,
                              ghost ts: seq<Tree>, ghost es: seq<Entry>)
      returns (r: Result<seq<InternalChild>>, ghost parents: seq<Tree>)
      requires file.Valid() && level >= 1 && |children| > 1
      requires LevelWritten(file.mem, file.regions, children, ts, level - 1, dimensionality, chunkDims, es)
      modifies file
      ensures file.Valid() && Untouched(old(file.mem), file.mem, old(file.regions))
      ensures Extends(old(file.regions), file.regions)
      ensures file.refusals == old(file.refusals) + if r.Err? then 1 else 0
      ensures r.Ok? ==> 1 <= |r.value| == NumGroups(|children|) && 2 * |r.value| <= |children|
      ensures r.Ok? ==> LevelWritten(file.mem, file.regions, r.value, parents, level, dimensionality, chunkDims, es)
    {
      hide NumGroups, NodeSize, GroupOf, Shaped, Untouched, RootsHeld, AlignedTo, Aligned, AllShaped, LevelWritten,
           NewLevel.Valid, AllApart, BelowStored, FlattenAll, LevelsChained, AllStored, InnerLevel, InnerAt, Reserved, Extends;
      UntouchedSelf(file.mem, file.regions);
      parents := [];
      var groups := Partition(children);
      var reserved := AllocateNodes(file, |groups|, NodeSize(dimensionality + 1));
      ReservedExtends(if reserved.Ok? then reserved.value else [], old(file.regions), file.regions, NodeSize(dimensionality + 1));
      if reserved.Err? {
        return Err, parents;
      }
      var addrs := reserved.value;
      LevelParts(file.mem, old(file.regions), children, ts, level - 1, dimensionality, chunkDims, es);
      GroupSizes(children, 0);
      parents := InnerLevel(ts, addrs, level);
      ghost var up := NewLevel(parents, level, old(file.regions), file.regions);
      InnersReserved(ts, up, addrs, dimensionality);
      BelowAtStart(file.mem, children, ts, up, dimensionality, chunkDims, es);
      var nodes := WriteInners(file, groups, addrs, level, up, ts, children);
      InnerLevelOrder(ts, addrs, level);
      AlignedWhole(nodes, parents, level, dimensionality);
      InnersStored(file.mem, ts, up, addrs, dimensionality, chunkDims);
      LevelComplete(file.mem, up.after, nodes, parents, level, dimensionality, chunkDims, es);
      r := Ok(nodes);
    }

    /** buildMultiLevelTree: levels are added until one node is left.  `t` is the tree written, `h` its height. */
    method BuildMultiLevelTree(file: FileWriter) returns (r: Result<u64>, ghost t: Tree, ghost h: nat)
      requires Valid() && file.Valid() && 0 < |entries| < MAX_ENTRIES
      modifies file
      ensures file.Valid() && Untouched(old(file.mem), file.mem, old(file.regions))
      ensures file.refusals == old(file.refusals) + if r.Err? then 1 else 0
      ensures r.Ok? ==> IndexWritten(file.mem, file.regions, r.value, t, h, dimensionality, chunkDims, entries)
    {
      hide NumGroups, NodeSize, Untouched, Uniform, LevelWritten, FileWriter.Valid, Pow2, IndexWritten, Extends;
      ghost var mem0, regions0 := file.mem, file.regions;
      t, h := Leaf(0, 0, 0, []), 0;
      var made, ts := WriteLeafLevel(file, entries);
      if made.Err? {
        return Err, t, h;
      }
      var children := made.value;
      var level := 1;
      FirstLevel(|entries|);
      while |children| > 1
        invariant file.Valid() && Untouched(mem0, file.mem, regions0) && Extends(regions0, file.regions)
        invariant file.refusals == old(file.refusals)
        invariant 1 <= level && 1 <= |children| && |children| * Pow2(level - 1) <= |entries|
        invariant LevelWritten(file.mem, file.regions, children, ts, level - 1, dimensionality, chunkDims, entries)
        decreases |children|
      {
        LevelFitsByte(|children|, level, |entries|);
        ghost var mem1, regions1 := file.mem, file.regions;
        var next, parents := WriteInternalLevel(file, children, level, ts, entries);
        UntouchedChain(mem0, mem1, file.mem, regions0, regions1);
        ExtendsChain(regions0, regions1, file.regions);
        if next.Err? {
          return Err, t, h;
        }
        LevelShrinks(|children|, |next.value|, level, |entries|);
        children, ts := next.value, parents;
        level := level + 1;
      }
      t, h := RootOf(file.mem, file.regions, children, ts, level - 1, dimensionality, chunkDims, entries);
      r := Ok(children[0].addr);
    }

    /** writeSingleLeaf: all entries in one leaf without siblings. */
    method WriteSingleLeaf(file: FileWriter) returns (r: Result<u64>, ghost t: Tree)
      requires Valid() && file.Valid() && 0 < |entries| <= MAX_CHILDREN
      modifies file
      ensures file.Valid() && Untouched(old(file.mem), file.mem, old(file.regions))
      ensures file.refusals == old(file.refusals) + if r.Err? then 1 else 0
      ensures r.Ok? ==> IndexWritten(file.mem, file.regions, r.value, t, 0, dimensionality, chunkDims, entries)
    {
      hide NodeSize, Untouched, Serialized, NodeOf, Store, IndexWritten;
      UntouchedSelf(file.mem, file.regions);
      t := Leaf(0, UNDEFINED, UNDEFINED, entries);
      var node := BuildLeafNode(entries, UNDEFINED, UNDEFINED, 0);
      var buf := Serialize(node, chunkDims, dimensionality + 1);
      var reserved := file.Allocate(|buf|);
      if reserved.Err? {
        return Err, t;
      }
      SameLeafNode(0, reserved.value, UNDEFINED, UNDEFINED, entries, dimensionality);
      t := Leaf(reserved.value, UNDEFINED, UNDEFINED, entries);
      UntouchedStep(file.mem, file.mem, old(file.regions), reserved.value, buf);
      StoreHolds(file.mem, reserved.value, buf);
      file.WriteAt(reserved.value, buf);
      OneLeafWritten(file.mem, file.regions, t, dimensionality, chunkDims);
      r := Ok(reserved.value);
    }

    /** WriteToFile: the entries, sorted, become the leaves of one well-formed tree; an empty index is an error. */
    method WriteToFile(file: FileWriter) returns (r: Result<u64>, ghost t: Tree, ghost h: nat)
      requires Valid() && file.Valid() && |entries| < MAX_ENTRIES
      modifies this, file
      ensures Valid() && file.Valid() && Untouched(old(file.mem), file.mem, old(file.regions))
      ensures Sorted(entries) && multiset(entries) == multiset(old(entries))
      ensures file.refusals == old(file.refusals) + if r.Err? && old(entries) != [] then 1 else 0
      ensures old(entries) == [] ==> r.Err? && file.mem == old(file.mem) && file.regions == old(file.regions)
      ensures r.Ok? ==> IndexWritten(file.mem, file.regions, r.value, t, h, dimensionality, chunkDims, entries)
    {
      hide Untouched, IndexWritten, FileWriter.Valid, Sorted, Uniform;
      UntouchedSelf(file.mem, file.regions);
      t, h := Leaf(0, 0, 0, []), 0;
      if |entries| == 0 {
        NoEntriesSorted(entries);
        return Err, t, h;
      }
      var sorted := SortEntries(entries, dimensionality);
      assert |multiset(sorted)| == |multiset(entries)|;
      entries := sorted;
      if |entries| <= MAX_CHILDREN {
        r, t := WriteSingleLeaf(file);
      } else {
        r, t, h := BuildMultiLevelTree(file);
      }
    }
  }

  // ---- the finished tree ----

  /** A Go slice holds fewer than 2^63 elements. */
  const MAX_ENTRIES: nat := 0x8000_0000_0000_0000

  function Pow2(n: nat): (p: nat)
    ensures p > 0
  {
    if n == 0 then 1 else 2 * Pow2(n - 1)
  }

  lemma {:induction false} Pow2Grows(a: nat, b: nat)
    requires a <= b
    ensures Pow2(a) <= Pow2(b)
  {
    if a < b {
      Pow2Grows(a, b - 1);
    }
  }

  lemma Pow2Seven(n: nat)
    ensures Pow2(n + 7) == 128 * Pow2(n)
  {
    assert Pow2(n + 2) == 2 * Pow2(n + 1) == 4 * Pow2(n);
    assert Pow2(n + 4) == 2 * Pow2(n + 3) == 4 * Pow2(n + 2);
    assert Pow2(n + 6) == 2 * Pow2(n + 5) == 4 * Pow2(n + 4);
    assert Pow2(n + 7) == 2 * Pow2(n + 6);
  }

  lemma Pow2Of63()
    ensures Pow2(63) == MAX_ENTRIES
  {
    assert Pow2(0) == 1;
    hide Pow2;
    Pow2Seven(0);
    Pow2Seven(7);
    Pow2Seven(14);
    assert Pow2(21) == 0x20_0000;
    Pow2Seven(21);
    Pow2Seven(28);
    Pow2Seven(35);
    assert Pow2(42) == 0x400_0000_0000;
    Pow2Seven(42);
    Pow2Seven(49);
    Pow2Seven(56);
  }

  lemma FirstLevel(n: nat)
    requires n > 0
    ensures 1 <= NumGroups(n) && NumGroups(n) * Pow2(0) <= n
  {
  }

  /** The level number never leaves its byte. */
  lemma LevelFitsByte(count: nat, level: nat, n: nat)
    requires level >= 1 && count > 1 && count * Pow2(level - 1) <= n < MAX_ENTRIES
    ensures level < 64
  {
    if level >= 64 {
      Pow2Of63();
      Pow2Grows(63, level - 1);
      MulMono(1, count, Pow2(level - 1));
    }
  }

  lemma LevelShrinks(count: nat, next: nat, level: nat, n: nat)
    requires level >= 1 && count * Pow2(level - 1) <= n && 2 * next <= count
    ensures next * Pow2(level) <= n
  {
    MulMono(2 * next, count, Pow2(level - 1));
    assert Pow2(level) == 2 * Pow2(level - 1);
    assert next * (2 * Pow2(level - 1)) == (2 * next) * Pow2(level - 1);
  }

  lemma NoEntriesSorted(es: seq<Entry>)
    requires es == []
    ensures Sorted(es)
  {
  }

  /** The tree `t` of height `h`, rooted at `addr`, is in the file and holds `es` from left to right. */
  ghost predicate IndexWritten(m: Mem, regions: map<nat, nat>, addr: u64, t: Tree, h: nat, dim: nat, chunkDims: seq<u64>, es: seq<Entry>)
  {
    && t.addr == addr && Shaped(t, h, dim)
    && Stored(m, t, h, dim, chunkDims) && Placed(t, regions, NodeSize(dim + 1))
    && Flatten(t) == es && LevelsChained([t], h)
  }

  lemma RootOf(m: Mem, regions: map<nat, nat>, children: seq<InternalChild>, ts: seq<Tree>, level: nat,
               dim: nat, chunkDims: seq<u64>, es: seq<Entry>) returns (t: Tree, h: nat)
    requires |children| == 1 && LevelWritten(m, regions, children, ts, level, dim, chunkDims, es)
    ensures IndexWritten(m, regions, children[0].addr, t, h, dim, chunkDims, es)
  {
    hide Shaped, Stored, Placed, LevelsChained, NodeSize, FirstKey, LastKey, Flatten, FlattenAll;
    t, h := ts[0], level;
    assert ts == [t];
    FlattenOne(t);
  }

  /** A leaf's image does not depend on its address. */
  lemma SameLeafNode(a: u64, b: u64, left: u64, right: u64, es: seq<Entry>, dim: nat)
    requires Shaped(Leaf(a, left, right, es), 0, dim)
    ensures NodeOf(Leaf(a, left, right, es), 0, dim) == NodeOf(Leaf(b, left, right, es), 0, dim)
  {
  }

  lemma OneLeafWritten(m: Mem, regions: map<nat, nat>, t: Tree, dim: nat, chunkDims: seq<u64>)
    requires t.Leaf? && t.left == UNDEFINED && t.right == UNDEFINED && Shaped(t, 0, dim)
    requires Holds(m, t.addr, Serialized(NodeOf(t, 0, dim), chunkDims, dim + 1))
    requires t.addr in regions && regions[t.addr] == NodeSize(dim + 1)
    ensures IndexWritten(m, regions, t.addr, t, 0, dim, chunkDims, t.entries)
  {
    hide NodeSize, Serialized, NodeOf, Holds, LevelAll;
    LevelOfSelf([t], 0);
  }

  /** The level below is stored and lies in regions reserved before this level. */
  ghost predicate BelowStored(m: Mem, ts: seq<Tree>, up: NewLevel, dim: nat, chunkDims: seq<u64>)
  {
    up.h >= 1 && AllShaped(ts, up.h - 1, dim) && forall i | 0 <= i < |ts| ::
      Stored(m, ts[i], up.h - 1, dim, chunkDims) && Placed(ts[i], up.before, NodeSize(dim + 1))
  }

  lemma BelowKept(m: Mem, at: nat, bs: seq<byte>, ts: seq<Tree>, up: NewLevel, dim: nat, chunkDims: seq<u64>)
    requires BelowStored(m, ts, up, dim, chunkDims)
    requires forall a | a in up.before :: Disjoint(at, |bs|, a, up.before[a])
    ensures BelowStored(Store(m, at, bs), ts, up, dim, chunkDims)
  {
    hide Shaped, Stored, Placed, Store, NodeSize;
    forall i | 0 <= i < |ts| ensures Stored(Store(m, at, bs), ts[i], up.h - 1, dim, chunkDims) {
      StoredKept(m, at, bs, ts[i], up.h - 1, dim, chunkDims, up.before);
    }
  }

  lemma UpShaped(up: NewLevel, dim: nat)
    requires up.Valid(dim)
    ensures AllShaped(up.ts, up.h, dim)
  {
  }

  lemma GroupAligned(children: seq<InternalChild>, ts: seq<Tree>, i: nat, h: nat, dim: nat)
    requires AllShaped(ts, h, dim) && Aligned(children, ts, h, dim)
    ensures AllShaped(GroupOf(ts, i), h, dim) && Aligned(GroupOf(children, i), GroupOf(ts, i), h, dim)
  {
    hide Shaped, FirstKey, LastKey;
  }

  lemma LevelParts(m: Mem, regions: map<nat, nat>, children: seq<InternalChild>, ts: seq<Tree>, h: nat,
                   dim: nat, chunkDims: seq<u64>, es: seq<Entry>)
    requires LevelWritten(m, regions, children, ts, h, dim, chunkDims, es)
    ensures AllShaped(ts, h, dim) && Aligned(children, ts, h, dim) && |children| == |ts|
    ensures FlattenAll(ts) == es && LevelsChained(ts, h)
  {
    hide Shaped, Stored, Placed, FlattenAll, LevelsChained, FirstKey, LastKey;
  }

  lemma BelowAtStart(m: Mem, children: seq<InternalChild>, ts: seq<Tree>, up: NewLevel,
                     dim: nat, chunkDims: seq<u64>, es: seq<Entry>)
    requires up.h >= 1 && LevelWritten(m, up.before, children, ts, up.h - 1, dim, chunkDims, es)
    ensures BelowStored(m, ts, up, dim, chunkDims)
  {
    hide Shaped, Stored, Placed, FlattenAll, LevelsChained;
  }

  lemma InnerLevelOrder(ts: seq<Tree>, addrs: seq<u64>, level: byte)
    requires level >= 1 && |addrs| == NumGroups(|ts|) && LevelsChained(ts, level - 1)
    ensures FlattenAll(InnerLevel(ts, addrs, level)) == FlattenAll(ts)
    ensures LevelsChained(InnerLevel(ts, addrs, level), level)
  {
    hide NumGroups, FlattenAll, LevelsChained, LevelAll;
    var up := InnerLevel(ts, addrs, level);
    InnersFlatten(ts, addrs, level, level - 1, 0, |addrs|);
    GroupSizes(ts, |addrs|);
    assert up[..|addrs|] == up && ts[..|ts|] == ts;
    InnersChained(ts, addrs, level, level - 1);
  }

  lemma AlignedWhole(children: seq<InternalChild>, ts: seq<Tree>, h: nat, dim: nat)
    requires AllShaped(ts, h, dim) && AlignedTo(children, ts, |ts|, h, dim)
    ensures Aligned(children, ts, h, dim)
  {
    hide Shaped, FirstKey, LastKey;
  }

  lemma LevelComplete(m: Mem, regions: map<nat, nat>, children: seq<InternalChild>, ts: seq<Tree>, h: nat,
                      dim: nat, chunkDims: seq<u64>, es: seq<Entry>)
    requires AllShaped(ts, h, dim) && Aligned(children, ts, h, dim)
    requires AllStored(m, regions, ts, h, dim, chunkDims)
    requires FlattenAll(ts) == es && LevelsChained(ts, h)
    ensures LevelWritten(m, regions, children, ts, h, dim, chunkDims, es)
  {
    hide Shaped, Aligned, Stored, Placed, FlattenAll, LevelsChained, NodeSize;
  }

  ghost predicate AllStored(m: Mem, regions: map<nat, nat>, ts: seq<Tree>, h: nat, dim: nat, chunkDims: seq<u64>)
    requires AllShaped(ts, h, dim)
  {
    forall i | 0 <= i < |ts| :: Stored(m, ts[i], h, dim, chunkDims) && Placed(ts[i], regions, NodeSize(dim + 1))
  }

  lemma InnersStored(m: Mem, ts: seq<Tree>, up: NewLevel, addrs: seq<u64>, dim: nat, chunkDims: seq<u64>)
    requires up.Valid(dim) && 1 <= up.h < 256 && up.ts == InnerLevel(ts, addrs, up.h)
    requires RootsHeld(m, up.ts, |up.ts|, up.h, dim, chunkDims) && BelowStored(m, ts, up, dim, chunkDims)
    ensures AllStored(m, up.after, up.ts, up.h, dim, chunkDims)
  {
    hide Shaped, Stored, Placed, RootsHeld, BelowStored, Reserved, NodeSize, InnerAt;
    forall i | 0 <= i < |up.ts|
      ensures Stored(m, up.ts[i], up.h, dim, chunkDims) && Placed(up.ts[i], up.after, NodeSize(dim + 1))
    {
      InnerStored(m, ts, up, i, addrs, dim, chunkDims);
    }
  }

  lemma InnerStored(m: Mem, ts: seq<Tree>, up: NewLevel, i: nat, addrs: seq<u64>, dim: nat, chunkDims: seq<u64>)
    requires up.Valid(dim) && 1 <= up.h < 256 && up.ts == InnerLevel(ts, addrs, up.h) && i < |addrs|
    requires RootsHeld(m, up.ts, |up.ts|, up.h, dim, chunkDims) && BelowStored(m, ts, up, dim, chunkDims)
    ensures Shaped(up.ts[i], up.h, dim)
    ensures Stored(m, up.ts[i], up.h, dim, chunkDims) && Placed(up.ts[i], up.after, NodeSize(dim + 1))
  {
    hide NodeSize, Serialized, NodeOf, Holds, AllApart;
    var t := up.ts[i];
    assert t == InnerAt(ts, addrs, up.h, i);
    forall j | 0 <= j < |t.kids|
      ensures Stored(m, t.kids[j], up.h - 1, dim, chunkDims) && Placed(t.kids[j], up.after, NodeSize(dim + 1))
    {
      var k := Cut(|ts|, i) + j;
      PlacedGrows(ts[k], up.before, up.after, NodeSize(dim + 1));
    }
    assert up.Addrs()[i] == t.addr;
  }

  /** A level about to be written: its trees, their height, and the regions before and after reservation. */
  datatype NewLevel = NewLevel(ts: seq<Tree>, h: nat, before: map<nat, nat>, after: map<nat, nat>) {
    function Addrs(): (a: seq<u64>)
      ensures |a| == |ts| && forall i | 0 <= i < |a| :: a[i] == ts[i].addr
    {
      seq(|ts|, i requires 0 <= i < |ts| => ts[i].addr)
    }

    ghost predicate Valid(dim: nat) {
      && AllShaped(ts, h, dim)
      && Reserved(Addrs(), before, after, NodeSize(dim + 1))
      && AllApart(after)
    }
  }

  lemma LevelReserved(level: NewLevel, addrs: seq<u64>, dim: nat)
    requires AllShaped(level.ts, level.h, dim) && |addrs| == |level.ts|
    requires forall i | 0 <= i < |addrs| :: level.ts[i].addr == addrs[i]
    requires Reserved(addrs, level.before, level.after, NodeSize(dim + 1))
    requires AllApart(level.after)
    ensures level.Valid(dim)
  {
    hide NodeSize, AllShaped;
    assert level.Addrs() == addrs;
  }

  /** The internal nodes over `ts`, at freshly reserved addresses, form a level ready to be written. */
  lemma InnersReserved(ts: seq<Tree>, up: NewLevel, addrs: seq<u64>, dim: nat)
    requires 1 <= up.h < 256 && AllShaped(ts, up.h - 1, dim) && up.ts == InnerLevel(ts, addrs, up.h)
    requires |addrs| == NumGroups(|ts|) && Reserved(addrs, up.before, up.after, NodeSize(dim + 1)) && AllApart(up.after)
    ensures up.Valid(dim) && AllShaped(up.ts, up.h, dim)
  {
    hide AllShaped, NodeSize, NumGroups, Reserved, AllApart, NewLevel.Valid, GroupOf;
    InnersShaped(ts, addrs, up.h, up.h - 1, dim);
    LevelReserved(up, addrs, dim);
  }

  lemma ReservedExtends(addrs: seq<u64>, before: map<nat, nat>, after: map<nat, nat>, size: nat)
    requires Reserved(addrs, before, after, size)
    ensures Extends(before, after)
  {
  }

  /** The first `n` roots are in memory. */
  ghost predicate RootsHeld(m: Mem, ts: seq<Tree>, n: nat, h: nat, dim: nat, chunkDims: seq<u64>)
    requires AllShaped(ts, h, dim)
  {
    n <= |ts| && forall j | 0 <= j < n :: Holds(m, ts[j].addr, Serialized(NodeOf(ts[j], h, dim), chunkDims, dim + 1))
  }

  ghost predicate AlignedTo(children: seq<InternalChild>, ts: seq<Tree>, n: nat, h: nat, dim: nat)
    requires AllShaped(ts, h, dim)
  {
    n == |children| <= |ts| && forall j | 0 <= j < n ::
      children[j] == InternalChild(ts[j].addr, FirstKey(ts[j], h, dim), LastKey(ts[j], h, dim))
  }

  lemma AlignedStep(children: seq<InternalChild>, ts: seq<Tree>, n: nat, h: nat, dim: nat, c: InternalChild)
    requires AllShaped(ts, h, dim) && AlignedTo(children, ts, n, h, dim) && n < |ts|
    requires c == InternalChild(ts[n].addr, FirstKey(ts[n], h, dim), LastKey(ts[n], h, dim))
    ensures AlignedTo(children + [c], ts, n + 1, h, dim)
  {
    hide Shaped, FirstKey, LastKey;
  }

  lemma NoRoots(m: Mem, ts: seq<Tree>, h: nat, dim: nat, chunkDims: seq<u64>)
    requires AllShaped(ts, h, dim)
    ensures RootsHeld(m, ts, 0, h, dim, chunkDims)
    ensures AlignedTo([], ts, 0, h, dim)
  {
  }

  lemma LeafNodeKeys(t: Tree, dim: nat)
    requires Shaped(t, 0, dim)
    ensures var keys := NodeOf(t, 0, dim).keys;
      keys != [] && keys[0] == FirstKey(t, 0, dim) && keys[|keys| - 1] == LastKey(t, 0, dim)
  {
  }

  /** A reserved region lies apart from the older regions and from its reserved neighbours. */
  lemma ReservedApart(addrs: seq<u64>, i: nat, before: map<nat, nat>, after: map<nat, nat>, size: nat)
    requires Reserved(addrs, before, after, size) && i < |addrs|
    requires AllApart(after)
    ensures forall a | a in before :: Disjoint(addrs[i], size, a, before[a])
    ensures forall j | 0 <= j < |addrs| && j != i :: Disjoint(addrs[i], size, addrs[j], size)
  {
  }

  /** Writing root `i` keeps the earlier roots and adds this one. */
  lemma RootStep(m: Mem, level: NewLevel, i: nat, dim: nat, chunkDims: seq<u64>)
    requires level.Valid(dim) && i < |level.ts| && RootsHeld(m, level.ts, i, level.h, dim, chunkDims)
    ensures RootsHeld(Store(m, level.ts[i].addr, Serialized(NodeOf(level.ts[i], level.h, dim), chunkDims, dim + 1)),
              level.ts, i + 1, level.h, dim, chunkDims)
  {
    hide NodeOf, Store, Serialized, Holds, NodeSize, Shaped, FirstKey, LastKey, Reserved;
    var ts, h := level.ts, level.h;
    var at, bs := ts[i].addr, Serialized(NodeOf(ts[i], h, dim), chunkDims, dim + 1);
    ReservedApart(level.Addrs(), i, level.before, level.after, NodeSize(dim + 1));
    StoreHolds(m, at, bs);
    forall j | 0 <= j < i
      ensures Holds(Store(m, at, bs), ts[j].addr, Serialized(NodeOf(ts[j], h, dim), chunkDims, dim + 1))
    {
      StoreKeeps(m, at, bs, ts[j].addr, Serialized(NodeOf(ts[j], h, dim), chunkDims, dim + 1));
    }
  }

  lemma LeafLevelWritten(m: Mem, regions: map<nat, nat>, children: seq<InternalChild>, ts: seq<Tree>, es: seq<Entry>,
                         addrs: seq<u64>, dim: nat, chunkDims: seq<u64>)
    requires ts == LeafLevel(es, addrs) && |addrs| == NumGroups(|es|) && AllShaped(ts, 0, dim)
    requires RootsHeld(m, ts, |ts|, 0, dim, chunkDims) && AlignedTo(children, ts, |ts|, 0, dim) && |children| == |ts|
    requires forall i | 0 <= i < |addrs| :: addrs[i] in regions && regions[addrs[i]] == NodeSize(dim + 1)
    ensures LevelWritten(m, regions, children, ts, 0, dim, chunkDims, es) && |children| == NumGroups(|es|)
  {
    hide NumGroups, NodeSize, Serialized, NodeOf, GroupOf, FlattenAll, LevelsChained, Holds, Aligned, AlignedTo;
    AlignedWhole(children, ts, 0, dim);
    LeavesFlatten(es, addrs, |addrs|);
    GroupSizes(es, |addrs|);
    assert ts[..|addrs|] == ts && es[..|es|] == es;
    LeavesChained(es, addrs);
  }

  lemma InnerNodeParts(t: Tree, h: nat, dim: nat)
    requires Shaped(t, h, dim) && t.Inner?
    ensures 1 <= |t.kids| <= MAX_CHILDREN && h >= 1 && AllShaped(t.kids, h - 1, dim)
    ensures FirstKey(t, h, dim) == FirstKey(t.kids[0], h - 1, dim)
    ensures LastKey(t, h, dim) == LastKey(t.kids[|t.kids| - 1], h - 1, dim)
    ensures var node := NodeOf(t, h, dim);
      && |node.children| == |t.kids| && node.level == t.level
      && (forall i | 0 <= i < |t.kids| :: node.children[i] == t.kids[i].addr && node.keys[i] == FirstKey(t.kids[i], h - 1, dim))
      && node.keys[|t.kids|] == LastKey(t, h, dim)
  {
  }
}
