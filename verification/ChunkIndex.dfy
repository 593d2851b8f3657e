/** The chunk index end to end: reading back what the bulk loader wrote, and the order of its keys. */
module ChunkIndex {
  import opened Arith
  import opened Bytes
  import opened Storage
  import opened ChunkNode
  import opened ChunkTree

  // ---- the reader: CollectAllChunks ----

  datatype Found = Found(key: Key, address: u64)

  function LeafChunks(node: Node): (found: seq<Found>)
    requires |node.children| <= |node.keys|
  {
    seq(|node.children|, i requires 0 <= i < |node.children| => Found(node.keys[i], node.children[i]))
  }

  /** Everything below `node`, following at most `depth` levels of children. */
  function Collected(m: Mem, node: Node, dims: seq<u64>, depth: nat): Result<seq<Found>>
    requires |node.children| <= |node.keys|
    decreases depth, 0, 0
  {
    if node.level == 0 then Ok(LeafChunks(node))
    else if depth == 0 then Err
    else CollectedBelow(m, node.children, dims, depth - 1)
  }

  function CollectedBelow(m: Mem, children: seq<u64>, dims: seq<u64>, depth: nat): Result<seq<Found>>
    decreases depth, 1, |children|
  {
    if children == [] then Ok([])
    else
      match CollectedAt(m, children[0], dims, depth)
      case Err => Err
      case Ok(first) => Prepend(first, CollectedBelow(m, children[1..], dims, depth))
  }

  function CollectedAt(m: Mem, at: u64, dims: seq<u64>, depth: nat): Result<seq<Found>>
    decreases depth, 1, 0
  {
    match Parsed(m, at, dims)
    case Err => Err
    case Ok(node) => if |node.children| <= |node.keys| then Collected(m, node, dims, depth) else Err
  }

  lemma ParsedKeysCount(m: Mem, at: nat, dims: seq<u64>)
    ensures var r := Parsed(m, at, dims); r.Ok? ==> |r.value.children| <= |r.value.keys|
  {
  }

  /** CollectAllChunks; `depth` stands for the recursion depth the machine allows. */
  method CollectAllChunks(m: Mem, node: Node, dims: seq<u64>, depth: nat) returns (r: Result<seq<Found>>)
    requires |node.children| <= |node.keys|
    ensures r == Collected(m, node, dims, depth)
    decreases depth
  {
    hide Parsed, Prepend;
    var chunks: seq<Found> := [];
    var i := 0;
    if node.level == 0 {
      while i < |node.children|
        invariant i <= |node.children| && chunks == LeafChunks(node)[..i]
      {
        chunks := chunks + [Found(node.keys[i], node.children[i])];
        i := i + 1;
      }
      assert chunks == LeafChunks(node);
      return Ok(chunks);
    }
    if depth == 0 {
      return Err;
    }
    PrependLaws(chunks, chunks, Collected(m, node, dims, depth));
    while i < |node.children|
      invariant i <= |node.children|
      invariant Collected(m, node, dims, depth) ==
                Prepend(chunks, CollectedBelow(m, node.children[i..], dims, depth - 1))
    {
      CollectedStep(m, node.children, i, dims, depth - 1, chunks);
      var parsed := ParseBTreeV1Node(m, node.children[i], dims);
      if parsed.Err? {
        return Err;
      }
      ParsedKeysCount(m, node.children[i], dims);
      var below := CollectAllChunks(m, parsed.value, dims, depth - 1);
      if below.Err? {
        return Err;
      }
      chunks := chunks + below.value;
      i := i + 1;
    }
    CollectedEnd(m, node.children, dims, depth - 1, chunks);
    r := Ok(chunks);
  }

  lemma CollectedStep(m: Mem, children: seq<u64>, i: nat, dims: seq<u64>, depth: nat, chunks: seq<Found>)
    requires i < |children|
    ensures var first := CollectedAt(m, children[i], dims, depth);
      Prepend(chunks, CollectedBelow(m, children[i..], dims, depth)) ==
      if first.Err? then Err else Prepend(chunks + first.value, CollectedBelow(m, children[i + 1..], dims, depth))
  {
    hide CollectedAt;
    assert children[i..][1..] == children[i + 1..];
    var first := CollectedAt(m, children[i], dims, depth);
    if first.Ok? {
      PrependLaws(chunks, first.value, CollectedBelow(m, children[i + 1..], dims, depth));
    }
  }

  lemma CollectedEnd(m: Mem, children: seq<u64>, dims: seq<u64>, depth: nat, chunks: seq<Found>)
    ensures Prepend(chunks, CollectedBelow(m, children[|children|..], dims, depth)) == Ok(chunks)
  {
    assert chunks + [] == chunks;
  }

  // ---- reading a stored tree ----

  /** What the reader reports for an entry: its key scaled back by the dimensions. */
  function ReadBack(e: Entry, chunkDims: seq<u64>, dims: seq<u64>): Found
    requires forall j | 0 <= j < |dims| :: dims[j] > 0
  {
    Found(Scaled(EntryKey(e), chunkDims, dims), e.address)
  }

  function ReadBackAll(es: seq<Entry>, chunkDims: seq<u64>, dims: seq<u64>): (found: seq<Found>)
    requires forall j | 0 <= j < |dims| :: dims[j] > 0
    ensures |found| == |es| && forall i | 0 <= i < |es| :: found[i] == ReadBack(es[i], chunkDims, dims)
  {
    seq(|es|, i requires 0 <= i < |es| => ReadBack(es[i], chunkDims, dims))
  }

  function Addresses(ts: seq<Tree>): (a: seq<u64>)
    ensures |a| == |ts| && forall i | 0 <= i < |ts| :: a[i] == ts[i].addr
  {
    seq(|ts|, i requires 0 <= i < |ts| => ts[i].addr)
  }

  lemma ReadBackSplit(a: seq<Entry>, b: seq<Entry>, chunkDims: seq<u64>, dims: seq<u64>)
    requires forall j | 0 <= j < |dims| :: dims[j] > 0
    ensures ReadBackAll(a + b, chunkDims, dims) == ReadBackAll(a, chunkDims, dims) + ReadBackAll(b, chunkDims, dims)
  {
    hide ReadBack;
  }

  /** A stored tree is collected as its entries from left to right, at any height. */
  lemma {:induction false} TreeReadsBack(m: Mem, t: Tree, h: nat, chunkDims: seq<u64>, dims: seq<u64>, depth: nat)
    requires |dims| >= 1 && forall j | 0 <= j < |dims| :: dims[j] > 0
    requires Shaped(t, h, |dims| - 1) && Stored(m, t, h, |dims| - 1, chunkDims) && h <= depth
    ensures CollectedAt(m, t.addr, dims, depth) == Ok(ReadBackAll(Flatten(t), chunkDims, dims))
    decreases t, 0
  {
    hide Parsed, Serialized, Scaled, Holds, Store, FirstKey, LastKey;
    var node := NodeOf(t, h, |dims| - 1);
    NodeParsesBack(m, t.addr, node, chunkDims, dims);
    var parsed := ScaledNode(node, chunkDims, dims);
    match t
    case Leaf(_, _, _, entries) =>
      assert LeafChunks(parsed) == ReadBackAll(entries, chunkDims, dims);
    case Inner(_, _, _, _, kids) =>
      assert parsed.children == Addresses(kids);
      KidsReadBack(m, kids, h - 1, chunkDims, dims, depth - 1);
  }

  lemma {:induction false} KidsReadBack(m: Mem, ts: seq<Tree>, h: nat, chunkDims: seq<u64>, dims: seq<u64>, depth: nat)
    requires |dims| >= 1 && forall j | 0 <= j < |dims| :: dims[j] > 0
    requires forall i | 0 <= i < |ts| :: Shaped(ts[i], h, |dims| - 1) && Stored(m, ts[i], h, |dims| - 1, chunkDims)
    requires h <= depth
    ensures CollectedBelow(m, Addresses(ts), dims, depth) == Ok(ReadBackAll(FlattenAll(ts), chunkDims, dims))
    decreases ts, 1
  {
    hide CollectedAt, Stored, Shaped, Flatten, ReadBackAll;
    if ts == [] {
      assert ReadBackAll([], chunkDims, dims) == [];
    } else {
      TreeReadsBack(m, ts[0], h, chunkDims, dims, depth);
      KidsReadBack(m, ts[1..], h, chunkDims, dims, depth);
      assert Addresses(ts)[1..] == Addresses(ts[1..]);
      ReadBackSplit(Flatten(ts[0]), FlattenAll(ts[1..]), chunkDims, dims);
    }
  }

  // ---- write, then read ----

  /** The entry comes back unchanged, with the zero element-size coordinate appended. */
  predicate Exact(e: Entry, f: Found)
  {
    f == Found(Key(e.coord + [0], e.nbytes, 0), e.address)
  }

  /** An entry is read back unchanged exactly when none of its byte offsets wraps. */
  lemma ReadBackExact(e: Entry, chunkDims: seq<u64>, dims: seq<u64>)
    requires |e.coord| == |chunkDims| && |dims| == |chunkDims| + 1 && dims[..|chunkDims|] == chunkDims
    requires forall j | 0 <= j < |dims| :: dims[j] > 0
    ensures Exact(e, ReadBack(e, chunkDims, dims)) <==> NoWrap(EntryKey(e), chunkDims)
  {
    hide Scaled, NoWrap;
    KeySurvives(EntryKey(e), chunkDims, dims);
  }

  /** Adds `adds` in the given order, writes the index, and collects it from the file.  The result is a sorted
      permutation of what was added; each entry is intact exactly when its byte offsets do not wrap.  The index in the
      file is a balanced tree over it with every level one sibling chain, and its keys bound their children when no
      coordinates repeat. */
  method WriteThenCollect(file: FileWriter, chunkDims: seq<u64>, elementSize: u32, adds: seq<Entry>)
    returns (r: Result<seq<Found>>, written: bool, ghost sorted: seq<Entry>, ghost tree: Tree, ghost height: nat)
    requires file.Valid() && 0 < elementSize && Uniform(adds, |chunkDims|) && |adds| < MAX_ENTRIES
    requires forall j | 0 <= j < |chunkDims| :: chunkDims[j] > 0
    modifies file
    ensures written <==> adds != [] && file.refusals == old(file.refusals)
    ensures Untouched(old(file.mem), file.mem, old(file.regions))
    ensures multiset(sorted) == multiset(adds) && Sorted(sorted)
    ensures written ==> r.Ok? && |r.value| == |sorted|
    ensures written ==> forall i | 0 <= i < |sorted| ::
      Exact(sorted[i], r.value[i]) <==> NoWrap(EntryKey(sorted[i]), chunkDims)
    ensures written ==> IndexWritten(file.mem, file.regions, tree.addr, tree, height, |chunkDims|, chunkDims, sorted)
    ensures written && |chunkDims| >= 1 && Bounded(adds) ==> AllKeysBound(tree, height, |chunkDims|)
  {
    hide Uniform, Sorted, FileWriter.Valid, Untouched, NodeSize, NoWrap, Exact, ReadBack, Parsed, Collected, Bounded;
    var w := new ChunkBTreeWriter(|chunkDims|, chunkDims);
    var i := 0;
    while i < |adds|
      invariant i <= |adds| && w.Valid() && w.entries == adds[..i]
      modifies w
    {
      UniformAt(adds, i, |chunkDims|);
      var ok := w.AddChunkWithSize(adds[i].coord, adds[i].address, adds[i].nbytes);
      i := i + 1;
    }
    assert adds[..|adds|] == adds;
    var root, t, h := w.WriteToFile(file);
    sorted, tree, height := w.entries, t, h;
    written := root.Ok?;
    r := Err;
    if written {
      var dims := chunkDims + [elementSize as u64];
      WrittenCollects(file.mem, file.regions, root.value, t, h, chunkDims, dims, sorted);
      WrittenBounds(file.mem, file.regions, root.value, t, h, chunkDims, adds, sorted);
      var node := ParseBTreeV1Node(file.mem, root.value, dims);
      if node.Ok? {
        ParsedKeysCount(file.mem, root.value, dims);
        r := CollectAllChunks(file.mem, node.value, dims, 255);
      }
      forall k | 0 <= k < |sorted|
        ensures Exact(sorted[k], r.value[k]) <==> NoWrap(EntryKey(sorted[k]), chunkDims)
      {
        UniformAt(sorted, k, |chunkDims|);
        ReadBackExact(sorted[k], chunkDims, dims);
      }
    }
  }

  lemma UniformAt(es: seq<Entry>, i: nat, dim: nat)
    requires Uniform(es, dim) && i < |es|
    ensures |es[i].coord| == dim
  {
  }

  lemma WrittenCollects(m: Mem, regions: map<nat, nat>, addr: u64, t: Tree, h: nat, chunkDims: seq<u64>, dims: seq<u64>,
                        es: seq<Entry>)
    requires |dims| == |chunkDims| + 1 && forall j | 0 <= j < |dims| :: dims[j] > 0
    requires IndexWritten(m, regions, addr, t, h, |chunkDims|, chunkDims, es)
    ensures CollectedAt(m, addr, dims, 255) == Ok(ReadBackAll(es, chunkDims, dims))
  {
    hide Stored, Placed, Flatten, LevelsChained, CollectedAt, ReadBackAll;
    TreeReadsBack(m, t, h, chunkDims, dims, 255);
  }

  /** No coordinates repeat, and no leading one is all ones. */
  ghost predicate Bounded(es: seq<Entry>)
  {
    DistinctCoords(es) && forall i | 0 <= i < |es| && es[i].coord != [] :: es[i].coord[0] != UNDEFINED
  }

  lemma WrittenBounds(m: Mem, regions: map<nat, nat>, addr: u64, t: Tree, h: nat, chunkDims: seq<u64>, adds: seq<Entry>, es: seq<Entry>)
    requires IndexWritten(m, regions, addr, t, h, |chunkDims|, chunkDims, es)
    requires multiset(es) == multiset(adds) && Uniform(adds, |chunkDims|) && Sorted(es)
    ensures t.addr == addr && Shaped(t, h, |chunkDims|)
    ensures |chunkDims| >= 1 && Bounded(adds) ==> AllKeysBound(t, h, |chunkDims|)
  {
    hide Stored, Placed, Flatten, LevelsChained, Shaped, Sorted, AllKeysBound;
    if |chunkDims| >= 1 && Bounded(adds) {
      DistinctPermuted(es, adds);
      forall i | 0 <= i < |es| ensures |es[i].coord| == |chunkDims| && es[i].coord[0] != UNDEFINED {
        assert es[i] in multiset(adds);
      }
      TreeKeysBound(t, h, |chunkDims|);
    }
  }

  /** Distinct coordinates survive permutation. */
  lemma DistinctPermuted(a: seq<Entry>, b: seq<Entry>)
    requires multiset(a) == multiset(b) && DistinctCoords(b)
    ensures DistinctCoords(a)
  {
    forall i, j | 0 <= i < j < |a| ensures a[i].coord != a[j].coord {
      if a[i] == a[j] {
        Twice(a, i, j);
        AtMostOnce(b, a[i]);
        assert false;
      }
      assert a[i] in multiset(b) && a[j] in multiset(b);
      var k :| 0 <= k < |b| && b[k] == a[i];
      var l :| 0 <= l < |b| && b[l] == a[j];
    }
  }

  // ---- the order of the keys ----

  /** Coordinates the ordering claims are about: at least one dimension, leading coordinate not all ones. */
  ghost predicate Orderly(es: seq<Entry>, dim: nat)
  {
    && dim >= 1 && Uniform(es, dim) && Sorted(es) && DistinctCoords(es)
    && forall i | 0 <= i < |es| :: es[i].coord[0] != UNDEFINED
  }

  /** The entries below child `i` of the node. */
  function Below(t: Tree, i: nat): seq<Entry>
  {
    match t
    case Leaf(_, _, _, entries) => if i < |entries| then [entries[i]] else []
    case Inner(_, _, _, _, kids) => if i < |kids| then Flatten(kids[i]) else []
  }

  /** In this node keys strictly increase, and every entry below child `i` lies in [key i, key i+1). */
  ghost predicate KeysBound(t: Tree, h: nat, dim: nat)
    requires Shaped(t, h, dim)
  {
    var keys := NodeOf(t, h, dim).keys;
    && (forall i, j | 0 <= i < j < |keys| :: CompareCoords(keys[i].coords, keys[j].coords) < 0)
    && (forall i, e | 0 <= i < |keys| - 1 && e in Below(t, i) ::
          CompareCoords(keys[i].coords, e.coord) <= 0 && CompareCoords(e.coord, keys[i + 1].coords) < 0)
  }

  ghost predicate AllKeysBound(t: Tree, h: nat, dim: nat)
    requires Shaped(t, h, dim)
    decreases t
  {
    KeysBound(t, h, dim) && (t.Inner? ==> forall i | 0 <= i < |t.kids| :: AllKeysBound(t.kids[i], h - 1, dim))
  }

  lemma SortedStrict(es: seq<Entry>, dim: nat, i: nat, j: nat)
    requires Orderly(es, dim) && i < |es| && j < |es|
    ensures i < j ==> CompareCoords(es[i].coord, es[j].coord) < 0
    ensures i <= j ==> CompareCoords(es[i].coord, es[j].coord) <= 0
  {
    hide CompareCoords;
    CompareTotal(es[i].coord, es[j].coord, es[j].coord);
  }

  lemma BelowSentinel(es: seq<Entry>, dim: nat, i: nat)
    requires Orderly(es, dim) && i < |es|
    ensures CompareCoords(es[i].coord, SentinelKey(es[|es| - 1], dim).coords) < 0
  {
    SortedStrict(es, dim, i, |es| - 1);
    assert es[i].coord[0] <= es[|es| - 1].coord[0];
  }

  lemma SliceOrderly(es: seq<Entry>, from: nat, to: nat, dim: nat)
    requires Orderly(es, dim) && from <= to <= |es|
    ensures Orderly(es[from..to], dim)
  {
    hide CompareCoords;
  }

  /** Where child `i` starts in the node's entries. */
  function Start(t: Tree, i: nat): nat
  {
    match t
    case Leaf(_, _, _, _) => i
    case Inner(_, _, _, _, kids) => if i <= |kids| then |FlattenAll(kids[..i])| else 0
  }

  lemma {:induction false} EndKeys(t: Tree, h: nat, dim: nat)
    requires Shaped(t, h, dim)
    ensures var es := Flatten(t);
      es != [] && FirstKey(t, h, dim) == EntryKey(es[0]) && LastKey(t, h, dim) == SentinelKey(es[|es| - 1], dim)
    decreases t
  {
    hide SentinelKey, EntryKey;
    if t.Inner? {
      EndKeys(t.kids[0], h - 1, dim);
      EndKeys(t.kids[|t.kids| - 1], h - 1, dim);
      KidSlice(t, 0);
      KidSlice(t, |t.kids| - 1);
      assert t.kids[..|t.kids|] == t.kids;
    }
  }

  /** Child `i` covers a contiguous slice of the entries. */
  lemma KidSlice(t: Tree, i: nat)
    requires t.Inner? && i < |t.kids|
    ensures Start(t, 0) == 0
    ensures Start(t, i + 1) == Start(t, i) + |Flatten(t.kids[i])| <= |Flatten(t)|
    ensures Flatten(t)[Start(t, i)..Start(t, i + 1)] == Flatten(t.kids[i])
    ensures i == |t.kids| - 1 ==> Start(t, i + 1) == |Flatten(t)|
  {
    var kids := t.kids;
    assert kids == kids[..i] + kids[i..];
    assert kids[i..][0] == kids[i] && kids[i..][1..] == kids[i + 1..];
    FlattenSplit(kids[..i], kids[i..]);
    assert kids[..i + 1] == kids[..i] + [kids[i]];
    FlattenSplit(kids[..i], [kids[i]]);
    FlattenOne(kids[i]);
    assert FlattenAll(kids[i..]) == Flatten(kids[i]) + FlattenAll(kids[i + 1..]);
  }

  /** Entry positions of the children, uniformly for leaves and internal nodes. */
  lemma ChildSlice(t: Tree, h: nat, dim: nat, i: nat)
    requires Shaped(t, h, dim) && i < |NodeOf(t, h, dim).children|
    ensures Start(t, i) < Start(t, i + 1) <= |Flatten(t)|
    ensures Below(t, i) == Flatten(t)[Start(t, i)..Start(t, i + 1)]
    ensures NodeOf(t, h, dim).keys[i] == EntryKey(Flatten(t)[Start(t, i)])
    ensures i == |NodeOf(t, h, dim).children| - 1 ==> Start(t, i + 1) == |Flatten(t)|
  {
    hide EntryKey, FirstKey, LastKey;
    if t.Inner? {
      KidSlice(t, i);
      EndKeys(t.kids[i], h - 1, dim);
    }
  }

  lemma {:induction false} StartsIncrease(t: Tree, h: nat, dim: nat, i: nat, j: nat)
    requires Shaped(t, h, dim) && i < j <= |NodeOf(t, h, dim).children|
    ensures Start(t, i) < Start(t, j) <= |Flatten(t)|
    decreases j
  {
    hide Start, Flatten, NodeOf, Shaped;
    ChildSlice(t, h, dim, j - 1);
    if i < j - 1 {
      StartsIncrease(t, h, dim, i, j - 1);
    }
  }

  lemma NodeKeysBound(t: Tree, h: nat, dim: nat)
    requires Shaped(t, h, dim) && Orderly(Flatten(t), dim)
    ensures KeysBound(t, h, dim)
  {
    hide Start, Flatten, NodeOf, Shaped, Orderly, CompareCoords, SentinelKey, Below;
    var keys, n := NodeOf(t, h, dim).keys, |NodeOf(t, h, dim).children|;
    forall i, j | 0 <= i < j < |keys| ensures CompareCoords(keys[i].coords, keys[j].coords) < 0 {
      ChildSlice(t, h, dim, i);
      KeyAbove(t, h, dim, i, j, Start(t, i));
    }
    forall i, e | 0 <= i < n && e in Below(t, i)
      ensures CompareCoords(keys[i].coords, e.coord) <= 0 && CompareCoords(e.coord, keys[i + 1].coords) < 0
    {
      ChildSlice(t, h, dim, i);
      var k :| 0 <= k < |Below(t, i)| && Below(t, i)[k] == e;
      var p := Start(t, i) + k;
      assert e == Flatten(t)[p];
      SortedStrict(Flatten(t), dim, Start(t, i), p);
      KeyAbove(t, h, dim, i, i + 1, p);
    }
  }

  /** An entry below child `i` lies strictly below every later key of the node. */
  lemma KeyAbove(t: Tree, h: nat, dim: nat, i: nat, j: nat, p: nat)
    requires Shaped(t, h, dim) && Orderly(Flatten(t), dim)
    requires i < j < |NodeOf(t, h, dim).keys| && Start(t, i) <= p < Start(t, i + 1)
    ensures p < |Flatten(t)|
    ensures CompareCoords(Flatten(t)[p].coord, NodeOf(t, h, dim).keys[j].coords) < 0
    ensures p == Start(t, i) ==> NodeOf(t, h, dim).keys[i].coords == Flatten(t)[p].coord
  {
    hide Start, Flatten, Shaped, Orderly, CompareCoords, SentinelKey, NodeOf;
    var n := |NodeOf(t, h, dim).children|;
    ChildSlice(t, h, dim, i);
    if j < n {
      ChildSlice(t, h, dim, j);
      if i + 1 < j {
        StartsIncrease(t, h, dim, i + 1, j);
      }
      SortedStrict(Flatten(t), dim, p, Start(t, j));
    } else {
      LastKeyOf(t, h, dim);
      EndKeys(t, h, dim);
      BelowSentinel(Flatten(t), dim, p);
    }
  }

  lemma LastKeyOf(t: Tree, h: nat, dim: nat)
    requires Shaped(t, h, dim)
    ensures var node := NodeOf(t, h, dim); node.keys[|node.children|] == LastKey(t, h, dim)
  {
  }

  /** In every node of a tree over orderly entries, the keys strictly increase and bound the children. */
  lemma {:induction false} TreeKeysBound(t: Tree, h: nat, dim: nat)
    requires Shaped(t, h, dim) && Orderly(Flatten(t), dim)
    ensures AllKeysBound(t, h, dim)
    decreases t
  {
    hide KeysBound, Orderly, Start;
    NodeKeysBound(t, h, dim);
    if t.Inner? {
      forall i | 0 <= i < |t.kids| ensures AllKeysBound(t.kids[i], h - 1, dim) {
        KidSlice(t, i);
        SliceOrderly(Flatten(t), Start(t, i), Start(t, i + 1), dim);
        TreeKeysBound(t.kids[i], h - 1, dim);
      }
    }
  }
}
