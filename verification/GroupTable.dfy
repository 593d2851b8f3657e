/** Linking and unlinking in one symbol-table group (group_write.go). */
module GroupTable {
  import opened Bytes
  import opened Storage
  import opened LocalHeap
  import opened GroupLinks

  /** A link as a reader of the group sees it. */
  datatype Link = Link(name: seq<byte>, target: u64)

  function LinksOf(heap: seq<byte>, es: seq<Entry>): (links: seq<Link>)
    ensures |links| == |es| && forall i | 0 <= i < |es| :: links[i] == Link(NameIn(heap, es[i]), es[i].target)
  {
    seq(|es|, i requires 0 <= i < |es| => Link(NameIn(heap, es[i]), es[i].target))
  }

  /** The heap names all entries. */
  ghost predicate GoodHeap(heap: seq<byte>, es: seq<Entry>)
  {
    WellFormed(heap) && |heap| < 0x1_0000_0000_0000_0000 && NamesIn(heap, es)
  }

  /** Names never decrease. */
  ghost predicate OrderedLinks(links: seq<Link>)
  {
    forall i, j | 0 <= i < j < |links| :: Compare(links[i].name, links[j].name) <= 0
  }

  predicate RealAddress(a: u64) { a != 0 && a != UNDEFINED }

  /** Leaf addresses: usable, distinct, each with a region of its own. */
  ghost predicate LeavesPlaced(regions: map<nat, nat>, addrs: seq<u64>)
  {
    && (forall i | 0 <= i < |addrs| :: RealAddress(addrs[i]) && addrs[i] as nat in regions && regions[addrs[i] as nat] == SNOD_SIZE)
    && (forall i, j | 0 <= i < j < |addrs| :: addrs[i] != addrs[j])
  }

  lemma PlacedMore(regions: map<nat, nat>, more: map<nat, nat>, addrs: seq<u64>, a: u64)
    requires LeavesPlaced(regions, addrs) && RealAddress(a) && a as nat !in regions
    requires more == regions[a as nat := SNOD_SIZE]
    ensures LeavesPlaced(more, addrs + [a])
  {
  }

  lemma PlacedPrefix(regions: map<nat, nat>, addrs: seq<u64>, n: nat)
    requires LeavesPlaced(regions, addrs) && n <= |addrs|
    ensures LeavesPlaced(regions, addrs[..n])
  {
  }

  /** The node's child slot `i`; slots past the node are whatever the file holds behind it, if it goes on there. */
  function ChildAt(node: StoredNode, beyond: nat -> Option<u64>, i: nat): Option<u64>
  {
    if i < |node.children| then Some(node.children[i]) else beyond(i)
  }

  /** The first `n` children, null ones skipped; nothing when the file ends before them. */
  function Children(node: StoredNode, beyond: nat -> Option<u64>, n: nat): Option<seq<u64>>
  {
    if n == 0 then Some([])
    else
      var before, child := Children(node, beyond, n - 1), ChildAt(node, beyond, n - 1);
      if before.None? || child.None? then None
      else Some(before.value + if RealAddress(child.value) then [child.value] else [])
  }

  /** Stored children and the address behind them. */
  function OneBeyond(stored: seq<u64>, next: Option<u64>): Option<seq<u64>>
  {
    match next
    case None => None
    case Some(a) => Some(if RealAddress(a) then stored + [a] else stored)
  }

  lemma OneMoreChild(node: StoredNode, beyond: nat -> Option<u64>, regions: map<nat, nat>)
    requires node.Valid() && LeavesPlaced(regions, node.children)
    ensures Children(node, beyond, MAX_CHILDREN + 1) == OneBeyond(node.children, beyond(MAX_CHILDREN))
  {
    StoredChildren(node, beyond, MAX_CHILDREN);
    assert node.children[..MAX_CHILDREN] == node.children && node.children + [] == node.children;
  }

  lemma GatheredOneMore(leaves: map<u64, seq<Entry>>, addrs: seq<u64>, a: u64)
    ensures a in leaves ==> Gathered(leaves, addrs + [a]) == Gathered(leaves, addrs) + leaves[a]
    ensures (addrs + [a])[|addrs|] == a && forall i | 0 <= i < |addrs| :: (addrs + [a])[i] == addrs[i]
  {
    assert (addrs + [a])[..|addrs|] == addrs;
  }

  /** What reading all leaves gives. */
  function AllEntries(leaves: map<u64, seq<Entry>>, children: Option<seq<u64>>): Result<seq<Entry>>
  {
    if children.Some? && forall i | 0 <= i < |children.value| :: children.value[i] in leaves
    then Ok(Gathered(leaves, children.value))
    else Err
  }

  /** What is there before a link: which state, what reads back, the links seen, the heap, and whether names differ. */
  datatype Start = Start(valid: bool, skips: bool, readBack: Result<seq<Entry>>, seen: seq<Link>, heap: seq<byte>, count: nat,
                       distinct: bool) {
    ghost predicate Fits(name: seq<byte>) { Used(heap) + |name| + 1 <= |heap| }
  }

  /** The structures of one group: heap segment, B-tree node and leaves.  `headed` says whether the group's heap address
      still names the heap; `leaves` holds every symbol table node there is, by address; `entries` lists those of this
      group; `beyond` is what the file holds behind the node's last child slot, child by child, or None when the file
      ends before that child and the key behind it (16 bytes for the first).  Whoever opens the file finds the heap
      through the group's object header: `shown` is the segment that leads to, and `tracked` says whether it is the one
      in use. */
  class Group {
    const file: FileWriter
    const root: bool
    var beyond: nat -> Option<u64>
    var heap: seq<byte>
    var headed: bool
    var shown: seq<byte>
    var tracked: bool
    var tree: StoredNode
    var leaves: map<u64, seq<Entry>>
    ghost var entries: seq<Entry>

    ghost function Links(): seq<Link>
      reads this`heap, this`entries
    {
      LinksOf(heap, entries)
    }

    ghost predicate InOrder()
      reads this`heap, this`entries
    {
      OrderedLinks(Links())
    }

    /** No two links share a name. */
    ghost predicate Distinct()
      reads this`heap, this`entries
    {
      DistinctNames(heap, entries)
    }

    ghost predicate HeapOk()
      reads this`heap, this`entries
    {
      GoodHeap(heap, entries)
    }

    /** At most 32 leaves, all but the last full, holding the entries one after another under their keys. */
    ghost predicate TreeOk(regions: map<nat, nat>)
      reads this`tree, this`leaves, this`entries
    {
      && tree.Valid() && tree.used == NumLeaves(|entries|) <= MAX_CHILDREN
      && Spread(leaves, tree.children[..tree.used], entries)
      && LeavesPlaced(regions, tree.children[..tree.used]) && KeysFor(tree, entries)
    }

    ghost predicate Valid()
      reads this`heap, this`tree, this`leaves, this`entries, this`headed, file
    {
      file.Valid() && headed && HeapOk() && TreeOk(file.regions)
    }

    /** The heap was moved, but never written at its new address. */
    ghost predicate Headless()
      reads this`headed, file
    {
      file.Valid() && !headed
    }

    /** The node counts 33 leaves but has slots for 32, which hold the first 256 entries. */
    ghost predicate Overflowed()
      reads this`heap, this`tree, this`leaves, this`entries, this`headed, file
    {
      && file.Valid() && headed && HeapOk() && tree.Valid() && tree.used == NumLeaves(|entries|) == MAX_CHILDREN + 1
      && LeavesPlaced(file.regions, tree.children)
      && forall i | 0 <= i < MAX_CHILDREN :: tree.children[i] in leaves && leaves[tree.children[i]] == Leaf(entries, i)
    }

    /** The heap in the header is the one in use, or one that holds its first strings. */
    ghost predicate ShownOk()
      reads this`heap, this`shown, this`tracked
    {
      (root ==> tracked) && (tracked ==> shown == heap) && SameStrings(shown, heap)
    }

    /** What reading the group back gives. */
    ghost function ReadBack(): Result<seq<Entry>>
      reads this`leaves, this`tree, this`beyond
    {
      AllEntries(leaves, Children(tree, beyond, tree.used))
    }

    /** The links a reader sees. */
    ghost function Seen(): seq<Link>
      reads this`heap, this`leaves, this`tree, this`beyond
    {
      if ReadBack().Ok? then LinksOf(heap, ReadBack().value) else []
    }

    /** createGroupStructures: an empty heap segment and one empty leaf under key 0. */
    constructor (file: FileWriter, root: bool, beyond: nat -> Option<u64>, leaf: u64, heapSize: nat)
      requires file.Valid() && 0 < heapSize < 0x1_0000_0000_0000_0000
      requires LeavesPlaced(file.regions, [leaf])
      ensures Valid() && Links() == [] && tree.used == 1 && this.file == file && this.beyond == beyond && heap == Zeros(heapSize)
      ensures ShownOk() && this.root == root && tracked
    {
      this.file, this.root, this.beyond, headed, tracked := file, root, beyond, true, true;
      shown := Zeros(heapSize);
      heap := Zeros(heapSize);
      tree := StoredNode(1, Zeros(MAX_KEYS), [leaf] + Zeros(MAX_CHILDREN - 1));
      leaves := map[leaf := []];
      entries := [];
      new;
      AllZero(heap);
      SameRefl(heap);
      assert tree.children[..1] == [leaf];
    }

    /** readGroupBTree: the child addresses the node counts, null ones skipped. */
    method ReadTree() returns (addrs: Option<seq<u64>>)
      ensures addrs == Children(tree, beyond, tree.used)
    {
      var found: seq<u64> := [];
      var i := 0;
      while i < tree.used
        invariant i <= tree.used && Children(tree, beyond, i) == Some(found)
      {
        var child := if i < |tree.children| then Some(tree.children[i]) else beyond(i);
        if child.None? {
          NoMoreChildren(tree, beyond, i, tree.used);
          return None;
        }
        if child.value != 0 && child.value != UNDEFINED {
          found := found + [child.value];
        } else {
          assert found + [] == found;
        }
        i := i + 1;
      }
      addrs := Some(found);
    }

    /** Collects the entries of all leaves; an unreadable leaf is an error. */
    method CollectEntries(addrs: seq<u64>) returns (r: Result<seq<Entry>>)
      ensures r == AllEntries(leaves, Some(addrs))
    {
      hide Gathered;
      var all: seq<Entry> := [];
      NoneGathered(leaves);
      assert addrs[..0] == [];
      var i := 0;
      while i < |addrs|
        invariant i <= |addrs| && all == Gathered(leaves, addrs[..i])
        invariant forall j | 0 <= j < i :: addrs[j] in leaves
      {
        if addrs[i] !in leaves {
          return Err;
        }
        GatherOne(leaves, addrs, i);
        all := all + leaves[addrs[i]];
        i := i + 1;
      }
      assert addrs[..i] == addrs;
      r := Ok(all);
    }

    /** The tree and leaf reads together. */
    method ReadEntries() returns (addrs: seq<u64>, r: Result<seq<Entry>>)
      ensures r == ReadBack() && (r.Ok? ==> Children(tree, beyond, tree.used) == Some(addrs))
    {
      hide Gathered, Children;
      var children := ReadTree();
      if children.None? {
        return [], Err;
      }
      addrs := children.value;
      r := CollectEntries(addrs);
    }

    /** A valid group reads back as its entries. */
    lemma ValidReads()
      requires Valid()
      ensures Children(tree, beyond, tree.used) == Some(tree.children[..tree.used]) && ReadBack() == Ok(entries)
    {
      hide Gathered, FileWriter.Valid, KeysFor, NumLeaves, Leaf, Children;
      StoredChildren(tree, beyond, tree.used);
      GatheredAll(leaves, tree.children[..tree.used], entries);
    }

    /** An overflowed group reads back without its last entries: an error when the file ends behind the node, the
        first 256 entries when a null address follows it, and otherwise those and whatever leaf is named there. */
    lemma OverflowReads()
      requires Overflowed()
      ensures ReadBack() ==
        match beyond(MAX_CHILDREN)
        case None => Err
        case Some(a) =>
          if !RealAddress(a) then Ok(entries[..256])
          else if a in leaves then Ok(entries[..256] + leaves[a])
          else Err
      ensures Children(tree, beyond, tree.used) == OneBeyond(tree.children, beyond(MAX_CHILDREN))
    {
      hide Gathered, FileWriter.Valid, KeysFor, Leaf, Children, HeapOk, NumLeaves, LeavesPlaced;
      assert LeavesPlaced(file.regions, tree.children);
      OneMoreChild(tree, beyond, file.regions);
      LeafSizes(|entries|, MAX_CHILDREN);
      GatheredPrefix(leaves, tree.children, entries, MAX_CHILDREN);
      assert tree.children[..MAX_CHILDREN] == tree.children && entries[..Upto(|entries|, MAX_CHILDREN)] == entries[..256];
      if beyond(MAX_CHILDREN).Some? {
        var a := beyond(MAX_CHILDREN).value;
        if RealAddress(a) {
          GatheredOneMore(leaves, tree.children, a);
        }
      }
    }

    /** The address behind the node happens to name a leaf with exactly the entries that have no slot. */
    ghost predicate LastBeyond()
      reads this`beyond, this`leaves, this`entries
    {
      && beyond(MAX_CHILDREN).Some?
      && var a := beyond(MAX_CHILDREN).value;
      RealAddress(a) && a in leaves && entries == entries[..if |entries| < 256 then |entries| else 256] + leaves[a]
    }

    /** An overflowed group loses its last links, which have the largest names if all are in order, unless the bytes
        behind the node name their leaf. */
    lemma OverflowLoses()
      requires Overflowed()
      ensures ReadBack() == Ok(entries) <==> LastBeyond()
      ensures SkipsBeyond() ==> Seen() == Links()[..256]
      ensures InOrder() ==> forall i, j | 0 <= i < 256 <= j < |Links()| :: Compare(Links()[i].name, Links()[j].name) <= 0
    {
      hide FileWriter.Valid, KeysFor, Spread, Leaf, WellFormed, NamesIn, Children, Gathered, AllEntries, LeavesPlaced, RealAddress,
           Compare, NameIn, ReadBack;
      OverflowReads();
      if SkipsBeyond() {
        SeenEntries(entries[..256]);
      }
    }

    /** Everything reads back if and only if the group is valid or the missing leaf is named by accident. */
    lemma WholeIff()
      requires Valid() || Overflowed()
      ensures ReadBack() == Ok(entries) <==> (Valid() || LastBeyond())
      ensures Overflowed() <==> !Valid()
    {
      hide FileWriter.Valid, KeysFor, Spread, Leaf, HeapOk, Children, Gathered, AllEntries, LeavesPlaced, ReadBack, LastBeyond;
      if Valid() {
        ValidReads();
      } else {
        OverflowLoses();
      }
    }

    /** resolveObjectAddress within this group: the first entry of the name; unreadable leaves are skipped. */
    method Resolve(name: seq<byte>) returns (r: Result<u64>)
      requires name != []
      ensures var c := Children(tree, beyond, tree.used);
        && (c.None? || !headed ==> r.Err?)
        && (c.Some? && r.Ok? ==> Link(name, r.value) in LinksOf(heap, Gathered(leaves, c.value)))
        && (c.Some? && headed && r.Err? ==> forall l | l in LinksOf(heap, Gathered(leaves, c.value)) :: l.name != name)
      ensures Valid() && r.Ok? ==> Link(name, r.value) in Links()
      ensures Valid() && r.Err? ==> forall l | l in Links() :: l.name != name
    {
      hide FileWriter.Valid, KeysFor, NumLeaves, Leaf, StringAt, Spread, SortedIn, Used, Children, LeavesPlaced, NamesIn, WellFormed;
      var children := ReadTree();
      if Valid() {
        ValidReads();
      }
      if children.None? || !headed {
        return Err;
      }
      var all := GatherReadable(children.value);
      var i := GetFound(all, name);
      if i == |all| {
        return Err;
      }
      assert LinksOf(heap, all)[i] == Link(name, all[i].target);
      r := Ok(all[i].target);
    }

    method GatherReadable(addrs: seq<u64>) returns (all: seq<Entry>)
      ensures all == Gathered(leaves, addrs)
    {
      all := [];
      assert addrs[..0] == [];
      var i := 0;
      while i < |addrs|
        invariant i <= |addrs| && all == Gathered(leaves, addrs[..i])
      {
        assert addrs[..i + 1][..i] == addrs[..i];
        if addrs[i] in leaves {
          all := all + leaves[addrs[i]];
        }
        i := i + 1;
      }
      assert addrs[..i] == addrs;
    }

    /** Makes sure there are `count` leaf addresses, allocating the missing ones. */
    method ExtendLeaves(addrs: seq<u64>, count: nat) returns (r: Result<seq<u64>>)
      requires file.Valid()
      modifies file
      ensures file.Valid() && Extends(old(file.regions), file.regions) && file.mem == old(file.mem)
      ensures file.refusals == old(file.refusals) + if r.Err? then 1 else 0
      ensures |addrs| >= count ==> r == Ok(addrs) && file.regions == old(file.regions)
      ensures r.Ok? ==> |r.value| == (if |addrs| < count then count else |addrs|) && addrs <= r.value
      ensures r.Ok? && old(LeavesPlaced(file.regions, addrs)) ==> LeavesPlaced(file.regions, r.value)
    {
      hide FileWriter.Valid, LeavesPlaced, AllApart;
      var result := addrs;
      while |result| < count
        invariant file.Valid() && Extends(old(file.regions), file.regions) && file.mem == old(file.mem)
        invariant file.refusals == old(file.refusals) && (|addrs| >= count ==> result == addrs && file.regions == old(file.regions))
        invariant old(LeavesPlaced(file.regions, addrs)) ==> LeavesPlaced(file.regions, result)
        invariant addrs <= result && |result| <= if |addrs| < count then count else |addrs|
        decreases count - |result|
      {
        ghost var regions := file.regions;
        var a := file.Allocate(SNOD_SIZE);
        if a.Err? {
          return Err;
        }
        NotUndefined(a.value);
        if LeavesPlaced(regions, result) {
          PlacedMore(regions, file.regions, result, a.value);
        }
        result := result + [a.value];
      }
      r := Ok(result);
    }

    /** The rebuilt B-tree node: a key to the left of each leaf, and one after the last.  More than 33 leaves are
        refused before anything is written. */
    method BuildTree(es: seq<Entry>, addrs: seq<u64>) returns (r: Result<StoredNode>)
      requires |addrs| == NumLeaves(|es|)
      ensures r.Ok? <==> NumLeaves(|es|) <= 33
      ensures r.Ok? ==> r.value.Valid() && r.value.used == |addrs| && KeysFor(r.value, es)
      ensures r.Ok? ==> forall i | 0 <= i < MAX_CHILDREN && i < |addrs| :: r.value.children[i] == addrs[i]
    {
      hide NumLeaves;
      var node := new BTreeNode();
      var i := 0;
      while i < |addrs|
        invariant i <= |addrs| && i == |node.keys| <= MAX_KEYS && node.children == addrs[..i]
        invariant forall j | 0 <= j < i :: node.keys[j] == KeyAt(es, j)
      {
        var leftKey: u64 := 0;
        if i > 0 && |es| > 0 {
          LeafSizes(|es|, i);
          var prevEnd := i * SNOD_CAPACITY;
          if prevEnd > |es| {
            prevEnd := |es|;
          }
          leftKey := es[prevEnd - 1].nameOffset;
        }
        var ok := node.AddKey(leftKey, addrs[i]);
        if !ok {
          return Err;
        }
        assert addrs[..i + 1] == addrs[..i] + [addrs[i]];
        i := i + 1;
      }
      LeafSizes(|es|, |addrs|);
      node.keys := node.keys + [if |es| > 0 then es[|es| - 1].nameOffset else 0];
      var stored := node.Write();
      r := Ok(stored);
    }

    /** Writes the entries, eight to a leaf. */
    method WriteLeaves(es: seq<Entry>, addrs: seq<u64>)
      requires |addrs| == NumLeaves(|es|)
      modifies this`leaves
      ensures (forall i, j | 0 <= i < j < |addrs| :: addrs[i] != addrs[j]) ==> Spread(leaves, addrs, es)
      ensures forall a | a !in addrs :: (a in leaves <==> a in old(leaves)) && (a in leaves ==> leaves[a] == old(leaves)[a])
    {
      hide NumLeaves;
      var i, pos := 0, 0;
      while i < |addrs|
        invariant i <= |addrs| && pos == Upto(|es|, i)
        invariant (forall k, j | 0 <= k < j < |addrs| :: addrs[k] != addrs[j]) ==>
          forall j | 0 <= j < i :: addrs[j] in leaves && leaves[addrs[j]] == Leaf(es, j)
        invariant forall a | a !in addrs :: (a in leaves <==> a in old(leaves)) && (a in leaves ==> leaves[a] == old(leaves)[a])
      {
        LeafSizes(|es|, i);
        LeafSizes(|es|, i + 1);
        var end := pos + SNOD_CAPACITY;
        if end > |es| {
          end := |es|;
        }
        assert end == Upto(|es|, i + 1);
        leaves := leaves[addrs[i] := es[pos..end]];
        pos := end;
        i := i + 1;
      }
    }

    /** What the two states of a group read back as, and from where. */
    lemma ReadsKnown()
      requires Valid() || Overflowed()
      ensures Valid() ==> ReadBack() == Ok(entries)
      ensures Overflowed() && beyond(MAX_CHILDREN).None? ==> ReadBack().Err?
      ensures SkipsBeyond() ==> Overflowed() && ReadBack() == Ok(entries[..256])
      ensures var c := Children(tree, beyond, tree.used);
        && (ReadBack().Ok? ==> c.Some? && |c.value| <= NumLeaves(|ReadBack().value| + 1))
        && (Valid() || SkipsBeyond() ==> c.Some? && LeavesPlaced(file.regions, c.value))
    {
      hide Gathered, FileWriter.Valid, KeysFor, Leaf, Children, HeapOk, LeavesPlaced, Spread, RealAddress, AllEntries;
      if Valid() {
        ValidReads();
        assert |tree.children[..tree.used]| == NumLeaves(|entries|);
      } else {
        OverflowReads();
      }
    }

    /** The group overflowed and a null address follows the node. */
    ghost predicate SkipsBeyond()
      reads this`heap, this`tree, this`leaves, this`entries, this`headed, this`beyond, file
    {
      Overflowed() && beyond(MAX_CHILDREN).Some? && !RealAddress(beyond(MAX_CHILDREN).value)
    }

    /** The entries a known group reads back, with their links. */
    lemma SeenEntries(seen: seq<Entry>)
      requires (Valid() || SkipsBeyond()) && ReadBack() == Ok(seen)
      ensures LinksOf(heap, seen) == Seen()
      ensures GoodHeap(heap, seen) && |seen| <= 256 && (InOrder() ==> OrderedLinks(Seen()))
      ensures Valid() ==> seen == entries && LinksOf(heap, seen) == Links()
      ensures Overflowed() ==> |entries| > 256 && |seen| == 256 && LinksOf(heap, seen) == Links()[..256]
      ensures var c := Children(tree, beyond, tree.used);
        c.Some? && |c.value| == NumLeaves(|seen|) <= MAX_CHILDREN && LeavesPlaced(file.regions, c.value)
    {
      hide FileWriter.Valid, KeysFor, Spread, Leaf, WellFormed, NamesIn, Compare, LinksOf, Children, Gathered, AllEntries, LeavesPlaced;
      ReadsKnown();
      NamesPrefix(heap, entries, |seen|);
      if Valid() {
        ValidReads();
        assert |tree.children[..tree.used]| == tree.used;
      } else {
        OverflowReads();
      }
    }

    lemma ValidSees()
      requires Valid()
      ensures Seen() == Links() && tree.used == NumLeaves(|entries|)
    {
      hide FileWriter.Valid, KeysFor, Spread, Leaf, HeapOk, LeavesPlaced, Children, NumLeaves;
      ValidReads();
    }

    /** A valid group has at most 256 links and 32 leaves, an overflowed one more. */
    lemma KnownSize()
      ensures Valid() ==> |entries| <= 256 && tree.used <= MAX_CHILDREN
      ensures Overflowed() ==> |entries| > 256 && tree.used > MAX_CHILDREN
    {
      hide FileWriter.Valid, KeysFor, Spread, Leaf, HeapOk, LeavesPlaced;
    }

    /** A tree just rebuilt over the entries: valid with up to 32 leaves, overflowed with 33. */
    lemma Settled()
      requires file.Valid() && headed && HeapOk() && tree.Valid() && tree.used == NumLeaves(|entries|) <= MAX_CHILDREN + 1 && KeysFor(tree, entries)
      requires tree.used <= MAX_CHILDREN ==>
        LeavesPlaced(file.regions, tree.children[..tree.used]) && Spread(leaves, tree.children[..tree.used], entries)
      requires tree.used == MAX_CHILDREN + 1 ==>
        && LeavesPlaced(file.regions, tree.children)
        && forall i | 0 <= i < MAX_CHILDREN :: tree.children[i] in leaves && leaves[tree.children[i]] == Leaf(entries, i)
      ensures tree.used <= MAX_CHILDREN ==> Valid() && ReadBack() == Ok(entries)
      ensures tree.used == MAX_CHILDREN + 1 ==> Overflowed()
    {
      hide FileWriter.Valid, KeysFor, Spread, Leaf, HeapOk, LeavesPlaced, Children, NumLeaves;
      if tree.used <= MAX_CHILDREN {
        ValidReads();
      }
    }

    /** Rebuilds the tree over enough leaves, then writes the leaves. */
    method Rebuild(es: seq<Entry>, addrs: seq<u64>) returns (ok: bool)
      requires file.Valid() && |addrs| <= NumLeaves(|es|)
      modifies this`tree, this`leaves, file
      ensures file.Valid() && Extends(old(file.regions), file.regions) && old(file.refusals) <= file.refusals
      ensures |addrs| == NumLeaves(|es|) ==> file.regions == old(file.regions) && file.refusals == old(file.refusals)
      ensures ok <==> NumLeaves(|es|) <= 33 && file.refusals == old(file.refusals)
      ensures !ok ==> tree == old(tree) && leaves == old(leaves)
      ensures ok ==> tree.Valid() && tree.used == NumLeaves(|es|) && KeysFor(tree, es)
      ensures ok && old(LeavesPlaced(file.regions, addrs)) && tree.used <= MAX_CHILDREN ==>
        LeavesPlaced(file.regions, tree.children[..tree.used]) && Spread(leaves, tree.children[..tree.used], es)
      ensures ok && old(LeavesPlaced(file.regions, addrs)) && tree.used == MAX_CHILDREN + 1 ==>
        && LeavesPlaced(file.regions, tree.children)
        && forall i | 0 <= i < MAX_CHILDREN :: tree.children[i] in leaves && leaves[tree.children[i]] == Leaf(es, i)
    {
      hide FileWriter.Valid, KeysFor, NumLeaves, Leaf, LeavesPlaced, Extends, RealAddress;
      ExtendsRefl(file.regions);
      var extended := ExtendLeaves(addrs, NumLeaves(|es|));
      if extended.Err? {
        return false;
      }
      var built := BuildTree(es, extended.value);
      if built.Err? {
        return false;
      }
      tree := built.value;
      WriteLeaves(es, extended.value);
      if LeavesPlaced(file.regions, extended.value) {
        PlacedDistinct(file.regions, extended.value);
        if tree.used <= MAX_CHILDREN {
          assert tree.children[..tree.used] == extended.value;
        } else if tree.used == MAX_CHILDREN + 1 {
          PlacedPrefix(file.regions, extended.value, MAX_CHILDREN);
          assert tree.children == extended.value[..MAX_CHILDREN];
        }
      }
      ok := true;
    }

    /** Rebuilds the tree and takes over the new heap and entries. */
    method Install(es: seq<Entry>, addrs: seq<u64>, newHeap: seq<byte>) returns (ok: bool)
      requires file.Valid() && headed && |addrs| <= NumLeaves(|es|)
      modifies this`heap, this`tree, this`leaves, this`entries, file
      ensures file.Valid() && Extends(old(file.regions), file.regions) && old(file.refusals) <= file.refusals
      ensures |addrs| == NumLeaves(|es|) ==> file.regions == old(file.regions) && file.refusals == old(file.refusals)
      ensures ok <==> NumLeaves(|es|) <= 33 && file.refusals == old(file.refusals)
      ensures !ok ==> heap == old(heap) && tree == old(tree) && leaves == old(leaves) && entries == old(entries)
      ensures !ok ==> (old(Valid()) ==> Valid()) && (old(Overflowed()) ==> Overflowed())
      ensures ok ==> heap == newHeap && entries == es && Links() == LinksOf(newHeap, es) && tree.used == NumLeaves(|es|)
      ensures ok && old(LeavesPlaced(file.regions, addrs)) && GoodHeap(newHeap, es) ==>
        && (Valid() <==> |es| <= 256) && (Overflowed() <==> |es| > 256)
        && (ReadBack() == Ok(entries) <==> |es| <= 256 || LastBeyond())
    {
      hide FileWriter.Valid, KeysFor, NumLeaves, Leaf, Spread, LeavesPlaced, Extends, Children, RealAddress, GoodHeap, AllEntries,
           Overflowed, LastBeyond;
      label before:
      ok := Rebuild(es, addrs);
      if !ok {
        Kept@before();
        return;
      }
      heap := newHeap;
      entries := es;
      if old(LeavesPlaced(file.regions, addrs)) && GoodHeap(newHeap, es) {
        Settled();
        WholeIff();
        KnownSize();
      }
    }

    /** The name fits behind the strings in use. */
    ghost predicate HasRoom(name: seq<byte>)
      reads this`heap
    {
      Used(heap) + |name| + 1 <= |heap|
    }

    /** It fits a heap of twice the size. */
    ghost predicate FitsGrown(name: seq<byte>)
      reads this`heap
    {
      Used(heap) + |name| + 1 <= RoundedSize(2 * |heap|)
    }

    /** What a link starts from. */
    ghost function View(): Start
      reads this`heap, this`tree, this`leaves, this`entries, this`headed, this`beyond, file
    {
      Start(Valid(), SkipsBeyond(), ReadBack(), Seen(), heap, |entries|, Distinct())
    }

    /** What a successful link changes.  A name that fits the heap joins the sorted leaves; one that makes the heap grow
        goes to the end, because the new heap cannot resolve the others' names while they are sorted. */
    ghost predicate Linked(was: Start, name: seq<byte>, target: u64)
      reads this`heap, this`tree, this`leaves, this`entries, this`headed, this`beyond, file
    {
      && was.readBack.Ok? && Used(was.heap) < 0x1_0000_0000_0000_0000
      && multiset(entries) == multiset(was.readBack.value) + multiset{Entry(Used(was.heap), target)}
      && tree.used == NumLeaves(|entries|) && headed && SameStrings(was.heap, heap)
      && Used(heap) == Used(was.heap) + |name| + 1 && |heap| == (if was.Fits(name) then |was.heap| else RoundedSize(2 * |was.heap|))
      && (was.valid && was.count < 256 ==> Valid() && ReadBack() == Ok(entries))
      && ((was.valid && was.count == 256) || was.skips ==> Overflowed())
      && (was.valid ==> (ReadBack() == Ok(entries) <==> was.count < 256 || LastBeyond()))
      && (was.valid || was.skips ==>
            && multiset(Links()) == multiset(was.seen) + multiset{Link(name, target)}
            && (was.Fits(name) ==> InOrder())
            && (!was.Fits(name) ==> Links() == was.seen + [Link(name, target)]))
      && (was.valid && was.distinct && (forall l | l in was.seen :: l.name != name) ==> Distinct())
    }

    /** What the file shows of a group: links whose names were added before its heap moved away from its header are shown
        as they are, all others without a name. */
    lemma HeaderShows(i: nat)
      requires (Valid() || Overflowed()) && ShownOk() && i < |entries|
      ensures NameIn(shown, entries[i]) == if tracked || entries[i].nameOffset as nat < Used(shown) then Links()[i].name else []
      ensures Links()[i].name != []
    {
      hide FileWriter.Valid, KeysFor, Spread, LeavesPlaced, NumLeaves, Used, StringAt;
      if entries[i].nameOffset as nat >= Used(shown) {
        Unnamed(shown, entries[i]);
      }
    }

    /** linkToParent.  Below 256 links the new link joins the others.  At 256 the call still succeeds, but the node then
        counts 33 leaves and stores 32; the next call starts from what can still be read.  A full heap is moved before
        anything is read, so a call that fails afterwards leaves the group without a heap. */
    method LinkToParent(name: seq<byte>, target: u64) returns (ok: bool)
      requires (Valid() || Overflowed() || Headless()) && name != [] && NulFree(name)
      modifies this`heap, this`headed, this`shown, this`tracked, this`tree, this`leaves, this`entries, file
      ensures file.Valid() && Extends(old(file.regions), file.regions) && old(file.refusals) <= file.refusals
      ensures ok <==> old(headed && (HasRoom(name) || FitsGrown(name)) && ReadBack().Ok? && NumLeaves(|ReadBack().value| + 1) <= 33) &&
                      file.refusals == old(file.refusals)
      ensures ok ==> Linked(old(View()), name, target)
      ensures !ok ==> heap == old(heap) && tree == old(tree) && leaves == old(leaves) && entries == old(entries)
      ensures !ok ==> (headed <==> old(headed) && (old(HasRoom(name)) || file.regions == old(file.regions)))
      ensures !ok && headed ==> (old(Valid()) ==> Valid()) && (old(Overflowed()) ==> Overflowed())
      ensures !ok && old(Valid()) && !headed ==> old(file.refusals) < file.refusals
      ensures ok ==> tracked == (if old(HasRoom(name)) then old(tracked) else root) && shown == if tracked then heap else old(shown)
      ensures ok && old(ShownOk()) ==> ShownOk()
      ensures !ok && headed ==> tracked == old(tracked) && shown == old(shown)
    {
      hide Gathered, FileWriter.Valid, KeysFor, NumLeaves, Leaf, StringAt, Spread, Used, LeavesPlaced, NamesIn,
           Extends, WellFormed, LinksOf, Children, RealAddress, DistinctNames, TreeOk, ReadBack, LastBeyond, HeapOk, Compare,
           Valid, Overflowed, NulFree, OrderedLinks, View, Linked, SameStrings, ShownOk;
      ExtendsRefl(file.regions);
      HeadKnown();
      if !headed {
        return false;
      }
      OverflowHeap();
      ViewHeap();
      ValidAdds();
      var used := MeasureUsed(heap);
      if used + |name| + 1 <= |heap| {
        ok := AddLink(name, target, false);
        if ok {
          KeepsStrings(old(View()), name, target);
          shown := if tracked then heap else shown;
          StillShown();
        }
      } else if used + |name| + 1 <= RoundedSize(2 * |heap|) {
        ok := MoveAndAdd(name, target);
      } else {
        ok := false;
      }
    }

    /** expandHeapAndAdd and the rest of the call: the heap address is changed before anything else can fail. */
    method MoveAndAdd(name: seq<byte>, target: u64) returns (ok: bool)
      requires (Valid() || Overflowed()) && name != [] && NulFree(name) && !HasRoom(name) && FitsGrown(name)
      modifies this`heap, this`headed, this`shown, this`tracked, this`tree, this`leaves, this`entries, file
      ensures file.Valid() && Extends(old(file.regions), file.regions) && old(file.refusals) <= file.refusals
      ensures ok <==> old(ReadBack().Ok? && NumLeaves(|ReadBack().value| + 1) <= 33) && file.refusals == old(file.refusals)
      ensures ok ==> Linked(old(View()), name, target)
      ensures !ok ==> heap == old(heap) && tree == old(tree) && leaves == old(leaves) && entries == old(entries)
      ensures !ok ==> (headed <==> file.regions == old(file.regions))
      ensures !ok && headed ==> (old(Valid()) ==> Valid()) && (old(Overflowed()) ==> Overflowed())
      ensures ok ==> tracked == root && shown == if tracked then heap else old(shown)
      ensures ok && old(ShownOk()) ==> ShownOk()
      ensures !ok && headed ==> tracked == old(tracked) && shown == old(shown)
    {
      hide Gathered, FileWriter.Valid, NumLeaves, Used, LeavesPlaced, Extends, LinksOf, Children, RealAddress, DistinctNames, ReadBack,
           LastBeyond, OrderedLinks, Valid, Overflowed, NulFree, Linked, View, SameStrings;
      OverflowHeap();
      var at := file.Allocate(32 + RoundedSize(2 * |heap|));
      if at.Err? {
        ExtendsRefl(file.regions);
        Kept();
        return false;
      }
      OneRegionMore(old(file.regions), file.regions, at.value as nat, 32 + RoundedSize(2 * |heap|));
      SameView();
      label moved:
      ok := AddLink(name, target, true);
      if ok {
        KeepsStrings(old@moved(View()), name, target);
      }
      ExtendsChain(old(file.regions), old@moved(file.regions), file.regions);
      tracked := root;
      if !ok {
        headed := false;
      } else {
        shown := if tracked then heap else shown;
        StillShown();
      }
    }

    /** A heap that keeps its strings keeps showing them. */
    twostate lemma StillShown()
      requires SameStrings(old(heap), heap) && (tracked ==> shown == heap) && (!tracked ==> shown == old(shown))
      requires tracked == old(tracked) || tracked == root
      ensures old(ShownOk()) ==> ShownOk()
    {
      hide SameStrings;
      if old(ShownOk()) {
        SameChain(old(shown), old(heap), heap);
      }
    }

    lemma KeepsStrings(was: Start, name: seq<byte>, target: u64)
      requires Linked(was, name, target)
      ensures SameStrings(was.heap, heap)
    {
      hide SameStrings, Valid, Overflowed;
    }

    /** The heap to add a name to. */
    ghost function Base(moved: bool): seq<byte>
      reads this`heap
    {
      if moved then Grown(heap) else heap
    }

    /** linkToParent once there is room for the name: in the heap, or in a new one that holds no readable names yet. */
    method AddLink(name: seq<byte>, target: u64, moved: bool) returns (ok: bool)
      requires (Valid() || Overflowed()) && name != [] && NulFree(name)
      requires Used(heap) + |name| + 1 <= |Base(moved)| < 0x1_0000_0000_0000_0000 && moved == !HasRoom(name)
      modifies this`heap, this`tree, this`leaves, this`entries, file
      ensures file.Valid() && Extends(old(file.regions), file.regions) && old(file.refusals) <= file.refusals
      ensures ok <==> old(ReadBack().Ok? && NumLeaves(|ReadBack().value| + 1) <= 33) && file.refusals == old(file.refusals)
      ensures ok ==> Linked(old(View()), name, target)
      ensures !ok ==> heap == old(heap) && tree == old(tree) && leaves == old(leaves) && entries == old(entries)
      ensures !ok ==> (old(Valid()) ==> Valid()) && (old(Overflowed()) ==> Overflowed())
    {
      hide FileWriter.Valid, NumLeaves, Used, LeavesPlaced, Extends, LinksOf, RealAddress, DistinctNames, Overflowed, ReadBack, LastBeyond,
           GoodHeap, Grown, OrderedLinks, Valid, SkipsBeyond, Seen, Links, HasRoom, Gathered, Children, Distinct,
           InOrder, NulFree, WellFormed, AllEntries, SameStrings, View, Linked;
      ExtendsRefl(file.regions);
      OverflowHeap();
      var addrs, all, sorted, newHeap := GatherWith(name, target, moved);
      if all.Err? {
        return false;
      }
      ok := FinishLink(name, target, moved, all.value, sorted, addrs, newHeap);
    }

    /** Reads all entries and adds the new one. */
    method GatherWith(name: seq<byte>, target: u64, moved: bool)
      returns (addrs: seq<u64>, all: Result<seq<Entry>>, sorted: seq<Entry>, newHeap: seq<byte>)
      requires (Valid() || Overflowed()) && name != [] && NulFree(name)
      requires Used(heap) + |name| + 1 <= |Base(moved)| < 0x1_0000_0000_0000_0000
      ensures all == ReadBack()
      ensures all.Ok? ==> |addrs| <= NumLeaves(|sorted|) && |sorted| == |all.value| + 1
      ensures all.Ok? ==> multiset(sorted) == multiset(all.value) + multiset{Entry(Used(heap), target)}
      ensures all.Ok? ==> Used(newHeap) == Used(heap) + |name| + 1 && SameStrings(heap, newHeap) && |newHeap| == |Base(moved)|
      ensures Valid() || SkipsBeyond() ==> all.Ok? && LeavesPlaced(file.regions, addrs) && GoodHeap(newHeap, sorted)
      ensures Valid() || SkipsBeyond() ==> multiset(LinksOf(newHeap, sorted)) == multiset(Seen()) + multiset{Link(name, target)}
      ensures Valid() || SkipsBeyond() ==>
        if moved then LinksOf(newHeap, sorted) == Seen() + [Link(name, target)] else OrderedLinks(LinksOf(newHeap, sorted))
      ensures Valid() && Distinct() && (forall l | l in Seen() :: l.name != name) ==> DistinctNames(newHeap, sorted)
    {
      hide FileWriter.Valid, NumLeaves, Used, LeavesPlaced, LinksOf, RealAddress, DistinctNames, Overflowed, ReadBack, LastBeyond,
           GoodHeap, Grown, OrderedLinks, Valid, SkipsBeyond, Seen, Links, Gathered, Children, NulFree, WellFormed, AllEntries;
      ReadsKnown();
      OverflowHeap();
      sorted, newHeap := [], [];
      addrs, all := ReadEntries();
      if all.Err? {
        return;
      }
      if Valid() || SkipsBeyond() {
        SeenEntries(all.value);
      }
      sorted, newHeap := AddAndSort(heap, moved, all.value, name, target);
    }

    /** Writing what AddLink has put together. */
    method FinishLink(name: seq<byte>, target: u64, moved: bool, ghost seen: seq<Entry>, sorted: seq<Entry>, addrs: seq<u64>, newHeap: seq<byte>)
      returns (ok: bool)
      requires (Valid() || Overflowed()) && ReadBack() == Ok(seen) && moved == !HasRoom(name) && Used(heap) < 0x1_0000_0000_0000_0000
      requires |addrs| <= NumLeaves(|sorted|) && |sorted| == |seen| + 1
      requires multiset(sorted) == multiset(seen) + multiset{Entry(Used(heap), target)}
      requires Used(newHeap) == Used(heap) + |name| + 1 && SameStrings(heap, newHeap) && |newHeap| == |Base(moved)|
      requires Valid() || SkipsBeyond() ==> LeavesPlaced(file.regions, addrs) && GoodHeap(newHeap, sorted)
      requires Valid() || SkipsBeyond() ==> multiset(LinksOf(newHeap, sorted)) == multiset(Seen()) + multiset{Link(name, target)}
      requires Valid() || SkipsBeyond() ==>
        if moved then LinksOf(newHeap, sorted) == Seen() + [Link(name, target)] else OrderedLinks(LinksOf(newHeap, sorted))
      requires Valid() && Distinct() && (forall l | l in Seen() :: l.name != name) ==> DistinctNames(newHeap, sorted)
      modifies this`heap, this`tree, this`leaves, this`entries, file
      ensures file.Valid() && Extends(old(file.regions), file.regions) && old(file.refusals) <= file.refusals
      ensures ok <==> NumLeaves(|sorted|) <= 33 && file.refusals == old(file.refusals)
      ensures ok ==> Linked(old(View()), name, target)
      ensures !ok ==> heap == old(heap) && tree == old(tree) && leaves == old(leaves) && entries == old(entries)
      ensures !ok ==> (old(Valid()) ==> Valid()) && (old(Overflowed()) ==> Overflowed())
    {
      hide FileWriter.Valid, NumLeaves, Used, LeavesPlaced, Extends, LinksOf, RealAddress, DistinctNames, Overflowed, ReadBack, LastBeyond,
           GoodHeap, Grown, OrderedLinks, Valid, SkipsBeyond, Seen, Links;
      OverflowHeap();
      if Valid() || SkipsBeyond() {
        SeenEntries(seen);
      }
      ReadsKnown();
      ok := Install(sorted, addrs, newHeap);
    }

    /** From a valid group a link can only fail for want of space. */
    lemma ValidAdds()
      ensures Valid() ==> ReadBack().Ok? && NumLeaves(|ReadBack().value| + 1) <= 33
    {
      hide FileWriter.Valid, KeysFor, Spread, Leaf, HeapOk, LeavesPlaced, Children, Gathered, ReadBack;
      if Valid() {
        ValidReads();
      }
    }

    lemma HeadKnown()
      ensures Valid() || Overflowed() || SkipsBeyond() ==> headed
    {
      hide FileWriter.Valid, KeysFor, Spread, Leaf, NamesIn, WellFormed, LeavesPlaced, NumLeaves;
    }

    lemma OverflowHeap()
      requires Valid() || Overflowed()
      ensures file.Valid() && headed && WellFormed(heap) && |heap| < 0x1_0000_0000_0000_0000
    {
      hide FileWriter.Valid, KeysFor, Spread, Leaf, NamesIn, SortedIn, WellFormed, LeavesPlaced, NumLeaves;
    }

    lemma ViewHeap()
      ensures View().heap == heap
    {
      hide Valid, SkipsBeyond, ReadBack, Seen, Distinct;
    }

    /** Allocations elsewhere do not change what a link starts from. */
    twostate lemma SameView()
      requires old(Valid() || Overflowed()) && file.Valid() && Extends(old(file.regions), file.regions)
      requires heap == old(heap) && tree == old(tree) && leaves == old(leaves) && entries == old(entries) && headed == old(headed)
      requires beyond == old(beyond)
      ensures View() == old(View()) && View().heap == heap && (old(Valid()) ==> Valid()) && (old(Overflowed()) ==> Overflowed())
    {
      hide FileWriter.Valid, HeapOk, KeysFor, NumLeaves, Spread, LeavesPlaced, Extends, Children, Gathered, AllEntries, LinksOf, DistinctNames,
           RealAddress;
      Kept();
    }

    /** Allocations elsewhere leave the group what it was. */
    twostate lemma Kept()
      requires file.Valid() && Extends(old(file.regions), file.regions)
      requires heap == old(heap) && tree == old(tree) && leaves == old(leaves) && entries == old(entries) && headed == old(headed)
      ensures old(Valid()) ==> Valid()
      ensures old(Overflowed()) ==> Overflowed()
    {
      hide FileWriter.Valid, KeysFor, NumLeaves, Spread, Leaf, SortedIn, WellFormed, NamesIn;
    }

    /** unlinkFromParent: the first link of the name goes, the others are redistributed over the first leaves. */
    method UnlinkFromParent(name: seq<byte>) returns (r: Result<u64>)
      requires (Valid() || Overflowed() || Headless()) && name != []
      modifies this`heap, this`tree, this`leaves, this`entries, file
      ensures file.Valid() && Extends(old(file.regions), file.regions) && old(file.refusals) <= file.refusals && heap == old(heap)
      ensures old(Valid() || SkipsBeyond()) ==> file.refusals == old(file.refusals)
      ensures r.Ok? <==> old(headed && ReadBack().Ok? && 1 <= |ReadBack().value| && NumLeaves(|ReadBack().value| - 1) <= 33 &&
                             exists l :: l in LinksOf(heap, ReadBack().value) && l.name == name) && file.refusals == old(file.refusals)
      ensures r.Err? ==> tree == old(tree) && leaves == old(leaves) && entries == old(entries)
      ensures r.Err? ==> (old(Valid()) ==> Valid()) && (old(Overflowed()) ==> Overflowed())
      ensures r.Ok? ==> old(ReadBack()).Ok? && exists k :: RemovedAt(heap, old(ReadBack()).value, entries, name, r.value, k)
      ensures old(Valid() || SkipsBeyond()) && r.Ok? ==>
        Valid() && Link(name, r.value) in old(Seen()) && multiset(Links()) == multiset(old(Seen())) - multiset{Link(name, r.value)}
      ensures old(Valid() || SkipsBeyond()) && r.Err? ==> forall l | l in old(Seen()) :: l.name != name
      ensures old(Valid() && Distinct()) ==> Distinct()
      ensures old((Valid() || SkipsBeyond()) && InOrder()) ==> InOrder()
    {
      hide Gathered, FileWriter.Valid, KeysFor, NumLeaves, Leaf, StringAt, Spread, SortedIn, Used, LeavesPlaced, NamesIn, WellFormed,
           Extends, Children, RealAddress, DistinctNames, TreeOk, Overflowed, ReadBack, LinksOf, NameIn, RemovedAt, OrderedLinks, Compare;
      ExtendsRefl(file.regions);
      HeadKnown();
      if !headed {
        return Err;
      }
      ReadsKnown();
      OverflowHeap();
      var addrs, all := ReadEntries();
      if all.Err? {
        return Err;
      }
      var es := all.value;
      ghost var known := Valid() || SkipsBeyond();
      if known {
        SeenEntries(es);
      }
      var found := GetFound(es, name);
      if found == |es| {
        NotAmong(heap, es, name);
        return Err;
      }
      var removed := es[found].target;
      var rest := es[..found] + es[found + 1..];
      var count := NumLeaves(|rest|);
      RemovedLink(heap, es, found, name);
      FewerLeaves(|es|);
      ShortenPlaced(file.regions, addrs, count);
      var ok := Install(rest, if |addrs| > count then addrs[..count] else addrs, heap);
      r := if ok then Ok(removed) else Err;
    }

    /** Index of the first entry with the name. */
    method GetFound(es: seq<Entry>, name: seq<byte>) returns (i: nat)
      requires name != []
      ensures i <= |es| && (i < |es| ==> NameIn(heap, es[i]) == name)
      ensures forall j | 0 <= j < i :: NameIn(heap, es[j]) != name
    {
      hide StringAt;
      i := 0;
      while i < |es|
        invariant i <= |es|
        invariant forall j | 0 <= j < i :: NameIn(heap, es[j]) != name
      {
        var found := GetString(heap, es[i].nameOffset);
        if found == Some(name) {
          return;
        }
        i := i + 1;
      }
    }
  }

  // ---- lemmas ----

  lemma PlacedDistinct(regions: map<nat, nat>, addrs: seq<u64>)
    requires LeavesPlaced(regions, addrs)
    ensures forall i, j | 0 <= i < j < |addrs| :: addrs[i] != addrs[j]
  {
  }

  lemma ShortenPlaced(regions: map<nat, nat>, addrs: seq<u64>, n: nat)
    ensures LeavesPlaced(regions, addrs) ==> LeavesPlaced(regions, if |addrs| > n then addrs[..n] else addrs)
  {
  }

  /** `after` is `before` without its `k`-th entry, the first of the name. */
  ghost predicate RemovedAt(heap: seq<byte>, before: seq<Entry>, after: seq<Entry>, name: seq<byte>, target: u64, k: nat)
  {
    && k < |before| && after == before[..k] + before[k + 1..] && NameIn(heap, before[k]) == name && before[k].target == target
    && forall j | 0 <= j < k :: NameIn(heap, before[j]) != name
  }

  lemma RemovedLink(heap: seq<byte>, es: seq<Entry>, k: nat, name: seq<byte>)
    requires k < |es| && NameIn(heap, es[k]) == name && forall j | 0 <= j < k :: NameIn(heap, es[j]) != name
    ensures var rest, link := es[..k] + es[k + 1..], Link(name, es[k].target);
      && RemovedAt(heap, es, rest, name, es[k].target, k) && link in LinksOf(heap, es)
      && (NamesIn(heap, es) ==>
            && NamesIn(heap, rest) && (DistinctNames(heap, es) ==> DistinctNames(heap, rest))
            && (OrderedLinks(LinksOf(heap, es)) ==> OrderedLinks(LinksOf(heap, rest)))
            && multiset(LinksOf(heap, rest)) == multiset(LinksOf(heap, es)) - multiset{link})
  {
    hide OrderedLinks, NamesIn, DistinctNames, NameIn;
    assert LinksOf(heap, es)[k] == Link(name, es[k].target);
    if NamesIn(heap, es) {
      RemovedEntry(heap, es, k);
    }
  }

  lemma NotAmong(heap: seq<byte>, es: seq<Entry>, name: seq<byte>)
    requires forall j | 0 <= j < |es| :: NameIn(heap, es[j]) != name
    ensures forall l | l in LinksOf(heap, es) :: l.name != name
  {
    hide NameIn;
  }

  lemma NoMoreChildren(node: StoredNode, beyond: nat -> Option<u64>, i: nat, n: nat)
    requires i < n && ChildAt(node, beyond, i).None?
    ensures Children(node, beyond, n).None?
  {
    if i < n - 1 {
      NoMoreChildren(node, beyond, i, n - 1);
    }
  }

  /** Children inside the node are the stored slots. */
  lemma {:induction false} StoredChildren(node: StoredNode, beyond: nat -> Option<u64>, n: nat)
    requires n <= |node.children| && forall i | 0 <= i < n :: RealAddress(node.children[i])
    ensures Children(node, beyond, n) == Some(node.children[..n])
  {
    if n > 0 {
      StoredChildren(node, beyond, n - 1);
      assert node.children[..n] == node.children[..n - 1] + [node.children[n - 1]];
    }
  }

  lemma NamesPrefix(heap: seq<byte>, es: seq<Entry>, n: nat)
    requires n <= |es| && NamesIn(heap, es)
    ensures NamesIn(heap, es[..n]) && LinksOf(heap, es[..n]) == LinksOf(heap, es)[..n]
    ensures OrderedLinks(LinksOf(heap, es)) ==> OrderedLinks(LinksOf(heap, es)[..n])
    ensures es[..|es|] == es
  {
    hide StringAt, NameIn, Used, Compare;
  }

  lemma FewerLeaves(n: nat)
    requires n > 0
    ensures NumLeaves(n - 1) <= NumLeaves(n)
  {
  }

  /** Taking one entry out keeps order, names and distinctness, and takes out exactly its link. */
  lemma RemovedEntry(heap: seq<byte>, es: seq<Entry>, k: nat)
    requires k < |es| && NamesIn(heap, es)
    ensures var rest := es[..k] + es[k + 1..];
      && NamesIn(heap, rest) && (DistinctNames(heap, es) ==> DistinctNames(heap, rest))
      && (OrderedLinks(LinksOf(heap, es)) ==> OrderedLinks(LinksOf(heap, rest)))
      && LinksOf(heap, es)[k] in LinksOf(heap, es)
      && multiset(LinksOf(heap, rest)) == multiset(LinksOf(heap, es)) - multiset{LinksOf(heap, es)[k]}
  {
    hide StringAt, NameIn, Compare, Used;
    var p, q := es[..k], es[k + 1..];
    assert es == p + [es[k]] + q;
    LinksAround(heap, p, es[k], q);
    forall i | 0 <= i < |p + q| ensures (p + q)[i] == es[if i < k then i else i + 1] {
    }
  }

  /** Distinct names survive permutation. */
  lemma DistinctPermuted(heap: seq<byte>, a: seq<Entry>, b: seq<Entry>)
    requires multiset(a) == multiset(b) && DistinctNames(heap, b)
    ensures DistinctNames(heap, a)
  {
    hide StringAt, NameIn;
    forall i, j | 0 <= i < j < |a| ensures NameIn(heap, a[i]) != NameIn(heap, a[j]) {
      if a[i] == a[j] {
        Twice(a, i, j);
        AtMostOnce(b, a[i]);
        assert false;
      }
      assert a[i] in multiset(b) && a[j] in multiset(b);
      var k :| 0 <= k < |b| && b[k] == a[i];
      var l :| 0 <= l < |b| && b[l] == a[j];
    }
  }

  /** Distinct names and sorted order together are strict order. */
  lemma StrictlySorted(heap: seq<byte>, es: seq<Entry>, i: nat, j: nat)
    requires SortedIn(heap, es) && DistinctNames(heap, es) && i < j < |es|
    ensures Compare(NameIn(heap, es[i]), NameIn(heap, es[j])) < 0
  {
    hide StringAt, NameIn, Compare;
    CompareTotal(NameIn(heap, es[i]), NameIn(heap, es[j]), []);
  }

  lemma NoneGathered(leaves: map<u64, seq<Entry>>)
    ensures Gathered(leaves, []) == []
  {
  }

  lemma GatherOne(leaves: map<u64, seq<Entry>>, addrs: seq<u64>, i: nat)
    requires i < |addrs| && addrs[i] in leaves
    ensures Gathered(leaves, addrs[..i + 1]) == Gathered(leaves, addrs[..i]) + leaves[addrs[i]]
  {
    assert addrs[..i + 1][..i] == addrs[..i];
  }

  lemma NotUndefined(a: u64)
    requires a > 0 && a <= 0x7FFF_FFFF_FFFF_FFFF
    ensures RealAddress(a)
  {
  }

  lemma OneRegionMore(before: map<nat, nat>, after: map<nat, nat>, a: nat, n: nat)
    requires a !in before && after == before[a := n]
    ensures Extends(before, after) && forall more | Extends(after, more) :: more != before
  {
    assert a in after;
  }

  lemma ExtendsRefl(regions: map<nat, nat>)
    ensures Extends(regions, regions)
  {
  }

  /** The strings of `a` are at the same offsets in `b`. */
  ghost predicate SameStrings(a: seq<byte>, b: seq<byte>)
  {
    WellFormed(a) && WellFormed(b) && Used(a) <= Used(b) && forall o | 0 <= o < Used(a) :: StringAt(a, o) == StringAt(b, o)
  }

  lemma SameRefl(a: seq<byte>)
    ensures WellFormed(a) ==> SameStrings(a, a)
  {
    hide Used, StringAt, WellFormed;
  }

  lemma SameChain(a: seq<byte>, b: seq<byte>, c: seq<byte>)
    requires SameStrings(a, b) && SameStrings(b, c)
    ensures SameStrings(a, c) && SameStrings(c, c)
  {
    hide Used, StringAt, WellFormed;
  }

  /** A name behind the used part reads as empty. */
  lemma Unnamed(heap: seq<byte>, e: Entry)
    requires WellFormed(heap) && e.nameOffset as nat >= Used(heap)
    ensures NameIn(heap, e) == []
  {
    hide Used;
    UsedFacts(heap);
  }

  /** The space a new name takes, and that the others stay. */
  lemma RoomTaken(heap: seq<byte>, moved: bool, name: seq<byte>)
    requires WellFormed(heap) && name != [] && NulFree(name)
    requires Used(heap) + |name| + 1 <= |if moved then Grown(heap) else heap|
    ensures var base := if moved then Grown(heap) else heap;
      var heap' := base[..Used(heap)] + name + [0] + Zeros(|base| - Used(heap) - |name| - 1);
      Used(heap') == Used(heap) + |name| + 1 && SameStrings(heap, heap')
  {
    hide Used, WellFormed, Grown, NulFree, StringAt;
    GrownReads(heap);
    AddedReads(if moved then Grown(heap) else heap, name);
  }

  /** Puts the name into the heap, or into a grown one, and the new entry among the others, sorted by the names that can
      be resolved: those in the heap, or none while a grown heap is not yet written. */
  method AddAndSort(heap: seq<byte>, moved: bool, before: seq<Entry>, name: seq<byte>, target: u64)
    returns (sorted: seq<Entry>, newHeap: seq<byte>)
    requires WellFormed(heap) && name != [] && NulFree(name)
    requires Used(heap) + |name| + 1 <= |if moved then Grown(heap) else heap| < 0x1_0000_0000_0000_0000
    ensures multiset(sorted) == multiset(before) + multiset{Entry(Used(heap), target)} && |sorted| == |before| + 1
    ensures Used(newHeap) == Used(heap) + |name| + 1 && SameStrings(heap, newHeap) && |newHeap| == |if moved then Grown(heap) else heap|
    ensures GoodHeap(heap, before) ==>
      && GoodHeap(newHeap, sorted)
      && multiset(LinksOf(newHeap, sorted)) == multiset(LinksOf(heap, before)) + multiset{Link(name, target)}
      && (DistinctNames(heap, before) && (forall l | l in LinksOf(heap, before) :: l.name != name) ==> DistinctNames(newHeap, sorted))
      && (moved ==> LinksOf(newHeap, sorted) == LinksOf(heap, before) + [Link(name, target)])
      && (!moved ==> OrderedLinks(LinksOf(newHeap, sorted)))
  {
    hide StringAt, Used, WellFormed, LinksOf, DistinctNames, GoodHeap, Grown, OrderedLinks, SortedBy, NulFree;
    var used := MeasureUsed(heap);
    var base := if moved then Grown(heap) else heap;
    newHeap := base[..used] + name + [0] + Zeros(|base| - used - |name| - 1);
    var es := before + [Entry(used, target)];
    sorted := SortEntriesByName(es, if moved then [] else heap, used, name);
    assert |multiset(sorted)| == |multiset(es)|;
    RoomTaken(heap, moved, name);
    if GoodHeap(heap, before) {
      OneLinkMore(heap, moved, name, target, before, sorted);
    }
  }

  /** What adding a name to the heap, or to a grown one, and sorting by the names that can be resolved gives. */
  lemma OneLinkMore(heap: seq<byte>, moved: bool, name: seq<byte>, target: u64, before: seq<Entry>, sorted: seq<Entry>)
    requires GoodHeap(heap, before) && name != [] && NulFree(name)
    requires var base := if moved then Grown(heap) else heap; Used(heap) + |name| + 1 <= |base| < 0x1_0000_0000_0000_0000
    requires multiset(sorted) == multiset(before + [Entry(Used(heap), target)])
    requires SortedBy(if moved then [] else heap, Used(heap), name, sorted)
    requires var es := before + [Entry(Used(heap), target)]; SortedBy(if moved then [] else heap, Used(heap), name, es) ==> sorted == es
    ensures var base := if moved then Grown(heap) else heap;
      var heap' := base[..Used(heap)] + name + [0] + Zeros(|base| - Used(heap) - |name| - 1);
      && GoodHeap(heap', sorted) && Used(heap') == Used(heap) + |name| + 1
      && multiset(LinksOf(heap', sorted)) == multiset(LinksOf(heap, before)) + multiset{Link(name, target)}
      && (DistinctNames(heap, before) && (forall l | l in LinksOf(heap, before) :: l.name != name) ==> DistinctNames(heap', sorted))
      && if moved then LinksOf(heap', sorted) == LinksOf(heap, before) + [Link(name, target)] else OrderedLinks(LinksOf(heap', sorted))
  {
    hide Used, Compare, LinksOf, Resolved, SortedBy, DistinctNames, OrderedLinks, StringAt, WellFormed, NamesIn, NulFree, Grown;
    GrownReads(heap);
    GrownGood(heap, before);
    var base, e := if moved then Grown(heap) else heap, Entry(Used(heap), target);
    assert multiset(sorted) == multiset(before) + multiset{e};
    AddedReads(base, name);
    SortedAgain(base, name, target, before, sorted);
    if moved {
      AtTheEnd(heap, before, name, target, sorted);
      AppendedLink(heap, base, before, name, target);
    } else {
      OrderedAgain(heap, name, e, before, sorted);
    }
  }

  /** With the new name in the heap, the entries are named and hold one link more. */
  lemma SortedAgain(heap: seq<byte>, name: seq<byte>, target: u64, before: seq<Entry>, after: seq<Entry>)
    requires GoodHeap(heap, before) && name != [] && NulFree(name) && Added(heap, name).Some?
    requires multiset(after) == multiset(before) + multiset{Entry(Used(heap), target)}
    ensures var heap' := Added(heap, name).value;
      && GoodHeap(heap', after)
      && multiset(LinksOf(heap', after)) == multiset(LinksOf(heap, before)) + multiset{Link(name, target)}
      && |after| == |before| + 1
      && (DistinctNames(heap, before) && (forall l | l in LinksOf(heap, before) :: l.name != name) ==> DistinctNames(heap', after))
  {
    hide Used, StringAt, Compare, WellFormed, NamesIn, LinksOf, NameIn, Resolved, DistinctNames, NulFree, Added;
    AddedReads(heap, name);
    var e := Entry(Used(heap), target);
    assert |multiset(after)| == |multiset(before)| + 1;
    NamesAfter(heap, name, e, before, after);
    LinksAfter(heap, name, e, before, after);
    if DistinctNames(heap, before) && forall l | l in LinksOf(heap, before) :: l.name != name {
      DistinctAfter(heap, name, e, before, after);
    }
  }

  /** Entries sorted by resolved names are in order once the new name is in the heap. */
  lemma OrderedAgain(heap: seq<byte>, name: seq<byte>, e: Entry, before: seq<Entry>, after: seq<Entry>)
    requires WellFormed(heap) && NamesIn(heap, before) && name != [] && NulFree(name)
    requires Added(heap, name).Some? && e.nameOffset == Used(heap)
    requires multiset(after) == multiset(before) + multiset{e} && SortedBy(heap, Used(heap), name, after)
    ensures OrderedLinks(LinksOf(Added(heap, name).value, after))
  {
    hide Used, StringAt, Compare, WellFormed, NamesIn;
    NamesAfter(heap, name, e, before, after);
  }

  /** Growing the heap keeps all names. */
  lemma GrownGood(heap: seq<byte>, es: seq<Entry>)
    requires WellFormed(heap) && NamesIn(heap, es)
    ensures NamesIn(Grown(heap), es) && WellFormed(Grown(heap)) && LinksOf(Grown(heap), es) == LinksOf(heap, es)
    ensures DistinctNames(Grown(heap), es) <==> DistinctNames(heap, es)
  {
    hide Used, StringAt, WellFormed, Grown;
    GrownReads(heap);
    forall i | 0 <= i < |es| ensures NameIn(Grown(heap), es[i]) == NameIn(heap, es[i]) {
    }
  }

  /** Without names to sort by, the old entries count as equal and the new one as greater. */
  lemma AtTheEnd(heap: seq<byte>, before: seq<Entry>, name: seq<byte>, target: u64, sorted: seq<Entry>)
    requires NamesIn(heap, before) && name != [] && Used(heap) < 0x1_0000_0000_0000_0000
    requires var es := before + [Entry(Used(heap), target)]; SortedBy([], Used(heap), name, es) ==> sorted == es
    ensures sorted == before + [Entry(Used(heap), target)]
  {
    hide Used;
    var es := before + [Entry(Used(heap), target)];
    forall i | 0 <= i < |before| ensures Resolved([], Used(heap), name, es[i]) == [] {
      assert es[i] == before[i];
    }
  }

  lemma AppendedLink(heap: seq<byte>, base: seq<byte>, before: seq<Entry>, name: seq<byte>, target: u64)
    requires WellFormed(base) && NamesIn(base, before) && NulFree(name) && Added(base, name).Some?
    requires Used(base) == Used(heap) < 0x1_0000_0000_0000_0000 && LinksOf(base, before) == LinksOf(heap, before)
    ensures LinksOf(Added(base, name).value, before + [Entry(Used(heap), target)]) == LinksOf(heap, before) + [Link(name, target)]
  {
    hide Used, StringAt, WellFormed, LinksOf;
    AddedReads(base, name);
    var heap', e := Added(base, name).value, Entry(Used(heap), target);
    SameLinks(base, heap', before);
    LinksSplit(heap', before, e);
  }

  lemma DistinctAfter(heap: seq<byte>, name: seq<byte>, e: Entry, before: seq<Entry>, after: seq<Entry>)
    requires WellFormed(heap) && NamesIn(heap, before) && NulFree(name)
    requires Added(heap, name).Some? && e.nameOffset == Used(heap)
    requires multiset(after) == multiset(before) + multiset{e}
    requires DistinctNames(heap, before) && forall l | l in LinksOf(heap, before) :: l.name != name
    ensures DistinctNames(Added(heap, name).value, after)
  {
    hide Used, StringAt, WellFormed;
    AddedReads(heap, name);
    var heap', all := Added(heap, name).value, before + [e];
    forall i | 0 <= i < |before| ensures NameIn(heap', before[i]) == NameIn(heap, before[i]) != name {
      assert LinksOf(heap, before)[i] in LinksOf(heap, before);
    }
    assert NameIn(heap', e) == name;
    DistinctPermuted(heap', after, all);
  }

  /** Old entries keep their names; the new one has the new name. */
  lemma NamesAfter(heap: seq<byte>, name: seq<byte>, e: Entry, before: seq<Entry>, after: seq<Entry>)
    requires WellFormed(heap) && NamesIn(heap, before) && name != [] && NulFree(name)
    requires Added(heap, name).Some? && e.nameOffset == Used(heap)
    requires multiset(after) == multiset(before) + multiset{e}
    ensures var heap' := Added(heap, name).value;
      NamesIn(heap', after) && forall i | 0 <= i < |after| :: NameIn(heap', after[i]) == Resolved(heap, Used(heap), name, after[i])
  {
    hide Used, StringAt, WellFormed;
    AddedReads(heap, name);
    var heap' := Added(heap, name).value;
    forall i | 0 <= i < |after|
      ensures NameIn(heap', after[i]) == Resolved(heap, Used(heap), name, after[i]) != [] && after[i].nameOffset < Used(heap')
    {
      if after[i] != e {
        assert after[i] in multiset(before) + multiset{e};
        var k :| 0 <= k < |before| && before[k] == after[i];
      }
    }
  }

  lemma LinksAfter(heap: seq<byte>, name: seq<byte>, e: Entry, before: seq<Entry>, after: seq<Entry>)
    requires WellFormed(heap) && NamesIn(heap, before) && NulFree(name)
    requires Added(heap, name).Some? && e.nameOffset == Used(heap)
    requires multiset(after) == multiset(before) + multiset{e}
    ensures multiset(LinksOf(Added(heap, name).value, after)) == multiset(LinksOf(heap, before)) + multiset{Link(name, e.target)}
  {
    hide Used, StringAt, WellFormed, LinksOf;
    AddedReads(heap, name);
    var heap' := Added(heap, name).value;
    assert multiset(after) == multiset(before + [e]);
    LinksPermuted(heap', after, before + [e]);
    LinksSplit(heap', before, e);
    SameLinks(heap, heap', before);
    assert NameIn(heap', e) == name;
  }

  lemma SameLinks(heap: seq<byte>, heap': seq<byte>, es: seq<Entry>)
    requires forall i | 0 <= i < |es| :: NameIn(heap', es[i]) == NameIn(heap, es[i])
    ensures LinksOf(heap', es) == LinksOf(heap, es)
  {
    hide StringAt;
  }

  lemma LinksSplit(heap: seq<byte>, es: seq<Entry>, e: Entry)
    ensures LinksOf(heap, es + [e]) == LinksOf(heap, es) + [Link(NameIn(heap, e), e.target)]
  {
    hide StringAt;
  }

  /** Permuting entries permutes links. */
  lemma {:induction false} LinksPermuted(heap: seq<byte>, a: seq<Entry>, b: seq<Entry>)
    requires multiset(a) == multiset(b)
    ensures multiset(LinksOf(heap, a)) == multiset(LinksOf(heap, b))
    decreases |a|
  {
    hide StringAt, NameIn, LinksOf, Without;
    if a == [] {
      assert |multiset(b)| == 0;
    } else {
      var e := a[0];
      assert e in multiset(b);
      var k :| 0 <= k < |b| && b[k] == e;
      WithoutOne(a, 0);
      WithoutOne(b, k);
      LinksPermuted(heap, Without(a, 0), Without(b, k));
      LinksWithout(heap, a, 0);
      LinksWithout(heap, b, k);
    }
  }

  function Without<T>(s: seq<T>, k: nat): (r: seq<T>)
    requires k < |s|
    ensures |r| == |s| - 1
  {
    s[..k] + s[k + 1..]
  }

  lemma WithoutOne<T>(s: seq<T>, k: nat)
    requires k < |s|
    ensures multiset(Without(s, k)) == multiset(s) - multiset{s[k]}
  {
    assert s == s[..k] + [s[k]] + s[k + 1..];
  }

  lemma LinksWithout(heap: seq<byte>, es: seq<Entry>, k: nat)
    requires k < |es|
    ensures multiset(LinksOf(heap, es)) == multiset(LinksOf(heap, Without(es, k))) + multiset{Link(NameIn(heap, es[k]), es[k].target)}
  {
    hide StringAt, NameIn, LinksOf;
    assert es == es[..k] + [es[k]] + es[k + 1..];
    LinksAround(heap, es[..k], es[k], es[k + 1..]);
  }

  lemma LinksAround(heap: seq<byte>, p: seq<Entry>, e: Entry, q: seq<Entry>)
    ensures multiset(LinksOf(heap, p + [e] + q)) == multiset(LinksOf(heap, p + q)) + multiset{Link(NameIn(heap, e), e.target)}
  {
    hide StringAt, NameIn;
    assert LinksOf(heap, p + [e] + q) == LinksOf(heap, p) + [Link(NameIn(heap, e), e.target)] + LinksOf(heap, q);
    assert LinksOf(heap, p + q) == LinksOf(heap, p) + LinksOf(heap, q);
  }

  // ---- whole runs ----

  datatype Op = Add(name: seq<byte>, target: u64) | Drop(name: seq<byte>)

  function Then(before: multiset<Link>, op: Op, out: Result<u64>): multiset<Link>
  {
    if out.Err? then before
    else
      match op
      case Add(name, target) => before + multiset{Link(name, target)}
      case Drop(name) => before - multiset{Link(name, out.value)}
  }

  /** The links there should be after the operations with the given outcomes. */
  function Expected(ops: seq<Op>, outs: seq<Result<u64>>): multiset<Link>
    requires |outs| <= |ops|
  {
    if outs == [] then multiset{}
    else
      var n := |outs| - 1;
      Then(Expected(ops, outs[..n]), ops[n], outs[n])
  }

  /** No link was added under a name that was there. */
  ghost predicate AllNew(ops: seq<Op>, outs: seq<Result<u64>>)
    requires |outs| <= |ops|
  {
    forall k | 0 <= k < |outs| && ops[k].Add? && outs[k].Ok? :: NotNamed(Expected(ops, outs[..k]), ops[k].name)
  }

  ghost predicate NotNamed(links: multiset<Link>, name: seq<byte>)
  {
    forall l | l in links :: l.name != name
  }

  /** A removal took a link that was there, or there was none of the name. */
  ghost predicate DropsRight(ops: seq<Op>, outs: seq<Result<u64>>)
    requires |outs| <= |ops|
  {
    forall k | 0 <= k < |outs| && ops[k].Drop? ::
      var before := Expected(ops, outs[..k]);
      if outs[k].Ok? then Link(ops[k].name, outs[k].value) in before else NotNamed(before, ops[k].name)
  }

  /** Heap space: bytes in use, and the size of the segment. */
  datatype Space = Space(used: nat, size: nat) {
    predicate Fits(name: seq<byte>) { used + |name| + 1 <= size }

    function Taken(op: Op, out: Result<u64>): Space
    {
      if op.Add? && out.Ok? then Space(used + |op.name| + 1, if Fits(op.name) then size else RoundedSize(2 * size)) else this
    }
  }

  function SpaceAfter(size: nat, ops: seq<Op>, outs: seq<Result<u64>>): Space
    requires |outs| <= |ops|
  {
    if outs == [] then Space(1, size)
    else
      var n := |outs| - 1;
      SpaceAfter(size, ops, outs[..n]).Taken(ops[n], outs[n])
  }

  ghost predicate NoneAbove(links: multiset<Link>, name: seq<byte>)
  {
    forall l | l in links :: Compare(l.name, name) <= 0
  }

  /** The last link added either fit the heap, which sorts all of them, or made it grow but belongs at the end of links
      that were in order. */
  ghost predicate Settled(size: nat, ops: seq<Op>, outs: seq<Result<u64>>)
    requires |outs| <= |ops|
  {
    if outs == [] then true
    else
      var n := |outs| - 1;
      var before := outs[..n];
      if ops[n].Add? && outs[n].Ok?
      then SpaceAfter(size, ops, before).Fits(ops[n].name) || (Settled(size, ops, before) && NoneAbove(Expected(ops, before), ops[n].name))
      else Settled(size, ops, before)
  }

  /** A new group of 4096 bytes of names: a second link that needs more than is left goes behind the first whatever
      its name. */
  lemma GrowthUnsettles(target: u64)
    ensures var first: seq<byte>, second: seq<byte> := seq(4000, _ => 98), seq(100, _ => 97);
      !Settled(4096, [Add(first, target), Add(second, target)], [Ok(target), Ok(target)])
  {
    var first: seq<byte>, second: seq<byte> := seq(4000, _ => 98), seq(100, _ => 97);
    var ops, outs := [Add(first, target), Add(second, target)], [Ok(target), Ok(target)];
    assert outs[..1] == [Ok(target)];
    assert SpaceAfter(4096, ops, outs[..1]) == Space(4002, 4096);
    assert Expected(ops, outs[..1]) == multiset{Link(first, target)};
    assert Link(first, target) in Expected(ops, outs[..1]) && Compare(first, second) > 0;
  }

  /** One link to a valid group. */
  method TakeAdd(g: Group, name: seq<byte>, target: u64) returns (out: Result<u64>)
    requires g.Valid() && name != [] && NulFree(name)
    modifies g`heap, g`headed, g`shown, g`tracked, g`tree, g`leaves, g`entries, g.file
    ensures g.file.Valid() && old(g.file.refusals) <= g.file.refusals
    ensures g.headed ==> if g.tree.used <= MAX_CHILDREN then g.Valid() && |g.entries| <= 256 else |g.entries| == 257
    ensures !g.headed ==> g.tree.used <= MAX_CHILDREN && |g.entries| <= 256 && old(g.file.refusals) < g.file.refusals
    ensures multiset(g.Links()) == Then(multiset(old(g.Links())), Add(name, target), out)
    ensures Space(Used(g.heap), |g.heap|) == old(Space(Used(g.heap), |g.heap|)).Taken(Add(name, target), out)
    ensures old(g.Distinct()) && (out.Ok? ==> forall l | l in old(g.Links()) :: l.name != name) ==> g.Distinct()
    ensures out.Ok? ==>
      (g.InOrder() <==> old(Space(Used(g.heap), |g.heap|)).Fits(name) || (old(g.InOrder()) && NoneAbove(multiset(old(g.Links())), name)))
    ensures out.Err? ==> g.Links() == old(g.Links())
    ensures old(g.ShownOk()) && g.headed ==>
      g.ShownOk() && g.tracked == (g.root || (old(g.tracked) && |g.heap| == |old(g.heap)|))
  {
    hide FileWriter.Valid, LinksOf, Group.ReadBack, DistinctNames, NulFree, Extends, NumLeaves, Used, OrderedLinks, NoneAbove,
         Group.ShownOk, Group.Valid, Group.Overflowed, Group.Linked, Group.View;
    ghost var was := g.View();
    ViewOf(g);
    RootTracked(g);
    g.KnownSize();
    var ok := g.LinkToParent(name, target);
    out := if ok then Ok(target) else Err;
    if ok {
      AddedOne(g, was, name, target);
    }
  }

  /** One call on a valid group. */
  method Take(g: Group, op: Op) returns (out: Result<u64>)
    requires g.Valid() && op.name != [] && NulFree(op.name)
    modifies g`heap, g`headed, g`shown, g`tracked, g`tree, g`leaves, g`entries, g.file
    ensures g.file.Valid() && old(g.file.refusals) <= g.file.refusals
    ensures g.headed ==> if g.tree.used <= MAX_CHILDREN then g.Valid() && |g.entries| <= 256 else |g.entries| == 257
    ensures !g.headed ==> g.tree.used <= MAX_CHILDREN && |g.entries| <= 256 && old(g.file.refusals) < g.file.refusals
    ensures multiset(g.Links()) == Then(multiset(old(g.Links())), op, out)
    ensures Space(Used(g.heap), |g.heap|) == old(Space(Used(g.heap), |g.heap|)).Taken(op, out)
    ensures op.Drop? && g.headed ==> if out.Ok? then Link(op.name, out.value) in old(g.Links()) else forall l | l in old(g.Links()) :: l.name != op.name
    ensures old(g.Distinct()) && (op.Add? && out.Ok? ==> forall l | l in old(g.Links()) :: l.name != op.name) ==> g.Distinct()
    ensures op.Add? && out.Ok? ==>
      (g.InOrder() <==> old(Space(Used(g.heap), |g.heap|)).Fits(op.name) || (old(g.InOrder()) && NoneAbove(multiset(old(g.Links())), op.name)))
    ensures op.Drop? ==> g.headed && (old(g.InOrder()) ==> g.InOrder())
    ensures out.Err? ==> g.Links() == old(g.Links())
    ensures old(g.ShownOk()) && g.headed ==>
      g.ShownOk() && g.tracked == (g.root || (old(g.tracked) && |g.heap| == |old(g.heap)|))
  {
    hide FileWriter.Valid, LinksOf, Group.ReadBack, DistinctNames, NulFree, Extends, NumLeaves, Used, OrderedLinks, NoneAbove,
         Group.ShownOk, Group.Valid, Group.Overflowed, Group.Linked, Group.View, Group.InOrder, Group.Distinct, Group.Seen;
    g.ValidSees();
    g.KnownSize();
    g.HeadKnown();
    RootTracked(g);
    ghost var links := g.Links();
    match op {
      case Add(name, target) =>
        out := TakeAdd(g, name, target);
      case Drop(name) =>
        out := g.UnlinkFromParent(name);
        OneApart(g.heap, g.entries, links, op, out);
        g.KnownSize();
    }
  }

  lemma RootTracked(g: Group)
    requires g.Valid()
    ensures |g.heap| > 0 && (g.ShownOk() && g.root ==> g.tracked)
  {
    hide FileWriter.Valid, Group.TreeOk;
  }

  lemma ViewOf(g: Group)
    requires g.Valid()
    ensures g.View() == Start(true, false, Ok(g.entries), g.Links(), g.heap, |g.entries|, g.Distinct()) && |g.entries| <= 256
  {
    hide FileWriter.Valid, Group.HeapOk, Group.TreeOk, Group.ReadBack, LinksOf, NumLeaves;
    g.ValidReads();
    g.ValidSees();
    g.KnownSize();
  }

  /** What a link changes in a valid group. */
  lemma AddedOne(g: Group, was: Start, name: seq<byte>, target: u64)
    requires g.Linked(was, name, target) && was.valid && was.count <= 256 && was.readBack.Ok? && |was.readBack.value| == was.count
    ensures |g.entries| == was.count + 1 && g.headed
    ensures if g.tree.used <= MAX_CHILDREN then g.Valid() && |g.entries| <= 256 else |g.entries| == 257
    ensures multiset(g.Links()) == multiset(was.seen) + multiset{Link(name, target)}
    ensures Space(Used(g.heap), |g.heap|) == Space(Used(was.heap), |was.heap|).Taken(Add(name, target), Ok(target))
    ensures was.distinct && (forall l | l in was.seen :: l.name != name) ==> g.Distinct()
    ensures g.InOrder() <==> Space(Used(was.heap), |was.heap|).Fits(name) || (OrderedLinks(was.seen) && NoneAbove(multiset(was.seen), name))
  {
    hide FileWriter.Valid, Group.HeapOk, Group.TreeOk, Group.ReadBack, LinksOf, DistinctNames, Used, OrderedLinks, NoneAbove, NumLeaves,
         Group.LastBeyond, SameStrings, Group.Valid, Group.Overflowed;
    InsertedLast(was.seen, Link(name, target));
    assert |multiset(g.entries)| == |g.entries|;
    LeafSizes(|g.entries|, 0);
    g.KnownSize();
  }

  /** A link appended to others is in order if and only if they are and none is above it. */
  lemma InsertedLast(links: seq<Link>, l: Link)
    ensures OrderedLinks(links + [l]) <==> OrderedLinks(links) && NoneAbove(multiset(links), l.name)
  {
    hide Compare;
    var all := links + [l];
    assert forall i | 0 <= i < |links| :: all[i] == links[i];
    if OrderedLinks(all) {
      forall x | x in multiset(links) ensures Compare(x.name, l.name) <= 0 {
        var i :| 0 <= i < |links| && links[i] == x;
        assert all[i] == x && all[|links|] == l;
      }
    }
    if OrderedLinks(links) && NoneAbove(multiset(links), l.name) {
      forall i, j | 0 <= i < j < |all| ensures Compare(all[i].name, all[j].name) <= 0 {
        assert links[i] in multiset(links);
      }
    }
  }

  lemma OneApart(heap: seq<byte>, es: seq<Entry>, links: seq<Link>, op: Op, out: Result<u64>)
    requires multiset(LinksOf(heap, es)) == Then(multiset(links), op, out)
    ensures |es| <= |links| + 1
  {
    assert |multiset(LinksOf(heap, es))| == |es|;
  }

  /** Any run of links and unlinks on a new group, up to the first link beyond 256 or to the loss of its heap, which
      takes a failed allocation: the leaves hold exactly the current links, every leaf but the last full.  They are in
      order if the run is settled, and when nothing was removed only then; in strict order and bracketed by the keys if
      every name was new when it was added. */
  method Run(file: FileWriter, root: bool, beyond: nat -> Option<u64>, leaf: u64, heapSize: nat, ops: seq<Op>)
    returns (g: Group, outs: seq<Result<u64>>)
    requires file.Valid() && 0 < heapSize < 0x1_0000_0000_0000_0000 && LeavesPlaced(file.regions, [leaf])
    requires forall i | 0 <= i < |ops| :: ops[i].name != [] && NulFree(ops[i].name)
    modifies file
    ensures |outs| <= |ops| && DropsRight(ops, outs)
    ensures |outs| == |ops| || |Expected(ops, outs)| == 257 || !g.headed
    ensures !g.headed ==> old(file.refusals) < file.refusals
    ensures multiset(g.Links()) == Expected(ops, outs)
    ensures g.headed && |Expected(ops, outs)| <= 256 ==> g.Valid() && Filled(g) && g.Seen() == g.Links()
    ensures Settled(heapSize, ops, outs) ==> g.InOrder()
    ensures (forall k | 0 <= k < |outs| :: ops[k].Add?) ==> (g.InOrder() <==> Settled(heapSize, ops, outs))
    ensures AllNew(ops, outs) && Settled(heapSize, ops, outs) && g.headed && |Expected(ops, outs)| <= 256 ==> Strict(g) && Bracketed(g)
    ensures g.headed && |Expected(ops, outs)| <= 256 ==> ShowsOlder(g)
    ensures g.headed ==> (g.tracked <==> root || SpaceAfter(heapSize, ops, outs).size == heapSize)
  {
    hide FileWriter.Valid, LeavesPlaced, LinksOf, Group.TreeOk, Group.HeapOk, Group.Seen, Group.ReadBack, DistinctNames, NulFree, Compare,
         Extends, AllNew, DropsRight, NumLeaves, NotNamed, Then, Filled, Used, Settled, SpaceAfter, NoneAbove, OrderedLinks, Strict, Bracketed, ShowsOlder,
         Group.ShownOk;
    g := new Group(file, root, beyond, leaf, heapSize);
    outs := [];
    NothingRun(ops, g.heap, g.entries, heapSize);
    while |outs| < |ops| && g.tree.used <= MAX_CHILDREN && g.headed
      invariant |outs| <= |ops| && fresh(g) && g.file == file && file.Valid() && old(file.refusals) <= file.refusals
      invariant g.headed ==> if g.tree.used <= MAX_CHILDREN then g.Valid() && |g.entries| <= 256 else |g.entries| == 257
      invariant !g.headed ==> g.tree.used <= MAX_CHILDREN && |g.entries| <= 256 && old(file.refusals) < file.refusals
      invariant multiset(g.Links()) == Expected(ops, outs) && DropsRight(ops, outs)
      invariant Space(Used(g.heap), |g.heap|) == SpaceAfter(heapSize, ops, outs)
      invariant AllNew(ops, outs) ==> g.Distinct()
      invariant heapSize <= |g.heap| && g.root == root && (g.headed ==> g.ShownOk() && (g.tracked <==> root || |g.heap| == heapSize))
      invariant Settled(heapSize, ops, outs) ==> g.InOrder()
      invariant (forall k | 0 <= k < |outs| :: ops[k].Add?) && g.InOrder() ==> Settled(heapSize, ops, outs)
      decreases |ops| - |outs|
    {
      ghost var links := g.Links();
      var out := Take(g, ops[|outs|]);
      RunStep(ops, outs, out, links);
      SettledStep(heapSize, ops, outs, out);
      outs := outs + [out];
    }
    SameSize(g.heap, g.entries, Expected(ops, outs));
    if g.tree.used <= MAX_CHILDREN && g.headed {
      ShownOlder(g);
      g.ValidSees();
      ValidFilled(g);
      if AllNew(ops, outs) && Settled(heapSize, ops, outs) {
        StrictLinks(g);
        BracketedLinks(g);
      }
    }
  }

  /** What one more outcome does to the space and to the order. */
  lemma SettledStep(size: nat, ops: seq<Op>, outs: seq<Result<u64>>, out: Result<u64>)
    requires |outs| < |ops|
    ensures var all, n := outs + [out], |outs|;
      && SpaceAfter(size, ops, all) == SpaceAfter(size, ops, outs).Taken(ops[n], out)
      && (Settled(size, ops, all) <==>
          if ops[n].Add? && out.Ok?
          then SpaceAfter(size, ops, outs).Fits(ops[n].name) || (Settled(size, ops, outs) && NoneAbove(Expected(ops, outs), ops[n].name))
          else Settled(size, ops, outs))
  {
    assert (outs + [out])[..|outs|] == outs;
  }

  /** As many leaves as the links need, at least one; every leaf but the last holds eight. */
  ghost predicate Filled(g: Group)
    reads g
  {
    && g.tree.used == NumLeaves(|g.Links()|) <= |g.tree.children|
    && forall i | 0 <= i < g.tree.used :: g.tree.children[i] in g.leaves &&
         (i + 1 < g.tree.used ==> |g.leaves[g.tree.children[i]]| == 8)
  }

  lemma ValidFilled(g: Group)
    requires g.Valid()
    ensures Filled(g)
  {
    hide FileWriter.Valid, Group.HeapOk, KeysFor, LeavesPlaced, NumLeaves;
    forall i | 0 <= i < g.tree.used
      ensures g.tree.children[i] in g.leaves && (i + 1 < g.tree.used ==> |g.leaves[g.tree.children[i]]| == 8)
    {
      assert g.tree.children[..g.tree.used][i] == g.tree.children[i];
      LeafSizes(|g.entries|, i);
    }
  }

  /** Names strictly increase. */
  ghost predicate Strict(g: Group)
    reads g
  {
    forall i, j | 0 <= i < j < |g.Links()| :: Compare(g.Links()[i].name, g.Links()[j].name) < 0
  }

  /** Every name of leaf `i` is above the name of key `i` and not above that of key `i + 1`. */
  ghost predicate Bracketed(g: Group)
    reads g
  {
    && |g.tree.keys| == MAX_KEYS
    && forall i, p | 0 <= i < NumLeaves(|g.entries|) && i < MAX_CHILDREN && Upto(|g.entries|, i) <= p < Upto(|g.entries|, i + 1) ::
         && Compare(NameIn(g.heap, Entry(g.tree.keys[i], 0)), g.Links()[p].name) < 0
         && Compare(g.Links()[p].name, NameIn(g.heap, Entry(g.tree.keys[i + 1], 0))) <= 0
  }

  /** Whoever opens the file sees the names that were added before the heap moved away from the group's header, and no
      others. */
  ghost predicate ShowsOlder(g: Group)
    reads g
  {
    forall i | 0 <= i < |g.entries| ::
      NameIn(g.shown, g.entries[i]) == if g.tracked || g.entries[i].nameOffset as nat < Used(g.shown) then g.Links()[i].name else []
  }

  lemma ShownOlder(g: Group)
    requires g.Valid() && g.ShownOk()
    ensures ShowsOlder(g)
  {
    hide FileWriter.Valid, Group.Valid, Group.ShownOk, NameIn, Used;
    forall i | 0 <= i < |g.entries|
      ensures NameIn(g.shown, g.entries[i]) == if g.tracked || g.entries[i].nameOffset as nat < Used(g.shown) then g.Links()[i].name else []
    {
      g.HeaderShows(i);
    }
  }

  lemma BracketedLinks(g: Group)
    requires g.Valid() && g.Distinct() && g.InOrder()
    ensures Bracketed(g)
  {
    hide FileWriter.Valid, Compare, NameIn, LeavesPlaced, WellFormed, NamesIn, Spread, NumLeaves, Upto;
    forall i, p | 0 <= i < NumLeaves(|g.entries|) && i < MAX_CHILDREN && Upto(|g.entries|, i) <= p < Upto(|g.entries|, i + 1)
      ensures Compare(NameIn(g.heap, Entry(g.tree.keys[i], 0)), g.Links()[p].name) < 0
      ensures Compare(g.Links()[p].name, NameIn(g.heap, Entry(g.tree.keys[i + 1], 0))) <= 0
    {
      KeysBound(g.heap, g.tree, g.entries, i, p);
    }
  }

  lemma StrictLinks(g: Group)
    requires g.Valid() && g.Distinct() && g.InOrder()
    ensures Strict(g)
  {
    hide FileWriter.Valid, Group.TreeOk, Compare, NameIn;
    forall i, j | 0 <= i < j < |g.Links()| ensures Compare(g.Links()[i].name, g.Links()[j].name) < 0 {
      StrictlySorted(g.heap, g.entries, i, j);
    }
  }

  lemma NothingRun(ops: seq<Op>, heap: seq<byte>, es: seq<Entry>, size: nat)
    ensures size > 0 ==> Used(Zeros(size)) == 1
    ensures SpaceAfter(size, ops, []) == Space(1, size) && Settled(size, ops, []) && OrderedLinks([])
    ensures DropsRight(ops, []) && AllNew(ops, []) && Expected(ops, []) == multiset{}
    ensures LinksOf(heap, es) == [] ==> es == [] && DistinctNames(heap, es)
  {
    if size > 0 {
      AllZero(Zeros(size));
    }
  }

  lemma SameSize(heap: seq<byte>, es: seq<Entry>, links: multiset<Link>)
    requires multiset(LinksOf(heap, es)) == links
    ensures |es| == |links|
  {
  }

  /** One more outcome. */
  lemma RunStep(ops: seq<Op>, outs: seq<Result<u64>>, out: Result<u64>, links: seq<Link>)
    requires |outs| < |ops| && DropsRight(ops, outs) && multiset(links) == Expected(ops, outs)
    requires ops[|outs|].Drop? ==>
      if out.Ok? then Link(ops[|outs|].name, out.value) in links else forall l | l in links :: l.name != ops[|outs|].name
    ensures var all, n := outs + [out], |outs|;
      && DropsRight(ops, all) && all[..n] == outs && all[n] == out
      && (AllNew(ops, all) ==> AllNew(ops, outs) && (ops[n].Add? && out.Ok? ==> forall l | l in links :: l.name != ops[n].name))
  {
    var all, n := outs + [out], |outs|;
    assert all[..n] == outs;
    assert forall k | 0 <= k < n :: all[..k] == outs[..k] && all[k] == outs[k];
    assert forall l :: l in links <==> l in multiset(links);
    if AllNew(ops, all) {
      forall k | 0 <= k < n && ops[k].Add? && outs[k].Ok? ensures NotNamed(Expected(ops, outs[..k]), ops[k].name) {
        assert all[..k] == outs[..k] && all[k].Ok?;
      }
      if ops[n].Add? && out.Ok? {
        assert all[n].Ok?;
      }
    }
  }
}
