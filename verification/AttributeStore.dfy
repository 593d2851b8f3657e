/** Writing attributes to an object created in the session (attribute_write.go): inline messages, continuation
    blocks, and the one-way move to dense storage. */
module AttributeStore {
  import opened Arith
  import opened Bytes
  import opened Storage
  import opened ObjectHeader
  import opened HeaderRoundTrip
  import opened AttributeCodec
  import opened AttributeMessages

  const MAX_COMPACT: nat := 8

  /** More continuation blocks than an object ever has. */
  const BUDGET: nat := 64

  const SYMBOL_TABLE: u16 := 17

  // ---- where things lie ----

  /** Header and blocks each lie inside a region of their own. */
  ghost predicate Located(regions: map<nat, nat>, address: nat, alloc: nat, v: View)
  {
    && address in regions && regions[address] == alloc && HeaderSize(v.main) <= alloc
    && (forall i | 0 <= i < |v.blocks| ::
          v.blocks[i].address != address && v.blocks[i].address as nat in regions
          && regions[v.blocks[i].address as nat] == BlockSize(v.blocks[i].ms))
    && (forall i, j | 0 <= i < j < |v.blocks| :: v.blocks[i].address != v.blocks[j].address)
  }

  lemma ShownStays(m: Mem, m': Mem, regions: map<nat, nat>, address: nat, alloc: nat, v: View, sum: Checksum)
    requires Shown(m, address, v, sum) && Located(regions, address, alloc, v) && Untouched(m, m', regions)
    ensures Shown(m', address, v, sum)
  {
    hide Untouched, Holds, HeaderBytes, BlockBytes, Proper, OneAttributeEach, RefersTo, HeaderSize, BlockSize;
    UntouchedHolds(m, m', regions, address, HeaderBytes(0, v.main, sum));
    UntouchedLess(m, m', regions, address);
    BlocksStay(m, m', regions, address, alloc, v, sum);
  }

  lemma BlocksStay(m: Mem, m': Mem, regions: map<nat, nat>, address: nat, alloc: nat, v: View, sum: Checksum)
    requires Located(regions, address, alloc, v) && Untouched(m, m', regions - {address})
    requires forall i | 0 <= i < |v.blocks| :: BlockHeld(m, v.blocks[i], sum)
    ensures forall i | 0 <= i < |v.blocks| :: BlockHeld(m', v.blocks[i], sum)
  {
    hide Untouched, Holds, BlockBytes, BlockSize, Block.Valid, HeaderSize;
    forall i | 0 <= i < |v.blocks| ensures BlockHeld(m', v.blocks[i], sum) {
      UntouchedHolds(m, m', regions - {address}, v.blocks[i].address, BlockBytes(v.blocks[i].ms, sum));
    }
  }

  lemma UntouchedLess(m: Mem, m': Mem, regions: map<nat, nat>, address: nat)
    requires Untouched(m, m', regions)
    ensures Untouched(m, m', regions - {address})
  {
  }

  lemma LocatedGrows(regions: map<nat, nat>, more: map<nat, nat>, address: nat, alloc: nat, v: View)
    requires Located(regions, address, alloc, v) && Extends(regions, more)
    ensures Located(more, address, alloc, v)
  {
    hide HeaderSize, BlockSize;
  }

  /** Rewriting the header inside its region shows the new messages over the same blocks. */
  lemma MainRewritten(m: Mem, regions: map<nat, nat>, address: nat, alloc: nat, v: View, main: seq<Message>, sum: Checksum)
    requires Shown(m, address, v, sum) && Located(regions, address, alloc, v) && AllApart(regions)
    requires Proper(main) && HeaderSize(main) <= alloc && alloc < 0x1_0000_0000_0000_0000 && RefsOf(main) == RefsOf(v.main)
    ensures Shown(Store(m, address, HeaderBytes(0, main, sum)), address, View(main, v.blocks), sum)
    ensures Located(regions, address, alloc, View(main, v.blocks))
    ensures Untouched(m, Store(m, address, HeaderBytes(0, main, sum)), regions - {address})
  {
    hide Holds, HeaderBytes, BlockHeld, Proper, OneAttributeEach, RefersTo, RefsOf, Store, AllApart, Untouched, MessagesBytes, BlockSize;
    var bs := HeaderBytes(0, main, sum);
    StoreHolds(m, address, bs);
    StoreElsewhere(m, regions, address, bs);
    BlocksStay(m, Store(m, address, bs), regions, address, alloc, v, sum);
  }

  /** None of the blocks lies in these bytes. */
  ghost predicate Clear(address: nat, size: nat, blocks: seq<Block>)
  {
    forall i | 0 <= i < |blocks| :: Disjoint(address, size, blocks[i].address as nat, BlockSize(blocks[i].ms))
  }

  lemma InsideClear(regions: map<nat, nat>, address: nat, alloc: nat, v: View, size: nat)
    requires Located(regions, address, alloc, v) && AllApart(regions) && size <= alloc
    ensures Clear(address, size, v.blocks)
  {
    hide HeaderSize, BlockSize;
    forall i | 0 <= i < |v.blocks| ensures Disjoint(address, size, v.blocks[i].address as nat, BlockSize(v.blocks[i].ms)) {
      assert Disjoint(address, regions[address], v.blocks[i].address as nat, regions[v.blocks[i].address as nat]);
    }
  }

  /** Rewriting the header without touching the blocks shows the new messages over the same blocks, wherever the header
      ends. */
  lemma ClearShown(m: Mem, address: nat, v: View, main: seq<Message>, sum: Checksum)
    requires Shown(m, address, v, sum) && Clear(address, HeaderSize(main), v.blocks)
    requires Proper(main) && |MessagesBytes(main)| < 0x1_0000_0000_0000_0000 && RefsOf(main) == RefsOf(v.main)
    ensures Shown(Store(m, address, HeaderBytes(0, main, sum)), address, View(main, v.blocks), sum)
  {
    hide Holds, HeaderBytes, BlockBytes, Proper, OneAttributeEach, RefersTo, RefsOf, Store, MessagesBytes, BlockSize, Block.Valid, HeaderSize;
    var bs := HeaderBytes(0, main, sum);
    StoreHolds(m, address, bs);
    forall i | 0 <= i < |v.blocks| ensures BlockHeld(Store(m, address, bs), v.blocks[i], sum) {
      StoreKeeps(m, address, bs, v.blocks[i].address, BlockBytes(v.blocks[i].ms, sum));
    }
  }

  /** Some block no longer starts with its signature. */
  ghost predicate Broken(m: Mem, blocks: seq<Block>)
  {
    exists i :: 0 <= i < |blocks| && Load(m, blocks[i].address, 4) != Some(BLOCK_SIGNATURE)
  }

  /** A header that refers to a broken block cannot be read. */
  lemma BrokenUnreadable(m: Mem, address: nat, main: seq<Message>, blocks: seq<Block>, sum: Checksum, budget: nat)
    requires Proper(main) && |MessagesBytes(main)| < 0x1_0000_0000_0000_0000 && Holds(m, address, HeaderBytes(0, main, sum))
    requires RefersTo(RefsOf(main), blocks) && Broken(m, blocks)
    ensures ReadHeader(m, address, budget).Err?
  {
    hide HeaderBytes, MessagesBytes, Holds, Kept, RefsOf, Payload, Proper, Load, StoredFlags, ReadMain, Follow, Bit, LE;
    var hms, f := MainMessages(address, main), StoredFlags(0, |MessagesBytes(main)|);
    KeptPayload(main, address + 6 + Width(|MessagesBytes(main)|));
    ReferencesPayload(hms);
    SmallProper(main);
    MainReadsBack(m, address, 0, main, sum);
    PrefixLoads(m, address, 0, main, sum);
    var i :| 0 <= i < |blocks| && Load(m, blocks[i].address, 4) != Some(BLOCK_SIGNATURE);
    FollowFails(m, References(hms), f, budget, i);
  }

  lemma SmallProper(main: seq<Message>)
    requires Proper(main) && |MessagesBytes(main)| < 0x1_0000_0000_0000_0000
    ensures Small(main) && Plain(0)
  {
    hide MessagesBytes;
  }

  /** One unreadable block in the queue is enough. */
  lemma {:induction false} FollowFails(m: Mem, queue: seq<BlockRef>, flags: byte, budget: nat, i: nat)
    requires i < |queue| && Load(m, queue[i].address, 4) != Some(BLOCK_SIGNATURE)
    ensures Follow(m, queue, flags, budget).Err?
    decreases budget
  {
    hide Load, ReadMessages, References;
    if budget > 0 && i > 0 {
      var first := ReadBlock(m, queue[0], flags);
      if first.Ok? {
        FollowFails(m, queue[1..] + References(first.value), flags, budget - 1, i - 1);
      }
    }
  }

  /** A write inside one region leaves the other regions alone. */
  lemma StoreElsewhere(m: Mem, regions: map<nat, nat>, address: nat, bs: seq<byte>)
    requires address in regions && |bs| <= regions[address] && AllApart(regions)
    ensures Untouched(m, Store(m, address, bs), regions - {address})
  {
    hide Store;
    UntouchedSelf(m, regions - {address});
    forall a | a in regions - {address} ensures Disjoint(address, |bs|, a, (regions - {address})[a]) {
      assert Disjoint(address, regions[address], a, regions[a]);
    }
    UntouchedStep(m, m, regions - {address}, address, bs);
  }

  // ---- dense storage, by contract ----

  /** Reserves a region and fills it, touching nothing else. */
  method PutNew(file: FileWriter, size: nat, image: seq<byte>) returns (r: Result<u64>)
    requires file.Valid() && |image| <= size
    modifies file
    ensures file.Valid() && Untouched(old(file.mem), file.mem, old(file.regions)) && Extends(old(file.regions), file.regions)
    ensures file.refusals == old(file.refusals) + if r.Err? then 1 else 0
    ensures r.Ok? ==> r.value > 0 && r.value as nat !in old(file.regions)
    ensures r.Ok? ==> r.value as nat in file.regions && file.regions[r.value as nat] == size
  {
    hide AllApart, Untouched, Store;
    UntouchedSelf(file.mem, file.regions);
    r := file.Allocate(size);
    if r.Ok? {
      UntouchedStep(file.mem, file.mem, old(file.regions), r.value, image);
      file.WriteAt(r.value, image);
    }
  }

  lemma ExtendsSelf(regions: map<nat, nat>)
    ensures Extends(regions, regions)
  {
  }

  lemma KeptRegion(r0: map<nat, nat>, r1: map<nat, nat>, r2: map<nat, nat>, heap: nat, tree: nat)
    requires Extends(r0, r1) && Extends(r1, r2) && heap in r1 && tree !in r1
    ensures heap in r2 && r2[heap] == r1[heap] && tree !in r0
  {
  }

  /** The fractal heap and B-tree that hold an object's attributes once they are dense.  Its insides are a list of
      attributes found by name hash; the bytes it writes are arbitrary but confined to its two regions, and `fits` says
      what it has room for. */
  class DenseStore {
    const hash: seq<byte> -> u32
    const heapSize: nat
    const treeSize: nat
    const heapImage: seq<Attribute> -> seq<byte>
    const treeImage: seq<Attribute> -> seq<byte>
    const fits: seq<Attribute> -> bool
    var stores: map<nat, seq<Attribute>>
    ghost var failures: nat

    constructor (hash: seq<byte> -> u32, heapSize: nat, treeSize: nat,
                 heapImage: seq<Attribute> -> seq<byte>, treeImage: seq<Attribute> -> seq<byte>, fits: seq<Attribute> -> bool)
      ensures stores == map[] && failures == 0 && this.hash == hash
    {
      this.hash, this.heapSize, this.treeSize, this.heapImage, this.treeImage, this.fits :=
        hash, heapSize, treeSize, heapImage, treeImage, fits;
      stores, failures := map[], 0;
    }

    function Clip(bs: seq<byte>, n: nat): (r: seq<byte>)
      ensures |r| <= n
    {
      if |bs| <= n then bs else bs[..n]
    }

    /** DenseAttributeWriter: a new heap and index with all the attributes; refused when they do not fit. */
    method Create(file: FileWriter, attrs: seq<Attribute>) returns (r: Result<Info>)
      requires file.Valid() && Unique(attrs)
      modifies this, file
      ensures file.Valid() && Untouched(old(file.mem), file.mem, old(file.regions)) && Extends(old(file.regions), file.regions)
      ensures old(failures) <= failures && old(file.refusals) <= file.refusals
      ensures r.Err? ==> stores == old(stores) && (failures > old(failures) || file.refusals > old(file.refusals))
      ensures r.Ok? ==> stores == old(stores)[r.value.heap as nat := attrs] && r.value.heap > 0
      ensures r.Ok? ==> Owned(file.regions, r.value) && r.value.heap as nat !in old(file.regions) && r.value.btree as nat !in old(file.regions)
    {
      hide Untouched, Unique, FileWriter.Valid, Extends;
      UntouchedSelf(file.mem, file.regions);
      ExtendsSelf(file.regions);
      if |attrs| == 0 || !fits(attrs) {
        failures := failures + 1;
        return Err;
      }
      ghost var mem0, regions0 := file.mem, file.regions;
      var heap := PutNew(file, heapSize, Clip(heapImage(attrs), heapSize));
      if heap.Err? {
        return Err;
      }
      ghost var mem1, regions1 := file.mem, file.regions;
      var tree := PutNew(file, treeSize, Clip(treeImage(attrs), treeSize));
      UntouchedChain(mem0, mem1, file.mem, regions0, regions1);
      ExtendsChain(regions0, regions1, file.regions);
      if tree.Err? {
        return Err;
      }
      KeptRegion(regions0, regions1, file.regions, heap.value, tree.value);
      stores := stores[heap.value as nat := attrs];
      r := Ok(Info(heap.value, tree.value));
    }

    ghost predicate Owned(regions: map<nat, nat>, info: Info)
      reads this
    {
      && info.heap as nat in stores && info.heap != info.btree
      && info.heap as nat in regions && regions[info.heap as nat] == heapSize
      && info.btree as nat in regions && regions[info.btree as nat] == treeSize
    }

    /** The first attribute whose name has the hash. */
    function Find(attrs: seq<Attribute>, h: u32): (i: nat)
      ensures i <= |attrs| && (i < |attrs| ==> hash(attrs[i].name) == h)
      ensures forall j | 0 <= j < i :: hash(attrs[j].name) != h
    {
      if attrs == [] || hash(attrs[0].name) == h then 0 else 1 + Find(attrs[1..], h)
    }

    /** Read-modify-write of an existing store: the record with the name's hash is replaced, otherwise one is added. */
    method Upsert(file: FileWriter, info: Info, a: Attribute) returns (ok: bool)
      requires file.Valid() && Owned(file.regions, info)
      modifies this, file`mem
      ensures file.Valid() && Untouched(old(file.mem), file.mem, file.regions - {info.heap as nat, info.btree as nat})
      ensures failures == old(failures) + (if ok then 0 else 1) && Owned(file.regions, info)
      ensures !ok ==> stores == old(stores)
      ensures ok ==> var before := old(stores)[info.heap as nat]; var i := Find(before, hash(a.name));
        stores == old(stores)[info.heap as nat := if i < |before| then before[i := a] else before + [a]]
    {
      hide AllApart, Untouched, Store;
      var attrs := stores[info.heap as nat];
      ghost var others := file.regions - {info.heap as nat, info.btree as nat};
      UntouchedSelf(file.mem, others);
      var i := Find(attrs, hash(a.name));
      attrs := if i < |attrs| then attrs[i := a] else attrs + [a];
      if !fits(attrs) {
        failures := failures + 1;
        return false;
      }
      ghost var mem0 := file.mem;
      OutsideOthers(file.regions, info, info.heap);
      OutsideOthers(file.regions, info, info.btree);
      var image := Clip(heapImage(attrs), heapSize);
      UntouchedStep(mem0, mem0, others, info.heap, image);
      file.WriteAt(info.heap, image);
      ghost var mem1 := file.mem;
      image := Clip(treeImage(attrs), treeSize);
      UntouchedStep(mem0, mem1, others, info.btree, image);
      file.WriteAt(info.btree, image);
      stores := stores[info.heap as nat := attrs];
      ok := true;
    }
  }

  lemma OutsideOthers(regions: map<nat, nat>, info: Info, at: nat)
    requires AllApart(regions) && at in regions && (at == info.heap || at == info.btree)
    ensures forall a | a in regions - {info.heap as nat, info.btree as nat} :: Disjoint(at, regions[at], a, regions[a])
  {
  }

  // ---- the state of one object ----

  /** The attribute info of the messages: the first such message, when it can be parsed. */
  function InfoOf(ms: seq<Message>): Option<Info>
  {
    if ms == [] then None
    else if ms[0].type_ == ATTRIBUTE_INFO then (if ParsedInfo(ms[0].data).Ok? then Some(ParsedInfo(ms[0].data).value) else None)
    else InfoOf(ms[1..])
  }

  lemma {:induction false} NoInfoMeansNone(ms: seq<Message>)
    requires NoInfo(ms)
    ensures InfoOf(ms) == None
  {
    hide ParsedInfo;
    if ms != [] {
      NoInfoMeansNone(ms[1..]);
    }
  }

  lemma {:induction false} InfoAtEnd(ms: seq<Message>, info: Info)
    requires NoInfo(ms)
    ensures InfoOf(ms + [InfoMessage(info)]) == Some(info) && !NoInfo(ms + [InfoMessage(info)])
  {
    hide ParsedInfo, InfoBytes;
    if ms == [] {
      InfoParsesBack(info);
      assert ms + [InfoMessage(info)] == [InfoMessage(info)];
    } else {
      InfoAtEnd(ms[1..], info);
      var all := ms + [InfoMessage(info)];
      assert all[0] == ms[0] && all[1..] == ms[1..] + [InfoMessage(info)];
    }
    assert (ms + [InfoMessage(info)])[|ms|].type_ == ATTRIBUTE_INFO;
  }

  function InfoMessage(info: Info): Message { Message(ATTRIBUTE_INFO, InfoBytes(info)) }

  /** The header keeps room for the structural messages and an attribute info message. */
  ghost predicate Room(main: seq<Message>, alloc: nat)
  {
    HeaderSize(Structural(main) + [InfoMessage(Info(0, 0))]) <= alloc < 0x1_0000_0000_0000_0000
  }

  /** Message-level invariant while attributes are compact. */
  ghost predicate Compact(v: View, alloc: nat)
  {
    && NoInfo(v.main) && Readable(v.All()) && Counted(v.All()) <= MAX_COMPACT
    && |v.blocks| <= Counted(v.All()) && Room(v.main, alloc)
  }

  /** Message-level invariant once attributes are dense. */
  ghost predicate Dense(v: View, info: Info)
  {
    v.blocks == [] && AttrsOf(v.main) == [] && InfoOf(v.main) == Some(info) && !NoInfo(v.main)
  }

  // ---- the loops over parsed messages ----

  method CountMessages(hms: seq<HeaderMessage>) returns (compactCount: nat, continuationCount: nat, hasDense: bool)
    ensures compactCount + continuationCount == Counted(Payload(hms))
    ensures hasDense <==> !NoInfo(Payload(hms))
  {
    compactCount, continuationCount, hasDense := 0, 0, false;
    ghost var ms := Payload(hms);
    var i := 0;
    while i < |hms|
      invariant i <= |hms| && compactCount + continuationCount == Counted(ms[..i])
      invariant hasDense <==> exists j :: 0 <= j < i && ms[j].type_ == ATTRIBUTE_INFO
    {
      assert ms[..i + 1] == ms[..i] + [ms[i]];
      CountedAppend(ms[..i], [ms[i]]);
      CountedOne(ms[i]);
      if hms[i].type_ == ATTRIBUTE {
        if hms[i].fromContinuation {
          continuationCount := continuationCount + 1;
        } else {
          compactCount := compactCount + 1;
        }
      }
      if hms[i].type_ == ATTRIBUTE_INFO {
        hasDense := true;
      }
      i := i + 1;
    }
    assert ms[..i] == ms;
  }

  /** Messages of the main chunk come first. */
  ghost predicate MainFirst(hms: seq<HeaderMessage>, n: nat)
  {
    n <= |hms| && forall i | 0 <= i < |hms| :: hms[i].fromContinuation <==> i >= n
  }

  /** filterMainChunkMessages. */
  method FilterMainChunk(hms: seq<HeaderMessage>, ghost n: nat) returns (kept: seq<Message>)
    requires MainFirst(hms, n)
    ensures kept == NonNil(Payload(hms)[..n])
  {
    hide NonNil;
    kept := [];
    ghost var ms := Payload(hms);
    FiltersOne(Message(NIL, []));
    assert ms[..0] == [];
    var i := 0;
    while i < |hms|
      invariant i <= |hms| && kept == NonNil(ms[..if i < n then i else n])
    {
      if i < n {
        assert ms[..i + 1] == ms[..i] + [ms[i]];
        FiltersAppend(ms[..i], [ms[i]]);
        FiltersOne(ms[i]);
      }
      if hms[i].type_ != NIL {
        if !hms[i].fromContinuation {
          kept := kept + [Message(hms[i].type_, hms[i].data)];
        }
      }
      i := i + 1;
    }
  }

  /** The structural messages kept by the move to dense storage. */
  method FilterStructural(hms: seq<HeaderMessage>, ghost n: nat) returns (kept: seq<Message>)
    requires MainFirst(hms, n)
    ensures kept == Structural(Payload(hms)[..n])
  {
    hide Structural;
    kept := [];
    ghost var ms := Payload(hms);
    FiltersOne(Message(NIL, []));
    assert ms[..0] == [];
    var i := 0;
    while i < |hms|
      invariant i <= |hms| && kept == Structural(ms[..if i < n then i else n])
    {
      if i < n {
        assert ms[..i + 1] == ms[..i] + [ms[i]];
        FiltersAppend(ms[..i], [ms[i]]);
        FiltersOne(ms[i]);
      }
      if hms[i].type_ != ATTRIBUTE && hms[i].type_ != CONTINUATION && hms[i].type_ != NIL && !hms[i].fromContinuation {
        kept := kept + [Message(hms[i].type_, hms[i].data)];
      }
      i := i + 1;
    }
  }

  /** Every attribute message, parsed; one that cannot be parsed is an error here. */
  method ParseAttributes(hms: seq<HeaderMessage>) returns (r: Result<seq<Attribute>>)
    ensures r == if Readable(Payload(hms)) then Ok(AttrsOf(Payload(hms))) else Err
  {
    hide AttrsOf, ParsedAttribute;
    ghost var ms := Payload(hms);
    var attrs: seq<Attribute> := [];
    AttrsOne(Message(NIL, []));
    assert ms[..0] == [];
    var i := 0;
    while i < |hms|
      invariant i <= |hms| && attrs == AttrsOf(ms[..i]) && Readable(ms[..i])
    {
      assert ms[..i + 1] == ms[..i] + [ms[i]];
      AttrsAppend(ms[..i], [ms[i]]);
      AttrsOne(ms[i]);
      if hms[i].type_ == ATTRIBUTE {
        var attr := ParseAttributeMessage(hms[i].data);
        if attr.Err? {
          assert ms[i].type_ == ATTRIBUTE;
          return Err;
        }
        attrs := attrs + [attr.value];
      }
      i := i + 1;
    }
    assert ms[..i] == ms;
    r := Ok(attrs);
  }

  /** The reader's pass: attributes that cannot be parsed are skipped. */
  method CollectAttributes(hms: seq<HeaderMessage>) returns (attrs: seq<Attribute>)
    ensures attrs == AttrsOf(Payload(hms))
  {
    hide AttrsOf, ParsedAttribute;
    ghost var ms := Payload(hms);
    attrs := [];
    AttrsOne(Message(NIL, []));
    assert ms[..0] == [];
    var i := 0;
    while i < |hms|
      invariant i <= |hms| && attrs == AttrsOf(ms[..i])
    {
      assert ms[..i + 1] == ms[..i] + [ms[i]];
      AttrsAppend(ms[..i], [ms[i]]);
      AttrsOne(ms[i]);
      if hms[i].type_ == ATTRIBUTE {
        var attr := ParseAttributeMessage(hms[i].data);
        if attr.Ok? {
          attrs := attrs + [attr.value];
        }
      }
      i := i + 1;
    }
    assert ms[..i] == ms;
  }

  method FindInfo(hms: seq<HeaderMessage>) returns (info: Option<Info>)
    ensures info == InfoOf(Payload(hms))
  {
    hide ParsedInfo;
    ghost var ms := Payload(hms);
    var i := 0;
    while i < |hms|
      invariant i <= |hms| && InfoOf(ms) == InfoOf(ms[i..])
    {
      assert ms[i..][1..] == ms[i + 1..];
      if hms[i].type_ == ATTRIBUTE_INFO {
        var parsed := ParsedInfo(hms[i].data);
        return if parsed.Ok? then Some(parsed.value) else None;
      }
      i := i + 1;
    }
    info := None;
  }

  /** Whether the message is a readable attribute of the name. */
  predicate IsNamed(m: Message, name: seq<byte>)
  {
    m.type_ == ATTRIBUTE && ParsedAttribute(m.data).Ok? && ParsedAttribute(m.data).value.name == name
  }

  /** Index of the first message that carries the name, or the number of messages. */
  ghost function FirstNamed(ms: seq<Message>, name: seq<byte>): (k: nat)
    ensures k <= |ms| && (k < |ms| ==> IsNamed(ms[k], name))
    ensures forall j | 0 <= j < k :: !IsNamed(ms[j], name)
  {
    if ms == [] || IsNamed(ms[0], name) then 0 else 1 + FirstNamed(ms[1..], name)
  }

  method FindNamed(hms: seq<HeaderMessage>, name: seq<byte>) returns (k: nat)
    ensures k == FirstNamed(Payload(hms), name)
  {
    hide ParsedAttribute;
    k := 0;
    while k < |hms|
      invariant k <= |hms|
      invariant forall j | 0 <= j < k :: !IsNamed(Payload(hms)[j], name)
    {
      if hms[k].type_ == ATTRIBUTE {
        var attr := ParseAttributeMessage(hms[k].data);
        if attr.Ok? && attr.value.name == name {
          return;
        }
      }
      k := k + 1;
    }
  }

  /** A name occurs among the attributes exactly when some message carries it. */
  lemma {:induction false} NamedMeansPresent(ms: seq<Message>, name: seq<byte>)
    ensures (exists k :: 0 <= k < |ms| && IsNamed(ms[k], name)) <==> HasName(AttrsOf(ms), name)
  {
    hide ParsedAttribute;
    if ms != [] {
      NamedMeansPresent(ms[1..], name);
      var one, rest := AttrOf(ms[0]), AttrsOf(ms[1..]);
      if HasName(AttrsOf(ms), name) {
        var i :| 0 <= i < |AttrsOf(ms)| && AttrsOf(ms)[i].name == name;
        if i >= |one| {
          assert rest[i - |one|].name == name;
          var k :| 0 <= k < |ms[1..]| && IsNamed(ms[1..][k], name);
          assert IsNamed(ms[k + 1], name);
        } else {
          assert IsNamed(ms[0], name);
        }
      }
      if k :| 0 <= k < |ms| && IsNamed(ms[k], name) {
        if k > 0 {
          assert IsNamed(ms[1..][k - 1], name);
          var i :| 0 <= i < |rest| && rest[i].name == name;
          assert AttrsOf(ms)[|one| + i].name == name;
        } else {
          assert AttrsOf(ms)[0].name == name;
        }
      }
    }
  }

  /** The migrated list: the new attribute replaces its namesake or is added at the end. */
  method MergeAttributes(attrs: seq<Attribute>, a: Attribute) returns (merged: seq<Attribute>)
    requires Unique(attrs) && a.name != []
    ensures Updated(attrs, merged, a)
  {
    hide Updated;
    merged := [];
    var replaced := false;
    ghost var at := 0;
    var i := 0;
    while i < |attrs|
      invariant i == |merged| <= |attrs|
      invariant replaced ==> 0 <= at < i && attrs[at].name == a.name && merged == attrs[..i][at := a]
      invariant !replaced ==> merged == attrs[..i] && forall j | 0 <= j < i :: attrs[j].name != a.name
    {
      assert attrs[..i + 1] == attrs[..i] + [attrs[i]];
      if attrs[i].name == a.name {
        merged := merged + [a];
        replaced := true;
        at := i;
      } else {
        merged := merged + [attrs[i]];
      }
      i := i + 1;
    }
    assert attrs[..i] == attrs;
    if replaced {
      ReplaceUpdates(attrs, at, a);
    } else {
      InsertUpdates(attrs, [], a);
      assert attrs + [] == attrs && attrs + [a] + [] == attrs + [a];
      merged := merged + [a];
    }
  }

  // ---- the effect of each rewrite ----

  /** What every rewrite needs of the messages it starts from. */
  ghost predicate Ready(v: View, alloc: nat, a: Attribute)
  {
    && Compact(v, alloc) && Proper(v.main) && OneAttributeEach(v.blocks)
    && a.name != [] && AttributeCodec.Fits(a) && Unique(AttrsOf(v.All()))
  }

  /** Plain add: the attribute message goes last in the main chunk, padding goes away. */
  lemma AddInline(v: View, alloc: nat, a: Attribute)
    requires Ready(v, alloc, a) && !HasName(AttrsOf(v.All()), a.name) && Counted(v.All()) < MAX_COMPACT
    ensures var main := NonNil(v.main) + [AttrMessage(a)];
      && Proper(main) && RefsOf(main) == RefsOf(v.main) && Compact(View(main, v.blocks), alloc)
      && Updated(AttrsOf(v.All()), AttrsOf(View(main, v.blocks).All()), a)
  {
    hide Unique, Updated, AttributeBytes, Readable, RefsOf, AttrsOf, HasName, NonNil, BlockPayload, OneAttributeEach, Room, Counted;
    var kept, one, rest := NonNil(v.main), [AttrMessage(a)], BlockPayload(v.blocks);
    AddInlineAttrs(v.main, one, rest, a);
    NonNilKeeps(v.main);
    RefsAppend(kept, one);
    NoReference(one[0]);
    AttrReadable(a);
    ReadableParts(v.main, rest);
    BlocksCounted(v.blocks);
    CountedAppend(v.main, rest);
    CountedOne(one[0]);
    AppendedCompact(v, alloc, AttrMessage(a), v.blocks, rest);
    AttrMessageReads(a);
    FiltersKeep(v.main);
  }

  lemma AttrReadable(a: Attribute)
    requires AttributeCodec.Fits(a)
    ensures Readable([AttrMessage(a)])
  {
    hide AttributeBytes, ParsedAttribute;
    AttributeParsesBack(a);
  }

  lemma ReadableParts(p: seq<Message>, q: seq<Message>)
    ensures Readable(p + q) <==> Readable(p) && Readable(q)
  {
    hide ParsedAttribute;
    if Readable(p + q) {
      forall i | 0 <= i < |p| && p[i].type_ == ATTRIBUTE ensures ParsedAttribute(p[i].data).Ok? {
        assert (p + q)[i] == p[i];
      }
      forall i | 0 <= i < |q| && q[i].type_ == ATTRIBUTE ensures ParsedAttribute(q[i].data).Ok? {
        assert (p + q)[|p| + i] == q[i];
      }
    }
  }

  lemma {:induction false} BlocksCounted(blocks: seq<Block>)
    requires OneAttributeEach(blocks)
    ensures Counted(BlockPayload(blocks)) == |blocks|
  {
    hide Counted;
    if blocks == [] {
      CountedOne(Message(NIL, []));
    } else {
      BlocksCounted(blocks[1..]);
      CountedAppend(blocks[0].ms, BlockPayload(blocks[1..]));
      assert blocks[0].ms == [blocks[0].ms[0]];
      CountedOne(blocks[0].ms[0]);
    }
  }

  lemma AddInlineAttrs(main: seq<Message>, one: seq<Message>, rest: seq<Message>, a: Attribute)
    requires one == [AttrMessage(a)] && AttributeCodec.Fits(a) && a.name != []
    requires Unique(AttrsOf(main + rest)) && !HasName(AttrsOf(main + rest), a.name)
    ensures Updated(AttrsOf(main + rest), AttrsOf(NonNil(main) + one + rest), a)
  {
    hide Unique, Updated, AttributeBytes, ParsedAttribute, AttrsOf, HasName, NonNil, RefsOf, Structural;
    NonNilKeeps(main);
    AttrsAppend(main, rest);
    AttrsAppend(NonNil(main), one);
    AttrsAppend(NonNil(main) + one, rest);
    AttrMessageReads(a);
    InsertUpdates(AttrsOf(main), AttrsOf(rest), a);
  }

  /** Appending one attribute or continuation message, over blocks with the given payload, keeps the invariant. */
  lemma AppendedCompact(v: View, alloc: nat, m: Message, blocks: seq<Block>, payload: seq<Message>)
    requires Compact(v, alloc) && m.type_ in {ATTRIBUTE, CONTINUATION} && Readable([m])
    requires payload == BlockPayload(blocks) && Readable(payload)
    requires |blocks| <= Counted(payload) && Counted(v.main) + Counted([m]) + Counted(payload) <= MAX_COMPACT
    ensures Compact(View(NonNil(v.main) + [m], blocks), alloc)
  {
    hide AttributeBytes, Readable, RefsOf, AttrsOf, NonNil, BlockPayload, Structural, MessagesBytes, Counted;
    var kept := NonNil(v.main);
    FiltersKeep(v.main);
    NonNilKeeps(v.main);
    FilteredWithin(v.main);
    FiltersAppend(kept, [m]);
    FiltersOne(m);
    assert Structural(kept) + [] == Structural(kept);
    CountedAppend(kept, [m]);
    CountedAppend(kept + [m], payload);
    ReadableParts(v.main, BlockPayload(v.blocks));
    ReadableParts(kept, [m]);
    ReadableParts(kept + [m], payload);
  }

  /** Add through a continuation: the attribute message goes to a block of its own. */
  lemma AddBlock(v: View, alloc: nat, a: Attribute, address: u64)
    requires Ready(v, alloc, a) && !HasName(AttrsOf(v.All()), a.name) && Counted(v.All()) < MAX_COMPACT
    ensures var b := Block(address, [AttrMessage(a)]);
      && b.Valid() && OneAttributeEach([b])
      && var main := NonNil(v.main) + [ContinuationMessage(b)];
      && Proper(main) && RefsOf(main) == RefsOf(v.main) + [RefTo(b)] && Compact(View(main, v.blocks + [b]), alloc)
      && Updated(AttrsOf(v.All()), AttrsOf(View(main, v.blocks + [b]).All()), a)
  {
    hide Unique, Updated, AttributeBytes, Readable, RefsOf, AttrsOf, HasName, NonNil, BlockPayload, Room, Counted, MessageBytes,
         ContinuationData;
    var b := Block(address, [AttrMessage(a)]);
    NewBlock(b, a);
    var m, blocks := ContinuationMessage(b), v.blocks + [b];
    BlockPayloadAppend(v.blocks, [b]);
    BlockPayloadOne(b);
    var rest := BlockPayload(v.blocks) + [AttrMessage(a)];
    AddBlockAttrs(v.main, m, BlockPayload(v.blocks), a);
    NonNilKeeps(v.main);
    RefsAppend(NonNil(v.main), [m]);
    ReferenceTo(b);
    AttrReadable(a);
    ReadableParts(v.main, BlockPayload(v.blocks));
    ReadableParts(BlockPayload(v.blocks), [AttrMessage(a)]);
    BlocksCounted(v.blocks);
    BlocksCounted(blocks);
    CountedAppend(v.main, BlockPayload(v.blocks));
    CountedOne(m);
    NotAnAttribute(m);
    AppendedCompact(v, alloc, m, blocks, rest);
    FiltersKeep(v.main);
  }

  function ContinuationMessage(b: Block): Message
    requires b.Valid()
  {
    Message(CONTINUATION, ContinuationData(b.address, BlockSize(b.ms)))
  }

  lemma NotAnAttribute(m: Message)
    requires m.type_ == CONTINUATION
    ensures Readable([m])
  {
  }

  lemma NewBlock(b: Block, a: Attribute)
    requires b.ms == [AttrMessage(a)] && AttributeCodec.Fits(a)
    ensures b.Valid() && OneAttributeEach([b])
  {
    hide AttributeBytes;
    MessagesOne(b.ms[0]);
    AttrMessageReads(a);
  }

  lemma ReferenceTo(b: Block)
    requires b.Valid()
    ensures RefsOf([ContinuationMessage(b)]) == [RefTo(b)]
  {
    hide ContinuationData, ReferencesOf;
    ReferenceReadsBack(b.address, BlockSize(b.ms), 0, false);
    RefsOne(ContinuationMessage(b));
  }

  lemma AddBlockAttrs(main: seq<Message>, m: Message, payload: seq<Message>, a: Attribute)
    requires m.type_ == CONTINUATION && AttributeCodec.Fits(a) && a.name != []
    requires Unique(AttrsOf(main + payload)) && !HasName(AttrsOf(main + payload), a.name)
    ensures Updated(AttrsOf(main + payload), AttrsOf(NonNil(main) + [m] + (payload + [AttrMessage(a)])), a)
  {
    hide Unique, Updated, AttributeBytes, ParsedAttribute, AttrsOf, HasName, NonNil, RefsOf, Structural;
    NonNilKeeps(main);
    NotAttribute(m);
    AttrMessageReads(a);
    AttrsAppend(main, payload);
    AttrsAppend(NonNil(main), [m]);
    AttrsAppend(NonNil(main) + [m], payload + [AttrMessage(a)]);
    AttrsAppend(payload, [AttrMessage(a)]);
    var before := AttrsOf(main + payload);
    assert before + [] == before;
    InsertUpdates(before, [], a);
    assert AttrsOf(NonNil(main)) + [] + (AttrsOf(payload) + [a]) == before + [a] + [];
  }

  /** Rewriting an existing attribute in place, while there are no continuation blocks. */
  lemma ReplaceInline(v: View, alloc: nat, a: Attribute, k: nat)
    requires Ready(v, alloc, a) && v.blocks == [] && k < |v.main| && IsNamed(v.main[k], a.name)
    ensures var main := v.main[k := AttrMessage(a)];
      && Proper(main) && RefsOf(main) == RefsOf(v.main) && Compact(View(main, []), alloc)
      && Updated(AttrsOf(v.All()), AttrsOf(View(main, []).All()), a)
  {
    hide Unique, Updated, AttributeBytes, ParsedAttribute, RefsOf, AttrsOf, Structural, MessagesBytes, Counted;
    var main := v.main[k := AttrMessage(a)];
    BlockPayloadEmpty();
    assert v.All() == v.main && View(main, []).All() == main;
    NamedAlone(v.main[k], a.name);
    AttrsReplace(v.main, k, a);
    ReplaceUpdates(AttrsOf(v.main), |AttrsOf(v.main[..k])|, a);
    ReplacedParts(v.main, k, AttrMessage(a));
    AttrReadable(a);
    AttrMessageReads(a);
    ReplacedKeeps(v.main, k, AttrMessage(a));
  }

  /** Rewriting an existing attribute while there are continuation blocks: the messages of the blocks go into the main
      chunk, which still refers to the blocks, so their attributes are there twice. */
  lemma ReplaceRepeats(v: View, alloc: nat, a: Attribute, k: nat)
    requires Ready(v, alloc, a) && v.blocks != [] && k < |v.All()| && IsNamed(v.All()[k], a.name)
    ensures var main := v.All()[k := AttrMessage(a)];
      Proper(main) && RefsOf(main) == RefsOf(v.main) && NoInfo(main) && !Unique(AttrsOf(View(main, v.blocks).All()))
  {
    hide Unique, AttributeBytes, ParsedAttribute, RefsOf, AttrsOf, Structural, Counted, Room, BlockPayload;
    var payload := BlockPayload(v.blocks);
    var main, at := v.All()[k := AttrMessage(a)], |v.main|;
    BlocksPlain(v.blocks);
    ReplacedParts(v.All(), k, AttrMessage(a));
    RefsAppend(v.main, payload);
    AttrReadable(a);
    AttrMessageReads(a);
    ReplacedKeeps(v.All(), k, AttrMessage(a));
    BlockPayloadHead(v.blocks);
    assert payload[0] == v.blocks[0].ms[0] && v.All()[at] == payload[0];
    var x := ParsedAttribute(payload[0].data).value;
    assert IsNamed(payload[0], x.name);
    ReplacedName(v.All(), k, a, at, x.name);
    NamedMeansPresent(main, x.name);
    NamedMeansPresent(payload, x.name);
    AttrsAppend(main, payload);
    NameTwice(AttrsOf(main), AttrsOf(payload), x.name);
  }

  lemma ReplacedName(ms: seq<Message>, k: nat, a: Attribute, at: nat, name: seq<byte>)
    requires k < |ms| && at < |ms| && AttributeCodec.Fits(a) && IsNamed(ms[k], a.name) && IsNamed(ms[at], name)
    ensures IsNamed(ms[k := AttrMessage(a)][at], name)
  {
    hide AttributeBytes, ParsedAttribute;
    AttributeParsesBack(a);
  }

  lemma NameTwice(p: seq<Attribute>, q: seq<Attribute>, name: seq<byte>)
    requires HasName(p, name) && HasName(q, name)
    ensures !Unique(p + q)
  {
    var i :| 0 <= i < |p| && p[i].name == name;
    var j :| 0 <= j < |q| && q[j].name == name;
    assert (p + q)[i] == p[i] && (p + q)[|p| + j] == q[j];
  }

  /** Blocks hold attribute messages only. */
  lemma {:induction false} BlocksPlain(blocks: seq<Block>)
    requires OneAttributeEach(blocks)
    ensures var ms := BlockPayload(blocks);
      Proper(ms) && RefsOf(ms) == [] && NoInfo(ms) && |MessagesBytes(ms)| <= |blocks| * 0x1_0003
  {
    hide RefsOf, MessagesBytes, MessageBytes, Block.Valid;
    RefsOne(Message(NIL, []));
    MessagesOne(Message(NIL, []));
    if blocks != [] {
      var one, rest := blocks[0].ms, BlockPayload(blocks[1..]);
      BlocksPlain(blocks[1..]);
      assert one == [one[0]];
      RefsAppend(one, rest);
      NoReference(one[0]);
      MessagesAppend(one, rest);
      MessagesOne(one[0]);
    }
  }

  /** A rewritten message list stays far below 2^64 bytes. */
  lemma RewrittenSize(v: View, alloc: nat, m: Message, k: nat)
    requires OneAttributeEach(v.blocks) && |v.blocks| <= MAX_COMPACT && k < |v.All()| && |m.data| < 0x1_0000
    requires HeaderSize(v.main) <= alloc < 0x8000_0000_0000_0000
    ensures |MessagesBytes(v.All()[k := m])| < 0x1_0000_0000_0000_0000
  {
    hide MessagesBytes, MessageBytes, Width, OneAttributeEach;
    var ms := v.All();
    var p, q := ms[..k], ms[k + 1..];
    assert ms == p + [ms[k]] + q && ms[k := m] == p + [m] + q;
    MessagesAppend(p + [ms[k]], q);
    MessagesAppend(p, [ms[k]]);
    MessagesAppend(p + [m], q);
    MessagesAppend(p, [m]);
    MessagesOne(m);
    MessagesAppend(v.main, BlockPayload(v.blocks));
    BlocksPlain(v.blocks);
  }

  lemma ReplacedKeeps(ms: seq<Message>, k: nat, m: Message)
    requires k < |ms| && m.type_ == ATTRIBUTE && Readable([m]) && Proper([m])
    ensures Readable(ms) ==> Readable(ms[k := m])
    ensures Proper(ms) ==> Proper(ms[k := m])
    ensures NoInfo(ms) ==> NoInfo(ms[k := m])
  {
    hide ParsedAttribute;
    assert [m][0] == m;
  }

  lemma NamedAlone(m: Message, name: seq<byte>)
    requires IsNamed(m, name)
    ensures |AttrsOf([m])| == 1 && AttrsOf([m])[0].name == name
  {
    hide ParsedAttribute;
    AttrsOne(m);
  }

  /** Swapping one attribute message for another changes no references, counts or structural messages. */
  lemma ReplacedParts(ms: seq<Message>, k: nat, m: Message)
    requires k < |ms| && ms[k].type_ == ATTRIBUTE && m.type_ == ATTRIBUTE
    ensures var r := ms[k := m];
      RefsOf(r) == RefsOf(ms) && Counted(r) == Counted(ms) && Structural(r) == Structural(ms)
  {
    hide RefsOf, Counted, Structural;
    var p, q := ms[..k], ms[k + 1..];
    assert ms == p + [ms[k]] + q && ms[k := m] == p + [m] + q;
    AroundAttribute(p, ms[k], q);
    AroundAttribute(p, m, q);
  }

  lemma AroundAttribute(p: seq<Message>, m: Message, q: seq<Message>)
    requires m.type_ == ATTRIBUTE
    ensures RefsOf(p + [m] + q) == RefsOf(p) + RefsOf(q) && Structural(p + [m] + q) == Structural(p) + Structural(q)
    ensures Counted(p + [m] + q) == Counted(p) + 1 + Counted(q)
  {
    hide RefsOf, RefOf, Counted, Structural, NonNil;
    RefsAppend(p + [m], q);
    RefsAppend(p, [m]);
    NoReference(m);
    FiltersAppend(p + [m], q);
    FiltersAppend(p, [m]);
    FiltersOne(m);
    CountedAppend(p + [m], q);
    CountedAppend(p, [m]);
    CountedOne(m);
  }

  /** The move to dense storage: structural messages and the info message, within the room kept for them. */
  lemma MoveToDense(v: View, alloc: nat, info: Info)
    requires Compact(v, alloc) && Proper(v.main)
    ensures var main := Structural(v.main) + [InfoMessage(info)];
      && Proper(main) && RefsOf(main) == [] && Dense(View(main, []), info) && HeaderSize(main) <= alloc
  {
    hide AttrsOf, RefsOf, InfoOf, InfoBytes, Structural, Readable, Counted, HeaderSize;
    var kept, m := Structural(v.main), InfoMessage(info);
    StructuralKeeps(v.main);
    FiltersKeep(v.main);
    AttrsAppend(kept, [m]);
    RefsAppend(kept, [m]);
    NotAttribute(m);
    NoReference(m);
    InfoAtEnd(kept, info);
    SameSize(kept, m, InfoMessage(Info(0, 0)));
  }

  /** The header's size depends on the last message's length only. */
  lemma SameSize(kept: seq<Message>, m: Message, n: Message)
    requires |m.data| == |n.data|
    ensures HeaderSize(kept + [m]) == HeaderSize(kept + [n])
  {
    hide MessagesBytes, MessageBytes, Width;
    MessagesAppend(kept, [m]);
    MessagesAppend(kept, [n]);
    MessagesOne(m);
    MessagesOne(n);
  }

  // ---- where a new attribute goes ----

  /** The attribute message (type 12) fits the main chunk, once the padding is gone. */
  ghost predicate FitsInline(v: View, alloc: nat, a: Attribute)
  {
    HeaderSize(NonNil(v.main) + [Message(12, AttributeBytes(a))]) <= alloc
  }

  /** A reference (type 16, 16 bytes) to one more block fits the main chunk. */
  ghost predicate FitsReference(v: View, alloc: nat)
  {
    HeaderSize(NonNil(v.main) + [Message(16, Zeros(16))]) <= alloc
  }

  /** The attribute message is the last one of the main chunk, and nothing else changed but the padding. */
  ghost predicate Inline(before: View, after: View, a: Attribute)
  {
    after == View(NonNil(before.main) + [Message(12, AttributeBytes(a))], before.blocks)
  }

  /** The attribute message is alone in a new block, and the last message of the main chunk refers to the block. */
  ghost predicate InBlock(before: View, after: View, a: Attribute)
  {
    exists b: Block, data: seq<byte> ::
      && b.ms == [Message(12, AttributeBytes(a))] && |data| == 16
      && after == View(NonNil(before.main) + [Message(16, data)], before.blocks + [b])
  }

  /** What is left in the header when all attributes are in dense storage: neither attributes nor blocks nor padding,
      and an attribute info message (type 15) at the end. */
  ghost predicate Emptied(before: View, after: View, info: Info)
  {
    after == View(Structural(before.main) + [Message(15, InfoBytes(info))], [])
  }
}
