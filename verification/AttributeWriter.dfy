/** The attribute writer as a state machine over one object's header: every write is a map update of the attributes
    read back, and every rewrite stays inside the object's own regions (attribute_write.go, group_write.go). */
module AttributeWriter {
  import opened Bytes
  import opened Storage
  import opened ObjectHeader
  import opened HeaderRoundTrip
  import opened AttributeCodec
  import opened AttributeMessages
  import opened AttributeStore

  /** The object's attributes: those of the header and its blocks, then those of dense storage. */
  ghost function AttributesOf(v: View, info: Option<Info>, stores: map<nat, seq<Attribute>>): seq<Attribute>
  {
    AttrsOf(v.All()) + match info case None => [] case Some(i) => if i.heap as nat in stores then stores[i.heap as nat] else []
  }

  /** GroupWriter, for a group created in the session.  `view` and `info` say how its attributes are stored now. */
  class GroupWriter {
    const file: FileWriter
    const dense: DenseStore
    const headerAddr: u64
    const headerAllocSz: nat
    const sum: Checksum
    ghost var view: View
    ghost var info: Option<Info>

    ghost predicate OnDisk()
      reads this, file
    {
      && file.Valid() && headerAllocSz < 0x8000_0000_0000_0000
      && Shown(file.mem, headerAddr, view, sum) && Located(file.regions, headerAddr, headerAllocSz, view)
    }

    /** Header, blocks and dense storage occupy different regions. */
    ghost predicate InForm()
      reads this, file, dense
    {
      match info
      case None => Compact(view, headerAllocSz)
      case Some(i) =>
        Dense(view, i) && dense.Owned(file.regions, i) && i.heap > 0 && i.heap != headerAddr && i.btree != headerAddr
    }

    ghost predicate Valid()
      reads this, file, dense
    {
      OnDisk() && InForm()
    }

    /** What reading the attributes needs: header and blocks as recorded, wherever they lie. */
    ghost predicate Shows()
      reads this, file, dense
    {
      && file.Valid() && Shown(file.mem, headerAddr, view, sum) && |view.blocks| <= BUDGET
      && match info
         case None => NoInfo(view.main)
         case Some(i) => Dense(view, i) && i.heap > 0 && i.heap as nat in dense.stores
    }

    ghost function Attributes(): seq<Attribute>
      reads this, dense
    {
      AttributesOf(view, info, dense.stores)
    }

    /** The regions a write may change: the header's, and dense storage's once it exists.  Continuation blocks are
        written once. */
    ghost function Mine(): set<nat>
      reads this
    {
      {headerAddr as nat} + match info case None => {} case Some(i) => {i.heap as nat, i.btree as nat}
    }

    /** The write replaces an inline or continued message of the same name. */
    ghost predicate Rewrites(a: Attribute)
      reads this
    {
      info.None? && Counted(view.All()) < MAX_COMPACT && a.name != [] && HasName(AttrsOf(view.All()), a.name)
    }

    /** The messages such a write puts into the main chunk: all of them, those of the blocks included. */
    ghost function Rewritten(a: Attribute): seq<Message>
      reads this
    {
      var k := FirstNamed(view.All(), a.name);
      if k < |view.All()| then view.All()[k := AttrMessage(a)] else view.All()
    }

    /** The rewritten header is larger than its allocation. */
    ghost predicate Outgrows(a: Attribute)
      reads this
    {
      Rewrites(a) && HeaderSize(Rewritten(a)) > headerAllocSz
    }

    /** The rewritten header runs into a continuation block. */
    ghost predicate Overruns(a: Attribute)
      reads this
    {
      Rewrites(a) && !Clear(headerAddr, HeaderSize(Rewritten(a)), view.blocks)
    }

    /** The rewritten header repeats the messages of the blocks it still refers to. */
    ghost predicate Repeats(a: Attribute)
      reads this
    {
      Rewrites(a) && view.blocks != []
    }

    /** Where a new attribute has gone, given the view before: inline if it fits there, else into a block if the
        reference fits, else into dense storage with all the others. */
    ghost predicate Placed(before: View, a: Attribute)
      reads this
    {
      if FitsInline(before, headerAllocSz, a) then info.None? && Inline(before, view, a)
      else if FitsReference(before, headerAllocSz) then info.None? && InBlock(before, view, a)
      else info.Some? && Emptied(before, view, info.value)
    }

    /** The record that dense storage finds by hash belongs to another name. */
    ghost predicate Clashes(a: Attribute)
      reads this, dense
    {
      && info.Some? && info.value.heap as nat in dense.stores
      && var before := dense.stores[info.value.heap as nat];
      var i := dense.Find(before, dense.hash(a.name));
      i < |before| && before[i].name != a.name
    }

    /** Adopts a header just written for a new object. */
    constructor (file: FileWriter, dense: DenseStore, headerAddr: u64, headerAllocSz: nat, sum: Checksum, ghost main: seq<Message>)
      requires file.Valid() && headerAllocSz < 0x8000_0000_0000_0000
      requires Shown(file.mem, headerAddr, View(main, []), sum) && Located(file.regions, headerAddr, headerAllocSz, View(main, []))
      requires Compact(View(main, []), headerAllocSz) && AttrsOf(main) == []
      ensures Valid() && Attributes() == [] && info == None
      ensures this.file == file && this.dense == dense && this.headerAddr == headerAddr && this.headerAllocSz == headerAllocSz
      ensures view == View(main, [])
    {
      hide Shown, Located, Compact, AttrsOf;
      BlockPayloadEmpty();
      assert View(main, []).All() == main;
      this.file, this.dense, this.headerAddr, this.headerAllocSz, this.sum := file, dense, headerAddr, headerAllocSz, sum;
      view, info := View(main, []), None;
    }

    /** Reading the header of a valid object cannot fail. */
    method ReadHeaderBack() returns (h: Header)
      requires Shows()
      ensures Seen(h, view)
    {
      hide Shown, ReadHeader, Located, Unique, AttributesOf, InfoOf, Readable, NoInfo, AttrsOf, Seen, FileWriter.Valid, Room;
      var read := ReadObjectHeader(file.mem, headerAddr, BUDGET);
      ShownReads(file.mem, headerAddr, view, sum, BUDGET);
      h := read.value;
    }

    /** WriteObjectHeader at the object's address. */
    method WriteMain(flags: byte, main: seq<Message>)
      requires file.Valid() && flags < 4
      modifies file`mem
      ensures file.Valid() && file.mem == Store(old(file.mem), headerAddr, HeaderBytes(0, main, sum))
    {
      hide HeaderBytes, Store, FileWriter.Valid;
      var w := new ObjectHeaderWriter(flags, main);
      FlagsNormal(flags, main, sum);
      var _ := w.WriteTo(file, headerAddr, sum);
    }

    /** What a reader finds: ParseAttributesFromMessages over the object header. */
    method ReadAttributes() returns (attrs: seq<Attribute>)
      requires Shows()
      ensures attrs == Attributes()
    {
      hide Shown, Located, Unique, Compact, AttrsOf, Unique, FileWriter.Valid, InfoOf;
      var h := ReadHeaderBack();
      var found := FindInfo(h.messages);
      attrs := CollectAttributes(h.messages);
      ShownParts(file.mem, headerAddr, view, sum);
      InfoSeen(view, info);
      if found.Some? && found.value.heap != 0 {
        attrs := attrs + dense.stores[found.value.heap as nat];
      }
    }

    /** Whether the header says that attributes are in dense storage. */
    method IsDense() returns (moved: bool)
      requires Shows()
      ensures moved <==> info.Some?
    {
      hide Shown, InfoOf, AttrsOf, FileWriter.Valid, NoInfo;
      var h := ReadHeaderBack();
      ShownParts(file.mem, headerAddr, view, sum);
      InfoSeen(view, info);
      DenseSeen(view, info);
      var _, _, hasDense := CountMessages(h.messages);
      moved := hasDense;
    }

    /** writeAttribute.  Inside its domain every successful write is the map update; outside, it never is one, or it
        leaves the header's region.  A rewrite that runs into a continuation block makes the object unreadable, unless
        it happens to leave the signatures of all blocks as they are. */
    method WriteAttribute(a: Attribute) returns (ok: bool)
      requires Valid() && Unique(Attributes()) && |AttributeBytes(a)| < 0x1_0000
      modifies this`view, this`info, file, dense
      ensures Extends(old(file.regions), file.regions) && (old(info).Some? ==> info == old(info))
      ensures old(!Outgrows(a)) ==> Untouched(old(file.mem), file.mem, old(file.regions) - old(Mine()))
      ensures old(Outgrows(a)) ==> file.mem == Store(old(file.mem), headerAddr, HeaderBytes(0, old(Rewritten(a)), sum))
      ensures old(!Outgrows(a) && !Repeats(a)) ==> Valid()
      ensures old(!Overruns(a)) ==> Shows()
      ensures old(Overruns(a)) && Broken(file.mem, view.blocks) ==> ReadHeader(file.mem, headerAddr, BUDGET).Err?
      ensures ok && old(!Overruns(a)) ==>
        (Updated(old(Attributes()), Attributes(), a) <==> old(!Clashes(a) && !Repeats(a)))
      ensures ok && old(!HasName(Attributes(), a.name)) ==> GrownBy(old(Attributes()), Attributes(), a)
      ensures !ok && old(!Outgrows(a)) ==> Attributes() == old(Attributes())
      ensures ok && old(info.None? && HasName(Attributes(), a.name)) ==> (info.Some? <==> old(|Attributes()|) >= 8)
      ensures ok && old(info.None? && !HasName(Attributes(), a.name)) ==>
        (info.Some? <==> old(|Attributes()| >= 8 || (!FitsInline(view, headerAllocSz, a) && !FitsReference(view, headerAllocSz))))
      ensures ok && old(info.None? && !HasName(Attributes(), a.name)) && info.None? ==>
        if old(FitsInline(view, headerAllocSz, a)) then Inline(old(view), view, a) else InBlock(old(view), view, a)
      ensures ok && old(info.None?) && info.Some? ==> Emptied(old(view), view, info.value)
      ensures !ok || old(info.Some?) ==> info == old(info) && (old(!Outgrows(a)) ==> view == old(view))
      ensures ok || a.name == [] || file.refusals > old(file.refusals) || dense.failures > old(dense.failures)
      ensures old(file.refusals) <= file.refusals && old(dense.failures) <= dense.failures
    {
      hide Shown, Located, Unique, Updated, AttrsOf, FileWriter.Valid, Untouched, InfoOf, Readable, NoInfo, Counted, AttributeBytes, HasName,
           Room, HeaderSize, DenseStore.Owned, Extends, IsNamed, AttributesOf, AttrMessage, GrownBy, Outgrows, Repeats, Clashes,
           Rewritten, Store, HeaderBytes, Overruns, Broken, ReadHeader, FitsInline, FitsReference, Inline, InBlock, Emptied;
      if info.None? {
        CountIsLength();
      }
      Branches(a);
      ExtendsSelf(file.regions);
      UntouchedSelf(file.mem, file.regions - Mine());
      assert info.None? ==> Mine() == {headerAddr as nat};
      ValidShows();
      var h := ReadHeaderBack();
      var compactCount, continuationCount, hasDense := CountMessages(h.messages);
      ShownParts(file.mem, headerAddr, view, sum);
      DenseSeen(view, info);
      if hasDense {
        ok := WriteDense(h, a);
      } else if compactCount + continuationCount < MAX_COMPACT {
        ok := WriteCompact(h, a);
        if ok && old(!HasName(Attributes(), a.name)) {
          NewNameGrows(old(Attributes()), Attributes(), a);
        }
      } else {
        ok := TransitionToDense(a);
        ValidShows();
        if ok && old(!HasName(Attributes(), a.name)) {
          NewNameGrows(old(Attributes()), Attributes(), a);
        }
      }
    }

    /** While nothing is dense, the messages counted are the attributes. */
    lemma CountIsLength()
      requires Valid() && info.None?
      ensures Counted(view.All()) == |Attributes()|
    {
      hide FileWriter.Valid, Shown, Located, AttrsOf, Counted, Readable, Room, NoInfo;
      CompactAttributes(view, dense.stores);
      CountedReadable(view.All());
    }

    /** Which of the exceptions can meet which kind of write. */
    lemma Branches(a: Attribute)
      ensures info.Some? || Counted(view.All()) >= MAX_COMPACT ==> !Outgrows(a) && !Repeats(a) && !Overruns(a)
      ensures Valid() && (!Outgrows(a) || !Repeats(a)) ==> !Overruns(a)
      ensures info.None? ==> !Clashes(a)
      ensures info.None? && !HasName(Attributes(), a.name) ==> !Outgrows(a) && !Repeats(a) && !Overruns(a)
    {
      hide FileWriter.Valid, Shown, Compact, Located, DenseStore.Owned, InfoOf, AttrsOf, Counted, HeaderSize, DenseStore.Find, FirstNamed, HasName, AttributesOf;
      CompactAttributes(view, dense.stores);
      if Valid() && Rewrites(a) && !Outgrows(a) {
        ValidApart(file);
        InsideClear(file.regions, headerAddr, headerAllocSz, view, HeaderSize(Rewritten(a)));
      }
    }

    lemma ValidShows()
      requires Valid()
      ensures Shows()
    {
      hide Shown, Readable, Room, AttrsOf, FileWriter.Valid, InfoOf, NoInfo;
    }

    /** writeCompactAttribute: replace a namesake in place, or add inline, or add through a continuation. */
    method WriteCompact(h: Header, a: Attribute) returns (ok: bool)
      requires Valid() && Unique(Attributes()) && |AttributeBytes(a)| < 0x1_0000
      requires info.None? && Seen(h, view) && Counted(view.All()) < MAX_COMPACT
      modifies this`view, this`info, file, dense
      ensures Extends(old(file.regions), file.regions)
      ensures old(!Outgrows(a)) ==> Untouched(old(file.mem), file.mem, old(file.regions) - old(Mine()))
      ensures old(Outgrows(a)) ==> file.mem == Store(old(file.mem), headerAddr, HeaderBytes(0, old(Rewritten(a)), sum))
      ensures old(!Outgrows(a) && !Repeats(a)) ==> Valid()
      ensures old(!Overruns(a)) ==> Shows()
      ensures old(Overruns(a)) && Broken(file.mem, view.blocks) ==> ReadHeader(file.mem, headerAddr, BUDGET).Err?
      ensures ok && old(!Overruns(a)) ==> (Updated(old(Attributes()), Attributes(), a) <==> old(!Repeats(a)))
      ensures !ok && old(!Outgrows(a)) ==> Attributes() == old(Attributes()) && view == old(view)
      ensures !ok || old(HasName(Attributes(), a.name)) ==> info.None?
      ensures ok && old(!HasName(Attributes(), a.name)) ==> Placed(old(view), a)
      ensures ok || a.name == [] || file.refusals > old(file.refusals) || dense.failures > old(dense.failures)
      ensures old(file.refusals) <= file.refusals && old(dense.failures) <= dense.failures
    {
      hide Shown, Located, Unique, Updated, AttrsOf, FileWriter.Valid, Untouched, Readable, NoInfo, Counted, AttributeBytes, HasName,
           Room, HeaderSize, DenseStore.Owned, Extends, IsNamed, AttributesOf, Compact, Dense, DenseStore.Owned, NonNil,
           BlockPayload, FirstNamed, Store, HeaderBytes;
      ExtendsSelf(file.regions);
      UntouchedSelf(file.mem, file.regions - Mine());
      assert info.None? ==> Mine() == {headerAddr as nat};
      ValidShows();
      var encoded := EncodeAttributeMessage(a);
      if encoded.Err? {
        return false;
      }
      var existing := FindNamed(h.messages, a.name);
      NamedMeansPresent(Payload(h.messages), a.name);
      CompactAttributes(view, dense.stores);
      if existing < |h.messages| {
        ok := ReplaceExisting(h, a, existing);
        return;
      }
      var kept := FilterMainChunk(h.messages, |view.main|);
      assert Payload(h.messages)[..|view.main|] == view.main;
      ok := AddNew(h.flags, kept, a, encoded.value);
      ValidShows();
    }

    /** The upsert case: the whole message list, with one message's data replaced, is written back, and the end of the
        file moves behind a header that outgrew it. */
    method ReplaceExisting(h: Header, a: Attribute, k: nat) returns (ok: bool)
      requires Valid() && Unique(Attributes()) && |AttributeBytes(a)| < 0x1_0000
      requires info.None? && Seen(h, view) && Counted(view.All()) < MAX_COMPACT
      requires a.name != [] && k < |h.messages| && k == FirstNamed(Payload(h.messages), a.name) && HasName(AttrsOf(view.All()), a.name)
      modifies this`view, file
      ensures Extends(old(file.regions), file.regions)
      ensures file.mem == Store(old(file.mem), headerAddr, HeaderBytes(0, old(Rewritten(a)), sum))
      ensures old(!Outgrows(a)) ==> ok && Untouched(old(file.mem), file.mem, old(file.regions) - {headerAddr as nat})
      ensures old(!Outgrows(a) && !Repeats(a)) ==> Valid()
      ensures old(!Overruns(a)) ==>
        Shows() && (Updated(old(Attributes()), Attributes(), a) <==> old(!Repeats(a)))
      ensures old(Overruns(a)) && Broken(file.mem, view.blocks) ==> ReadHeader(file.mem, headerAddr, BUDGET).Err?
      ensures file.refusals == old(file.refusals) + if ok then 0 else 1
    {
      hide Unique, Updated, AttrsOf, FileWriter.Valid, Untouched, Readable, NoInfo, Counted, AttributeBytes, HasName, Holds, HeaderBytes,
           HeaderSize, DenseStore.Owned, IsNamed, AttributesOf, Compact, Dense, RefsOf, Store, RefersTo, Proper, OneAttributeEach,
           BlockPayload, FirstNamed, Located, Shown;
      ValidShows();
      var main := Payload(h.messages)[k := AttrMessage(a)];
      assert main == Rewritten(a);
      ghost var before, mem0 := view, file.mem;
      CompactAttributes(view, dense.stores);
      ShownParts(file.mem, headerAddr, view, sum);
      RewriteShown(mem0, file.regions, headerAddr, headerAllocSz, view, a, k, sum) by {
        ValidApart(file);
      }
      ExtendsSelf(file.regions);
      var w := new ObjectHeaderWriter(h.flags, main);
      var newSize := w.Size();
      WriteMain(h.flags, main);
      view := View(main, before.blocks);
      CompactAttributes(view, dense.stores);
      HeaderInside(file, headerAddr, headerAllocSz, before);
      ok := true;
      if file.nextOffset < headerAddr as nat + newSize {
        var grown := file.Allocate(headerAddr as nat + newSize - file.nextOffset);
        ok := grown.Ok?;
      }
    }

    /** A new attribute: inline when the header still fits its allocation, otherwise through a continuation block. */
    method AddNew(flags: byte, kept: seq<Message>, a: Attribute, encoded: seq<byte>) returns (ok: bool)
      requires Valid() && Unique(Attributes()) && |AttributeBytes(a)| < 0x1_0000
      requires info.None? && flags < 4 && Counted(view.All()) < MAX_COMPACT
      requires kept == NonNil(view.main) && a.name != [] && encoded == AttributeBytes(a) && !HasName(AttrsOf(view.All()), a.name)
      modifies this`view, this`info, file, dense
      ensures Valid() && Extends(old(file.regions), file.regions)
      ensures Untouched(old(file.mem), file.mem, old(file.regions) - old(Mine()))
      ensures ok ==> Updated(old(Attributes()), Attributes(), a)
      ensures ok ==> Placed(old(view), a)
      ensures !ok ==> Attributes() == old(Attributes()) && view == old(view) && info.None?
      ensures ok || file.refusals > old(file.refusals) || dense.failures > old(dense.failures)
      ensures old(file.refusals) <= file.refusals && old(dense.failures) <= dense.failures
    {
      hide Unique, Updated, AttrsOf, FileWriter.Valid, Untouched, Readable, NoInfo, Counted, AttributeBytes, HasName, Holds, HeaderBytes,
           HeaderSize, DenseStore.Owned, IsNamed, AttributesOf, Compact, Dense, RefsOf, Store, RefersTo, Proper, OneAttributeEach,
           Extends, NonNil, BlockPayload, FitsReference, InBlock, Emptied;
      ExtendsSelf(file.regions);
      CompactAttributes(view, dense.stores);
      assert Mine() == {headerAddr as nat};
      var main := kept + [Message(ATTRIBUTE, encoded)];
      var w := new ObjectHeaderWriter(flags, main);
      var newSize := w.Size();
      if newSize > headerAllocSz {
        ok := AddViaContinuation(flags, kept, a);
        return;
      }
      AddInline(view, headerAllocSz, a);
      MainRewritten(file.mem, file.regions, headerAddr, headerAllocSz, view, main, sum) by {
        ValidApart(file);
      }
      WriteMain(flags, main);
      ghost var before := view;
      view := View(main, view.blocks);
      CompactAttributes(view, dense.stores);
      UpdatedUnique(AttrsOf(before.All()), AttrsOf(view.All()), a);
      ok := true;
    }

    /** writeAttributeViaContinuation: a block of its own for the attribute; if not even the reference to it fits in
        the header, everything moves to dense storage. */
    method AddViaContinuation(flags: byte, kept: seq<Message>, a: Attribute) returns (ok: bool)
      requires Valid() && Unique(Attributes()) && |AttributeBytes(a)| < 0x1_0000
      requires info.None? && flags < 4 && Counted(view.All()) < MAX_COMPACT
      requires kept == NonNil(view.main) && a.name != [] && !HasName(AttrsOf(view.All()), a.name)
      requires !FitsInline(view, headerAllocSz, a)
      modifies this`view, this`info, file, dense
      ensures Valid() && Extends(old(file.regions), file.regions)
      ensures Untouched(old(file.mem), file.mem, old(file.regions) - old(Mine()))
      ensures ok ==> Updated(old(Attributes()), Attributes(), a)
      ensures ok ==> Placed(old(view), a)
      ensures !ok ==> Attributes() == old(Attributes()) && view == old(view) && info.None?
      ensures ok || file.refusals > old(file.refusals) || dense.failures > old(dense.failures)
      ensures old(file.refusals) <= file.refusals && old(dense.failures) <= dense.failures
    {
      hide Unique, Updated, AttrsOf, FileWriter.Valid, Untouched, Readable, NoInfo, Counted, AttributeBytes, HasName, Holds, HeaderBytes,
           HeaderSize, DenseStore.Owned, IsNamed, AttributesOf, Compact, Dense, RefsOf, Store, RefersTo, Proper, OneAttributeEach,
           Extends, NonNil, BlockPayload, BlockHeld, Located, Shown, ContinuationData, Block.Valid, BlockSize, AttrMessage, FitsInline,
           Emptied, Inline, InBlock;
      CompactAttributes(view, dense.stores);
      assert Mine() == {headerAddr as nat};
      var written := WriteBlock(a);
      if written.Err? {
        UntouchedLess(old(file.mem), file.mem, old(file.regions), headerAddr);
        return false;
      }
      ghost var regions := file.regions;
      ghost var b := Block(written.value.address, [AttrMessage(a)]);
      ShownParts(file.mem, headerAddr, view, sum);
      FreshBlock(old(file.regions), headerAddr, headerAllocSz, view, b.address);
      AddBlock(view, headerAllocSz, a, written.value.address);
      var main := kept + [Message(CONTINUATION, ContinuationData(written.value.address, written.value.size))];
      var w := new ObjectHeaderWriter(flags, main);
      var newSize := w.Size();
      UntouchedLess(old(file.mem), file.mem, old(file.regions), headerAddr);
      ghost var mem1 := file.mem;
      ExtendsLess(old(file.regions), regions, {headerAddr as nat});
      SameSize(kept, main[|kept|], Message(16, Zeros(16)));
      if newSize > headerAllocSz {
        ok := TransitionToDense(a);
        ExtendsChain(old(file.regions), regions, file.regions);
        UntouchedChain(old(file.mem), mem1, file.mem, old(file.regions) - {headerAddr as nat}, regions - {headerAddr as nat});
        return;
      }
      BlockLinked(file.mem, file.regions, headerAddr, headerAllocSz, view, b, main, sum) by {
        ValidApart(file);
      }
      WriteMain(flags, main);
      UntouchedChain(old(file.mem), mem1, file.mem, old(file.regions) - {headerAddr as nat}, regions - {headerAddr as nat});
      ghost var before := view;
      view := View(main, view.blocks + [b]);
      LinkedTo(before, a, b, ContinuationData(written.value.address, written.value.size));
      CompactAttributes(view, dense.stores);
      UpdatedUnique(AttrsOf(before.All()), AttrsOf(view.All()), a);
      ok := true;
    }

    /** Allocates and writes the continuation block; the object itself is not touched. */
    method WriteBlock(a: Attribute) returns (r: Result<BlockRef>)
      requires Valid() && info.None? && AttributeCodec.Fits(a)
      modifies file
      ensures Valid() && Extends(old(file.regions), file.regions) && file.refusals == old(file.refusals) + if r.Err? then 1 else 0
      ensures Untouched(old(file.mem), file.mem, old(file.regions))
      ensures r.Ok? ==> var b := Block(r.value.address, [AttrMessage(a)]);
        && b.Valid() && r.value == RefTo(b) && BlockHeld(file.mem, b, sum)
        && b.address as nat in file.regions && file.regions[b.address as nat] == BlockSize(b.ms)
        && b.address as nat !in old(file.regions)
    {
      hide Unique, AttrsOf, AttributesOf, Compact, Dense, Located, Shown, Untouched, FileWriter.Valid, Extends, BlockHeld, BlockSize,
           AttributeBytes, AttrMessage, DenseStore.Owned;
      var ms := [AttrMessage(a)];
      ghost var mem0, regions0 := file.mem, file.regions;
      NewBlock(Block(0, ms), a);
      r := PutBlock(file, ms, sum);
      ShownStays(mem0, file.mem, regions0, headerAddr, headerAllocSz, view, sum);
      LocatedGrows(regions0, file.regions, headerAddr, headerAllocSz, view);
    }

    /** transitionToDenseAttributes: re-reads the header, moves every attribute, and leaves structure and info behind. */
    method TransitionToDense(a: Attribute) returns (ok: bool)
      requires Valid() && Unique(Attributes()) && info.None?
      modifies this`view, this`info, file, dense
      ensures Valid() && Extends(old(file.regions), file.regions)
      ensures Untouched(old(file.mem), file.mem, old(file.regions) - old(Mine()))
      ensures ok ==> Updated(old(Attributes()), Attributes(), a)
      ensures ok ==> info.Some? && Emptied(old(view), view, info.value)
      ensures !ok ==> Attributes() == old(Attributes()) && view == old(view) && info.None?
      ensures ok || a.name == [] || file.refusals > old(file.refusals) || dense.failures > old(dense.failures)
      ensures old(file.refusals) <= file.refusals && old(dense.failures) <= dense.failures
    {
      hide Unique, Updated, AttrsOf, FileWriter.Valid, NoInfo, Counted, AttributeBytes, HasName, Holds, HeaderBytes,
           HeaderSize, DenseStore.Owned, AttributesOf, Dense, RefsOf, Store, RefersTo, Proper, OneAttributeEach,
           Extends, Structural, BlockPayload, BlockHeld, Located, Shown, Untouched, Readable;
      ExtendsSelf(file.regions);
      UntouchedSelf(file.mem, file.regions - Mine());
      assert info.None? ==> Mine() == {headerAddr as nat};
      ValidShows();
      var h := ReadHeaderBack();
      CompactAttributes(view, dense.stores);
      var attrs := ParseAttributes(h.messages);
      if a.name == [] {
        return false;
      }
      var merged := MergeAttributes(attrs.value, a);
      UpdatedUnique(attrs.value, merged, a);
      var kept := FilterStructural(h.messages, |view.main|);
      assert Payload(h.messages)[..|view.main|] == view.main;
      ghost var mem0, regions0, stores0 := file.mem, file.regions, dense.stores;
      var created := dense.Create(file, merged);
      ShownStays(mem0, file.mem, regions0, headerAddr, headerAllocSz, view, sum);
      LocatedGrows(regions0, file.regions, headerAddr, headerAllocSz, view);
      CompactAttributes(view, dense.stores);
      ghost var mem1, regions1 := file.mem, file.regions;
      UntouchedLess(mem0, mem1, regions0, headerAddr);
      if created.Err? {
        return false;
      }
      ExtendsLess(regions0, regions1, {headerAddr as nat});
      FreshBlock(regions0, headerAddr, headerAllocSz, view, created.value.heap);
      FreshBlock(regions0, headerAddr, headerAllocSz, view, created.value.btree);
      FinishTransition(h.flags, kept, created.value, merged);
      UntouchedChain(mem0, mem1, file.mem, regions0 - {headerAddr as nat}, regions1 - {headerAddr as nat});
      ok := true;
    }

    /** The one header write of the transition. */
    method FinishTransition(flags: byte, kept: seq<Message>, created: Info, ghost merged: seq<Attribute>)
      requires OnDisk() && Compact(view, headerAllocSz) && flags < 4 && kept == Structural(view.main)
      requires dense.Owned(file.regions, created) && dense.stores[created.heap as nat] == merged && Unique(merged)
      requires created.heap > 0 && created.heap != headerAddr && created.btree != headerAddr
      modifies this`view, this`info, file`mem
      ensures Valid() && Attributes() == merged && info == Some(created) && Emptied(old(view), view, created)
      ensures Untouched(old(file.mem), file.mem, old(file.regions) - {headerAddr as nat})
    {
      hide Unique, AttrsOf, FileWriter.Valid, Untouched, NoInfo, Counted, Holds, HeaderBytes, HeaderSize, RefsOf, Store, RefersTo, Proper,
           OneAttributeEach, Structural, Readable, Compact, Dense, InfoBytes;
      var main := kept + [InfoMessage(created)];
      MoveToDense(view, headerAllocSz, created);
      BlocksDropped(file.mem, file.regions, headerAddr, headerAllocSz, view, main, sum) by {
        ValidApart(file);
      }
      WriteMain(flags, main);
      view := View(main, []);
      info := Some(created);
      DenseAttributes(view, created, dense.stores);
    }

    /** writeDenseAttribute: read-modify-write of the existing dense storage. */
    method WriteDense(h: Header, a: Attribute) returns (ok: bool)
      requires Valid() && Unique(Attributes()) && info.Some? && Seen(h, view)
      modifies file`mem, dense
      ensures Valid() && Shows() && Untouched(old(file.mem), file.mem, file.regions - Mine())
      ensures ok ==> (Updated(old(Attributes()), Attributes(), a) <==> old(!Clashes(a)))
      ensures ok && old(!HasName(Attributes(), a.name)) ==> GrownBy(old(Attributes()), Attributes(), a)
      ensures !ok ==> Attributes() == old(Attributes())
      ensures ok || a.name == [] || dense.failures > old(dense.failures)
      ensures old(dense.failures) <= dense.failures
    {
      hide Unique, Updated, AttrsOf, FileWriter.Valid, NoInfo, Counted, Located, Shown, Compact, InfoOf, AttributeBytes, HasName,
           Untouched, BlockPayload, DenseStore.Find, GrownBy;
      UntouchedSelf(file.mem, file.regions - Mine());
      var found := FindInfo(h.messages);
      ValidShows();
      InfoSeen(view, info);
      if a.name == [] {
        return false;
      }
      var i := found.value;
      ghost var mem0, before := file.mem, dense.stores[i.heap as nat];
      DenseAttributes(view, i, dense.stores);
      ok := dense.Upsert(file, i, a);
      UntouchedFewer(mem0, file.mem, file.regions, {i.heap as nat, i.btree as nat}, Mine());
      DenseShown(mem0, file.mem, file.regions, headerAddr, headerAllocSz, view, i, sum);
      DenseAttributes(view, i, dense.stores);
      if ok {
        UpsertUpdates(dense, before, a);
        UpsertGrows(dense, before, a);
      }
      ValidShows();
    }
  }

  /** A continuation block in a region of its own. */
  method PutBlock(file: FileWriter, ms: seq<Message>, sum: Checksum) returns (r: Result<BlockRef>)
    requires file.Valid() && Block(0, ms).Valid()
    modifies file
    ensures file.Valid() && Untouched(old(file.mem), file.mem, old(file.regions)) && Extends(old(file.regions), file.regions)
    ensures file.refusals == old(file.refusals) + if r.Err? then 1 else 0
    ensures r.Ok? ==> var b := Block(r.value.address, ms);
      && b.Valid() && r.value == RefTo(b) && BlockHeld(file.mem, b, sum)
      && b.address as nat in file.regions && file.regions[b.address as nat] == BlockSize(b.ms)
      && b.address as nat !in old(file.regions)
  {
    hide Untouched, AllApart, Store, Holds, MessagesBytes, BlockBytes, Small;
    UntouchedSelf(file.mem, file.regions);
    var size := MeasureMessages(ms);
    size := 4 + size + 4;
    var reserved := file.Allocate(size);
    if reserved.Err? {
      return Err;
    }
    UntouchedStep(file.mem, file.mem, old(file.regions), reserved.value, BlockBytes(ms, sum));
    StoreHolds(file.mem, reserved.value, BlockBytes(ms, sum));
    var _ := WriteContinuationChunk(file, reserved.value, ms, sum);
    r := Ok(BlockRef(reserved.value, size));
  }

  // ---- lemmas about the object's state ----

  lemma LinkedTo(before: View, a: Attribute, b: Block, data: seq<byte>)
    requires b.ms == [AttrMessage(a)] && |data| == 16
    ensures InBlock(before, View(NonNil(before.main) + [Message(CONTINUATION, data)], before.blocks + [b]), a)
  {
    hide NonNil, AttributeBytes;
  }

  lemma ExtendsLess(regions: map<nat, nat>, more: map<nat, nat>, own: set<nat>)
    requires Extends(regions, more)
    ensures Extends(regions - own, more - own)
  {
  }

  lemma UntouchedFewer(m: Mem, m': Mem, regions: map<nat, nat>, own: set<nat>, all: set<nat>)
    requires Untouched(m, m', regions - own) && own <= all
    ensures Untouched(m, m', regions - all)
  {
    forall a, i: nat | a in regions - all && a <= i < a + (regions - all)[a] && i in m ensures i in m' && m'[i] == m[i] {
      assert a in regions - own && (regions - own)[a] == (regions - all)[a];
    }
  }

  lemma ShownParts(m: Mem, address: nat, v: View, sum: Checksum)
    requires Shown(m, address, v, sum)
    ensures Proper(v.main) && OneAttributeEach(v.blocks)
  {
    hide Holds, HeaderBytes, BlockHeld, RefersTo;
  }

  /** An address that was not reserved is none of the object's. */
  lemma FreshBlock(regions: map<nat, nat>, address: nat, alloc: nat, v: View, at: nat)
    requires Located(regions, address, alloc, v)
    ensures at !in regions ==> at != address && forall i | 0 <= i < |v.blocks| :: v.blocks[i].address != at
  {
    hide HeaderSize, BlockSize;
  }

  lemma ValidApart(file: FileWriter)
    requires file.Valid()
    ensures AllApart(file.regions)
  {
  }

  lemma UpdatedUnique(before: seq<Attribute>, after: seq<Attribute>, a: Attribute)
    requires Updated(before, after, a)
    ensures Unique(after)
  {
  }

  lemma CompactAttributes(v: View, stores: map<nat, seq<Attribute>>)
    ensures AttributesOf(v, None, stores) == AttrsOf(v.All())
  {
    hide AttrsOf;
    assert AttrsOf(v.All()) + [] == AttrsOf(v.All());
  }

  lemma DenseAttributes(v: View, info: Info, stores: map<nat, seq<Attribute>>)
    requires Dense(v, info) && info.heap as nat in stores
    ensures AttributesOf(v, Some(info), stores) == stores[info.heap as nat]
  {
    hide AttrsOf;
    BlockPayloadEmpty();
    assert v.All() == v.main;
    assert [] + stores[info.heap as nat] == stores[info.heap as nat];
  }

  /** The info message a reader finds is the one the state records. */
  lemma InfoSeen(v: View, info: Option<Info>)
    requires match info case None => NoInfo(v.main) && OneAttributeEach(v.blocks) case Some(i) => Dense(v, i)
    ensures InfoOf(v.All()) == info
  {
    hide InfoOf, AttrsOf, Readable, Counted, Room;
    match info
    case None =>
      AllNoInfo(v);
      NoInfoMeansNone(v.All());
    case Some(_) =>
      BlockPayloadEmpty();
      assert v.All() == v.main;
  }

  lemma DenseSeen(v: View, info: Option<Info>)
    requires match info case None => NoInfo(v.main) && OneAttributeEach(v.blocks) case Some(i) => Dense(v, i)
    ensures NoInfo(v.All()) <==> info.None?
  {
    hide InfoOf, AttrsOf, Readable, Counted, Room, NoInfo;
    match info
    case None => AllNoInfo(v);
    case Some(_) =>
      BlockPayloadEmpty();
      assert v.All() == v.main;
  }

  lemma AllNoInfo(v: View)
    requires NoInfo(v.main) && OneAttributeEach(v.blocks)
    ensures NoInfo(v.All())
  {
    BlocksNoInfo(v.blocks);
  }

  lemma {:induction false} BlocksNoInfo(blocks: seq<Block>)
    requires OneAttributeEach(blocks)
    ensures NoInfo(BlockPayload(blocks))
  {
    if blocks != [] {
      BlocksNoInfo(blocks[1..]);
    }
  }

  /** The header over one block more, once both are written. */
  lemma BlockLinked(m: Mem, regions: map<nat, nat>, address: nat, alloc: nat, v: View, b: Block, main: seq<Message>, sum: Checksum)
    requires Shown(m, address, v, sum) && Located(regions, address, alloc, v) && AllApart(regions)
    requires BlockHeld(m, b, sum) && OneAttributeEach([b])
    requires b.address as nat in regions && regions[b.address as nat] == BlockSize(b.ms) && b.address != address
    requires forall i | 0 <= i < |v.blocks| :: v.blocks[i].address != b.address
    requires Proper(main) && HeaderSize(main) <= alloc < 0x1_0000_0000_0000_0000 && RefsOf(main) == RefsOf(v.main) + [RefTo(b)]
    ensures Shown(Store(m, address, HeaderBytes(0, main, sum)), address, View(main, v.blocks + [b]), sum)
    ensures Located(regions, address, alloc, View(main, v.blocks + [b]))
    ensures Untouched(m, Store(m, address, HeaderBytes(0, main, sum)), regions - {address})
  {
    hide Holds, HeaderBytes, BlockHeld, Proper, RefsOf, Store, AllApart, Untouched, MessagesBytes, BlockSize, Block.Valid, RefTo;
    var bs, with := HeaderBytes(0, main, sum), View(v.main, v.blocks + [b]);
    StoreHolds(m, address, bs);
    StoreElsewhere(m, regions, address, bs);
    assert [b][0] == b;
    BlocksStay(m, Store(m, address, bs), regions, address, alloc, with, sum);
  }

  /** The header without its blocks. */
  lemma BlocksDropped(m: Mem, regions: map<nat, nat>, address: nat, alloc: nat, v: View, main: seq<Message>, sum: Checksum)
    requires Located(regions, address, alloc, v) && AllApart(regions)
    requires Proper(main) && HeaderSize(main) <= alloc < 0x1_0000_0000_0000_0000 && RefsOf(main) == []
    ensures Shown(Store(m, address, HeaderBytes(0, main, sum)), address, View(main, []), sum)
    ensures Located(regions, address, alloc, View(main, []))
    ensures Untouched(m, Store(m, address, HeaderBytes(0, main, sum)), regions - {address})
  {
    hide Holds, HeaderBytes, Proper, RefsOf, Store, MessagesBytes, Untouched, AllApart;
    StoreHolds(m, address, HeaderBytes(0, main, sum));
    StoreElsewhere(m, regions, address, HeaderBytes(0, main, sum));
  }

  /** Writes confined to dense storage leave the header alone. */
  lemma DenseShown(m: Mem, m': Mem, regions: map<nat, nat>, address: nat, alloc: nat, v: View, info: Info, sum: Checksum)
    requires Shown(m, address, v, sum) && Located(regions, address, alloc, v) && Dense(v, info)
    requires Untouched(m, m', regions - {info.heap as nat, info.btree as nat}) && info.heap != address && info.btree != address
    ensures Shown(m', address, v, sum)
  {
    hide Holds, HeaderBytes, Proper, Untouched, OneAttributeEach, RefersTo, AttrsOf, InfoOf, NoInfo;
    UntouchedHolds(m, m', regions - {info.heap as nat, info.btree as nat}, address, HeaderBytes(0, v.main, sum));
  }

  /** The dense upsert is the map update if and only if the record found by hash is not another name's. */
  lemma UpsertUpdates(dense: DenseStore, before: seq<Attribute>, a: Attribute)
    requires Unique(before) && a.name != []
    ensures var i := dense.Find(before, dense.hash(a.name));
      Updated(before, if i < |before| then before[i := a] else before + [a], a) <==>
      (i < |before| ==> before[i].name == a.name)
  {
    hide Updated;
    var i := dense.Find(before, dense.hash(a.name));
    if i == |before| {
      assert before + [] == before && before + [a] + [] == before + [a];
      InsertUpdates(before, [], a);
    } else if before[i].name == a.name {
      ReplaceUpdates(before, i, a);
    } else {
      OverwriteLoses(before, i, a);
    }
  }

  /** Overwriting another name's attribute loses it. */
  lemma OverwriteLoses(before: seq<Attribute>, i: nat, a: Attribute)
    requires Unique(before) && i < |before| && before[i].name != a.name
    ensures !Updated(before, before[i := a], a)
  {
    var x, after := before[i], before[i := a];
    assert x in before;
    forall k | 0 <= k < |after| ensures after[k] != x {
      assert k != i ==> after[k] == before[k] && before[k].name != before[i].name;
    }
  }

  /** Two names with one hash: the second write takes the first attribute's place. */
  lemma CollidingNames(dense: DenseStore, x: Attribute, a: Attribute)
    requires x.name != [] && a.name != [] && x.name != a.name && dense.hash(x.name) == dense.hash(a.name)
    ensures dense.Find([x], dense.hash(a.name)) == 0 && [x][0 := a] == [a] && Unique([x]) && !Updated([x], [a], a)
  {
    OverwriteLoses([x], 0, a);
  }

  /** Nothing but `a` is new, and no name occurs twice. */
  ghost predicate GrownBy(before: seq<Attribute>, after: seq<Attribute>, a: Attribute)
  {
    Unique(after) && forall x | x in after :: x == a || x in before
  }

  lemma NewNameGrows(before: seq<Attribute>, after: seq<Attribute>, a: Attribute)
    requires Updated(before, after, a)
    ensures GrownBy(before, after, a)
  {
  }

  lemma UpsertGrows(dense: DenseStore, before: seq<Attribute>, a: Attribute)
    requires Unique(before) && a.name != []
    ensures var i := dense.Find(before, dense.hash(a.name));
      !HasName(before, a.name) ==> GrownBy(before, if i < |before| then before[i := a] else before + [a], a)
  {
    hide DenseStore.Find, Updated;
    var i := dense.Find(before, dense.hash(a.name));
    if !HasName(before, a.name) {
      if i < |before| {
        OverwriteGrows(before, i, a);
      } else {
        assert before + [] == before && before + [a] + [] == before + [a];
        InsertUpdates(before, [], a);
        NewNameGrows(before, before + [a], a);
      }
    }
  }

  lemma OverwriteGrows(before: seq<Attribute>, i: nat, a: Attribute)
    requires Unique(before) && i < |before| && a.name != [] && !HasName(before, a.name)
    ensures GrownBy(before, before[i := a], a)
  {
    var after := before[i := a];
    forall k | 0 <= k < |after| ensures after[k].name != [] && (after[k] == a || after[k] in before) {
      assert after[k] == if k == i then a else before[k];
    }
    forall j, k | 0 <= j < k < |after| ensures after[j].name != after[k].name {
      assert before[j].name != before[k].name && before[j].name != a.name && before[k].name != a.name;
    }
  }

  // ---- rewriting in place ----

  /** A header inside its region ends before the end of the file. */
  lemma HeaderInside(file: FileWriter, address: nat, alloc: nat, v: View)
    requires file.Valid() && Located(file.regions, address, alloc, v)
    ensures address + HeaderSize(v.main) <= address + alloc <= file.nextOffset
  {
    hide HeaderSize, BlockSize;
  }

  /** What a rewrite leaves behind: inside the region everything is readable, without blocks it is the map update, with
      blocks it is not; outside the region the same holds as long as the header runs into no block. */
  lemma RewriteShown(m: Mem, regions: map<nat, nat>, address: nat, alloc: nat, v: View, a: Attribute, k: nat, sum: Checksum)
    requires Shown(m, address, v, sum) && Located(regions, address, alloc, v) && AllApart(regions)
    requires Ready(v, alloc, a) && alloc < 0x8000_0000_0000_0000 && k < |v.All()| && IsNamed(v.All()[k], a.name)
    ensures var main := v.All()[k := AttrMessage(a)];
      var m', after := Store(m, address, HeaderBytes(0, main, sum)), View(main, v.blocks);
      && (Clear(address, HeaderSize(main), v.blocks) ==>
            Shown(m', address, after, sum) && NoInfo(main) &&
            (Updated(AttrsOf(v.All()), AttrsOf(after.All()), a) <==> v.blocks == []))
      && (HeaderSize(main) <= alloc ==> Untouched(m, m', regions - {address}) && Located(regions, address, alloc, after))
      && (v.blocks == [] ==> Compact(after, alloc) && Clear(address, HeaderSize(main), v.blocks))
      && (HeaderSize(main) <= alloc ==> Clear(address, HeaderSize(main), v.blocks))
      && (Broken(m', v.blocks) ==> ReadHeader(m', address, BUDGET).Err?)
  {
    hide Shown, Located, AllApart, Compact, Updated, AttrsOf, HeaderSize, HeaderBytes, Store, Untouched, IsNamed, AttrMessage, NoInfo,
         BlockPayload, RefsOf, Unique, AttributeBytes, Proper, OneAttributeEach, Broken, ReadHeader;
    var main := v.All()[k := AttrMessage(a)];
    BlockPayloadEmpty();
    if v.blocks == [] {
      assert v.All() == v.main && View(main, []) == View(main, v.blocks);
      ReplaceInline(v, alloc, a, k);
    } else {
      ReplaceRepeats(v, alloc, a, k);
      NotUnique(AttrsOf(v.All()), AttrsOf(View(main, v.blocks).All()), a);
    }
    CompactNoInfo(View(main, v.blocks), alloc);
    RewriteBytes(m, regions, address, alloc, v, a, k, sum);
  }

  lemma NotUnique(before: seq<Attribute>, after: seq<Attribute>, a: Attribute)
    requires !Unique(after)
    ensures !Updated(before, after, a)
  {
  }

  lemma CompactNoInfo(v: View, alloc: nat)
    ensures Compact(v, alloc) ==> NoInfo(v.main)
  {
  }

  lemma RewriteBytes(m: Mem, regions: map<nat, nat>, address: nat, alloc: nat, v: View, a: Attribute, k: nat, sum: Checksum)
    requires Shown(m, address, v, sum) && Located(regions, address, alloc, v) && AllApart(regions)
    requires Ready(v, alloc, a) && alloc < 0x8000_0000_0000_0000 && k < |v.All()|
    requires var main := v.All()[k := AttrMessage(a)]; Proper(main) && RefsOf(main) == RefsOf(v.main)
    ensures var main := v.All()[k := AttrMessage(a)];
      var m', after := Store(m, address, HeaderBytes(0, main, sum)), View(main, v.blocks);
      && (Clear(address, HeaderSize(main), v.blocks) ==> Shown(m', address, after, sum))
      && (Broken(m', v.blocks) ==> ReadHeader(m', address, BUDGET).Err?)
      && (HeaderSize(main) <= alloc ==> Clear(address, HeaderSize(main), v.blocks))
      && (HeaderSize(main) <= alloc ==> Untouched(m, m', regions - {address}) && Located(regions, address, alloc, after))
  {
    hide AllApart, AttrsOf, HeaderSize, HeaderBytes, Store, Untouched, BlockPayload, RefsOf, Unique, AttributeBytes, Proper,
         OneAttributeEach, Holds, BlockHeld, RefersTo, BlockSize, Readable, Room, Counted, MessagesBytes, NoInfo,
         Clear, Broken, ReadHeader;
    var main := v.All()[k := AttrMessage(a)];
    RewrittenSize(v, alloc, AttrMessage(a), k);
    StoreHolds(m, address, HeaderBytes(0, main, sum));
    if Clear(address, HeaderSize(main), v.blocks) {
      ClearShown(m, address, v, main, sum);
    }
    if HeaderSize(main) <= alloc {
      InsideClear(regions, address, alloc, v, HeaderSize(main));
      MainRewritten(m, regions, address, alloc, v, main, sum);
    }
    if Broken(Store(m, address, HeaderBytes(0, main, sum)), v.blocks) {
      BrokenUnreadable(Store(m, address, HeaderBytes(0, main, sum)), address, main, v.blocks, sum, BUDGET);
    }
  }

  /** Whatever else the file holds, the write of a header stays inside `alloc` bytes if and only if the header fits. */
  lemma StaysInside(address: nat, alloc: nat, main: seq<Message>, sum: Checksum)
    ensures (forall m: Mem :: Confined(m, Store(m, address, HeaderBytes(0, main, sum)), address, alloc)) <==> HeaderSize(main) <= alloc
  {
    hide HeaderBytes, HeaderSize, Store;
    if HeaderSize(main) <= alloc {
      forall m: Mem ensures Confined(m, Store(m, address, HeaderBytes(0, main, sum)), address, alloc) {
      }
    } else {
      assert address + alloc in Store(map[], address, HeaderBytes(0, main, sum));
      assert !Confined(map[], Store(map[], address, HeaderBytes(0, main, sum)), address, alloc);
    }
  }

  /** Only bytes from `at` to `at + n` differ. */
  ghost predicate Confined(m: Mem, m': Mem, at: nat, n: nat)
  {
    forall i: nat | i < at || at + n <= i :: (i in m <==> i in m') && (i in m ==> m[i] == m'[i])
  }

  /** A group header of 256 bytes with one small attribute, and a longer value for it that does not fit. */
  lemma LongerValueOutgrows(structure: Message) returns (main: seq<Message>, a: Attribute)
    requires structure.type_ == SYMBOL_TABLE && |structure.data| == 16
    ensures |main| == 3 && main[0] == structure && main[2].type_ == NIL && HeaderSize(main) == 256
    ensures IsNamed(main[1], a.name) && AttributeCodec.Fits(a) && HeaderSize(main[1 := AttrMessage(a)]) > 256
  {
    hide MessageBytes, MessagesBytes, ParsedAttribute;
    var small := Attribute([97], [], [], Zeros(8));
    a := Attribute([97], [], [], Zeros(300));
    AttributeParsesBack(small);
    var one, pad := AttrMessage(small), Message(NIL, Zeros(198));
    main := [structure, one, pad];
    MessagesThree(structure, one, pad);
    MessagesThree(structure, AttrMessage(a), pad);
    assert main[1 := AttrMessage(a)] == [structure, AttrMessage(a), pad];
  }

  lemma MessagesThree(p: Message, q: Message, r: Message)
    ensures |MessagesBytes([p, q, r])| == |MessageBytes(p)| + |MessageBytes(q)| + |MessageBytes(r)|
  {
    hide MessageBytes, MessagesBytes;
    assert [p, q, r] == [p] + [q] + [r];
    MessagesAppend([p] + [q], [r]);
    MessagesAppend([p], [q]);
    MessagesOne(p);
    MessagesOne(q);
    MessagesOne(r);
  }

  // ---- whole sessions ----

  /** The object-header part of CreateGroup: a symbol-table message, padded to 256 bytes. */
  method CreateGroup(file: FileWriter, dense: DenseStore, btreeAddr: u64, heapAddr: u64, sum: Checksum) returns (g: GroupWriter?)
    requires file.Valid()
    modifies file
    ensures file.Valid() && file.refusals == old(file.refusals) + if g == null then 1 else 0
    ensures g != null ==> fresh(g) && g.Valid() && g.Attributes() == [] && g.info == None && g.file == file && g.dense == dense
    ensures g != null ==> g.headerAllocSz == 256 && g.view.blocks == []
    ensures g != null ==> NonNil(g.view.main) == [Message(17, LE(btreeAddr, 8) + LE(heapAddr, 8))]
  {
    hide Shown, Located, Compact, FileWriter.Valid, Store, HeaderBytes, LE, MessagesBytes, HeaderSize;
    var structure := Message(SYMBOL_TABLE, LE(btreeAddr, 8) + LE(heapAddr, 8));
    var w := new ObjectHeaderWriter(0, [structure]);
    OneMessageSize(structure);
    w.PadToSize(MIN_OHDR_ALLOC);
    var size := w.Size();
    var reserved := file.Allocate(size);
    if reserved.Err? {
      return null;
    }
    var written := w.WriteTo(file, reserved.value, sum);
    StoreHolds(old(file.mem), reserved.value, HeaderBytes(0, w.messages, sum));
    PaddedHeader(file.mem, file.regions, reserved.value, structure, w.messages, sum);
    g := new GroupWriter(file, dense, reserved.value, size, sum, w.messages);
  }

  lemma OneMessageSize(m: Message)
    requires |m.data| == 16
    ensures HeaderSize([m]) == 31
  {
    hide MessageBytes;
    MessagesOne(m);
  }

  /** A padded new header starts compact, without attributes, and with room for the move to dense storage. */
  lemma PaddedHeader(m: Mem, regions: map<nat, nat>, address: nat, structure: Message, main: seq<Message>, sum: Checksum)
    requires structure.type_ == SYMBOL_TABLE && |structure.data| == 16
    requires exists pad: seq<byte> :: pad != [] && main == [structure] + [Message(NIL, pad)]
    requires HeaderSize(main) == 256 && address in regions && regions[address] == 256
    requires Holds(m, address, HeaderBytes(0, main, sum))
    ensures Shown(m, address, View(main, []), sum) && Located(regions, address, 256, View(main, []))
    ensures Compact(View(main, []), 256) && AttrsOf(main) == [] && NonNil(main) == [structure]
  {
    hide Holds, HeaderBytes, LE, AttrsOf, RefsOf, Structural, Counted, MessagesBytes, Readable;
    var pad: seq<byte> :| pad != [] && main == [structure] + [Message(NIL, pad)];
    BlockPayloadEmpty();
    assert View(main, []).All() == main;
    PaddedSize(structure, Message(NIL, pad));
    PaddedParts(structure, Message(NIL, pad));
  }

  lemma PaddedSize(structure: Message, padding: Message)
    requires structure.type_ == SYMBOL_TABLE && |structure.data| == 16 && padding.type_ == NIL
    requires HeaderSize([structure] + [padding]) == 256
    ensures |padding.data| < 256 && Room([structure] + [padding], 256)
  {
    hide MessageBytes, MessagesBytes, InfoBytes, Structural;
    MessagesAppend([structure], [padding]);
    MessagesOne(structure);
    MessagesOne(padding);
    FiltersAppend([structure], [padding]);
    FiltersOne(structure);
    FiltersOne(padding);
    var info := InfoMessage(Info(0, 0));
    MessagesAppend([structure], [info]);
    MessagesOne(info);
  }

  lemma PaddedParts(structure: Message, padding: Message)
    requires structure.type_ == SYMBOL_TABLE && padding.type_ == NIL
    ensures var main := [structure] + [padding];
      && AttrsOf(main) == [] && RefsOf(main) == [] && Counted(main) == 0 && Readable(main) && NoInfo(main)
      && NonNil(main) == [structure]
  {
    hide AttrsOf, RefsOf, Counted, NonNil, Structural;
    FiltersAppend([structure], [padding]);
    FiltersOne(structure);
    FiltersOne(padding);
    AttrsAppend([structure], [padding]);
    NotAttribute(structure);
    NotAttribute(padding);
    RefsAppend([structure], [padding]);
    NoReference(structure);
    NoReference(padding);
    CountedAppend([structure], [padding]);
    CountedOne(structure);
    CountedOne(padding);
  }

  /** Distinct, non-empty names, each attribute short enough for its message. */
  ghost predicate Writable(attrs: seq<Attribute>)
  {
    Unique(attrs) && forall i | 0 <= i < |attrs| :: |AttributeBytes(attrs[i])| < 0x1_0000
  }

  ghost predicate DistinctHashes(attrs: seq<Attribute>, hash: seq<byte> -> u32)
  {
    forall i, j | 0 <= i < j < |attrs| :: hash(attrs[i].name) != hash(attrs[j].name)
  }

  /** The attributes whose write succeeded. */
  function Chosen(attrs: seq<Attribute>, written: seq<bool>): seq<Attribute>
    requires |written| <= |attrs|
  {
    if written == [] then []
    else
      var n := |written| - 1;
      Chosen(attrs, written[..n]) + if written[n] then [attrs[n]] else []
  }

  /** How full a group's header of 256 bytes is: the bytes of its messages without padding, the attributes in it and
      in its blocks, and whether they have moved to dense storage. */
  datatype Filling = Filling(used: nat, count: nat, dense: bool) {
    /** One more attribute, of `n` bytes.  A message takes 4 bytes more than its data, a reference to a block 20, and
        245 bytes are left for messages. */
    function Next(n: nat): Filling {
      if dense || count >= 8 then this.(dense := true)
      else if used + 4 + n <= 245 then Filling(used + 4 + n, count + 1, false)
      else if used + 20 <= 245 then Filling(used + 20, count + 1, false)
      else this.(dense := true)
    }
  }

  /** After the writes that succeeded; at first there is only the symbol-table message. */
  function FillingAfter(attrs: seq<Attribute>, written: seq<bool>): Filling
    requires |written| <= |attrs|
  {
    if written == [] then Filling(20, 0, false)
    else
      var n := |written| - 1;
      var before := FillingAfter(attrs, written[..n]);
      if written[n] then before.Next(|AttributeBytes(attrs[n])|) else before
  }

  lemma FillingNext(attrs: seq<Attribute>, written: seq<bool>, ok: bool)
    requires |written| < |attrs|
    ensures var f := FillingAfter(attrs, written);
      FillingAfter(attrs, written + [ok]) == if ok then f.Next(|AttributeBytes(attrs[|written|])|) else f
  {
    hide AttributeBytes;
    assert (written + [ok])[..|written|] == written;
  }

  /** The bytes of the attributes as messages. */
  function TotalBytes(attrs: seq<Attribute>): nat
  {
    if attrs == [] then 0 else TotalBytes(attrs[..|attrs| - 1]) + 4 + |AttributeBytes(attrs[|attrs| - 1])|
  }

  /** The ninth attribute always moves the group to dense storage; eight that fit together never do. */
  lemma {:induction false} FillingBounds(attrs: seq<Attribute>, written: seq<bool>)
    requires |written| <= |attrs|
    ensures var f, c := FillingAfter(attrs, written), Chosen(attrs, written);
      && (|c| > 8 ==> f.dense) && (!f.dense ==> f.count == |c|)
      && (|c| <= 8 && 20 + TotalBytes(c) <= 245 ==> !f.dense && f.used == 20 + TotalBytes(c))
  {
    hide AttributeBytes;
    if written != [] {
      var n := |written| - 1;
      FillingBounds(attrs, written[..n]);
      var c := Chosen(attrs, written[..n]);
      assert (c + [attrs[n]])[..|c|] == c;
      assert c + [] == c;
    }
  }

  /** What fits the header of 256 bytes, and how full a write leaves it. */
  lemma FillingStep(before: View, after: View, a: Attribute)
    ensures var used := |MessagesBytes(NonNil(before.main))|;
      && (FitsInline(before, 256, a) <==> used + 4 + |AttributeBytes(a)| <= 245)
      && (FitsReference(before, 256) <==> used + 20 <= 245)
      && (Inline(before, after, a) ==> |MessagesBytes(NonNil(after.main))| == used + 4 + |AttributeBytes(a)|)
      && (InBlock(before, after, a) ==> |MessagesBytes(NonNil(after.main))| == used + 20)
  {
    hide AttributeBytes, MessagesBytes, NonNil, Structural;
    OneMore(before.main, Message(12, AttributeBytes(a)));
    OneMore(before.main, Message(16, Zeros(16)));
    if InBlock(before, after, a) {
      OneMore(before.main, after.main[|after.main| - 1]);
    }
  }

  lemma OneMore(main: seq<Message>, m: Message)
    requires m.type_ != NIL
    ensures |MessagesBytes(NonNil(main) + [m])| == |MessagesBytes(NonNil(main))| + 4 + |m.data|
    ensures NonNil(NonNil(main) + [m]) == NonNil(main) + [m]
  {
    hide MessagesBytes, NonNil, Structural, AttrsOf, RefsOf;
    MessagesAppend(NonNil(main), [m]);
    MessagesOne(m);
    NonNilKeeps(main);
    FiltersAppend(NonNil(main), [m]);
    FiltersOne(m);
  }

  /** The filling describes an object with these messages and attributes. */
  ghost predicate Describes(f: Filling, v: View, info: Option<Info>, attrs: seq<Attribute>)
  {
    && (f.dense <==> info.Some?)
    && (!f.dense ==> f.used == |MessagesBytes(NonNil(v.main))| && f.count == |attrs|)
  }

  lemma StepDescribed(f: Filling, v: View, info: Option<Info>, attrs: seq<Attribute>, a: Attribute, ok: bool,
                      v': View, info': Option<Info>, attrs': seq<Attribute>)
    requires Describes(f, v, info, attrs) && !HasName(attrs, a.name)
    requires !ok ==> v' == v && attrs' == attrs
    requires !ok || info.Some? ==> info' == info
    requires ok && info.None? ==> Updated(attrs, attrs', a)
    requires ok && info.None? ==> (info'.Some? <==> |attrs| >= 8 || (!FitsInline(v, 256, a) && !FitsReference(v, 256)))
    requires ok && info.None? && info'.None? ==> if FitsInline(v, 256, a) then Inline(v, v', a) else InBlock(v, v', a)
    ensures Describes(if ok then f.Next(|AttributeBytes(a)|) else f, v', info', attrs')
  {
    hide MessagesBytes, NonNil, AttributeBytes, Unique, HasName, FitsInline, FitsReference, Inline, InBlock;
    FillingStep(v, v', a);
  }

  /** Exactly the attributes written are there. */
  ghost predicate Holding(found: seq<Attribute>, attrs: seq<Attribute>, written: seq<bool>)
    requires |written| <= |attrs|
  {
    |found| == |Chosen(attrs, written)| && forall x: Attribute :: x in found <==> x in Chosen(attrs, written)
  }

  /** Creates a group and writes new attributes to it, going on after a failure.  What is read back is exactly what was
      written, wherever each attribute ended up; only once storage is dense does this need distinct hashes.  A write
      only fails for want of space. */
  method Session(file: FileWriter, dense: DenseStore, btreeAddr: u64, heapAddr: u64, sum: Checksum, attrs: seq<Attribute>)
    returns (found: seq<Attribute>, written: seq<bool>, moved: bool)
    requires file.Valid() && Writable(attrs)
    modifies file, dense
    ensures |written| == |attrs| && Unique(found)
    ensures !moved || DistinctHashes(attrs, dense.hash) ==> Holding(found, attrs, written)
    ensures moved <==> FillingAfter(attrs, written).dense
    ensures |Chosen(attrs, written)| > 8 ==> moved
    ensures |Chosen(attrs, written)| <= 8 && TotalBytes(Chosen(attrs, written)) <= 225 ==> !moved
    ensures (forall k | 0 <= k < |written| :: written[k]) || file.refusals > old(file.refusals) || dense.failures > old(dense.failures)
  {
    hide Unique, FileWriter.Valid, Writable, Holding, GroupWriter.OnDisk, GroupWriter.InForm, GroupWriter.Shows, GroupWriter.Outgrows,
         GroupWriter.Repeats, GroupWriter.Clashes, GroupWriter.Overruns, DistinctHashes, AttributeBytes, Extends, GrownBy, Broken, ReadHeader,
         MessagesBytes, MessageBytes, FillingAfter, Chosen, Among, Updated, HasName, AttributesOf, Filling.Next, TotalBytes, FitsInline, FitsReference, Inline, InBlock, Emptied, LE, NonNil;
    NothingHeld(attrs);
    found, written, moved := [], seq(|attrs|, _ => false), false;
    var g := CreateGroup(file, dense, btreeAddr, heapAddr, sum);
    if g == null {
      NoneWritten(attrs, written);
      return;
    }
    written := [];
    NoneWritten(attrs, written);
    MessagesOne(Message(17, LE(btreeAddr, 8) + LE(heapAddr, 8)));
    while |written| < |attrs|
      invariant |written| <= |attrs| && g.Valid() && g.file == file && g.dense == dense && fresh(g)
      invariant Unique(g.Attributes()) && Among(g.Attributes(), attrs, |written|)
      invariant g.info.None? || DistinctHashes(attrs, dense.hash) ==> Holding(g.Attributes(), attrs, written)
      invariant g.headerAllocSz == 256 && Describes(FillingAfter(attrs, written), g.view, g.info, g.Attributes())
      invariant (forall k | 0 <= k < |written| :: written[k]) || file.refusals > old(file.refusals) || dense.failures > old(dense.failures)
      invariant old(file.refusals) <= file.refusals && old(dense.failures) <= dense.failures
    {
      ghost var before, view, info := g.Attributes(), g.view, g.info;
      var n := |written|;
      NextIsNew(g, attrs, n);
      var ok := g.WriteAttribute(attrs[n]);
      HeldStep(before, g.Attributes(), attrs, written, ok);
      StepDescribed(FillingAfter(attrs, written), view, info, before, attrs[n], ok, g.view, g.info, g.Attributes());
      FillingNext(attrs, written, ok);
      written := written + [ok];
    }
    FillingBounds(attrs, written);
    g.ValidShows();
    moved := g.IsDense();
    found := g.ReadAttributes();
  }

  /** All attributes are among the first `n`. */
  ghost predicate Among(found: seq<Attribute>, attrs: seq<Attribute>, n: nat)
  {
    n <= |attrs| && forall x | x in found :: x in attrs[..n]
  }

  lemma NothingHeld(attrs: seq<Attribute>)
    ensures Holding([], attrs, []) && Unique([]) && Among([], attrs, 0)
  {
  }

  lemma {:induction false} NoneWritten(attrs: seq<Attribute>, written: seq<bool>)
    requires |written| <= |attrs| && forall k | 0 <= k < |written| :: !written[k]
    ensures Holding([], attrs, written) && Chosen(attrs, written) == [] && FillingAfter(attrs, written) == Filling(20, 0, false)
  {
    if written != [] {
      NoneWritten(attrs, written[..|written| - 1]);
    }
  }

  /** The next attribute has a fresh name; with distinct hashes it meets no other record. */
  lemma NextIsNew(g: GroupWriter, attrs: seq<Attribute>, n: nat)
    requires Writable(attrs) && n < |attrs| && Among(g.Attributes(), attrs, n) && g.Valid()
    ensures var a := attrs[n];
      && |AttributeBytes(a)| < 0x1_0000 && a.name != [] && !HasName(g.Attributes(), a.name)
      && !g.Outgrows(a) && !g.Repeats(a) && !g.Overruns(a)
      && (g.info.None? || DistinctHashes(attrs, g.dense.hash) ==> !g.Clashes(a))
  {
    hide AttributeBytes, AttributesOf, FileWriter.Valid, Shown, Located, Compact, DenseStore.Find, HeaderSize, Counted, AttrsOf, FirstNamed,
         InfoOf, NoInfo;
    var a := attrs[n];
    forall i | 0 <= i < |g.Attributes()| ensures g.Attributes()[i].name != a.name {
      assert g.Attributes()[i] in attrs[..n];
    }
    match g.info
    case None => CompactAttributes(g.view, g.dense.stores);
    case Some(info) =>
      DenseAttributes(g.view, info, g.dense.stores);
      var before := g.dense.stores[info.heap as nat];
      var i := g.dense.Find(before, g.dense.hash(a.name));
      if i < |before| {
        assert before[i] in attrs[..n];
        var j :| 0 <= j < n && attrs[j] == before[i];
        assert g.dense.hash(attrs[j].name) == g.dense.hash(a.name);
      }
  }

  lemma HeldStep(before: seq<Attribute>, after: seq<Attribute>, attrs: seq<Attribute>, written: seq<bool>, ok: bool)
    requires |written| < |attrs| && Unique(before) && Among(before, attrs, |written|) && !HasName(before, attrs[|written|].name)
    requires if ok then GrownBy(before, after, attrs[|written|]) else after == before
    ensures Unique(after) && Among(after, attrs, |written| + 1)
    ensures Holding(before, attrs, written) && (ok ==> Updated(before, after, attrs[|written|])) ==> Holding(after, attrs, written + [ok])
  {
    var n := |written|;
    assert attrs[..n + 1] == attrs[..n] + [attrs[n]];
    assert (written + [ok])[..n] == written;
    if Holding(before, attrs, written) && (ok ==> Updated(before, after, attrs[n])) {
      forall x: Attribute ensures x in after <==> x in Chosen(attrs, written + [ok]) {
        if x in before {
          var k :| 0 <= k < |before| && before[k] == x;
        }
      }
    }
  }
}
