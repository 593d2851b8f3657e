/** Reading global heap collections (internal/core/globalheap.go) and the guarantee over whole sessions:
    every ID ever returned resolves to the bytes stored under it. */
module GlobalHeapReader {
  import opened Bytes
  import opened Storage
  import opened GlobalHeap

  datatype Found = Found(index: nat, nrefs: u16, data: seq<byte>)

  const MAX_INT: nat := 0x7FFF_FFFF_FFFF_FFFF

  /** The objects from `offset` on; index 0 marks free space, and too little room for a header ends the scan. */
  function ObjectsFrom(data: seq<byte>, offset: nat): Result<seq<Found>>
    decreases |data| - offset
  {
    if offset + 16 > |data| then Ok([])
    else
      var index, nrefs, size := U16At(data, offset), U16At(data, offset + 2), U64At(data, offset + 8);
      if size > MAX_INT then Err
      else if index == 0 then ObjectsFrom(data, offset + 16 + Align8(size))
      else if offset + 16 + size > |data| then Err
      else Prepend([Found(index, nrefs, data[offset + 16..offset + 16 + size])],
             ObjectsFrom(data, offset + 16 + Align8(size)))
  }

  /** ReadGlobalHeapCollection for 8-byte offsets. */
  function CollectionAt(m: Mem, at: nat): Result<seq<Found>>
  {
    match Load(m, at, 16)
    case None => Err
    case Some(header) =>
      if header[0..4] != SIGNATURE || header[4] != 1 || U64At(header, 8) < 16 then Err
      else
        match Load(m, at, U64At(header, 8))
        case None => Err
        case Some(data) => ObjectsFrom(data, 16)
  }

  method ReadGlobalHeapCollection(m: Mem, at: nat) returns (r: Result<seq<Found>>)
    ensures r == CollectionAt(m, at)
  {
    hide U16At, U64At;
    var loaded := Load(m, at, 16);
    if loaded.None? {
      return Err;
    }
    var header := loaded.value;
    if header[0..4] != SIGNATURE {
      return Err;
    }
    if header[4] != 1 {
      return Err;
    }
    var size := U64At(header, 8);
    if size < 16 {
      return Err;
    }
    var body := Load(m, at, size);
    if body.None? {
      return Err;
    }
    r := ScanObjects(body.value);
  }

  /** The scan loop of ReadGlobalHeapCollection, on any bytes. */
  method ScanObjects(data: seq<byte>) returns (r: Result<seq<Found>>)
    ensures r == ObjectsFrom(data, 16)
  {
    hide U16At, U64At, Align8, Prepend;
    var objects: seq<Found> := [];
    var offset: nat := 16;
    PrependLaws(objects, objects, ObjectsFrom(data, 16));
    while offset < |data|
      invariant ObjectsFrom(data, 16) == Prepend(objects, ObjectsFrom(data, offset))
    {
      if offset + 16 > |data| {
        break;
      }
      var index, nrefs, size := U16At(data, offset), U16At(data, offset + 2), U64At(data, offset + 8);
      if size > MAX_INT {
        PrependErr(objects);
        return Err;
      }
      if index == 0 {
        offset := offset + 16 + Align8(size);
        continue;
      }
      if offset + 16 + size > |data| {
        PrependErr(objects);
        return Err;
      }
      var found := Found(index, nrefs, data[offset + 16..offset + 16 + size]);
      PrependLaws(objects, [found], ObjectsFrom(data, offset + 16 + Align8(size)));
      objects := objects + [found];
      offset := offset + 16 + Align8(size);
    }
    PrependEnd(objects);
    r := Ok(objects);
  }

  /** The first object with the index. */
  function Lookup(objects: seq<Found>, index: u32): Result<seq<byte>>
  {
    if objects == [] then Err
    else if objects[0].index == index then Ok(objects[0].data)
    else Lookup(objects[1..], index)
  }

  method GetObject(objects: seq<Found>, index: u32) returns (r: Result<seq<byte>>)
    ensures r == Lookup(objects, index)
  {
    var i := 0;
    while i < |objects|
      invariant i <= |objects| && Lookup(objects, index) == Lookup(objects[i..], index)
    {
      if objects[i].index == index {
        return Ok(objects[i].data);
      }
      i := i + 1;
    }
    r := Err;
  }

  datatype Reference = Reference(address: u64, index: u32)

  function ParseReference(data: seq<byte>): Result<Reference>
  {
    if |data| < 12 then Err else Ok(Reference(U64At(data, 0), U32At(data, 8)))
  }

  /** What a reader of a variable-length value does with its 16 stored bytes; address 0 means an empty value. */
  function Resolved(m: Mem, stored: seq<byte>): Result<seq<byte>>
  {
    if |stored| < 16 then Err
    else
      match ParseReference(stored[4..])
      case Err => Err
      case Ok(ref) =>
        if ref.address == 0 then Ok([])
        else
          match CollectionAt(m, ref.address)
          case Err => Err
          case Ok(objects) => Lookup(objects, ref.index)
  }

  method Resolve(m: Mem, stored: seq<byte>) returns (r: Result<seq<byte>>)
    ensures r == Resolved(m, stored)
  {
    hide CollectionAt, U64At, U32At;
    if |stored| < 16 {
      return Err;
    }
    var ref := ParseReference(stored[4..]);
    if ref.Err? {
      return Err;
    }
    if ref.value.address == 0 {
      return Ok([]);
    }
    var objects := ReadGlobalHeapCollection(m, ref.value.address);
    if objects.Err? {
      return Err;
    }
    r := GetObject(objects.value, ref.value.index);
  }

  /** The bytes without the zeros at their end. */
  function Trimmed(s: seq<byte>): (t: seq<byte>)
    ensures t <= s && (t != [] ==> t[|t| - 1] != 0) && forall i | |t| <= i < |s| :: s[i] == 0
  {
    if s == [] || s[|s| - 1] != 0 then s else Trimmed(s[..|s| - 1])
  }

  /** Trimming loses nothing exactly when there is no zero at the end. */
  lemma TrimmedExact(s: seq<byte>)
    ensures Trimmed(s) == s <==> s == [] || s[|s| - 1] != 0
  {
    if Trimmed(s) == s && s != [] {
      assert Trimmed(s)[|s| - 1] != 0;
    }
  }

  function ReadString(m: Mem, stored: seq<byte>): Result<seq<byte>>
  {
    match Resolved(m, stored)
    case Err => Err
    case Ok(data) => Ok(Trimmed(data))
  }

  /** readVariableLengthString. */
  method ReadVariableLengthString(m: Mem, stored: seq<byte>) returns (r: Result<seq<byte>>)
    ensures r == ReadString(m, stored)
  {
    hide Resolved;
    r := Resolve(m, stored);
    if r.Err? {
      return;
    }
    var str := r.value;
    while str != [] && str[|str| - 1] == 0
      invariant Trimmed(str) == Trimmed(r.value)
    {
      str := str[..|str| - 1];
    }
    r := Ok(str);
  }

  /** Fewer than 16 stored bytes are refused; eight zeros behind the first four bytes stand for the empty value,
      whatever the file holds; any other address has to be that of a collection. */
  lemma NullReference(m: Mem, stored: seq<byte>)
    ensures |stored| < 16 ==> Resolved(m, stored) == Err && ReadString(m, stored) == Err
    ensures |stored| >= 16 && (forall i | 4 <= i < 12 :: stored[i] == 0) ==>
      Resolved(m, stored) == Ok([]) && ReadString(m, stored) == Ok([])
    ensures |stored| >= 16 && Resolved(m, stored).Ok? && (exists i | 4 <= i < 12 :: stored[i] != 0) ==>
      CollectionAt(m, U64At(stored, 4)).Ok?
  {
    hide CollectionAt, FromLE, Lookup;
    if |stored| >= 16 {
      var address := stored[4..12];
      assert stored[4..][0..8] == address;
      ZeroValue(address);
      assert forall i | 4 <= i < 12 :: stored[i] == address[i - 4];
    }
  }

  // ---- reading inverts packing ----

  /** A stored reference is a length in 4 bytes, an address in 8 and an index in 4, and is read as that. */
  lemma ReferenceParsesBack(id: HeapID)
    ensures ParseReference(id.Encode()[4..]) == Ok(Reference(id.address, id.index))
    ensures id.Encode() == LE(id.seqLen, 4) + LE(id.address, 8) + LE(id.index, 4)
  {
    hide LE, FromLE;
    var data := id.Encode()[4..];
    assert data == LE(id.address, 8) + LE(id.index, 4);
    assert data[0..8] == LE(id.address, 8);
    assert data[8..12] == LE(id.index, 4);
    RoundTrip64(id.address);
    RoundTrip32(id.index);
  }

  lemma HeaderParsesBack(index: u16, n: u64)
    ensures var h := ObjectHeader(index, n); U16At(h, 0) == index && U16At(h, 2) == 0 && U64At(h, 8) == n
  {
    hide LE, FromLE;
    var h := ObjectHeader(index, n);
    assert h[0..2] == LE(index, 2) && h[2..4] == LE(0, 2) && h[8..16] == LE(n, 8);
    RoundTrip16(index);
    RoundTrip16(0);
    RoundTrip64(n);
  }

  /** The fields of an object header found anywhere in a buffer. */
  lemma HeaderAt(data: seq<byte>, offset: nat, index: u16, n: u64)
    requires offset + 16 <= |data| && data[offset..offset + 16] == ObjectHeader(index, n)
    ensures U16At(data, offset) == index && U16At(data, offset + 2) == 0 && U64At(data, offset + 8) == n
  {
    hide LE, FromLE, ObjectHeader;
    var h := ObjectHeader(index, n);
    HeaderParsesBack(index, n);
    SubRange(data, offset, h, 0, 2);
    SubRange(data, offset, h, 2, 2);
    SubRange(data, offset, h, 8, 8);
  }

  /** The image of a collection: "GCOL", version 1, three zeros, the size in 8 bytes; then each object: index in 2
      bytes, six zeros, length in 8 bytes, data, zeros up to a multiple of 8. */
  lemma ImageLaid(contents: seq<seq<byte>>, size: nat, k: nat)
    requires Fits(contents, size) && k < |contents|
    ensures var image, at, n := Image(contents, size), 16 + |Packed(contents[..k])|, |contents[k]|;
      && |image| == size && image[..16] == [71, 67, 79, 76, 1, 0, 0, 0] + LE(size, 8)
      && at % 8 == 0 && at + ObjectSize(n) <= size && (k == 0 ==> at == 16)
      && 16 + |Packed(contents[..k + 1])| == at + ObjectSize(n) && n <= ObjectSize(n) - 16 < n + 8
      && image[at..at + ObjectSize(n)] == LE(k + 1, 2) + Zeros(6) + LE(n, 8) + contents[k] + Zeros(ObjectSize(n) - 16 - n)
  {
    hide LE, Packed, FreeBytes, ObjectBytes;
    ObjectInImage(contents, size, k);
    PackedAligned(contents[..k]);
    PackedEmpty(contents);
    ObjectLaid(k + 1, contents[k]);
  }

  lemma ObjectLaid(index: u16, data: seq<byte>)
    ensures var n := |data|;
      ObjectBytes(index, data) == LE(index, 2) + Zeros(6) + LE(n, 8) + data + Zeros(ObjectSize(n) - 16 - n)
  {
    assert LE(0, 2) == [0] + LE(0, 1) == [0, 0] + LE(0, 0);
    assert LE(0, 2) + Zeros(4) == Zeros(6);
    hide LE;
    assert LE(index, 2) + LE(0, 2) + Zeros(4) == LE(index, 2) + (LE(0, 2) + Zeros(4));
  }

  lemma ObjectParsesBack(data: seq<byte>, offset: nat, index: u16, payload: seq<byte>)
    requires index > 0 && |payload| <= MAX_INT && offset + ObjectSize(|payload|) <= |data|
    requires data[offset..offset + ObjectSize(|payload|)] == ObjectBytes(index, payload)
    ensures ObjectsFrom(data, offset) == Prepend([Found(index, 0, payload)], ObjectsFrom(data, offset + ObjectSize(|payload|)))
  {
    hide ObjectHeader, U16At, U64At, Prepend;
    var bytes := ObjectBytes(index, payload);
    SubRange(data, offset, bytes, 0, 16);
    SubRange(data, offset, bytes, 16, |payload|);
    assert bytes[0..16] == ObjectHeader(index, |payload|) && bytes[16..16 + |payload|] == payload;
    HeaderAt(data, offset, index, |payload|);
  }

  /** The free tail holds no objects; its marker, when there is room for one, reaches exactly the end. */
  lemma TailParsesBack(data: seq<byte>, offset: nat, free: nat)
    requires |data| == offset + free && data[offset..] == FreeBytes(free) && free % 8 == 0 && free <= MAX_INT
    ensures ObjectsFrom(data, offset) == Ok([])
    ensures free >= 16 ==> U16At(data, offset) == 0 && offset + U64At(data, offset + 8) == |data|
  {
    hide ObjectHeader, U16At, U64At;
    if free >= 16 {
      assert data[offset..offset + 16] == FreeBytes(free)[..16];
      HeaderAt(data, offset, 0, free);
    }
  }

  function Objects(contents: seq<seq<byte>>): (found: seq<Found>)
    ensures |found| == |contents| && forall i | 0 <= i < |found| :: found[i] == Found(i + 1, 0, contents[i])
  {
    seq(|contents|, i requires 0 <= i < |contents| => Found(i + 1, 0, contents[i]))
  }

  /** From object `k` on, the scan finds exactly the objects from `k` on. */
  lemma {:induction false} ScanFrom(contents: seq<seq<byte>>, size: nat, k: nat)
    requires Fits(contents, size) && k <= |contents|
    ensures ObjectsFrom(Image(contents, size), 16 + |Packed(contents[..k])|) == Ok(Objects(contents)[k..])
    decreases |contents| - k
  {
    hide Packed, ObjectsFrom, ObjectBytes, FreeBytes, HeaderBytes;
    var image, offset := Image(contents, size), 16 + |Packed(contents[..k])|;
    if k == |contents| {
      assert contents[..k] == contents;
      PackedAligned(contents);
      assert image[offset..] == FreeBytes(size - offset);
      TailParsesBack(image, offset, size - offset);
      assert Objects(contents)[k..] == [];
    } else {
      ObjectInImage(contents, size, k);
      ObjectParsesBack(image, offset, k + 1, contents[k]);
      ScanFrom(contents, size, k + 1);
      assert Objects(contents)[k..] == [Found(k + 1, 0, contents[k])] + Objects(contents)[k + 1..];
    }
  }

  /** A collection cut off inside the data of one of its objects is refused. */
  lemma {:induction false} CutRefused(contents: seq<seq<byte>>, size: nat, i: nat, j: nat, k: nat)
    requires Fits(contents, size) && i <= j < |contents|
    requires 16 + |Packed(contents[..j])| + 16 <= k < 16 + |Packed(contents[..j])| + 16 + |contents[j]|
    ensures k <= size && 16 + |Packed(contents[..i])| <= k
    ensures ObjectsFrom(Image(contents, size)[..k], 16 + |Packed(contents[..i])|) == Err
    decreases j - i
  {
    hide Packed, ObjectsFrom, ObjectBytes, FreeBytes, HeaderBytes;
    ObjectInImage(contents, size, j);
    ObjectInImage(contents, size, i);
    var image, offset, n := Image(contents, size), 16 + |Packed(contents[..i])|, ObjectSize(|contents[i]|);
    if i < j {
      CutRefused(contents, size, i + 1, j, k);
      CutObject(image, offset, offset + n, k);
      ObjectParsesBack(image[..k], offset, i + 1, contents[i]);
    } else {
      HeaderOfObject(image, offset, i + 1, contents[i]);
      CutObject(image, offset, offset + 16, k);
      OverrunRefused(image[..k], offset, i + 1, |contents[i]|);
    }
  }

  lemma CutObject(s: seq<byte>, from: nat, to: nat, k: nat)
    requires from <= to <= k <= |s|
    ensures s[..k][from..to] == s[from..to]
  {
  }

  lemma HeaderOfObject(data: seq<byte>, offset: nat, index: u16, payload: seq<byte>)
    requires |payload| <= MAX_INT && offset + ObjectSize(|payload|) <= |data|
    requires data[offset..offset + ObjectSize(|payload|)] == ObjectBytes(index, payload)
    ensures data[offset..offset + 16] == ObjectHeader(index, |payload|)
  {
    hide ObjectHeader;
    SubRange(data, offset, ObjectBytes(index, payload), 0, 16);
  }

  lemma OverrunRefused(data: seq<byte>, offset: nat, index: u16, n: nat)
    requires offset + 16 <= |data| < offset + 16 + n && index > 0 && n <= MAX_INT
    requires data[offset..offset + 16] == ObjectHeader(index, n)
    ensures ObjectsFrom(data, offset) == Err
  {
    hide ObjectHeader, U16At, U64At;
    HeaderAt(data, offset, index, n);
  }

  lemma ObjectInImage(contents: seq<seq<byte>>, size: nat, k: nat)
    requires Fits(contents, size) && k < |contents|
    ensures var offset, n := 16 + |Packed(contents[..k])|, ObjectSize(|contents[k]|);
      && offset + n == 16 + |Packed(contents[..k + 1])| && offset + n <= size
      && Image(contents, size)[offset..offset + n] == ObjectBytes(k + 1, contents[k])
  {
    hide Packed, ObjectBytes, FreeBytes, HeaderBytes;
    PackedPrefix(contents, k);
    PackedGrows(contents, k + 1);
    var packed, lo := Packed(contents), |Packed(contents[..k])|;
    assert packed[lo..lo + ObjectSize(|contents[k]|)] == ObjectBytes(k + 1, contents[k]);
    assert Image(contents, size)[16..16 + |packed|] == packed;
    SubRange(Image(contents, size), 16, packed, lo, ObjectSize(|contents[k]|));
  }

  lemma CollectionHeaderParsesBack(contents: seq<seq<byte>>, size: nat)
    requires Fits(contents, size)
    ensures var image := Image(contents, size);
      |image| == size && size >= 16 && image[0..4] == SIGNATURE && image[4] == 1 && U64At(image[0..16], 8) == size
  {
    hide LE, FromLE, Packed;
    var image := Image(contents, size);
    var h := HeaderBytes(size);
    assert image[0..16] == h && h[0..4] == SIGNATURE && h[4] == 1 && h[8..16] == LE(size, 8);
    assert image[0..4] == h[0..4];
    RoundTrip64(size);
  }

  /** A stored collection is read back as its objects, numbered from 1. */
  lemma CollectionReadsBack(m: Mem, at: nat, contents: seq<seq<byte>>, size: nat)
    requires HeldAt(m, at, contents, size)
    ensures CollectionAt(m, at) == Ok(Objects(contents))
  {
    hide Packed, Image, U64At, ObjectsFrom, Holds;
    var image := Image(contents, size);
    CollectionHeaderParsesBack(contents, size);
    LoadHeld(m, at, image, 0, 16);
    LoadHeld(m, at, image, 0, size);
    assert image[0..size] == image;
    PackedEmpty(contents);
    ScanFrom(contents, size, 0);
  }

  lemma {:induction false} LookupObject(contents: seq<seq<byte>>, from: nat, index: nat)
    requires from < index <= |contents| <= 257
    ensures Lookup(Objects(contents)[from..], index) == Ok(contents[index - 1])
    decreases index - from
  {
    if from + 1 < index {
      LookupObject(contents, from + 1, index);
    }
  }

  /** Once everything is flushed, every ID resolves to the bytes it names. */
  lemma NamedResolves(m: Mem, contents: map<nat, seq<seq<byte>>>, regions: map<nat, nat>, id: HeapID, data: seq<byte>)
    requires AllHeld(m, contents, regions, {}) && Names(contents, id, data) && id.address > 0
    ensures Resolved(m, id.Encode()) == Ok(data)
  {
    hide HeldAt, CollectionAt, HeapID.Encode, Lookup;
    ReferenceParsesBack(id);
    var objects := contents[id.address];
    HeldCount(m, id.address, objects, regions[id.address]);
    CollectionReadsBack(m, id.address, objects, regions[id.address]);
    LookupObject(objects, 0, id.index);
    assert Objects(objects)[0..] == Objects(objects);
  }

  lemma HeldCount(m: Mem, at: nat, objects: seq<seq<byte>>, size: nat)
    requires HeldAt(m, at, objects, size)
    ensures |objects| <= 257
  {
  }

  // ---- whole sessions ----

  /** One step: store an object, flush early, or another part of the library writing a block of its own. */
  datatype Step = Write(data: seq<byte>) | EarlyFlush | Elsewhere(block: seq<byte>)

  /** Every ID returned so far names the bytes of its step. */
  ghost predicate AllNamed(contents: map<nat, seq<seq<byte>>>, regions: map<nat, nat>, steps: seq<Step>, ids: seq<Result<HeapID>>)
  {
    && |ids| <= |steps|
    && (forall a | a in contents :: a in regions)
    && forall k | 0 <= k < |ids| && ids[k].Ok? :: steps[k].Write? && Names(contents, ids[k].value, steps[k].data)
  }

  lemma AllNamedStep(before: map<nat, seq<seq<byte>>>, after: map<nat, seq<seq<byte>>>, r0: map<nat, nat>, r1: map<nat, nat>,
                     steps: seq<Step>, ids: seq<Result<HeapID>>, id: Result<HeapID>)
    requires AllNamed(before, r0, steps, ids) && Grows(before, after) && |ids| < |steps|
    requires forall a | a in after :: a in r1
    requires id.Ok? ==> steps[|ids|].Write? && Names(after, id.value, steps[|ids|].data)
    ensures AllNamed(after, r1, steps, ids + [id])
  {
    hide Names, Grows;
    forall k | 0 <= k < |ids| && ids[k].Ok? ensures Names(after, ids[k].value, steps[k].data) {
      NamesGrow(before, after, ids[k].value, steps[k].data);
    }
  }

  /** A block written in a region of its own leaves the heap writer's collections alone. */
  method WriteElsewhere(w: GlobalHeapWriter, block: seq<byte>)
    requires w.Valid()
    modifies w.file
    ensures w.Valid() && old(w.file.refusals) <= w.file.refusals
  {
    hide Packed, FileWriter.Valid, Collection.Valid, HeldAt, Store;
    var reserved := w.file.Allocate(|block|);
    if reserved.Ok? {
      HeldWithMore(w.file.mem, w.contents, old(w.file.regions), w.Pending(), reserved.value, |block|);
      HeldBeside(w.file.mem, w.contents, old(w.file.regions), w.file.regions, w.Pending(), reserved.value, block);
      w.file.WriteAt(reserved.value, block);
    }
  }

  lemma HeldBeside(m: Mem, contents: map<nat, seq<seq<byte>>>, r0: map<nat, nat>, r1: map<nat, nat>, skip: set<nat>, at: nat, bs: seq<byte>)
    requires AllHeld(m, contents, r1, skip) && r1 == r0[at := |bs|] && forall a | a in contents :: a in r0
    requires forall a | a in r0 :: a != at && Disjoint(a, r0[a], at, |bs|)
    ensures AllHeld(Store(m, at, bs), contents, r1, skip)
  {
    hide HeldAt, Store;
    forall a | a in contents && a !in skip ensures a in r1 && HeldAt(Store(m, at, bs), a, contents[a], r1[a]) {
      HeldAtKept(m, at, bs, a, contents[a], r1[a]);
    }
  }

  /** One step of a session. */
  method TakeStep(w: GlobalHeapWriter, step: Step) returns (id: Result<HeapID>)
    requires w.Valid()
    modifies w.Footprint()
    ensures w.Valid() && Grows(old(w.contents), w.contents)
    ensures id.Ok? ==> step.Write? && Names(w.contents, id.value, step.data)
    ensures step.Write? && id.Err? ==> w.file.refusals > old(w.file.refusals)
    ensures old(w.file.refusals) <= w.file.refusals
    ensures fresh(w.Footprint() - old(w.Footprint()))
  {
    hide AllHeld, FileWriter.Valid, Collection.Valid;
    id := Err;
    match step
    case Write(data) => id := w.WriteToGlobalHeap(data);
    case EarlyFlush => w.Flush();
    case Elsewhere(block) => WriteElsewhere(w, block);
  }

  /** Any session, closed by a flush: each write that succeeded can be read back through its stored reference,
      and a write only fails when the file itself is full. */
  method Session(steps: seq<Step>, initialOffset: nat) returns (ids: seq<Result<HeapID>>, file: FileWriter)
    requires 0 < initialOffset
    ensures |ids| == |steps|
    ensures forall k | 0 <= k < |steps| && ids[k].Ok? :: steps[k].Write? && Resolved(file.mem, ids[k].value.Encode()) == Ok(steps[k].data)
    ensures forall k | 0 <= k < |steps| && ids[k].Ok? ::
      ReadString(file.mem, ids[k].value.Encode()) == Ok(steps[k].data) <==> steps[k].data == [] || steps[k].data[|steps[k].data| - 1] != 0
    ensures file.refusals == 0 ==> forall k | 0 <= k < |steps| && steps[k].Write? :: ids[k].Ok?
  {
    hide AllHeld, Grows, Collection.Valid, Resolved, HeapID.Encode, Names, Trimmed;
    file := new FileWriter(initialOffset);
    var w := new GlobalHeapWriter(file);
    ids := [];
    var i := 0;
    while i < |steps|
      invariant i == |ids| <= |steps| && w.Valid() && w.file == file
      invariant fresh(w.Footprint())
      invariant AllNamed(w.contents, file.regions, steps, ids)
      invariant file.refusals == 0 ==> forall k | 0 <= k < i && steps[k].Write? :: ids[k].Ok?
    {
      ghost var contents, regions := w.contents, file.regions;
      var id := TakeStep(w, steps[i]);
      AllNamedStep(contents, w.contents, regions, file.regions, steps, ids, id);
      ids := ids + [id];
      i := i + 1;
    }
    w.Flush();
    forall k | 0 <= k < |steps| && ids[k].Ok?
      ensures steps[k].Write? && Resolved(file.mem, ids[k].value.Encode()) == Ok(steps[k].data)
      ensures ReadString(file.mem, ids[k].value.Encode()) == Ok(steps[k].data) <==> steps[k].data == [] || steps[k].data[|steps[k].data| - 1] != 0
    {
      TrimmedExact(steps[k].data);
      NamedPlace(w.contents, file.regions, ids[k].value, steps[k].data);
      NamedResolves(file.mem, w.contents, file.regions, ids[k].value, steps[k].data);
    }
  }

  lemma NamedPlace(contents: map<nat, seq<seq<byte>>>, regions: map<nat, nat>, id: HeapID, data: seq<byte>)
    requires Names(contents, id, data)
    requires forall a | a in contents :: a in regions
    requires forall a | a in regions :: 0 < a
    ensures id.address > 0
  {
  }
}
