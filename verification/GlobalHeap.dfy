/** The global heap: packing variable-length objects into collections (global_heap_write.go) and
    reading them back (internal/core/globalheap.go), with 8-byte offsets.
    Format: section III.E of the HDF5 File Format Specification Version 3.0. */
module GlobalHeap {
  import opened Arith
  import opened Bytes
  import opened Storage

  const MIN_COLLECTION: nat := 4096

  const SIGNATURE: seq<byte> := ['G' as int, 'C' as int, 'O' as int, 'L' as int]

  function Align8(n: nat): (r: nat)
    ensures n <= r < n + 8 && r % 8 == 0
  {
    if n % 8 == 0 then n else n + (8 - n % 8)
  }

  /** Header plus padded data. */
  function ObjectSize(n: nat): nat { 16 + Align8(n) }

  // ---- the stored image ----

  function HeaderBytes(size: nat): (s: seq<byte>)
    ensures |s| == 16
  {
    SIGNATURE + [1] + Zeros(3) + LE(size, 8)
  }

  function ObjectHeader(index: u16, n: nat): (s: seq<byte>)
    ensures |s| == 16
  {
    LE(index, 2) + LE(0, 2) + Zeros(4) + LE(n, 8)
  }

  function ObjectBytes(index: u16, data: seq<byte>): (s: seq<byte>)
    ensures |s| == ObjectSize(|data|)
  {
    ObjectHeader(index, |data|) + data + Zeros(Align8(|data|) - |data|)
  }

  /** The objects in order, numbered from 1 by a 16-bit counter. */
  function Packed(objects: seq<seq<byte>>): (s: seq<byte>)
  {
    if objects == [] then []
    else
      var n := |objects| - 1;
      Packed(objects[..n]) + ObjectBytes(IndexOf(n), objects[n])
  }

  /** The index given to object number `n`, counting from 0. */
  function IndexOf(n: nat): u16 { (n + 1) % 0x1_0000 }

  /** What follows the objects: a free-space marker when its header fits, then zeros. */
  function FreeBytes(free: nat): (s: seq<byte>)
    ensures |s| == free
  {
    if free >= 16 then ObjectHeader(0, free) + Zeros(free - 16) else Zeros(free)
  }

  ghost predicate Fits(objects: seq<seq<byte>>, size: nat)
  {
    16 + |Packed(objects)| <= size && size % 8 == 0 && |objects| <= 257 && size < 0x8000_0000_0000_0000
  }

  function Image(objects: seq<seq<byte>>, size: nat): (s: seq<byte>)
    requires 16 + |Packed(objects)| <= size
    ensures |s| == size
  {
    HeaderBytes(size) + Packed(objects) + FreeBytes(size - 16 - |Packed(objects)|)
  }

  // ---- the writer ----

  datatype HeapID = HeapID(address: u64, index: u16, seqLen: u32) {
    /** On disk: sequence length, collection address, object index. */
    function Encode(): (s: seq<byte>)
      ensures |s| == 16
    {
      LE(seqLen, 4) + LE(address, 8) + LE(index, 4)
    }
  }

  datatype HeapObject = HeapObject(index: u16, data: seq<byte>)

  function Datas(objects: seq<HeapObject>): (d: seq<seq<byte>>)
    ensures |d| == |objects| && forall i | 0 <= i < |d| :: d[i] == objects[i].data
  {
    seq(|objects|, i requires 0 <= i < |objects| => objects[i].data)
  }

  /** Objects carry their position plus one. */
  ghost predicate Numbered(objects: seq<HeapObject>)
  {
    forall i | 0 <= i < |objects| :: objects[i].index == IndexOf(i)
  }

  /** The collection being filled (globalHeapCollectionBuilder). */
  class Collection {
    const address: u64
    const size: nat
    var objects: seq<HeapObject>
    var nextIndex: u16
    var usedSpace: nat
    var freeSpace: nat

    ghost predicate Valid()
      reads this
    {
      && usedSpace + freeSpace == size && size % 8 == 0 && size < 0x8000_0000_0000_0000
      && usedSpace == 16 + |Packed(Datas(objects))|
      && Numbered(objects) && nextIndex == |objects| + 1
      && |objects| <= 257
      && (objects != [] ==> 16 * (|objects| - 1) + freeSpace < 4112)
    }

    constructor (address: u64, size: nat)
      requires 16 <= size < 0x8000_0000_0000_0000 && size % 8 == 0
      ensures Valid() && objects == [] && this.address == address && this.size == size && freeSpace == size - 16
    {
      hide ObjectBytes, Align8;
      this.address, this.size := address, size;
      objects, nextIndex := [], 1;
      usedSpace, freeSpace := 16, size - 16;
    }

    predicate HasSpace(objectSize: nat)
      reads this
    {
      freeSpace >= objectSize
    }

    method AddObject(data: seq<byte>) returns (index: u16)
      requires Valid() && HasSpace(ObjectSize(|data|))
      requires objects == [] ==> freeSpace < ObjectSize(|data|) + 4112
      modifies this
      ensures Valid() && index == |objects| == |old(objects)| + 1
      ensures Datas(objects) == Datas(old(objects)) + [data]
    {
      hide ObjectBytes, Align8, Packed, Numbered, IndexOf, Datas;
      PackedStep(Datas(objects), data);
      ObjectsStep(objects, nextIndex, data);
      objects := objects + [HeapObject(nextIndex, data)];
      var total := ObjectSize(|data|);
      usedSpace := usedSpace + total;
      freeSpace := freeSpace - total;
      index := nextIndex;
      nextIndex := nextIndex + 1;
    }

    /** encodeHeapCollection: the objects end exactly at `usedSpace`, inside the buffer. */
    method Encode() returns (image: seq<byte>)
      requires Valid()
      ensures 16 + |Packed(Datas(objects))| <= size && image == Image(Datas(objects), size)
    {
      hide ObjectHeader, Packed, HeaderBytes, Numbered, Datas;
      var buf := new byte[size](_ => 0);
      var offset := PutObjects(buf, objects);
      if freeSpace >= 16 {
        offset := PutObjectHeader(buf, offset, 0, freeSpace);
      }
      image := buf[..];
      assert image == buf[..offset] + Zeros(size - offset);
    }
  }

  /** The header and the objects, each at the next multiple of 8. */
  method PutObjects(buf: array<byte>, objects: seq<HeapObject>) returns (offset: nat)
    requires Numbered(objects) && 16 + |Packed(Datas(objects))| <= buf.Length
    requires forall k | 0 <= k < buf.Length :: buf[k] == 0
    modifies buf
    ensures offset == 16 + |Packed(Datas(objects))|
    ensures buf[..offset] == HeaderBytes(buf.Length) + Packed(Datas(objects))
    ensures forall k | offset <= k < buf.Length :: buf[k] == 0
  {
    hide ObjectBytes, Packed, HeaderBytes, Align8, Numbered, ObjectSize, Datas;
    ghost var datas := Datas(objects);
    PackedEmpty(datas);
    offset := PutHeader(buf, buf.Length);
    var i := 0;
    while i < |objects|
      invariant i <= |objects| && offset == 16 + |Packed(datas[..i])| <= buf.Length
      invariant buf[..offset] == HeaderBytes(buf.Length) + Packed(datas[..i])
      invariant forall k | offset <= k < buf.Length :: buf[k] == 0
    {
      PackedPrefix(datas, i);
      PackedAligned(datas[..i]);
      NumberedAt(objects, i);
      offset := PutObject(buf, offset, objects[i].index, objects[i].data);
      i := i + 1;
    }
    assert datas[..i] == datas;
  }

  lemma ObjectsStep(objects: seq<HeapObject>, index: u16, data: seq<byte>)
    requires Numbered(objects) && |objects| < 257 && index == |objects| + 1
    ensures Datas(objects + [HeapObject(index, data)]) == Datas(objects) + [data]
    ensures Numbered(objects + [HeapObject(index, data)])
  {
  }

  lemma {:induction false} PackedAligned(objects: seq<seq<byte>>)
    ensures |Packed(objects)| % 8 == 0
  {
    hide IndexOf, Align8, ObjectBytes;
    if objects != [] {
      PackedAligned(objects[..|objects| - 1]);
    }
  }

  lemma NumberedAt(objects: seq<HeapObject>, i: nat)
    requires Numbered(objects) && i < |objects|
    ensures objects[i].index == IndexOf(i)
  {
  }

  lemma PackedEmpty(objects: seq<seq<byte>>)
    ensures Packed(objects[..0]) == []
  {
  }

  lemma PackedStep(objects: seq<seq<byte>>, data: seq<byte>)
    ensures Packed(objects + [data]) == Packed(objects) + ObjectBytes(IndexOf(|objects|), data)
  {
    hide ObjectBytes;
    assert (objects + [data])[..|objects|] == objects;
  }

  /** The first `i + 1` objects are the first `i` and one more, and prefixes are no longer than the whole. */
  lemma PackedPrefix(objects: seq<seq<byte>>, i: nat)
    requires i < |objects|
    ensures Packed(objects[..i + 1]) == Packed(objects[..i]) + ObjectBytes(IndexOf(i), objects[i])
    ensures |Packed(objects[..i + 1])| <= |Packed(objects)|
  {
    hide ObjectBytes, Packed;
    assert objects[..i + 1] == objects[..i] + [objects[i]];
    PackedStep(objects[..i], objects[i]);
    PackedGrows(objects, i + 1);
  }

  lemma {:induction false} PackedGrows(objects: seq<seq<byte>>, i: nat)
    requires i <= |objects|
    ensures |Packed(objects[..i])| <= |Packed(objects)|
    ensures Packed(objects[..i]) == Packed(objects)[..|Packed(objects[..i])|]
    decreases |objects|
  {
    hide ObjectBytes, Packed;
    if i == |objects| {
      assert objects[..i] == objects;
    } else {
      var n := |objects| - 1;
      PackedGrows(objects[..n], i);
      assert objects[..n][..i] == objects[..i] && objects == objects[..n] + [objects[n]];
      PackedStep(objects[..n], objects[n]);
    }
  }

  lemma RoundUp(n: nat)
    ensures var r := ((n + 4095) / 4096) * 4096; n <= r < n + 4096 && r % 8 == 0
  {
    var q := (n + 4095) / 4096;
    assert q * 4096 <= n + 4095 < q * 4096 + 4096;
    assert q * 4096 == (q * 512) * 8;
    DivUnique(q * 4096, q * 512, 0, 8);
  }

  method PutHeader(buf: array<byte>, size: nat) returns (offset: nat)
    requires buf.Length >= 16 && forall k | 0 <= k < buf.Length :: buf[k] == 0
    modifies buf
    ensures offset == 16 && buf[..offset] == HeaderBytes(size)
    ensures forall k | offset <= k < buf.Length :: buf[k] == 0
  {
    hide LE;
    offset := Append(buf, 0, SIGNATURE);
    offset := Append(buf, offset, [1]);
    assert buf[..offset] == SIGNATURE + [1] && buf[offset..offset + 3] == Zeros(3);
    offset := offset + 3;
    assert buf[..offset] == SIGNATURE + [1] + Zeros(3);
    offset := Append(buf, offset, LE(size, 8));
  }

  method PutObjectHeader(buf: array<byte>, at: nat, index: u16, n: nat) returns (offset: nat)
    requires at + 16 <= buf.Length && forall k | at <= k < buf.Length :: buf[k] == 0
    modifies buf
    ensures offset == at + 16 && buf[..offset] == old(buf[..at]) + ObjectHeader(index, n)
    ensures forall k | offset <= k < buf.Length :: buf[k] == 0
  {
    hide LE;
    offset := Append(buf, at, LE(index, 2));
    offset := Append(buf, offset, LE(0, 2));
    assert buf[offset..offset + 4] == Zeros(4);
    offset := offset + 4;
    ghost var prefix := buf[..offset];
    assert prefix == old(buf[..at]) + LE(index, 2) + LE(0, 2) + Zeros(4);
    offset := Append(buf, offset, LE(n, 8));
  }

  /** One object: header, data, then a step to the next multiple of 8 over bytes that are already zero. */
  method PutObject(buf: array<byte>, at: nat, index: u16, data: seq<byte>) returns (offset: nat)
    requires at % 8 == 0 && at + ObjectSize(|data|) <= buf.Length && forall k | at <= k < buf.Length :: buf[k] == 0
    modifies buf
    ensures offset == at + ObjectSize(|data|) && buf[..offset] == old(buf[..at]) + ObjectBytes(index, data)
    ensures forall k | offset <= k < buf.Length :: buf[k] == 0
  {
    hide ObjectHeader;
    offset := PutObjectHeader(buf, at, index, |data|);
    offset := Append(buf, offset, data);
    ghost var filled := buf[..offset];
    if offset % 8 != 0 {
      offset := offset + (8 - offset % 8);
    }
    assert buf[..offset] == filled + Zeros(offset - |filled|);
  }

  /** Collections only gain objects. */
  ghost predicate Grows(before: map<nat, seq<seq<byte>>>, after: map<nat, seq<seq<byte>>>)
  {
    forall a | a in before :: a in after && before[a] <= after[a]
  }

  /** Every collection at the addresses in `contents`, except `skip`, is in the file. */
  ghost predicate AllHeld(m: Mem, contents: map<nat, seq<seq<byte>>>, regions: map<nat, nat>, skip: set<nat>)
  {
    forall a | a in contents && a !in skip :: a in regions && HeldAt(m, a, contents[a], regions[a])
  }

  ghost predicate HeldAt(m: Mem, at: nat, objects: seq<seq<byte>>, size: nat)
  {
    Fits(objects, size) && Holds(m, at, Image(objects, size))
  }

  /** The object an ID names. */
  ghost predicate Names(contents: map<nat, seq<seq<byte>>>, id: HeapID, data: seq<byte>)
  {
    id.address in contents && 1 <= id.index <= |contents[id.address]| && contents[id.address][id.index - 1] == data
  }

  lemma NamesGrow(before: map<nat, seq<seq<byte>>>, after: map<nat, seq<seq<byte>>>, id: HeapID, data: seq<byte>)
    requires Names(before, id, data) && Grows(before, after)
    ensures Names(after, id, data)
  {
  }

  /** globalHeapWriter.  `contents` maps each collection ever created to the objects put in it. */
  class GlobalHeapWriter {
    const file: FileWriter
    var current: Collection?
    ghost var contents: map<nat, seq<seq<byte>>>

    ghost function Footprint(): set<object>
      reads this
    {
      {this, file} + if current == null then {} else {current}
    }

    ghost function Pending(): set<nat>
      reads this
    {
      if current == null then {} else {current.address}
    }

    ghost predicate CurrentValid()
      reads this, Footprint()
    {
      current != null ==>
        && current.Valid() && current.objects != []
        && current.address in contents && contents[current.address] == Datas(current.objects)
        && current.address in file.regions && file.regions[current.address] == current.size
    }

    /** All collections but the one being filled are in the file. */
    ghost predicate Valid()
      reads this, Footprint()
    {
      && file.Valid() && CurrentValid()
      && (forall a | a in contents :: a in file.regions)
      && AllHeld(file.mem, contents, file.regions, Pending())
    }

    constructor (file: FileWriter)
      requires file.Valid()
      ensures Valid() && contents == map[] && this.file == file && current == null
    {
      this.file, current, contents := file, null, map[];
    }

    /** createNewHeap: room for the header, the object and a free-space marker, at least 4 KB, in 4 KB steps. */
    method CreateNewHeap(minObjectSize: nat) returns (ok: bool, heap: Collection?)
      requires file.Valid() && minObjectSize >= 16
      modifies file
      ensures file.Valid() && file.mem == old(file.mem) && file.refusals == old(file.refusals) + if !ok then 1 else 0
      ensures !ok ==> file.regions == old(file.regions) && heap == null
      ensures ok ==> heap != null && fresh(heap) && heap.Valid() && heap.objects == []
      ensures ok ==> minObjectSize <= heap.freeSpace < minObjectSize + 4112
      ensures ok ==> heap.size % 4096 == 0 && 4096 <= heap.size && minObjectSize + 32 <= heap.size
      ensures ok ==> heap.size == 4096 || heap.size < minObjectSize + 32 + 4096
      ensures ok ==> heap.address !in old(file.regions)
      ensures ok ==> file.regions == old(file.regions)[heap.address as nat := heap.size]
      ensures ok ==> forall a | a in old(file.regions) :: Disjoint(a, old(file.regions)[a], heap.address, heap.size)
    {
      hide FileWriter.Valid, Packed, Datas, Numbered;
      var needed := 16 + minObjectSize + 16;
      var collectionSize := MIN_COLLECTION;
      if needed > collectionSize {
        collectionSize := ((needed + 4095) / 4096) * 4096;
        RoundUp(needed);
      }
      var reserved := file.Allocate(collectionSize);
      if reserved.Err? {
        return false, null;
      }
      heap := new Collection(reserved.value, collectionSize);
      ok := true;
    }

    /** flushCurrentHeap: after it, every collection is in the file. */
    method Flush()
      requires Valid()
      modifies file`mem
      ensures Valid() && AllHeld(file.mem, contents, file.regions, {})
    {
      hide Image, Packed, Store, Holds;
      if current != null {
        var image := current.Encode();
        HeldElsewhere(file.mem, contents, file.regions, Pending(), current.address, image);
        StoreHolds(file.mem, current.address, image);
        file.WriteAt(current.address, image);
      }
    }

    /** WriteToGlobalHeap: the ID names the data from now on; nothing already named moves. */
    method WriteToGlobalHeap(data: seq<byte>) returns (r: Result<HeapID>)
      requires Valid()
      modifies Footprint()
      ensures Valid() && Grows(old(contents), contents)
      ensures r.Ok? ==> Names(contents, r.value, data)
      ensures file.refusals == old(file.refusals) + if r.Err? then 1 else 0
      ensures r.Err? ==> contents == old(contents)
      ensures old(current != null && current.HasSpace(ObjectSize(|data|))) ==>
        && r.Ok? && r.value.address == old(current.address) && r.value.index == old(|current.objects|) + 1
        && file.regions == old(file.regions) && file.mem == old(file.mem)
      ensures !old(current != null && current.HasSpace(ObjectSize(|data|))) && r.Ok? ==>
        r.value.address as nat !in old(file.regions) && r.value.index == 1
      ensures fresh(Footprint() - old(Footprint()))
    {
      hide AllHeld, Packed, FileWriter.Valid, Collection.Valid;
      var total := ObjectSize(|data|);
      if current == null || !current.HasSpace(total) {
        Flush();
        var ok, heap := CreateNewHeap(total);
        if !ok {
          return Err;
        }
        HeldWithMore(file.mem, contents, old(file.regions), {}, heap.address, heap.size);
        r := StartHeap(heap, data);
      } else {
        r := AddToCurrent(data);
      }
    }

    method StartHeap(heap: Collection, data: seq<byte>) returns (r: Result<HeapID>)
      requires file.Valid() && AllHeld(file.mem, contents, file.regions, {}) && heap.Valid() && heap.objects == []
      requires forall a | a in contents :: a in file.regions
      requires ObjectSize(|data|) <= heap.freeSpace < ObjectSize(|data|) + 4112
      requires heap.address !in contents
      requires heap.address in file.regions && file.regions[heap.address] == heap.size
      modifies this, heap
      ensures Valid() && Grows(old(contents), contents) && current == heap
      ensures r.Ok? && Names(contents, r.value, data) && r.value.address == heap.address && r.value.index == 1
    {
      hide Packed, FileWriter.Valid, Collection.Valid, Image, Fits, Holds;
      assert [] + [data] == [data];
      var index := heap.AddObject(data);
      contents := contents[heap.address as nat := [data]];
      current := heap;
      r := Ok(HeapID(heap.address, index, 0));
    }

    method AddToCurrent(data: seq<byte>) returns (r: Result<HeapID>)
      requires Valid() && current != null && current.HasSpace(ObjectSize(|data|))
      modifies this, current
      ensures Valid() && Grows(old(contents), contents) && current == old(current)
      ensures r.Ok? && Names(contents, r.value, data)
      ensures r.value.address == current.address && r.value.index == old(|current.objects|) + 1
    {
      hide Packed, FileWriter.Valid, Collection.Valid, Image, Fits, Holds;
      var index := current.AddObject(data);
      contents := contents[current.address as nat := contents[current.address] + [data]];
      r := Ok(HeapID(current.address, index, 0));
    }
  }

  /** Writing one collection leaves the others in place. */
  lemma HeldElsewhere(m: Mem, contents: map<nat, seq<seq<byte>>>, regions: map<nat, nat>, skip: set<nat>, at: nat, bs: seq<byte>)
    requires AllHeld(m, contents, regions, skip) && skip <= {at}
    requires at in regions && regions[at] == |bs| && AllApart(regions)
    ensures AllHeld(Store(m, at, bs), contents, regions, {at})
  {
    hide HeldAt, Store;
    forall a | a in contents && a !in {at} ensures a in regions && HeldAt(Store(m, at, bs), a, contents[a], regions[a]) {
      HeldAtKept(m, at, bs, a, contents[a], regions[a]);
    }
  }

  lemma HeldAtKept(m: Mem, at: nat, bs: seq<byte>, a: nat, objects: seq<seq<byte>>, size: nat)
    requires HeldAt(m, a, objects, size) && Disjoint(at, |bs|, a, size)
    ensures HeldAt(Store(m, at, bs), a, objects, size)
  {
    hide Image, Packed, Store, Holds;
    StoreKeeps(m, at, bs, a, Image(objects, size));
  }

  lemma HeldWithMore(m: Mem, contents: map<nat, seq<seq<byte>>>, regions: map<nat, nat>, skip: set<nat>, at: nat, size: nat)
    requires AllHeld(m, contents, regions, skip) && at !in regions
    ensures AllHeld(m, contents, regions[at := size], skip)
  {
    hide HeldAt;
  }
}
