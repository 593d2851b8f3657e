/** One node of the version 1 B-tree that indexes chunks: the writer's fixed-size image
    (internal/structures/btree_chunk.go) and its parser (internal/core/btree_v1.go).
    Format: section III.A.1 of the HDF5 File Format Specification Version 3.0. */
module ChunkNode {
  import opened Arith
  import opened Bytes
  import opened Storage

  const CHUNK_BTREE_K: nat := 32
  const MAX_CHILDREN: nat := 2 * CHUNK_BTREE_K

  const SIGNATURE: seq<byte> := ['T' as int, 'R' as int, 'E' as int, 'E' as int]

  datatype Key = Key(coords: seq<u64>, nbytes: u32, mask: u32)

  datatype Node = Node(level: byte, left: u64, right: u64, keys: seq<Key>, children: seq<u64>) {
    predicate Valid() {
      |keys| == |children| + 1 && |children| <= MAX_CHILDREN
    }
  }

  function KeySize(n: nat): nat { 4 + 4 + n * 8 }

  function EntrySize(n: nat): nat { KeySize(n) + 8 }

  /** Where entry `i` starts, after the header. */
  function EntryOffset(i: nat, n: nat): nat { i * EntrySize(n) }

  function NodeSize(n: nat): nat { 24 + MAX_CHILDREN * 8 + (MAX_CHILDREN + 1) * KeySize(n) }

  // ---- what the writer stores ----

  /** 64-bit multiplication. */
  function Mul64(a: nat, b: nat): u64
  {
    (a * b) % 0x1_0000_0000_0000_0000
  }

  /** Coordinate `j` of a key on disk: a byte offset, wrapping at 64 bits; the all-ones value is kept. */
  function DiskCoord(key: Key, chunkDims: seq<u64>, j: nat): u64
  {
    if j >= |key.coords| then 0
    else if key.coords[j] != UNDEFINED && j < |chunkDims|
    then Mul64(key.coords[j], chunkDims[j])
    else key.coords[j]
  }

  function CoordBytes(key: Key, chunkDims: seq<u64>, n: nat): (s: seq<byte>)
    ensures |s| == n * 8
  {
    if n == 0 then [] else CoordBytes(key, chunkDims, n - 1) + LE(DiskCoord(key, chunkDims, n - 1), 8)
  }

  function KeyBytes(key: Key, chunkDims: seq<u64>, n: nat): (s: seq<byte>)
    ensures |s| == KeySize(n)
  {
    LE(key.nbytes, 4) + LE(key.mask, 4) + CoordBytes(key, chunkDims, n)
  }

  function HeaderBytes(node: Node): (s: seq<byte>)
    ensures |s| == 24
  {
    SIGNATURE + [1, node.level] + LE(|node.children| % 0x1_0000, 2) + LE(node.left, 8) + LE(node.right, 8)
  }

  /** Key `i`, and the child that follows it unless it is the last key. */
  function EntryBytes(node: Node, chunkDims: seq<u64>, n: nat, i: nat): (s: seq<byte>)
    requires i < |node.keys|
    ensures |s| == KeySize(n) + if i < |node.children| then 8 else 0
  {
    KeyBytes(node.keys[i], chunkDims, n) + if i < |node.children| then LE(node.children[i], 8) else []
  }

  /** The image after the first `count` keys. */
  function ImagePrefix(node: Node, chunkDims: seq<u64>, n: nat, count: nat): (s: seq<byte>)
    requires count <= |node.keys|
  {
    if count == 0 then HeaderBytes(node)
    else ImagePrefix(node, chunkDims, n, count - 1) + EntryBytes(node, chunkDims, n, count - 1)
  }

  lemma NextEntry(i: nat, n: nat)
    ensures EntryOffset(i + 1, n) == EntryOffset(i, n) + KeySize(n) + 8
  {
  }

  lemma FirstEntry(n: nat)
    ensures EntryOffset(0, n) == 0
  {
  }

  lemma {:induction false} PrefixLength(node: Node, chunkDims: seq<u64>, n: nat, count: nat)
    requires node.Valid() && count <= |node.keys|
    ensures |ImagePrefix(node, chunkDims, n, count)| ==
            24 + EntryOffset(count, n) - if count <= |node.children| then 0 else 8
    ensures |ImagePrefix(node, chunkDims, n, count)| <= NodeSize(n)
  {
    hide HeaderBytes, EntryBytes;
    if count > 0 {
      PrefixLength(node, chunkDims, n, count - 1);
      NextEntry(count - 1, n);
    }
    MulMono(count, MAX_CHILDREN + 1, EntrySize(n));
    if count <= MAX_CHILDREN {
      MulMono(count, MAX_CHILDREN, EntrySize(n));
    }
  }

  /** The node image, padded with zeros to the fixed node size. */
  function Serialized(node: Node, chunkDims: seq<u64>, n: nat): (s: seq<byte>)
    requires node.Valid()
    ensures |s| == NodeSize(n)
  {
    PrefixLength(node, chunkDims, n, |node.keys|);
    var used := ImagePrefix(node, chunkDims, n, |node.keys|);
    used + Zeros(NodeSize(n) - |used|)
  }

  method PutKey(buf: array<byte>, at: nat, key: Key, chunkDims: seq<u64>, n: nat) returns (pos: nat)
    requires at + KeySize(n) <= buf.Length
    modifies buf
    ensures pos == at + KeySize(n)
    ensures buf[..pos] == old(buf[..at]) + KeyBytes(key, chunkDims, n)
    ensures forall k | pos <= k < buf.Length :: buf[k] == old(buf[k])
  {
    hide LE, Mul64, CoordBytes, DiskCoord;
    pos := Append(buf, at, LE(key.nbytes, 4));
    pos := Append(buf, pos, LE(key.mask, 4));
    ghost var prefix := buf[..pos];
    CoordsNone(key, chunkDims);
    var j := 0;
    while j < n
      invariant j <= n && pos == at + 8 + j * 8
      invariant buf[..pos] == prefix + CoordBytes(key, chunkDims, j)
      invariant forall k | pos <= k < buf.Length :: buf[k] == old(buf[k])
    {
      var coord: u64 := 0;
      if j < |key.coords| {
        coord := key.coords[j];
        if coord != UNDEFINED && j < |chunkDims| {
          coord := Mul64(coord, chunkDims[j]);
        }
      }
      CoordsNext(key, chunkDims, j, coord);
      pos := Append(buf, pos, LE(coord, 8));
      j := j + 1;
    }
  }

  lemma CoordsNone(key: Key, chunkDims: seq<u64>)
    ensures CoordBytes(key, chunkDims, 0) == []
  {
  }

  lemma CoordsNext(key: Key, chunkDims: seq<u64>, j: nat, coord: u64)
    requires coord == if j >= |key.coords| then 0
                      else if key.coords[j] != UNDEFINED && j < |chunkDims| then Mul64(key.coords[j], chunkDims[j])
                      else key.coords[j]
    ensures CoordBytes(key, chunkDims, j + 1) == CoordBytes(key, chunkDims, j) + LE(coord, 8)
  {
    hide LE, Mul64;
  }

  method PutHeader(buf: array<byte>, node: Node) returns (pos: nat)
    requires buf.Length >= 24
    modifies buf
    ensures pos == 24 && buf[..pos] == HeaderBytes(node)
    ensures forall k | pos <= k < buf.Length :: buf[k] == old(buf[k])
  {
    hide LE;
    pos := Append(buf, 0, SIGNATURE);
    pos := Append(buf, pos, [1]);
    pos := Append(buf, pos, [node.level]);
    pos := Append(buf, pos, LE(|node.children| % 0x1_0000, 2));
    pos := Append(buf, pos, LE(node.left, 8));
    pos := Append(buf, pos, LE(node.right, 8));
  }

  /** serializeChunkBTreeNode: no write leaves the fixed-size buffer. */
  method Serialize(node: Node, chunkDims: seq<u64>, n: nat) returns (image: seq<byte>)
    requires node.Valid()
    ensures image == Serialized(node, chunkDims, n)
  {
    hide LE, KeyBytes, HeaderBytes, NodeSize, KeySize, ImagePrefix;
    var buf := new byte[NodeSize(n)](_ => 0);
    PrefixLength(node, chunkDims, n, 0);
    PrefixStep(node, chunkDims, n, 0);
    var pos := PutHeader(buf, node);
    var i := 0;
    while i < |node.keys|
      invariant i <= |node.keys| && 0 <= pos <= buf.Length
      invariant buf[..pos] == ImagePrefix(node, chunkDims, n, i)
      invariant forall k | pos <= k < buf.Length :: buf[k] == 0
    {
      PrefixLength(node, chunkDims, n, i + 1);
      PrefixStep(node, chunkDims, n, i);
      pos := PutEntry(buf, pos, node, chunkDims, n, i);
      i := i + 1;
    }
    image := buf[..];
    assert image == buf[..pos] + buf[pos..];
  }

  lemma PrefixStep(node: Node, chunkDims: seq<u64>, n: nat, i: nat)
    requires i < |node.keys|
    ensures ImagePrefix(node, chunkDims, n, 0) == HeaderBytes(node)
    ensures ImagePrefix(node, chunkDims, n, i + 1) == ImagePrefix(node, chunkDims, n, i) + EntryBytes(node, chunkDims, n, i)
  {
  }

  method PutEntry(buf: array<byte>, at: nat, node: Node, chunkDims: seq<u64>, n: nat, i: nat) returns (pos: nat)
    requires i < |node.keys| && at + |EntryBytes(node, chunkDims, n, i)| <= buf.Length
    modifies buf
    ensures pos == at + |EntryBytes(node, chunkDims, n, i)|
    ensures buf[..pos] == old(buf[..at]) + EntryBytes(node, chunkDims, n, i)
    ensures forall k | pos <= k < buf.Length :: buf[k] == old(buf[k])
  {
    hide LE, KeyBytes, KeySize;
    pos := PutKey(buf, at, node.keys[i], chunkDims, n);
    if i < |node.children| {
      pos := Append(buf, pos, LE(node.children[i], 8));
    }
  }

  // ---- what the reader gets back ----

  /** Division that stays in 64 bits. */
  function Quotient(a: u64, d: u64): (q: u64)
    requires d > 0
    ensures q == a / d
  {
    MulMono(1, d, a + 1);
    DivBelow(a, a + 1, d);
    a / d
  }

  function ParsedKey(data: seq<byte>, at: nat, dims: seq<u64>): Key
    requires at + KeySize(|dims|) <= |data| && forall j | 0 <= j < |dims| :: dims[j] > 0
  {
    Key(seq(|dims|, j requires 0 <= j < |dims| => Quotient(U64At(data, at + 8 + j * 8), dims[j])), U32At(data, at), U32At(data, at + 4))
  }

  lemma EntryInside(i: nat, used: nat, n: nat)
    requires i <= used
    ensures EntryOffset(i, n) + KeySize(n) <= EntryOffset(used, n) + KeySize(n)
    ensures i < used ==> EntryOffset(i, n) + KeySize(n) + 8 <= EntryOffset(used, n) + KeySize(n)
  {
    MulMono(i, used, EntrySize(n));
  }

  function ParsedKeys(data: seq<byte>, used: nat, dims: seq<u64>): (keys: seq<Key>)
    requires |data| == EntryOffset(used, |dims|) + KeySize(|dims|) && forall j | 0 <= j < |dims| :: dims[j] > 0
    ensures |keys| == used + 1
  {
    seq(used + 1, i requires 0 <= i < used + 1 =>
      (EntryInside(i, used, |dims|); ParsedKey(data, EntryOffset(i, |dims|), dims)))
  }

  function ParsedChildren(data: seq<byte>, used: nat, n: nat): (children: seq<u64>)
    requires |data| == EntryOffset(used, n) + KeySize(n)
    ensures |children| == used
  {
    seq(used, i requires 0 <= i < used => (EntryInside(i, used, n); U64At(data, EntryOffset(i, n) + KeySize(n))))
  }

  /** ParseBTreeV1Node for 8-byte offsets; `dims` includes the trailing element-size dimension. */
  function Parsed(m: Mem, at: nat, dims: seq<u64>): (r: Result<Node>)
  {
    match Load(m, at, 24)
    case None => Err
    case Some(header) =>
      var level, used, left, right := header[5], U16At(header, 6), U64At(header, 8), U64At(header, 16);
      if header[0..4] != SIGNATURE then Err
      else if used == 0 then Ok(Node(level, left, right, [], []))
      else
        match Load(m, at + 24, EntryOffset(used, |dims|) + KeySize(|dims|))
        case None => Err
        case Some(data) =>
          if exists j :: 0 <= j < |dims| && dims[j] == 0 then Err
          else Ok(Node(level, left, right, ParsedKeys(data, used, dims), ParsedChildren(data, used, |dims|)))
  }

  method ReadKey(data: seq<byte>, at: nat, dims: seq<u64>) returns (r: Result<Key>)
    requires at + KeySize(|dims|) <= |data|
    ensures r == if exists j :: 0 <= j < |dims| && dims[j] == 0 then Err else Ok(ParsedKey(data, at, dims))
  {
    hide U64At, U32At;
    var scaled := new u64[|dims|];
    var j := 0;
    while j < |dims|
      invariant j <= |dims|
      invariant forall l | 0 <= l < j :: dims[l] > 0 && scaled[l] == U64At(data, at + 8 + l * 8) / dims[l]
    {
      if dims[j] == 0 {
        return Err;
      }
      scaled[j] := Quotient(U64At(data, at + 8 + j * 8), dims[j]);
      j := j + 1;
    }
    assert scaled[..] == ParsedKey(data, at, dims).coords;
    r := Ok(Key(scaled[..], U32At(data, at), U32At(data, at + 4)));
  }

  /** Exactly which nodes are read: "TREE" in front, and unless it counts no children, as many keys and children as it
      counts in the file, and no dimension of size 0. */
  lemma NodeAccepted(m: Mem, at: nat, dims: seq<u64>)
    ensures Parsed(m, at, dims).Ok? <==>
      && Load(m, at, 24).Some? && Load(m, at, 4) == Some([84, 82, 69, 69])
      && var used := U16At(Load(m, at, 24).value, 6);
        used == 0 ||
        (Load(m, at + 24, used * (16 + 8 * |dims|) + 8 + 8 * |dims|).Some? && forall j | 0 <= j < |dims| :: dims[j] > 0)
    ensures Parsed(m, at, dims).Ok? ==>
      && |Parsed(m, at, dims).value.children| == U16At(Load(m, at, 24).value, 6)
      && Parsed(m, at, dims).value.level == Load(m, at, 24).value[5]
  {
    hide U16At, U64At, U32At, ParsedKey;
    if Load(m, at, 24).Some? {
      assert Load(m, at, 24).value[0..4] == Load(m, at, 4).value;
    }
  }

  /** The parser refines `Parsed` on every memory, well formed or not. */
  method ParseBTreeV1Node(m: Mem, at: nat, dims: seq<u64>) returns (r: Result<Node>)
    ensures r == Parsed(m, at, dims)
  {
    hide U64At, U32At, U16At, ParsedKey, EntrySize, EntryOffset, KeySize;
    var loaded := Load(m, at, 24);
    if loaded.None? {
      return Err;
    }
    var header := loaded.value;
    if header[0..4] != SIGNATURE {
      return Err;
    }
    var level, left, right := header[5], U64At(header, 8), U64At(header, 16);
    var used: nat := U16At(header, 6);
    if used == 0 {
      return Ok(Node(level, left, right, [], []));
    }
    var n := |dims|;
    var body := Load(m, at + 24, EntryOffset(used, n) + KeySize(n));
    if body.None? {
      return Err;
    }
    var data := body.value;
    var keys: seq<Key>, children: seq<u64> := [], [];
    FirstEntry(n);
    var dataOffset, i := 0, 0;
    while i <= used
      invariant i <= used ==> dataOffset == EntryOffset(i, n)
      invariant i <= used + 1 && |keys| == i && |children| == if i <= used then i else used
      invariant i > 0 ==> forall j | 0 <= j < n :: dims[j] > 0
      invariant i > 0 ==> forall l | 0 <= l < i :: keys[l] == ParsedKeys(data, used, dims)[l]
      invariant forall l | 0 <= l < |children| :: children[l] == ParsedChildren(data, used, n)[l]
    {
      EntryInside(i, used, n);
      var key := ReadKey(data, dataOffset, dims);
      if key.Err? {
        return Err;
      }
      keys := keys + [key.value];
      dataOffset := dataOffset + KeySize(n);
      if i < used {
        children := children + [U64At(data, dataOffset)];
        dataOffset := dataOffset + 8;
        NextEntry(i, n);
      }
      i := i + 1;
    }
    assert keys == ParsedKeys(data, used, dims) && children == ParsedChildren(data, used, n);
    r := Ok(Node(level, left, right, keys, children));
  }

  // ---- parsing inverts serializing ----

  /** A key as the reader sees it: byte offsets divided back by the chunk dimensions. */
  function Scaled(key: Key, chunkDims: seq<u64>, dims: seq<u64>): (k: Key)
    requires forall j | 0 <= j < |dims| :: dims[j] > 0
    ensures |k.coords| == |dims|
  {
    Key(seq(|dims|, j requires 0 <= j < |dims| => Quotient(DiskCoord(key, chunkDims, j), dims[j])), key.nbytes, key.mask)
  }

  lemma {:induction false} CoordAtOffset(key: Key, chunkDims: seq<u64>, n: nat, j: nat)
    requires j < n
    ensures CoordBytes(key, chunkDims, n)[j * 8..j * 8 + 8] == LE(DiskCoord(key, chunkDims, j), 8)
  {
    hide LE, DiskCoord;
    if j < n - 1 {
      CoordAtOffset(key, chunkDims, n - 1, j);
    }
  }

  lemma KeyParsesBack(data: seq<byte>, at: nat, key: Key, chunkDims: seq<u64>, dims: seq<u64>)
    requires at + KeySize(|dims|) <= |data| && forall j | 0 <= j < |dims| :: dims[j] > 0
    requires data[at..at + KeySize(|dims|)] == KeyBytes(key, chunkDims, |dims|)
    ensures ParsedKey(data, at, dims) == Scaled(key, chunkDims, dims)
  {
    hide U64At, U32At, DiskCoord, KeyBytes;
    KeyImage(data, at, key, chunkDims, |dims|);
  }

  /** Entry `i` sits at its fixed place in the image. */
  lemma {:induction false} EntryAtOffset(node: Node, chunkDims: seq<u64>, n: nat, count: nat, i: nat)
    requires node.Valid() && i < count <= |node.keys|
    ensures var e := EntryBytes(node, chunkDims, n, i);
      && 24 + EntryOffset(i, n) + |e| <= |ImagePrefix(node, chunkDims, n, count)|
      && ImagePrefix(node, chunkDims, n, count)[24 + EntryOffset(i, n)..24 + EntryOffset(i, n) + |e|] == e
  {
    hide EntryBytes, HeaderBytes, EntrySize, EntryOffset, KeySize;
    var p := ImagePrefix(node, chunkDims, n, count - 1);
    PrefixLength(node, chunkDims, n, count - 1);
    if i < count - 1 {
      EntryAtOffset(node, chunkDims, n, count - 1, i);
      assert ImagePrefix(node, chunkDims, n, count)[..|p|] == p;
      SubRange(ImagePrefix(node, chunkDims, n, count), 0, p, 24 + EntryOffset(i, n), |EntryBytes(node, chunkDims, n, i)|);
    }
  }

  lemma {:induction false} HeaderFirst(node: Node, chunkDims: seq<u64>, n: nat, count: nat)
    requires node.Valid() && count <= |node.keys|
    ensures |ImagePrefix(node, chunkDims, n, count)| >= 24
    ensures ImagePrefix(node, chunkDims, n, count)[..24] == HeaderBytes(node)
  {
    hide EntryBytes, HeaderBytes;
    if count > 0 {
      HeaderFirst(node, chunkDims, n, count - 1);
    }
  }

  lemma HeaderParsesBack(node: Node)
    requires |node.children| <= MAX_CHILDREN
    ensures var h := HeaderBytes(node);
      && h[0..4] == SIGNATURE && h[5] == node.level && U16At(h, 6) == |node.children|
      && U64At(h, 8) == node.left && U64At(h, 16) == node.right
  {
    hide LE, FromLE;
    var h := HeaderBytes(node);
    RoundTrip16(|node.children| % 0x1_0000);
    RoundTrip64(node.left);
    RoundTrip64(node.right);
    assert h[6..8] == LE(|node.children| % 0x1_0000, 2) && h[8..16] == LE(node.left, 8) && h[16..24] == LE(node.right, 8);
  }

  function ScaledNode(node: Node, chunkDims: seq<u64>, dims: seq<u64>): (r: Node)
    requires forall j | 0 <= j < |dims| :: dims[j] > 0
  {
    node.(keys := seq(|node.keys|, i requires 0 <= i < |node.keys| => Scaled(node.keys[i], chunkDims, dims)))
  }

  /** The image byte by byte: "TREE", node type 1 for chunks, the level, then count and siblings; then 65 keys of
      8 bytes and 8 more for each dimension, with 64 addresses between them. */
  lemma ImageBytes(node: Node, chunkDims: seq<u64>, n: nat)
    requires node.Valid()
    ensures var s := Serialized(node, chunkDims, n);
      && |s| >= 24 && s[0..6] == [84, 82, 69, 69, 1, node.level] && U16At(s, 6) == |node.children|
      && U64At(s, 8) == node.left && U64At(s, 16) == node.right
    ensures |Serialized(node, chunkDims, n)| == 24 + 65 * (8 + 8 * n) + 64 * 8
  {
    hide LE, FromLE, ImagePrefix;
    var s, h := Serialized(node, chunkDims, n), HeaderBytes(node);
    PrefixLength(node, chunkDims, n, |node.keys|);
    HeaderFirst(node, chunkDims, n, |node.keys|);
    HeaderParsesBack(node);
    assert s[0..24] == h;
    SubRange(s, 0, h, 0, 6);
    SubRange(s, 0, h, 6, 2);
    SubRange(s, 0, h, 8, 8);
    SubRange(s, 0, h, 16, 8);
  }

  /** Parsing a stored node image gives back its level, siblings, children and scaled keys. */
  lemma NodeParsesBack(m: Mem, at: nat, node: Node, chunkDims: seq<u64>, dims: seq<u64>)
    requires node.Valid() && node.children != [] && forall j | 0 <= j < |dims| :: dims[j] > 0
    requires Holds(m, at, Serialized(node, chunkDims, |dims|))
    ensures Parsed(m, at, dims) == Ok(ScaledNode(node, chunkDims, dims))
  {
    hide HeaderBytes, EntryBytes, ImagePrefix, EntrySize, EntryOffset, KeySize, NodeSize, ParsedKey, U64At, U32At, U16At,
         ParsedKeys, ParsedChildren, Holds;
    var n, used := |dims|, |node.children|;
    var image := Serialized(node, chunkDims, n);
    var prefix := ImagePrefix(node, chunkDims, n, used + 1);
    PrefixLength(node, chunkDims, n, used + 1);
    HeaderFirst(node, chunkDims, n, used + 1);
    HeaderParsesBack(node);
    LoadHeld(m, at, image, 0, 24);
    assert image[0..24] == HeaderBytes(node);
    NextEntry(used, n);
    LoadHeld(m, at, image, 24, EntryOffset(used, n) + KeySize(n));
    var data := image[24..24 + (EntryOffset(used, n) + KeySize(n))];
    assert data == prefix[24..];
    BodyParsesBack(node, chunkDims, dims, data);
  }

  lemma BodyParsesBack(node: Node, chunkDims: seq<u64>, dims: seq<u64>, data: seq<byte>)
    requires node.Valid() && forall j | 0 <= j < |dims| :: dims[j] > 0
    requires |ImagePrefix(node, chunkDims, |dims|, |node.keys|)| >= 24
    requires data == ImagePrefix(node, chunkDims, |dims|, |node.keys|)[24..]
    requires |data| == EntryOffset(|node.children|, |dims|) + KeySize(|dims|)
    ensures ParsedKeys(data, |node.children|, dims) == ScaledNode(node, chunkDims, dims).keys
    ensures ParsedChildren(data, |node.children|, |dims|) == node.children
  {
    hide ImagePrefix, EntrySize, EntryOffset, KeySize, ParsedKey, U64At;
    var n, used := |dims|, |node.children|;
    forall i | 0 <= i <= used ensures ParsedKeys(data, used, dims)[i] == Scaled(node.keys[i], chunkDims, dims) {
      EntryInside(i, used, n);
      KeyInImage(node, chunkDims, n, i, data);
      KeyParsesBack(data, EntryOffset(i, n), node.keys[i], chunkDims, dims);
    }
    forall i | 0 <= i < used ensures ParsedChildren(data, used, n)[i] == node.children[i] {
      EntryInside(i, used, n);
      KeyInImage(node, chunkDims, n, i, data);
      RoundTripAt(data, EntryOffset(i, n) + KeySize(n), node.children[i]);
    }
  }

  lemma RoundTripAt(data: seq<byte>, at: nat, v: u64)
    requires at + 8 <= |data| && data[at..at + 8] == LE(v, 8)
    ensures U64At(data, at) == v
  {
    hide LE, FromLE;
    RoundTrip64(v);
  }

  lemma KeyInImage(node: Node, chunkDims: seq<u64>, n: nat, i: nat, data: seq<byte>)
    requires node.Valid() && i < |node.keys| && |ImagePrefix(node, chunkDims, n, |node.keys|)| >= 24
    requires data == ImagePrefix(node, chunkDims, n, |node.keys|)[24..]
    ensures EntryOffset(i, n) + KeySize(n) <= |data|
    ensures data[EntryOffset(i, n)..EntryOffset(i, n) + KeySize(n)] == KeyBytes(node.keys[i], chunkDims, n)
    ensures i < |node.children| ==>
      (EntryOffset(i, n) + KeySize(n) + 8 <= |data| &&
       data[EntryOffset(i, n) + KeySize(n)..EntryOffset(i, n) + KeySize(n) + 8] == LE(node.children[i], 8))
  {
    hide ImagePrefix, EntrySize, EntryOffset, KeySize, KeyBytes, LE;
    var prefix, e, s := ImagePrefix(node, chunkDims, n, |node.keys|), EntryBytes(node, chunkDims, n, i), EntryOffset(i, n);
    EntryAtOffset(node, chunkDims, n, |node.keys|, i);
    SubRange(prefix, 24, data, s, |e|);
    SubRange(data, s, e, 0, KeySize(n));
    assert e[0..KeySize(n)] == KeyBytes(node.keys[i], chunkDims, n);
    if i < |node.children| {
      SubRange(data, s, e, KeySize(n), 8);
      assert e[KeySize(n)..KeySize(n) + 8] == LE(node.children[i], 8);
    }
  }

  /** Where key `i` and the child behind it stand in the image: size, filter mask, byte offsets, child address. */
  lemma EntryImage(node: Node, chunkDims: seq<u64>, n: nat, i: nat)
    requires node.Valid() && i < |node.keys|
    ensures var s, at := Serialized(node, chunkDims, n), 24 + i * (16 + n * 8);
      && at + 8 + n * 8 <= |s| && U32At(s, at) == node.keys[i].nbytes && U32At(s, at + 4) == node.keys[i].mask
      && (forall j | 0 <= j < n :: U64At(s, at + 8 + j * 8) == DiskCoord(node.keys[i], chunkDims, j))
      && (i < |node.children| ==> at + 16 + n * 8 <= |s| && U64At(s, at + 8 + n * 8) == node.children[i])
  {
    hide Serialized, EntryBytes, U64At, U32At, KeyBytes, LE;
    var s, e := Serialized(node, chunkDims, n), EntryBytes(node, chunkDims, n, i);
    var at := 24 + EntryOffset(i, n);
    EntryPlace(node, chunkDims, n, i);
    EntryFields(s, at, e, node, chunkDims, n, i);
  }

  lemma EntryPlace(node: Node, chunkDims: seq<u64>, n: nat, i: nat)
    requires node.Valid() && i < |node.keys|
    ensures var s, at, e := Serialized(node, chunkDims, n), 24 + EntryOffset(i, n), EntryBytes(node, chunkDims, n, i);
      at + |e| <= |s| && s[at..at + |e|] == e
  {
    hide ImagePrefix, NodeSize, EntryOffset, EntryBytes;
    var s, prefix := Serialized(node, chunkDims, n), ImagePrefix(node, chunkDims, n, |node.keys|);
    PrefixLength(node, chunkDims, n, |node.keys|);
    EntryAtOffset(node, chunkDims, n, |node.keys|, i);
    assert s[0..|prefix|] == prefix;
    SubRange(s, 0, prefix, 24 + EntryOffset(i, n), |EntryBytes(node, chunkDims, n, i)|);
  }

  lemma EntryFields(s: seq<byte>, at: nat, e: seq<byte>, node: Node, chunkDims: seq<u64>, n: nat, i: nat)
    requires i < |node.keys| && e == EntryBytes(node, chunkDims, n, i) && at + |e| <= |s| && s[at..at + |e|] == e
    ensures at + KeySize(n) <= |s| && U32At(s, at) == node.keys[i].nbytes && U32At(s, at + 4) == node.keys[i].mask
    ensures forall j | 0 <= j < n :: U64At(s, at + 8 + j * 8) == DiskCoord(node.keys[i], chunkDims, j)
    ensures i < |node.children| ==> at + KeySize(n) + 8 <= |s| && U64At(s, at + KeySize(n)) == node.children[i]
  {
    hide U64At, U32At, KeyBytes, LE;
    SubRange(s, at, e, 0, KeySize(n));
    assert e[0..KeySize(n)] == KeyBytes(node.keys[i], chunkDims, n);
    KeyImage(s, at, node.keys[i], chunkDims, n);
    if i < |node.children| {
      SubRange(s, at, e, KeySize(n), 8);
      RoundTripAt(s, at + KeySize(n), node.children[i]);
    }
  }

  lemma KeyImage(data: seq<byte>, at: nat, key: Key, chunkDims: seq<u64>, n: nat)
    requires at + KeySize(n) <= |data| && data[at..at + KeySize(n)] == KeyBytes(key, chunkDims, n)
    ensures U32At(data, at) == key.nbytes && U32At(data, at + 4) == key.mask
    ensures forall j | 0 <= j < n :: U64At(data, at + 8 + j * 8) == DiskCoord(key, chunkDims, j)
  {
    hide LE, DiskCoord, CoordBytes, FromLE;
    var image := KeyBytes(key, chunkDims, n);
    SubRange(data, at, image, 0, 4);
    SubRange(data, at, image, 4, 4);
    assert image[0..4] == LE(key.nbytes, 4) && image[4..8] == LE(key.mask, 4);
    RoundTrip32(key.nbytes);
    RoundTrip32(key.mask);
    forall j | 0 <= j < n ensures U64At(data, at + 8 + j * 8) == DiskCoord(key, chunkDims, j) {
      CoordAtOffset(key, chunkDims, n, j);
      RoundTrip64(DiskCoord(key, chunkDims, j));
      SubRange(data, at, image, 8 + j * 8, 8);
      assert image[8 + j * 8..8 + j * 8 + 8] == CoordBytes(key, chunkDims, n)[j * 8..j * 8 + 8];
    }
  }

  /** No coordinate of the key wraps when it is turned into a byte offset. */
  predicate NoWrap(key: Key, chunkDims: seq<u64>)
  {
    forall j | 0 <= j < |key.coords| && j < |chunkDims| :: (key.coords[j] as int) * chunkDims[j] < 0x1_0000_0000_0000_0000
  }

  lemma ScaledComponent(c: u64, d: u64)
    requires d > 0
    ensures (if c != UNDEFINED then Mul64(c, d) else c) / d == c <==> c * d < 0x1_0000_0000_0000_0000
  {
    var m := 0x1_0000_0000_0000_0000;
    if c == UNDEFINED {
      if d > 1 {
        MulMono(2, d, c);
        assert c * d == d * c;
        DivBelow(c, c, d) by { MulMono(2, d, c); assert c * d == d * c; }
      }
    } else if c * d < m {
      DivUnique(c * d, 0, c * d, m) by { MulMono(0, c, d); }
      DivUnique(c * d, c, 0, d);
    } else {
      assert Mul64(c, d) < c * d;
      DivBelow(Mul64(c, d), c, d);
    }
  }

  /** A data key survives the disk, with a zero trailing dimension, exactly when no coordinate wraps. */
  lemma KeySurvives(key: Key, chunkDims: seq<u64>, dims: seq<u64>)
    requires |key.coords| == |chunkDims| && |dims| == |chunkDims| + 1 && dims[..|chunkDims|] == chunkDims
    requires forall j | 0 <= j < |dims| :: dims[j] > 0
    ensures Scaled(key, chunkDims, dims).coords[|chunkDims|] == 0
    ensures Scaled(key, chunkDims, dims).nbytes == key.nbytes && Scaled(key, chunkDims, dims).mask == key.mask
    ensures Scaled(key, chunkDims, dims).coords == key.coords + [0] <==> NoWrap(key, chunkDims)
  {
    var s := Scaled(key, chunkDims, dims).coords;
    forall j | 0 <= j < |chunkDims|
      ensures s[j] == key.coords[j] <==> (key.coords[j] as int) * chunkDims[j] < 0x1_0000_0000_0000_0000
    {
      assert dims[j] == chunkDims[j];
      ScaledComponent(key.coords[j], chunkDims[j]);
    }
    if NoWrap(key, chunkDims) {
      assert s == key.coords + [0];
    }
    if s == key.coords + [0] {
      forall j | 0 <= j < |chunkDims| ensures s[j] == key.coords[j] {
        assert s[j] == (key.coords + [0])[j];
      }
    }
  }
}
