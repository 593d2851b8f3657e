/** Attribute messages: EncodeAttributeMessage (internal/core/messages_write.go) and ParseAttributeMessage
    (internal/core/attribute.go).  The datatype and dataspace inside are carried as their encoded bytes. */
module AttributeCodec {
  import opened Arith
  import opened Bytes
  import opened Storage

  datatype Attribute = Attribute(name: seq<byte>, datatype_: seq<byte>, dataspace: seq<byte>, data: seq<byte>)

  /** Version 3: three 16-bit sizes, a name encoding byte, then the parts back to back. */
  function AttributeBytes(a: Attribute): (s: seq<byte>)
    ensures |s| == 10 + |a.name| + |a.datatype_| + |a.dataspace| + |a.data|
  {
    Head(a) + (a.name + [0] + a.datatype_ + a.dataspace + a.data)
  }

  function Head(a: Attribute): (s: seq<byte>)
    ensures |s| == 9
  {
    [3, 0] + LE((|a.name| + 1) % 0x1_0000, 2) + LE(|a.datatype_| % 0x1_0000, 2) + LE(|a.dataspace| % 0x1_0000, 2) + [0]
  }

  /** A message's data fits the 16-bit size field of its header. */
  predicate Fits(a: Attribute)
  {
    a.name != [] && |AttributeBytes(a)| < 0x1_0000
  }

  /** Padding of versions 1 and 2, in 16-bit arithmetic. */
  function AlignTo8(size: u16): nat
  {
    (((size + 7) % 0x1_0000) / 8) * 8
  }

  function Padded(version: byte, size: u16): nat
  {
    if version < 3 then AlignTo8(size) else size
  }

  /** ParseAttributeMessage. */
  function ParsedAttribute(data: seq<byte>): Result<Attribute>
  {
    if |data| < 8 then Err
    else
      var version, nameSize, datatypeSize, dataspaceSize := data[0], U16At(data, 2), U16At(data, 4), U16At(data, 6);
      Parts(data, version, if version >= 3 then 9 else 8, nameSize, datatypeSize, dataspaceSize)
  }

  /** The parts behind the sizes, from `nameAt` on. */
  function Parts(data: seq<byte>, version: byte, nameAt: nat, nameSize: u16, datatypeSize: u16, dataspaceSize: u16): Result<Attribute>
  {
    if nameAt + nameSize > |data| then Err
    else
      var name := if nameSize > 0 then data[nameAt..nameAt + nameSize - 1] else [];
      var typeAt := nameAt + Padded(version, nameSize);
      if typeAt + datatypeSize > |data| then Err
      else
        var spaceAt := typeAt + Padded(version, datatypeSize);
        if spaceAt + dataspaceSize > |data| then Err
        else
          var valueAt := spaceAt + Padded(version, dataspaceSize);
          Ok(Attribute(name, data[typeAt..typeAt + datatypeSize], data[spaceAt..spaceAt + dataspaceSize],
              if valueAt < |data| then data[valueAt..] else []))
  }

  method ParseAttributeMessage(data: seq<byte>) returns (r: Result<Attribute>)
    ensures r == ParsedAttribute(data)
  {
    hide U16At, Parts;
    if |data| < 8 {
      return Err;
    }
    var offset: nat := 0;
    var version := data[offset];
    offset := offset + 2;
    var nameSize := U16At(data, offset);
    offset := offset + 2;
    var datatypeSize := U16At(data, offset);
    offset := offset + 2;
    var dataspaceSize := U16At(data, offset);
    offset := offset + 2;
    if version >= 3 {
      offset := offset + 1;
    }
    r := ReadParts(data, version, offset, nameSize, datatypeSize, dataspaceSize);
  }

  method ReadParts(data: seq<byte>, version: byte, nameAt: nat, nameSize: u16, datatypeSize: u16, dataspaceSize: u16)
    returns (r: Result<Attribute>)
    ensures r == Parts(data, version, nameAt, nameSize, datatypeSize, dataspaceSize)
  {
    hide Padded;
    var offset := nameAt;
    if offset + nameSize > |data| {
      return Err;
    }
    var name: seq<byte> := [];
    if nameSize > 0 {
      name := data[offset..offset + nameSize - 1];
    }
    offset := offset + Padded(version, nameSize);
    if offset + datatypeSize > |data| {
      return Err;
    }
    var datatype_ := data[offset..offset + datatypeSize];
    offset := offset + Padded(version, datatypeSize);
    if offset + dataspaceSize > |data| {
      return Err;
    }
    var dataspace := data[offset..offset + dataspaceSize];
    offset := offset + Padded(version, dataspaceSize);
    var value: seq<byte> := [];
    if offset < |data| {
      value := data[offset..];
    }
    r := Ok(Attribute(name, datatype_, dataspace, value));
  }

  /** EncodeAttributeMessage: only an empty name is refused. */
  method EncodeAttributeMessage(a: Attribute) returns (r: Result<seq<byte>>)
    ensures r == if a.name == [] then Err else Ok(AttributeBytes(a))
  {
    hide Head;
    if a.name == [] {
      return Err;
    }
    var size := 9 + (|a.name| + 1) + |a.datatype_| + |a.dataspace| + |a.data|;
    var buf := new byte[size](_ => 0);
    var offset := PutHead(buf, a);
    ghost var head := buf[..offset];
    offset := PutBody(buf, offset, a);
    assert buf[..] == buf[..offset] == AttributeBytes(a);
    r := Ok(buf[..]);
  }

  method PutHead(buf: array<byte>, a: Attribute) returns (offset: nat)
    requires buf.Length >= 9
    modifies buf
    ensures offset == 9 && buf[..offset] == Head(a)
  {
    hide LE;
    offset := Append(buf, 0, [3, 0]);
    offset := Append(buf, offset, LE((|a.name| + 1) % 0x1_0000, 2));
    offset := Append(buf, offset, LE(|a.datatype_| % 0x1_0000, 2));
    offset := Append(buf, offset, LE(|a.dataspace| % 0x1_0000, 2));
    offset := Append(buf, offset, [0]);
  }

  /** The variable parts: name, terminator, datatype, dataspace, value. */
  method PutBody(buf: array<byte>, at: nat, a: Attribute) returns (offset: nat)
    requires at + |a.name| + 1 + |a.datatype_| + |a.dataspace| + |a.data| <= buf.Length
    modifies buf
    ensures offset == at + |a.name| + 1 + |a.datatype_| + |a.dataspace| + |a.data|
    ensures buf[..offset] == old(buf[..at]) + (a.name + [0] + a.datatype_ + a.dataspace + a.data)
  {
    offset := Append(buf, at, a.name);
    offset := Append(buf, offset, [0]);
    offset := Append(buf, offset, a.datatype_);
    offset := Append(buf, offset, a.dataspace);
    offset := Append(buf, offset, a.data);
  }

  // ---- every version ----

  /** What follows a part: nothing from version 3 on, before that any bytes up to the next multiple of 8. */
  ghost predicate Filler(version: byte, part: seq<byte>, pad: seq<byte>)
  {
    if version >= 3 then pad == [] && |part| < 0x1_0000
    else |pad| < 8 && (|part| + |pad|) % 8 == 0 && |part| + |pad| < 0x1_0000
  }

  datatype Pads = Pads(name: seq<byte>, datatype_: seq<byte>, dataspace: seq<byte>)

  /** A message of any version: version, a byte the reader skips, three 16-bit sizes, from version 3 on a name
      encoding byte, then the name with its terminator, the datatype, the dataspace and the value. */
  ghost function Laid(version: byte, skipped: byte, encoding: byte, a: Attribute, pads: Pads): (s: seq<byte>)
  {
    LaidHead(version, skipped, encoding, a)
    + ((a.name + [0] + pads.name) + (a.datatype_ + pads.datatype_) + (a.dataspace + pads.dataspace) + a.data)
  }

  ghost function LaidHead(version: byte, skipped: byte, encoding: byte, a: Attribute): (s: seq<byte>)
    ensures |s| == if version >= 3 then 9 else 8
  {
    [version, skipped] + LE(|a.name| + 1, 2) + LE(|a.datatype_|, 2) + LE(|a.dataspace|, 2)
    + if version >= 3 then [encoding] else []
  }

  ghost predicate Filled(version: byte, a: Attribute, pads: Pads)
  {
    Filler(version, a.name + [0], pads.name) && Filler(version, a.datatype_, pads.datatype_)
    && Filler(version, a.dataspace, pads.dataspace)
  }

  /** Before version 3 a part takes the next multiple of 8, except that the 16-bit sum wraps for the last seven sizes. */
  lemma PaddedExact(version: byte, size: u16)
    ensures version >= 3 ==> Padded(version, size) == size
    ensures version < 3 && size <= 0xFFF8 ==> Padded(version, size) % 8 == 0 && size <= Padded(version, size) < size + 8
    ensures version < 3 && size > 0xFFF8 ==> Padded(version, size) == 0
  {
  }

  lemma PaddedLength(version: byte, part: seq<byte>, pad: seq<byte>)
    requires Filler(version, part, pad)
    ensures |part| < 0x1_0000 && Padded(version, |part|) == |part| + |pad|
  {
    PaddedExact(version, |part|);
  }

  lemma HeadOfLaid(version: byte, skipped: byte, encoding: byte, a: Attribute, pads: Pads, k: nat)
    requires 8 <= k <= |Laid(version, skipped, encoding, a, pads)|
    ensures Laid(version, skipped, encoding, a, pads)[..k][0..8] == LaidHead(version, skipped, encoding, a)[..8]
  {
    hide LaidHead;
  }

  lemma LaidSizes(version: byte, skipped: byte, encoding: byte, a: Attribute, pads: Pads, k: nat)
    requires Filled(version, a, pads) && 8 <= k <= |Laid(version, skipped, encoding, a, pads)|
    ensures var s := Laid(version, skipped, encoding, a, pads)[..k];
      s[0] == version && U16At(s, 2) == |a.name| + 1 && U16At(s, 4) == |a.datatype_| && U16At(s, 6) == |a.dataspace|
  {
    hide LE, FromLE;
    var s, head := Laid(version, skipped, encoding, a, pads)[..k], LaidHead(version, skipped, encoding, a);
    assert head[2..4] == LE(|a.name| + 1, 2) && head[4..6] == LE(|a.datatype_|, 2) && head[6..8] == LE(|a.dataspace|, 2);
    HeadOfLaid(version, skipped, encoding, a, pads, k);
    SubRange(s, 0, head[..8], 2, 2);
    SubRange(s, 0, head[..8], 4, 2);
    SubRange(s, 0, head[..8], 6, 2);
    assert head[..8][2..4] == head[2..4] && head[..8][4..6] == head[4..6] && head[..8][6..8] == head[6..8];
    RoundTrip16(|a.name| + 1);
    RoundTrip16(|a.datatype_|);
    RoundTrip16(|a.dataspace|);
  }

  ghost predicate PartAt(all: seq<byte>, at: nat, part: seq<byte>)
  {
    at + |part| <= |all| && all[at..at + |part|] == part
  }

  /** Where the parts of a message lie, as far as the padding says. */
  ghost predicate Placed(all: seq<byte>, a: Attribute, pads: Pads, nameAt: nat)
  {
    var typeAt := nameAt + |a.name| + 1 + |pads.name|;
    var spaceAt := typeAt + |a.datatype_| + |pads.datatype_|;
    var valueAt := spaceAt + |a.dataspace| + |pads.dataspace|;
    && |all| == valueAt + |a.data| && PartAt(all, nameAt, a.name) && PartAt(all, typeAt, a.datatype_)
    && PartAt(all, spaceAt, a.dataspace) && PartAt(all, valueAt, a.data)
  }

  lemma LaidParts(version: byte, skipped: byte, encoding: byte, a: Attribute, pads: Pads)
    ensures Placed(Laid(version, skipped, encoding, a, pads), a, pads, if version >= 3 then 9 else 8)
  {
    hide LaidHead;
  }

  /** The first `k` bytes of a message of any version are read exactly when they reach the end of its dataspace,
      and then give the attribute, with as much of its value as they hold. */
  lemma LaidParsesBack(version: byte, skipped: byte, encoding: byte, a: Attribute, pads: Pads, k: nat)
    requires Filled(version, a, pads) && k <= |Laid(version, skipped, encoding, a, pads)|
    ensures var all := Laid(version, skipped, encoding, a, pads); var r := ParsedAttribute(all[..k]);
      && (r.Ok? <==> k + |a.data| + |pads.dataspace| >= |all|)
      && (r.Ok? ==> r.value == a.(data := if k + |a.data| > |all| then a.data[..k + |a.data| - |all|] else []))
      && ParsedAttribute(all) == Ok(a)
  {
    hide LaidHead, Padded, Filler, U16At;
    var all := Laid(version, skipped, encoding, a, pads);
    PaddedLength(version, a.name + [0], pads.name);
    PaddedLength(version, a.datatype_, pads.datatype_);
    PaddedLength(version, a.dataspace, pads.dataspace);
    CutParses(version, skipped, encoding, a, pads, k);
    CutParses(version, skipped, encoding, a, pads, |all|);
    assert all[..|all|] == all && a.data[..|a.data|] == a.data;
  }

  /** The parts of a message cut after `k` bytes. */
  lemma PartsCut(all: seq<byte>, version: byte, a: Attribute, pads: Pads, nameAt: nat, k: nat)
    requires k <= |all| && Placed(all, a, pads, nameAt)
    requires |a.name| + 1 < 0x1_0000 && Padded(version, |a.name| + 1) == |a.name| + 1 + |pads.name|
    requires |a.datatype_| < 0x1_0000 && Padded(version, |a.datatype_|) == |a.datatype_| + |pads.datatype_|
    requires |a.dataspace| < 0x1_0000 && Padded(version, |a.dataspace|) == |a.dataspace| + |pads.dataspace|
    ensures var r := Parts(all[..k], version, nameAt, |a.name| + 1, |a.datatype_|, |a.dataspace|);
      && (r.Ok? <==> k + |a.data| + |pads.dataspace| >= |all|)
      && (r.Ok? ==> r.value == a.(data := if k + |a.data| > |all| then a.data[..k + |a.data| - |all|] else []))
  {
    hide Padded, PartAt;
    var typeAt := nameAt + |a.name| + 1 + |pads.name|;
    var spaceAt := typeAt + |a.datatype_| + |pads.datatype_|;
    if k >= spaceAt + |a.dataspace| {
      CutPart(all, k, nameAt, a.name);
      CutPart(all, k, typeAt, a.datatype_);
      CutPart(all, k, spaceAt, a.dataspace);
      CutValue(all, k, a.data);
    }
  }

  lemma CutPart(all: seq<byte>, k: nat, at: nat, part: seq<byte>)
    requires PartAt(all, at, part) && at + |part| <= k <= |all|
    ensures all[..k][at..at + |part|] == part
  {
  }

  lemma CutValue(all: seq<byte>, k: nat, value: seq<byte>)
    requires |value| <= |all| && PartAt(all, |all| - |value|, value) && k <= |all|
    ensures k + |value| > |all| ==> all[..k][|all| - |value|..] == value[..k + |value| - |all|]
  {
    if k + |value| > |all| {
      var at := |all| - |value|;
      assert all[..k][at..] == all[at..at + |value|][..k - at];
    }
  }

  lemma CutParses(version: byte, skipped: byte, encoding: byte, a: Attribute, pads: Pads, k: nat)
    requires Filled(version, a, pads) && k <= |Laid(version, skipped, encoding, a, pads)|
    requires |a.name| + 1 < 0x1_0000 && Padded(version, |a.name| + 1) == |a.name| + 1 + |pads.name|
    requires |a.datatype_| < 0x1_0000 && Padded(version, |a.datatype_|) == |a.datatype_| + |pads.datatype_|
    requires |a.dataspace| < 0x1_0000 && Padded(version, |a.dataspace|) == |a.dataspace| + |pads.dataspace|
    ensures var all := Laid(version, skipped, encoding, a, pads); var r := ParsedAttribute(all[..k]);
      && (r.Ok? <==> k + |a.data| + |pads.dataspace| >= |all|)
      && (r.Ok? ==> r.value == a.(data := if k + |a.data| > |all| then a.data[..k + |a.data| - |all|] else []))
  {
    hide Laid, Padded, Filler, U16At, Parts, PartAt;
    LaidParts(version, skipped, encoding, a, pads);
    if k >= 8 {
      LaidSizes(version, skipped, encoding, a, pads, k);
      PartsCut(Laid(version, skipped, encoding, a, pads), version, a, pads, if version >= 3 then 9 else 8, k);
    }
  }

  /** An attribute short enough for its message header is laid out as version 3 without padding, and survives. */
  lemma AttributeParsesBack(a: Attribute)
    requires Fits(a)
    ensures AttributeBytes(a) == Laid(3, 0, 0, a, Pads([], [], []))
    ensures ParsedAttribute(AttributeBytes(a)) == Ok(a)
  {
    hide LE, ParsedAttribute;
    var pads := Pads([], [], []);
    var laid := Laid(3, 0, 0, a, pads);
    assert AttributeBytes(a) == laid;
    LaidParsesBack(3, 0, 0, a, pads, |laid|);
  }

  // ---- the attribute info message ----

  datatype Info = Info(heap: u64, btree: u64)

  /** EncodeAttributeInfoMessage without creation-order tracking. */
  function InfoBytes(info: Info): (s: seq<byte>)
    ensures |s| == 18
  {
    [0, 0] + LE(info.heap, 8) + LE(info.btree, 8)
  }

  /** ParseAttributeInfoMessage: bit 0 adds four bytes before the addresses, bit 1 one address after them. */
  function ParsedInfo(data: seq<byte>): Result<Info>
  {
    if |data| < 2 then Err
    else
      var at := if data[1] % 2 == 1 then 6 else 2;
      if at + 16 > |data| || ((data[1] / 2) % 2 == 1 && at + 24 > |data|) then Err
      else Ok(Info(U64At(data, at), U64At(data, at + 8)))
  }

  /** An info message with any flags: four bytes of limits under bit 0, a third address under bit 1. */
  ghost predicate InfoLaid(data: seq<byte>, version: byte, flags: byte, limits: seq<byte>, info: Info, order: seq<byte>)
  {
    && |limits| == (if flags % 2 == 1 then 4 else 0) && |order| == (if (flags / 2) % 2 == 1 then 8 else 0)
    && [version, flags] + limits + LE(info.heap, 8) + LE(info.btree, 8) + order <= data
  }

  /** Its two addresses are read under all flags, and a message too short for its flags is refused. */
  lemma InfoReads(data: seq<byte>, version: byte, flags: byte, limits: seq<byte>, info: Info, order: seq<byte>, k: nat)
    requires InfoLaid(data, version, flags, limits, info, order) && k <= |data|
    ensures ParsedInfo(data[..k]) == if k >= 18 + |limits| + |order| then Ok(info) else Err
  {
    hide LE, FromLE;
    var at := 2 + |limits|;
    var all := [version, flags] + limits + LE(info.heap, 8) + LE(info.btree, 8) + order;
    if k >= 18 + |limits| + |order| {
      var s := data[..k];
      assert all[at..at + 8] == LE(info.heap, 8) && all[at + 8..at + 16] == LE(info.btree, 8);
      assert s[..|all|] == all && s[1] == flags;
      SubRange(s, 0, all, at, 8);
      SubRange(s, 0, all, at + 8, 8);
      RoundTrip64(info.heap);
      RoundTrip64(info.btree);
    } else if k >= 2 {
      assert data[..k][1] == data[..|all|][1] == flags;
    }
  }

  lemma InfoParsesBack(info: Info)
    ensures ParsedInfo(InfoBytes(info)) == Ok(info)
  {
    hide LE, ParsedInfo;
    var s := InfoBytes(info);
    assert [0, 0] + [] + LE(info.heap, 8) + LE(info.btree, 8) + [] == s;
    InfoReads(s, 0, 0, [], info, [], 18);
    assert s[..18] == s;
  }
}
