/** Self-delimiting datatype messages: encoding compound types (internal/core/datatype_compound_write.go),
    measuring and parsing them (internal/core/datatype.go, internal/core/datatype_compound.go).
    Format: section IV.A.2.d of the HDF5 File Format Specification Version 3.0. */
module Compound {
  import opened Arith
  import opened Bytes
  import opened Storage

  type nibble = v: int | 0 <= v < 16
  type u24 = v: int | 0 <= v < 0x100_0000

  const FIXED: nibble := 0
  const FLOAT: nibble := 1
  const TIME: nibble := 2
  const BITFIELD: nibble := 4
  const COMPOUND: nibble := 6

  /** DatatypeMessage: class, version and bit field share one word on disk. */
  datatype Message = Message(class_: nibble, version: nibble, size: u32, bits: u24, props: seq<byte>)

  /** A field of a compound: CompoundFieldDef when written, CompoundMember when parsed. */
  datatype Field = Field(name: seq<byte>, offset: u32, type_: Message)

  // ---- bytes ----

  /** Class in bits 0-3, version in bits 4-7, bit field in bits 8-31. */
  function HeaderWord(m: Message): u32
  {
    m.class_ + m.version * 16 + m.bits * 256
  }

  function MessageBytes(m: Message): (s: seq<byte>)
    ensures |s| == 8 + |m.props|
  {
    LE(HeaderWord(m), 4) + LE(m.size, 4) + m.props
  }

  function FieldBytes(f: Field): (s: seq<byte>)
    ensures |s| == |f.name| + 5 + 8 + |f.type_.props|
  {
    f.name + [0] + LE(f.offset, 4) + MessageBytes(f.type_)
  }

  function FieldsBytes(fields: seq<Field>): seq<byte>
  {
    if fields == [] then [] else FieldsBytes(fields[..|fields| - 1]) + FieldBytes(fields[|fields| - 1])
  }

  /** A version 3 compound: the member count, then the members back to back. */
  function CompoundMessage(size: u32, fields: seq<Field>): (m: Message)
    requires |fields| < 0x1_0000_0000
  {
    Message(COMPOUND, 3, size, 0, LE(|fields|, 4) + FieldsBytes(fields))
  }

  // ---- measuring and parsing ----

  /** How many of the bytes after the header belong to a message of the class: all of them when the class does
      not say, or when a compound cannot be measured. */
  function PropsLen(data: seq<byte>): (n: nat)
    requires |data| >= 8
    decreases |data|, 0, 0
  {
    var class_, rest := U32At(data, 0) % 16, |data| - 8;
    if class_ == FIXED || class_ == BITFIELD then 4
    else if class_ == FLOAT then 12
    else if class_ == TIME then 2
    else if class_ == COMPOUND then
      var measured := CompoundLen(data[8..], (U32At(data, 0) / 16) % 16);
      if measured.Ok? then measured.value else rest
    else rest
  }

  /** ParseDatatypeMessage. */
  function Parsed(data: seq<byte>): (r: Result<Message>)
    ensures r.Ok? ==> 8 + |r.value.props| <= |data|
    decreases |data|, 1, 0
  {
    if |data| < 8 then Err
    else
      var word, n := U32At(data, 0), PropsLen(data);
      var end := if 8 + n > |data| then |data| else 8 + n;
      Ok(Message(word % 16, (word / 16) % 16, U32At(data, 4), word / 256, data[8..end]))
  }

  /** calculateCompoundPropsLen: only version 3 measures itself. */
  function CompoundLen(p: seq<byte>, version: nat): (r: Result<nat>)
    ensures r.Ok? ==> 4 <= r.value <= |p|
    decreases |p|, 3, 0
  {
    if version != 3 || |p| < 4 then Err else MembersLen(p, U32At(p, 0), 4)
  }

  /** Where member number `count` from here ends. */
  function MembersLen(p: seq<byte>, count: nat, offset: nat): (r: Result<nat>)
    requires 4 <= offset <= |p|
    ensures r.Ok? ==> offset <= r.value <= |p|
    decreases |p|, 2, count
  {
    if count == 0 then Ok(offset)
    else
      match MemberAt(p, offset)
      case Err => Err
      case Ok(f) => MembersLen(p, count - 1, offset + |FieldBytes(f)|)
  }

  /** The member that starts at `offset`: name, byte offset, datatype. */
  function MemberAt(p: seq<byte>, offset: nat): (r: Result<Field>)
    requires 4 <= offset <= |p|
    ensures r.Ok? ==> offset + |FieldBytes(r.value)| <= |p|
    decreases |p|, 1, 0
  {
    var end := NulEnd(p, offset);
    if end >= |p| || end + 13 > |p| then Err
    else
      match Parsed(p[end + 5..])
      case Err => Err
      case Ok(m) => Ok(Field(p[offset..end], U32At(p, end + 1), m))
  }

  /** parseCompoundV3 from `offset` on: the members and where they end. */
  function MembersFrom(p: seq<byte>, count: nat, offset: nat): (r: Result<(seq<Field>, nat)>)
    requires 4 <= offset <= |p|
    ensures r.Ok? ==> |r.value.0| == count && offset <= r.value.1 <= |p|
    ensures r.Ok? ==> forall i | 0 <= i < count :: |r.value.0[i].type_.props| + 8 < |p|
    decreases count
  {
    if count == 0 then Ok(([], offset))
    else
      match MemberAt(p, offset)
      case Err => Err
      case Ok(f) =>
        match MembersFrom(p, count - 1, offset + |FieldBytes(f)|)
        case Err => Err
        case Ok((rest, end)) => Ok(([f] + rest, end))
  }

  /** parseCompoundV3. */
  function ParsedV3(p: seq<byte>): Result<(seq<Field>, nat)>
  {
    if |p| < 4 then Err else MembersFrom(p, U32At(p, 0), 4)
  }

  // ---- what a message says, byte by byte ----

  /** The first word: class and version share a byte, the bit field has the other three. */
  lemma FirstWord(data: seq<byte>)
    requires |data| >= 8
    ensures U32At(data, 0) % 16 == data[0] % 16 && (U32At(data, 0) / 16) % 16 == data[0] / 16
    ensures U32At(data, 0) / 256 == data[1] + (data[2] as int) * 0x100 + (data[3] as int) * 0x1_0000
  {
    hide U32At;
    Word32(data, 0);
    var bits := data[1] + (data[2] as int) * 0x100 + (data[3] as int) * 0x1_0000;
    DivUnique(U32At(data, 0), bits, data[0], 256);
    DivUnique(U32At(data, 0), data[0] / 16 + 16 * bits, data[0] % 16, 16);
    DivUnique(data[0] / 16 + 16 * bits, bits, data[0] / 16, 16);
  }

  /** At most `n` of the bytes behind the header. */
  function Front(data: seq<byte>, n: nat): (s: seq<byte>)
    requires |data| >= 8
    ensures 8 + |s| <= |data| && s == data[8..8 + |s|] && |s| <= n && (|s| < n ==> 8 + |s| == |data|)
  {
    if 8 + n > |data| then data[8..] else data[8..8 + n]
  }

  /** What every message of 8 bytes or more says, and which bytes behind its header belong to it: 4 for integers
      (class 0) and bit fields (4), 12 for floats (1), 2 for times (2), the members for a compound (6) of version
      3 that parses, and everything that is left for every other class and every other compound. */
  lemma MessageParts(data: seq<byte>)
    ensures Parsed(data).Err? <==> |data| < 8
    ensures |data| >= 8 ==>
      var m, c, v := Parsed(data).value, data[0] % 16, data[0] / 16;
      && m.class_ == c && m.version == v
      && m.bits == data[1] + (data[2] as int) * 0x100 + (data[3] as int) * 0x1_0000
      && m.size == data[4] + (data[5] as int) * 0x100 + (data[6] as int) * 0x1_0000 + (data[7] as int) * 0x100_0000
      && (c == 0 || c == 4 ==> m.props == Front(data, 4))
      && (c == 1 ==> m.props == Front(data, 12))
      && (c == 2 ==> m.props == Front(data, 2))
      && (c == 6 && v == 3 && ParsedV3(data[8..]).Ok? ==> m.props == data[8..8 + ParsedV3(data[8..]).value.1])
      && (c == 6 && (v != 3 || ParsedV3(data[8..]).Err?) ==> m.props == data[8..])
      && (c == 3 || c == 5 || c > 6 ==> m.props == data[8..])
  {
    hide U32At, CompoundLen, ParsedV3;
    if |data| >= 8 {
      FirstWord(data);
      Word32(data, 4);
      MeasuredIffParsed(data[8..], data[0] / 16);
    }
  }

  /** A compound can be measured exactly when it has version 3 and its members parse, and both end together. */
  lemma MeasuredIffParsed(p: seq<byte>, version: nat)
    ensures CompoundLen(p, version).Ok? <==> version == 3 && ParsedV3(p).Ok?
    ensures CompoundLen(p, version).Ok? ==> CompoundLen(p, version).value == ParsedV3(p).value.1
  {
    hide U32At, MembersLen, MembersFrom;
    if version == 3 && |p| >= 4 {
      MembersEnd(p, U32At(p, 0), 4);
    }
  }

  lemma {:induction false} MembersEnd(p: seq<byte>, count: nat, offset: nat)
    requires 4 <= offset <= |p|
    ensures MembersLen(p, count, offset).Ok? <==> MembersFrom(p, count, offset).Ok?
    ensures MembersLen(p, count, offset).Ok? ==> MembersLen(p, count, offset).value == MembersFrom(p, count, offset).value.1
    decreases count
  {
    hide MemberAt, FieldBytes;
    if count > 0 && MemberAt(p, offset).Ok? {
      MembersEnd(p, count - 1, offset + |FieldBytes(MemberAt(p, offset).value)|);
    }
  }

  // ---- the same as loops ----

  method ScanName(p: seq<byte>, from: nat) returns (e: nat)
    requires from <= |p|
    ensures e == NulEnd(p, from)
  {
    e := from;
    while e < |p| && p[e] != 0
      invariant from <= e <= |p| && NulEnd(p, from) == NulEnd(p, e)
    {
      e := e + 1;
    }
  }

  method ParseDatatypeMessage(data: seq<byte>) returns (r: Result<Message>)
    ensures r == Parsed(data)
    ensures r.Err? <==> |data| < 8
    ensures r.Ok? ==> r.value.class_ == data[0] % 16 && r.value.version == data[0] / 16
    ensures r.Ok? && data[0] % 16 !in {0, 1, 2, 4, 6} ==> r.value.props == data[8..]
    ensures r.Ok? && data[0] % 16 == 6 && (data[0] / 16 != 3 || ParsedV3(data[8..]).Err?) ==> r.value.props == data[8..]
    decreases |data|, 1
  {
    hide U32At, MessageBytes, CompoundLen, ParsedV3, Front;
    MessageParts(data);
    if |data| < 8 {
      return Err;
    }
    var word := U32At(data, 0);
    var class_, version, bits, size := word % 16, (word / 16) % 16, word / 256, U32At(data, 4);
    var propsLen: nat := |data| - 8;
    if class_ == FIXED || class_ == BITFIELD {
      propsLen := 4;
    } else if class_ == FLOAT {
      propsLen := 12;
    } else if class_ == TIME {
      propsLen := 2;
    } else if class_ == COMPOUND {
      var calculated := CalculateCompoundPropsLen(data[8..], version);
      if calculated.Ok? {
        propsLen := calculated.value;
      }
    }
    if 8 + propsLen > |data| {
      propsLen := |data| - 8;
    }
    r := Ok(Message(class_, version, size, bits, data[8..8 + propsLen]));
  }

  method CalculateCompoundPropsLen(p: seq<byte>, version: nat) returns (r: Result<nat>)
    ensures r == CompoundLen(p, version)
    decreases |p|, 2
  {
    hide U32At, MessageBytes, Parsed, FieldBytes, NulEnd;
    if version != 3 {
      return Err;
    }
    if |p| < 4 {
      return Err;
    }
    var numMembers: nat := U32At(p, 0);
    var offset: nat := 4;
    var i: nat := 0;
    while i < numMembers
      invariant i <= numMembers && 4 <= offset <= |p|
      invariant MembersLen(p, numMembers, 4) == MembersLen(p, numMembers - i, offset)
    {
      var nameEnd := ScanName(p, offset);
      if nameEnd >= |p| {
        return Err;
      }
      ghost var start := offset;
      offset := nameEnd + 1;
      if offset + 4 > |p| {
        return Err;
      }
      offset := offset + 4;
      if offset + 8 > |p| {
        return Err;
      }
      var member := ParseDatatypeMessage(p[offset..]);
      if member.Err? {
        return Err;
      }
      offset := offset + (8 + |member.value.props|);
      assert offset == start + |FieldBytes(MemberAt(p, start).value)|;
      i := i + 1;
    }
    r := Ok(offset);
  }

  method ParseCompoundV3(p: seq<byte>) returns (r: Result<seq<Field>>)
    ensures r == match ParsedV3(p) case Err => Err case Ok((fields, _)) => Ok(fields)
  {
    hide U32At, MessageBytes, Parsed, FieldBytes, NulEnd, MembersFrom, Joined;
    if |p| < 4 {
      return Err;
    }
    var numMembers: nat := U32At(p, 0);
    var offset: nat := 4;
    var members: seq<Field> := [];
    var i: nat := 0;
    MembersJoinStart(p, numMembers);
    while i < numMembers
      invariant i <= numMembers && 4 <= offset <= |p|
      invariant MembersFrom(p, numMembers, 4) == Joined(members, MembersFrom(p, numMembers - i, offset))
    {
      MembersJoin(p, numMembers - i, offset, members);
      var nameStart := offset;
      var nameEnd := ScanName(p, nameStart);
      if nameEnd >= |p| {
        return Err;
      }
      var name := p[nameStart..nameEnd];
      offset := nameEnd + 1;
      if offset + 4 > |p| {
        return Err;
      }
      var fieldOffset := U32At(p, offset);
      offset := offset + 4;
      if offset + 8 > |p| {
        return Err;
      }
      var member := ParseDatatypeMessage(p[offset..]);
      if member.Err? {
        return Err;
      }
      offset := offset + (8 + |member.value.props|);
      members := members + [Field(name, fieldOffset, member.value)];
      i := i + 1;
    }
    MembersJoinEnd(p, offset, members);
    r := Ok(members);
  }

  function Joined(first: seq<Field>, rest: Result<(seq<Field>, nat)>): Result<(seq<Field>, nat)>
  {
    if rest.Err? then Err else Ok((first + rest.value.0, rest.value.1))
  }

  lemma MembersJoinStart(p: seq<byte>, count: nat)
    requires |p| >= 4
    ensures MembersFrom(p, count, 4) == Joined([], MembersFrom(p, count, 4))
  {
    var r := MembersFrom(p, count, 4);
    if r.Ok? {
      assert [] + r.value.0 == r.value.0;
    }
  }

  lemma MembersJoin(p: seq<byte>, count: nat, offset: nat, first: seq<Field>)
    requires 4 <= offset <= |p| && count > 0
    ensures Joined(first, MembersFrom(p, count, offset)) ==
      match MemberAt(p, offset)
      case Err => Err
      case Ok(f) => Joined(first + [f], MembersFrom(p, count - 1, offset + |FieldBytes(f)|))
  {
    hide MemberAt, FieldBytes;
    var at := MemberAt(p, offset);
    if at.Ok? {
      var r := MembersFrom(p, count - 1, offset + |FieldBytes(at.value)|);
      if r.Ok? {
        assert first + ([at.value] + r.value.0) == first + [at.value] + r.value.0;
      }
    }
  }

  lemma MembersJoinEnd(p: seq<byte>, offset: nat, first: seq<Field>)
    requires 4 <= offset <= |p|
    ensures Joined(first, MembersFrom(p, 0, offset)) == Ok((first, offset))
  {
    assert first + [] == first;
  }

  // ---- measuring agrees with parsing, on any bytes ----

  /** A name that ends before the cut ends at the same place after it. */
  lemma {:induction false} NameEndCut(p: seq<byte>, from: nat, k: nat)
    requires from <= k <= |p| && NulEnd(p, from) < k
    ensures NulEnd(p[..k], from) == NulEnd(p, from)
    decreases k - from
  {
    if from < k && p[from] != 0 {
      NameEndCut(p, from + 1, k);
    }
  }

  lemma WordCut(p: seq<byte>, at: nat, k: nat)
    requires at + 4 <= k <= |p|
    ensures U32At(p[..k], at) == U32At(p, at)
  {
    hide FromLE;
    assert p[..k][at..at + 4] == p[at..at + 4];
  }

  /** Cutting the input anywhere behind a message does not change the message. */
  lemma {:induction false} MessageCut(data: seq<byte>, k: nat)
    requires Parsed(data).Ok? && 8 + |Parsed(data).value.props| <= k <= |data|
    ensures Parsed(data[..k]) == Parsed(data)
    decreases |data|, 1, 0
  {
    hide U32At, CompoundLen;
    WordCut(data, 0, k);
    WordCut(data, 4, k);
    var word := U32At(data, 0);
    if k < |data| && word % 16 == COMPOUND {
      var p, version := data[8..], (word / 16) % 16;
      assert CompoundLen(p, version).Ok?;
      CompoundCut(p, version, k - 8);
      assert data[..k][8..] == p[..k - 8];
    }
    assert data[..k][8..8 + |Parsed(data).value.props|] == data[8..8 + |Parsed(data).value.props|];
    assert k == |data| ==> data[..k] == data;
  }

  lemma {:induction false} CompoundCut(p: seq<byte>, version: nat, k: nat)
    requires CompoundLen(p, version).Ok? && CompoundLen(p, version).value <= k <= |p|
    ensures CompoundLen(p[..k], version) == CompoundLen(p, version)
    decreases |p|, 3, 0
  {
    hide U32At, MembersLen;
    WordCut(p, 0, k);
    MembersCut(p, U32At(p, 0), 4, k);
  }

  lemma {:induction false} MemberCut(p: seq<byte>, offset: nat, k: nat)
    requires 4 <= offset <= |p| && MemberAt(p, offset).Ok?
    requires offset + |FieldBytes(MemberAt(p, offset).value)| <= k <= |p|
    ensures MemberAt(p[..k], offset) == MemberAt(p, offset)
    decreases |p|, 1, 0
  {
    hide U32At, Parsed, NulEnd;
    var end := NulEnd(p, offset);
    NameEndCut(p, offset, k);
    WordCut(p, end + 1, k);
    MessageCut(p[end + 5..], k - (end + 5));
    assert p[..k][end + 5..] == p[end + 5..][..k - (end + 5)];
    assert p[..k][offset..end] == p[offset..end];
  }

  lemma {:induction false} MembersCut(p: seq<byte>, count: nat, offset: nat, k: nat)
    requires 4 <= offset <= |p| && MembersLen(p, count, offset).Ok? && MembersLen(p, count, offset).value <= k <= |p|
    ensures offset <= k && MembersLen(p[..k], count, offset) == MembersLen(p, count, offset)
    ensures MembersFrom(p[..k], count, offset).Ok? && MembersFrom(p[..k], count, offset).value.1 == MembersLen(p, count, offset).value
    decreases |p|, 2, count
  {
    hide MemberAt, FieldBytes;
    if count > 0 {
      var f := MemberAt(p, offset).value;
      MembersCut(p, count - 1, offset + |FieldBytes(f)|, k);
      MemberCut(p, offset, k);
    }
  }

  /** On arbitrary bytes: if the length calculation returns `n`, the parser run on exactly the first `n` bytes
      succeeds and uses them all. */
  lemma MeasuredParses(p: seq<byte>, version: nat)
    requires CompoundLen(p, version).Ok?
    ensures var n := CompoundLen(p, version).value;
      n <= |p| && ParsedV3(p[..n]).Ok? && ParsedV3(p[..n]).value.1 == n
  {
    hide U32At, MembersLen, MembersFrom;
    var n := CompoundLen(p, version).value;
    WordCut(p, 0, n);
    MembersCut(p, U32At(p, 0), 4, n);
  }

  /** A compound parsed from the front of any bytes and measurable there has parsable properties. */
  lemma ParsedCompoundIsWhole(data: seq<byte>)
    requires |data| >= 8 && U32At(data, 0) % 16 == COMPOUND && CompoundLen(data[8..], (U32At(data, 0) / 16) % 16).Ok?
    ensures Parsed(data).Ok? && ParsedV3(Parsed(data).value.props).Ok?
    ensures ParsedV3(Parsed(data).value.props).value.1 == |Parsed(data).value.props|
  {
    hide U32At, CompoundLen, ParsedV3;
    var p, version := data[8..], (U32At(data, 0) / 16) % 16;
    MeasuredParses(p, version);
    assert Parsed(data).value.props == p[..CompoundLen(p, version).value];
  }

  // ---- parsing inverts encoding ----

  /** Reading from the front of anything that begins with the message's bytes gives the message back. */
  ghost predicate SelfDelimiting(m: Message)
  {
    forall data: seq<byte> | MessageBytes(m) <= data :: Parsed(data) == Ok(m)
  }

  /** Fields the version 3 format can carry. */
  ghost predicate Encodable(fields: seq<Field>)
  {
    |fields| < 0x1_0000_0000 && forall i | 0 <= i < |fields| :: NulFree(fields[i].name) && SelfDelimiting(fields[i].type_)
  }

  lemma HeaderWordSplits(m: Message)
    ensures HeaderWord(m) % 16 == m.class_ && (HeaderWord(m) / 16) % 16 == m.version && HeaderWord(m) / 256 == m.bits
  {
    var w := HeaderWord(m);
    DivUnique(w, m.version + m.bits * 16, m.class_, 16);
    DivUnique(m.version + m.bits * 16, m.bits, m.version, 16);
    DivUnique(w, m.bits, m.class_ + m.version * 16, 256);
  }

  /** The header fields come back, whatever follows. */
  lemma HeaderParsesBack(m: Message, data: seq<byte>)
    requires MessageBytes(m) <= data
    ensures |data| >= 8 && U32At(data, 0) == HeaderWord(m) && U32At(data, 4) == m.size
    ensures U32At(data, 0) % 16 == m.class_ && (U32At(data, 0) / 16) % 16 == m.version && U32At(data, 0) / 256 == m.bits
    ensures data[8..8 + |m.props|] == m.props
  {
    hide LE, FromLE, HeaderWord;
    var bytes := MessageBytes(m);
    assert data[..|bytes|] == bytes;
    SubRange(data, 0, bytes, 0, 4);
    SubRange(data, 0, bytes, 4, 4);
    SubRange(data, 0, bytes, 8, |m.props|);
    assert bytes[0..4] == LE(HeaderWord(m), 4) && bytes[4..8] == LE(m.size, 4) && bytes[8..] == m.props;
    RoundTrip32(HeaderWord(m));
    RoundTrip32(m.size);
    HeaderWordSplits(m);
  }

  /** Numbers, bit fields and times delimit themselves exactly when they carry the class's fixed number of bytes. */
  lemma NumberSelfDelimiting(m: Message)
    requires m.class_ in {FIXED, FLOAT, TIME, BITFIELD}
    ensures SelfDelimiting(m) <==>
      |m.props| == if m.class_ == FLOAT then 12 else if m.class_ == TIME then 2 else 4
  {
    hide U32At, MessageBytes;
    var n := if m.class_ == FLOAT then 12 else if m.class_ == TIME then 2 else 4;
    if |m.props| == n {
      forall data: seq<byte> | MessageBytes(m) <= data ensures Parsed(data) == Ok(m) {
        HeaderParsesBack(m, data);
      }
    } else {
      var data := MessageBytes(m) + Zeros(12);
      HeaderParsesBack(m, data);
      assert |Parsed(data).value.props| == n;
      assert MessageBytes(m) <= data;
    }
  }

  /** A field byte by byte: name, terminator, byte offset, datatype, nothing between them. */
  lemma FieldParts(f: Field)
    ensures var s, n := FieldBytes(f), |f.name|;
      && s[0..n] == f.name && s[n..n + 1] == [0] && s[n + 1..n + 5] == LE(f.offset, 4)
      && s[n + 5..n + 5 + |MessageBytes(f.type_)|] == MessageBytes(f.type_) == s[n + 5..]
  {
    hide LE, MessageBytes;
  }

  /** A field's bytes at `offset` parse back to the field. */
  lemma FieldParsesBack(p: seq<byte>, offset: nat, f: Field)
    requires 4 <= offset && offset + |FieldBytes(f)| <= |p| && p[offset..offset + |FieldBytes(f)|] == FieldBytes(f)
    requires NulFree(f.name) && SelfDelimiting(f.type_)
    ensures MemberAt(p, offset) == Ok(f)
  {
    hide LE, FromLE, MessageBytes, FieldBytes, Parsed, NulEnd, NulFree;
    var bytes, end := FieldBytes(f), offset + |f.name|;
    SubRange(p, offset, bytes, 0, |f.name|);
    SubRange(p, offset, bytes, |f.name|, 1);
    SubRange(p, offset, bytes, |f.name| + 1, 4);
    SubRange(p, offset, bytes, |f.name| + 5, |MessageBytes(f.type_)|);
    FieldParts(f);
    NameEnds(p, offset, f.name);
    RoundTrip32(f.offset);
    var data := p[end + 5..];
    assert data[..|MessageBytes(f.type_)|] == MessageBytes(f.type_);
  }

  lemma NameEnds(p: seq<byte>, offset: nat, name: seq<byte>)
    requires offset + |name| + 1 <= |p| && p[offset..offset + |name|] == name && NulFree(name)
    requires p[offset + |name|..offset + |name| + 1] == [0]
    ensures NulEnd(p, offset) == offset + |name|
  {
    var end := offset + |name|;
    assert p[end] == p[end..end + 1][0] == 0;
    forall i | offset <= i < end ensures p[i] != 0 {
      assert p[i] == p[offset..end][i - offset];
    }
  }

  /** Members follow one another in `p`, from `offset`. */
  ghost predicate Laid(p: seq<byte>, offset: nat, fields: seq<Field>)
  {
    offset + |FieldsBytes(fields)| <= |p| && p[offset..offset + |FieldsBytes(fields)|] == FieldsBytes(fields)
  }

  lemma {:induction false} FieldsSplit(fields: seq<Field>)
    requires fields != []
    ensures FieldsBytes(fields) == FieldBytes(fields[0]) + FieldsBytes(fields[1..])
  {
    hide FieldBytes, FieldsBytes;
    var n := |fields| - 1;
    FieldsLast(fields);
    NoFields();
    if n > 0 {
      var middle := fields[1..n];
      FieldsSplit(fields[..n]);
      assert fields[..n][1..] == middle;
      FieldsLast(fields[1..]);
      assert fields[1..][..n - 1] == middle;
      Regrouped(FieldBytes(fields[0]), FieldsBytes(middle), FieldBytes(fields[n]));
    } else {
      assert fields[..n] == [] && fields[1..] == [];
      assert [] + FieldBytes(fields[0]) == FieldBytes(fields[0]) + [];
    }
  }

  lemma Regrouped(a: seq<byte>, b: seq<byte>, c: seq<byte>)
    ensures (a + b) + c == a + (b + c)
  {
  }

  lemma {:induction false} FieldsParseBack(p: seq<byte>, offset: nat, fields: seq<Field>)
    requires 4 <= offset && Laid(p, offset, fields) && Encodable(fields)
    ensures MembersFrom(p, |fields|, offset) == Ok((fields, offset + |FieldsBytes(fields)|))
    ensures MembersLen(p, |fields|, offset) == Ok(offset + |FieldsBytes(fields)|)
    decreases |fields|
  {
    hide FieldBytes, FieldsBytes, MemberAt, SelfDelimiting, NulFree;
    if fields != [] {
      FieldsSplit(fields);
      var all, first, rest := FieldsBytes(fields), FieldBytes(fields[0]), FieldsBytes(fields[1..]);
      SubRange(p, offset, all, 0, |first|);
      SubRange(p, offset, all, |first|, |rest|);
      FieldParsesBack(p, offset, fields[0]);
      FieldsParseBack(p, offset + |first|, fields[1..]);
      assert [fields[0]] + fields[1..] == fields;
    } else {
      NoFields();
    }
  }

  lemma NoFields()
    ensures FieldsBytes([]) == []
  {
  }

  /** The properties of an encoded compound measure and parse as exactly its fields, whatever follows them. */
  lemma CompoundParsesBack(fields: seq<Field>, p: seq<byte>)
    requires Encodable(fields) && CompoundMessage(0, fields).props <= p
    ensures var n := 4 + |FieldsBytes(fields)|;
      ParsedV3(p) == Ok((fields, n)) && CompoundLen(p, 3) == Ok(n) && |CompoundMessage(0, fields).props| == n
  {
    hide LE, FromLE, FieldsBytes, MembersFrom, MembersLen;
    var props := CompoundMessage(0, fields).props;
    assert p[..|props|] == props;
    SubRange(p, 0, props, 0, 4);
    assert props[0..4] == LE(|fields|, 4);
    RoundTrip32(|fields|);
    SubRange(p, 0, props, 4, |FieldsBytes(fields)|);
    FieldsParseBack(p, 4, fields);
  }

  /** A compound of self-delimiting members is itself self-delimiting, so compounds nest to any depth. */
  lemma CompoundSelfDelimiting(size: u32, fields: seq<Field>)
    requires Encodable(fields)
    ensures SelfDelimiting(CompoundMessage(size, fields))
  {
    hide U32At, MessageBytes, FieldsBytes, ParsedV3, CompoundLen, NulFree;
    var m := CompoundMessage(size, fields);
    forall data: seq<byte> | MessageBytes(m) <= data ensures Parsed(data) == Ok(m) {
      HeaderParsesBack(m, data);
      assert m.props <= data[8..];
      CompoundParsesBack(fields, data[8..]);
    }
  }

  // ---- encoding inverts parsing ----

  /** What a message is parsed to encodes to exactly the bytes it was parsed from. */
  lemma MessageExact(data: seq<byte>)
    requires Parsed(data).Ok?
    ensures var m := Parsed(data).value; MessageBytes(m) == data[..8 + |m.props|]
  {
    hide LE, FromLE, PropsLen;
    var m, word := Parsed(data).value, U32At(data, 0);
    WordSplit(word);
    LEOfFromLE(data[0..4]);
    LEOfFromLE(data[4..8]);
    assert data[..8 + |m.props|] == data[0..4] + data[4..8] + data[8..8 + |m.props|];
  }

  lemma WordSplit(word: nat)
    ensures word % 16 + (word / 16) % 16 * 16 + word / 256 * 256 == word
  {
    var q := word / 16;
    DivUnique(word, q / 16, q % 16 * 16 + word % 16, 256);
  }

  lemma MemberExact(p: seq<byte>, offset: nat)
    requires 4 <= offset <= |p| && MemberAt(p, offset).Ok?
    ensures var f := MemberAt(p, offset).value; FieldBytes(f) == p[offset..offset + |FieldBytes(f)|]
  {
    hide LE, FromLE, Parsed, MessageBytes, NulEnd;
    var f, end := MemberAt(p, offset).value, NulEnd(p, offset);
    var n := |MessageBytes(f.type_)|;
    MessageExact(p[end + 5..]);
    LEOfFromLE(p[end + 1..end + 5]);
    assert p[end + 5..][..n] == p[end + 5..end + 5 + n];
    assert p[offset..end + 5 + n] == p[offset..end] + [p[end]] + p[end + 1..end + 5] + p[end + 5..end + 5 + n];
  }

  lemma {:induction false} MembersExact(p: seq<byte>, count: nat, offset: nat)
    requires 4 <= offset <= |p| && MembersFrom(p, count, offset).Ok?
    ensures var (fields, end) := MembersFrom(p, count, offset).value; FieldsBytes(fields) == p[offset..end]
    decreases count
  {
    hide MemberAt, FieldBytes, FieldsBytes;
    if count == 0 {
      NoFields();
    } else {
      var f := MemberAt(p, offset).value;
      var next := offset + |FieldBytes(f)|;
      var (rest, end) := MembersFrom(p, count - 1, next).value;
      MemberExact(p, offset);
      MembersExact(p, count - 1, next);
      FieldsSplit([f] + rest);
      assert p[offset..end] == p[offset..next] + p[next..end];
    }
  }

  /** Any bytes that parse as members are the encoding of those members, so no two inputs of one length parse alike. */
  lemma CompoundExact(p: seq<byte>)
    requires ParsedV3(p).Ok?
    ensures var (fields, n) := ParsedV3(p).value;
      |fields| == U32At(p, 0) && n <= |p| && CompoundMessage(0, fields).props == p[..n]
  {
    hide LE, FromLE, MembersFrom, FieldsBytes;
    var (fields, n) := ParsedV3(p).value;
    MembersExact(p, U32At(p, 0), 4);
    LEOfFromLE(p[0..4]);
    assert p[..n] == p[0..4] + p[4..n];
  }

  // ---- the encoder ----

  /** What the encoder refuses. */
  predicate Accepted(totalSize: u32, fields: seq<Field>)
  {
    fields != [] && totalSize != 0 && |fields| < 0x1_0000_0000 && forall i | 0 <= i < |fields| :: fields[i].name != []
  }

  lemma FieldsStep(fields: seq<Field>, i: nat)
    requires i < |fields|
    ensures FieldsBytes(fields[..i + 1]) == FieldsBytes(fields[..i]) + FieldBytes(fields[i])
    ensures |FieldsBytes(fields[..i + 1])| <= |FieldsBytes(fields)|
  {
    hide FieldBytes, FieldsBytes;
    assert fields[..i + 1][..i] == fields[..i];
    FieldsLast(fields[..i + 1]);
    FieldsShorter(fields, i + 1);
  }

  lemma FieldsLast(fields: seq<Field>)
    requires fields != []
    ensures FieldsBytes(fields) == FieldsBytes(fields[..|fields| - 1]) + FieldBytes(fields[|fields| - 1])
  {
  }

  lemma {:induction false} FieldsShorter(fields: seq<Field>, i: nat)
    requires i <= |fields|
    ensures |FieldsBytes(fields[..i])| <= |FieldsBytes(fields)|
    decreases |fields|
  {
    hide FieldBytes, FieldsBytes;
    if i == |fields| {
      assert fields[..i] == fields;
    } else {
      var n := |fields| - 1;
      FieldsShorter(fields[..n], i);
      assert fields[..n][..i] == fields[..i];
      FieldsLast(fields);
    }
  }

  method PutMessage(buf: array<byte>, at: nat, m: Message) returns (offset: nat)
    requires at + 8 + |m.props| <= buf.Length
    modifies buf
    ensures offset == at + 8 + |m.props| && buf[..offset] == old(buf[..at]) + MessageBytes(m)
  {
    hide LE, HeaderWord;
    offset := Append(buf, at, LE(HeaderWord(m), 4));
    offset := Append(buf, offset, LE(m.size, 4));
    offset := Append(buf, offset, m.props);
  }

  method PutField(buf: array<byte>, at: nat, f: Field) returns (offset: nat)
    requires at + |FieldBytes(f)| <= buf.Length
    modifies buf
    ensures offset == at + |FieldBytes(f)| && buf[..offset] == old(buf[..at]) + FieldBytes(f)
  {
    hide LE, MessageBytes;
    offset := Append(buf, at, f.name);
    offset := Append(buf, offset, [0]);
    offset := Append(buf, offset, LE(f.offset, 4));
    offset := PutMessage(buf, offset, f.type_);
  }

  /** The first pass: validates the fields and adds up their sizes. */
  method MeasureFields(fields: seq<Field>) returns (ok: bool, propsSize: nat)
    ensures ok <==> forall i | 0 <= i < |fields| :: fields[i].name != []
    ensures ok ==> propsSize == 4 + |FieldsBytes(fields)|
  {
    hide FieldBytes, FieldsBytes;
    propsSize := 4;
    NoFields();
    assert fields[..0] == [];
    var i := 0;
    while i < |fields|
      invariant i <= |fields| && propsSize == 4 + |FieldsBytes(fields[..i])|
      invariant forall j | 0 <= j < i :: fields[j].name != []
    {
      if fields[i].name == [] {
        return false, propsSize;
      }
      FieldsStep(fields, i);
      propsSize := propsSize + (|fields[i].name| + 1);
      propsSize := propsSize + 4;
      propsSize := propsSize + 8;
      propsSize := propsSize + |fields[i].type_.props|;
      i := i + 1;
    }
    assert fields[..i] == fields;
    ok := true;
  }

  /** EncodeCompoundDatatypeV3: fills a buffer of exactly the measured size. */
  method EncodeCompoundDatatypeV3(totalSize: u32, fields: seq<Field>) returns (r: Result<seq<byte>>)
    ensures r.Ok? <==> Accepted(totalSize, fields)
    ensures r.Ok? ==> r.value == MessageBytes(CompoundMessage(totalSize, fields))
  {
    hide FieldBytes, FieldsBytes, LE;
    if |fields| == 0 || totalSize == 0 || |fields| > 0xFFFF_FFFF {
      return Err;
    }
    var ok, propsSize := MeasureFields(fields);
    if !ok {
      return Err;
    }
    var buf := new byte[8 + propsSize](_ => 0);
    var offset := Append(buf, 0, LE(HeaderWord(Message(COMPOUND, 3, totalSize, 0, [])), 4));
    offset := Append(buf, offset, LE(totalSize, 4));
    offset := Append(buf, offset, LE(|fields|, 4));
    ghost var head := buf[..offset];
    offset := PutFields(buf, offset, fields);
    assert buf[..] == buf[..offset] == head + FieldsBytes(fields);
    r := Ok(buf[..]);
  }

  method PutFields(buf: array<byte>, at: nat, fields: seq<Field>) returns (offset: nat)
    requires at + |FieldsBytes(fields)| <= buf.Length
    modifies buf
    ensures offset == at + |FieldsBytes(fields)| && buf[..offset] == old(buf[..at]) + FieldsBytes(fields)
  {
    hide FieldBytes, FieldsBytes;
    offset := at;
    NoFields();
    assert fields[..0] == [];
    var i := 0;
    while i < |fields|
      invariant i <= |fields| && offset == at + |FieldsBytes(fields[..i])| <= buf.Length
      invariant buf[..offset] == old(buf[..at]) + FieldsBytes(fields[..i])
    {
      FieldsStep(fields, i);
      offset := PutField(buf, offset, fields[i]);
      i := i + 1;
    }
    assert fields[..i] == fields;
  }

  /** Sum of the member sizes, in 32-bit arithmetic. */
  function TotalSize(fields: seq<Field>): u32
  {
    if fields == [] then 0 else (TotalSize(fields[..|fields| - 1]) + fields[|fields| - 1].type_.size) % 0x1_0000_0000
  }

  /** Each field starts where the ones before it end. */
  predicate Contiguous(fields: seq<Field>)
  {
    forall i | 0 <= i < |fields| :: fields[i].offset == TotalSize(fields[..i])
  }

  /** CreateCompoundTypeFromFields: encode, then parse back.  For encodable fields the message returned holds
      exactly them. */
  method CreateCompoundTypeFromFields(fields: seq<Field>) returns (r: Result<Message>)
    ensures r.Ok? <==> Contiguous(fields) && Accepted(TotalSize(fields), fields)
    ensures r.Ok? && Encodable(fields) ==>
      r.value == CompoundMessage(TotalSize(fields), fields) && SelfDelimiting(r.value) &&
      ParsedV3(r.value.props) == Ok((fields, |r.value.props|))
  {
    hide MessageBytes, CompoundMessage, FieldsBytes, Parsed, ParsedV3, SelfDelimiting, Encodable, Contiguous, TotalSize;
    if |fields| == 0 {
      return Err;
    }
    var ok, totalSize := CheckOffsets(fields);
    if !ok {
      return Err;
    }
    var encoded := EncodeCompoundDatatypeV3(totalSize, fields);
    if encoded.Err? {
      return Err;
    }
    LongEnough(encoded.value);
    r := ParseDatatypeMessage(encoded.value);
    if Encodable(fields) {
      CreatedHolds(totalSize, fields);
    }
  }

  /** The offset check, which also adds up the sizes. */
  method CheckOffsets(fields: seq<Field>) returns (ok: bool, total: u32)
    ensures ok <==> Contiguous(fields)
    ensures ok ==> total == TotalSize(fields)
  {
    hide TotalSize;
    total := 0;
    var i := 0;
    NoSize(fields);
    while i < |fields|
      invariant i <= |fields| && total == TotalSize(fields[..i])
      invariant forall j | 0 <= j < i :: fields[j].offset == TotalSize(fields[..j])
    {
      if fields[i].offset != total {
        return false, total;
      }
      SizeStep(fields, i);
      total := (total + fields[i].type_.size) % 0x1_0000_0000;
      i := i + 1;
    }
    assert fields[..i] == fields;
    ok := true;
  }

  lemma NoSize(fields: seq<Field>)
    ensures TotalSize(fields[..0]) == 0
  {
  }

  lemma SizeStep(fields: seq<Field>, i: nat)
    requires i < |fields|
    ensures TotalSize(fields[..i + 1]) == (TotalSize(fields[..i]) + fields[i].type_.size) % 0x1_0000_0000
  {
    assert fields[..i + 1][..i] == fields[..i];
  }

  lemma LongEnough(data: seq<byte>)
    ensures Parsed(data).Ok? <==> |data| >= 8
  {
  }

  lemma CreatedHolds(size: u32, fields: seq<Field>)
    requires Encodable(fields)
    ensures var m := CompoundMessage(size, fields);
      SelfDelimiting(m) && Parsed(MessageBytes(m)) == Ok(m) && ParsedV3(m.props) == Ok((fields, |m.props|))
  {
    hide MessageBytes, FieldsBytes, Parsed, ParsedV3;
    CompoundSelfDelimiting(size, fields);
    CompoundParsesBack(fields, CompoundMessage(size, fields).props);
  }

  // ---- whole type trees ----

  /** A type as its creator thinks of it. */
  datatype Type =
    | Number(class_: nibble, version: nibble, size: u32, bits: u24, props: seq<byte>)
    | Record(size: u32, members: seq<Member>)

  datatype Member = Member(name: seq<byte>, offset: u32, type_: Type)

  /** Integer and float leaves with their fixed property bytes, NUL-free names, at any nesting depth. */
  ghost predicate WellFormed(t: Type)
  {
    match t
    case Number(class_, _, _, _, props) => (class_ == FIXED && |props| == 4) || (class_ == FLOAT && |props| == 12)
    case Record(_, members) =>
      |members| < 0x1_0000_0000 && forall i | 0 <= i < |members| :: NulFree(members[i].name) && WellFormed(members[i].type_)
  }

  function ToMessage(t: Type): Message
    requires WellFormed(t)
    decreases t
  {
    match t
    case Number(class_, version, size, bits, props) => Message(class_, version, size, bits, props)
    case Record(size, members) => CompoundMessage(size, ToFields(members))
  }

  function ToFields(members: seq<Member>): (fields: seq<Field>)
    requires forall i | 0 <= i < |members| :: WellFormed(members[i].type_)
    ensures |fields| == |members|
    ensures forall i | 0 <= i < |fields| :: fields[i] == Field(members[i].name, members[i].offset, ToMessage(members[i].type_))
    decreases members
  {
    if members == [] then []
    else
      [Field(members[0].name, members[0].offset, ToMessage(members[0].type_))] + ToFields(members[1..])
  }

  /** Reads a message all the way down, opening every compound with the version 3 parser. */
  function Opened(m: Message): Result<Type>
    decreases |m.props|, 1, 0
  {
    if m.class_ != COMPOUND then Ok(Number(m.class_, m.version, m.size, m.bits, m.props))
    else if m.version != 3 then Err
    else
      match ParsedV3(m.props)
      case Err => Err
      case Ok((fields, _)) =>
        match OpenedAll(fields, |m.props|)
        case Err => Err
        case Ok(members) => Ok(Record(m.size, members))
  }

  function OpenedAll(fields: seq<Field>, bound: nat): Result<seq<Member>>
    requires forall i | 0 <= i < |fields| :: |fields[i].type_.props| < bound
    decreases bound, 0, |fields|
  {
    if fields == [] then Ok([])
    else
      match Opened(fields[0].type_)
      case Err => Err
      case Ok(t) =>
        match OpenedAll(fields[1..], bound)
        case Err => Err
        case Ok(rest) => Ok([Member(fields[0].name, fields[0].offset, t)] + rest)
  }

  /** Any well-formed type tree, encoded, is recovered from the front of any byte string: the same fields at every
      level, using exactly the encoded length. */
  lemma {:induction false} TreeParsesBack(t: Type)
    requires WellFormed(t)
    ensures SelfDelimiting(ToMessage(t)) && Opened(ToMessage(t)) == Ok(t)
    decreases t, 0
  {
    hide SelfDelimiting, FieldsBytes, LE;
    match t
    case Number(class_, version, size, bits, props) =>
      NumberSelfDelimiting(Message(class_, version, size, bits, props));
    case Record(size, members) =>
      var m, fields := ToMessage(t), ToFields(members);
      MembersParseBack(members);
      CompoundSelfDelimiting(size, fields);
      CompoundParsesBack(fields, m.props);
      MembersOpen(members, |m.props|);
  }

  lemma {:induction false} MembersParseBack(members: seq<Member>)
    requires forall i | 0 <= i < |members| :: NulFree(members[i].name) && WellFormed(members[i].type_)
    ensures forall i | 0 <= i < |members| :: SelfDelimiting(ToMessage(members[i].type_))
    ensures forall i | 0 <= i < |members| :: Opened(ToMessage(members[i].type_)) == Ok(members[i].type_)
    decreases members, 1
  {
    hide SelfDelimiting, Opened, NulFree, ToFields, ToMessage;
    if members != [] {
      TreeParsesBack(members[0].type_);
      MembersParseBack(members[1..]);
      forall i | 0 < i < |members|
        ensures SelfDelimiting(ToMessage(members[i].type_)) && Opened(ToMessage(members[i].type_)) == Ok(members[i].type_)
      {
        assert members[i] == members[1..][i - 1];
      }
    }
  }

  lemma ToFieldsSplit(members: seq<Member>)
    requires members != [] && forall i | 0 <= i < |members| :: WellFormed(members[i].type_)
    ensures ToFields(members) != [] && ToFields(members)[1..] == ToFields(members[1..])
  {
    hide ToMessage, WellFormed;
  }

  lemma {:induction false} MembersOpen(members: seq<Member>, bound: nat)
    requires forall i | 0 <= i < |members| :: WellFormed(members[i].type_)
    requires forall i | 0 <= i < |members| :: Opened(ToMessage(members[i].type_)) == Ok(members[i].type_)
    requires forall i | 0 <= i < |members| :: |ToFields(members)[i].type_.props| < bound
    ensures OpenedAll(ToFields(members), bound) == Ok(members)
    decreases |members|
  {
    hide Opened, ToMessage, ToFields, WellFormed;
    if members != [] {
      ToFieldsSplit(members);
      MembersOpen(members[1..], bound);
      assert [members[0]] + members[1..] == members;
    }
  }
}
