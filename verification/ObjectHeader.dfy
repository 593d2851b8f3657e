/** Version 2 object headers and continuation blocks: writing (internal/core/objectheader_write.go) and parsing
    (internal/core/objectheader.go, internal/core/objectheader_v1.go), little-endian with 8-byte offsets and lengths.
    Format: sections IV.A.1.b and IV.A.2.q of the HDF5 File Format Specification Version 3.0. */
module ObjectHeader {
  import opened Arith
  import opened Bytes
  import opened Storage

  const NIL: u16 := 0
  const ATTRIBUTE: u16 := 12
  const ATTRIBUTE_INFO: u16 := 15
  const CONTINUATION: u16 := 16
  const REF_COUNT: u16 := 22

  /** A message to be written (MessageWriter). */
  datatype Message = Message(type_: u16, data: seq<byte>)

  /** A message as parsed (HeaderMessage). */
  datatype HeaderMessage = HeaderMessage(type_: u16, offset: nat, data: seq<byte>, fromContinuation: bool)

  // ---- the stored form ----

  function MessageBytes(m: Message): (s: seq<byte>)
    ensures |s| == 4 + |m.data|
  {
    [m.type_ % 256] + LE(|m.data| % 0x1_0000, 2) + [0] + m.data
  }

  function MessagesBytes(ms: seq<Message>): seq<byte>
  {
    if ms == [] then [] else MessageBytes(ms[0]) + MessagesBytes(ms[1..])
  }

  /** Bytes needed for the chunk-size field. */
  function Width(n: nat): (w: nat)
    ensures w in {1, 2, 4, 8}
  {
    if n <= 0xFF then 1 else if n <= 0xFFFF then 2 else if n <= 0xFFFF_FFFF then 4 else 8
  }

  function WidthBits(w: nat): nat
  {
    if w == 1 then 0 else if w == 2 then 1 else if w == 4 then 2 else 3
  }

  /** The header's flags with bits 0-1 replaced by the field width. */
  function StoredFlags(flags: byte, n: nat): byte
  {
    (flags / 4) * 4 + WidthBits(Width(n))
  }

  /** The checksum is any 32-bit function of the bytes before it; the parser never checks it. */
  type Checksum = seq<byte> -> u32

  function HeaderPrefix(flags: byte, n: nat): (s: seq<byte>)
    ensures |s| == 6 + Width(n)
  {
    ['O' as int, 'H' as int, 'D' as int, 'R' as int, 2, StoredFlags(flags, n)] + LE(n, Width(n))
  }

  function Summed(s: seq<byte>, sum: Checksum): seq<byte>
  {
    s + LE(sum(s), 4)
  }

  function HeaderBytes(flags: byte, ms: seq<Message>, sum: Checksum): (s: seq<byte>)
    ensures |s| == HeaderSize(ms)
  {
    var body := MessagesBytes(ms);
    Summed(HeaderPrefix(flags, |body|) + body, sum)
  }

  /** Total size on disk (sizeV2). */
  function HeaderSize(ms: seq<Message>): nat
  {
    var n := |MessagesBytes(ms)|;
    10 + Width(n) + n
  }

  const BLOCK_SIGNATURE: seq<byte> := ['O' as int, 'C' as int, 'H' as int, 'K' as int]

  function BlockBytes(ms: seq<Message>, sum: Checksum): (s: seq<byte>)
    ensures |s| == BlockSize(ms)
  {
    Summed(BLOCK_SIGNATURE + MessagesBytes(ms), sum)
  }

  function BlockSize(ms: seq<Message>): nat { 8 + |MessagesBytes(ms)| }

  lemma {:induction false} MessagesAppend(a: seq<Message>, b: seq<Message>)
    ensures MessagesBytes(a + b) == MessagesBytes(a) + MessagesBytes(b)
  {
    hide MessageBytes, MessagesBytes;
    if a == [] {
      MessagesOne(Message(0, []));
      assert a + b == b;
    } else {
      MessagesAppend(a[1..], b);
      assert (a + b)[0] == a[0] && (a + b)[1..] == a[1..] + b;
      MessagesHead(a);
      MessagesHead(a + b);
      assert MessagesBytes(a + b) == MessageBytes(a[0]) + (MessagesBytes(a[1..]) + MessagesBytes(b));
    }
  }

  lemma MessagesHead(ms: seq<Message>)
    requires ms != []
    ensures MessagesBytes(ms) == MessageBytes(ms[0]) + MessagesBytes(ms[1..])
  {
  }

  lemma MessagesOne(m: Message)
    ensures MessagesBytes([m]) == MessageBytes(m) && MessagesBytes([]) == []
  {
    hide MessageBytes;
    assert [m][1..] == [];
  }

  lemma MessagesStep(ms: seq<Message>, i: nat)
    requires i < |ms|
    ensures MessagesBytes(ms[..i + 1]) == MessagesBytes(ms[..i]) + MessageBytes(ms[i])
    ensures |MessagesBytes(ms[..i + 1])| <= |MessagesBytes(ms)|
  {
    hide MessageBytes, MessagesBytes;
    assert ms[..i + 1] == ms[..i] + [ms[i]];
    MessagesAppend(ms[..i], [ms[i]]);
    MessagesOne(ms[i]);
    assert ms == ms[..i + 1] + ms[i + 1..];
    MessagesAppend(ms[..i + 1], ms[i + 1..]);
  }

  // ---- writing ----

  /** The message loop shared by header and block writers. */
  method PutMessages(buf: array<byte>, at: nat, ms: seq<Message>) returns (offset: nat)
    requires at + |MessagesBytes(ms)| <= buf.Length
    modifies buf
    ensures offset == at + |MessagesBytes(ms)| && buf[..offset] == old(buf[..at]) + MessagesBytes(ms)
  {
    hide MessageBytes, MessagesBytes;
    offset := at;
    MessagesOne(Message(0, []));
    assert ms[..0] == [];
    var i := 0;
    while i < |ms|
      invariant i <= |ms| && offset == at + |MessagesBytes(ms[..i])| <= buf.Length
      invariant buf[..offset] == old(buf[..at]) + MessagesBytes(ms[..i])
    {
      MessagesStep(ms, i);
      offset := PutMessage(buf, offset, ms[i]);
      i := i + 1;
    }
    assert ms[..i] == ms;
  }

  method PutMessage(buf: array<byte>, at: nat, m: Message) returns (offset: nat)
    requires at + 4 + |m.data| <= buf.Length
    modifies buf
    ensures offset == at + 4 + |m.data| && buf[..offset] == old(buf[..at]) + MessageBytes(m)
  {
    hide LE;
    offset := Append(buf, at, [m.type_ % 256]);
    offset := Append(buf, offset, LE(|m.data| % 0x1_0000, 2));
    offset := Append(buf, offset, [0]);
    offset := Append(buf, offset, m.data);
  }

  method MeasureMessages(ms: seq<Message>) returns (n: nat)
    ensures n == |MessagesBytes(ms)|
  {
    hide MessageBytes, MessagesBytes;
    n := 0;
    MessagesOne(Message(0, []));
    assert ms[..0] == [];
    var i := 0;
    while i < |ms|
      invariant i <= |ms| && n == |MessagesBytes(ms[..i])|
    {
      MessagesStep(ms, i);
      n := n + 1 + 2 + 1 + |ms[i].data|;
      i := i + 1;
    }
    assert ms[..i] == ms;
  }

  /** Seals a buffer with the checksum of everything before it. */
  method PutChecksum(buf: array<byte>, at: nat, sum: Checksum)
    requires at + 4 == buf.Length
    modifies buf
    ensures buf[..] == Summed(old(buf[..at]), sum)
  {
    hide LE;
    var end := Append(buf, at, LE(sum(buf[..at]), 4));
    assert buf[..] == buf[..end];
  }

  const MIN_OHDR_ALLOC: nat := 256

  /** ObjectHeaderWriter for version 2. */
  class ObjectHeaderWriter {
    const flags: byte
    var messages: seq<Message>

    constructor (flags: byte, messages: seq<Message>)
      ensures this.flags == flags && this.messages == messages
    {
      this.flags, this.messages := flags, messages;
    }

    method Size() returns (n: nat)
      ensures n == HeaderSize(messages)
    {
      hide MessagesBytes;
      var dataSize := MeasureMessages(messages);
      n := 4 + 1 + 1 + Width(dataSize) + dataSize + 4;
    }

    /** Pads with one null message.  The result is never smaller than asked; it is exactly as asked unless fewer
        than 5 bytes were missing or the padding widens the size field. */
    method PadToSize(minSize: nat)
      modifies this
      ensures old(HeaderSize(messages)) >= minSize ==> messages == old(messages)
      ensures old(HeaderSize(messages)) < minSize ==>
        exists pad: seq<byte> :: pad != [] && messages == old(messages) + [Message(NIL, pad)]
      ensures HeaderSize(messages) >= minSize
      ensures old(HeaderSize(messages)) + 4 < minSize <= 266 ==> HeaderSize(messages) == minSize
      ensures old(HeaderSize(messages)) < minSize <= 256 ==> HeaderSize(messages) <= minSize + 4
    {
      hide MessagesBytes, LE;
      var currentSize := Size();
      if currentSize >= minSize {
        return;
      }
      var needed := minSize - currentSize;
      if needed <= 4 {
        needed := 5;
      }
      var pad := Zeros(needed - 4);
      MessagesAppend(messages, [Message(NIL, pad)]);
      MessagesOne(Message(NIL, pad));
      messages := messages + [Message(NIL, pad)];
    }

    /** writeToV2: one write of exactly Size() bytes. */
    method WriteTo(file: FileWriter, address: nat, sum: Checksum) returns (n: nat)
      requires file.Valid()
      modifies file`mem
      ensures file.Valid() && n == HeaderSize(messages)
      ensures file.mem == Store(old(file.mem), address, HeaderBytes(flags, messages, sum))
    {
      hide MessagesBytes, LE, Store, Summed;
      var chunkSize := MeasureMessages(messages);
      var csWidth := Width(chunkSize);
      n := 4 + 1 + 1 + csWidth + chunkSize + 4;
      var buf := new byte[n](_ => 0);
      var offset := Append(buf, 0, ['O' as int, 'H' as int, 'D' as int, 'R' as int]);
      offset := Append(buf, offset, [2]);
      offset := Append(buf, offset, [StoredFlags(flags, chunkSize)]);
      offset := Append(buf, offset, LE(chunkSize, csWidth));
      assert buf[..offset] == HeaderPrefix(flags, chunkSize);
      offset := PutMessages(buf, offset, messages);
      PutChecksum(buf, offset, sum);
      file.WriteAt(address, buf[..]);
    }
  }

  /** WriteContinuationChunkV2. */
  method WriteContinuationChunk(file: FileWriter, address: nat, ms: seq<Message>, sum: Checksum) returns (n: nat)
    requires file.Valid()
    modifies file`mem
    ensures file.Valid() && n == BlockSize(ms)
    ensures file.mem == Store(old(file.mem), address, BlockBytes(ms, sum))
  {
    hide MessagesBytes, LE, Store, Summed;
    var dataSize := MeasureMessages(ms);
    n := 4 + dataSize + 4;
    var buf := new byte[n](_ => 0);
    var offset := Append(buf, 0, BLOCK_SIGNATURE);
    offset := PutMessages(buf, offset, ms);
    assert buf[..offset] == BLOCK_SIGNATURE + MessagesBytes(ms);
    PutChecksum(buf, offset, sum);
    file.WriteAt(address, buf[..]);
  }

  /** EncodeContinuationMessage for 8-byte offsets and lengths. */
  function ContinuationData(address: u64, size: u64): (s: seq<byte>)
    ensures |s| == 16
  {
    LE(address, 8) + LE(size, 8)
  }

  // ---- parsing ----

  /** Messages from `current` to `end`; six bytes are read for each message header, and empty messages are dropped. */
  function ReadMessages(m: Mem, current: nat, end: nat, headerSize: nat): Result<seq<HeaderMessage>>
    requires headerSize >= 4
    decreases end - current
  {
    if current >= end then Ok([])
    else
      match Load(m, current, 6)
      case None => Err
      case Some(header) =>
        var size := U16At(header, 1);
        if size == 0 then ReadMessages(m, current + headerSize, end, headerSize)
        else
          match Load(m, current + headerSize, size)
          case None => Err
          case Some(data) =>
            Prepend([HeaderMessage(header[0], current, data, false)],
              ReadMessages(m, current + headerSize + size, end, headerSize))
  }

  /** Messages are only read when every byte up to the end is there; bytes enough for one more message behind the end
      always suffice. */
  lemma {:induction false} MessagesInside(m: Mem, current: nat, end: nat, headerSize: nat)
    requires 4 <= headerSize <= 6
    ensures ReadMessages(m, current, end, headerSize).Ok? ==> forall i | current <= i < end :: i in m
    ensures (forall i | current <= i < end + 0x1_0005 :: i in m) ==> ReadMessages(m, current, end, headerSize).Ok?
    decreases end - current
  {
    if current < end {
      var header := Load(m, current, 6);
      if header.Some? {
        var size := U16At(header.value, 1);
        MessagesInside(m, current + headerSize + size, end, headerSize);
      }
    }
  }

  method ParseMessages(m: Mem, start: nat, end: nat, headerSize: nat) returns (r: Result<seq<HeaderMessage>>)
    requires headerSize >= 4
    ensures r == ReadMessages(m, start, end, headerSize)
  {
    hide U16At, Prepend;
    var messages: seq<HeaderMessage> := [];
    var current := start;
    PrependLaws(messages, messages, ReadMessages(m, start, end, headerSize));
    while current < end
      invariant ReadMessages(m, start, end, headerSize) == Prepend(messages, ReadMessages(m, current, end, headerSize))
      decreases end - current
    {
      PrependErr(messages);
      var header := Load(m, current, 6);
      if header.None? {
        return Err;
      }
      var msgSize: nat := U16At(header.value, 1);
      if msgSize == 0 {
        current := current + headerSize;
        continue;
      }
      var data := Load(m, current + headerSize, msgSize);
      if data.None? {
        return Err;
      }
      var next := HeaderMessage(header.value[0], current, data.value, false);
      PrependLaws(messages, [next], ReadMessages(m, current + headerSize + msgSize, end, headerSize));
      messages := messages + [next];
      current := current + headerSize + msgSize;
    }
    PrependEnd(messages);
    r := Ok(messages);
  }

  datatype BlockRef = BlockRef(address: u64, size: u64)

  /** findContinuations: the blocks the messages refer to, in order; malformed references are skipped. */
  function References(ms: seq<HeaderMessage>): seq<BlockRef>
  {
    if ms == [] then []
    else ReferencesOf(ms[0]) + References(ms[1..])
  }

  function ReferencesOf(m: HeaderMessage): seq<BlockRef>
  {
    if m.type_ == CONTINUATION && |m.data| >= 16 && U64At(m.data, 8) != 0
    then [BlockRef(U64At(m.data, 0), U64At(m.data, 8))]
    else []
  }

  /** A block reference is a message of type 16 with at least 16 bytes whose size field is not all zeros. */
  lemma ReferenceExact(m: HeaderMessage)
    ensures ReferencesOf(m) == [] <==> m.type_ != 16 || |m.data| < 16 || forall i | 8 <= i < 16 :: m.data[i] == 0
    ensures ReferencesOf(m) != [] ==> |m.data| >= 16 && ReferencesOf(m) == [BlockRef(U64At(m.data, 0), U64At(m.data, 8))]
  {
    hide FromLE;
    if |m.data| >= 16 {
      ZeroValue(m.data[8..16]);
      assert forall i | 8 <= i < 16 :: m.data[i] == m.data[8..16][i - 8];
    }
  }

  lemma ReferencesLaws(ms: seq<HeaderMessage>, i: nat)
    requires i <= |ms|
    ensures i < |ms| ==> References(ms[i..]) == ReferencesOf(ms[i]) + References(ms[i + 1..])
    ensures References([]) == [] && ms[0..] == ms && ms[|ms|..] == []
  {
    hide ReferencesOf;
    if i < |ms| {
      assert ms[i..][1..] == ms[i + 1..];
    }
  }

  method FindContinuations(ms: seq<HeaderMessage>) returns (refs: seq<BlockRef>)
    ensures refs == References(ms)
  {
    hide U64At, References;
    refs := [];
    ReferencesLaws(ms, 0);
    var i := 0;
    while i < |ms|
      invariant i <= |ms| && refs + References(ms[i..]) == References(ms)
    {
      ReferencesLaws(ms, i);
      var m := ms[i];
      if m.type_ == CONTINUATION && |m.data| > 0 {
        if |m.data| >= 16 {
          var address, size := U64At(m.data, 0), U64At(m.data, 8);
          if size != 0 {
            refs := refs + [BlockRef(address, size)];
          }
        }
      }
      i := i + 1;
    }
  }

  predicate Bit(flags: byte, weight: nat)
    requires weight > 0
  {
    (flags / weight) % 2 == 1
  }

  function MessageHeaderSize(flags: byte): nat { if Bit(flags, 4) then 6 else 4 }

  /** parseV2ContinuationBlock. */
  function ReadBlock(m: Mem, ref: BlockRef, flags: byte): Result<seq<HeaderMessage>>
  {
    if ref.size < 8 then Err
    else if Load(m, ref.address, 4) != Some(BLOCK_SIGNATURE) then Err
    else ReadMessages(m, ref.address + 4, ref.address + ref.size - 4, MessageHeaderSize(flags))
  }

  function Marked(ms: seq<HeaderMessage>): (r: seq<HeaderMessage>)
    ensures |r| == |ms| && forall i | 0 <= i < |ms| :: r[i] == ms[i].(fromContinuation := true)
  {
    seq(|ms|, i requires 0 <= i < |ms| => ms[i].(fromContinuation := true))
  }

  /** The continuation worklist, first in first out, over at most `budget` blocks. */
  function Follow(m: Mem, queue: seq<BlockRef>, flags: byte, budget: nat): Result<seq<HeaderMessage>>
    decreases budget
  {
    if queue == [] then Ok([])
    else if budget == 0 then Err
    else
      match ReadBlock(m, queue[0], flags)
      case Err => Err
      case Ok(ms) => Prepend(Marked(ms), Follow(m, queue[1..] + References(ms), flags, budget - 1))
  }

  /** Where the chunk-size field starts. */
  function SizeFieldAt(address: nat, flags: byte): nat
  {
    address + 6 + (if Bit(flags, 32) then 16 else 0) + (if Bit(flags, 16) then 4 else 0)
  }

  function FieldWidth(flags: byte): (w: nat)
    ensures w in {1, 2, 4, 8}
  {
    if flags % 4 == 0 then 1 else if flags % 4 == 1 then 2 else if flags % 4 == 2 then 4 else 8
  }

  /** The messages of the main chunk. */
  function ReadMain(m: Mem, address: nat, flags: byte): Result<seq<HeaderMessage>>
  {
    var at, w := SizeFieldAt(address, flags), FieldWidth(flags);
    match Load(m, at, w)
    case None => Err
    case Some(field) => ReadMessages(m, at + w, at + w + FromLE(field), MessageHeaderSize(flags))
  }

  /** parseV2Header: the main chunk, then the continuation blocks in worklist order. */
  function ReadV2(m: Mem, address: nat, flags: byte, budget: nat): Result<seq<HeaderMessage>>
  {
    match ReadMain(m, address, flags)
    case Err => Err
    case Ok(main) => Prepend(main, Follow(m, References(main), flags, budget))
  }

  datatype Header = Header(flags: byte, messages: seq<HeaderMessage>, refCount: u32)

  /** The count in the first reference-count message, 1 without one. */
  function RefCount(ms: seq<HeaderMessage>): u32
  {
    if ms == [] then 1
    else if ms[0].type_ == REF_COUNT && |ms[0].data| >= 4 then U32At(ms[0].data, 0)
    else RefCount(ms[1..])
  }

  const HEADER_SIGNATURE: seq<byte> := ['O' as int, 'H' as int, 'D' as int, 'R' as int]

  /** ReadObjectHeader on a little-endian version 2 header. */
  function ReadHeader(m: Mem, address: nat, budget: nat): Result<Header>
  {
    match Load(m, address, 8)
    case None => Err
    case Some(prefix) =>
      if prefix[0..4] != HEADER_SIGNATURE || prefix[4] != 2 then Err
      else
        match ReadV2(m, address, prefix[5], budget)
        case Err => Err
        case Ok(ms) => Ok(Header(prefix[5], ms, RefCount(ms)))
  }

  method ParseBlock(m: Mem, ref: BlockRef, flags: byte) returns (r: Result<seq<HeaderMessage>>)
    ensures r == ReadBlock(m, ref, flags)
    ensures r.Ok? ==> ref.size >= 8 && Load(m, ref.address, 4) == Some([79, 67, 72, 75])
    ensures r.Ok? ==> forall i | ref.address <= i < ref.address + ref.size - 4 :: i in m
  {
    hide ReadMessages;
    if ref.size < 8 {
      return Err;
    }
    var signature := Load(m, ref.address, 4);
    if signature.None? {
      return Err;
    }
    if signature.value != BLOCK_SIGNATURE {
      return Err;
    }
    r := ParseMessages(m, ref.address + 4, ref.address + ref.size - 4, MessageHeaderSize(flags));
    MessagesInside(m, ref.address + 4, ref.address + ref.size - 4, MessageHeaderSize(flags));
  }

  /** The worklist loop of parseV2Header; `budget` bounds the number of blocks, since cyclic references would
      otherwise be followed forever. */
  method FollowContinuations(m: Mem, main: seq<HeaderMessage>, flags: byte, budget: nat) returns (r: Result<seq<HeaderMessage>>)
    ensures r == Prepend(main, Follow(m, References(main), flags, budget))
  {
    hide ReadBlock, References, Prepend;
    var messages, left: nat := main, budget;
    var queue := FindContinuations(main);
    while |queue| > 0
      invariant left <= budget
      invariant Prepend(main, Follow(m, References(main), flags, budget)) == Prepend(messages, Follow(m, queue, flags, left))
      decreases left
    {
      PrependErr(messages);
      if left == 0 {
        return Err;
      }
      var block := ParseBlock(m, queue[0], flags);
      if block.Err? {
        return Err;
      }
      var more := FindContinuations(block.value);
      PrependLaws(messages, Marked(block.value), Follow(m, queue[1..] + more, flags, left - 1));
      messages := messages + Marked(block.value);
      queue := queue[1..] + more;
      left := left - 1;
    }
    PrependEnd(messages);
    r := Ok(messages);
  }

  method ParseV2Header(m: Mem, address: nat, flags: byte, budget: nat) returns (r: Result<seq<HeaderMessage>>)
    ensures r == ReadV2(m, address, flags, budget)
  {
    hide ReadMessages, Prepend, Follow, References, FromLE;
    var current := address + 6;
    if Bit(flags, 32) {
      current := current + 16;
    }
    if Bit(flags, 16) {
      current := current + 4;
    }
    var chunkSizeBytes := FieldWidth(flags);
    var field := Load(m, current, chunkSizeBytes);
    if field.None? {
      return Err;
    }
    current := current + chunkSizeBytes;
    var main := ParseMessages(m, current, current + FromLE(field.value), MessageHeaderSize(flags));
    if main.Err? {
      return Err;
    }
    r := FollowContinuations(m, main.value, flags, budget);
  }

  method ReadObjectHeader(m: Mem, address: nat, budget: nat) returns (r: Result<Header>)
    ensures r == ReadHeader(m, address, budget)
    ensures r.Ok? ==>
      && Load(m, address, 8).Some? && Load(m, address, 4) == Some([79, 72, 68, 82])
      && address + 4 in m && m[address + 4] == 2 && address + 5 in m && m[address + 5] == r.value.flags
  {
    hide ReadV2, U32At;
    var prefix := Load(m, address, 8);
    if prefix.None? {
      return Err;
    }
    if prefix.value[0..4] != HEADER_SIGNATURE {
      return Err;
    }
    assert Load(m, address, 4).value == prefix.value[0..4];
    if prefix.value[4] != 2 {
      return Err;
    }
    var messages := ParseV2Header(m, address, prefix.value[5], budget);
    if messages.Err? {
      return Err;
    }
    var count := FindRefCount(messages.value);
    r := Ok(Header(prefix.value[5], messages.value, count));
  }

  /** A message that states the object's reference count: type 22 with at least four bytes. */
  predicate StatesCount(m: HeaderMessage)
  {
    m.type_ == 22 && |m.data| >= 4
  }

  /** The first message that states a count decides. */
  lemma {:induction false} RefCountFirst(ms: seq<HeaderMessage>, i: nat)
    requires i <= |ms| && forall j | 0 <= j < i :: !StatesCount(ms[j])
    ensures i == |ms| ==> RefCount(ms) == 1
    ensures i < |ms| && StatesCount(ms[i]) ==> RefCount(ms) == U32At(ms[i].data, 0)
  {
    hide U32At;
    if i > 0 {
      RefCountFirst(ms[1..], i - 1);
    }
  }

  method FindRefCount(ms: seq<HeaderMessage>) returns (count: u32)
    ensures count == RefCount(ms)
  {
    hide U32At;
    count := 1;
    var i := 0;
    while i < |ms|
      invariant i <= |ms| && count == 1 && RefCount(ms) == RefCount(ms[i..])
    {
      assert ms[i..][1..] == ms[i + 1..];
      if ms[i].type_ == REF_COUNT && |ms[i].data| >= 4 {
        return U32At(ms[i].data, 0);
      }
      i := i + 1;
    }
  }
}
