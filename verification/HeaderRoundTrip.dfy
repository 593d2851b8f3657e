/** Parsing inverts writing for version 2 object headers and their continuation blocks. */
module HeaderRoundTrip {
  import opened Arith
  import opened Bytes
  import opened Storage
  import opened ObjectHeader

  /** Message data short enough for the 16-bit size field. */
  ghost predicate Small(ms: seq<Message>)
  {
    |MessagesBytes(ms)| < 0x1_0000_0000_0000_0000 && forall i | 0 <= i < |ms| :: |ms[i].data| < 0x1_0000
  }

  /** The messages a reader reports for `ms` stored from address `at`: all with data, in order, type in one byte. */
  function Kept(ms: seq<Message>, at: nat): seq<HeaderMessage>
  {
    if ms == [] then []
    else
      (if ms[0].data == [] then [] else [HeaderMessage(ms[0].type_ % 256, at, ms[0].data, false)])
      + Kept(ms[1..], at + 4 + |ms[0].data|)
  }

  lemma LoadPart(m: Mem, at: nat, bs: seq<byte>, from: nat, part: seq<byte>)
    requires Holds(m, at, bs) && from + |part| <= |bs| && bs[from..from + |part|] == part
    ensures Load(m, at + from, |part|) == Some(part)
  {
    LoadHeld(m, at, bs, from, |part|);
  }

  lemma HoldsTail(m: Mem, at: nat, bs: seq<byte>, from: nat)
    requires Holds(m, at, bs) && from <= |bs|
    ensures Holds(m, at + from, bs[from..])
  {
    forall i: nat | at + from <= i < at + |bs| ensures i in m && m[i] == bs[from..][i - (at + from)] {
      assert i in m && m[i] == bs[i - at];
    }
  }

  // ---- headers under any flags ----

  /** A message as the format has it: the message's own flags, and its creation order where the header keeps that. */
  datatype Stored = Stored(type_: byte, flags: byte, order: seq<byte>, data: seq<byte>) {
    function Bytes(): (s: seq<byte>)
      ensures |s| == 4 + |order| + |data|
    {
      [type_] + LE(|data| % 0x1_0000, 2) + [flags] + order + data
    }
  }

  function AllBytes(ss: seq<Stored>): seq<byte>
  {
    if ss == [] then [] else ss[0].Bytes() + AllBytes(ss[1..])
  }

  /** What a reader reports for the messages stored from address `at`: all with data, in order. */
  function Reported(ss: seq<Stored>, at: nat): seq<HeaderMessage>
  {
    if ss == [] then []
    else
      (if ss[0].data == [] then [] else [HeaderMessage(ss[0].type_, at, ss[0].data, false)])
      + Reported(ss[1..], at + 4 + |ss[0].order| + |ss[0].data|)
  }

  /** Two bytes of creation order in each message exactly under flag 0x04. */
  ghost predicate Orderly(flags: byte, ss: seq<Stored>)
  {
    forall i | 0 <= i < |ss| :: |ss[i].data| < 0x1_0000 && |ss[i].order| == if (flags / 4) % 2 == 1 then 2 else 0
  }

  lemma StoredParts(msg: Stored)
    ensures var s, n := msg.Bytes(), 4 + |msg.order|;
      s[0] == msg.type_ && s[1..3] == LE(|msg.data| % 0x1_0000, 2) && s[n..n + |msg.data|] == msg.data
  {
    hide LE;
    var head := [msg.type_] + LE(|msg.data| % 0x1_0000, 2);
    assert msg.Bytes() == head + ([msg.flags] + msg.order + msg.data);
    assert head[1..3] == LE(|msg.data| % 0x1_0000, 2);
  }

  /** The header of the first message, read as six bytes; four more bytes always follow it. */
  lemma FirstHeader(m: Mem, at: nat, msg: Stored, rest: seq<byte>)
    requires Holds(m, at, msg.Bytes() + rest) && |rest| >= 4 && |msg.data| < 0x1_0000
    ensures var h := Load(m, at, 6); h.Some? && h.value[0] == msg.type_ && U16At(h.value, 1) == |msg.data|
    ensures Load(m, at + 4 + |msg.order|, |msg.data|) == Some(msg.data)
  {
    hide LE, FromLE, Stored.Bytes, Holds;
    var s, from := msg.Bytes(), 4 + |msg.order|;
    StoredParts(msg);
    RoundTrip16(|msg.data|);
    assert (s + rest)[..|s|] == s;
    LoadHeld(m, at, s + rest, 0, 6);
    SubRange(s + rest, 0, s, 1, 2);
    SubRange(s + rest, 0, s, from, |msg.data|);
    assert (s + rest)[0..6][1..3] == (s + rest)[1..3];
    LoadPart(m, at, s + rest, from, msg.data);
  }

  /** One message is read as itself, unless it is empty. */
  lemma FirstRead(m: Mem, at: nat, end: nat, msg: Stored, rest: seq<byte>)
    requires Holds(m, at, msg.Bytes() + rest) && |rest| >= 4 && |msg.data| < 0x1_0000 && at < end
    ensures var n := 4 + |msg.order|;
      ReadMessages(m, at, end, n) ==
      Prepend(if msg.data == [] then [] else [HeaderMessage(msg.type_, at, msg.data, false)],
        ReadMessages(m, at + |msg.Bytes()|, end, n))
  {
    hide Holds, U16At, Prepend;
    FirstHeader(m, at, msg, rest);
    var empty: seq<HeaderMessage> := [];
    PrependLaws(empty, empty, ReadMessages(m, at + |msg.Bytes()|, end, 4 + |msg.order|));
  }

  /** Messages followed by at least four bytes are read in order, under all flags. */
  lemma {:induction false} StoredRead(m: Mem, at: nat, flags: byte, ss: seq<Stored>, tail: seq<byte>)
    requires Holds(m, at, AllBytes(ss) + tail) && |tail| >= 4 && Orderly(flags, ss)
    ensures ReadMessages(m, at, at + |AllBytes(ss)|, MessageHeaderSize(flags)) == Ok(Reported(ss, at))
    decreases |ss|
  {
    hide AllBytes, Reported, ReadMessages, Stored.Bytes, Holds;
    AllBytesStep(ss, at);
    if ss == [] {
      NothingRead(m, at, MessageHeaderSize(flags));
    } else {
      var first, rest := ss[0].Bytes(), AllBytes(ss[1..]) + tail;
      assert AllBytes(ss) + tail == first + rest;
      FirstRead(m, at, at + |AllBytes(ss)|, ss[0], rest);
      HoldsTail(m, at, first + rest, |first|);
      assert (first + rest)[|first|..] == rest;
      StoredRead(m, at + |first|, flags, ss[1..], tail);
    }
  }

  lemma AllBytesStep(ss: seq<Stored>, at: nat)
    ensures ss == [] ==> AllBytes(ss) == [] && Reported(ss, at) == []
    ensures ss != [] ==> AllBytes(ss) == ss[0].Bytes() + AllBytes(ss[1..])
    ensures ss != [] ==>
      (Reported(ss, at) ==
       (if ss[0].data == [] then [] else [HeaderMessage(ss[0].type_, at, ss[0].data, false)]) + Reported(ss[1..], at + |ss[0].Bytes()|))
  {
  }

  lemma NothingRead(m: Mem, at: nat, headerSize: nat)
    requires headerSize >= 4
    ensures ReadMessages(m, at, at, headerSize) == Ok([])
  {
  }

  /** A version 2 header: "OHDR", version and flags, 16 bytes of times under flag 0x20, 4 bytes of attribute limits
      under flag 0x10, the size of the messages in 1, 2, 4 or 8 bytes as flags 0x03 say, then the messages. */
  datatype Image = Image(flags: byte, times: seq<byte>, limits: seq<byte>, messages: seq<Stored>) {
    ghost predicate Valid() {
      && |times| == (if (flags / 32) % 2 == 1 then 16 else 0)
      && |limits| == (if (flags / 16) % 2 == 1 then 4 else 0)
      && Orderly(flags, messages) && |AllBytes(messages)| < Pow256(SizeBytes())
    }

    function SizeBytes(): nat {
      if flags % 4 == 0 then 1 else if flags % 4 == 1 then 2 else if flags % 4 == 2 then 4 else 8
    }

    function Start(): (s: seq<byte>)
      ensures |s| == 6 + |times| + |limits| + SizeBytes()
    {
      [79, 72, 68, 82, 2, flags] + times + limits + LE(|AllBytes(messages)|, SizeBytes())
    }

    function Main(address: nat): seq<HeaderMessage> {
      Reported(messages, address + |Start()|)
    }
  }

  ghost predicate ImageHeld(m: Mem, address: nat, image: Image, tail: seq<byte>)
  {
    image.Valid() && |tail| >= 4 && Holds(m, address, image.Start() + (AllBytes(image.messages) + tail))
  }

  /** The eight bytes a reader looks at first. */
  lemma ImagePrefix(m: Mem, address: nat, image: Image, tail: seq<byte>)
    requires ImageHeld(m, address, image, tail)
    ensures var r := Load(m, address, 8);
      r.Some? && r.value[0..4] == [79, 72, 68, 82] && r.value[4] == 2 && r.value[5] == image.flags
  {
    hide LE, AllBytes, Holds, Orderly;
    var bs := image.Start() + (AllBytes(image.messages) + tail);
    LoadHeld(m, address, bs, 0, 8);
    assert bs[0..8][0..4] == [79, 72, 68, 82];
  }

  /** The main chunk of a laid-out header, for all flags. */
  lemma ImageMainReads(m: Mem, address: nat, image: Image, tail: seq<byte>)
    requires ImageHeld(m, address, image, tail)
    ensures ReadMain(m, address, image.flags) == Ok(image.Main(address))
  {
    hide LE, FromLE, AllBytes, Holds, ReadMessages, MessageHeaderSize, Orderly, Reported;
    var start, body, w := image.Start(), AllBytes(image.messages) + tail, image.SizeBytes();
    var at, bs := |start| - w, start + body;
    assert bs[at..at + w] == LE(|AllBytes(image.messages)|, w);
    LoadPart(m, address, bs, at, LE(|AllBytes(image.messages)|, w));
    FromLEOfSmall(|AllBytes(image.messages)|, w);
    HoldsTail(m, address, bs, |start|);
    assert bs[|start|..] == body;
    StoredRead(m, address + |start|, image.flags, image.messages, tail);
  }

  /** A laid-out continuation block: "OCHK", the messages, at least four bytes more. */
  datatype Piece = Piece(address: u64, messages: seq<Stored>, tail: seq<byte>) {
    ghost predicate Valid(flags: byte) {
      Orderly(flags, messages) && |tail| >= 4 && 8 + |AllBytes(messages)| < 0x1_0000_0000_0000_0000
    }

    function Bytes(): seq<byte> {
      [79, 67, 72, 75] + (AllBytes(messages) + tail)
    }

    function Messages(): seq<HeaderMessage> {
      Reported(messages, address + 4)
    }
  }

  /** A block is read over its stated size, which counts the signature and four bytes behind the messages. */
  lemma PieceReads(m: Mem, p: Piece, flags: byte)
    requires p.Valid(flags) && Holds(m, p.address, p.Bytes())
    ensures ReadBlock(m, BlockRef(p.address, 8 + |AllBytes(p.messages)|), flags) == Ok(p.Messages())
  {
    hide AllBytes, Holds, ReadMessages, MessageHeaderSize, Orderly, Reported;
    LoadPart(m, p.address, p.Bytes(), 0, [79, 67, 72, 75]);
    HoldsTail(m, p.address, p.Bytes(), 4);
    assert p.Bytes()[4..] == AllBytes(p.messages) + p.tail;
    StoredRead(m, p.address + 4, flags, p.messages, p.tail);
  }

  /** The pieces in the order in which the worklist, starting from `queue`, meets them, each in the file. */
  ghost predicate PiecesHeld(m: Mem, flags: byte, queue: seq<BlockRef>, pieces: seq<Piece>)
    decreases |pieces|
  {
    if pieces == [] then queue == []
    else
      && pieces[0].Valid(flags) && Holds(m, pieces[0].address, pieces[0].Bytes())
      && queue != [] && queue[0] == BlockRef(pieces[0].address, 8 + |AllBytes(pieces[0].messages)|)
      && PiecesHeld(m, flags, queue[1..] + References(pieces[0].Messages()), pieces[1..])
  }

  function Pieced(pieces: seq<Piece>): seq<HeaderMessage>
  {
    if pieces == [] then [] else Marked(pieces[0].Messages()) + Pieced(pieces[1..])
  }

  lemma {:induction false} PiecesFollowed(m: Mem, flags: byte, queue: seq<BlockRef>, pieces: seq<Piece>, budget: nat)
    requires PiecesHeld(m, flags, queue, pieces) && |pieces| <= budget
    ensures Follow(m, queue, flags, budget) == Ok(Pieced(pieces))
    decreases |pieces|
  {
    hide ReadBlock, References, Piece.Messages, Piece.Bytes, Piece.Valid, Holds, AllBytes;
    if pieces != [] {
      PieceReads(m, pieces[0], flags);
      PiecesFollowed(m, flags, queue[1..] + References(pieces[0].Messages()), pieces[1..], budget - 1);
    }
  }

  /** Every header laid out by the format, with any flags and any chain of continuation blocks, is read as its flags,
      its messages with their places and data, and its reference count. */
  lemma ImageReads(m: Mem, address: nat, image: Image, tail: seq<byte>, pieces: seq<Piece>, budget: nat)
    requires ImageHeld(m, address, image, tail) && |pieces| <= budget
    requires PiecesHeld(m, image.flags, References(image.Main(address)), pieces)
    ensures var all := image.Main(address) + Pieced(pieces);
      ReadHeader(m, address, budget) == Ok(Header(image.flags, all, RefCount(all)))
  {
    hide ImageHeld, PiecesHeld, ReadMain, References, Image.Main, Follow, RefCount;
    ImagePrefix(m, address, image, tail);
    ImageMainReads(m, address, image, tail);
    PiecesFollowed(m, image.flags, References(image.Main(address)), pieces, budget);
  }

  // ---- the messages this library writes ----

  /** The messages as stored: type in one byte, no flags, no creation order. */
  function AsStored(ms: seq<Message>): seq<Stored>
  {
    if ms == [] then [] else [Stored(ms[0].type_ % 256, 0, [], ms[0].data)] + AsStored(ms[1..])
  }

  lemma {:induction false} StoredAs(ms: seq<Message>, at: nat)
    ensures AllBytes(AsStored(ms)) == MessagesBytes(ms) && Reported(AsStored(ms), at) == Kept(ms, at)
    ensures |AsStored(ms)| == |ms|
    ensures forall i | 0 <= i < |ms| :: AsStored(ms)[i] == Stored(ms[i].type_ % 256, 0, [], ms[i].data)
  {
    hide LE;
    if ms != [] {
      StoredAs(ms[1..], at + 4 + |ms[0].data|);
      var ss := AsStored(ms);
      assert ss[1..] == AsStored(ms[1..]);
      assert ss[0].Bytes() == MessageBytes(ms[0]);
    }
  }

  /** Stored messages, followed by at least four bytes, are read back in order. */
  lemma MessagesReadBack(m: Mem, at: nat, ms: seq<Message>, tail: seq<byte>)
    requires Holds(m, at, MessagesBytes(ms) + tail) && |tail| >= 4
    requires forall i | 0 <= i < |ms| :: |ms[i].data| < 0x1_0000
    ensures ReadMessages(m, at, at + |MessagesBytes(ms)|, 4) == Ok(Kept(ms, at))
  {
    hide MessagesBytes, AllBytes, AsStored, Reported, Kept, Holds, ReadMessages;
    StoredAs(ms, at);
    StoredRead(m, at, 0, AsStored(ms), tail);
  }

  // ---- the main chunk ----

  /** None of the flags that add header fields or widen message headers. */
  predicate Plain(flags: byte)
  {
    !Bit(flags, 4) && !Bit(flags, 16) && !Bit(flags, 32)
  }

  lemma StoredFlagsBits(flags: byte, n: nat)
    ensures var f := StoredFlags(flags, n);
      && FieldWidth(f) == Width(n) && (Bit(f, 4) <==> Bit(flags, 4)) && (Bit(f, 16) <==> Bit(flags, 16))
      && (Bit(f, 32) <==> Bit(flags, 32))
  {
    var q, b := flags / 4, WidthBits(Width(n));
    assert flags == 4 * q + flags % 4;
    assert StoredFlags(flags, n) / 16 == q / 4 == flags / 16;
    assert StoredFlags(flags, n) / 32 == q / 8 == flags / 32;
  }

  /** Every size fits the field chosen for it. */
  lemma WidthHolds(n: u64)
    ensures n < Pow256(Width(n)) && (Width(n) > 1 ==> n >= Pow256(Width(n) / 2))
  {
    Pow256Values();
  }

  function MainMessages(address: nat, ms: seq<Message>): seq<HeaderMessage>
  {
    Kept(ms, address + 6 + Width(|MessagesBytes(ms)|))
  }

  /** A header as written, but for its checksum, is the image with these flags; it announces what it lacks when
      the flags are not plain. */
  lemma HeaderParts(flags: byte, ms: seq<Message>, sum: Checksum) returns (tail: seq<byte>)
    ensures var n := |MessagesBytes(ms)|; var image := Image(StoredFlags(flags, n), [], [], AsStored(ms));
      && |tail| == 4 && HeaderBytes(flags, ms, sum) == image.Start() + (AllBytes(image.messages) + tail)
      && AllBytes(image.messages) == MessagesBytes(ms) && image.SizeBytes() == Width(n)
      && (Plain(flags) && Small(ms) ==> image.Valid())
  {
    hide LE, MessagesBytes, StoredFlags, Width, AllBytes, AsStored, Image.Valid;
    var body := MessagesBytes(ms);
    StoredAs(ms, 0);
    StoredFlagsBits(flags, |body|);
    tail := LE(sum(HeaderPrefix(flags, |body|) + body), 4);
    if Plain(flags) && Small(ms) {
      WidthHolds(|body|);
      PlainImage(StoredFlags(flags, |body|), AsStored(ms));
    }
  }

  lemma PlainImage(flags: byte, ss: seq<Stored>)
    requires Plain(flags) && |AllBytes(ss)| < Pow256(FieldWidth(flags))
    requires forall i | 0 <= i < |ss| :: |ss[i].data| < 0x1_0000 && ss[i].order == []
    ensures Image(flags, [], [], ss).Valid()
  {
  }

  /** Without the extra flags, the main chunk is read back whole, at every width of the size field. */
  lemma MainReadsBack(m: Mem, address: nat, flags: byte, ms: seq<Message>, sum: Checksum)
    requires Plain(flags) && Small(ms) && Holds(m, address, HeaderBytes(flags, ms, sum))
    ensures ReadMain(m, address, StoredFlags(flags, |MessagesBytes(ms)|)) == Ok(MainMessages(address, ms))
  {
    hide LE, MessagesBytes, HeaderBytes, Holds, StoredFlags, Width, Small, Plain, ReadMain, AsStored, AllBytes, Image.Valid,
         Image.SizeBytes;
    var tail := HeaderParts(flags, ms, sum);
    var image := Image(StoredFlags(flags, |MessagesBytes(ms)|), [], [], AsStored(ms));
    ImageMainReads(m, address, image, tail);
    StoredAs(ms, address + |image.Start()|);
  }

  /** Every list of messages with 16-bit sizes, written anywhere under these flags, is read back. */
  ghost predicate AlwaysReadsBack(flags: byte, address: nat, sum: Checksum)
  {
    forall ms: seq<Message>, m: Mem | Small(ms) && Holds(m, address, HeaderBytes(flags, ms, sum)) ::
      ReadMain(m, address, StoredFlags(flags, |MessagesBytes(ms)|)) == Ok(MainMessages(address, ms))
  }

  /** Reading back works for all message lists exactly when flag bits 0x34 are clear: the writer keeps those bits
      but never writes the fields they announce. */
  lemma FlagsDecide(flags: byte, address: nat, sum: Checksum)
    ensures AlwaysReadsBack(flags, address, sum) <==> Plain(flags)
  {
    hide HeaderBytes, Holds, MessagesBytes, StoredFlags, ReadMain, MainMessages, Plain, Small;
    if Plain(flags) {
      forall ms: seq<Message>, m: Mem | Small(ms) && Holds(m, address, HeaderBytes(flags, ms, sum))
        ensures ReadMain(m, address, StoredFlags(flags, |MessagesBytes(ms)|)) == Ok(MainMessages(address, ms))
      {
        MainReadsBack(m, address, flags, ms, sum);
      }
    } else {
      var m := Store(map[], address, HeaderBytes(flags, Witness(), sum));
      StoreHolds(map[], address, HeaderBytes(flags, Witness(), sum));
      WitnessFails(m, address, flags, sum);
    }
  }

  /** One message whose first data byte is 1 and whose other 29 are 0. */
  function Witness(): seq<Message>
  {
    [Message(ATTRIBUTE, [1] + Zeros(29))]
  }

  lemma WitnessBytes()
    ensures MessagesBytes(Witness()) == [12, 30, 0, 0, 1] + Zeros(29) && |MessagesBytes(Witness())| == 34
    ensures Small(Witness())
  {
    MessagesOne(Witness()[0]);
    assert LE(30, 2) == [30] + LE(0, 1) == [30, 0];
  }

  /** The witness's image: size byte 34 at 6, the message from 7, its second data byte at 12. */
  lemma WitnessImage(flags: byte, sum: Checksum)
    ensures var bs := HeaderBytes(flags, Witness(), sum);
      && |bs| == 45 && bs[6] == 34 && bs[7] == 12 && bs[8] == 30 && bs[9] == 0
      && forall k | 12 <= k < 41 || k == 10 :: bs[k] == 0
  {
    hide LE, StoredFlags;
    WitnessBytes();
    var tail := HeaderParts(flags, Witness(), sum);
    var bs := HeaderBytes(flags, Witness(), sum);
    assert bs[7..] == MessagesBytes(Witness()) + tail;
    SingleByte(34);
    forall k | 7 <= k < 41 ensures bs[k] == MessagesBytes(Witness())[k - 7] {
      assert bs[k] == bs[7..][k - 7];
    }
  }

  lemma SingleByte(v: nat)
    requires v < 256
    ensures LE(v, 1) == [v]
  {
    assert LE(v / 256, 0) == [];
  }

  lemma WitnessFails(m: Mem, address: nat, flags: byte, sum: Checksum)
    requires !Plain(flags) && Holds(m, address, HeaderBytes(flags, Witness(), sum))
    ensures Small(Witness())
    ensures ReadMain(m, address, StoredFlags(flags, |MessagesBytes(Witness())|)) != Ok(MainMessages(address, Witness()))
  {
    hide HeaderBytes, StoredFlags, MessagesBytes, LE, FromLE, Bit, FieldWidth, Small;
    WitnessBytes();
    WitnessImage(flags, sum);
    StoredFlagsBits(flags, 34);
    var bs, f := HeaderBytes(flags, Witness(), sum), StoredFlags(flags, 34);
    var skip := (if Bit(f, 32) then 16 else 0) + (if Bit(f, 16) then 4 else 0);
    LoadHeld(m, address, bs, 6 + skip, 1);
    assert bs[6 + skip..6 + skip + 1] == [bs[6 + skip]];
    OneByteValue(bs[6 + skip]);
    WitnessExpected(address);
    if skip == 0 {
      WitnessMisread(m, address, bs);
    }
  }

  lemma OneByteValue(b: byte)
    ensures FromLE([b]) == b
  {
    assert [b][1..] == [];
  }

  lemma WitnessExpected(address: nat)
    ensures |MainMessages(address, Witness())| == 1 && MainMessages(address, Witness())[0].data[0] == 1
  {
    hide MessagesBytes;
    var ms, at := Witness(), address + 6 + Width(|MessagesBytes(Witness())|);
    assert ms[1..] == [] && ms[0].data[0] == 1;
    assert Kept(ms, at) == [HeaderMessage(12, at, ms[0].data, false)] + Kept(ms[1..], at + 34);
  }

  /** With six-byte message headers the data is taken two bytes too late. */
  lemma WitnessMisread(m: Mem, address: nat, bs: seq<byte>)
    requires Holds(m, address, bs) && |bs| == 45 && bs[7] == 12 && bs[8] == 30 && bs[9] == 0 && bs[13] == 0
    ensures var r := ReadMessages(m, address + 7, address + 41, 6);
      r.Ok? ==> r.value != [] && |r.value[0].data| == 30 && r.value[0].data[0] == 0
  {
    LoadHeld(m, address, bs, 7, 6);
    var header := bs[7..13];
    assert header[1..3] == [30, 0];
    assert [30, 0][1..] == [0];
    OneByteValue(0);
    assert FromLE([30, 0]) == 30;
    LoadHeld(m, address, bs, 13, 30);
    assert bs[13..43][0] == 0;
  }

  // ---- continuation blocks ----

  /** A continuation block as written. */
  datatype Block = Block(address: u64, ms: seq<Message>) {
    ghost predicate Valid() {
      Small(ms) && BlockSize(ms) < 0x1_0000_0000_0000_0000
    }

    function Messages(): seq<HeaderMessage> {
      Kept(ms, address + 4)
    }
  }

  function RefTo(b: Block): BlockRef
    requires b.Valid()
  {
    BlockRef(b.address, BlockSize(b.ms))
  }

  ghost predicate BlockHeld(m: Mem, b: Block, sum: Checksum)
  {
    b.Valid() && Holds(m, b.address, BlockBytes(b.ms, sum))
  }

  lemma BlockReadsBack(m: Mem, b: Block, flags: byte, sum: Checksum)
    requires !Bit(flags, 4) && BlockHeld(m, b, sum)
    ensures ReadBlock(m, RefTo(b), flags) == Ok(b.Messages())
  {
    hide LE, MessagesBytes, Holds, ReadBlock, AllBytes, AsStored;
    StoredAs(b.ms, b.address + 4);
    var p := Piece(b.address, AsStored(b.ms), LE(sum(BLOCK_SIGNATURE + MessagesBytes(b.ms)), 4));
    assert p.Bytes() == BlockBytes(b.ms, sum);
    PieceReads(m, p, flags);
  }

  /** A continuation message refers to exactly the block it was made for. */
  lemma ReferenceReadsBack(address: u64, size: u64, offset: nat, from: bool)
    requires size != 0
    ensures ReferencesOf(HeaderMessage(16, offset, ContinuationData(address, size), from)) == [BlockRef(address, size)]
  {
    hide LE, FromLE;
    var data := ContinuationData(address, size);
    assert data[0..8] == LE(address, 8) && data[8..16] == LE(size, 8);
    RoundTrip64(address);
    RoundTrip64(size);
  }

  /** `order` is the order in which the worklist, starting from `queue`, meets the blocks. */
  ghost predicate Meets(queue: seq<BlockRef>, order: seq<Block>)
    decreases |order|
  {
    if order == [] then queue == []
    else
      && order[0].Valid() && queue != [] && queue[0] == RefTo(order[0])
      && Meets(queue[1..] + References(order[0].Messages()), order[1..])
  }

  /** The messages of the blocks, in that order, marked as continued. */
  function Continued(order: seq<Block>): seq<HeaderMessage>
  {
    if order == [] then [] else Marked(order[0].Messages()) + Continued(order[1..])
  }

  lemma {:induction false} FollowReadsBack(m: Mem, queue: seq<BlockRef>, order: seq<Block>, flags: byte, budget: nat, sum: Checksum)
    requires !Bit(flags, 4) && Meets(queue, order) && |order| <= budget
    requires forall i | 0 <= i < |order| :: BlockHeld(m, order[i], sum)
    ensures Follow(m, queue, flags, budget) == Ok(Continued(order))
    decreases |order|
  {
    hide ReadBlock, BlockHeld, References, Bit, Block.Messages;
    if order != [] {
      BlockReadsBack(m, order[0], flags, sum);
      FollowReadsBack(m, queue[1..] + References(order[0].Messages()), order[1..], flags, budget - 1, sum);
    }
  }

  /** A header and its blocks, all in the file. */
  ghost predicate Held(m: Mem, address: nat, flags: byte, ms: seq<Message>, order: seq<Block>, sum: Checksum)
  {
    && Plain(flags) && Small(ms) && Holds(m, address, HeaderBytes(flags, ms, sum))
    && (forall i | 0 <= i < |order| :: BlockHeld(m, order[i], sum))
    && Meets(References(MainMessages(address, ms)), order)
  }

  /** Writing a header and its continuation blocks and reading the object header gives the main messages in order,
      then those of the blocks in worklist order, marked. */
  lemma HeaderReadsBack(m: Mem, address: nat, flags: byte, ms: seq<Message>, order: seq<Block>, sum: Checksum, budget: nat)
    requires Held(m, address, flags, ms, order, sum) && |order| <= budget
    ensures var all := MainMessages(address, ms) + Continued(order);
      ReadHeader(m, address, budget) == Ok(Header(StoredFlags(flags, |MessagesBytes(ms)|), all, RefCount(all)))
  {
    hide LE, HeaderBytes, MessagesBytes, Holds, StoredFlags, BlockHeld, Small, ReadMain, Follow, MainMessages, Meets, Bit;
    var f := StoredFlags(flags, |MessagesBytes(ms)|);
    StoredFlagsBits(flags, |MessagesBytes(ms)|);
    PrefixLoads(m, address, flags, ms, sum);
    MainReadsBack(m, address, flags, ms, sum);
    FollowReadsBack(m, References(MainMessages(address, ms)), order, f, budget, sum);
  }

  lemma PrefixLoads(m: Mem, address: nat, flags: byte, ms: seq<Message>, sum: Checksum)
    requires Plain(flags) && Small(ms) && Holds(m, address, HeaderBytes(flags, ms, sum))
    ensures var r := Load(m, address, 8);
      r.Some? && r.value[0..4] == HEADER_SIGNATURE && r.value[4] == 2 && r.value[5] == StoredFlags(flags, |MessagesBytes(ms)|)
  {
    hide LE, HeaderBytes, MessagesBytes, Holds, StoredFlags, Small, Plain, Image.Valid, Image.SizeBytes, AsStored, AllBytes;
    var tail := HeaderParts(flags, ms, sum);
    ImagePrefix(m, address, Image(StoredFlags(flags, |MessagesBytes(ms)|), [], [], AsStored(ms)), tail);
  }
}
