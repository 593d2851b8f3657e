/** The reference-count message in the bytes of an object header: written by link_write.go and delete_write.go, read by
    internal/core/objectheader.go, and what that does to the header's place in the file. */
module LinkCount {
  import opened Bytes
  import opened Storage
  import opened ObjectHeader
  import opened HeaderRoundTrip
  import opened AttributeMessages
  import A = Allocator

  predicate IsCount(m: Message) { m.type_ == REF_COUNT && |m.data| >= 4 }

  /** Index of the first reference-count message, or the number of messages. */
  function FirstCount(ms: seq<Message>): (i: nat)
    ensures i <= |ms| && (i < |ms| ==> IsCount(ms[i])) && forall j | 0 <= j < i :: !IsCount(ms[j])
  {
    if ms == [] || IsCount(ms[0]) then 0 else 1 + FirstCount(ms[1..])
  }

  predicate HasCount(ms: seq<Message>) { FirstCount(ms) < |ms| }

  /** The count a header with these messages stands for. */
  function CountOf(ms: seq<Message>): u32
  {
    if HasCount(ms) then U32At(ms[FirstCount(ms)].data, 0) else 1
  }

  /** ensureRefCountMessage: the first count message is overwritten, or one is added at the end. */
  function WithCount(ms: seq<Message>, count: u32): seq<Message>
  {
    var i := FirstCount(ms);
    if i < |ms| then ms[i := Message(REF_COUNT, LE(count, 4) + ms[i].data[4..])] else ms + [Message(REF_COUNT, LE(count, 4))]
  }

  method EnsureRefCountMessage(ms: seq<Message>, count: u32) returns (r: seq<Message>)
    ensures r == WithCount(ms, count)
  {
    hide LE;
    r := ms;
    var i := 0;
    while i < |ms|
      invariant i <= |ms| && r == ms && FirstCount(ms) == i + FirstCount(ms[i..])
    {
      assert ms[i..][1..] == ms[i + 1..];
      if ms[i].type_ == REF_COUNT && |ms[i].data| >= 4 {
        r := ms[i := Message(REF_COUNT, LE(count, 4) + ms[i].data[4..])];
        return;
      }
      i := i + 1;
    }
    r := ms + [Message(REF_COUNT, LE(count, 4))];
  }

  /** Setting the count sets what is read, and takes eight bytes exactly when there was no count message. */
  lemma WithCountFacts(ms: seq<Message>, count: u32)
    requires Proper(ms)
    ensures var r := WithCount(ms, count);
      && Proper(r) && HasCount(r) && CountOf(r) == count && RefsOf(r) == RefsOf(ms)
      && |MessagesBytes(r)| == |MessagesBytes(ms)| + if HasCount(ms) then 0 else 8
  {
    hide LE, U32At, MessagesBytes, RefsOf, FirstCount;
    var i := FirstCount(ms);
    if i < |ms| {
      var m := Message(REF_COUNT, LE(count, 4) + ms[i].data[4..]);
      assert ms == ms[..i] + [ms[i]] + ms[i + 1..] && ms[i := m] == ms[..i] + [m] + ms[i + 1..];
      CountReads(count, ms[i].data[4..]);
      FirstAt(ms[i := m], i);
      Around(ms[..i], m, ms[i + 1..]);
      Around(ms[..i], ms[i], ms[i + 1..]);
      ProperAt(ms, i, m);
    } else {
      var m := Message(REF_COUNT, LE(count, 4));
      CountReads(count, []);
      assert LE(count, 4) + [] == LE(count, 4) && ms + [m] + [] == ms + [m];
      FirstAt(ms + [m], i);
      Around(ms, m, []);
      MessagesOne(m);
      RefsOne(m);
      assert RefsOf(ms) + [] == RefsOf(ms);
      ProperAt(ms, i, m);
    }
  }

  lemma ProperAt(ms: seq<Message>, i: nat, m: Message)
    requires Proper(ms) && i <= |ms| && Proper([m])
    ensures Proper(ms + [m]) && (i < |ms| ==> Proper(ms[i := m]))
  {
    assert [m][0] == m;
  }

  lemma CountReads(count: u32, rest: seq<byte>)
    ensures U32At(LE(count, 4) + rest, 0) == count
  {
    RoundTrip32(count);
    assert (LE(count, 4) + rest)[0..4] == LE(count, 4);
  }

  lemma {:induction false} FirstAt(ms: seq<Message>, i: nat)
    requires i < |ms| && IsCount(ms[i]) && forall j | 0 <= j < i :: !IsCount(ms[j])
    ensures FirstCount(ms) == i
    decreases i
  {
    if i > 0 {
      FirstAt(ms[1..], i - 1);
    }
  }

  /** A message other than a reference to a block adds its bytes and no reference. */
  lemma Around(p: seq<Message>, m: Message, q: seq<Message>)
    ensures |MessagesBytes(p + [m] + q)| == |MessagesBytes(p)| + 4 + |m.data| + |MessagesBytes(q)|
    ensures m.type_ != CONTINUATION ==> RefsOf(p + [m] + q) == RefsOf(p) + RefsOf(q)
  {
    hide MessagesBytes, RefsOf;
    MessagesAppend(p + [m], q);
    MessagesAppend(p, [m]);
    MessagesOne(m);
    RefsAppend(p + [m], q);
    RefsAppend(p, [m]);
    RefsOne(m);
  }

  // ---- in the file ----

  /** A plain header without continuation blocks, as the writer leaves it. */
  ghost predicate InFile(m: Mem, at: nat, flags: byte, ms: seq<Message>, sum: Checksum)
  {
    && Plain(flags) && Proper(ms) && |MessagesBytes(ms)| < 0x1_0000_0000_0000_0000 && RefsOf(ms) == []
    && Holds(m, at, HeaderBytes(flags, ms, sum))
  }

  /** It reads back as its messages and their count. */
  lemma InFileReads(m: Mem, at: nat, flags: byte, ms: seq<Message>, sum: Checksum)
    requires InFile(m, at, flags, ms, sum)
    ensures var r := ReadHeader(m, at, 0); r.Ok? && Payload(r.value.messages) == ms && r.value.refCount == CountOf(ms)
  {
    hide Holds, HeaderBytes, MessagesBytes, ReadHeader, U32At, RefsOf, Kept;
    var hms := MainMessages(at, ms);
    KeptPayload(ms, at + 6 + Width(|MessagesBytes(ms)|));
    ReferencesPayload(hms);
    HeaderReadsBack(m, at, flags, ms, [], sum, 0);
    assert hms + Continued([]) == hms;
    RefCountPayload(hms);
  }

  lemma {:induction false} RefCountPayload(hms: seq<HeaderMessage>)
    ensures RefCount(hms) == CountOf(Payload(hms))
  {
    hide U32At;
    if hms != [] {
      RefCountPayload(hms[1..]);
      assert Payload(hms)[1..] == Payload(hms[1..]);
    }
  }

  /** Which of the two writers sets the count: a link raises it, a deletion lowers it. */
  datatype Write = Raise(count: u32) | Lower(count: u32) {
    /** writeV2RefCount leaves the messages alone for a count of 1; writeRefCount always sets it. */
    predicate Sets() { Lower? || count > 1 }

    function Apply(ms: seq<Message>): seq<Message> { if Sets() then WithCount(ms, count) else ms }
  }

  /** Rewrites the whole header in place with the count; the size of its region is not looked at. */
  method WriteCount(file: FileWriter, at: nat, flags: byte, ms: seq<Message>, w: Write, sum: Checksum) returns (now: seq<Message>)
    requires file.Valid() && InFile(file.mem, at, flags, ms, sum) && |MessagesBytes(ms)| + 8 < 0x1_0000_0000_0000_0000
    modifies file`mem
    ensures file.Valid() && now == w.Apply(ms) && InFile(file.mem, at, flags, now, sum)
    ensures CountOf(now) == if w.Sets() then w.count else CountOf(ms)
    ensures var r := ReadHeader(file.mem, at, 0); r.Ok? && Payload(r.value.messages) == now && r.value.refCount == CountOf(now)
    ensures forall i: nat | i in old(file.mem) && !(at <= i < at + HeaderSize(now)) :: i in file.mem && file.mem[i] == old(file.mem)[i]
  {
    hide MessagesBytes, HeaderBytes, Holds, LE, U32At, RefsOf, Proper, Store;
    now := ms;
    if w.Lower? || w.count > 1 {
      now := EnsureRefCountMessage(ms, w.count);
      WithCountFacts(ms, w.count);
    }
    var writer := new ObjectHeaderWriter(flags, now);
    ghost var before := file.mem;
    var _ := writer.WriteTo(file, at, sum);
    StoreHolds(before, at, HeaderBytes(flags, now, sum));
    InFileReads(file.mem, at, flags, now, sum);
    StoreOutside(before, at, HeaderBytes(flags, now, sum));
  }

  lemma StoreOutside(m: Mem, at: nat, bs: seq<byte>)
    ensures forall i: nat | i in m && !(at <= i < at + |bs|) :: i in Store(m, at, bs) && Store(m, at, bs)[i] == m[i]
  {
  }

  /** The rewritten header fits the old one's place if and only if that had a count message or none is added. */
  lemma StaysInPlace(ms: seq<Message>, w: Write)
    requires Proper(ms)
    ensures HeaderSize(w.Apply(ms)) <= HeaderSize(ms) <==> HasCount(ms) || !w.Sets()
    ensures HeaderSize(w.Apply(ms)) == HeaderSize(ms) || HeaderSize(w.Apply(ms)) >= HeaderSize(ms) + 8
  {
    hide MessagesBytes;
    if w.Sets() {
      WithCountFacts(ms, w.count);
    }
  }

  /** ObjectHeaderSizeFromParsed. */
  method SizeFromParsed(header: Header) returns (n: nat)
    ensures n == HeaderSize(Payload(header.messages))
  {
    hide MessagesBytes;
    var writer := new ObjectHeaderWriter(header.flags, Payload(header.messages));
    n := writer.Size();
  }

  /** The end of cascadeDelete: the header is read and as many bytes as it takes are freed.  The allocator stays whole
      exactly when that is the block it handed out. */
  method FreeHeader(file: FileWriter, alloc: A.SpaceAllocator, at: nat, ghost flags: byte, ghost ms: seq<Message>, ghost sum: Checksum)
    requires alloc.Valid() && InFile(file.mem, at, flags, ms, sum)
    modifies alloc
    ensures alloc.Valid() <==> A.Block(at, HeaderSize(ms)) in old(alloc.blocks)
    ensures alloc.blocks == A.Without(old(alloc.blocks), A.Block(at, HeaderSize(ms)))
  {
    hide MessagesBytes, HeaderBytes, Holds, ReadHeader, InFile, A.Without;
    InFileReads(file.mem, at, flags, ms, sum);
    var header := ReadObjectHeader(file.mem, at, 0);
    var size := SizeFromParsed(header.value);
    var _ := alloc.Free(at, size);
  }

  // ---- from creation to deletion ----

  function Applied(ms: seq<Message>, ws: seq<Write>): seq<Message>
  {
    if ws == [] then ms else ws[|ws| - 1].Apply(Applied(ms, ws[..|ws| - 1]))
  }

  ghost predicate AnySets(ws: seq<Write>) { exists i :: 0 <= i < |ws| && ws[i].Sets() }

  /** Any writes of counts: the first one that sets a count adds the message, no other changes the size. */
  lemma {:induction false} AppliedFacts(ms: seq<Message>, ws: seq<Write>)
    requires Proper(ms)
    ensures var r := Applied(ms, ws);
      && Proper(r) && RefsOf(r) == RefsOf(ms) && (HasCount(r) <==> HasCount(ms) || AnySets(ws))
      && |MessagesBytes(r)| == |MessagesBytes(ms)| + if !HasCount(ms) && AnySets(ws) then 8 else 0
  {
    hide MessagesBytes, RefsOf, Proper, WithCount, CountOf, HasCount;
    if ws != [] {
      var n := |ws| - 1;
      AppliedFacts(ms, ws[..n]);
      assert forall i | 0 <= i < n :: ws[..n][i] == ws[i];
      assert AnySets(ws) <==> AnySets(ws[..n]) || ws[n].Sets();
      WithCountFacts(Applied(ms, ws[..n]), ws[n].count);
    }
  }

  /** An object's header from its creation in a region of its own size, through any writes of its count, to its
      deletion: no write leaves the region, and the allocator stays whole, if and only if the header had a count message
      from the start or no write ever sets one. */
  method Lifetime(file: FileWriter, alloc: A.SpaceAllocator, at: nat, flags: byte, ms: seq<Message>, ws: seq<Write>, sum: Checksum)
    returns (ghost inside: bool)
    requires file.Valid() && alloc.Valid() && A.Block(at, HeaderSize(ms)) in alloc.blocks
    requires InFile(file.mem, at, flags, ms, sum) && |MessagesBytes(ms)| + 16 < 0x1_0000_0000_0000_0000
    modifies file`mem, alloc
    ensures inside <==> forall k | 0 <= k <= |ws| :: HeaderSize(Applied(ms, ws[..k])) <= HeaderSize(ms)
    ensures inside <==> HasCount(ms) || !AnySets(ws)
    ensures alloc.Valid() <==> HasCount(ms) || !AnySets(ws)
  {
    hide MessagesBytes, InFile, HeaderBytes, A.Without, WithCount, CountOf, HasCount, A.SpaceAllocator.Valid, ReadHeader, Proper;
    var now := ms;
    var i := 0;
    ProperIn(file.mem, at, flags, ms, sum);
    while i < |ws|
      invariant i <= |ws| && now == Applied(ms, ws[..i]) && file.Valid() && InFile(file.mem, at, flags, now, sum)
      modifies file`mem
    {
      AppliedFacts(ms, ws[..i]);
      assert ws[..i + 1][..i] == ws[..i];
      now := WriteCount(file, at, flags, now, ws[i], sum);
      i := i + 1;
    }
    assert ws[..i] == ws;
    inside := InsideIff(ms, ws);
    OneAt(alloc, at, HeaderSize(ms), HeaderSize(now));
    FreeHeader(file, alloc, at, flags, now, sum);
  }

  lemma ProperIn(m: Mem, at: nat, flags: byte, ms: seq<Message>, sum: Checksum)
    requires InFile(m, at, flags, ms, sum)
    ensures Proper(ms)
  {
  }

  lemma InsideIff(ms: seq<Message>, ws: seq<Write>) returns (inside: bool)
    requires Proper(ms)
    ensures inside <==> forall k | 0 <= k <= |ws| :: HeaderSize(Applied(ms, ws[..k])) <= HeaderSize(ms)
    ensures inside <==> HasCount(ms) || !AnySets(ws)
    ensures HeaderSize(Applied(ms, ws)) == HeaderSize(ms) <==> HasCount(ms) || !AnySets(ws)
  {
    hide MessagesBytes, Proper, HasCount, Applied, Write.Sets;
    inside := HasCount(ms) || !AnySets(ws);
    assert ws[..|ws|] == ws;
    forall k | 0 <= k <= |ws| ensures inside ==> HeaderSize(Applied(ms, ws[..k])) <= HeaderSize(ms) {
      AppliedFacts(ms, ws[..k]);
      if AnySets(ws[..k]) {
        var i :| 0 <= i < |ws[..k]| && ws[..k][i].Sets();
        assert ws[i].Sets();
      }
    }
    AppliedFacts(ms, ws);
  }

  /** At most one allocated block starts at an address. */
  lemma OneAt(alloc: A.SpaceAllocator, at: nat, size: nat, other: nat)
    requires alloc.Valid() && A.Block(at, size) in alloc.blocks
    ensures A.Block(at, other) in alloc.blocks <==> size == other
  {
  }
}
