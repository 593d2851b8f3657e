/** Attributes as lists of header messages: what adding, replacing and migrating do to the attributes a reader
    finds, and what a stored header with its continuation blocks looks like to the writer (attribute_write.go). */
module AttributeMessages {
  import opened Bytes
  import opened Storage
  import opened ObjectHeader
  import opened HeaderRoundTrip
  import opened AttributeCodec

  /** Parsed messages without their positions. */
  function Payload(hms: seq<HeaderMessage>): (ms: seq<Message>)
    ensures |ms| == |hms| && forall i | 0 <= i < |ms| :: ms[i] == Message(hms[i].type_, hms[i].data)
  {
    seq(|hms|, i requires 0 <= i < |hms| => Message(hms[i].type_, hms[i].data))
  }

  /** Messages the format carries without loss. */
  ghost predicate Proper(ms: seq<Message>)
  {
    forall i | 0 <= i < |ms| :: ms[i].type_ < 256 && 0 < |ms[i].data| < 0x1_0000
  }

  function AttrOf(m: Message): seq<Attribute>
  {
    if m.type_ == ATTRIBUTE && ParsedAttribute(m.data).Ok? then [ParsedAttribute(m.data).value] else []
  }

  /** The attributes a reader finds in the messages; unreadable ones are skipped. */
  function AttrsOf(ms: seq<Message>): seq<Attribute>
  {
    if ms == [] then [] else AttrOf(ms[0]) + AttrsOf(ms[1..])
  }

  lemma {:induction false} AttrsAppend(a: seq<Message>, b: seq<Message>)
    ensures AttrsOf(a + b) == AttrsOf(a) + AttrsOf(b)
  {
    hide AttrOf;
    if a == [] {
      assert a + b == b;
    } else {
      AttrsAppend(a[1..], b);
      assert (a + b)[0] == a[0] && (a + b)[1..] == a[1..] + b;
      assert AttrsOf(a + b) == AttrOf(a[0]) + (AttrsOf(a[1..]) + AttrsOf(b));
    }
  }

  lemma AttrsOne(m: Message)
    ensures AttrsOf([m]) == AttrOf(m) && AttrsOf([]) == []
  {
    hide AttrOf;
    assert [m][1..] == [];
  }

  function AttrMessage(a: Attribute): Message { Message(ATTRIBUTE, AttributeBytes(a)) }

  lemma AttrMessageReads(a: Attribute)
    requires AttributeCodec.Fits(a)
    ensures AttrsOf([AttrMessage(a)]) == [a] && Proper([AttrMessage(a)])
  {
    hide AttributeBytes, ParsedAttribute;
    AttributeParsesBack(a);
    AttrsOne(AttrMessage(a));
  }

  lemma NotAttribute(m: Message)
    requires m.type_ != ATTRIBUTE
    ensures AttrsOf([m]) == []
  {
    AttrsOne(m);
  }

  // ---- references ----

  function RefOf(m: Message): seq<BlockRef> { ReferencesOf(HeaderMessage(m.type_, 0, m.data, false)) }

  function RefsOf(ms: seq<Message>): seq<BlockRef>
  {
    if ms == [] then [] else RefOf(ms[0]) + RefsOf(ms[1..])
  }

  lemma {:induction false} RefsAppend(a: seq<Message>, b: seq<Message>)
    ensures RefsOf(a + b) == RefsOf(a) + RefsOf(b)
  {
    hide RefOf;
    if a == [] {
      assert a + b == b;
    } else {
      RefsAppend(a[1..], b);
      assert (a + b)[0] == a[0] && (a + b)[1..] == a[1..] + b;
      assert RefsOf(a + b) == RefOf(a[0]) + (RefsOf(a[1..]) + RefsOf(b));
    }
  }

  lemma RefsOne(m: Message)
    ensures RefsOf([m]) == RefOf(m) && RefsOf([]) == []
  {
    hide RefOf;
    assert [m][1..] == [];
  }

  lemma {:induction false} ReferencesPayload(hms: seq<HeaderMessage>)
    ensures References(hms) == RefsOf(Payload(hms))
  {
    hide U64At;
    if hms != [] {
      ReferencesPayload(hms[1..]);
      assert Payload(hms)[1..] == Payload(hms[1..]);
    }
  }

  lemma NoReference(m: Message)
    requires m.type_ != CONTINUATION
    ensures RefsOf([m]) == []
  {
    RefsOne(m);
  }

  // ---- filters ----

  /** Everything but padding. */
  function NonNil(ms: seq<Message>): seq<Message>
  {
    if ms == [] then [] else UnlessNil(ms[0]) + NonNil(ms[1..])
  }

  function UnlessNil(m: Message): seq<Message> { if m.type_ == NIL then [] else [m] }

  /** What stays in the header once attributes are dense. */
  function Structural(ms: seq<Message>): seq<Message>
  {
    if ms == [] then [] else IfStructural(ms[0]) + Structural(ms[1..])
  }

  function IfStructural(m: Message): seq<Message> { if m.type_ in {ATTRIBUTE, CONTINUATION, NIL} then [] else [m] }

  lemma FiltersHead(ms: seq<Message>)
    requires ms != []
    ensures NonNil(ms) == UnlessNil(ms[0]) + NonNil(ms[1..])
    ensures Structural(ms) == IfStructural(ms[0]) + Structural(ms[1..])
  {
  }

  lemma {:induction false} FiltersAppend(a: seq<Message>, b: seq<Message>)
    ensures NonNil(a + b) == NonNil(a) + NonNil(b) && Structural(a + b) == Structural(a) + Structural(b)
  {
    hide NonNil, Structural, UnlessNil, IfStructural;
    if a == [] {
      FiltersOne(Message(NIL, []));
      assert a + b == b;
    } else {
      FiltersAppend(a[1..], b);
      assert (a + b)[0] == a[0] && (a + b)[1..] == a[1..] + b;
      FiltersHead(a);
      FiltersHead(a + b);
    }
  }

  lemma FiltersOne(m: Message)
    ensures NonNil([m]) == (if m.type_ == NIL then [] else [m]) && NonNil([]) == []
    ensures Structural([m]) == (if m.type_ in {ATTRIBUTE, CONTINUATION, NIL} then [] else [m]) && Structural([]) == []
  {
    assert [m][1..] == [];
  }

  /** Dropping padding changes neither attributes, references, structural messages nor properness. */
  lemma {:induction false} NonNilKeeps(ms: seq<Message>)
    ensures AttrsOf(NonNil(ms)) == AttrsOf(ms) && RefsOf(NonNil(ms)) == RefsOf(ms)
    ensures Structural(NonNil(ms)) == Structural(ms) && NonNil(NonNil(ms)) == NonNil(ms)
  {
    hide NonNil, Structural, IfStructural, AttrsOf, RefsOf;
    if ms == [] {
      FiltersOne(Message(NIL, []));
    } else {
      NonNilKeeps(ms[1..]);
      var one, rest := UnlessNil(ms[0]), NonNil(ms[1..]);
      FiltersHead(ms);
      assert ms == [ms[0]] + ms[1..];
      AttrsAppend([ms[0]], ms[1..]);
      AttrsAppend(one, rest);
      RefsAppend([ms[0]], ms[1..]);
      RefsAppend(one, rest);
      FiltersAppend([ms[0]], ms[1..]);
      FiltersAppend(one, rest);
      NilIsNothing(ms[0]);
    }
  }

  lemma NilIsNothing(m: Message)
    ensures AttrsOf(UnlessNil(m)) == AttrsOf([m]) && RefsOf(UnlessNil(m)) == RefsOf([m])
    ensures Structural(UnlessNil(m)) == Structural([m]) && NonNil(UnlessNil(m)) == UnlessNil(m)
  {
    AttrsOne(m);
    RefsOne(m);
    FiltersOne(m);
  }

  /** Every message that passes a filter was there before. */
  lemma FiltersKeep(ms: seq<Message>)
    ensures Proper(ms) ==> Proper(NonNil(ms)) && Proper(Structural(ms))
    ensures NoInfo(ms) ==> NoInfo(NonNil(ms)) && NoInfo(Structural(ms))
    ensures Readable(ms) ==> Readable(NonNil(ms)) && Readable(Structural(ms))
  {
    hide ParsedAttribute, NonNil, Structural;
    FilteredWithin(ms);
    forall i | 0 <= i < |NonNil(ms)| ensures NonNil(ms)[i] in ms {
      assert NonNil(ms)[i] in NonNil(ms);
    }
    forall i | 0 <= i < |Structural(ms)| ensures Structural(ms)[i] in ms {
      assert Structural(ms)[i] in Structural(ms);
    }
  }

  lemma {:induction false} FilteredWithin(ms: seq<Message>)
    ensures forall m :: m in NonNil(ms) <==> m in ms && m.type_ != 0
    ensures forall m :: m in Structural(ms) <==> m in ms && m.type_ !in {0, 12, 16}
    ensures Counted(NonNil(ms)) == Counted(ms)
  {
    if ms != [] {
      FilteredWithin(ms[1..]);
      if ms[0].type_ != NIL {
        assert NonNil(ms)[0] == ms[0] && NonNil(ms)[1..] == NonNil(ms[1..]);
      } else {
        assert NonNil(ms) == NonNil(ms[1..]);
      }
    }
  }

  ghost predicate NoInfo(ms: seq<Message>)
  {
    forall i | 0 <= i < |ms| :: ms[i].type_ != ATTRIBUTE_INFO
  }

  /** How many messages are attribute messages, readable or not. */
  function Counted(ms: seq<Message>): nat
  {
    if ms == [] then 0 else (if ms[0].type_ == ATTRIBUTE then 1 else 0) + Counted(ms[1..])
  }

  lemma {:induction false} CountedAppend(a: seq<Message>, b: seq<Message>)
    ensures Counted(a + b) == Counted(a) + Counted(b)
  {
    if a == [] {
      assert a + b == b;
    } else {
      CountedAppend(a[1..], b);
      assert (a + b)[0] == a[0] && (a + b)[1..] == a[1..] + b;
    }
  }

  /** Readable attribute messages are as many as the attributes read from them. */
  lemma {:induction false} CountedReadable(ms: seq<Message>)
    requires Readable(ms)
    ensures Counted(ms) == |AttrsOf(ms)|
  {
    hide ParsedAttribute;
    if ms != [] {
      assert Readable(ms[1..]) by {
        assert forall i | 0 <= i < |ms[1..]| :: ms[1..][i] == ms[i + 1];
      }
      CountedReadable(ms[1..]);
      assert ms[0].type_ == ATTRIBUTE ==> |AttrOf(ms[0])| == 1;
    }
  }

  lemma CountedOne(m: Message)
    ensures Counted([m]) == (if m.type_ == ATTRIBUTE then 1 else 0) && Counted([]) == 0
  {
    assert [m][1..] == [];
  }

  /** Structural messages hold no attributes and no references. */
  lemma {:induction false} StructuralKeeps(ms: seq<Message>)
    ensures AttrsOf(Structural(ms)) == [] && RefsOf(Structural(ms)) == [] && Structural(Structural(ms)) == Structural(ms)
  {
    hide Structural, IfStructural, AttrsOf, RefsOf;
    if ms == [] {
      FiltersOne(Message(NIL, []));
      AttrsOne(Message(NIL, []));
      RefsOne(Message(NIL, []));
    } else {
      StructuralKeeps(ms[1..]);
      FiltersHead(ms);
      var one, rest := IfStructural(ms[0]), Structural(ms[1..]);
      AttrsAppend(one, rest);
      RefsAppend(one, rest);
      FiltersAppend(one, rest);
      StructuralOne(ms[0]);
    }
  }

  lemma StructuralOne(m: Message)
    ensures AttrsOf(IfStructural(m)) == [] && RefsOf(IfStructural(m)) == [] && Structural(IfStructural(m)) == IfStructural(m)
  {
    AttrsOne(m);
    RefsOne(m);
    FiltersOne(m);
  }

  // ---- what the writer sees of a stored header ----

  /** Main messages and continuation blocks. */
  datatype View = View(main: seq<Message>, blocks: seq<Block>) {
    function All(): seq<Message> { main + BlockPayload(blocks) }
  }

  function BlockPayload(blocks: seq<Block>): seq<Message>
  {
    if blocks == [] then [] else blocks[0].ms + BlockPayload(blocks[1..])
  }

  lemma {:induction false} BlockPayloadAppend(a: seq<Block>, b: seq<Block>)
    ensures BlockPayload(a + b) == BlockPayload(a) + BlockPayload(b)
  {
    hide BlockPayload;
    if a == [] {
      BlockPayloadEmpty();
      assert a + b == b;
    } else {
      BlockPayloadAppend(a[1..], b);
      assert (a + b)[0] == a[0] && (a + b)[1..] == a[1..] + b;
      BlockPayloadHead(a);
      BlockPayloadHead(a + b);
    }
  }

  lemma BlockPayloadHead(blocks: seq<Block>)
    requires blocks != []
    ensures BlockPayload(blocks) == blocks[0].ms + BlockPayload(blocks[1..])
  {
  }

  lemma BlockPayloadEmpty()
    ensures BlockPayload([]) == []
  {
  }

  lemma BlockPayloadOne(b: Block)
    ensures BlockPayload([b]) == b.ms && BlockPayload([]) == []
  {
    assert [b][1..] == [];
  }

  /** Each block holds one attribute message. */
  ghost predicate OneAttributeEach(blocks: seq<Block>)
  {
    forall i | 0 <= i < |blocks| :: |blocks[i].ms| == 1 && blocks[i].ms[0].type_ == ATTRIBUTE && Proper(blocks[i].ms) && blocks[i].Valid()
  }

  lemma KeptPayload(ms: seq<Message>, at: nat)
    requires Proper(ms)
    ensures Payload(Kept(ms, at)) == ms
    ensures forall i | 0 <= i < |Kept(ms, at)| :: !Kept(ms, at)[i].fromContinuation
  {
    hide Kept, Proper;
    KeptWhole(ms, at);
    KeptFromMain(ms, at);
  }

  lemma {:induction false} KeptFromMain(ms: seq<Message>, at: nat)
    ensures forall i | 0 <= i < |Kept(ms, at)| :: !Kept(ms, at)[i].fromContinuation
    decreases |ms|
  {
    if ms != [] {
      KeptFromMain(ms[1..], at + 4 + |ms[0].data|);
    }
  }

  lemma {:induction false} KeptWhole(ms: seq<Message>, at: nat)
    requires Proper(ms)
    ensures Payload(Kept(ms, at)) == ms
    decreases |ms|
  {
    hide Kept;
    if ms == [] {
      KeptNone(at);
    } else {
      var rest := Kept(ms[1..], at + 4 + |ms[0].data|);
      KeptWhole(ms[1..], at + 4 + |ms[0].data|);
      KeptHead(ms, at);
      assert [ms[0]] + ms[1..] == ms;
    }
  }

  lemma KeptNone(at: nat)
    ensures Kept([], at) == []
  {
  }

  lemma KeptHead(ms: seq<Message>, at: nat)
    requires ms != [] && Proper(ms)
    ensures Kept(ms, at) == [HeaderMessage(ms[0].type_, at, ms[0].data, false)] + Kept(ms[1..], at + 4 + |ms[0].data|)
  {
  }

  lemma {:induction false} ContinuedPayload(blocks: seq<Block>)
    requires OneAttributeEach(blocks)
    ensures Payload(Continued(blocks)) == BlockPayload(blocks)
    ensures forall i | 0 <= i < |Continued(blocks)| :: Continued(blocks)[i].fromContinuation
  {
    hide Kept;
    if blocks != [] {
      ContinuedPayload(blocks[1..]);
      var b := blocks[0];
      KeptPayload(b.ms, b.address + 4);
      assert Payload(Marked(b.Messages())) == b.ms;
      assert Payload(Continued(blocks)) == b.ms + Payload(Continued(blocks[1..]));
    }
  }

  /** The references to the blocks, in order. */
  ghost predicate RefersTo(refs: seq<BlockRef>, blocks: seq<Block>)
  {
    |refs| == |blocks| && forall i | 0 <= i < |refs| :: blocks[i].Valid() && refs[i] == RefTo(blocks[i])
  }

  /** Blocks without references of their own are met exactly in the order of the references to them. */
  lemma {:induction false} MeetsFlat(refs: seq<BlockRef>, blocks: seq<Block>)
    requires OneAttributeEach(blocks)
    ensures Meets(refs, blocks) <==> RefersTo(refs, blocks)
    decreases |blocks|
  {
    hide RefersTo, Block.Messages, References;
    RefersToHead(refs, blocks);
    if blocks != [] {
      NoReferenceInside(blocks[0]);
      if refs != [] {
        assert refs[1..] + [] == refs[1..];
        MeetsFlat(refs[1..], blocks[1..]);
      }
    }
  }

  lemma RefersToHead(refs: seq<BlockRef>, blocks: seq<Block>)
    ensures blocks == [] ==> (RefersTo(refs, blocks) <==> refs == [])
    ensures blocks != [] ==>
      (RefersTo(refs, blocks) <==>
       refs != [] && blocks[0].Valid() && refs[0] == RefTo(blocks[0]) && RefersTo(refs[1..], blocks[1..]))
  {
    if blocks != [] && refs != [] && blocks[0].Valid() && refs[0] == RefTo(blocks[0]) && RefersTo(refs[1..], blocks[1..]) {
      assert refs == [refs[0]] + refs[1..] && blocks == [blocks[0]] + blocks[1..];
    }
  }

  lemma NoReferenceInside(b: Block)
    requires OneAttributeEach([b])
    ensures References(b.Messages()) == []
  {
    assert b == [b][0] && b.ms == [b.ms[0]];
    KeptPayload(b.ms, b.address + 4);
    ReferencesPayload(b.Messages());
    NoReference(b.ms[0]);
  }

  /** The header at `address` and its blocks are in the file and read without loss. */
  ghost predicate Shown(m: Mem, address: nat, v: View, sum: Checksum)
  {
    && Proper(v.main) && |MessagesBytes(v.main)| < 0x1_0000_0000_0000_0000
    && Holds(m, address, HeaderBytes(0, v.main, sum))
    && OneAttributeEach(v.blocks)
    && (forall i | 0 <= i < |v.blocks| :: BlockHeld(m, v.blocks[i], sum))
    && RefersTo(RefsOf(v.main), v.blocks)
  }

  /** What a read of the header returns. */
  ghost predicate Seen(h: Header, v: View)
  {
    && h.flags < 4 && Payload(h.messages) == v.All()
    && forall i | 0 <= i < |h.messages| :: h.messages[i].fromContinuation <==> i >= |v.main|
  }

  lemma ShownReads(m: Mem, address: nat, v: View, sum: Checksum, budget: nat)
    requires Shown(m, address, v, sum) && |v.blocks| <= budget
    ensures ReadHeader(m, address, budget).Ok? && Seen(ReadHeader(m, address, budget).value, v)
  {
    hide HeaderBytes, MessagesBytes, Holds, BlockHeld, Kept, ReadHeader, RefsOf, Continued, Payload, Meets, RefersTo,
         StoredFlags, Seen, OneAttributeEach, Proper;
    ShownHeld(m, address, v, sum);
    HeaderReadsBack(m, address, 0, v.main, v.blocks, sum, budget);
    ShownSeen(address, v, ReadHeader(m, address, budget).value);
  }

  lemma ShownHeld(m: Mem, address: nat, v: View, sum: Checksum)
    requires Shown(m, address, v, sum)
    ensures Held(m, address, 0, v.main, v.blocks, sum)
  {
    hide HeaderBytes, MessagesBytes, Holds, BlockHeld, Kept, RefsOf, Payload, Meets, RefersTo, OneAttributeEach;
    KeptPayload(v.main, address + 6 + Width(|MessagesBytes(v.main)|));
    ReferencesPayload(MainMessages(address, v.main));
    MeetsFlat(RefsOf(v.main), v.blocks);
  }

  lemma ShownSeen(address: nat, v: View, h: Header)
    requires Proper(v.main) && OneAttributeEach(v.blocks)
    requires h.messages == MainMessages(address, v.main) + Continued(v.blocks)
    requires h.flags == StoredFlags(0, |MessagesBytes(v.main)|)
    ensures Seen(h, v)
  {
    hide MessagesBytes, Kept, Continued, OneAttributeEach, Proper;
    var main, rest := MainMessages(address, v.main), Continued(v.blocks);
    KeptPayload(v.main, address + 6 + Width(|MessagesBytes(v.main)|));
    ContinuedPayload(v.blocks);
    assert Payload(h.messages) == Payload(main) + Payload(rest);
  }

  /** The header bytes do not depend on how the size-field bits were set before. */
  lemma FlagsNormal(flags: byte, ms: seq<Message>, sum: Checksum)
    requires flags < 4
    ensures HeaderBytes(flags, ms, sum) == HeaderBytes(0, ms, sum)
  {
  }

  // ---- the effect on attributes ----

  /** Non-empty names, none twice. */
  ghost predicate Unique(attrs: seq<Attribute>)
  {
    && (forall i | 0 <= i < |attrs| :: attrs[i].name != [])
    && (forall i, j | 0 <= i < j < |attrs| :: attrs[i].name != attrs[j].name)
  }

  ghost predicate HasName(attrs: seq<Attribute>, name: seq<byte>)
  {
    exists i :: 0 <= i < |attrs| && attrs[i].name == name
  }

  /** `after` is `before` with the attribute `a` set: an update of the map from names to attributes. */
  ghost predicate Updated(before: seq<Attribute>, after: seq<Attribute>, a: Attribute)
  {
    && Unique(after)
    && |after| == |before| + (if HasName(before, a.name) then 0 else 1)
    && forall x: Attribute :: x in after <==> x == a || (x in before && x.name != a.name)
  }

  lemma InsertUpdates(p: seq<Attribute>, q: seq<Attribute>, a: Attribute)
    requires Unique(p + q) && !HasName(p + q, a.name) && a.name != []
    ensures Updated(p + q, p + [a] + q, a)
  {
    var before, after := p + q, p + [a] + q;
    forall i | 0 <= i < |after| && i != |p| ensures after[i].name != a.name && after[i] in before {
      var k := if i < |p| then i else i - 1;
      assert 0 <= k < |before| && after[i] == before[k];
    }
    assert after[|p|] == a;
    forall i | 0 <= i < |after| ensures after[i].name != [] {
      if i != |p| {
        var k := if i < |p| then i else i - 1;
        assert after[i] == before[k];
      }
    }
    forall i, j | 0 <= i < j < |after| ensures after[i].name != after[j].name {
      if i != |p| && j != |p| {
        var k, l := if i < |p| then i else i - 1, if j < |p| then j else j - 1;
        assert after[i] == before[k] && after[j] == before[l];
      }
    }
    forall x: Attribute ensures x in after <==> x == a || (x in before && x.name != a.name) {
      if x in before {
        var k :| 0 <= k < |before| && before[k] == x;
        assert after[if k < |p| then k else k + 1] == x && x.name != a.name;
      }
    }
  }

  lemma ReplaceUpdates(before: seq<Attribute>, i: nat, a: Attribute)
    requires Unique(before) && i < |before| && before[i].name == a.name
    ensures Updated(before, before[i := a], a)
  {
    var after := before[i := a];
    assert HasName(before, a.name) && after[i] == a;
    forall x: Attribute ensures x in after <==> x == a || (x in before && x.name != a.name) {
      if x in after {
        var k :| 0 <= k < |after| && after[k] == x;
        assert k != i ==> before[k] == x && before[k].name != before[i].name;
      }
      if x in before && x.name != a.name {
        var k :| 0 <= k < |before| && before[k] == x;
        assert after[k] == x;
      }
    }
  }

  /** Replacing one readable attribute message replaces the attribute at the corresponding place. */
  lemma AttrsReplace(ms: seq<Message>, k: nat, a: Attribute)
    requires k < |ms| && AttrsOf([ms[k]]) != [] && AttributeCodec.Fits(a)
    ensures var i := |AttrsOf(ms[..k])|;
      i < |AttrsOf(ms)| && AttrsOf(ms)[i] == AttrsOf([ms[k]])[0] && AttrsOf(ms[k := AttrMessage(a)]) == AttrsOf(ms)[i := a]
  {
    hide AttrsOf, AttrMessage;
    var p, q := ms[..k], ms[k + 1..];
    assert ms == p + [ms[k]] + q;
    assert ms[k := AttrMessage(a)] == p + [AttrMessage(a)] + q;
    AttrsAppend(p + [ms[k]], q);
    AttrsAppend(p, [ms[k]]);
    AttrsAppend(p + [AttrMessage(a)], q);
    AttrsAppend(p, [AttrMessage(a)]);
    AttrMessageReads(a);
    AttrsOne(ms[k]);
  }

  /** Every attribute message is readable. */
  ghost predicate Readable(ms: seq<Message>)
  {
    forall i | 0 <= i < |ms| && ms[i].type_ == ATTRIBUTE :: ParsedAttribute(ms[i].data).Ok?
  }
}
