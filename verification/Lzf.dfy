/** LZF: the decompressor (internal/core/filterpipeline.go), the compressor (internal/writer/filter_lzf.go),
    and the token stream both are about. */
module Lzf {
  import opened Arith
  import opened Bytes
  import opened Storage

  /** One segment of the stream. */
  datatype Token = Literal(bytes: seq<byte>) | BackRef(offset: nat, length: nat)

  /** The token may follow `n` bytes of output. */
  predicate ValidAfter(t: Token, n: nat)
  {
    match t
    case Literal(bytes) => 1 <= |bytes| <= 32
    case BackRef(offset, length) => 1 <= offset <= 8192 && offset <= n && 3 <= length <= 264
  }

  /** `length` bytes, each a copy of the byte `offset` positions earlier, which may itself be a copy. */
  function CopyBack(out: seq<byte>, offset: nat, length: nat): (r: seq<byte>)
    requires 1 <= offset <= |out|
    ensures |r| == |out| + length
    decreases length
  {
    if length == 0 then out else CopyBack(out + [out[|out| - offset]], offset, length - 1)
  }

  function Apply(out: seq<byte>, t: Token): (r: seq<byte>)
    requires ValidAfter(t, |out|)
  {
    match t
    case Literal(bytes) => out + bytes
    case BackRef(offset, length) => CopyBack(out, offset, length)
  }

  predicate ValidTokens(out: seq<byte>, ts: seq<Token>)
    decreases |ts|
  {
    ts == [] || (ValidAfter(ts[0], |out|) && ValidTokens(Apply(out, ts[0]), ts[1..]))
  }

  /** The output the tokens describe. */
  function Expand(out: seq<byte>, ts: seq<Token>): seq<byte>
    requires ValidTokens(out, ts)
    decreases |ts|
  {
    if ts == [] then out else Expand(Apply(out, ts[0]), ts[1..])
  }

  /** Literal 000LLLLL, short back-reference RRROOOOO OOOOOOOO, long back-reference 111OOOOO OOOOOOOO RRRRRRRR. */
  function Encode(t: Token): (s: seq<byte>)
    requires ValidAfter(t, 8192)
    ensures s != []
  {
    match t
    case Literal(bytes) => [|bytes| - 1] + bytes
    case BackRef(offset, length) =>
      if length <= 8
      then [(length - 2) * 32 + (offset - 1) / 256, (offset - 1) % 256]
      else [224 + (offset - 1) / 256, (offset - 1) % 256, length - 9]
  }

  /** The bits of an encoded token: three bits of length less 2 (all ones for long ones, whose length less 9 is the third
      byte), then 13 bits of distance less 1; a first byte below 32 is the number of literals less 1. */
  lemma TokenBits(t: Token)
    requires ValidAfter(t, 8192)
    ensures var s := Encode(t);
      match t
      case Literal(bytes) => |s| == 1 + |bytes| && s[0] as int + 1 == |bytes| && s[0] < 32 && s[1..] == bytes
      case BackRef(offset, length) =>
        && |s| == (if length <= 8 then 2 else 3) && (s[0] as int % 32) * 256 + s[1] + 1 == offset
        && (if length <= 8 then 1 <= s[0] / 32 <= 6 && s[0] as int / 32 + 2 == length else s[0] / 32 == 7 && s[2] as int + 9 == length)
  {
  }

  lemma ValidAnywhere(t: Token, n: nat)
    requires ValidAfter(t, n)
    ensures ValidAfter(t, 8192)
  {
  }

  function EncodeAll(out: seq<byte>, ts: seq<Token>): seq<byte>
    requires ValidTokens(out, ts)
    decreases |ts|
  {
    if ts == [] then [] else (ValidAnywhere(ts[0], |out|); Encode(ts[0]) + EncodeAll(Apply(out, ts[0]), ts[1..]))
  }

  /** Every byte of a back-reference equals the byte `offset` positions before it, overlapping or not. */
  lemma {:induction false} CopyBackBytes(out: seq<byte>, offset: nat, length: nat)
    requires 1 <= offset <= |out|
    ensures var r := CopyBack(out, offset, length);
      r[..|out|] == out && forall k | |out| <= k < |r| :: r[k] == r[k - offset]
    decreases length
  {
    if length > 0 {
      var next := out + [out[|out| - offset]];
      CopyBackBytes(next, offset, length - 1);
      var r := CopyBack(next, offset, length - 1);
      assert r[..|out|] == r[..|next|][..|out|] == out;
      assert r[|out|] == r[..|next|][|out|] && r[|out| - offset] == r[..|next|][|out| - offset];
    }
  }

  // ---- decompression ----

  /** A back-reference's distance: 13 bits over two bytes, stored less one. */
  function Offset(ctrl: nat, low: nat): (d: nat)
    ensures d >= 1
  {
    (ctrl % 32) * 256 + low + 1
  }

  datatype Segment = Truncated | Piece(token: Token, size: nat)

  /** The segment at the front of the remaining input, and how many bytes it takes. */
  function FirstSegment(rest: seq<byte>): (s: Segment)
    requires rest != []
    ensures s.Piece? ==> 0 < s.size <= |rest|
  {
    var ctrl: nat := rest[0];
    if ctrl < 32 then
      if 2 + ctrl > |rest| then Truncated else Piece(Literal(rest[1..2 + ctrl]), 2 + ctrl)
    else if |rest| < 2 then Truncated
    else if ctrl >= 224 then
      if |rest| < 3 then Truncated
      else
        var extra: nat := rest[2];
        Piece(BackRef(Offset(ctrl, rest[1]), extra + 9), 3)
    else Piece(BackRef(Offset(ctrl, rest[1]), ctrl / 32 + 2), 2)
  }

  /** What the decompressor makes of the remaining input, given the output so far. */
  function Decompressed(rest: seq<byte>, out: seq<byte>): Result<seq<byte>>
    decreases |rest|
  {
    if rest == [] then Ok(out)
    else
      match FirstSegment(rest)
      case Truncated => Err
      case Piece(t, n) => if ValidAfter(t, |out|) then Decompressed(rest[n..], Apply(out, t)) else Err
  }

  method CopyRun(out: seq<byte>, offset: nat, runLen: nat) returns (r: seq<byte>)
    requires 1 <= offset <= |out|
    ensures r == CopyBack(out, offset, runLen)
  {
    r := out;
    var srcPos := |out| - offset;
    var i := 0;
    while i < runLen
      invariant i <= runLen && |r| == |out| + i
      invariant CopyBack(out, offset, runLen) == CopyBack(r, offset, runLen - i)
    {
      r := r + [r[srcPos + i]];
      i := i + 1;
    }
  }

  /** lzfDecompress, on any input. */
  method Decompress(input: seq<byte>) returns (r: Result<seq<byte>>)
    ensures r == Decompressed(input, [])
  {
    hide CopyBack, FirstSegment, Offset;
    var output: seq<byte> := [];
    var inPos: nat := 0;
    assert input[0..] == input;
    while inPos < |input|
      invariant inPos <= |input|
      invariant Decompressed(input, []) == Decompressed(input[inPos..], output)
    {
      SegmentAt(input, inPos);
      SegmentValid(input[inPos..]);
      ghost var segment, start := FirstSegment(input[inPos..]), inPos;
      var ctrl: nat := input[inPos];
      inPos := inPos + 1;
      if ctrl < 32 {
        var runLen := ctrl + 1;
        if inPos + runLen > |input| {
          return Err;
        }
        output := output + input[inPos..inPos + runLen];
        inPos := inPos + runLen;
      } else {
        if inPos >= |input| {
          return Err;
        }
        var offset := Offset(ctrl, input[inPos]);
        inPos := inPos + 1;
        var runLen: nat;
        if ctrl >= 224 {
          if inPos >= |input| {
            return Err;
          }
          var extra: nat := input[inPos];
          runLen := extra + 9;
          inPos := inPos + 1;
        } else {
          runLen := ctrl / 32 + 2;
        }
        assert segment == Piece(BackRef(offset, runLen), inPos - start);
        if offset > |output| {
          return Err;
        }
        output := CopyRun(output, offset, runLen);
      }
      assert segment.Piece? && inPos == start + segment.size;
      assert input[start..][segment.size..] == input[inPos..];
    }
    assert input[inPos..] == [];
    r := Ok(output);
  }

  /** The segment that starts at `at`, by positions in the whole input. */
  lemma SegmentAt(input: seq<byte>, at: nat)
    requires at < |input|
    ensures var s, ctrl: nat := FirstSegment(input[at..]), input[at];
      s ==
      if ctrl < 32 then
        if at + 2 + ctrl > |input| then Truncated else Piece(Literal(input[at + 1..at + 2 + ctrl]), 2 + ctrl)
      else if at + 1 >= |input| then Truncated
      else if ctrl < 224 then Piece(BackRef(Offset(ctrl, input[at + 1]), ctrl / 32 + 2), 2)
      else if at + 2 >= |input| then Truncated
      else var extra: nat := input[at + 2]; Piece(BackRef(Offset(ctrl, input[at + 1]), extra + 9), 3)
  {
    hide Offset;
    var rest, ctrl: nat := input[at..], input[at];
    if ctrl < 32 && 2 + ctrl <= |rest| {
      assert rest[1..2 + ctrl] == input[at + 1..at + 2 + ctrl];
    }
  }

  /** Apart from a distance beyond the output so far, every complete segment is a valid token. */
  lemma SegmentValid(rest: seq<byte>)
    requires rest != []
    ensures FirstSegment(rest).Piece? ==> ValidAfter(FirstSegment(rest).token, 8192)
  {
  }

  /** An encoded token is read back, whatever follows it. */
  lemma TokenDecodes(t: Token, rest: seq<byte>)
    requires ValidAfter(t, 8192)
    ensures FirstSegment(Encode(t) + rest) == Piece(t, |Encode(t)|)
  {
    var s := Encode(t) + rest;
    match t
    case Literal(bytes) =>
      assert s[1..1 + |bytes|] == bytes;
    case BackRef(offset, length) =>
  }

  /** The bytes of a segment are the encoding of its token. */
  lemma SegmentEncodes(rest: seq<byte>)
    requires rest != [] && FirstSegment(rest).Piece? && ValidAfter(FirstSegment(rest).token, 8192)
    ensures Encode(FirstSegment(rest).token) == rest[..FirstSegment(rest).size]
  {
  }

  /** Decompressing the encoding of any valid token list yields its expansion. */
  lemma {:induction false} StreamDecodes(out: seq<byte>, ts: seq<Token>)
    requires ValidTokens(out, ts)
    ensures Decompressed(EncodeAll(out, ts), out) == Ok(Expand(out, ts))
    decreases |ts|
  {
    hide Encode, Apply, FirstSegment;
    if ts != [] {
      ValidAnywhere(ts[0], |out|);
      var rest := EncodeAll(Apply(out, ts[0]), ts[1..]);
      TokenDecodes(ts[0], rest);
      assert (Encode(ts[0]) + rest)[|Encode(ts[0])|..] == rest;
      StreamDecodes(Apply(out, ts[0]), ts[1..]);
    }
  }

  /** Conversely, whatever decompresses is the encoding of some valid token list. */
  lemma {:induction false} DecodesFromStream(rest: seq<byte>, out: seq<byte>) returns (ts: seq<Token>)
    requires Decompressed(rest, out).Ok?
    ensures ValidTokens(out, ts) && EncodeAll(out, ts) == rest && Expand(out, ts) == Decompressed(rest, out).value
    decreases |rest|
  {
    hide Apply, FirstSegment, Encode, ValidAfter;
    if rest == [] {
      ts := [];
    } else {
      var t, n := FirstSegment(rest).token, FirstSegment(rest).size;
      var later := DecodesFromStream(rest[n..], Apply(out, t));
      ValidAnywhere(t, |out|);
      SegmentEncodes(rest);
      ts := [t] + later;
      assert ts[1..] == later && rest == rest[..n] + rest[n..];
    }
  }

  // ---- compression ----

  const HASH_SIZE: nat := 16384

  function HashBits(b0: bv32, b1: bv32, b2: bv32): (h: bv32)
    ensures h < 16384
  {
    var v := (b0 << 16) | (b1 << 8) | b2;
    var w := (v ^ (v >> 16)) * 0x45d9f3b;
    (w ^ (w >> 16)) & 0x3fff
  }

  /** Three bytes to a table slot; which one does not matter for correctness. */
  function Hash(b0: byte, b1: byte, b2: byte): (h: nat)
    ensures h < HASH_SIZE
  {
    HashBits(b0 as bv32, b1 as bv32, b2 as bv32) as nat
  }

  /** `output` encodes the first `n` bytes of `input`. */
  ghost predicate Covers(input: seq<byte>, n: nat, output: seq<byte>, ts: seq<Token>)
  {
    && n <= |input| && ValidTokens([], ts)
    && EncodeAll([], ts) == output && Expand([], ts) == input[..n]
  }

  /** Appending a token appends its encoding and applies it. */
  lemma {:induction false} TokenAppends(out: seq<byte>, ts: seq<Token>, t: Token)
    requires ValidTokens(out, ts) && ValidAfter(t, |Expand(out, ts)|)
    ensures ValidTokens(out, ts + [t]) && ValidAfter(t, 8192)
    ensures EncodeAll(out, ts + [t]) == EncodeAll(out, ts) + Encode(t)
    ensures Expand(out, ts + [t]) == Apply(Expand(out, ts), t)
    decreases |ts|
  {
    hide Encode, Apply;
    ValidAnywhere(t, |Expand(out, ts)|);
    if ts == [] {
      assert ts + [t] == [t] && [t][1..] == [];
      assert EncodeAll(Apply(out, t), []) == [];
    } else {
      TokenAppends(Apply(out, ts[0]), ts[1..], t);
      assert (ts + [t])[0] == ts[0] && (ts + [t])[1..] == ts[1..] + [t];
    }
  }

  /** appendLiteral: pieces of at most 32 bytes. */
  method AppendLiteral(output: seq<byte>, input: seq<byte>, from: nat, to: nat, ghost ts: seq<Token>)
    returns (r: seq<byte>, ghost ts': seq<Token>)
    requires from <= to <= |input| && Covers(input, from, output, ts)
    ensures Covers(input, to, r, ts')
    ensures 32 * (|r| - |output|) <= 33 * (to - from) + 31 && |r| >= |output|
  {
    hide Covers;
    r, ts' := output, ts;
    var at := from;
    while at < to
      invariant from <= at <= to && Covers(input, at, r, ts')
      invariant |r| >= |output| && 32 * (|r| - |output|) <= 33 * (at - from) + if at < to then 0 else 31
    {
      var runLen := to - at;
      if runLen > 32 {
        runLen := 32;
      }
      LiteralCovers(input, at, runLen, r, ts');
      ts' := ts' + [Literal(input[at..at + runLen])];
      r := r + [runLen - 1];
      r := r + input[at..at + runLen];
      at := at + runLen;
    }
  }

  lemma LiteralCovers(input: seq<byte>, at: nat, n: nat, output: seq<byte>, ts: seq<Token>)
    requires Covers(input, at, output, ts) && 1 <= n <= 32 && at + n <= |input|
    ensures Covers(input, at + n, output + [n - 1] + input[at..at + n], ts + [Literal(input[at..at + n])])
  {
    hide ValidTokens, Expand, EncodeAll;
    var t := Literal(input[at..at + n]);
    TokenAppends([], ts, t);
    assert output + [n - 1] + input[at..at + n] == output + Encode(t);
    assert input[..at] + input[at..at + n] == input[..at + n];
  }

  /** appendBackref: two bytes for runs up to 8, three for longer ones. */
  method AppendBackref(output: seq<byte>, offset: nat, length: nat) returns (r: seq<byte>)
    requires ValidAfter(BackRef(offset, length), 8192)
    ensures r == output + Encode(BackRef(offset, length))
  {
    var stored := offset - 1;
    if length <= 8 {
      r := output + [(length - 2) * 32 + stored / 256, stored % 256];
    } else {
      r := output + [224 + stored / 256, stored % 256, length - 9];
    }
  }

  /** Copying from a matching earlier position reproduces the input. */
  lemma {:induction false} MatchCopies(input: seq<byte>, at: nat, offset: nat, length: nat)
    requires 1 <= offset <= at && at + length <= |input|
    requires input[at - offset..at - offset + length] == input[at..at + length]
    ensures CopyBack(input[..at], offset, length) == input[..at + length]
    decreases length
  {
    if length > 0 {
      var from, to := input[at - offset..at - offset + length], input[at..at + length];
      assert from[0] == to[0] && from[1..] == to[1..];
      assert input[at + 1 - offset..at - offset + length] == from[1..] && input[at + 1..at + length] == to[1..];
      assert input[..at] + [input[at - offset]] == input[..at + 1];
      MatchCopies(input, at + 1, offset, length - 1);
    }
  }

  lemma BackrefCovers(input: seq<byte>, at: nat, offset: nat, length: nat, output: seq<byte>, ts: seq<Token>)
    requires Covers(input, at, output, ts) && ValidAfter(BackRef(offset, length), at) && at + length <= |input|
    requires input[at - offset..at - offset + length] == input[at..at + length]
    ensures ValidAfter(BackRef(offset, length), 8192)
    ensures Covers(input, at + length, output + Encode(BackRef(offset, length)), ts + [BackRef(offset, length)])
  {
    hide Encode;
    TokenAppends([], ts, BackRef(offset, length));
    MatchCopies(input, at, offset, length);
  }

  /** The longest match, up to 264 bytes. */
  method MatchLength(input: seq<byte>, ref: nat, inPos: nat) returns (matchLen: nat)
    requires ref < inPos && inPos + 3 <= |input|
    requires input[ref] == input[inPos] && input[ref + 1] == input[inPos + 1] && input[ref + 2] == input[inPos + 2]
    ensures 3 <= matchLen <= 264 && inPos + matchLen <= |input|
    ensures input[ref..ref + matchLen] == input[inPos..inPos + matchLen]
    ensures matchLen < 264 && inPos + matchLen < |input| ==> input[ref + matchLen] != input[inPos + matchLen]
  {
    var maxLen := |input| - inPos;
    if maxLen > 264 {
      maxLen := 264;
    }
    matchLen := 3;
    while matchLen < maxLen && input[ref + matchLen] == input[inPos + matchLen]
      invariant 3 <= matchLen <= maxLen
      invariant input[ref..ref + matchLen] == input[inPos..inPos + matchLen]
    {
      assert input[ref..ref + matchLen + 1] == input[ref..ref + matchLen] + [input[ref + matchLen]];
      assert input[inPos..inPos + matchLen + 1] == input[inPos..inPos + matchLen] + [input[inPos + matchLen]];
      matchLen := matchLen + 1;
    }
  }

  /** Enters the positions inside a match, except its last two, into the hash table. */
  method Remember(htab: array<u32>, input: seq<byte>, inPos: nat, matchLen: nat)
    requires htab.Length == HASH_SIZE && matchLen <= inPos <= |input|
    modifies htab
  {
    var i := 1;
    while i < matchLen - 2
      invariant i >= 1
    {
      var pos := inPos - matchLen + i;
      if pos + 2 < |input| {
        var h := Hash(input[pos], input[pos + 1], input[pos + 2]);
        htab[h] := pos % 0x1_0000_0000;
      }
      i := i + 1;
    }
  }

  predicate Matches(input: seq<byte>, ref: nat, inPos: nat)
    requires inPos + 3 <= |input|
  {
    && 0 < ref < inPos && inPos - ref <= 8192
    && input[ref] == input[inPos] && input[ref + 1] == input[inPos + 1] && input[ref + 2] == input[inPos + 2]
  }

  /** lzfCompress: whatever the hash table suggests, the output is a valid token stream for the whole input, at a cost
      of at most 33 bytes for every 32, which fits the capacity reserved for it. */
  method CompressTokens(input: seq<byte>) returns (output: seq<byte>, ghost ts: seq<Token>)
    ensures Covers(input, |input|, output, ts)
    ensures 32 * |output| <= 33 * |input| + 31 && |output| <= |input| + |input| / 32 + 256
  {
    hide Covers, Encode, Hash;
    output, ts := [], [];
    NothingCovered(input);
    var htab := new u32[HASH_SIZE](_ => 0);
    var inPos, litPos := 0, 0;
    while inPos < |input|
      invariant 0 <= litPos <= inPos <= |input| && htab.Length == HASH_SIZE
      invariant Covers(input, litPos, output, ts) && 32 * |output| <= 33 * litPos
    {
      if inPos + 3 > |input| {
        break;
      }
      var slot := Hash(input[inPos], input[inPos + 1], input[inPos + 2]);
      var ref: nat := htab[slot];
      htab[slot] := inPos % 0x1_0000_0000;
      if Matches(input, ref, inPos) {
        if litPos < inPos {
          output, ts := AppendLiteral(output, input, litPos, inPos, ts);
        }
        var matchLen := MatchLength(input, ref, inPos);
        BackrefCovers(input, inPos, inPos - ref, matchLen, output, ts);
        BackrefSize(inPos - ref, matchLen);
        ts := ts + [BackRef(inPos - ref, matchLen)];
        output := AppendBackref(output, inPos - ref, matchLen);
        inPos := inPos + matchLen;
        litPos := inPos;
        Remember(htab, input, inPos, matchLen);
      } else {
        inPos := inPos + 1;
      }
    }
    if litPos < |input| {
      output, ts := AppendLiteral(output, input, litPos, |input|, ts);
    }
  }

  lemma NothingCovered(input: seq<byte>)
    ensures Covers(input, 0, [], [])
  {
  }

  lemma BackrefSize(offset: nat, length: nat)
    requires ValidAfter(BackRef(offset, length), 8192)
    ensures 32 * |Encode(BackRef(offset, length))| + 31 <= 33 * length
  {
  }

  /** The filter pair: decompressing what was compressed gives back the input, for every input. */
  method RoundTrip(input: seq<byte>) returns (compressed: seq<byte>, r: Result<seq<byte>>)
    ensures r == Ok(input) && |compressed| <= |input| + |input| / 32 + 256
    ensures Decompressed(compressed, []) == Ok(input)
  {
    hide Decompressed, EncodeAll, ValidTokens, Expand;
    ghost var ts;
    compressed, ts := CompressTokens(input);
    assert input[..|input|] == input;
    StreamDecodes([], ts);
    r := Decompress(compressed);
  }
}
