/**
  `webp_dimensions`: the RIFF chunk walk over a WebP byte string, proved
  equivalent to the container grammar of sections 2.3 to 2.7 of RFC 9649, with
  the VP8 frame header of section 9.1 of RFC 6386.
 */
module Webp {
  import opened Common

  const RIFF: Bytes := [0x52, 0x49, 0x46, 0x46]
  const WEBP: Bytes := [0x57, 0x45, 0x42, 0x50]
  const VP8X: Bytes := [0x56, 0x50, 0x38, 0x58]
  const VP8: Bytes := [0x56, 0x50, 0x38, 0x20]
  const VP8L: Bytes := [0x56, 0x50, 0x38, 0x4C]

  // ----- image headers -----

  /** The fixed header of each image chunk, as its specification lays it out. */
  datatype Header =
    | ExtendedHeader(flags: Byte, w: nat, h: nat)
    | LossyHeader(tag0: Byte, tag1: Byte, tag2: Byte, w: nat, xscale: nat, h: nat, yscale: nat)
    | LosslessHeader(w: nat, h: nat, alpha: nat)

  /** The reserved bits of a VP8X flag byte are clear. */
  predicate ReservedClear(flags: Byte) {
    (flags as int as bv8) & 0xC1 == 0
  }

  ghost predicate ValidHeader(x: Header) {
    match x
    case ExtendedHeader(flags, w, h) =>
      ReservedClear(flags) && 1 <= w <= 0x100_0000 && 1 <= h <= 0x100_0000
    case LossyHeader(tag0, _, _, w, xscale, h, yscale) =>
      // bit 0 of the frame tag is clear in a key frame
      tag0 % 2 == 0 && 1 <= w < 0x4000 && 1 <= h < 0x4000 && xscale < 4 && yscale < 4
    case LosslessHeader(w, h, alpha) =>
      1 <= w <= 0x4000 && 1 <= h <= 0x4000 && alpha < 2
  }

  ghost function HeaderType(x: Header): Bytes {
    match x
    case ExtendedHeader(_, _, _) => VP8X
    case LossyHeader(_, _, _, _, _, _, _) => VP8
    case LosslessHeader(_, _, _) => VP8L
  }

  ghost function EncodeHeader(x: Header): (s: Bytes)
    requires ValidHeader(x)
    ensures |s| == Required(HeaderType(x))
  {
    match x
    case ExtendedHeader(flags, w, h) => [flags, 0, 0, 0] + Le(w - 1, 3) + Le(h - 1, 3)
    case LossyHeader(tag0, tag1, tag2, w, xscale, h, yscale) =>
      [tag0, tag1, tag2, 0x9D, 0x01, 0x2A] + Le(w + 0x4000 * xscale, 2) + Le(h + 0x4000 * yscale, 2)
    case LosslessHeader(w, h, alpha) => [0x2F] + Le(LosslessBits(w - 1, h - 1, alpha), 4)
  }

  /** Fourteen bits of width, fourteen of height, then the alpha bit and a version of zero. */
  function LosslessBits(w: nat, h: nat, alpha: nat): (bits: nat)
    requires w < 0x4000 && h < 0x4000 && alpha < 2
    ensures bits < 0x2000_0000
  {
    w + 0x4000 * h + 0x1000_0000 * alpha
  }

  /** How many header bytes the walk reads from a chunk of this type; 0 for a chunk it steps over. */
  function Required(chunkType: Bytes): nat {
    if chunkType == VP8X then 10 else if chunkType == VP8 then 10 else if chunkType == VP8L then 5 else 0
  }

  function ImageDimensions(chunkType: Bytes, header: Bytes): Option<Dimensions> {
    if chunkType == VP8X && |header| >= 10 && ReservedClear(header[0]) && header[1..4] == [0, 0, 0] then
      NonZero(FromLe(header[4..7]) + 1, FromLe(header[7..10]) + 1)
    else if chunkType == VP8 && |header| >= 10 && header[3..6] == [0x9D, 0x01, 0x2A] then
      var frameTag := FromLe(header[0..3]);
      if frameTag % 2 != 0 then None
      else NonZero(FromLe(header[6..8]) % 0x4000, FromLe(header[8..10]) % 0x4000)
    else if chunkType == VP8L && |header| >= 5 && header[0] == 0x2F then
      var bits := FromLe(header[1..5]);
      if bits / 0x2000_0000 != 0 then None
      else NonZero(bits % 0x4000 + 1, bits / 0x4000 % 0x4000 + 1)
    else None
  }

  function NonZero(width: nat, height: nat): Option<Dimensions> {
    if width != 0 && height != 0 then Some(Dimensions(width, height)) else None
  }

  /** Every valid header is read back. */
  lemma HeaderRead(x: Header)
    requires ValidHeader(x)
    ensures ImageDimensions(HeaderType(x), EncodeHeader(x)) == Some(Dimensions(x.w, x.h))
  {
    match x
    case ExtendedHeader(_, _, _) => ExtendedRead(x);
    case LossyHeader(_, _, _, _, _, _, _) => LossyRead(x);
    case LosslessHeader(_, _, _) => LosslessRead(x);
  }

  /** The three pieces of a header that is laid out in three. */
  lemma ThreePieces(a: Bytes, b: Bytes, c: Bytes)
    ensures var s, i, j := a + b + c, |a|, |a| + |b|;
            s[..i] == a && s[i..j] == b && s[j..j + |c|] == c
  {
    SplitTwo(a + b, c);
    SplitTwo(a, b);
    SliceOfTaken(a + b + c, |a + b|, 0, |a|);
    SliceOfTaken(a + b + c, |a + b|, |a|, |a + b|);
  }

  lemma ExtendedRead(x: Header)
    requires ValidHeader(x) && x.ExtendedHeader?
    ensures ImageDimensions(VP8X, EncodeHeader(x)) == Some(Dimensions(x.w, x.h))
  {
    var s, front := EncodeHeader(x), [x.flags, 0, 0, 0];
    RadixValues();
    LeValue(x.w - 1, 3);
    LeValue(x.h - 1, 3);
    ThreePieces(front, Le(x.w - 1, 3), Le(x.h - 1, 3));
    SliceOfTaken(s, 4, 1, 4);
    assert front[1..4] == [0, 0, 0];
    assert s[0] == s[..4][0];
  }

  lemma LossyRead(x: Header)
    requires ValidHeader(x) && x.LossyHeader?
    ensures ImageDimensions(VP8, EncodeHeader(x)) == Some(Dimensions(x.w, x.h))
  {
    var s, front := EncodeHeader(x), [x.tag0, x.tag1, x.tag2, 0x9D, 0x01, 0x2A];
    var u, v := x.w + 0x4000 * x.xscale, x.h + 0x4000 * x.yscale;
    RadixValues();
    LeValue(u, 2);
    LeValue(v, 2);
    LowBits(x.w, x.xscale);
    LowBits(x.h, x.yscale);
    ThreePieces(front, Le(u, 2), Le(v, 2));
    SliceOfTaken(s, 6, 3, 6);
    assert front[3..6] == [0x9D, 0x01, 0x2A];
    assert s[0..3][0] == s[..6][0];
    TagParity(s[0..3]);
  }

  lemma LosslessLaidOut(x: Header, bits: nat)
    requires ValidHeader(x) && x.LosslessHeader? && bits == LosslessBits(x.w - 1, x.h - 1, x.alpha)
    ensures |EncodeHeader(x)| == 5 && EncodeHeader(x)[0] == 0x2F && EncodeHeader(x)[1..5] == Le(bits, 4)
  {
    SplitTwo([0x2F], Le(bits, 4));
  }

  lemma LosslessRead(x: Header)
    requires ValidHeader(x) && x.LosslessHeader?
    ensures ImageDimensions(VP8L, EncodeHeader(x)) == Some(Dimensions(x.w, x.h))
  {
    var bits := LosslessBits(x.w - 1, x.h - 1, x.alpha);
    RadixValues();
    LeValue(bits, 4);
    LosslessLaidOut(x, bits);
    LosslessFields(bits, x.w - 1, x.h - 1, x.alpha);
    BitsAnswer(EncodeHeader(x), bits, x.w - 1, x.h - 1);
  }

  lemma BitsAnswer(header: Bytes, bits: nat, w: nat, h: nat)
    requires |header| == 5 && header[0] == 0x2F && FromLe(header[1..5]) == bits
    requires bits / 0x2000_0000 == 0 && bits % 0x4000 == w && bits / 0x4000 % 0x4000 == h
    ensures ImageDimensions(VP8L, header) == Some(Dimensions(w + 1, h + 1))
  {
  }

  lemma LowBits(low: nat, high: nat)
    requires low < 0x4000
    ensures (low + 0x4000 * high) % 0x4000 == low && (low + 0x4000 * high) / 0x4000 == high
  {
  }

  lemma TagParity(s: Bytes)
    requires s != []
    ensures FromLe(s) % 2 == s[0] as int % 2
  {
    SameParity(s[0] as int, FromLe(s[1..]));
  }

  lemma SameParity(low: nat, high: nat)
    ensures (low + 256 * high) % 2 == low % 2
  {
    assert low + 256 * high == low + 2 * (128 * high);
  }

  lemma LosslessFields(bits: nat, w: nat, h: nat, alpha: nat)
    requires w < 0x4000 && h < 0x4000 && alpha < 2 && bits == LosslessBits(w, h, alpha)
    ensures bits % 0x4000 == w && bits / 0x4000 % 0x4000 == h && bits / 0x2000_0000 == 0
  {
    var high := h + 0x4000 * alpha;
    LowBits(w, high);
    LowBits(h, alpha);
    assert bits == w + 0x4000 * high;
  }

  ghost predicate Written(x: Header, chunkType: Bytes, s: Bytes, d: Dimensions) {
    ValidHeader(x) && HeaderType(x) == chunkType && EncodeHeader(x) == s && d == Dimensions(x.w, x.h)
  }

  /** Whatever is read was written by the specification's encoder. */
  lemma HeaderWritten(chunkType: Bytes, s: Bytes)
    requires |s| == Required(chunkType) && ImageDimensions(chunkType, s).Some?
    ensures exists x :: Written(x, chunkType, s, ImageDimensions(chunkType, s).value)
  {
    var d := ImageDimensions(chunkType, s).value;
    if chunkType == VP8X {
      ExtendedWritten(s, d);
    } else if chunkType == VP8 {
      LossyWritten(s, d);
    } else {
      LosslessWritten(s, d);
    }
  }

  lemma ExtendedApart(s: Bytes)
    requires |s| == 10 && s[1..4] == [0, 0, 0]
    ensures s == [s[0], 0, 0, 0] + s[4..7] + s[7..10]
  {
    assert s[1..4][0] == s[1] && s[1..4][1] == s[2] && s[1..4][2] == s[3];
  }

  lemma LossyApart(s: Bytes)
    requires |s| == 10 && s[3..6] == [0x9D, 0x01, 0x2A]
    ensures s == [s[0], s[1], s[2], 0x9D, 0x01, 0x2A] + s[6..8] + s[8..10]
  {
    assert s[3..6][0] == s[3] && s[3..6][1] == s[4] && s[3..6][2] == s[5];
  }

  lemma ExtendedWritten(s: Bytes, d: Dimensions)
    requires |s| == 10 && ImageDimensions(VP8X, s) == Some(d)
    ensures exists x :: Written(x, VP8X, s, d)
  {
    var x := ExtendedHeader(s[0], d.width, d.height);
    RadixValues();
    LeBytes(s[4..7]);
    LeBytes(s[7..10]);
    ExtendedApart(s);
    assert Written(x, VP8X, s, d);
  }

  lemma LossyWritten(s: Bytes, d: Dimensions)
    requires |s| == 10 && ImageDimensions(VP8, s) == Some(d)
    ensures exists x :: Written(x, VP8, s, d)
  {
    var u, v := FromLe(s[6..8]), FromLe(s[8..10]);
    var x := LossyHeader(s[0], s[1], s[2], d.width, u / 0x4000, d.height, v / 0x4000);
    RadixValues();
    TagParity(s[0..3]);
    LeBytes(s[6..8]);
    LeBytes(s[8..10]);
    LossyApart(s);
    assert Written(x, VP8, s, d);
  }

  lemma LosslessApart(s: Bytes)
    requires |s| == 5
    ensures s == [s[0]] + s[1..5]
  {
  }

  lemma LosslessWritten(s: Bytes, d: Dimensions)
    requires |s| == 5 && ImageDimensions(VP8L, s) == Some(d)
    ensures exists x :: Written(x, VP8L, s, d)
  {
    var bits := FromLe(s[1..5]);
    var x := LosslessHeader(d.width, d.height, bits / 0x1000_0000);
    BitsSplit(bits);
    LeBytes(s[1..5]);
    LosslessApart(s);
    assert Written(x, VP8L, s, d);
  }

  lemma BitsSplit(bits: nat)
    requires bits < 0x2000_0000
    ensures bits / 0x1000_0000 < 2
    ensures bits == LosslessBits(bits % 0x4000, bits / 0x4000 % 0x4000, bits / 0x1000_0000)
  {
    var high := bits / 0x4000;
    assert bits == bits % 0x4000 + 0x4000 * high;
    assert high / 0x4000 == bits / 0x1000_0000;
  }

  // ----- the container -----

  /** A chunk that is not an image chunk: type, size, payload, and a padding byte when the size is odd. */
  datatype Chunk = Chunk(chunkType: Bytes, payload: Bytes, pad: Bytes)

  ghost predicate ValidChunk(c: Chunk) {
    && |c.chunkType| == 4 && Required(c.chunkType) == 0
    && |c.payload| < 0x1_0000_0000
    && |c.pad| == |c.payload| % 2
  }

  ghost function EncodeChunk(c: Chunk): Bytes
    requires ValidChunk(c)
  {
    c.chunkType + Le(|c.payload|, 4) + (c.payload + c.pad)
  }

  ghost predicate ValidChunks(chunks: seq<Chunk>) {
    forall i :: 0 <= i < |chunks| ==> ValidChunk(chunks[i])
  }

  ghost function EncodeChunks(chunks: seq<Chunk>): Bytes
    requires ValidChunks(chunks)
  {
    if chunks == [] then [] else EncodeChunk(chunks[0]) + EncodeChunks(chunks[1..])
  }

  /** An image chunk's type and declared size, its fixed header, then anything. */
  ghost function EncodeImage(x: Header, length: nat, rest: Bytes): Bytes
    requires ValidHeader(x) && length < 0x1_0000_0000
  {
    HeaderType(x) + Le(length, 4) + (EncodeHeader(x) + rest)
  }

  /** How far a chunk with this declared size reaches beyond its own start. */
  function Extent(length: nat): nat {
    8 + length + length % 2
  }

  /**
    `t` is a list of other chunks, then an image chunk declaring `d` whose
    declared extent ends within `room` bytes of the start of `t`.
   */
  ghost predicate Derives(t: Bytes, room: nat, d: Dimensions, chunks: seq<Chunk>, x: Header, length: nat, rest: Bytes) {
    && ValidChunks(chunks) && ValidHeader(x)
    && Required(HeaderType(x)) <= length < 0x1_0000_0000
    && t == EncodeChunks(chunks) + EncodeImage(x, length, rest)
    && |EncodeChunks(chunks)| + Extent(length) <= room
    && d == Dimensions(x.w, x.h)
  }

  ghost predicate Tail(t: Bytes, room: nat, d: Dimensions) {
    exists chunks, x, length, rest :: Derives(t, room, d, chunks, x, length, rest)
  }

  /** The language: RIFF, a declared size, WEBP, then a `Tail` inside the declared size. */
  ghost predicate WebpStream(bytes: Bytes, d: Dimensions) {
    && |bytes| >= 12
    && bytes[..4] == RIFF
    && bytes[8..12] == WEBP
    && var declaredEnd := FromLe(bytes[4..8]) + 8;
       declaredEnd >= 12 && Tail(bytes[12..], declaredEnd - 12, d)
  }

  // ----- the walk -----

  /** The declared payload size of the chunk that starts at `offset`. */
  function LengthAt(bytes: Bytes, offset: nat): (length: nat)
    requires offset + 8 <= |bytes|
    ensures length < 0x1_0000_0000
  {
    RadixValues();
    LeBytes(bytes[offset + 4..offset + 8]);
    FromLe(bytes[offset + 4..offset + 8])
  }

  /** What one turn of the walk does at the chunk that starts at `offset`. */
  function TurnAt(bytes: Bytes, declaredEnd: nat, offset: nat): (turn: Turn)
    requires offset <= |bytes|
    ensures turn.Go? ==> offset + 8 <= turn.next <= |bytes|
    ensures turn.Go? ==> turn.next <= declaredEnd
  {
    if offset + 8 > |bytes| || offset + 8 > declaredEnd then Stop(None)
    else
      var chunkType := bytes[offset..offset + 4];
      var length := LengthAt(bytes, offset);
      var required := Required(chunkType);
      if offset + Extent(length) > declaredEnd then Stop(None)
      else if required != 0 then
        if length < required || offset + 8 + required > |bytes| then Stop(None)
        else Stop(ImageDimensions(chunkType, bytes[offset + 8..offset + 8 + required]))
      else if offset + Extent(length) > |bytes| then Stop(None)
      else Go(offset + Extent(length))
  }

  /** What the walk answers from `offset` on. */
  function Walk(bytes: Bytes, declaredEnd: nat, offset: nat): Option<Dimensions>
    requires offset <= |bytes|
    decreases |bytes| - offset
  {
    match TurnAt(bytes, declaredEnd, offset)
    case Stop(answer) => answer
    case Go(next) => Walk(bytes, declaredEnd, next)
  }

  /** The body of the chunk loop. Every read is in range and every offset fits in a `usize`. */
  method TakeTurn(bytes: Bytes, declaredEnd: Usize, offset: Usize) returns (turn: Turn)
    requires offset <= |bytes| <= SLICE_MAX && declaredEnd <= 0x1_0000_0007
    ensures turn == TurnAt(bytes, declaredEnd, offset)
  {
    var chunkTypeEnd: Usize := offset + 4;
    var chunkHeaderEnd: Usize := offset + 8;
    if chunkHeaderEnd > |bytes| || chunkHeaderEnd > declaredEnd {
      return Stop(None);
    }
    var chunkType := bytes[offset..chunkTypeEnd];
    var length: Usize := LengthAt(bytes, offset);
    var dataOffset := chunkHeaderEnd;
    var dataEnd: Usize := dataOffset + length;
    var declaredNext: Usize := dataEnd + length % 2;
    if declaredNext > declaredEnd {
      return Stop(None);
    }
    var required := Required(chunkType);
    if required != 0 {
      if length < required {
        return Stop(None);
      }
      var headerEnd: Usize := dataOffset + required;
      if headerEnd > |bytes| {
        return Stop(None);
      }
      return Stop(ImageDimensions(chunkType, bytes[dataOffset..headerEnd]));
    }
    if declaredNext > |bytes| {
      return Stop(None);
    }
    return Go(declaredNext);
  }

  /** Accepts exactly the grammar. */
  method WebpDimensions(bytes: Bytes) returns (r: Option<Dimensions>)
    requires |bytes| <= SLICE_MAX
    ensures forall d :: r == Some(d) <==> WebpStream(bytes, d)
  {
    if |bytes| < 4 || bytes[..4] != RIFF || |bytes| < 12 || bytes[8..12] != WEBP {
      return None;
    }
    RadixValues();
    LeBytes(bytes[4..8]);
    var declaredEnd: Usize := FromLe(bytes[4..8]) + 8;
    if declaredEnd >= 12 {
      WalkIsGrammar(bytes, declaredEnd, 12, bytes[12..], declaredEnd - 12);
    }
    if declaredEnd < 20 {
      return None;
    }
    var offset: Usize := 12;
    while true
      invariant 12 <= offset <= |bytes|
      invariant Walk(bytes, declaredEnd, 12) == Walk(bytes, declaredEnd, offset)
      decreases |bytes| - offset
    {
      var turn := TakeTurn(bytes, declaredEnd, offset);
      match turn
      case Stop(answer) => return answer;
      case Go(next) => offset := next;
    }
  }

  // ----- completeness: what the grammar derives, the walk finds -----

  /** The eight bytes that open a chunk, read at its start. */
  lemma ChunkOpens(bytes: Bytes, offset: nat, chunkType: Bytes, length: nat, u: Bytes)
    requires offset <= |bytes| && |chunkType| == 4 && length < 0x1_0000_0000
    requires bytes[offset..] == chunkType + Le(length, 4) + u
    ensures offset + 8 + |u| == |bytes|
    ensures bytes[offset..offset + 4] == chunkType && bytes[offset + 8..] == u
    ensures LengthAt(bytes, offset) == length
  {
    var t := bytes[offset..];
    RadixValues();
    LeValue(length, 4);
    assert t[4..8] == Le(length, 4);
    assert bytes[offset + 4..offset + 8] == t[4..8];
    assert bytes[offset..offset + 4] == t[..4];
    assert bytes[offset + 8..] == t[8..];
  }

  lemma ChunkSkipped(bytes: Bytes, declaredEnd: nat, offset: nat, c: Chunk, u: Bytes)
    requires offset <= |bytes| && ValidChunk(c) && bytes[offset..] == EncodeChunk(c) + u
    requires offset + |EncodeChunk(c)| <= declaredEnd
    ensures |u| <= |bytes| && bytes[|bytes| - |u|..] == u
    ensures |EncodeChunk(c)| == |bytes| - |u| - offset
    ensures TurnAt(bytes, declaredEnd, offset) == Go(|bytes| - |u|)
  {
    var body := c.payload + c.pad;
    Assoc(c.chunkType + Le(|c.payload|, 4), body, u);
    ChunkOpens(bytes, offset, c.chunkType, |c.payload|, body + u);
    assert (body + u)[|body|..] == u;
    assert bytes[|bytes| - |u|..] == bytes[offset + 8..][|body|..];
  }

  lemma WalkGoesOn(bytes: Bytes, declaredEnd: nat, offset: nat, next: nat)
    requires offset <= |bytes| && TurnAt(bytes, declaredEnd, offset) == Go(next)
    ensures Walk(bytes, declaredEnd, offset) == Walk(bytes, declaredEnd, next)
  {
  }

  /** Where the bytes after some chunks start. */
  lemma ChunksEnd(bytes: Bytes, offset: nat, chunks: seq<Chunk>, last: Bytes) returns (end: nat)
    requires offset <= |bytes| && ValidChunks(chunks) && bytes[offset..] == EncodeChunks(chunks) + last
    ensures end == offset + |EncodeChunks(chunks)| <= |bytes| && bytes[end..] == last
  {
    end := offset + |EncodeChunks(chunks)|;
    SplitTwo(EncodeChunks(chunks), last);
    DropDropped(bytes, offset, |EncodeChunks(chunks)|);
  }

  lemma {:induction false} ChunksSkipped(bytes: Bytes, declaredEnd: nat, offset: nat, chunks: seq<Chunk>, last: Bytes,
                                         end: nat)
    requires offset <= |bytes| && ValidChunks(chunks) && bytes[offset..] == EncodeChunks(chunks) + last
    requires end == offset + |EncodeChunks(chunks)| <= declaredEnd && end <= |bytes|
    ensures Walk(bytes, declaredEnd, offset) == Walk(bytes, declaredEnd, end)
    decreases |chunks|
  {
    if chunks != [] {
      var next := FirstSkipped(bytes, declaredEnd, offset, chunks, last, end);
      ChunksSkipped(bytes, declaredEnd, next, chunks[1..], last, end);
    }
  }

  lemma FirstSkipped(bytes: Bytes, declaredEnd: nat, offset: nat, chunks: seq<Chunk>, last: Bytes, end: nat)
    returns (next: nat)
    requires offset <= |bytes| && ValidChunks(chunks) && bytes[offset..] == EncodeChunks(chunks) + last
    requires end == offset + |EncodeChunks(chunks)| <= declaredEnd && end <= |bytes| && chunks != []
    ensures next <= |bytes| && ValidChunks(chunks[1..]) && bytes[next..] == EncodeChunks(chunks[1..]) + last
    ensures next + |EncodeChunks(chunks[1..])| == end
    ensures Walk(bytes, declaredEnd, offset) == Walk(bytes, declaredEnd, next)
  {
    FirstChunk(chunks, last);
    next := PastChunk(bytes, declaredEnd, offset, chunks[0], EncodeChunks(chunks[1..]) + last);
  }

  lemma PastChunk(bytes: Bytes, declaredEnd: nat, offset: nat, c: Chunk, u: Bytes) returns (next: nat)
    requires offset <= |bytes| && ValidChunk(c) && bytes[offset..] == EncodeChunk(c) + u
    requires offset + |EncodeChunk(c)| <= declaredEnd
    ensures next == offset + |EncodeChunk(c)| <= |bytes| && bytes[next..] == u
    ensures Walk(bytes, declaredEnd, offset) == Walk(bytes, declaredEnd, next)
  {
    ChunkSkipped(bytes, declaredEnd, offset, c, u);
    next := |bytes| - |u|;
    WalkGoesOn(bytes, declaredEnd, offset, next);
  }

  lemma FirstChunk(chunks: seq<Chunk>, last: Bytes)
    requires chunks != [] && ValidChunks(chunks)
    ensures ValidChunk(chunks[0]) && ValidChunks(chunks[1..])
    ensures EncodeChunks(chunks) + last == EncodeChunk(chunks[0]) + (EncodeChunks(chunks[1..]) + last)
    ensures |EncodeChunks(chunks)| == |EncodeChunk(chunks[0])| + |EncodeChunks(chunks[1..])|
  {
    Assoc(EncodeChunk(chunks[0]), EncodeChunks(chunks[1..]), last);
  }

  lemma ImageFound(bytes: Bytes, declaredEnd: nat, offset: nat, x: Header, length: nat, rest: Bytes)
    requires offset <= |bytes| && ValidHeader(x) && Required(HeaderType(x)) <= length < 0x1_0000_0000
    requires bytes[offset..] == EncodeImage(x, length, rest)
    requires offset + Extent(length) <= declaredEnd
    ensures Walk(bytes, declaredEnd, offset) == Some(Dimensions(x.w, x.h))
  {
    var header := EncodeHeader(x);
    ChunkOpens(bytes, offset, HeaderType(x), length, header + rest);
    assert bytes[offset + 8..offset + 8 + |header|] == bytes[offset + 8..][..|header|] == header;
    HeaderRead(x);
  }

  lemma Complete(bytes: Bytes, declaredEnd: nat, offset: nat, d: Dimensions,
                 chunks: seq<Chunk>, x: Header, length: nat, rest: Bytes)
    requires offset <= |bytes| && offset <= declaredEnd
    requires Derives(bytes[offset..], declaredEnd - offset, d, chunks, x, length, rest)
    ensures Walk(bytes, declaredEnd, offset) == Some(d)
  {
    ImageAfter(bytes, declaredEnd, offset, chunks, x, length, rest, EncodeImage(x, length, rest));
  }

  lemma ImageAfter(bytes: Bytes, declaredEnd: nat, offset: nat,
                   chunks: seq<Chunk>, x: Header, length: nat, rest: Bytes, last: Bytes)
    requires offset <= |bytes| && ValidChunks(chunks) && ValidHeader(x)
    requires Required(HeaderType(x)) <= length < 0x1_0000_0000
    requires last == EncodeImage(x, length, rest) && bytes[offset..] == EncodeChunks(chunks) + last
    requires offset + |EncodeChunks(chunks)| + Extent(length) <= declaredEnd
    ensures Walk(bytes, declaredEnd, offset) == Some(Dimensions(x.w, x.h))
  {
    var end := ChunksEnd(bytes, offset, chunks, last);
    ChunksSkipped(bytes, declaredEnd, offset, chunks, last, end);
    ImageFound(bytes, declaredEnd, end, x, length, rest);
  }

  // ----- soundness: what the walk finds, the grammar derives -----

  /** One chunk in front of a derivation is a derivation. */
  lemma Prepend(t: Bytes, room: nat, c: Chunk, u: Bytes, d: Dimensions,
                chunks: seq<Chunk>, x: Header, length: nat, rest: Bytes)
    requires ValidChunk(c) && t == EncodeChunk(c) + u && |EncodeChunk(c)| <= room
    requires Derives(u, room - |EncodeChunk(c)|, d, chunks, x, length, rest)
    ensures Derives(t, room, d, [c] + chunks, x, length, rest)
  {
    var all := [c] + chunks;
    assert all[0] == c && all[1..] == chunks;
    Assoc(EncodeChunk(c), EncodeChunks(chunks), EncodeImage(x, length, rest));
  }

  /** The opening eight bytes of a chunk, as written by the grammar. */
  lemma OpeningFound(bytes: Bytes, offset: nat)
    requires offset + 8 <= |bytes|
    ensures bytes[offset..] == bytes[offset..offset + 4] + Le(LengthAt(bytes, offset), 4) + bytes[offset + 8..]
  {
    LeBytes(bytes[offset + 4..offset + 8]);
    assert bytes[offset..] == bytes[offset..offset + 4] + bytes[offset + 4..offset + 8] + bytes[offset + 8..];
  }

  lemma Slices(s: Bytes, a: nat, b: nat, c: nat)
    requires a <= b <= c <= |s|
    ensures s[a..] == (s[a..b] + s[b..c]) + s[c..]
  {
  }

  /** A skippable chunk found by the walk, laid out as the grammar writes it. */
  lemma ChunkFound(bytes: Bytes, declaredEnd: nat, offset: nat, next: nat) returns (c: Chunk)
    requires offset <= |bytes| && TurnAt(bytes, declaredEnd, offset) == Go(next)
    ensures ValidChunk(c) && |EncodeChunk(c)| == next - offset
    ensures bytes[offset..] == EncodeChunk(c) + bytes[next..]
  {
    var length := LengthAt(bytes, offset);
    OpeningFound(bytes, offset);
    Slices(bytes, offset + 8, offset + 8 + length, next);
    c := Chunk(bytes[offset..offset + 4], bytes[offset + 8..offset + 8 + length], bytes[offset + 8 + length..next]);
    Assoc(c.chunkType + Le(length, 4), c.payload + c.pad, bytes[next..]);
  }

  /** What the walk has checked when it answers at an image chunk. */
  lemma ImageChecked(bytes: Bytes, declaredEnd: nat, offset: nat, d: Dimensions)
    requires offset <= |bytes| && TurnAt(bytes, declaredEnd, offset) == Stop(Some(d))
    ensures offset + 8 <= |bytes|
    ensures var chunkType, length := bytes[offset..offset + 4], LengthAt(bytes, offset);
            var required := Required(chunkType);
            && required != 0 && required <= length && offset + 8 + required <= |bytes|
            && offset + Extent(length) <= declaredEnd
            && ImageDimensions(chunkType, bytes[offset + 8..offset + 8 + required]) == Some(d)
  {
  }

  /** An image chunk found by the walk, laid out as the grammar writes it. */
  lemma ImageRead(bytes: Bytes, declaredEnd: nat, offset: nat, d: Dimensions)
    returns (x: Header, length: nat, rest: Bytes)
    requires offset <= |bytes| && TurnAt(bytes, declaredEnd, offset) == Stop(Some(d))
    ensures ValidHeader(x) && d == Dimensions(x.w, x.h)
    ensures Required(HeaderType(x)) <= length < 0x1_0000_0000 && offset + Extent(length) <= declaredEnd
    ensures bytes[offset..] == EncodeImage(x, length, rest)
  {
    ImageChecked(bytes, declaredEnd, offset, d);
    var chunkType := bytes[offset..offset + 4];
    length := LengthAt(bytes, offset);
    var split := offset + 8 + Required(chunkType);
    HeaderWritten(chunkType, bytes[offset + 8..split]);
    x :| Written(x, chunkType, bytes[offset + 8..split], d);
    rest := bytes[split..];
    OpeningFound(bytes, offset);
    JoinRest(bytes, offset + 8, split);
  }

  lemma {:induction false} Sound(bytes: Bytes, declaredEnd: nat, offset: nat, d: Dimensions)
    returns (chunks: seq<Chunk>, x: Header, length: nat, rest: Bytes)
    requires offset <= |bytes| && Walk(bytes, declaredEnd, offset) == Some(d)
    ensures offset <= declaredEnd && Derives(bytes[offset..], declaredEnd - offset, d, chunks, x, length, rest)
    decreases |bytes| - offset
  {
    var turn := TurnAt(bytes, declaredEnd, offset);
    if turn.Stop? {
      x, length, rest := ImageRead(bytes, declaredEnd, offset, d);
      chunks := [];
      assert bytes[offset..] == EncodeChunks([]) + EncodeImage(x, length, rest);
    } else {
      var next := turn.next;
      chunks, x, length, rest := Sound(bytes, declaredEnd, next, d);
      var c := ChunkFound(bytes, declaredEnd, offset, next);
      Prepend(bytes[offset..], declaredEnd - offset, c, bytes[next..], d, chunks, x, length, rest);
      chunks := [c] + chunks;
    }
  }

  lemma WalkFinds(bytes: Bytes, declaredEnd: nat, offset: nat, t: Bytes, room: nat, d: Dimensions)
    requires offset <= |bytes| && offset <= declaredEnd
    requires t == bytes[offset..] && room == declaredEnd - offset
    ensures Walk(bytes, declaredEnd, offset) == Some(d) <==> Tail(t, room, d)
  {
    if chunks, x, length, rest :| Derives(t, room, d, chunks, x, length, rest) {
      Complete(bytes, declaredEnd, offset, d, chunks, x, length, rest);
    }
    if Walk(bytes, declaredEnd, offset) == Some(d) {
      var chunks, x, length, rest := Sound(bytes, declaredEnd, offset, d);
    }
  }

  /** The walk answers `d` exactly when the grammar derives `d`. */
  lemma WalkIsGrammar(bytes: Bytes, declaredEnd: nat, offset: nat, t: Bytes, room: nat)
    requires offset <= |bytes| && offset <= declaredEnd
    requires t == bytes[offset..] && room == declaredEnd - offset
    ensures forall d :: Walk(bytes, declaredEnd, offset) == Some(d) <==> Tail(t, room, d)
  {
    forall d ensures Walk(bytes, declaredEnd, offset) == Some(d) <==> Tail(t, room, d) {
      WalkFinds(bytes, declaredEnd, offset, t, room, d);
    }
  }

  /** No byte string declares two sizes. */
  lemma DimensionsUnique(bytes: Bytes, d: Dimensions, d': Dimensions)
    requires WebpStream(bytes, d) && WebpStream(bytes, d')
    ensures d == d'
  {
    var declaredEnd := FromLe(bytes[4..8]) + 8;
    WalkIsGrammar(bytes, declaredEnd, 12, bytes[12..], declaredEnd - 12);
  }

  // ----- the walk, read off the bytes -----

  /** Two, three and four bytes of `s` from `i` on, the low one first. */
  function Two(s: Bytes, i: nat): nat
    requires i + 2 <= |s|
  {
    s[i] as int + 0x100 * (s[i + 1] as int)
  }

  function Three(s: Bytes, i: nat): nat
    requires i + 3 <= |s|
  {
    Two(s, i) + 0x1_0000 * (s[i + 2] as int)
  }

  function Four(s: Bytes, i: nat): nat
    requires i + 4 <= |s|
  {
    Three(s, i) + 0x100_0000 * (s[i + 3] as int)
  }

  lemma TwoRead(s: Bytes, i: nat)
    requires i + 2 <= |s|
    ensures FromLe(s[i..i + 2]) == Two(s, i)
  {
    LeTwo(s[i..i + 2]);
  }

  lemma ThreeRead(s: Bytes, i: nat)
    requires i + 3 <= |s|
    ensures FromLe(s[i..i + 3]) == Three(s, i)
  {
    LeThree(s[i..i + 3]);
  }

  lemma FourRead(s: Bytes, i: nat)
    requires i + 4 <= |s|
    ensures FromLe(s[i..i + 4]) == Four(s, i)
  {
    LeFour(s[i..i + 4]);
  }

  /** The lowest bit of a VP8X flag byte and the highest two are reserved. */
  lemma FlagBits(flags: Byte)
    ensures ReservedClear(flags) <==> flags < 0x40 && flags % 2 == 0
  {
    var b := flags as int as bv8;
    assert b & 0xC1 == 0 <==> b < 0x40 && b % 2 == 0;
  }

  /** `VP8X`: one more than the three-byte width and height, with any flags but the reserved ones. */
  lemma ExtendedByBytes(h: Bytes)
    requires |h| == 10
    ensures ImageDimensions([0x56, 0x50, 0x38, 0x58], h) ==
            if h[0] < 0x40 && h[0] % 2 == 0 && h[1] == 0 && h[2] == 0 && h[3] == 0
            then Some(Dimensions(Three(h, 4) + 1, Three(h, 7) + 1)) else None
  {
    FlagBits(h[0]);
    ThreeRead(h, 4);
    ThreeRead(h, 7);
    assert h[1..4] == [h[1], h[2], h[3]];
  }

  /** `VP8 `: the low fourteen bits of the fields after the start code of a key frame. */
  lemma LossyByBytes(h: Bytes)
    requires |h| == 10
    ensures var w, height := Two(h, 6) % 0x4000, Two(h, 8) % 0x4000;
            ImageDimensions([0x56, 0x50, 0x38, 0x20], h) ==
              if h[0] % 2 == 0 && h[3] == 0x9D && h[4] == 0x01 && h[5] == 0x2A && w > 0 && height > 0
              then Some(Dimensions(w, height)) else None
  {
    TagParity(h[0..3]);
    TwoRead(h, 6);
    TwoRead(h, 8);
    assert h[3..6] == [h[3], h[4], h[5]];
  }

  /** `VP8L`: after the signature byte, fourteen bits each, one more than which is the size, and a version of zero. */
  lemma LosslessByBytes(h: Bytes)
    requires |h| == 5
    ensures var bits := Four(h, 1);
            ImageDimensions([0x56, 0x50, 0x38, 0x4C], h) ==
              if h[0] == 0x2F && bits < 0x2000_0000
              then Some(Dimensions(bits % 0x4000 + 1, bits / 0x4000 % 0x4000 + 1)) else None
  {
    FourRead(h, 1);
  }

  /** The three types whose header is read. */
  predicate IsImage(chunkType: Bytes) {
    || chunkType == [0x56, 0x50, 0x38, 0x58]
    || chunkType == [0x56, 0x50, 0x38, 0x20]
    || chunkType == [0x56, 0x50, 0x38, 0x4C]
  }

  /** Any other chunk is stepped over with its padding, if all of it is there and declared. */
  lemma ChunkByBytes(bytes: Bytes, end: nat, i: nat)
    requires i + 8 <= |bytes| && !IsImage(bytes[i..i + 4])
    ensures var next := i + 8 + Four(bytes, i + 4) + Four(bytes, i + 4) % 2;
            Walk(bytes, end, i) == if next <= end && next <= |bytes| then Walk(bytes, end, next) else None
  {
    FourRead(bytes, i + 4);
  }

  /** An image chunk must be declared whole, its padding included, and hold its header; no more of it need be there. */
  lemma ImageByBytes(bytes: Bytes, end: nat, i: nat)
    requires i + 8 <= |bytes| && IsImage(bytes[i..i + 4])
    ensures var chunkType, length := bytes[i..i + 4], Four(bytes, i + 4);
            var n := if chunkType == [0x56, 0x50, 0x38, 0x4C] then 5 else 10;
            Walk(bytes, end, i) ==
              if i + 8 + length + length % 2 <= end && n <= length && i + 8 + n <= |bytes|
              then ImageDimensions(chunkType, bytes[i + 8..i + 8 + n]) else None
  {
    FourRead(bytes, i + 4);
  }

  lemma FileWalked(bytes: Bytes, d: Dimensions, end: nat)
    requires |bytes| >= 12 && bytes[..4] == RIFF && bytes[8..12] == WEBP && end == FromLe(bytes[4..8]) + 8
    ensures WebpStream(bytes, d) <==> end >= 12 && Walk(bytes, end, 12) == Some(d)
  {
    if end >= 12 {
      WalkIsGrammar(bytes, end, 12, bytes[12..], end - 12);
    }
  }

  /** The answer for a whole file: its first four bytes, its type and its declared size are as they must be. */
  lemma FileByBytes(bytes: Bytes, d: Dimensions)
    requires |bytes| >= 12
    ensures WebpStream(bytes, d) <==>
            && bytes[..4] == [0x52, 0x49, 0x46, 0x46] && bytes[8..12] == [0x57, 0x45, 0x42, 0x50]
            && Four(bytes, 4) >= 4 && Walk(bytes, Four(bytes, 4) + 8, 12) == Some(d)
  {
    FourRead(bytes, 4);
    if bytes[..4] == RIFF && bytes[8..12] == WEBP {
      FileWalked(bytes, d, Four(bytes, 4) + 8);
    } else {
      NotWebp(bytes, d);
    }
  }

  lemma NotWebp(bytes: Bytes, d: Dimensions)
    requires |bytes| >= 12 && (bytes[..4] != RIFF || bytes[8..12] != WEBP)
    ensures !WebpStream(bytes, d)
  {
  }
}
