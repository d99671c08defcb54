/**
  `jpeg_dimensions`: the marker walk over a JPEG byte string, proved equivalent
  to the generative grammar of sections B.1.1 and B.2.2 of ITU-T T.81.
 */
module Jpeg {
  import opened Common

  // ----- the grammar -----

  /** Start of frame, table B.1: C0 to CF without the three that define tables or are reserved. */
  const FRAME_MARKERS: set<Byte> := {0xC0, 0xC1, 0xC2, 0xC3, 0xC5, 0xC6, 0xC7, 0xC9, 0xCA, 0xCB, 0xCD, 0xCE, 0xCF}

  /** Markers that stand alone: TEM and the restart markers. */
  const LONE_MARKERS: set<Byte> := {0x01, 0xD0, 0xD1, 0xD2, 0xD3, 0xD4, 0xD5, 0xD6, 0xD7}

  /** No marker at all, start and end of image, start of scan: none may stand before the frame header. */
  const MISPLACED: set<Byte> := {0x00, 0xD8, 0xD9, 0xDA, 0xFF}

  ghost predicate OpensSegment(marker: Byte) {
    marker !in FRAME_MARKERS && marker !in LONE_MARKERS && marker !in MISPLACED
  }

  /** What may stand before the frame header: a marker alone, or a marker with a segment. */
  datatype Segment =
    | Standalone(fill: nat, marker: Byte)
    | Sized(fill: nat, marker: Byte, payload: Bytes)

  ghost predicate ValidSegment(s: Segment) {
    && s.fill >= 1
    && match s
       case Standalone(_, marker) => marker in LONE_MARKERS
       case Sized(_, marker, payload) => OpensSegment(marker) && |payload| + 2 < 0x1_0000
  }

  datatype Frame = Frame(fill: nat, marker: Byte, precision: Byte, height: nat, width: nat, specs: Bytes)

  ghost predicate ValidFrame(f: Frame) {
    && f.fill >= 1
    && f.marker in FRAME_MARKERS
    && (f.precision == 8 || f.precision == 12)
    && 1 <= f.height < 0x1_0000
    && 1 <= f.width < 0x1_0000
    && |f.specs| % 3 == 0
    && 3 <= |f.specs| <= 3 * 255
  }

  function Fill(n: nat): (s: Bytes)
    ensures |s| == n
  {
    seq(n, _ => 0xFF)
  }

  ghost function EncodeSegment(s: Segment): Bytes
    requires ValidSegment(s)
  {
    match s
    case Standalone(fill, marker) => Opening(fill, marker)
    case Sized(fill, marker, payload) => Opening(fill, marker) + (Be16(|payload| + 2) + payload)
  }

  /** A marker with the fill bytes before it. */
  ghost function Opening(fill: nat, marker: Byte): (s: Bytes)
    ensures |s| == fill + 1
  {
    Fill(fill) + [marker]
  }

  ghost function EncodeFrame(f: Frame): Bytes
    requires ValidFrame(f)
  {
    Opening(f.fill, f.marker) + FrameBody(f)
  }

  /** The frame header of section B.2.2: length, precision, height, width, component count, component specifications. */
  ghost function FrameBody(f: Frame): (s: Bytes)
    requires ValidFrame(f)
    ensures |s| == 8 + |f.specs|
  {
    var n := 8 + |f.specs|;
    Be16(n) + [f.precision] + Be16(f.height) + Be16(f.width) + [(|f.specs| / 3) as Byte] + f.specs
  }

  ghost predicate ValidSegments(segments: seq<Segment>) {
    forall i :: 0 <= i < |segments| ==> ValidSegment(segments[i])
  }

  ghost function EncodeSegments(segments: seq<Segment>): Bytes
    requires ValidSegments(segments)
  {
    if segments == [] then [] else EncodeSegment(segments[0]) + EncodeSegments(segments[1..])
  }

  ghost predicate Derives(t: Bytes, d: Dimensions, segments: seq<Segment>, f: Frame, rest: Bytes) {
    && ValidSegments(segments)
    && ValidFrame(f)
    && t == EncodeSegments(segments) + (EncodeFrame(f) + rest)
    && d == Dimensions(f.width, f.height)
  }

  /** Segments, then a frame header declaring `d`, then anything. */
  ghost predicate Tail(t: Bytes, d: Dimensions) {
    exists segments, f, rest :: Derives(t, d, segments, f, rest)
  }

  /** The language: start of image, then a `Tail`. */
  ghost predicate JpegStream(bytes: Bytes, d: Dimensions) {
    && |bytes| >= 2
    && bytes[..2] == [0xFF, 0xD8]
    && Tail(bytes[2..], d)
  }

  // ----- the walk -----

  predicate IsStandalone(marker: Byte) {
    marker == 0x01 || 0xD0 <= marker <= 0xD7
  }

  /** `is_jpeg_sof`. */
  predicate IsSof(marker: Byte) {
    0xC0 <= marker <= 0xC3 || 0xC5 <= marker <= 0xC7 || 0xC9 <= marker <= 0xCB || 0xCD <= marker <= 0xCF
  }

  /** A marker whose length-delimited segment the walk steps over. */
  predicate IsSkippable(marker: Byte) {
    && !IsStandalone(marker) && !IsSof(marker)
    && marker != 0x00 && marker != 0xD8 && marker != 0xD9 && marker != 0xDA && marker != 0xFF
  }

  /** The walk tells markers apart as the tables do. */
  lemma MarkersAgree(marker: Byte)
    ensures IsSof(marker) <==> marker in FRAME_MARKERS
    ensures IsStandalone(marker) <==> marker in LONE_MARKERS
    ensures IsSkippable(marker) <==> OpensSegment(marker)
  {
  }

  /** The end of the run of fill bytes at `offset`. */
  function RunEnd(bytes: Bytes, offset: nat): (end: nat)
    requires offset <= |bytes|
    ensures offset <= end <= |bytes|
    ensures end < |bytes| ==> bytes[end] != 0xFF
    decreases |bytes| - offset
  {
    if offset < |bytes| && bytes[offset] == 0xFF then RunEnd(bytes, offset + 1) else offset
  }

  /** The branch of the walk that reads a frame header's fixed fields. */
  function FrameDimensions(data: Bytes): Option<Dimensions> {
    if |data| < 8 then None
    else
      var components := data[7];
      var expectedLength: Usize := 8 + (components as int) * 3;
      var precision := data[2];
      if components == 0 || |data| != expectedLength || (precision != 8 && precision != 12) then None
      else
        var height := FromBe16(data[3], data[4]);
        var width := FromBe16(data[5], data[6]);
        if width != 0 && height != 0 then Some(Dimensions(width, height)) else None
  }

  /** Where the segment whose length bytes start at `at` ends, if it is whole. */
  function SegmentEnd(bytes: Bytes, at: nat): Option<nat> {
    if at + 2 > |bytes| then None
    else
      var length := FromBe16(bytes[at], bytes[at + 1]);
      if length < 2 || at + length > |bytes| then None else Some(at + length)
  }

  function TurnAt(bytes: Bytes, offset: nat): (turn: Turn)
    requires offset <= |bytes|
    ensures turn.Go? ==> offset < turn.next <= |bytes|
  {
    var j := RunEnd(bytes, offset);
    if j == offset || j == |bytes| then Stop(None)
    else if IsStandalone(bytes[j]) then Go(j + 1)
    else if !IsSof(bytes[j]) && !IsSkippable(bytes[j]) then Stop(None)
    else
      match SegmentEnd(bytes, j + 1)
      case None => Stop(None)
      case Some(end) => if IsSof(bytes[j]) then Stop(FrameDimensions(bytes[j + 1..end])) else Go(end)
  }

  /** What the walk answers from `offset` on. */
  function Walk(bytes: Bytes, offset: nat): Option<Dimensions>
    requires offset <= |bytes|
    decreases |bytes| - offset
  {
    match TurnAt(bytes, offset)
    case Stop(answer) => answer
    case Go(next) => Walk(bytes, next)
  }

  lemma RunEndIs(bytes: Bytes, offset: nat, end: nat)
    requires offset <= end <= |bytes|
    requires forall i :: offset <= i < end ==> bytes[i] == 0xFF
    requires end < |bytes| ==> bytes[end] != 0xFF
    ensures RunEnd(bytes, offset) == end
    decreases end - offset
  {
  }

  method SkipFill(bytes: Bytes, offset: Usize) returns (end: Usize)
    requires offset <= |bytes| <= SLICE_MAX
    ensures end == RunEnd(bytes, offset)
  {
    end := offset;
    while end < |bytes| && bytes[end] == 0xFF
      invariant offset <= end <= |bytes|
      invariant RunEnd(bytes, end) == RunEnd(bytes, offset)
    {
      end := end + 1;
    }
  }

  /** The body of the marker loop. Every read is in range and every offset fits in a `usize`. */
  method TakeTurn(bytes: Bytes, start: Usize) returns (turn: Turn)
    requires start < |bytes| <= SLICE_MAX
    ensures turn == TurnAt(bytes, start)
  {
    if bytes[start] != 0xFF {
      return Stop(None);
    }
    var offset := SkipFill(bytes, start);
    if offset == |bytes| {
      return Stop(None);
    }
    var marker := bytes[offset];
    offset := offset + 1;
    if marker == 0xD9 {
      return Stop(None);
    }
    if marker == 0x01 || 0xD0 <= marker <= 0xD7 {
      return Go(offset);
    }
    if marker == 0x00 || marker == 0xD8 {
      return Stop(None);
    }
    if offset + 2 > |bytes| {
      return Stop(None);
    }
    var length: Usize := FromBe16(bytes[offset], bytes[offset + 1]);
    if length < 2 {
      return Stop(None);
    }
    var segmentEnd: Usize := offset + length;
    if segmentEnd > |bytes| {
      return Stop(None);
    }
    if IsSof(marker) {
      return Stop(FrameDimensions(bytes[offset..segmentEnd]));
    }
    if marker == 0xDA {
      return Stop(None);
    }
    return Go(segmentEnd);
  }

  method JpegDimensions(bytes: Bytes) returns (r: Option<Dimensions>)
    requires |bytes| <= SLICE_MAX
    ensures forall d :: r == Some(d) <==> JpegStream(bytes, d)
  {
    if |bytes| < 2 || bytes[..2] != [0xFF, 0xD8] {
      return None;
    }
    WalkIsGrammar(bytes, 2);
    var offset: Usize := 2;
    while offset < |bytes|
      invariant 2 <= offset <= |bytes|
      invariant Walk(bytes, 2) == Walk(bytes, offset)
    {
      var turn := TakeTurn(bytes, offset);
      match turn
      case Stop(answer) => return answer;
      case Go(next) => offset := next;
    }
    return None;
  }

  // ----- completeness: what the grammar derives, the walk finds -----

  /** The bytes from `offset` on are `fill` fill bytes, `marker`, then `u`. */
  ghost predicate Opens(bytes: Bytes, offset: nat, fill: nat, marker: Byte, u: Bytes) {
    offset <= |bytes| && bytes[offset..] == Opening(fill, marker) + u
  }

  lemma OpensAt(bytes: Bytes, offset: nat, fill: nat, marker: Byte, u: Bytes)
    requires Opens(bytes, offset, fill, marker, u) && marker != 0xFF
    ensures RunEnd(bytes, offset) == offset + fill < |bytes|
    ensures bytes[offset + fill] == marker && bytes[offset + fill + 1..] == u
  {
    var t := bytes[offset..];
    assert forall i :: offset <= i < offset + fill ==> bytes[i] == t[i - offset];
    assert bytes[offset + fill] == t[fill];
    RunEndIs(bytes, offset, offset + fill);
    assert bytes[offset + fill + 1..] == t[fill + 1..];
  }

  lemma SizedSkipped(bytes: Bytes, offset: nat, s: Segment, u: Bytes)
    requires offset <= |bytes| && ValidSegment(s) && s.Sized? && bytes[offset..] == EncodeSegment(s) + u
    ensures |u| <= |bytes| && bytes[|bytes| - |u|..] == u && TurnAt(bytes, offset) == Go(|bytes| - |u|)
  {
    var n, v := |s.payload| + 2, s.payload + u;
    MarkersAgree(s.marker);
    SizedLaidOut(s, u);
    Assoc(Be16(n), s.payload, u);
    SplitTwo(s.payload, u);
    OpensAt(bytes, offset, s.fill, s.marker, Be16(n) + v);
    SegmentEndAt(bytes, offset + s.fill + 1, n, v);
  }

  lemma SegmentSkipped(bytes: Bytes, offset: nat, s: Segment, u: Bytes)
    requires offset <= |bytes| && ValidSegment(s) && bytes[offset..] == EncodeSegment(s) + u
    ensures |u| <= |bytes| && bytes[|bytes| - |u|..] == u && TurnAt(bytes, offset) == Go(|bytes| - |u|)
  {
    MarkersAgree(s.marker);
    if s.Standalone? {
      OpensAt(bytes, offset, s.fill, s.marker, u);
    } else {
      SizedSkipped(bytes, offset, s, u);
    }
  }

  lemma SegmentEndAt(bytes: Bytes, at: nat, length: nat, u: Bytes)
    requires at <= |bytes| && 2 <= length < 0x1_0000 && bytes[at..] == Be16(length) + u
    requires length - 2 <= |u|
    ensures SegmentEnd(bytes, at) == Some(at + length)
    ensures bytes[at + length..] == u[length - 2..]
  {
    var t := bytes[at..];
    assert bytes[at] == t[0] && bytes[at + 1] == t[1];
    Be16Value(length);
    assert bytes[at + length..] == t[length..];
  }

  lemma LengthLeads(s: Bytes, rest: Bytes)
    requires 2 <= |s| < 0x1_0000 && s[..2] == Be16(|s|)
    ensures s + rest == Be16(|s|) + (s[2..] + rest)
  {
  }

  lemma FirstPart(bytes: Bytes, at: nat, s: Bytes, rest: Bytes)
    requires at <= |bytes| && bytes[at..] == s + rest
    ensures at + |s| <= |bytes| && bytes[at..at + |s|] == s
  {
    SplitTwo(s, rest);
    assert bytes[at..at + |s|] == bytes[at..][..|s|];
  }

  lemma SofStops(bytes: Bytes, offset: nat, fill: nat, marker: Byte, s: Bytes, rest: Bytes)
    requires Opens(bytes, offset, fill, marker, s + rest) && fill >= 1 && IsSof(marker)
    requires 2 <= |s| < 0x1_0000 && s[..2] == Be16(|s|)
    ensures TurnAt(bytes, offset) == Stop(FrameDimensions(s))
  {
    var at := offset + fill + 1;
    OpensAt(bytes, offset, fill, marker, s + rest);
    LengthLeads(s, rest);
    SegmentEndAt(bytes, at, |s|, s[2..] + rest);
    FirstPart(bytes, at, s, rest);
  }

  lemma FrameFound(bytes: Bytes, offset: nat, f: Frame, rest: Bytes)
    requires offset <= |bytes| && ValidFrame(f) && bytes[offset..] == EncodeFrame(f) + rest
    ensures Walk(bytes, offset) == Some(Dimensions(f.width, f.height))
  {
    Assoc(Opening(f.fill, f.marker), FrameBody(f), rest);
    MarkersAgree(f.marker);
    FieldsRead(f);
    SofStops(bytes, offset, f.fill, f.marker, FrameBody(f), rest);
  }

  lemma FieldsRead(f: Frame)
    requires ValidFrame(f)
    ensures FrameDimensions(FrameBody(f)) == Some(Dimensions(f.width, f.height))
    ensures FrameBody(f)[..2] == Be16(8 + |f.specs|)
  {
    Be16Value(f.height);
    Be16Value(f.width);
  }

  lemma WalkGoesOn(bytes: Bytes, offset: nat, next: nat)
    requires offset <= |bytes| && TurnAt(bytes, offset) == Go(next)
    ensures Walk(bytes, offset) == Walk(bytes, next)
  {
  }

  lemma FirstSegment(segments: seq<Segment>, last: Bytes)
    requires segments != [] && ValidSegments(segments)
    ensures ValidSegment(segments[0]) && ValidSegments(segments[1..])
    ensures EncodeSegments(segments) + last == EncodeSegment(segments[0]) + (EncodeSegments(segments[1..]) + last)
    ensures |EncodeSegments(segments)| == |EncodeSegment(segments[0])| + |EncodeSegments(segments[1..])|
  {
    Assoc(EncodeSegment(segments[0]), EncodeSegments(segments[1..]), last);
  }

  /** Where the bytes after some segments start. */
  lemma SegmentsEnd(bytes: Bytes, offset: nat, segments: seq<Segment>, last: Bytes) returns (end: nat)
    requires offset <= |bytes| && ValidSegments(segments) && bytes[offset..] == EncodeSegments(segments) + last
    ensures end == offset + |EncodeSegments(segments)| <= |bytes| && bytes[end..] == last
  {
    end := offset + |EncodeSegments(segments)|;
    SplitTwo(EncodeSegments(segments), last);
    DropDropped(bytes, offset, |EncodeSegments(segments)|);
  }

  lemma {:induction false} SegmentsSkipped(bytes: Bytes, offset: nat, segments: seq<Segment>, last: Bytes, end: nat)
    requires offset <= |bytes| && ValidSegments(segments) && bytes[offset..] == EncodeSegments(segments) + last
    requires end == offset + |EncodeSegments(segments)| <= |bytes|
    ensures Walk(bytes, offset) == Walk(bytes, end)
    decreases |segments|
  {
    if segments != [] {
      var s, more := segments[0], segments[1..];
      var u := EncodeSegments(more) + last;
      FirstSegment(segments, last);
      SegmentSkipped(bytes, offset, s, u);
      WalkGoesOn(bytes, offset, |bytes| - |u|);
      SegmentsSkipped(bytes, |bytes| - |u|, more, last, end);
    }
  }

  lemma Complete(bytes: Bytes, offset: nat, d: Dimensions, segments: seq<Segment>, f: Frame, rest: Bytes)
    requires offset <= |bytes| && Derives(bytes[offset..], d, segments, f, rest)
    ensures Walk(bytes, offset) == Some(d)
  {
    FrameAfter(bytes, offset, segments, f, rest, EncodeFrame(f) + rest);
  }

  lemma FrameAfter(bytes: Bytes, offset: nat, segments: seq<Segment>, f: Frame, rest: Bytes, last: Bytes)
    requires offset <= |bytes| && ValidSegments(segments) && ValidFrame(f)
    requires bytes[offset..] == EncodeSegments(segments) + last && last == EncodeFrame(f) + rest
    ensures Walk(bytes, offset) == Some(Dimensions(f.width, f.height))
  {
    var end := SegmentsEnd(bytes, offset, segments, last);
    SegmentsSkipped(bytes, offset, segments, last, end);
    FrameFound(bytes, end, f, rest);
  }

  // ----- soundness: what the walk finds, the grammar derives -----

  lemma RunIsFill(bytes: Bytes, offset: nat)
    requires offset <= |bytes|
    ensures bytes[offset..RunEnd(bytes, offset)] == Fill(RunEnd(bytes, offset) - offset)
    decreases |bytes| - offset
  {
    if offset < |bytes| && bytes[offset] == 0xFF {
      RunIsFill(bytes, offset + 1);
      assert bytes[offset..RunEnd(bytes, offset)] == [bytes[offset]] + bytes[offset + 1..RunEnd(bytes, offset)];
    }
  }

  lemma OpeningFound(bytes: Bytes, offset: nat)
    requires offset <= |bytes| && RunEnd(bytes, offset) < |bytes|
    ensures var j := RunEnd(bytes, offset);
            bytes[offset..] == Opening(j - offset, bytes[j]) + bytes[j + 1..]
  {
    var j := RunEnd(bytes, offset);
    RunIsFill(bytes, offset);
    assert bytes[offset..] == bytes[offset..j] + [bytes[j]] + bytes[j + 1..];
  }

  /** One segment in front of a derivation is a derivation. */
  lemma Prepend(t: Bytes, s: Segment, u: Bytes, d: Dimensions, segments: seq<Segment>, f: Frame, rest: Bytes)
    requires ValidSegment(s) && t == EncodeSegment(s) + u && Derives(u, d, segments, f, rest)
    ensures Derives(t, d, [s] + segments, f, rest)
  {
    var all := [s] + segments;
    assert all[0] == s && all[1..] == segments;
    Assoc(EncodeSegment(s), EncodeSegments(segments), EncodeFrame(f) + rest);
  }

  /** What the walk has checked when it steps over a segment that has a length. */
  lemma SizedChecked(bytes: Bytes, offset: nat, next: nat)
    requires offset <= |bytes| && TurnAt(bytes, offset) == Go(next)
    ensures var j := RunEnd(bytes, offset);
            && offset < j < |bytes|
            && (IsStandalone(bytes[j]) ==> next == j + 1)
            && (!IsStandalone(bytes[j]) ==> IsSkippable(bytes[j]) && SegmentEnd(bytes, j + 1) == Some(next))
  {
  }

  /** A length and what follows it, up to the end of the segment. */
  lemma SizedBody(bytes: Bytes, at: nat, next: nat)
    requires at <= |bytes| && SegmentEnd(bytes, at) == Some(next)
    ensures at + 2 <= next <= |bytes| && next - at < 0x1_0000
    ensures bytes[at..] == Be16(next - at) + bytes[at + 2..next] + bytes[next..]
  {
    LengthFirst(bytes, at, next);
    assert bytes[at..next] == bytes[at..next][..2] + bytes[at + 2..next];
    JoinRest(bytes, at, next);
  }

  /** The segment starts with its own length. */
  lemma LengthFirst(bytes: Bytes, at: nat, end: nat)
    requires at <= |bytes| && SegmentEnd(bytes, at) == Some(end)
    ensures at + 2 <= end <= |bytes| && end - at < 0x1_0000
    ensures bytes[at..end][..2] == Be16(end - at)
  {
    Be16Bytes(bytes[at], bytes[at + 1]);
    assert bytes[at..end][..2] == [bytes[at], bytes[at + 1]];
  }

  /** What the walk steps over, laid out as the grammar writes it. */
  lemma SegmentFound(bytes: Bytes, offset: nat, next: nat) returns (s: Segment)
    requires offset <= |bytes| && TurnAt(bytes, offset) == Go(next)
    ensures ValidSegment(s) && bytes[offset..] == EncodeSegment(s) + bytes[next..]
  {
    SizedChecked(bytes, offset, next);
    var j := RunEnd(bytes, offset);
    OpeningFound(bytes, offset);
    MarkersAgree(bytes[j]);
    if IsStandalone(bytes[j]) {
      s := Standalone(j - offset, bytes[j]);
    } else {
      s := SizedFound(bytes, offset, j, next);
    }
  }

  lemma SizedFound(bytes: Bytes, offset: nat, j: nat, next: nat) returns (s: Segment)
    requires offset < j < |bytes| && IsSkippable(bytes[j]) && SegmentEnd(bytes, j + 1) == Some(next)
    requires bytes[offset..] == Opening(j - offset, bytes[j]) + bytes[j + 1..]
    ensures ValidSegment(s) && next <= |bytes| && bytes[offset..] == EncodeSegment(s) + bytes[next..]
  {
    MarkersAgree(bytes[j]);
    SizedBody(bytes, j + 1, next);
    s := Sized(j - offset, bytes[j], bytes[j + 3..next]);
    SizedLaidOut(s, bytes[next..]);
  }

  lemma SizedLaidOut(s: Segment, rest: Bytes)
    requires s.Sized? && ValidSegment(s)
    ensures EncodeSegment(s) + rest == Opening(s.fill, s.marker) + (Be16(|s.payload| + 2) + s.payload + rest)
  {
    Assoc(Opening(s.fill, s.marker), Be16(|s.payload| + 2) + s.payload, rest);
  }

  /** The fixed fields and the component specifications of a frame header. */
  lemma FieldsApart(s: Bytes)
    requires |s| >= 8
    ensures s == s[..2] + [s[2]] + [s[3], s[4]] + [s[5], s[6]] + [s[7]] + s[8..]
  {
  }

  lemma FieldsEncode(s: Bytes, k: nat, marker: Byte, d: Dimensions) returns (f: Frame)
    requires 2 <= |s| < 0x1_0000 && s[..2] == Be16(|s|) && k >= 1 && marker in FRAME_MARKERS
    requires FrameDimensions(s) == Some(d)
    ensures ValidFrame(f) && f.fill == k && f.marker == marker && FrameBody(f) == s
    ensures d == Dimensions(f.width, f.height)
  {
    f := Frame(k, marker, s[2], d.height, d.width, s[8..]);
    Be16Bytes(s[3], s[4]);
    Be16Bytes(s[5], s[6]);
    FieldsApart(s);
  }

  /** What the walk has checked when it answers at a frame header. */
  lemma FrameChecked(bytes: Bytes, offset: nat, d: Dimensions)
    requires offset <= |bytes| && TurnAt(bytes, offset) == Stop(Some(d))
    ensures var j := RunEnd(bytes, offset);
            && offset < j < |bytes| && IsSof(bytes[j]) && SegmentEnd(bytes, j + 1).Some?
            && j + 3 <= SegmentEnd(bytes, j + 1).value <= |bytes|
            && FrameDimensions(bytes[j + 1..SegmentEnd(bytes, j + 1).value]) == Some(d)
  {
  }

  /** A frame header the walk accepts, laid out as the grammar writes it. */
  lemma FrameRead(bytes: Bytes, offset: nat, d: Dimensions) returns (f: Frame, rest: Bytes)
    requires offset <= |bytes| && TurnAt(bytes, offset) == Stop(Some(d))
    ensures ValidFrame(f) && d == Dimensions(f.width, f.height)
    ensures bytes[offset..] == EncodeFrame(f) + rest
  {
    FrameChecked(bytes, offset, d);
    var j := RunEnd(bytes, offset);
    var end := SegmentEnd(bytes, j + 1).value;
    var s := bytes[j + 1..end];
    LengthFirst(bytes, j + 1, end);
    MarkersAgree(bytes[j]);
    f := FieldsEncode(s, j - offset, bytes[j], d);
    rest := bytes[end..];
    OpeningFound(bytes, offset);
    JoinRest(bytes, j + 1, end);
    Assoc(Opening(j - offset, bytes[j]), s, rest);
  }

  lemma {:induction false} Sound(bytes: Bytes, offset: nat, d: Dimensions)
    returns (segments: seq<Segment>, f: Frame, rest: Bytes)
    requires offset <= |bytes| && Walk(bytes, offset) == Some(d)
    ensures Derives(bytes[offset..], d, segments, f, rest)
    decreases |bytes| - offset
  {
    var turn := TurnAt(bytes, offset);
    if turn.Stop? {
      f, rest := FrameRead(bytes, offset, d);
      segments := [];
      assert bytes[offset..] == EncodeSegments([]) + (EncodeFrame(f) + rest);
    } else {
      segments, f, rest := Sound(bytes, turn.next, d);
      var s := SegmentFound(bytes, offset, turn.next);
      Prepend(bytes[offset..], s, bytes[turn.next..], d, segments, f, rest);
      segments := [s] + segments;
    }
  }

  /** The walk answers `d` exactly when the grammar derives `d`. */
  lemma WalkIsGrammar(bytes: Bytes, offset: nat)
    requires offset <= |bytes|
    ensures forall d :: Walk(bytes, offset) == Some(d) <==> Tail(bytes[offset..], d)
  {
    forall d ensures Walk(bytes, offset) == Some(d) <==> Tail(bytes[offset..], d) {
      if segments, f, rest :| Derives(bytes[offset..], d, segments, f, rest) {
        Complete(bytes, offset, d, segments, f, rest);
      }
      if Walk(bytes, offset) == Some(d) {
        var segments, f, rest := Sound(bytes, offset, d);
      }
    }
  }

  /** No byte string declares two sizes. */
  lemma DimensionsUnique(bytes: Bytes, d: Dimensions, d': Dimensions)
    requires JpegStream(bytes, d) && JpegStream(bytes, d')
    ensures d == d'
  {
    WalkIsGrammar(bytes, 2);
  }

  // ----- the walk, read off the bytes -----

  /** Two bytes, the high one first. */
  function Word(hi: Byte, lo: Byte): nat {
    256 * (hi as int) + lo as int
  }

  /** A fill byte before a marker makes no difference. */
  lemma FillByBytes(bytes: Bytes, i: nat)
    requires i + 1 < |bytes| && bytes[i] == 0xFF && bytes[i + 1] == 0xFF
    ensures Walk(bytes, i) == Walk(bytes, i + 1)
  {
    assert RunEnd(bytes, i) == RunEnd(bytes, i + 1);
  }

  lemma MarkerAt(bytes: Bytes, i: nat)
    requires i + 1 < |bytes| && bytes[i] == 0xFF && bytes[i + 1] != 0xFF
    ensures RunEnd(bytes, i) == i + 1
  {
    RunEndIs(bytes, i, i + 1);
  }

  lemma LoneByBytes(bytes: Bytes, i: nat)
    requires i + 1 < |bytes| && bytes[i] == 0xFF
    requires bytes[i + 1] == 0x01 || 0xD0 <= bytes[i + 1] <= 0xD7
    ensures Walk(bytes, i) == Walk(bytes, i + 2)
  {
    MarkerAt(bytes, i);
  }

  /** A segment is as long as its length bytes say, which count themselves; DHT, JPG and DAC are such segments. */
  lemma SegmentByBytes(bytes: Bytes, i: nat)
    requires i + 4 <= |bytes| && bytes[i] == 0xFF
    requires var m := bytes[i + 1];
             0x02 <= m <= 0xBF || m == 0xC4 || m == 0xC8 || m == 0xCC || 0xDB <= m <= 0xFE
    ensures var n := Word(bytes[i + 2], bytes[i + 3]);
            Walk(bytes, i) == if 2 <= n && i + 2 + n <= |bytes| then Walk(bytes, i + 2 + n) else None
  {
    MarkerAt(bytes, i);
  }

  /** A whole frame header declares its size if its length fits its components and its precision is 8 or 12. */
  lemma FrameByBytes(bytes: Bytes, i: nat)
    requires i + 4 <= |bytes| && bytes[i] == 0xFF
    requires bytes[i + 1] in {0xC0, 0xC1, 0xC2, 0xC3, 0xC5, 0xC6, 0xC7, 0xC9, 0xCA, 0xCB, 0xCD, 0xCE, 0xCF}
    ensures var n := Word(bytes[i + 2], bytes[i + 3]);
            Walk(bytes, i) ==
              if n < 8 || i + 2 + n > |bytes| then None
              else
                var height, width := Word(bytes[i + 5], bytes[i + 6]), Word(bytes[i + 7], bytes[i + 8]);
                if (bytes[i + 4] == 8 || bytes[i + 4] == 12) && height > 0 && width > 0
                   && bytes[i + 9] > 0 && n == 8 + 3 * (bytes[i + 9] as int)
                then Some(Dimensions(width, height)) else None
  {
    MarkerAt(bytes, i);
    var n := Word(bytes[i + 2], bytes[i + 3]);
    if 2 <= n && i + 2 + n <= |bytes| {
      var data := bytes[i + 2..i + 2 + n];
      assert TurnAt(bytes, i) == Stop(FrameDimensions(data));
      assert forall k :: 0 <= k < n ==> data[k] == bytes[i + 2 + k];
    }
  }

  /** Anything else ends the walk without an answer. */
  lemma RefusedByBytes(bytes: Bytes, i: nat)
    requires i < |bytes|
    requires || bytes[i] != 0xFF || i + 1 == |bytes|
             || bytes[i + 1] in {0x00, 0xD8, 0xD9, 0xDA}
             || (i + 4 > |bytes| && bytes[i + 1] != 0x01 && bytes[i + 1] != 0xFF && !(0xD0 <= bytes[i + 1] <= 0xD7))
    ensures Walk(bytes, i) == None
  {
    if bytes[i] == 0xFF && i + 1 < |bytes| && bytes[i + 1] != 0xFF {
      MarkerAt(bytes, i);
    }
  }

  lemma SmallestRead(bytes: Bytes, m: Byte, height: nat, width: nat)
    requires |bytes| == 15 && bytes[0] == 0xFF && bytes[1] == 0xD8 && bytes[2] == 0xFF && bytes[3] == m
    requires m in {0xC0, 0xC1, 0xC2, 0xC3, 0xC5, 0xC6, 0xC7, 0xC9, 0xCA, 0xCB, 0xCD, 0xCE, 0xCF}
    requires bytes[4] == 0 && bytes[5] == 11 && bytes[6] == 8 && bytes[11] == 1
    requires height == Word(bytes[7], bytes[8]) > 0 && width == Word(bytes[9], bytes[10]) > 0
    ensures JpegStream(bytes, Dimensions(width, height))
  {
    FrameByBytes(bytes, 2);
    WalkIsGrammar(bytes, 2);
  }

  /** The smallest image of every kind of frame and of every size. */
  lemma SmallestImage(m: Byte, h1: Byte, h0: Byte, w1: Byte, w0: Byte)
    requires m in {0xC0, 0xC1, 0xC2, 0xC3, 0xC5, 0xC6, 0xC7, 0xC9, 0xCA, 0xCB, 0xCD, 0xCE, 0xCF}
    requires (h1 != 0 || h0 != 0) && (w1 != 0 || w0 != 0)
    ensures JpegStream([0xFF, 0xD8, 0xFF, m, 0, 11, 8, h1, h0, w1, w0, 1, 1, 0x11, 0],
                       Dimensions(256 * (w1 as int) + w0 as int, 256 * (h1 as int) + h0 as int))
  {
    var bytes: Bytes := [0xFF, 0xD8, 0xFF, m, 0, 11, 8, h1, h0, w1, w0, 1, 1, 0x11, 0];
    SmallestRead(bytes, m, Word(h1, h0), Word(w1, w0));
  }
}
