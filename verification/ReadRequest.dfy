/**
  `read_request` reads one line from a buffered reader, buffer by buffer, and
  refuses a line that is too long. The JSON parse of the line is left out: the
  answer here is the line's text.
 */
module ReadRequest {
  import opened Common
  import opened Utf8

  const MAX_REQUEST_LINE_BYTES := 1024 * 1024

  const NEWLINE: Byte := 0x0A

  /** What follows the last buffer. */
  datatype End = Eof | Broken

  datatype Outcome = NoRequest | TooLarge | IoError | Line(text: Text)

  /** Where the first newline is. */
  function FirstNewline(s: Bytes): (p: Option<nat>)
    ensures p.None? ==> NEWLINE !in s
    ensures p.Some? ==> p.value < |s| && s[p.value] == NEWLINE && NEWLINE !in s[..p.value]
  {
    if s == [] then None
    else if s[0] == NEWLINE then Some(0)
    else match FirstNewline(s[1..])
         case None => None
         case Some(p) => Some(p + 1)
  }

  /** A buffered reader: the buffers that it will fill, whatever their sizes, and how the stream ends. */
  class BufReader {
    var buffers: seq<Bytes>
    const end: End

    ghost predicate Valid()
      reads this
    {
      forall k :: 0 <= k < |buffers| ==> buffers[k] != []
    }

    /** The bytes that remain, however they are buffered. */
    ghost function Stream(): Bytes
      reads this
    {
      Flatten(buffers)
    }

    /** The filled buffer, which is empty at the end of the stream, or None for an I/O error. */
    method FillBuf() returns (buf: Option<Bytes>)
      requires Valid()
      ensures buffers != [] ==> buf == Some(buffers[0])
      ensures buffers == [] ==> buf == if end.Eof? then Some([]) else None
    {
      if buffers != [] {
        buf := Some(buffers[0]);
      } else if end.Eof? {
        buf := Some([]);
      } else {
        buf := None;
      }
    }

    method Consume(n: nat)
      requires Valid() && buffers != [] && n <= |buffers[0]|
      modifies this`buffers
      ensures Valid()
      ensures Stream() == old(Stream())[n..]
      ensures n == |old(buffers[0])| ==> buffers == old(buffers)[1..]
    {
      DropInside(buffers[0], Flatten(buffers[1..]), n);
      if n == |buffers[0]| {
        buffers := buffers[1..];
      } else {
        ghost var rest := buffers[1..];
        buffers := [buffers[0][n..]] + buffers[1..];
        assert buffers[1..] == rest;
      }
    }
  }

  // ----- what the reader answers, in terms of the bytes alone -----

  /** `rest` is `s` without its first bytes, of which there were more than the limit and no more than `most`. */
  ghost predicate ConsumedTooMany(s: Bytes, rest: Bytes, most: nat) {
    && |rest| <= |s| && rest == s[|s| - |rest|..]
    && MAX_REQUEST_LINE_BYTES < |s| - |rest| <= most
  }

  /**
    The answer to a stream `s`, and what remains of it: a line that fits is
    consumed exactly through its newline; a longer one, or a longer tail, is
    refused; a stream with nothing left holds no request.
   */
  ghost predicate Answers(s: Bytes, end: End, rest: Bytes, outcome: Outcome) {
    match FirstNewline(s)
    case Some(p) =>
      if p + 1 <= MAX_REQUEST_LINE_BYTES
      then outcome.Line? && rest == s[p + 1..]
      else outcome.TooLarge? && ConsumedTooMany(s, rest, p + 1)
    case None =>
      if |s| > MAX_REQUEST_LINE_BYTES
      then outcome.TooLarge? && ConsumedTooMany(s, rest, |s|)
      else rest == [] && (if end.Broken? then outcome.IoError?
                          else if s == [] then outcome.NoRequest?
                          else outcome.Line?)
  }

  /** The first `n` bytes, cut up as the buffers cut them. */
  function Clip(buffers: seq<Bytes>, n: nat): seq<Bytes> {
    if buffers == [] || n == 0 then []
    else if n <= |buffers[0]| then [buffers[0][..n]]
    else [buffers[0]] + Clip(buffers[1..], n - |buffers[0]|)
  }

  /** The answer and what remains, with the text put together from the buffers that held the line. */
  ghost predicate Reads(buffers: seq<Bytes>, end: End, rest: Bytes, outcome: Outcome) {
    var s := Flatten(buffers);
    && Answers(s, end, rest, outcome)
    && (outcome.Line? ==> |rest| <= |s| && outcome.text == Assembled(Clip(buffers, |s| - |rest|)))
  }

  method ReadRequest(reader: BufReader) returns (outcome: Outcome)
    requires reader.Valid()
    modifies reader`buffers
    ensures reader.Valid()
    ensures Reads(old(reader.buffers), reader.end, reader.Stream(), outcome)
  {
    var line: Text := [];
    var total := 0;
    ghost var all, i := reader.buffers, 0;
    while true
      invariant reader.Valid()
      invariant Seen(all, i, line, total) && reader.buffers == all[i..]
      decreases |all| - i
    {
      var filled := reader.FillBuf();
      if filled.None? {
        AtEnd(all, i, line, total, reader.end);
        return IoError;
      }
      var buf := filled.value;
      if buf == [] {
        AtEnd(all, i, line, total, reader.end);
        if total == 0 {
          return NoRequest;
        }
        break;
      }
      var newline := FirstNewline(buf);
      if newline.Some? {
        var chunk := buf[..newline.value + 1];
        LineEnds(all, i, line, total, newline.value, reader.end);
        total := total + |chunk|;
        reader.Consume(newline.value + 1);
        if total > MAX_REQUEST_LINE_BYTES {
          return TooLarge;
        }
        line := line + Lossy(chunk);
        break;
      } else {
        total := total + |buf|;
        if total > MAX_REQUEST_LINE_BYTES {
          Overflows(all, i, line, total - |buf|, reader.end);
          reader.Consume(|buf|);
          return TooLarge;
        }
        OneMore(all, i, line, total - |buf|);
        line := line + Lossy(buf);
        reader.Consume(|buf|);
        i := i + 1;
      }
    }
    outcome := Line(line);
  }

  // ----- the steps of the loop -----

  lemma {:induction false} FlattenSplit(pieces: seq<Bytes>, i: nat)
    requires i <= |pieces|
    ensures Flatten(pieces) == Flatten(pieces[..i]) + Flatten(pieces[i..])
  {
    if i > 0 {
      FlattenSplit(pieces[1..], i - 1);
      assert pieces[..i][1..] == pieces[1..][..i - 1] && pieces[i..] == pieces[1..][i - 1..];
      Assoc(pieces[0], Flatten(pieces[1..][..i - 1]), Flatten(pieces[i..]));
    } else {
      assert pieces[0..] == pieces;
    }
  }

  lemma {:induction false} Snoc(pieces: seq<Bytes>, last: Bytes)
    ensures Flatten(pieces + [last]) == Flatten(pieces) + last
    ensures Assembled(pieces + [last]) == Assembled(pieces) + Lossy(last)
  {
    if pieces == [] {
      assert pieces + [last] == [last] && [last][1..] == [];
    } else {
      Snoc(pieces[1..], last);
      assert (pieces + [last])[1..] == pieces[1..] + [last];
      Assoc(pieces[0], Flatten(pieces[1..]), last);
      TextAssoc(Lossy(pieces[0]), Assembled(pieces[1..]), Lossy(last));
    }
  }

  lemma {:induction false} ClipAt(pieces: seq<Bytes>, i: nat, m: nat)
    requires i < |pieces| && 0 < m <= |pieces[i]|
    ensures Clip(pieces, |Flatten(pieces[..i])| + m) == pieces[..i] + [pieces[i][..m]]
  {
    if i > 0 {
      ClipAt(pieces[1..], i - 1, m);
      assert pieces[..i][1..] == pieces[1..][..i - 1];
      assert pieces[..i] == [pieces[0]] + pieces[1..][..i - 1];
    }
  }

  lemma {:induction false} ClipAll(pieces: seq<Bytes>)
    requires forall k :: 0 <= k < |pieces| ==> pieces[k] != []
    ensures Clip(pieces, |Flatten(pieces)|) == pieces
  {
    if pieces != [] {
      var rest := pieces[1..];
      ClipAll(rest);
      assert pieces == [pieces[0]] + rest;
      if rest != [] {
        assert rest[0] != [] && Flatten(rest) != [];
      } else {
        assert Flatten(pieces) == pieces[0] && pieces[0][..|pieces[0]|] == pieces[0];
      }
    }
  }

  lemma {:induction false} FlattenClip(pieces: seq<Bytes>, n: nat)
    requires n <= |Flatten(pieces)|
    ensures Flatten(Clip(pieces, n)) == Flatten(pieces)[..n]
  {
    if pieces != [] && n > 0 {
      if n <= |pieces[0]| {
        assert [pieces[0][..n]][1..] == [];
      } else {
        FlattenClip(pieces[1..], n - |pieces[0]|);
      }
    }
  }

  lemma DropInside(a: Bytes, b: Bytes, n: nat)
    requires n <= |a|
    ensures (a + b)[n..] == a[n..] + b
  {
  }

  lemma {:induction false} NewlineAt(s: Bytes, p: nat)
    requires p < |s| && s[p] == NEWLINE && NEWLINE !in s[..p]
    ensures FirstNewline(s) == Some(p)
  {
    if p > 0 {
      assert s[..p][0] == s[0] && s[1..][..p - 1] == s[..p][1..];
      NewlineAt(s[1..], p - 1);
    }
  }

  lemma {:induction false} NewlineNotBefore(s: Bytes, m: nat)
    requires m <= |s| && NEWLINE !in s[..m] && FirstNewline(s).Some?
    ensures m <= FirstNewline(s).value
  {
    if m > 0 {
      assert s[..m][0] == s[0] && s[1..][..m - 1] == s[..m][1..];
      NewlineNotBefore(s[1..], m - 1);
    }
  }

  /** Where the loop stands after `i` whole buffers, none of which holds a newline. */
  ghost predicate Seen(all: seq<Bytes>, i: nat, line: Text, total: int) {
    && i <= |all|
    && (forall k :: 0 <= k < |all| ==> all[k] != [])
    && line == Assembled(all[..i])
    && total == |Flatten(all[..i])| <= MAX_REQUEST_LINE_BYTES
    && NEWLINE !in Flatten(all[..i])
  }

  /** The stream is over: its bytes are the ones already seen. */
  lemma AtEnd(all: seq<Bytes>, i: nat, line: Text, total: int, end: End)
    requires Seen(all, i, line, total) && all[i..] == []
    ensures Flatten(all[i..]) == [] && (total == 0 <==> Flatten(all) == [])
    ensures Reads(all, end, [], if end.Broken? then IoError else if total == 0 then NoRequest else Line(line))
  {
    assert all[..i] == all;
    ClipAll(all);
  }

  lemma AroundBuffer(all: seq<Bytes>, i: nat)
    requires i < |all|
    ensures var seen, later := Flatten(all[..i]), Flatten(all[i + 1..]);
            && Flatten(all[i..]) == all[i] + later
            && Flatten(all) == seen + (all[i] + later)
  {
    FlattenSplit(all, i);
    assert all[i..][1..] == all[i + 1..];
  }

  lemma LineEnds(all: seq<Bytes>, i: nat, line: Text, total: int, p: nat, end: End)
    requires Seen(all, i, line, total) && i < |all| && FirstNewline(all[i]) == Some(p)
    ensures p < |Flatten(all[i..])|
    ensures Reads(all, end, Flatten(all[i..])[p + 1..],
                  if total + p + 1 > MAX_REQUEST_LINE_BYTES then TooLarge
                  else Line(line + Lossy(all[i][..p + 1])))
  {
    AroundBuffer(all, i);
    LineText(all, i, p + 1);
    LineAnswer(Flatten(all), Flatten(all[..i]), all[i], Flatten(all[i + 1..]), p, end, line + Lossy(all[i][..p + 1]));
  }

  lemma LineAnswer(s: Bytes, seen: Bytes, buf: Bytes, later: Bytes, p: nat, end: End, text: Text)
    requires s == seen + (buf + later) && NEWLINE !in seen && FirstNewline(buf) == Some(p)
    requires |seen| <= MAX_REQUEST_LINE_BYTES
    ensures var rest := (buf + later)[p + 1..];
            && Answers(s, end, rest, if |seen| + p + 1 > MAX_REQUEST_LINE_BYTES then TooLarge else Line(text))
            && |s| - |rest| == |seen| + p + 1
  {
    NewlineInside(seen, buf, later, p);
  }

  lemma LineText(all: seq<Bytes>, i: nat, m: nat)
    requires i < |all| && 0 < m <= |all[i]|
    ensures Assembled(Clip(all, |Flatten(all[..i])| + m)) == Assembled(all[..i]) + Lossy(all[i][..m])
  {
    ClipAt(all, i, m);
    Snoc(all[..i], all[i][..m]);
  }

  lemma NewlineInside(seen: Bytes, buf: Bytes, later: Bytes, p: nat)
    requires NEWLINE !in seen && FirstNewline(buf) == Some(p)
    ensures var s := seen + (buf + later);
            && FirstNewline(s) == Some(|seen| + p)
            && s[|seen| + p + 1..] == (buf + later)[p + 1..]
  {
    var s := seen + (buf + later);
    assert s[..|seen| + p] == seen + buf[..p];
    NewlineAt(s, |seen| + p);
  }

  lemma Overflows(all: seq<Bytes>, i: nat, line: Text, total: int, end: End)
    requires Seen(all, i, line, total) && i < |all| && NEWLINE !in all[i]
    requires total + |all[i]| > MAX_REQUEST_LINE_BYTES
    ensures |all[i]| <= |Flatten(all[i..])|
    ensures Reads(all, end, Flatten(all[i..])[|all[i]|..], TooLarge)
  {
    AroundBuffer(all, i);
    NoNewlineInside(Flatten(all[..i]), all[i], Flatten(all[i + 1..]));
  }

  lemma NoNewlineInside(seen: Bytes, buf: Bytes, later: Bytes)
    requires NEWLINE !in seen && NEWLINE !in buf
    ensures var s, n := seen + (buf + later), |seen| + |buf|;
            && (FirstNewline(s).Some? ==> n <= FirstNewline(s).value)
            && s[n..] == (buf + later)[|buf|..]
  {
    var s := seen + (buf + later);
    if FirstNewline(s).Some? {
      assert s[..|seen| + |buf|] == seen + buf;
      NewlineNotBefore(s, |seen| + |buf|);
    }
  }

  lemma OneMore(all: seq<Bytes>, i: nat, line: Text, total: int)
    requires Seen(all, i, line, total) && i < |all| && NEWLINE !in all[i]
    requires total + |all[i]| <= MAX_REQUEST_LINE_BYTES
    ensures all[i..][1..] == all[i + 1..]
    ensures Seen(all, i + 1, line + Lossy(all[i]), total + |all[i]|)
  {
    assert all[..i + 1] == all[..i] + [all[i]];
    Snoc(all[..i], all[i]);
  }

  // ----- what the answer means -----

  /** Two readers of the same bytes answer alike, and an accepted line leaves the same bytes, whatever the buffers. */
  lemma BufferingDoesNotMatter(s: Bytes, end: End, rest: Bytes, outcome: Outcome, rest': Bytes, outcome': Outcome)
    requires Answers(s, end, rest, outcome) && Answers(s, end, rest', outcome')
    ensures outcome.Line? <==> outcome'.Line?
    ensures outcome.TooLarge? <==> outcome'.TooLarge?
    ensures outcome.NoRequest? <==> outcome'.NoRequest?
    ensures outcome.IoError? <==> outcome'.IoError?
    ensures !outcome.TooLarge? ==> rest == rest'
  {
  }

  /** The first `n` bytes are over the limit of 1 MiB, and no newline ends them before the last. */
  ghost predicate TooLong(s: Bytes, n: nat) {
    1_048_576 < n <= |s| && 0x0A !in s[..n - 1]
  }

  /** Refused exactly when the line with its newline, or the tail that no newline ends, is over the limit. */
  lemma TooLargeExactly(s: Bytes, end: End, rest: Bytes, outcome: Outcome)
    requires Answers(s, end, rest, outcome)
    ensures outcome.TooLarge? <==> exists n :: TooLong(s, n)
  {
    if outcome.TooLarge? {
      assert TooLong(s, |s| - |rest|);
    }
    if n: nat :| TooLong(s, n) && FirstNewline(s).Some? {
      NewlineNotBefore(s, n - 1);
    }
  }

  /**
    The text of the first `n` bytes is what decoding them at once gives, exactly
    when no buffer starts inside one of their characters.
   */
  lemma TextOfLine(buffers: seq<Bytes>, n: nat)
    requires n <= |Flatten(buffers)|
    ensures Assembled(Clip(buffers, n)) == Lossy(Flatten(buffers)[..n]) <==> CutAtUnits(Clip(buffers, n))
  {
    FlattenClip(buffers, n);
    AssembledIsWhole(Clip(buffers, n));
  }

  /** An ASCII line is read as it is, whatever the buffers. */
  lemma TextOfAsciiLine(buffers: seq<Bytes>, n: nat)
    requires n <= |Flatten(buffers)| && IsAscii(Flatten(buffers)[..n])
    ensures Assembled(Clip(buffers, n)) == AsciiText(Flatten(buffers)[..n])
  {
    FlattenClip(buffers, n);
    AssembledAscii(Clip(buffers, n));
  }

  /** The other answers: a line ends with its newline or the stream, and no byte after it is consumed. */
  lemma AnswersMean(s: Bytes, end: End, rest: Bytes, outcome: Outcome)
    requires Answers(s, end, rest, outcome)
    ensures outcome.NoRequest? <==> s == [] && end.Eof?
    ensures outcome.IoError? <==> end.Broken? && 0x0A !in s && |s| <= 1_048_576
    ensures outcome.Line? ==>
              var n := |s| - |rest|;
              && 1 <= n <= 1_048_576 && rest == s[n..] && 0x0A !in s[..n - 1]
              && (s[n - 1] == 0x0A || (rest == [] && end.Eof?))
  {
    if outcome.Line? && FirstNewline(s).None? {
      assert s[|s|..] == [];
    }
  }
}
