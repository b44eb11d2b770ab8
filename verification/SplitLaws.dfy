/**
 How little the deliveries matter.  The reading of a stream depends on where it was
 cut at one place only, between the CR and the LF of the blank line, and a cut
 there always shows.  A shorter stream never reads differently, only less far.
 */
module SplitLaws {
  import opened Bytes
  import opened Numbers
  import opened MessageSpec
  import PV = ParserView

  /** Where the header lines that start at i end: the offset of the blank line, if the headers are complete and good. */
  function BlankLine(s: bytes, i: nat): (r: Option<nat>)
    ensures r.Some? ==> i <= r.value && CrlfAt(s, r.value)
    decreases |s| - i
  {
    match FirstCrlf(s, i)
    case None => None
    case Some(j) =>
      if j == i then Some(i)
      else if HeaderLine(s[i..j]).HeaderOk? then BlankLine(s, j + 2)
      else None
  }

  /** The framing in force at the blank line. */
  function FrameAt(s: bytes, i: nat, frame: Frame): Frame
    decreases |s| - i
  {
    match FirstCrlf(s, i)
    case None => frame
    case Some(j) =>
      if j == i then frame
      else
        match HeaderLine(s[i..j])
        case HeaderOk(name, value) => FrameAt(s, j + 2, Framing(frame, name, value))
        case _ => frame
  }

  /** The headers reported before the blank line, or before the reading stops. */
  function HeadersAt(s: bytes, i: nat): seq<Event>
    decreases |s| - i
  {
    match FirstCrlf(s, i)
    case None => []
    case Some(j) =>
      if j == i then []
      else
        match HeaderLine(s[i..j])
        case HeaderOk(name, value) => [HeaderEvent(name, value)] + HeadersAt(s, j + 2)
        case _ => []
  }

  /** A good header line ends at j. */
  predicate HeaderEndsAt(s: bytes, i: nat, j: nat, name: bytes, value: bytes) {
    i < j < |s| && FirstCrlf(s, i) == Some(j) && HeaderLine(s[i..j]) == HeaderOk(name, value)
  }

  lemma {:induction false} BlankLineStep(s: bytes, i: nat, j: nat, name: bytes, value: bytes)
    requires HeaderEndsAt(s, i, j, name, value)
    ensures BlankLine(s, i) == BlankLine(s, j + 2)
  {
    hide HeaderLine, FirstCrlf;
  }

  lemma {:induction false} HeadersAtStep(s: bytes, i: nat, j: nat, name: bytes, value: bytes)
    requires HeaderEndsAt(s, i, j, name, value)
    ensures HeadersAt(s, i) == [HeaderEvent(name, value)] + HeadersAt(s, j + 2)
  {
    hide HeaderLine, FirstCrlf;
  }

  lemma {:induction false} FrameAtStep(s: bytes, i: nat, j: nat, name: bytes, value: bytes, frame: Frame)
    requires HeaderEndsAt(s, i, j, name, value)
    ensures FrameAt(s, i, frame) == FrameAt(s, j + 2, Framing(frame, name, value))
  {
    hide HeaderLine, FirstCrlf, Framing;
  }

  /** Once the blank line is there, the reading is its headers followed by the body, which starts where the cut says. */
  lemma {:induction false} ReadingSplitsAtBlank(s: bytes, cuts: set<int>, i: nat, frame: Frame)
    requires BlankLine(s, i).Some?
    ensures FromHeaders(s, cuts, i, frame)
            == Prepend(HeadersAt(s, i), FromBody(s, BodyStart(cuts, BlankLine(s, i).value), FrameAt(s, i, frame)))
    decreases |s| - i
  {
    hide HeaderLine, Framing, FromBody;
    var j := FirstCrlf(s, i).value;
    if j != i {
      var HeaderOk(name, value) := HeaderLine(s[i..j]);
      var frame' := Framing(frame, name, value);
      ReadingSplitsAtBlank(s, cuts, j + 2, frame');
      PrependTwice([HeaderEvent(name, value)], HeadersAt(s, j + 2),
                   FromBody(s, BodyStart(cuts, BlankLine(s, i).value), FrameAt(s, j + 2, frame')));
    }
  }

  /** Without a blank line the cuts are never looked at. */
  lemma {:induction false} NoBlankNoCuts(s: bytes, cuts: set<int>, i: nat, frame: Frame)
    requires BlankLine(s, i).None?
    ensures FromHeaders(s, cuts, i, frame) == FromHeaders(s, {}, i, frame)
    ensures !FromHeaders(s, cuts, i, frame).verdict.Done?
    decreases |s| - i
  {
    hide HeaderLine, Framing, FromBody;
    match FirstCrlf(s, i)
    case None =>
    case Some(j) =>
      match HeaderLine(s[i..j])
      case HeaderOk(name, value) => NoBlankNoCuts(s, cuts, j + 2, Framing(frame, name, value));
      case _ =>
  }

  /** The blank line of a whole message. */
  function MessageBlank(cfg: Config, s: bytes, i: nat): Option<nat> {
    match FirstCrlf(s, i)
    case None => None
    case Some(j) => if FirstLine(cfg, s[i..j]).LineOk? then BlankLine(s, j + 2) else None
  }

  /** The framing a whole message declares. */
  function MessageFrame(cfg: Config, s: bytes, i: nat, frame: Frame): Frame {
    match FirstCrlf(s, i)
    case None => frame
    case Some(j) => FrameAt(s, j + 2, frame)
  }

  /** No delivery ends between the CR and the LF of the blank line. */
  predicate Whole(blank: Option<nat>, cuts: set<int>) {
    blank.Some? ==> blank.value + 1 !in cuts
  }

  predicate BlankLineWhole(cfg: Config, s: bytes, cuts: set<int>, i: nat) {
    Whole(MessageBlank(cfg, s, i), cuts)
  }

  /** Split independence: with the blank line whole, the reading is that of a stream delivered in one piece. */
  lemma {:induction false} SplitIndependence(cfg: Config, s: bytes, cuts: set<int>, i: nat, frame: Frame)
    requires BlankLineWhole(cfg, s, cuts, i)
    ensures FromLine(cfg, s, cuts, i, frame) == FromLine(cfg, s, {}, i, frame)
  {
    hide FirstLine, FromHeaders, FirstCrlf, FromBody, BlankLine, HeadersAt, FrameAt;
    match FirstCrlf(s, i)
    case None =>
    case Some(j) =>
      if FirstLine(cfg, s[i..j]).LineOk? {
        if BlankLine(s, j + 2).Some? {
          ReadingSplitsAtBlank(s, cuts, j + 2, frame);
          ReadingSplitsAtBlank(s, {}, j + 2, frame);
        } else {
          NoBlankNoCuts(s, cuts, j + 2, frame);
        }
      }
  }

  /** A message that reads to its end has a good first line and a blank line. */
  lemma {:induction false} DoneHasBlank(cfg: Config, s: bytes, cuts: set<int>, i: nat, frame: Frame)
    requires FromLine(cfg, s, cuts, i, frame).verdict.Done?
    ensures MessageBlank(cfg, s, i).Some?
    ensures var b := MessageBlank(cfg, s, i).value;
            FromLine(cfg, s, cuts, i, frame).verdict
            == FromBody(s, BodyStart(cuts, b), MessageFrame(cfg, s, i, frame)).verdict
  {
    hide FirstLine, FromHeaders, FirstCrlf, FromBody, BodyStart, BlankLine, HeadersAt, FrameAt;
    var j := FirstCrlf(s, i).value;
    if BlankLine(s, j + 2).None? {
      NoBlankNoCuts(s, cuts, j + 2, frame);
    } else {
      ReadingSplitsAtBlank(s, cuts, j + 2, frame);
    }
  }

  /** The first chunk-size line of a body that starts at `at`. */
  function SizeLine(s: bytes, at: nat): bytes {
    match FirstCrlf(s, at)
    case None => []
    case Some(j) => s[at..j]
  }

  /** The size line reads the same without its first byte: a leading zero, blank or plus sign. */
  predicate FirstByteIdle(s: bytes, at: nat) {
    SizeLine(s, at) != [] && ChunkSize(SizeLine(s, at)[1..]) == ChunkSize(SizeLine(s, at))
  }

  lemma {:induction false} ChunkDataSizes(s: bytes, at: nat, m: nat, t: int, n: nat, u: int)
    requires m != n && FromChunkData(s, at, m, t).verdict.Done?
    ensures FromChunkData(s, at, n, u) != FromChunkData(s, at, m, t)
  {
    hide FromChunks;
    var o := FromChunkData(s, at, m, t);
    assert o.events[0] == BodyEvent(s[at..at + m], m);
    if at + n < |s| {
      assert FromChunkData(s, at, n, u).events[0] == BodyEvent(s[at..at + n], n);
    }
  }

  /** A chunked body read one byte too late. */
  lemma {:induction false} ChunksShifted(s: bytes, at: nat, total: int)
    requires FromChunks(s, at, total).verdict.Done?
    ensures FromChunks(s, at + 1, total) == FromChunks(s, at, total) <==> FirstByteIdle(s, at)
  {
    hide ChunkSize, FromChunkData, ToInt32;
    var j := FirstCrlf(s, at).value;
    var line := s[at..j];
    assert line != [];
    assert FirstCrlf(s, at + 1) == Some(j);
    assert s[at + 1..j] == line[1..];
    match ChunkSize(line[1..])
    case SizeOk(n) =>
      var m := ChunkSize(line).size;
      if m != n {
        ChunkDataSizes(s, j + 2, m, ToInt32(total + m), n, ToInt32(total + n));
      }
    case _ =>
  }

  /** A body read one byte too late: a declared length always shows it, a chunked body unless the first byte is idle. */
  lemma {:induction false} BodyShifted(s: bytes, at: nat, frame: Frame)
    requires FromBody(s, at, frame).verdict.Done?
    ensures FromBody(s, at + 1, frame) == FromBody(s, at, frame) <==> frame.chunked && FirstByteIdle(s, at)
  {
    hide FromChunks, FirstByteIdle;
    if frame.chunked {
      ChunksShifted(s, at, frame.bodysz);
    }
  }

  lemma {:induction false} PrependSame(events: seq<Event>, o: Outcome, o': Outcome)
    ensures Prepend(events, o) == Prepend(events, o') <==> o == o'
  {
    if Prepend(events, o) == Prepend(events, o') {
      assert o.events == (events + o.events)[|events|..] == (events + o'.events)[|events|..] == o'.events;
    }
  }

  /**
   The exact condition, for every message that is complete when delivered in one
   piece: it reads the same from a cut stream if and only if no delivery ended
   inside its blank line, or its body is chunked and the first size line reads the
   same without its first byte.
   */
  lemma {:induction false} SplitIndependenceExact(cfg: Config, s: bytes, cuts: set<int>, i: nat, frame: Frame)
    requires FromLine(cfg, s, {}, i, frame).verdict.Done?
    ensures MessageBlank(cfg, s, i).Some?
    ensures FromLine(cfg, s, cuts, i, frame) == FromLine(cfg, s, {}, i, frame)
            <==> || BlankLineWhole(cfg, s, cuts, i)
                 || (MessageFrame(cfg, s, i, frame).chunked && FirstByteIdle(s, MessageBlank(cfg, s, i).value + 2))
  {
    hide FirstLine, FirstCrlf, FromBody, FirstByteIdle, FromHeaders, BlankLine, HeadersAt, FrameAt;
    DoneHasBlank(cfg, s, {}, i, frame);
    var j, b := FirstCrlf(s, i).value, MessageBlank(cfg, s, i).value;
    var frame' := FrameAt(s, j + 2, frame);
    ReadingSplitsAtBlank(s, cuts, j + 2, frame);
    ReadingSplitsAtBlank(s, {}, j + 2, frame);
    BodyShifted(s, b + 2, frame');
    var line := [LineEvent(FirstLine(cfg, s[i..j]).line)];
    var o, o' := FromBody(s, BodyStart(cuts, b), frame'), FromBody(s, b + 2, frame');
    PrependSame(HeadersAt(s, j + 2), o, o');
    PrependSame(line, FromHeaders(s, cuts, j + 2, frame), FromHeaders(s, {}, j + 2, frame));
  }

  // ---------------------------------------------------------------- shorter streams

  /** o is what is known of o' before the rest of the stream arrives. */
  predicate Partial(o: Outcome, o': Outcome) {
    o == o' || (o.verdict == Truncated && o.events <= o'.events)
  }

  lemma {:induction false} PartialPrepend(events: seq<Event>, o: Outcome, o': Outcome)
    requires Partial(o, o')
    ensures Partial(Prepend(events, o), Prepend(events, o'))
  {
  }

  /**
   o is the reading of a stream of which n bytes are there, o' of the whole: o is
   partial, and it is already all of o' if the message ends within the n bytes.
   */
  predicate Online(o: Outcome, o': Outcome, n: nat) {
    Partial(o, o') && (o'.verdict.Done? && o'.verdict.bodysz >= 0 && o'.verdict.end <= n ==> o == o')
  }

  lemma {:induction false} OnlinePrepend(events: seq<Event>, o: Outcome, o': Outcome, n: nat)
    requires Online(o, o', n)
    ensures Online(Prepend(events, o), Prepend(events, o'), n)
  {
    PartialPrepend(events, o, o');
  }

  lemma {:induction false} OnlineChunks(t: bytes, s: bytes, at: nat, total: int)
    requires t <= s
    ensures Online(FromChunks(t, at, total), FromChunks(s, at, total), |t|)
    decreases |s| - at, 1
  {
    hide ChunkSize, ToInt32, FirstCrlf;
    FirstCrlfStable(t, s, at);
    match FirstCrlf(s, at)
    case None =>
    case Some(j) =>
      if FirstCrlf(t, at).Some? {
        assert t[at..j] == s[at..j];
        match ChunkSize(s[at..j])
        case SizeOk(size) => OnlineChunkData(t, s, j + 2, size, ToInt32(total + size));
        case _ =>
      } else if ChunkSize(s[at..j]).SizeOk? {
        var size := ChunkSize(s[at..j]).size;
        PV.ChunkDataEnds(s, j + 2, size, ToInt32(total + size));
      }
  }

  lemma {:induction false} OnlineChunkData(t: bytes, s: bytes, at: nat, size: nat, total: int)
    requires t <= s
    ensures Online(FromChunkData(t, at, size, total), FromChunkData(s, at, size, total), |t|)
    decreases |s| - at, 0
  {
    hide FromChunks;
    if at + size < |t| {
      var e := [BodyEvent(s[at..at + size], size)];
      assert t[at..at + size] == s[at..at + size];
      if size > 0 {
        OnlineChunks(t, s, at + size + 2, total);
        OnlinePrepend(e, FromChunks(t, at + size + 2, total), FromChunks(s, at + size + 2, total), |t|);
      }
    } else {
      PV.ChunkDataEnds(s, at, size, total);
    }
  }

  lemma {:induction false} OnlineBody(t: bytes, s: bytes, at: nat, frame: Frame)
    requires t <= s
    ensures Online(FromBody(t, at, frame), FromBody(s, at, frame), |t|)
  {
    hide FromChunks;
    if frame.chunked {
      OnlineChunks(t, s, at, frame.bodysz);
    } else if 0 <= frame.bodysz && at + frame.bodysz <= |t| {
      assert t[at..at + frame.bodysz] == s[at..at + frame.bodysz];
    }
  }

  lemma {:induction false} OnlineHeaders(t: bytes, s: bytes, cuts: set<int>, i: nat, frame: Frame)
    requires t <= s
    ensures Online(FromHeaders(t, cuts, i, frame), FromHeaders(s, cuts, i, frame), |t|)
    decreases |s| - i
  {
    hide HeaderLine, Framing, FromBody, FirstCrlf, BodyStart;
    FirstCrlfStable(t, s, i);
    match FirstCrlf(s, i)
    case None =>
    case Some(j) =>
      if FirstCrlf(t, i).None? {
        PV.HeadersEnd(s, cuts, i, frame);
      } else if j == i {
        OnlineBody(t, s, BodyStart(cuts, i), frame);
      } else {
        assert t[i..j] == s[i..j];
        match HeaderLine(s[i..j])
        case HeaderOk(name, value) =>
          var frame' := Framing(frame, name, value);
          OnlineHeaders(t, s, cuts, j + 2, frame');
          OnlinePrepend([HeaderEvent(name, value)], FromHeaders(t, cuts, j + 2, frame'),
                        FromHeaders(s, cuts, j + 2, frame'), |t|);
        case _ =>
      }
  }

  /**
   A prefix t of the stream s never reads differently, only less far: its reading
   is that of s, or it is cut short with the first of the same events.  It is the
   reading of s as soon as t holds the whole message.
   */
  lemma {:induction false} OnlineMessage(cfg: Config, t: bytes, s: bytes, cuts: set<int>, i: nat, frame: Frame)
    requires t <= s
    ensures Online(FromLine(cfg, t, cuts, i, frame), FromLine(cfg, s, cuts, i, frame), |t|)
  {
    hide FirstLine, FromHeaders, FirstCrlf;
    FirstCrlfStable(t, s, i);
    match FirstCrlf(s, i)
    case None =>
    case Some(j) =>
      if FirstCrlf(t, i).None? {
        PV.HeadersEnd(s, cuts, j + 2, frame);
      } else {
        assert t[i..j] == s[i..j];
        match FirstLine(cfg, s[i..j])
        case LineOk(line) =>
          OnlineHeaders(t, s, cuts, j + 2, frame);
          OnlinePrepend([LineEvent(line)], FromHeaders(t, cuts, j + 2, frame), FromHeaders(s, cuts, j + 2, frame), |t|);
        case _ =>
      }
  }

  predicate NoBody(events: seq<Event>) {
    forall e :: e in events ==> !e.BodyEvent?
  }

  /**
   o is the reading of the first n bytes of a stream, cut somewhere, and o' the
   reading of the whole stream in one piece.  With the blank line whole, o is o' if
   and only if the message ends within the n bytes; a cut inside the blank line
   asks for one byte more, and never gives o'.  As long as bytes are missing, o is
   cut short before the body.
   */
  predicate Short(o: Outcome, o': Outcome, n: nat, whole: bool) {
    o'.verdict.Done? ==>
      var need := if whole then o'.verdict.end else o'.verdict.end + 1;
      && (o == o' <==> whole && need <= n)
      && (n < need ==> o.verdict == Truncated && o.events <= o'.events && NoBody(o.events))
  }

  lemma {:induction false} ShortPrepend(e: Event, o: Outcome, o': Outcome, n: nat, whole: bool)
    requires Short(o, o', n, whole) && !e.BodyEvent?
    ensures Short(Prepend([e], o), Prepend([e], o'), n, whole)
  {
    PrependSame([e], o, o');
  }

  /** Not a body of negative length. */
  predicate Counted(o: Outcome) {
    o.verdict.Done? ==> o.verdict.bodysz >= 0
  }

  lemma {:induction false} ShortBody(t: bytes, s: bytes, cuts: set<int>, i: nat, frame: Frame)
    requires t <= s && !frame.chunked && Counted(FromBody(s, i + 2, frame))
    ensures Short(FromBody(t, BodyStart(cuts, i), frame), FromBody(s, i + 2, frame), |t|, i + 1 !in cuts)
  {
    if i + 2 + frame.bodysz <= |t| {
      assert t[i + 2..i + 2 + frame.bodysz] == s[i + 2..i + 2 + frame.bodysz];
    }
  }

  lemma {:induction false} ShortHeaders(t: bytes, s: bytes, cuts: set<int>, i: nat, frame: Frame)
    requires t <= s && !FrameAt(s, i, frame).chunked
    requires Counted(FromHeaders(s, {}, i, frame))
    ensures Short(FromHeaders(t, cuts, i, frame), FromHeaders(s, {}, i, frame), |t|, Whole(BlankLine(s, i), cuts))
    decreases |s| - i
  {
    hide HeaderLine, Framing, FromBody, FirstCrlf, Short;
    FirstCrlfStable(t, s, i);
    match FirstCrlf(s, i)
    case None => ShortOfNothing(FromHeaders(t, cuts, i, frame), FromHeaders(s, {}, i, frame), |t|, true);
    case Some(j) =>
      if FirstCrlf(t, i).None? {
        ShortLine(t, s, i, frame, Whole(BlankLine(s, i), cuts));
      } else if j == i {
        ShortBody(t, s, cuts, i, frame);
      } else {
        assert t[i..j] == s[i..j];
        match HeaderLine(s[i..j])
        case HeaderOk(name, value) =>
          var frame' := Framing(frame, name, value);
          ShortHeaders(t, s, cuts, j + 2, frame');
          ShortPrepend(HeaderEvent(name, value), FromHeaders(t, cuts, j + 2, frame'), FromHeaders(s, {}, j + 2, frame'),
                       |t|, Whole(BlankLine(s, i), cuts));
        case _ => ShortOfNothing(FromHeaders(t, cuts, i, frame), FromHeaders(s, {}, i, frame), |t|, true);
      }
  }

  lemma {:induction false} ShortOfNothing(o: Outcome, o': Outcome, n: nat, whole: bool)
    requires !o'.verdict.Done?
    ensures Short(o, o', n, whole)
  {
  }

  /** The stream ends within a header line. */
  lemma {:induction false} ShortLine(t: bytes, s: bytes, i: nat, frame: Frame, whole: bool)
    requires t <= s && FirstCrlf(t, i).None? && FirstCrlf(s, i).Some?
    requires Counted(FromHeaders(s, {}, i, frame))
    ensures Short(Outcome([], Truncated), FromHeaders(s, {}, i, frame), |t|, whole)
  {
    hide FromHeaders, FirstCrlf;
    FirstCrlfStable(t, s, i);
    PV.HeadersEnd(s, {}, i, frame);
  }

  /**
   Truncation, exactly, for a message of declared length and any cuts: the parser
   reads all of it if and only if the stream reaches its end and no delivery ended
   inside its blank line; from a shorter stream it never reports a body.
   */
  lemma {:induction false} TruncationExact(cfg: Config, t: bytes, s: bytes, cuts: set<int>, i: nat, frame: Frame)
    requires t <= s && FromLine(cfg, s, {}, i, frame).verdict.Done?
    requires !MessageFrame(cfg, s, i, frame).chunked && Counted(FromLine(cfg, s, {}, i, frame))
    ensures Short(FromLine(cfg, t, cuts, i, frame), FromLine(cfg, s, {}, i, frame), |t|,
                  BlankLineWhole(cfg, s, cuts, i))
  {
    hide FirstLine, FromHeaders, FirstCrlf, Short, FrameAt;
    var j := FirstCrlf(s, i).value;
    var line := FirstLine(cfg, s[i..j]).line;
    FirstCrlfStable(t, s, i);
    if FirstCrlf(t, i).None? {
      ShortFirstLine(cfg, t, s, i, frame, BlankLineWhole(cfg, s, cuts, i));
    } else {
      assert t[i..j] == s[i..j];
      ShortHeaders(t, s, cuts, j + 2, frame);
      ShortPrepend(LineEvent(line), FromHeaders(t, cuts, j + 2, frame), FromHeaders(s, {}, j + 2, frame), |t|,
                   Whole(BlankLine(s, j + 2), cuts));
    }
  }

  lemma {:induction false} ShortFirstLine(cfg: Config, t: bytes, s: bytes, i: nat, frame: Frame, whole: bool)
    requires t <= s && FirstCrlf(t, i).None? && FromLine(cfg, s, {}, i, frame).verdict.Done?
    requires Counted(FromLine(cfg, s, {}, i, frame))
    ensures Short(Outcome([], Truncated), FromLine(cfg, s, {}, i, frame), |t|, whole)
  {
    hide FirstLine, FromHeaders, FirstCrlf, FrameAt;
    FirstCrlfStable(t, s, i);
    PV.HeadersEnd(s, {}, FirstCrlf(s, i).value + 2, frame);
  }
}
