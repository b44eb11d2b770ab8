/**
 The incremental parser: mnhttp_ctx_t as a class whose fields the methods update,
 and one method per C function.  Every method that takes a step is proved against
 Resume: what has been reported so far, followed by how the rest of the stream
 reads from the new state, is still the reading of the whole stream.
 */
module MessageParser {
  import opened Bytes
  import opened Numbers
  import opened MessageSpec
  import opened ByteStreams
  import opened ParserView

  datatype ParserState = PS_START | PS_LINE | PS_HEADER_FIELD_IN | PS_HEADER_FIELD_OUT | PS_BODY_IN | PS_BODY

  datatype ChunkParserState = PS_CHUNK_NONE | PS_CHUNK_SIZE | PS_CHUNK_DATA

  /** byterange_t: positions in the buffer. */
  datatype Range = Range(start: int, end: int)

  const NO_RANGE := Range(0, 0)

  /** What a parsing step returns; the last one stands for undefined behaviour. */
  datatype Result = NeedMore | Success | EmptyInput | ConsumeDataError | Error(error: ParseError) | Crash

  class Ctx {
    var parserState: ParserState
    var chunkParserState: ChunkParserState
    var firstLine: Range
    var line: StartLine
    var bodysz: int
    var currentHeaderName: Range
    var currentHeaderValue: Range
    var chunked: bool
    var body: Range
    var currentChunkSize: int
    var currentChunk: Range
    /** What the callbacks have been shown, in order. */
    var events: seq<Event>

    /** http_ctx_init. */
    constructor ()
      ensures parserState == PS_START && bodysz == -1 && !chunked && events == []
    {
      parserState, chunkParserState := PS_START, PS_CHUNK_NONE;
      firstLine, currentHeaderName, currentHeaderValue := NO_RANGE, NO_RANGE, NO_RANGE;
      body, currentChunk := NO_RANGE, NO_RANGE;
      line := StartLine(0, None, 0, 0);
      bodysz, chunked, currentChunkSize, events := -1, false, 0, [];
    }

    ghost function Phase(): Phase
      reads this
    {
      match parserState
      case PS_START => Start
      case PS_LINE => InLine
      case PS_HEADER_FIELD_IN => HeaderIn
      case PS_HEADER_FIELD_OUT => HeaderOut
      case _ => if !chunked then FixedBody else if chunkParserState == PS_CHUNK_SIZE then ChunkSizeLine else ChunkBytes
    }

    /** Where the current line, body or chunk starts in the buffer. */
    ghost function Mark(): int
      reads this
    {
      match Phase()
      case InLine => firstLine.start
      case HeaderOut => currentHeaderName.start
      case FixedBody => body.start
      case ChunkSizeLine => currentChunk.start
      case ChunkBytes => currentChunk.start
      case _ => 0
    }

    ghost predicate Linked(input: ByteStream)
      requires input.Valid()
      reads this, input
    {
      && 0 <= Mark()
      && (if Phase() == Start || Phase() == HeaderIn then input.Clean(input.Offset())
          else input.Clean(input.base + Mark()))
      && (HeaderPhase(Phase()) && chunked ==> chunkParserState == PS_CHUNK_SIZE)
      && (Phase() == FixedBody ==> currentChunk.start == body.start && body.end == input.pos)
      && (Phase() == ChunkBytes ==> currentChunk.end == input.pos && chunkParserState == PS_CHUNK_DATA)
    }

    ghost function ViewOf(input: ByteStream): View
      requires 0 <= Mark()
      reads this, input
    {
      View(Phase(), input.base + Mark(), input.Offset(), Frame(bodysz, chunked), currentChunkSize)
    }

    /** The step invariant, for a parse whose deliveries end at `cuts`. */
    ghost predicate Ready(input: ByteStream, cuts: set<int>)
      reads this, input
    {
      input.Valid() && Linked(input) && Sound(ViewOf(input), input.seen, cuts)
    }

    /** What has been reported, followed by how the rest of the stream reads from here. */
    ghost function Reading(cfg: Config, input: ByteStream, cuts: set<int>): Outcome
      requires Ready(input, cuts)
      reads this, input
    {
      Prepend(events, Resume(cfg, input.Total(), cuts, ViewOf(input)))
    }

    /** The parse is under way and its reading is `goal`. */
    ghost predicate Reads(cfg: Config, input: ByteStream, cuts: set<int>, goal: Outcome)
      reads this, input
    {
      Ready(input, cuts) && Reading(cfg, input, cuts) == goal
    }

    /** The parse is in the body, just entered or with unread bytes, and its reading is `goal`. */
    ghost predicate BodyReads(cfg: Config, input: ByteStream, cuts: set<int>, goal: Outcome)
      reads this, input
    {
      && (parserState == PS_BODY_IN || parserState == PS_BODY)
      && (if chunked then Reads(cfg, input, cuts, goal) && (Phase() == ChunkBytes ==> input.Offset() < |input.seen|)
          else
            && input.Valid() && Linked(input) && BodyOpen(ViewOf(input), input.seen)
            && goal == Prepend(events, FromFixed(input.Total(), ViewOf(input).at, bodysz)))
    }

    /** Ranks the states that a loop iteration can pass without moving the cursor. */
    ghost function Rank(): nat
      reads this
    {
      match parserState
      case PS_START => 2
      case PS_HEADER_FIELD_IN => 2
      case _ => 1
    }
  }

  /** parse_request_line, on the bytes of the line before its CR LF. */
  method ParseRequestLine(cfg: Config, line: bytes) returns (r: LineResult)
    ensures r == RequestLine(cfg, line)
  {
    hide MethodOf, HttpAt, Version;
    var tmp := FindSp(line, 0);
    if tmp.None? { return LineBad(LineSyntax); }
    var code := MethodOf(line[..tmp.value]);
    var tmp1 := FindNoSp(line, tmp.value);
    if tmp1.None? { return LineBad(LineSyntax); }
    tmp := tmp1;
    tmp1 := FindSp(line, tmp.value);
    if tmp1.None? { return LineBad(LineSyntax); }
    var uri := line[tmp.value..tmp1.value];
    tmp := FindNoSp(line, tmp1.value);
    if tmp.None? { return LineBad(LineSyntax); }
    if !HttpAt(line, tmp.value) { return LineBad(NotHttp); }
    match Version(cfg, line, tmp.value + 5) {
      case VersionBad(e) => return LineBad(e);
      case VersionUndefined => return LineUndefined;
      case VersionOk(major, minor, _, _) => return LineOk(StartLine(code, Some(uri), major, minor));
    }
  }

  /** parse_status_line, likewise. */
  method ParseStatusLine(cfg: Config, line: bytes) returns (r: LineResult)
    ensures r == StatusLine(cfg, line)
  {
    hide HttpAt, Version, Strtol, ErrnoAfter, ToInt32;
    var tmp := FindNoSp(line, 0);
    if tmp.None? { return LineBad(LineSyntax); }
    if !HttpAt(line, tmp.value) { return LineBad(NotHttp); }
    match Version(cfg, line, tmp.value + 5) {
      case VersionBad(e) => return LineBad(e);
      case VersionUndefined => return LineUndefined;
      case VersionOk(major, minor, end, errno) =>
        tmp := FindNoSp(line, end);
        if tmp.None? { return LineBad(NoStatus); }
        if AllSpace(line[tmp.value..]) { return LineUndefined; }
        var n := Strtol(line[tmp.value..], false);
        if ToInt32(n.value) == 0 && ErrnoAfter(cfg, errno, n) { return LineBad(BadStatus); }
        return LineOk(StartLine(ToInt32(n.value), None, major, minor));
    }
  }

  /** parse_line_cb: http_parse_request and http_parse_response pass one or the other. */
  method ParseFirstLine(cfg: Config, line: bytes) returns (r: LineResult)
    ensures r == FirstLine(cfg, line)
  {
    hide RequestLine, StatusLine;
    if cfg.request {
      r := ParseRequestLine(cfg, line);
    } else {
      r := ParseStatusLine(cfg, line);
    }
  }

  /** findcrlf from a mark in the buffer, and what it tells about the whole stream. */
  method FindLineEnd(input: ByteStream, mark: nat) returns (end: Option<nat>)
    requires input.Valid() && input.Clean(input.base + mark)
    ensures end.None? ==> FirstCrlf(input.seen, input.base + mark).None?
    ensures end.Some? ==>
              && mark <= end.value && end.value + 2 <= |input.buf|
              && FirstCrlf(input.seen, input.base + mark) == Some(input.base + end.value)
              && FirstCrlf(input.Total(), input.base + mark) == Some(input.base + end.value)
              && input.buf[mark..end.value] == input.Total()[input.base + mark..input.base + end.value]
  {
    ScanShift(input.buf, input.seen, input.base, mark);
    FoundInSeen(input.seen, input.Total(), input.base + mark);
    end := FindCrlf(input.buf, mark);
    if end.Some? {
      SliceShift(input.buf, input.seen, input.Total(), input.base, mark, end.value);
    }
  }

  /** SADVANCEPOS(in, SEOD(in) - SPOS(in)), when the current line has no end yet. */
  method WaitForLine(cfg: Config, input: ByteStream, ctx: Ctx, ghost cuts: set<int>, ghost goal: Outcome)
    requires ctx.Reads(cfg, input, cuts, goal) && (ctx.parserState == PS_LINE || ctx.parserState == PS_HEADER_FIELD_OUT)
    requires FirstCrlf(input.seen, ctx.ViewOf(input).at).None? && input.Offset() < |input.seen|
    modifies input`pos
    ensures ctx.Reads(cfg, input, cuts, goal) && input.Unread() < old(input.Unread())
  {
    hide Sound, FromLine, FromHeaders;
    LineWaits(ctx.ViewOf(input), input.seen, cuts);
    input.pos := |input.buf|;
  }

  /** Reports the line that ends at `end` and goes on behind its CR LF with the next header. */
  method NextLine(cfg: Config, input: ByteStream, ctx: Ctx, event: Event, end: nat,
                  ghost cuts: set<int>, ghost goal: Outcome)
    requires input.Valid() && input.Clean(input.base + end + 1) && end + 2 <= |input.buf|
    requires CutsPassed(cuts, input.seen, input.base + end + 2)
    requires ctx.chunked ==> ctx.chunkParserState == PS_CHUNK_SIZE
    requires goal == Prepend(ctx.events, Prepend([event], FromHeaders(input.Total(), cuts, input.base + end + 2,
                                                                      Frame(ctx.bodysz, ctx.chunked))))
    modifies ctx`parserState, ctx`events, input`pos
    ensures ctx.parserState == PS_HEADER_FIELD_IN && ctx.Reads(cfg, input, cuts, goal)
    ensures input.Offset() == input.base + end + 2
  {
    hide FromHeaders, FirstCrlf, CutsPassed;
    PrependTwice(ctx.events, [event],
                 FromHeaders(input.Total(), cuts, input.base + end + 2, Frame(ctx.bodysz, ctx.chunked)));
    ctx.events := ctx.events + [event];
    ctx.parserState := PS_HEADER_FIELD_IN;
    input.pos := end + 2;
  }

  /** The first line is complete and good: report it and go on behind it. */
  method AcceptLine(cfg: Config, input: ByteStream, ctx: Ctx, line: StartLine, end: nat,
                    ghost cuts: set<int>, ghost goal: Outcome)
    requires ctx.Reads(cfg, input, cuts, goal) && ctx.parserState == PS_LINE
    requires FirstCrlf(input.seen, ctx.ViewOf(input).at) == Some(input.base + end)
    requires FirstCrlf(input.Total(), ctx.ViewOf(input).at) == Some(input.base + end)
    requires FirstLine(cfg, input.Total()[ctx.ViewOf(input).at..input.base + end]) == LineOk(line)
    modifies ctx`parserState, ctx`firstLine, ctx`line, ctx`events, input`pos
    ensures ctx.parserState == PS_HEADER_FIELD_IN && ctx.Reads(cfg, input, cuts, goal)
    ensures input.Offset() > old(input.Offset())
  {
    hide FirstLine, FromHeaders, FirstCrlf;
    LineEnds(ctx.ViewOf(input), input.seen, cuts);
    ctx.firstLine := ctx.firstLine.(end := end);
    ctx.line := line;
    NextLine(cfg, input, ctx, LineEvent(line), end, cuts, goal);
  }

  /** PS_LINE: waits for the end of the first line, then parses and reports it. */
  method StepLine(cfg: Config, input: ByteStream, ctx: Ctx, ghost cuts: set<int>, ghost goal: Outcome)
    returns (r: Result)
    requires ctx.Reads(cfg, input, cuts, goal) && ctx.parserState == PS_LINE && input.Offset() < |input.seen|
    modifies ctx`parserState, ctx`firstLine, ctx`line, ctx`events, input`pos
    ensures input.Valid() && (r.NeedMore? ==> ctx.parserState != PS_START)
    ensures r.NeedMore? ==> ctx.Reads(cfg, input, cuts, goal) && input.Unread() < old(input.Unread())
    ensures r.Error? ==> goal == Outcome(ctx.events, Failed(r.error))
    ensures r.Crash? ==> goal == Outcome(ctx.events, Undefined)
    ensures r.NeedMore? || r.Error? || r.Crash?
  {
    hide FirstLine, FromHeaders, Sound, FirstCrlf;
    var end := FindLineEnd(input, ctx.firstLine.start);
    if end.None? {
      WaitForLine(cfg, input, ctx, cuts, goal);
      return NeedMore;
    }
    var res := ParseFirstLine(cfg, input.buf[ctx.firstLine.start..end.value]);
    match res {
      case LineBad(e) => return Error(e);
      case LineUndefined => return Crash;
      case LineOk(line) =>
        AcceptLine(cfg, input, ctx, line, end.value, cuts, goal);
        return NeedMore;
    }
  }

  /** process_header: reads name and value as C strings out of the edited buffer. */
  method ProcessHeader(ctx: Ctx, buf: bytes, ghost name: bytes, ghost value: bytes)
    requires 0 <= ctx.currentHeaderName.start <= |buf| && 0 <= ctx.currentHeaderValue.start <= |buf|
    requires CString(buf[ctx.currentHeaderName.start..]) == CString(name)
    requires CString(buf[ctx.currentHeaderValue.start..]) == CString(value)
    modifies ctx`bodysz, ctx`chunked, ctx`chunkParserState
    ensures Frame(ctx.bodysz, ctx.chunked) == Framing(old(Frame(ctx.bodysz, ctx.chunked)), name, value)
    ensures ctx.chunked ==>
              || ctx.chunkParserState == PS_CHUNK_SIZE
              || (old(ctx.chunked) && ctx.chunkParserState == old(ctx.chunkParserState))
  {
    hide Strtol, ToInt32;
    var n := CString(buf[ctx.currentHeaderName.start..]);
    var v := CString(buf[ctx.currentHeaderValue.start..]);
    if SameNoCase(n, "content-length") {
      ctx.bodysz := ToInt32(Strtol(v, false).value);
    } else if SameNoCase(n, "transfer-encoding") {
      if v == "chunked" {
        ctx.chunked := true;
        ctx.chunkParserState := PS_CHUNK_SIZE;
        ctx.bodysz := 0;
      }
    }
  }

  /** The two NULs end the name and the value for every C string function, whatever they hold. */
  lemma {:induction false} EditedStrings(buf: bytes, start: nat, colon: nat, value: nat, end: nat)
    requires start <= colon < value <= end < |buf|
    ensures var e := buf[colon := NUL][end := NUL];
            CString(e[start..]) == CString(buf[start..colon]) && CString(e[value..]) == CString(buf[value..end])
  {
    var e := buf[colon := NUL][end := NUL];
    assert e[start..] == buf[start..colon] + [NUL] + e[colon + 1..];
    CStringStops(buf[start..colon], e[colon + 1..]);
    assert e[value..] == buf[value..end] + [NUL] + e[end + 1..];
    CStringStops(buf[value..end], e[end + 1..]);
  }

  /** Ends name and value with NULs in the buffer and lets process_header read them. */
  method CutHeader(input: ByteStream, ctx: Ctx, colon: nat, value: nat, end: nat) returns (name: bytes, text: bytes)
    requires 0 <= ctx.currentHeaderName.start <= colon < value <= end < |input.buf|
    requires input.Valid() && input.Clean(input.base + ctx.currentHeaderName.start)
    requires ctx.chunked ==> ctx.chunkParserState == PS_CHUNK_SIZE
    modifies ctx`currentHeaderName, ctx`currentHeaderValue, ctx`bodysz, ctx`chunked, ctx`chunkParserState, input`buf
    ensures name == old(input.buf)[old(ctx.currentHeaderName.start)..colon] && text == old(input.buf)[value..end]
    ensures input.Valid() && input.Clean(input.base + end + 1)
    ensures Frame(ctx.bodysz, ctx.chunked) == Framing(old(Frame(ctx.bodysz, ctx.chunked)), name, text)
    ensures ctx.chunked ==> ctx.chunkParserState == PS_CHUNK_SIZE
  {
    hide Framing, CString, FirstCrlf;
    name, text := input.buf[ctx.currentHeaderName.start..colon], input.buf[value..end];
    EditedStrings(input.buf, ctx.currentHeaderName.start, colon, value, end);
    ctx.currentHeaderName := ctx.currentHeaderName.(end := colon);
    ctx.currentHeaderValue := Range(value, end);
    input.buf := input.buf[colon := NUL][end := NUL];
    ProcessHeader(ctx, input.buf, name, text);
  }

  /** A complete header line with a colon and a value: cut it, act on it, report it, go on behind it. */
  method AcceptHeader(cfg: Config, input: ByteStream, ctx: Ctx, colon: nat, value: nat, end: nat,
                      ghost cuts: set<int>, ghost goal: Outcome)
    requires ctx.Reads(cfg, input, cuts, goal) && ctx.parserState == PS_HEADER_FIELD_OUT
    requires ctx.currentHeaderName.start <= colon < value <= end < |input.buf|
    requires ctx.currentHeaderName.start < end
    requires FirstCrlf(input.seen, ctx.ViewOf(input).at) == Some(input.base + end)
    requires FirstCrlf(input.Total(), ctx.ViewOf(input).at) == Some(input.base + end)
    requires HeaderLine(input.Total()[ctx.ViewOf(input).at..input.base + end])
             == HeaderOk(input.buf[ctx.currentHeaderName.start..colon], input.buf[value..end])
    modifies ctx, input`pos, input`buf
    ensures ctx.parserState == PS_HEADER_FIELD_IN && ctx.Reads(cfg, input, cuts, goal)
    ensures input.Offset() > old(input.Offset())
  {
    hide HeaderLine, Framing, FromHeaders, CString, FirstCrlf;
    ghost var v := ctx.ViewOf(input);
    LineEnds(v, input.seen, cuts);
    var name, text := CutHeader(input, ctx, colon, value, end);
    HeaderReads(input.Total(), cuts, v.at, v.frame, name, text);
    NextLine(cfg, input, ctx, HeaderEvent(name, text), end, cuts, goal);
  }

  /** recycle_stream_buffer: forgets the other ranges, drops bytes before the current chunk and shifts its range. */
  method RecycleStreamBuffer(ctx: Ctx, input: ByteStream)
    requires input.Valid() && 0 <= ctx.currentChunk.start
    modifies ctx`firstLine, ctx`currentHeaderName, ctx`currentHeaderValue, ctx`body, ctx`currentChunk
    modifies input`buf, input`pos, input`base
    ensures input.Valid() && input.Offset() == old(input.Offset())
    ensures 0 <= ctx.currentChunk.start
    ensures input.base + ctx.currentChunk.start == old(input.base + ctx.currentChunk.start)
    ensures input.base + ctx.currentChunk.end == old(input.base + ctx.currentChunk.end)
    ensures forall k :: old(input.Clean(k)) && old(input.base + ctx.currentChunk.start) <= k ==> input.Clean(k)
  {
    ctx.firstLine, ctx.currentHeaderName, ctx.currentHeaderValue, ctx.body := NO_RANGE, NO_RANGE, NO_RANGE, NO_RANGE;
    var recycled := input.Recycle(ctx.currentChunk.start);
    ctx.currentChunk := Range(ctx.currentChunk.start - recycled, ctx.currentChunk.end - recycled);
  }

  /** body_cb on the current chunk: it is shown the bytes of the stream at the offsets of the chunk. */
  method ReportBody(input: ByteStream, ctx: Ctx)
    requires input.Valid() && 0 <= ctx.currentChunk.start && ctx.currentChunk.end <= |input.buf|
    requires input.Clean(input.base + ctx.currentChunk.start)
    modifies ctx`events
    ensures var n := ctx.currentChunk.end - ctx.currentChunk.start;
            var at := input.base + ctx.currentChunk.start;
            ctx.events == old(ctx.events) + [BodyEvent(if n >= 0 then input.Total()[at..at + n] else [], n)]
  {
    var chunk := ctx.currentChunk;
    var data: bytes := [];
    if chunk.start <= chunk.end {
      SliceShift(input.buf, input.seen, input.Total(), input.base, chunk.start, chunk.end);
      data := input.buf[chunk.start..chunk.end];
    }
    ctx.events := ctx.events + [BodyEvent(data, chunk.end - chunk.start)];
  }

  /** The part of the body that has arrived, up to the declared length, joins the range. */
  method TakeBody(input: ByteStream, ctx: Ctx) returns (accumulated: int)
    requires input.Valid() && ctx.Linked(input) && BodyOpen(ctx.ViewOf(input), input.seen)
    modifies ctx`body, ctx`currentChunk, input`pos
    ensures input.Valid() && ctx.Linked(input) && ctx.ViewOf(input).at == old(ctx.ViewOf(input).at)
    ensures accumulated == input.Offset() - ctx.ViewOf(input).at
    ensures accumulated <= ctx.bodysz && input.Offset() <= |input.seen|
    ensures accumulated < ctx.bodysz ==> -1 <= accumulated && input.Offset() == |input.seen|
    ensures ctx.currentChunk.end == input.pos
  {
    hide FirstCrlf;
    var navail := |input.buf| - input.pos;
    accumulated := ctx.body.end - ctx.body.start;
    var needed := ctx.bodysz - accumulated;
    var incr := if navail < needed then navail else needed;
    ctx.body := ctx.body.(end := ctx.body.end + incr);
    ctx.currentChunk := ctx.currentChunk.(end := ctx.body.end);
    input.pos := input.pos + incr;
    accumulated := ctx.body.end - ctx.body.start;
  }

  /** process_body for a declared length. */
  method StepFixedBody(cfg: Config, input: ByteStream, ctx: Ctx, ghost cuts: set<int>, ghost goal: Outcome)
    returns (r: Result)
    requires input.Valid() && ctx.Linked(input) && BodyOpen(ctx.ViewOf(input), input.seen)
    requires goal == Prepend(ctx.events, FromFixed(input.Total(), ctx.ViewOf(input).at, ctx.bodysz))
    modifies ctx`body, ctx`currentChunk, ctx`events, ctx`firstLine, ctx`currentHeaderName, ctx`currentHeaderValue
    modifies input`buf, input`pos, input`base
    ensures r == NeedMore || r == Success
    ensures r.NeedMore? ==> ctx.Reads(cfg, input, cuts, goal) && input.Offset() == |input.seen|
    ensures r.Success? ==> input.Valid() && input.Offset() <= |input.seen| + 1
    ensures r.Success? ==> goal == Outcome(ctx.events, Done(input.Offset(), ctx.bodysz))
    ensures r.Success? && ctx.bodysz >= 0 ==> input.Clean(input.Offset())
  {
    hide FirstCrlf;
    var accumulated := TakeBody(input, ctx);
    if accumulated < ctx.bodysz {
      return NeedMore;
    }
    ReportBody(input, ctx);
    RecycleStreamBuffer(ctx, input);
    return Success;
  }

  /** The chunk-size line is complete and good: the data of the chunk follow it. */
  method StartChunk(cfg: Config, input: ByteStream, ctx: Ctx, size: nat, end: nat,
                    ghost cuts: set<int>, ghost goal: Outcome)
    requires input.Valid() && ctx.Linked(input) && ctx.Phase() == ChunkSizeLine
    requires ctx.currentChunk.start <= end && end + 2 <= |input.buf|
    requires goal == Prepend(ctx.events,
                             FromChunkData(input.Total(), input.base + end + 2, size, ToInt32(ctx.bodysz + size)))
    modifies ctx`currentChunkSize, ctx`bodysz, ctx`currentChunk, ctx`chunkParserState, input`pos
    ensures ctx.Reads(cfg, input, cuts, goal) && input.Offset() == input.base + end + 2
  {
    hide FirstCrlf, ToInt32, FromChunkData;
    ctx.currentChunkSize := size;
    ctx.bodysz := ToInt32(ctx.bodysz + size);
    input.pos := end + 2;
    ctx.currentChunk := Range(input.pos, input.pos);
    ctx.chunkParserState := PS_CHUNK_DATA;
  }

  method WaitForChunkLine(cfg: Config, input: ByteStream, ctx: Ctx, ghost cuts: set<int>, ghost goal: Outcome)
    requires ctx.Reads(cfg, input, cuts, goal) && ctx.Phase() == ChunkSizeLine
    requires FirstCrlf(input.seen, ctx.ViewOf(input).at).None?
    modifies input`pos
    ensures ctx.Reads(cfg, input, cuts, goal) && input.Unread() == 0
  {
    hide Sound, FromChunks;
    ChunkLineWaits(ctx.ViewOf(input), input.seen, cuts);
    input.pos := |input.buf|;
  }

  /** process_body in PS_CHUNK_SIZE. */
  method StepChunkSize(cfg: Config, input: ByteStream, ctx: Ctx, ghost cuts: set<int>, ghost goal: Outcome)
    returns (r: Result)
    requires ctx.Reads(cfg, input, cuts, goal) && ctx.Phase() == ChunkSizeLine
    modifies ctx`currentChunkSize, ctx`bodysz, ctx`currentChunk, ctx`chunkParserState, input`pos
    ensures input.Valid()
    ensures r.NeedMore? ==> ctx.Reads(cfg, input, cuts, goal)
    ensures r.NeedMore? ==> input.Unread() < old(input.Unread()) || input.Unread() == 0
    ensures r.Error? ==> goal == Outcome(ctx.events, Failed(r.error))
    ensures r.Crash? ==> goal == Outcome(ctx.events, Undefined)
    ensures r.NeedMore? || r.Error? || r.Crash?
  {
    hide FirstCrlf, ChunkSize, FromChunkData, Sound, ToInt32;
    ghost var v := ctx.ViewOf(input);
    var end := FindLineEnd(input, ctx.currentChunk.start);
    if end.None? {
      WaitForChunkLine(cfg, input, ctx, cuts, goal);
      return NeedMore;
    }
    ChunkLineEnds(v, input.seen, cuts);
    match ChunkSize(input.buf[ctx.currentChunk.start..end.value]) {
      case SizeBad => return Error(BodyError);
      case SizeUndefined => return Crash;
      case SizeOk(size) =>
        StartChunk(cfg, input, ctx, size, end.value, cuts, goal);
        return NeedMore;
    }
  }

  /** Prepares for the next chunk, two bytes behind the data. */
  method NextChunk(input: ByteStream, ctx: Ctx)
    requires input.Valid() && 0 <= input.pos && input.Clean(input.Offset())
    modifies ctx`body, ctx`currentChunk, ctx`firstLine, ctx`currentHeaderName, ctx`currentHeaderValue
    modifies ctx`chunkParserState, input`buf, input`pos, input`base
    ensures input.Valid() && input.Offset() == old(input.Offset()) + 2 && input.Clean(input.Offset())
    ensures 0 <= ctx.currentChunk.start == ctx.currentChunk.end == input.pos && ctx.chunkParserState == PS_CHUNK_SIZE
  {
    ctx.chunkParserState := PS_CHUNK_SIZE;
    input.pos := input.pos + 2;
    ctx.currentChunk := Range(input.pos, input.pos);
    assert input.Clean(input.Offset());
    RecycleStreamBuffer(ctx, input);
  }

  /** The chunk is complete: report it, skip two bytes and recycle. */
  method FinishChunk(cfg: Config, input: ByteStream, ctx: Ctx, ghost cuts: set<int>, ghost goal: Outcome)
    returns (r: Result)
    requires ctx.Reads(cfg, input, cuts, goal) && ctx.Phase() == ChunkBytes && input.Offset() < |input.seen|
    requires ctx.currentChunkSize == ctx.currentChunk.end - ctx.currentChunk.start
    modifies ctx`body, ctx`currentChunk, ctx`events, ctx`firstLine, ctx`currentHeaderName, ctx`currentHeaderValue
    modifies ctx`chunkParserState, input`buf, input`pos, input`base
    ensures r == NeedMore || r == Success
    ensures r.NeedMore? ==> ctx.Reads(cfg, input, cuts, goal) && input.Unread() < old(input.Unread())
    ensures r.Success? ==> input.Valid() && input.Offset() <= |input.seen| + 1 && input.Clean(input.Offset())
    ensures r.Success? ==> goal == Outcome(ctx.events, Done(input.Offset(), ctx.bodysz))
  {
    hide FirstCrlf, FromChunks, FromChunkData;
    ChunkReads(ctx.events, input.Total(), ctx.ViewOf(input).at, ctx.currentChunkSize, ctx.bodysz);
    ReportBody(input, ctx);
    NextChunk(input, ctx);
    if ctx.currentChunkSize > 0 {
      return NeedMore;
    } else {
      return Success;
    }
  }

  /** process_body in PS_CHUNK_DATA. */
  method StepChunkData(cfg: Config, input: ByteStream, ctx: Ctx, ghost cuts: set<int>, ghost goal: Outcome)
    returns (r: Result)
    requires ctx.Reads(cfg, input, cuts, goal) && ctx.Phase() == ChunkBytes && input.Offset() < |input.seen|
    modifies ctx`body, ctx`currentChunk, ctx`events, ctx`firstLine, ctx`currentHeaderName, ctx`currentHeaderValue
    modifies ctx`chunkParserState, input`buf, input`pos, input`base
    ensures r == NeedMore || r == Success
    ensures r.NeedMore? ==> ctx.Reads(cfg, input, cuts, goal) && input.Unread() < old(input.Unread())
    ensures r.Success? ==> input.Valid() && input.Offset() <= |input.seen| + 1 && input.Clean(input.Offset())
    ensures r.Success? ==> goal == Outcome(ctx.events, Done(input.Offset(), ctx.bodysz))
  {
    hide FirstCrlf, FromChunks, FromChunkData;
    var needed := ctx.currentChunkSize - (ctx.currentChunk.end - ctx.currentChunk.start);
    var navail := |input.buf| - input.pos;
    if needed > 0 {
      var incr := if needed < navail then needed else navail;
      ctx.currentChunk := ctx.currentChunk.(end := ctx.currentChunk.end + incr);
      input.pos := input.pos + incr;
      return NeedMore;
    } else {
      r := FinishChunk(cfg, input, ctx, cuts, goal);
    }
  }

  /** process_body. */
  method ProcessBody(cfg: Config, input: ByteStream, ctx: Ctx, ghost cuts: set<int>, ghost goal: Outcome)
    returns (r: Result)
    requires ctx.BodyReads(cfg, input, cuts, goal)
    modifies ctx, input`buf, input`pos, input`base
    ensures ctx.parserState == old(ctx.parserState)
    ensures input.Valid()
    ensures r.NeedMore? ==> ctx.Reads(cfg, input, cuts, goal)
    ensures r.NeedMore? ==> input.Unread() < old(input.Unread()) || input.Unread() == 0
    ensures r.Success? ==> input.Valid() && input.Offset() <= |input.seen| + 1
    ensures r.Success? ==> goal == Outcome(ctx.events, Done(input.Offset(), ctx.bodysz))
    ensures r.Success? && (ctx.chunked || ctx.bodysz >= 0) ==> input.Clean(input.Offset())
    ensures r.Error? ==> goal == Outcome(ctx.events, Failed(r.error))
    ensures r.Crash? ==> goal == Outcome(ctx.events, Undefined)
    ensures !r.EmptyInput? && !r.ConsumeDataError?
  {
    hide FirstCrlf, FromChunks, FromChunkData, FromFixed, Sound, BodyOpen;
    if ctx.chunked {
      if ctx.chunkParserState == PS_CHUNK_SIZE {
        r := StepChunkSize(cfg, input, ctx, cuts, goal);
      } else {
        r := StepChunkData(cfg, input, ctx, cuts, goal);
      }
    } else {
      r := StepFixedBody(cfg, input, ctx, cuts, goal);
    }
  }

  /** From now on the state is PS_BODY. */
  method SettleInBody(cfg: Config, input: ByteStream, ctx: Ctx, ghost r: Result,
                      ghost cuts: set<int>, ghost goal: Outcome)
    requires ctx.parserState == PS_BODY_IN || ctx.parserState == PS_BODY
    requires r.NeedMore? ==> ctx.Reads(cfg, input, cuts, goal)
    modifies ctx`parserState
    ensures ctx.parserState == PS_BODY
    ensures r.NeedMore? ==> ctx.Reads(cfg, input, cuts, goal)
  {
    hide Sound, FromChunks, FromFixed, FromChunkData, FirstCrlf;
    ctx.parserState := PS_BODY;
  }

  /** The branches PS_BODY_IN and PS_BODY. */
  method StepBody(cfg: Config, input: ByteStream, ctx: Ctx, ghost cuts: set<int>, ghost goal: Outcome)
    returns (r: Result)
    requires ctx.BodyReads(cfg, input, cuts, goal)
    modifies ctx, input`buf, input`pos, input`base
    ensures input.Valid() && (r.NeedMore? ==> ctx.parserState != PS_START)
    ensures r.NeedMore? ==> ctx.Reads(cfg, input, cuts, goal)
    ensures r.NeedMore? ==> input.Unread() < old(input.Unread()) || input.Unread() == 0
    ensures r.Success? ==> input.Valid() && input.Offset() <= |input.seen| + 1
    ensures r.Success? ==> goal == Outcome(ctx.events, Done(input.Offset(), ctx.bodysz))
    ensures r.Success? && (ctx.chunked || ctx.bodysz >= 0) ==> input.Clean(input.Offset())
    ensures r.Error? ==> goal == Outcome(ctx.events, Failed(r.error))
    ensures r.Crash? ==> goal == Outcome(ctx.events, Undefined)
    ensures !r.EmptyInput? && !r.ConsumeDataError?
  {
    hide FirstCrlf, Sound, BodyOpen, FromChunks, FromChunkData, FromFixed;
    r := ProcessBody(cfg, input, ctx, cuts, goal);
    SettleInBody(cfg, input, ctx, r, cuts, goal);
  }

  /** The blank line: the body starts two bytes behind the cursor. */
  method EnterBody(cfg: Config, input: ByteStream, ctx: Ctx, ghost cuts: set<int>, ghost goal: Outcome)
    requires ctx.Reads(cfg, input, cuts, goal) && ctx.parserState == PS_HEADER_FIELD_OUT
    requires FirstCrlf(input.seen, ctx.ViewOf(input).at) == Some(ctx.ViewOf(input).at)
    requires FirstCrlf(input.Total(), ctx.ViewOf(input).at) == Some(ctx.ViewOf(input).at)
    modifies ctx`body, ctx`currentChunk, ctx`parserState, input`pos
    ensures ctx.BodyReads(cfg, input, cuts, goal) && input.Offset() > old(input.Offset())
  {
    hide FirstCrlf, FromChunks, FromFixed;
    BlankLineSkew(ctx.ViewOf(input), input.seen, cuts);
    input.pos := input.pos + 2;
    ctx.body := Range(input.pos, input.pos);
    ctx.currentChunk := Range(input.pos, input.pos);
    ctx.parserState := PS_BODY_IN;
  }

  /** A header line that is not blank: memchr for the colon, findnosp for the value. */
  method SplitHeader(buf: bytes, start: nat, end: nat) returns (r: HeaderResult, colon: nat, value: nat)
    requires start <= end <= |buf|
    ensures r == HeaderLine(buf[start..end])
    ensures r.HeaderOk? ==> start <= colon < value <= end && r == HeaderOk(buf[start..colon], buf[value..end])
  {
    colon, value := 0, 0;
    var line := buf[start..end];
    var c := FindByte(line, ':', 0);
    if c.None? { return HeaderBad, 0, 0; }
    var v := FindNoSp(line, c.value + 1);
    if v.None? { return HeaderUndefined, 0, 0; }
    colon, value := start + c.value, start + v.value;
    r := HeaderOk(line[..c.value], line[v.value..]);
    assert line[..c.value] == buf[start..colon] && line[v.value..] == buf[value..end];
  }

  /** PS_HEADER_FIELD_OUT: waits for the end of the header line; a blank line leads straight into the body. */
  method StepHeader(cfg: Config, input: ByteStream, ctx: Ctx, ghost cuts: set<int>, ghost goal: Outcome)
    returns (r: Result)
    requires ctx.Reads(cfg, input, cuts, goal) && ctx.parserState == PS_HEADER_FIELD_OUT
    requires input.Offset() < |input.seen|
    modifies ctx, input`buf, input`pos, input`base
    ensures input.Valid() && (r.NeedMore? ==> ctx.parserState != PS_START)
    ensures r.NeedMore? ==> ctx.Reads(cfg, input, cuts, goal) && input.Unread() < old(input.Unread())
    ensures r.Success? ==> input.Valid() && input.Offset() <= |input.seen| + 1
    ensures r.Success? ==> goal == Outcome(ctx.events, Done(input.Offset(), ctx.bodysz))
    ensures r.Success? && (ctx.chunked || ctx.bodysz >= 0) ==> input.Clean(input.Offset())
    ensures r.Error? ==> goal == Outcome(ctx.events, Failed(r.error))
    ensures r.Crash? ==> goal == Outcome(ctx.events, Undefined)
    ensures !r.EmptyInput? && !r.ConsumeDataError?
  {
    hide FirstCrlf, HeaderLine, FromBody, Sound, Framing;
    var start := ctx.currentHeaderName.start;
    var end := FindLineEnd(input, start);
    if end.None? {
      WaitForLine(cfg, input, ctx, cuts, goal);
      return NeedMore;
    }
    if end.value == start {
      EnterBody(cfg, input, ctx, cuts, goal);
      r := StepBody(cfg, input, ctx, cuts, goal);
      return;
    }
    var h, colon, value := SplitHeader(input.buf, start, end.value);
    match h {
      case HeaderBad => return Error(NoColon);
      case HeaderUndefined => return Crash;
      case HeaderOk(_, _) =>
        AcceptHeader(cfg, input, ctx, colon, value, end.value, cuts, goal);
        return NeedMore;
    }
  }

  /** PS_START: the first line starts at the cursor. */
  method BeginLine(cfg: Config, input: ByteStream, ctx: Ctx, ghost cuts: set<int>, ghost goal: Outcome)
    requires ctx.Reads(cfg, input, cuts, goal) && ctx.parserState == PS_START && 0 <= input.pos <= |input.buf|
    modifies ctx`firstLine, ctx`parserState
    ensures ctx.Reads(cfg, input, cuts, goal) && ctx.parserState == PS_LINE
  {
    hide FromLine;
    ctx.firstLine := ctx.firstLine.(start := input.pos);
    ctx.parserState := PS_LINE;
  }

  /** PS_HEADER_FIELD_IN: a header line starts at the cursor. */
  method BeginHeader(cfg: Config, input: ByteStream, ctx: Ctx, ghost cuts: set<int>, ghost goal: Outcome)
    requires ctx.Reads(cfg, input, cuts, goal) && ctx.parserState == PS_HEADER_FIELD_IN && 0 <= input.pos
    modifies ctx`currentHeaderName, ctx`parserState
    ensures ctx.Reads(cfg, input, cuts, goal) && ctx.parserState == PS_HEADER_FIELD_OUT
  {
    hide FromHeaders;
    ctx.currentHeaderName := ctx.currentHeaderName.(start := input.pos);
    ctx.parserState := PS_HEADER_FIELD_OUT;
  }

  /** One turn of the loop of _http_parse_message, once there is something to look at. */
  method Turn(cfg: Config, input: ByteStream, ctx: Ctx, ghost cuts: set<int>, ghost goal: Outcome) returns (r: Result)
    requires ctx.Reads(cfg, input, cuts, goal) && input.Offset() <= |input.seen|
    requires ctx.Phase() != Start && ctx.Phase() != ChunkSizeLine ==> input.Offset() < |input.seen|
    modifies ctx, input`buf, input`pos, input`base
    ensures input.Valid() && (r.NeedMore? ==> ctx.parserState != PS_START)
    ensures r.NeedMore? ==> ctx.Reads(cfg, input, cuts, goal)
    ensures r.NeedMore? ==> input.Offset() >= old(input.Offset())
    ensures r.NeedMore? && old(input.Unread()) > 0 ==>
              || input.Unread() < old(input.Unread())
              || (input.Unread() == old(input.Unread()) && ctx.Rank() < old(ctx.Rank()))
    ensures r.Success? ==> input.Valid() && input.Offset() <= |input.seen| + 1
    ensures r.Success? ==> goal == Outcome(ctx.events, Done(input.Offset(), ctx.bodysz))
    ensures r.Success? && (ctx.chunked || ctx.bodysz >= 0) ==> input.Clean(input.Offset())
    ensures r.Error? ==> goal == Outcome(ctx.events, Failed(r.error))
    ensures r.Crash? ==> goal == Outcome(ctx.events, Undefined)
    ensures !r.EmptyInput? && !r.ConsumeDataError?
  {
    hide FirstCrlf, FromLine, FromHeaders, FromFixed, FromChunks, FromChunkData;
    match ctx.parserState {
      case PS_START =>
        BeginLine(cfg, input, ctx, cuts, goal);
        r := NeedMore;
      case PS_LINE =>
        r := StepLine(cfg, input, ctx, cuts, goal);
      case PS_HEADER_FIELD_IN =>
        BeginHeader(cfg, input, ctx, cuts, goal);
        r := NeedMore;
      case PS_HEADER_FIELD_OUT =>
        r := StepHeader(cfg, input, ctx, cuts, goal);
      case _ =>
        r := StepBody(cfg, input, ctx, cuts, goal);
    }
  }

  /** SNEEDMORE: asks for one more delivery when everything there has been read. */
  method Fill(cfg: Config, input: ByteStream, ctx: Ctx, ghost cuts: set<int>, ghost goal: Outcome) returns (ok: bool)
    requires ctx.Reads(cfg, input, cuts, goal) && |input.seen| <= input.Offset()
    requires CutsAhead(cuts, |input.seen|, input.pending)
    modifies input`buf, input`pending, input`seen
    ensures ok == (old(input.pending) != [])
    ensures ctx.Reads(cfg, input, cuts, goal) && CutsAhead(cuts, |input.seen|, input.pending)
    ensures input.Total() == old(input.Total())
    ensures ok ==> |input.pending| < |old(input.pending)| && |input.seen| > |old(input.seen)|
    ensures !ok ==> input.seen == old(input.seen) && input.pending == []
    ensures EndsFrom(goal, |old(input.seen)| + 1)
  {
    hide FirstCrlf, Cuts, FromLine, FromHeaders, FromFixed, FromChunks, FromChunkData;
    ghost var seen := input.seen;
    ghost var v := ctx.ViewOf(input);
    AsksInNeed(cfg, v, input.seen, input.Total(), cuts);
    assert input.pending != [] ==> input.pending[0] in input.pending;
    if input.pending != [] {
      NextCut(cuts, |input.seen|, input.pending);
    }
    ok := input.ConsumeData();
    if ok {
      Arrival(v, seen, input.seen, cuts);
    }
  }

  /**
   _http_parse_message.  For every stream, however it is cut into deliveries, the
   parser reports exactly what the reference reading of the whole stream says, and
   stops exactly where that reading ends.  It starts from any sound state, fresh
   or left by an earlier call.  The trail holds the offset of the cursor at every
   turn of the loop; it never goes back, whatever is recycled.
   */
  method ParseMessage(cfg: Config, input: ByteStream, ctx: Ctx) returns (res: Result, ghost trail: seq<int>)
    requires ctx.Ready(input, Cuts(|input.seen|, input.pending))
    modifies ctx, input
    ensures input.Valid() && input.Total() == old(input.Total()) && !res.NeedMore?
    ensures res.EmptyInput?
            <==> old(ctx.parserState == PS_START && input.pending == [] && |input.seen| <= input.Offset())
    ensures res.EmptyInput? ==> ctx.events == old(ctx.events)
    ensures !res.EmptyInput? ==>
              var goal := old(ctx.Reading(cfg, input, Cuts(|input.seen|, input.pending)));
              goal == Outcome(ctx.events,
                              match res
                              case Success => Done(input.Offset(), ctx.bodysz)
                              case Error(e) => Failed(e)
                              case Crash => Undefined
                              case _ => Truncated)
    ensures res.Success? && (ctx.chunked || ctx.bodysz >= 0) ==> input.Clean(input.Offset())
    ensures forall i, j :: 0 <= i < j < |trail| ==> trail[i] <= trail[j]
    ensures res.Success? ==> input.Offset() <= |input.seen| + 1
    ensures Cuts(|input.seen|, input.pending) <= old(Cuts(|input.seen|, input.pending))
    ensures res.Success? && ctx.bodysz >= 0 && input.Offset() <= |old(input.seen)|
            ==> input.pending == old(input.pending)
  {
    hide FirstCrlf, FromLine, FromHeaders, FromFixed, FromChunks, FromChunkData;
    ghost var cuts := Cuts(|input.seen|, input.pending);
    ghost var goal := ctx.Reading(cfg, input, cuts);
    res, trail := NeedMore, [];
    while res == NeedMore
      invariant input.Valid() && input.Total() == old(input.Total())
      invariant res.NeedMore? ==> ctx.Reads(cfg, input, cuts, goal)
      invariant CutsAhead(cuts, |input.seen|, input.pending)
      invariant res.Success? ==> input.Offset() <= |input.seen| + 1
      invariant res.Success? ==> goal == Outcome(ctx.events, Done(input.Offset(), ctx.bodysz))
      invariant res.Success? && (ctx.chunked || ctx.bodysz >= 0) ==> input.Clean(input.Offset())
      invariant res.Error? ==> goal == Outcome(ctx.events, Failed(res.error))
      invariant res.Crash? ==> goal == Outcome(ctx.events, Undefined)
      invariant !res.EmptyInput? && !res.ConsumeDataError?
      invariant res.NeedMore? && ctx.parserState == PS_START ==>
                  && input.pending == old(input.pending) && input.seen == old(input.seen)
                  && input.Offset() == old(input.Offset())
                  && old(ctx.parserState) == PS_START && ctx.events == old(ctx.events)
      invariant old(ctx.parserState == PS_START && input.pending == [] && |input.seen| <= input.Offset()) ==>
                  res.NeedMore? && ctx.parserState == PS_START
      invariant |input.seen| >= |old(input.seen)|
      invariant forall i, j :: 0 <= i < j < |trail| ==> trail[i] <= trail[j]
      invariant res.NeedMore? ==> forall i :: 0 <= i < |trail| ==> trail[i] <= input.Offset()
      invariant input.pending == old(input.pending) || EndsFrom(goal, |old(input.seen)| + 1)
      decreases res.NeedMore?, |input.pending|, input.Unread(), ctx.Rank()
    {
      trail := trail + [input.Offset()];
      if |input.buf| <= input.pos {
        var ok := Fill(cfg, input, ctx, cuts, goal);
        if !ok {
          if ctx.parserState == PS_START {
            res := EmptyInput;
          } else {
            assert input.Total() == input.seen;
            AtEndOfFile(cfg, ctx.ViewOf(input), input.seen, cuts);
            res := ConsumeDataError;
          }
          return;
        }
      }
      res := Turn(cfg, input, ctx, cuts, goal);
    }
  }
}
