/**
 Whole messages, of declared length or chunked (section 3.6.1 of RFC 2616, without
 extensions and trailers): the parser inverts their grammar, ends exactly at their
 end, and reads any number of them one after the other.
 */
module Messages {
  import opened Bytes
  import opened Numbers
  import opened MessageSpec
  import opened SplitLaws
  import opened Writers
  import opened RoundTrip

  /** A chunk: the text of its size line, and its data. */
  datatype Chunk = Chunk(size: bytes, data: bytes)

  datatype Body = Declared(data: bytes) | Chunked(chunks: seq<Chunk>)

  datatype Message = Message(line: bytes, fields: seq<Field>, body: Body)

  // --------------------------------------------------------------------------- chunks

  function ChunksText(chunks: seq<Chunk>): bytes {
    if chunks == [] then []
    else chunks[0].size + CRLF + (chunks[0].data + (CRLF + ChunksText(chunks[1..])))
  }

  function ChunkEvents(chunks: seq<Chunk>): seq<Event> {
    if chunks == [] then []
    else [BodyEvent(chunks[0].data, |chunks[0].data|)] + ChunkEvents(chunks[1..])
  }

  function ChunksSize(chunks: seq<Chunk>): nat {
    if chunks == [] then 0 else |chunks[0].data| + ChunksSize(chunks[1..])
  }

  /** A chunk of section 3.6.1 of RFC 2616: the size line is 1*HEX and says how long the data are. */
  predicate RfcChunk(c: Chunk) {
    Numeral(c.size, true) && Horner(c.size, true) == |c.data|
  }

  /** Chunks with data, and a last chunk without. */
  predicate RfcChunks(chunks: seq<Chunk>) {
    chunks != [] && RfcChunk(chunks[0])
    && if |chunks| == 1 then chunks[0].data == [] else chunks[0].data != [] && RfcChunks(chunks[1..])
  }

  /** A chunk whose size line the parser takes; that is more than the grammar allows ("+5", " 0x5"). */
  predicate TakenChunk(c: Chunk) {
    Unbroken(c.size) && ChunkSize(c.size) == SizeOk(|c.data|)
  }

  predicate TakenChunks(chunks: seq<Chunk>) {
    chunks != [] && TakenChunk(chunks[0])
    && if |chunks| == 1 then chunks[0].data == [] else chunks[0].data != [] && TakenChunks(chunks[1..])
  }

  /** Every size line of the grammar is taken: any number of hexadecimal digits, in either case. */
  lemma {:induction false} HexSizeIsTaken(c: Chunk)
    requires RfcChunk(c) && |c.data| <= INT_MAX
    ensures TakenChunk(c)
  {
    hide Strtol, Horner;
    assert c.size + [] == c.size;
    StrtolNumeral(c.size, [], true);
    NumeralPlain(c.size, true);
    assert c.size[0] in c.size && forall k :: 0 <= k < |c.size| ==> c.size[k] in c.size;
    ToInt32Small(|c.data|);
  }

  /** The size of every chunk is an int. */
  predicate IntChunks(chunks: seq<Chunk>) {
    forall c :: c in chunks ==> |c.data| <= INT_MAX
  }

  lemma {:induction false} RfcChunksAreTaken(chunks: seq<Chunk>)
    requires RfcChunks(chunks) && IntChunks(chunks)
    ensures TakenChunks(chunks)
    decreases |chunks|
  {
    hide RfcChunk, TakenChunk;
    assert chunks[0] in chunks;
    HexSizeIsTaken(chunks[0]);
    if |chunks| > 1 {
      assert forall c :: c in chunks[1..] ==> c in chunks;
      RfcChunksAreTaken(chunks[1..]);
    }
  }

  lemma {:induction false} SumBoundsChunks(chunks: seq<Chunk>)
    requires ChunksSize(chunks) <= INT_MAX
    ensures IntChunks(chunks)
    decreases |chunks|
  {
    if chunks != [] {
      SumBoundsChunks(chunks[1..]);
    }
  }

  /** A size line that is one hexadecimal number, as strtol reads numbers, with nothing behind it. */
  predicate SizeNumber(line: bytes, n: NumberText) {
    GoodNumber(n, true) && n.rest == [] && NumberString(n) == line
  }

  function SizeValue(n: NumberText): int {
    ToInt32(Clamped(SignedValue(n, true), 0).value)
  }

  lemma {:induction false} SizeNumberReads(line: bytes, n: NumberText)
    requires SizeNumber(line, n)
    ensures ChunkSize(line) == if SizeValue(n) < 0 then SizeBad else SizeOk(SizeValue(n))
  {
    hide Strtol, ToInt32, SignedValue, AllSpace;
    StrtolReads(n, true);
    NumberFills(n);
  }

  lemma {:induction false} NumberFills(n: NumberText)
    requires GoodNumber(n, true) && n.rest == []
    ensures NumberEnd(n) == |NumberString(n)| > 0 && !AllSpace(NumberString(n))
  {
    NumeralPlain(n.digits, true);
    var s, k := NumberString(n), NumberEnd(n) - |n.digits|;
    assert s[k] == n.digits[0] && n.digits[0] in n.digits;
  }

  /**
   The size lines, exactly: one is taken if and only if it is one number whose int
   value is not negative, and then it has that value; "zz", "5;x" and "-5" are not.
   */
  lemma {:induction false} ChunkSizeExact(line: bytes)
    ensures ChunkSize(line) == SizeUndefined <==> line == []
    ensures forall size: nat ::
              ChunkSize(line) == SizeOk(size) <==> exists n :: SizeNumber(line, n) && SizeValue(n) == size
  {
    hide SizeNumber, SizeValue;
    assert ChunkSize(line) == SizeUndefined <==> line == [];
    if ChunkSize(line).SizeOk? {
      var n := SizeFound(line);
      SizeNumberReads(line, n);
    }
    forall n | SizeNumber(line, n)
      ensures ChunkSize(line) == if SizeValue(n) < 0 then SizeBad else SizeOk(SizeValue(n))
    {
      SizeNumberReads(line, n);
    }
  }

  lemma {:induction false} SizeFound(line: bytes) returns (n: NumberText)
    requires ChunkSize(line).SizeOk?
    ensures SizeNumber(line, n)
  {
    hide Strtol, ToInt32, NumberEnd, SignedValue, GoodNumber, AllSpace;
    n := StrtolFound(line, true);
    StrtolReads(n, true);
    assert |n.rest| == 0 by { RestLength(n); }
  }

  lemma {:induction false} RestLength(n: NumberText)
    ensures NumberEnd(n) + |n.rest| == |NumberString(n)|
  {
  }

  /** A body whose first size line is not taken fails, and reports nothing. */
  lemma {:induction false} BadSizeFails(s: bytes, at: nat, line: bytes, total: int)
    requires StandsAt(s, at, line + CRLF) && Unbroken(line) && line != []
    requires forall n :: SizeNumber(line, n) ==> SizeValue(n) < 0
    ensures FromChunks(s, at, total) == Outcome([], Failed(BodyError))
  {
    hide ChunkSize, FirstCrlf, SizeNumber, SizeValue;
    LineStands(s, at, line);
    ChunkSizeExact(line);
  }

  /** The usual size line is one of them. */
  lemma {:induction false} UsualSize(data: bytes)
    ensures RfcChunk(Chunk(Digits(|data|, true), data))
  {
    DigitsAreNumeral(|data|, true);
  }

  lemma {:induction false} ChunkSizeRead(s: bytes, at: nat, c: Chunk, total: int)
    requires StandsAt(s, at, c.size + CRLF) && TakenChunk(c)
    ensures FromChunks(s, at, total) == FromChunkData(s, at + |c.size| + 2, |c.data|, ToInt32(total + |c.data|))
  {
    hide ChunkSize, FirstCrlf, FromChunkData, ToInt32;
    LineStands(s, at, c.size);
  }

  /** The two bytes behind the data are skipped, whatever they are. */
  lemma {:induction false} ChunkDataRead(s: bytes, d: nat, data: bytes, pair: bytes, total: int)
    requires StandsAt(s, d, data) && |pair| == 2 && StandsAt(s, d + |data|, pair)
    ensures FromChunkData(s, d, |data|, total)
            == Prepend([BodyEvent(data, |data|)],
                       if data != [] then FromChunks(s, d + |data| + 2, total)
                       else Outcome([], Done(d + |data| + 2, total)))
  {
    hide FromChunks;
  }

  /** One chunk standing in the stream, with any two bytes behind its data. */
  lemma {:induction false} ChunkRead(s: bytes, at: nat, c: Chunk, pair: bytes, rest: bytes, total: int)
    requires StandsAt(s, at, c.size + CRLF + (c.data + (pair + rest))) && TakenChunk(c) && |pair| == 2
    ensures var next, sum := at + |c.size| + 2 + |c.data| + 2, ToInt32(total + |c.data|);
            && StandsAt(s, next, rest)
            && FromChunks(s, at, total)
               == Prepend([BodyEvent(c.data, |c.data|)],
                          if c.data != [] then FromChunks(s, next, sum) else Outcome([], Done(next, sum)))
  {
    hide FromChunks, FromChunkData, StandsAt, TakenChunk, ToInt32;
    var d := at + |c.size| + 2;
    StandsApart(s, at, c.size + CRLF, c.data + (pair + rest));
    ChunkSizeRead(s, at, c, total);
    StandsApart(s, d, c.data, pair + rest);
    StandsApart(s, d + |c.data|, pair, rest);
    ChunkDataRead(s, d, c.data, pair, ToInt32(total + |c.data|));
  }

  lemma {:induction false} TakenChunksRead(s: bytes, at: nat, chunks: seq<Chunk>, total: int)
    requires StandsAt(s, at, ChunksText(chunks)) && TakenChunks(chunks)
    ensures FromChunks(s, at, total)
            == Outcome(ChunkEvents(chunks), Done(at + |ChunksText(chunks)|, ToInt32(total + ChunksSize(chunks))))
    decreases |chunks|
  {
    hide FromChunks, StandsAt, TakenChunk, ToInt32;
    var c, rest := chunks[0], chunks[1..];
    ChunkRead(s, at, c, CRLF, ChunksText(rest), total);
    if |chunks| > 1 {
      var sum := ToInt32(total + |c.data|);
      TakenChunksRead(s, at + |c.size| + 2 + |c.data| + 2, rest, sum);
      ToInt32Again(total + |c.data|, ChunksSize(rest));
    } else {
      assert rest == [];
    }
  }

  /**
   Chunked decoding inverts the chunked grammar: one callback per chunk with exactly
   its bytes, the last one empty, bodysz the sum of the sizes as an int, and the end
   just past the final CR LF.
   */
  lemma {:induction false} ChunksRead(s: bytes, at: nat, chunks: seq<Chunk>, total: int)
    requires StandsAt(s, at, ChunksText(chunks)) && RfcChunks(chunks) && IntChunks(chunks)
    ensures FromChunks(s, at, total)
            == Outcome(ChunkEvents(chunks), Done(at + |ChunksText(chunks)|, ToInt32(total + ChunksSize(chunks))))
  {
    hide RfcChunks, TakenChunks, FromChunks, StandsAt, ChunksText, ChunkEvents, ChunksSize, ToInt32;
    RfcChunksAreTaken(chunks);
    TakenChunksRead(s, at, chunks, total);
  }

  /** Where the data of chunk k end, counted from the start of the body. */
  function DataEnd(chunks: seq<Chunk>, k: nat): nat
    requires k < |chunks|
  {
    |ChunksText(chunks[..k])| + |chunks[k].size| + 2 + |chunks[k].data|
  }

  lemma {:induction false} DataEndStep(chunks: seq<Chunk>, k: nat)
    requires 0 < k < |chunks|
    ensures DataEnd(chunks, k) == |chunks[0].size| + 2 + |chunks[0].data| + 2 + DataEnd(chunks[1..], k - 1)
  {
    assert chunks[..k][1..] == chunks[1..][..k - 1];
  }

  /** Exactly k chunks have their data, and one byte more, within n bytes. */
  predicate Arrived(chunks: seq<Chunk>, n: int, k: nat) {
    k <= |chunks| && (k > 0 ==> DataEnd(chunks, k - 1) < n) && (k < |chunks| ==> n <= DataEnd(chunks, k))
  }

  lemma {:induction false} CutSizeRead(t: bytes, s: bytes, at: nat, c: Chunk, total: int)
    requires t <= s && StandsAt(s, at, c.size + CRLF) && TakenChunk(c)
    ensures var d := at + |c.size| + 2;
            FromChunks(t, at, total)
            == if |t| < d then Outcome([], Truncated) else FromChunkData(t, d, |c.data|, ToInt32(total + |c.data|))
  {
    hide FirstCrlf, ChunkSize, ToInt32, FromChunkData, StandsAt;
    LineStands(s, at, c.size);
    FirstCrlfStable(t, s, at);
    if |t| >= at + |c.size| + 2 {
      assert t[at..at + |c.size|] == s[at..at + |c.size|];
    }
  }

  lemma {:induction false} CutDataRead(t: bytes, s: bytes, d: nat, data: bytes, sum: int)
    requires t <= s && StandsAt(s, d, data)
    ensures FromChunkData(t, d, |data|, sum)
            == if |t| <= d + |data| then Outcome([], Truncated)
               else Prepend([BodyEvent(data, |data|)],
                            if data != [] then FromChunks(t, d + |data| + 2, sum)
                            else Outcome([], Done(d + |data| + 2, sum)))
  {
    hide FromChunks;
    if d + |data| < |t| {
      assert t[d..d + |data|] == s[d..d + |data|];
    }
  }

  /** The first chunk of a stream that ends early. */
  lemma {:induction false} CutChunkRead(t: bytes, s: bytes, at: nat, c: Chunk, rest: bytes, total: int)
    requires t <= s && StandsAt(s, at, c.size + CRLF + (c.data + (CRLF + rest))) && TakenChunk(c)
    ensures var d, sum := at + |c.size| + 2 + |c.data|, ToInt32(total + |c.data|);
            && StandsAt(s, d + 2, rest)
            && FromChunks(t, at, total)
               == if |t| <= d then Outcome([], Truncated)
                  else Prepend([BodyEvent(c.data, |c.data|)],
                               if c.data != [] then FromChunks(t, d + 2, sum) else Outcome([], Done(d + 2, sum)))
  {
    hide ToInt32, StandsAt, TakenChunk, FromChunks, FromChunkData;
    var d := at + |c.size| + 2;
    StandsApart(s, at, c.size + CRLF, c.data + (CRLF + rest));
    StandsApart(s, d, c.data, CRLF + rest);
    StandsApart(s, d + |c.data|, CRLF, rest);
    CutSizeRead(t, s, at, c, total);
    CutDataRead(t, s, d, c.data, ToInt32(total + |c.data|));
  }

  /**
   A chunked body that ends early, exactly: the chunks reported are those whose data
   have arrived with one byte more, and the message is complete one byte before its
   last.
   */
  lemma {:induction false} ChunksCut(t: bytes, s: bytes, at: nat, chunks: seq<Chunk>, k: nat, total: int)
    requires t <= s && StandsAt(s, at, ChunksText(chunks)) && TakenChunks(chunks) && Arrived(chunks, |t| - at, k)
    ensures FromChunks(t, at, total)
            == Outcome(ChunkEvents(chunks[..k]),
                       if k < |chunks| then Truncated
                       else Done(at + |ChunksText(chunks)|, ToInt32(total + ChunksSize(chunks))))
    decreases |chunks|
  {
    hide FromChunks, StandsAt, TakenChunk, ToInt32;
    var c, rest := chunks[0], chunks[1..];
    var d := at + |c.size| + 2 + |c.data|;
    CutChunkRead(t, s, at, c, ChunksText(rest), total);
    assert DataEnd(chunks, 0) == d - at by { assert ChunksText(chunks[..0]) == []; }
    if k == 0 {
      assert ChunkEvents(chunks[..0]) == [];
    } else {
      if k > 1 {
        DataEndStep(chunks, k - 1);
        FirstDataEnd(chunks, k - 1);
      }
      if k < |chunks| {
        DataEndStep(chunks, k);
      }
      assert chunks[..k][1..] == rest[..k - 1];
      if |chunks| > 1 {
        ChunksCut(t, s, d + 2, rest, k - 1, ToInt32(total + |c.data|));
        ToInt32Again(total + |c.data|, ChunksSize(rest));
      } else {
        assert rest == [];
      }
    }
  }

  lemma {:induction false} FirstDataEnd(chunks: seq<Chunk>, k: nat)
    requires k < |chunks|
    ensures DataEnd(chunks, 0) <= DataEnd(chunks, k)
  {
    if k > 0 {
      DataEndStep(chunks, k);
    }
    assert ChunksText(chunks[..0]) == [];
  }

  // -------------------------------------------------------------------------- framing

  /** Transfer-Encoding: chunked, as C strings, with the name in any case. */
  predicate SaysChunked(f: Field) {
    SameNoCase(CString(f.name), "transfer-encoding") && CString(f.value) == "chunked"
  }

  /** A field that process_header passes over. */
  predicate Neutral(f: Field) {
    && !SameNoCase(CString(f.name), "content-length")
    && !(SameNoCase(CString(f.name), "transfer-encoding") && CString(f.value) == "chunked")
  }

  predicate AllNeutral(fields: seq<Field>) {
    forall f :: f in fields ==> Neutral(f)
  }

  lemma {:induction false} NeutralFrame(frame: Frame, fields: seq<Field>)
    requires AllNeutral(fields)
    ensures FieldsFrame(frame, fields) == frame
    decreases |fields|
  {
    if fields != [] {
      assert Neutral(fields[0]) by { assert fields[0] in fields; }
      assert forall f :: f in fields[1..] ==> f in fields;
      hide CString, SameNoCase, Strtol;
      NeutralFrame(frame, fields[1..]);
    }
  }

  lemma {:induction false} FrameApart(frame: Frame, a: seq<Field>, b: seq<Field>)
    ensures FieldsFrame(frame, a + b) == FieldsFrame(FieldsFrame(frame, a), b)
    decreases |a|
  {
    hide Framing;
    if a == [] {
      assert a + b == b;
    } else {
      assert (a + b)[1..] == a[1..] + b;
      FrameApart(Framing(frame, a[0].name, a[0].value), a[1..], b);
    }
  }

  /** Behind the last field that is not neutral, the framing is what that field made of it. */
  lemma {:induction false} LastSayFrames(frame: Frame, a: seq<Field>, f: Field, b: seq<Field>)
    requires AllNeutral(b)
    ensures FieldsFrame(frame, a + [f] + b) == Framing(FieldsFrame(frame, a), f.name, f.value)
  {
    hide Framing, Neutral;
    FrameApart(frame, a + [f], b);
    FrameApart(frame, a, [f]);
    var before := FieldsFrame(frame, a);
    assert FieldsFrame(before, [f]) == FieldsFrame(Framing(before, f.name, f.value), []);
    NeutralFrame(FieldsFrame(frame, a + [f]), b);
  }

  lemma {:induction false} ChunkedFrames(frame: Frame, f: Field)
    requires SaysChunked(f)
    ensures Framing(frame, f.name, f.value) == Frame(0, true)
  {
    hide Strtol, CString;
    assert |CString(f.name)| == 17;
  }

  /** "Transfer-Encoding: chunked" behind any fields and in front of neutral ones declares every chunked body. */
  lemma {:induction false} ChunkedDeclares(a: seq<Field>, f: Field, b: seq<Field>, chunks: seq<Chunk>)
    requires SaysChunked(f) && AllNeutral(b) && RfcChunks(chunks) && ChunksSize(chunks) <= INT_MAX
    ensures DeclaresBody(a + [f] + b, Chunked(chunks))
  {
    hide RfcChunks, TakenChunks, ChunksSize, Framing, SaysChunked, AllNeutral, FieldsFrame;
    SumBoundsChunks(chunks);
    RfcChunksAreTaken(chunks);
    LastSayFrames(UNDECLARED, a, f, b);
    ChunkedFrames(FieldsFrame(UNDECLARED, a), f);
  }

  /** A decimal Content-Length among any neutral fields declares the body of that length. */
  lemma {:induction false} LengthDeclares(a: seq<Field>, name: bytes, b: seq<Field>, data: bytes)
    requires AllNeutral(a) && AllNeutral(b) && |data| <= INT_MAX
    requires NUL !in name && SameNoCase(name, "content-length")
    ensures DeclaresBody(a + [Field(name, Decimal(|data|))] + b, Declared(data))
  {
    hide Decimal, SameNoCase, Framing, AllNeutral, FieldsFrame;
    var f := Field(name, Decimal(|data|));
    LastSayFrames(UNDECLARED, a, f, b);
    NeutralFrame(UNDECLARED, a);
    ContentLengthDeclares(UNDECLARED, name, |data|);
  }

  // ------------------------------------------------------------------------- messages

  function BodyText(b: Body): bytes {
    match b
    case Declared(data) => data
    case Chunked(chunks) => ChunksText(chunks)
  }

  function BodyEvents(b: Body): seq<Event> {
    match b
    case Declared(data) => [BodyEvent(data, |data|)]
    case Chunked(chunks) => ChunkEvents(chunks)
  }

  function BodySize(b: Body): nat {
    match b
    case Declared(data) => |data|
    case Chunked(chunks) => ChunksSize(chunks)
  }

  /** The header fields declare this body. */
  predicate DeclaresBody(fields: seq<Field>, b: Body) {
    match b
    case Declared(data) => FieldsFrame(UNDECLARED, fields) == Frame(|data|, false)
    case Chunked(chunks) =>
      TakenChunks(chunks) && ChunksSize(chunks) <= INT_MAX && FieldsFrame(UNDECLARED, fields) == Frame(0, true)
  }

  predicate WellFormed(cfg: Config, m: Message) {
    && Unbroken(m.line) && FirstLine(cfg, m.line).LineOk?
    && CleanFields(m.fields) && DeclaresBody(m.fields, m.body)
  }

  function HeadOf(m: Message): bytes {
    HeadText(m.line, m.fields)
  }

  function MessageText(m: Message): bytes {
    HeadOf(m) + BodyText(m.body)
  }

  lemma {:induction false} MessageNotEmpty(m: Message)
    ensures |MessageText(m)| >= |HeadOf(m)| >= 4
  {
  }

  function LineEvents(cfg: Config, line: bytes): seq<Event> {
    match FirstLine(cfg, line)
    case LineOk(start) => [LineEvent(start)]
    case _ => []
  }

  function MessageEvents(cfg: Config, m: Message): seq<Event> {
    LineEvents(cfg, m.line) + FieldEvents(m.fields) + BodyEvents(m.body)
  }

  /** How a message that starts at i should be read. */
  function MessageOutcome(cfg: Config, i: nat, m: Message): Outcome {
    Outcome(MessageEvents(cfg, m), Done(i + |MessageText(m)|, BodySize(m.body)))
  }

  /** The head of a message: its first line and headers are reported, and the body starts behind the blank line. */
  lemma {:induction false} HeadReads(cfg: Config, s: bytes, cuts: set<int>, i: nat, line: bytes, fields: seq<Field>)
    requires StandsAt(s, i, HeadText(line, fields))
    requires Unbroken(line) && FirstLine(cfg, line).LineOk? && CleanFields(fields)
    ensures var b := i + |HeadText(line, fields)| - 2;
            && MessageBlank(cfg, s, i) == Some(b)
            && MessageFrame(cfg, s, i, UNDECLARED) == FieldsFrame(UNDECLARED, fields)
            && FromLine(cfg, s, cuts, i, UNDECLARED)
               == Prepend(LineEvents(cfg, line) + FieldEvents(fields),
                          FromBody(s, BodyStart(cuts, b), FieldsFrame(UNDECLARED, fields)))
  {
    hide FirstLine, FirstCrlf, FromHeaders, FromBody, BlankLine, HeadersAt, FrameAt, FieldsText, FieldEvents;
    hide FieldsFrame, CleanFields, BodyStart;
    StandsApart(s, i, line + CRLF, FieldsText(fields) + CRLF);
    LineStands(s, i, line);
    var h := i + |line| + 2;
    FieldsRead(s, h, fields, UNDECLARED);
    ReadingSplitsAtBlank(s, cuts, h, UNDECLARED);
    PrependTwice([LineEvent(FirstLine(cfg, line).line)], FieldEvents(fields),
                 FromBody(s, BodyStart(cuts, h + |FieldsText(fields)|), FieldsFrame(UNDECLARED, fields)));
  }

  lemma {:induction false} BodyReads(s: bytes, at: nat, fields: seq<Field>, b: Body)
    requires StandsAt(s, at, BodyText(b)) && DeclaresBody(fields, b)
    ensures FromBody(s, at, FieldsFrame(UNDECLARED, fields))
            == Outcome(BodyEvents(b), Done(at + |BodyText(b)|, BodySize(b)))
  {
    hide FieldsFrame, FromChunks, ChunksText, ChunkEvents, ChunksSize, TakenChunks;
    match b
    case Declared(data) =>
    case Chunked(chunks) =>
      TakenChunksRead(s, at, chunks, 0);
      ToInt32Small(ChunksSize(chunks));
  }

  /**
   Exact framing: a well-formed message, anywhere in a stream and followed by
   anything, is read to exactly its events and exactly its end, if no delivery ended
   inside its blank line.
   */
  lemma {:induction false} MessageReads(cfg: Config, s: bytes, cuts: set<int>, i: nat, m: Message)
    requires StandsAt(s, i, MessageText(m)) && WellFormed(cfg, m)
    requires i + |HeadOf(m)| - 1 !in cuts
    ensures FromLine(cfg, s, cuts, i, UNDECLARED) == MessageOutcome(cfg, i, m)
    ensures BlankLineWhole(cfg, s, cuts, i)
  {
    hide FirstLine, FromLine, FromBody, HeadText, BodyText, BodyEvents, FieldEvents, FieldsFrame, DeclaresBody;
    hide StandsAt, MessageBlank, MessageFrame;
    StandsApart(s, i, HeadOf(m), BodyText(m.body));
    HeadReads(cfg, s, cuts, i, m.line, m.fields);
    BodyReads(s, i + |HeadOf(m)|, m.fields, m.body);
  }

  /**
   When the framing is exact: behind a head that does not say "chunked", the parser
   ends n bytes behind the blank line if and only if the head declares n.  A head
   that declares no length declares -1, so the parser ends one byte too early, on
   the LF of the blank line.
   */
  lemma {:induction false} FramingExact(cfg: Config, s: bytes, cuts: set<int>, i: nat, line: bytes,
                                        fields: seq<Field>, n: int)
    requires StandsAt(s, i, HeadText(line, fields)) && n <= |s| - i - |HeadText(line, fields)|
    requires Unbroken(line) && FirstLine(cfg, line).LineOk? && CleanFields(fields)
    requires !FieldsFrame(UNDECLARED, fields).chunked && i + |HeadText(line, fields)| - 1 !in cuts
    ensures var v := FromLine(cfg, s, cuts, i, UNDECLARED).verdict;
            v.Done? && v.end == i + |HeadText(line, fields)| + n <==> FieldsFrame(UNDECLARED, fields).bodysz == n
  {
    hide FirstLine, FromLine, FirstCrlf, HeadText, FieldEvents, FieldsFrame, StandsAt, MessageBlank, MessageFrame;
    HeadReads(cfg, s, cuts, i, line, fields);
  }

  /**
   A message whose header fields declare nothing, the plain "GET / HTTP/1.1" for
   one: the parser reports a body of length -1 and leaves the LF of the blank line
   to the next message.
   */
  lemma {:induction false} UndeclaredEndsEarly(cfg: Config, s: bytes, i: nat, line: bytes, fields: seq<Field>)
    requires StandsAt(s, i, HeadText(line, fields)) && Unbroken(line) && FirstLine(cfg, line).LineOk?
    requires CleanFields(fields) && AllNeutral(fields)
    ensures FromLine(cfg, s, {}, i, UNDECLARED)
            == Outcome(LineEvents(cfg, line) + FieldEvents(fields) + [BodyEvent([], -1)],
                       Done(i + |HeadText(line, fields)| - 1, -1))
  {
    hide FirstLine, FromLine, FirstCrlf, HeadText, StandsAt, MessageBlank, MessageFrame, FieldsFrame, FieldEvents;
    hide AllNeutral, CleanFields;
    NeutralFrame(UNDECLARED, fields);
    HeadReads(cfg, s, {}, i, line, fields);
  }

  /** A delivery that ends inside the blank line of a message of declared length always spoils the message. */
  lemma {:induction false} CutBlankLineSpoils(cfg: Config, s: bytes, cuts: set<int>, i: nat, m: Message)
    requires StandsAt(s, i, MessageText(m)) && WellFormed(cfg, m) && m.body.Declared?
    requires i + |HeadOf(m)| - 1 in cuts
    ensures FromLine(cfg, s, cuts, i, UNDECLARED) != MessageOutcome(cfg, i, m)
  {
    hide FirstLine, FromLine, FromBody, HeadText, BodyText, BodyEvents, FieldEvents, StandsAt, MessageOutcome;
    hide MessageBlank, MessageFrame, FirstByteIdle, FieldsFrame;
    MessageReads(cfg, s, {}, i, m);
    StandsApart(s, i, HeadOf(m), BodyText(m.body));
    HeadReads(cfg, s, {}, i, m.line, m.fields);
    OutcomeIsDone(cfg, i, m);
    SplitIndependenceExact(cfg, s, cuts, i, UNDECLARED);
  }

  lemma {:induction false} OutcomeIsDone(cfg: Config, i: nat, m: Message)
    ensures MessageOutcome(cfg, i, m).verdict.Done?
  {
  }

  // --------------------------------------------------------------------------- failures

  /** A bad first line fails at once with its error. */
  lemma {:induction false} BadLineFails(cfg: Config, s: bytes, cuts: set<int>, i: nat, line: bytes)
    requires StandsAt(s, i, line + CRLF) && Unbroken(line) && FirstLine(cfg, line).LineBad?
    ensures FromLine(cfg, s, cuts, i, UNDECLARED) == Outcome([], Failed(FirstLine(cfg, line).error))
  {
    hide FirstLine, FirstCrlf, FromHeaders;
    LineStands(s, i, line);
  }

  /** Clean header fields are reported, whatever follows them. */
  lemma {:induction false} FieldsGoOn(s: bytes, cuts: set<int>, i: nat, fields: seq<Field>, frame: Frame)
    requires StandsAt(s, i, FieldsText(fields)) && CleanFields(fields)
    ensures FromHeaders(s, cuts, i, frame)
            == Prepend(FieldEvents(fields), FromHeaders(s, cuts, i + |FieldsText(fields)|, FieldsFrame(frame, fields)))
    decreases |fields|
  {
    hide StandsAt, FirstCrlf, HeaderLine, Framing, FieldText, Plain, FromHeaders;
    if fields != [] {
      var f, rest := fields[0], fields[1..];
      assert f in fields && forall g :: g in rest ==> g in fields;
      StandsApart(s, i, FieldText(f) + CRLF, FieldsText(rest));
      var j, frame' := i + |FieldText(f)| + 2, Framing(frame, f.name, f.value);
      FieldGoesOn(s, cuts, i, f, frame);
      FieldsGoOn(s, cuts, j, rest, frame');
      PrependTwice([HeaderEvent(f.name, f.value)], FieldEvents(rest),
                   FromHeaders(s, cuts, j + |FieldsText(rest)|, FieldsFrame(frame', rest)));
    }
  }

  lemma {:induction false} FieldGoesOn(s: bytes, cuts: set<int>, i: nat, f: Field, frame: Frame)
    requires StandsAt(s, i, FieldText(f) + CRLF) && Plain(f) && Unbroken(FieldText(f))
    ensures FromHeaders(s, cuts, i, frame)
            == Prepend([HeaderEvent(f.name, f.value)],
                       FromHeaders(s, cuts, i + |FieldText(f)| + 2, Framing(frame, f.name, f.value)))
  {
    hide FirstCrlf, HeaderLine, Framing, FieldText, FromBody;
    LineStands(s, i, FieldText(f));
    FieldReadsBack(f);
    FieldTextNotEmpty(f);
  }

  /** A header line without a colon fails the message, behind the headers in front of it. */
  lemma {:induction false} BadHeaderFails(cfg: Config, s: bytes, cuts: set<int>, i: nat, line: bytes,
                                          fields: seq<Field>, bad: bytes)
    requires StandsAt(s, i, line + CRLF + (FieldsText(fields) + (bad + CRLF)))
    requires Unbroken(line) && FirstLine(cfg, line).LineOk? && CleanFields(fields)
    requires bad != [] && Unbroken(bad) && ':' !in bad
    ensures FromLine(cfg, s, cuts, i, UNDECLARED)
            == Outcome(LineEvents(cfg, line) + FieldEvents(fields), Failed(NoColon))
  {
    hide FirstLine, StandsAt, FirstCrlf, HeaderLine, FieldsText, FieldEvents, FieldsFrame, CleanFields, FromHeaders;
    StandsApart(s, i, line + CRLF, FieldsText(fields) + (bad + CRLF));
    LineStands(s, i, line);
    var h := i + |line| + 2;
    StandsApart(s, h, FieldsText(fields), bad + CRLF);
    FieldsGoOn(s, cuts, h, fields, UNDECLARED);
    NoColonFails(s, cuts, h + |FieldsText(fields)|, bad, FieldsFrame(UNDECLARED, fields));
  }

  lemma {:induction false} NoColonFails(s: bytes, cuts: set<int>, i: nat, bad: bytes, frame: Frame)
    requires StandsAt(s, i, bad + CRLF) && bad != [] && Unbroken(bad) && ':' !in bad
    ensures FromHeaders(s, cuts, i, frame) == Outcome([], Failed(NoColon))
  {
    hide FirstCrlf, HeaderLine, FromBody, Framing;
    LineStands(s, i, bad);
    HeaderLineExact(bad);
  }

  // ----------------------------------------------------------------------- pipelining

  function PipelineText(ms: seq<Message>): bytes {
    if ms == [] then [] else MessageText(ms[0]) + PipelineText(ms[1..])
  }

  /** What n fresh contexts report, one after the other, from offset i on. */
  function ReadMany(cfg: Config, s: bytes, cuts: set<int>, i: nat, n: nat): seq<Outcome>
    decreases n
  {
    if n == 0 then []
    else
      var o := FromLine(cfg, s, cuts, i, UNDECLARED);
      if o.verdict.Done? && o.verdict.end >= 0 then [o] + ReadMany(cfg, s, cuts, o.verdict.end, n - 1) else [o]
  }

  /** What the messages of a pipeline should be read as. */
  function PipelineOutcomes(cfg: Config, i: nat, ms: seq<Message>): seq<Outcome>
    decreases |ms|
  {
    if ms == [] then []
    else [MessageOutcome(cfg, i, ms[0])] + PipelineOutcomes(cfg, i + |MessageText(ms[0])|, ms[1..])
  }

  /** No delivery ends inside a blank line of the pipeline that starts at i. */
  predicate BlankLinesWhole(cuts: set<int>, i: nat, ms: seq<Message>)
    decreases |ms|
  {
    ms != [] ==> i + |HeadOf(ms[0])| - 1 !in cuts && BlankLinesWhole(cuts, i + |MessageText(ms[0])|, ms[1..])
  }

  /** n messages in a row are read as n messages, each as if it were alone. */
  lemma {:induction false} PipelineReads(cfg: Config, s: bytes, cuts: set<int>, i: nat, ms: seq<Message>)
    requires StandsAt(s, i, PipelineText(ms)) && BlankLinesWhole(cuts, i, ms)
    requires forall m :: m in ms ==> WellFormed(cfg, m)
    ensures ReadMany(cfg, s, cuts, i, |ms|) == PipelineOutcomes(cfg, i, ms)
    decreases |ms|
  {
    hide WellFormed, MessageText, MessageEvents, HeadOf, FromLine, StandsAt, BodySize;
    if ms != [] {
      var m := ms[0];
      assert m in ms && forall m :: m in ms[1..] ==> m in ms;
      StandsApart(s, i, MessageText(m), PipelineText(ms[1..]));
      MessageReads(cfg, s, cuts, i, m);
      PipelineReads(cfg, s, cuts, i + |MessageText(m)|, ms[1..]);
    }
  }
}
