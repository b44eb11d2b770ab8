/**
 What an HTTP/1.1 message is, to this library: a reference reading of a whole
 byte stream that knows nothing about buffers, cursors, parser states or
 deliveries.  The stream s is everything the peer will ever send; positions are
 offsets into s.

 The only trace of how s was cut into deliveries is the set `cuts` of the offsets
 at which one delivery ended.  It is consulted in one place, the blank line.
 */
module MessageSpec {
  import opened Bytes
  import opened Numbers

  /** Which kind of message, and what the C library does with errno. */
  datatype Config = Config(request: bool, staleErrno: bool, einvalOnNoDigits: bool)

  /** HTTP_PARSE_MESSAGE + n; the two codes for the body (12 and 13) are one error here. */
  datatype ParseError =
    | LineSyntax | NotHttp | BadMajor | NoDot | BadMinor | NoStatus | BadStatus | NoColon | BodyError

  datatype StartLine = StartLine(code: int, uri: Option<bytes>, major: int, minor: int)

  /** What the callbacks see.  `length` is the extent of the reported range; a negative one holds no bytes. */
  datatype Event =
    | LineEvent(line: StartLine)
    | HeaderEvent(name: bytes, value: bytes)
    | BodyEvent(data: bytes, length: int)

  /**
   Undefined: the C code reads through a null pointer, or strtol reads on behind the
   end of the line, so that the result depends on whatever follows in the buffer.
   */
  datatype Verdict =
    | Done(end: int, bodysz: int)
    | Empty
    | Truncated
    | Failed(error: ParseError)
    | Undefined

  datatype Outcome = Outcome(events: seq<Event>, verdict: Verdict)

  function Prepend(events: seq<Event>, o: Outcome): (r: Outcome)
    ensures events == [] ==> r == o
  {
    Outcome(events + o.events, o.verdict)
  }

  lemma {:induction false} PrependTwice(a: seq<Event>, b: seq<Event>, o: Outcome)
    ensures Prepend(a, Prepend(b, o)) == Prepend(a + b, o)
  {
    assert a + (b + o.events) == a + b + o.events;
  }

  /** How the length of the body is known: bodysz as in the context, and the chunked flag. */
  datatype Frame = Frame(bodysz: int, chunked: bool)

  const UNDECLARED := Frame(-1, false)

  // ---------------------------------------------------------------- first line

  datatype LineResult = LineOk(line: StartLine) | LineBad(error: ParseError) | LineUndefined

  const MGET := 2
  const MHEAD := 3
  const MPOST := 4
  const MPUT := 5
  const MDELETE := 6
  const MOPTIONS := 1
  const MCONNECT := 8
  const MTRACE := 7
  const MEXT := 10

  /** parse_method: strncasecmp with the length of the token, in this order. */
  function MethodOf(token: bytes): (code: int) {
    if PrefixNoCase(token, "GET") then MGET
    else if PrefixNoCase(token, "HEAD") then MHEAD
    else if PrefixNoCase(token, "POST") then MPOST
    else if PrefixNoCase(token, "PUT") then MPUT
    else if PrefixNoCase(token, "DELETE") then MDELETE
    else if PrefixNoCase(token, "OPTIONS") then MOPTIONS
    else if PrefixNoCase(token, "CONNECT") then MCONNECT
    else if PrefixNoCase(token, "TRACE") then MTRACE
    else MEXT
  }

  predicate HttpAt(line: bytes, d: nat): (r: bool)
    ensures r ==> d + 5 <= |line|
  {
    d + 5 <= |line| && SameNoCase(line[d..d + 5], "HTTP/")
  }

  function ErrnoAfter(cfg: Config, errno: bool, n: Number): bool {
    errno || n.overflow || (n.end == 0 && cfg.einvalOnNoDigits)
  }

  datatype VersionResult =
    | VersionOk(major: int, minor: int, end: nat, errno: bool)
    | VersionBad(error: ParseError)
    | VersionUndefined

  /** "major.minor" at index e of the line, each read by strtol and narrowed to int. */
  function Version(cfg: Config, line: bytes, e: nat): (r: VersionResult)
    requires e <= |line|
    ensures r.VersionOk? ==> e <= r.end <= |line|
  {
    if AllSpace(line[e..]) then VersionUndefined
    else
      var m := Strtol(line[e..], false);
      var errno := ErrnoAfter(cfg, cfg.staleErrno, m);
      var dot := e + m.end;
      if ToInt32(m.value) == 0 && errno then VersionBad(BadMajor)
      else if dot >= |line| || line[dot] != '.' then VersionBad(NoDot)
      else if AllSpace(line[dot + 1..]) then VersionUndefined
      else
        var n := Strtol(line[dot + 1..], false);
        var errno' := ErrnoAfter(cfg, errno, n);
        if ToInt32(n.value) == 0 && errno' then VersionBad(BadMinor)
        else VersionOk(ToInt32(m.value), ToInt32(n.value), dot + 1 + n.end, errno')
  }

  function RequestLine(cfg: Config, line: bytes): LineResult {
    match FirstBlank(line, 0)
    case None => LineBad(LineSyntax)
    case Some(a) =>
      match FirstNonBlank(line, a)
      case None => LineBad(LineSyntax)
      case Some(b) =>
        match FirstBlank(line, b)
        case None => LineBad(LineSyntax)
        case Some(c) =>
          match FirstNonBlank(line, c)
          case None => LineBad(LineSyntax)
          case Some(d) =>
            if !HttpAt(line, d) then LineBad(NotHttp)
            else
              match Version(cfg, line, d + 5)
              case VersionBad(e) => LineBad(e)
              case VersionUndefined => LineUndefined
              case VersionOk(major, minor, _, _) =>
                LineOk(StartLine(MethodOf(line[..a]), Some(line[b..c]), major, minor))
  }

  function StatusLine(cfg: Config, line: bytes): LineResult {
    match FirstNonBlank(line, 0)
    case None => LineBad(LineSyntax)
    case Some(d) =>
      if !HttpAt(line, d) then LineBad(NotHttp)
      else
        match Version(cfg, line, d + 5)
        case VersionBad(e) => LineBad(e)
        case VersionUndefined => LineUndefined
        case VersionOk(major, minor, end, errno) =>
          match FirstNonBlank(line, end)
          case None => LineBad(NoStatus)
          case Some(k) =>
            if AllSpace(line[k..]) then LineUndefined
            else
              var n := Strtol(line[k..], false);
              if ToInt32(n.value) == 0 && ErrnoAfter(cfg, errno, n) then LineBad(BadStatus)
              else LineOk(StartLine(ToInt32(n.value), None, major, minor))
  }

  function FirstLine(cfg: Config, line: bytes): LineResult {
    if cfg.request then RequestLine(cfg, line) else StatusLine(cfg, line)
  }

  // ------------------------------------------------------------------- headers

  datatype HeaderResult = HeaderOk(name: bytes, value: bytes) | HeaderBad | HeaderUndefined

  /** "name: value" without its CR LF.  A value with no non-blank byte makes the code use a null pointer. */
  function HeaderLine(line: bytes): HeaderResult {
    match FirstOf(line, ':', 0)
    case None => HeaderBad
    case Some(n) =>
      match FirstNonBlank(line, n + 1)
      case None => HeaderUndefined
      case Some(v) => HeaderOk(line[..n], line[v..])
  }

  /** process_header: the two headers that decide the framing, read as C strings. */
  function Framing(frame: Frame, name: bytes, value: bytes): Frame {
    if SameNoCase(CString(name), "content-length") then
      frame.(bodysz := ToInt32(Strtol(CString(value), false).value))
    else if SameNoCase(CString(name), "transfer-encoding") && CString(value) == "chunked" then
      Frame(0, true)
    else frame
  }

  // --------------------------------------------------------------------- chunks

  datatype SizeResult = SizeOk(size: nat) | SizeBad | SizeUndefined

  /** A chunk-size line: strtol in base 16 must end at the end of the line. */
  function ChunkSize(line: bytes): (r: SizeResult)
    ensures r.SizeOk? ==> line != [] && r.size <= INT_MAX
  {
    if line == [] then SizeUndefined
    else if AllSpace(line) then SizeBad
    else
      var n := Strtol(line, true);
      var size := ToInt32(n.value);
      if n.end != |line| || size < 0 then SizeBad else SizeOk(size)
  }

  // ----------------------------------------------------------- the whole message

  function FromLine(cfg: Config, s: bytes, cuts: set<int>, i: nat, frame: Frame): Outcome {
    match FirstCrlf(s, i)
    case None => Outcome([], Truncated)
    case Some(j) =>
      match FirstLine(cfg, s[i..j])
      case LineBad(e) => Outcome([], Failed(e))
      case LineUndefined => Outcome([], Undefined)
      case LineOk(line) => Prepend([LineEvent(line)], FromHeaders(s, cuts, j + 2, frame))
  }

  function FromHeaders(s: bytes, cuts: set<int>, i: nat, frame: Frame): Outcome
    decreases |s| - i
  {
    match FirstCrlf(s, i)
    case None => Outcome([], Truncated)
    case Some(j) =>
      if j == i then FromBody(s, BodyStart(cuts, i), frame)
      else
        match HeaderLine(s[i..j])
        case HeaderBad => Outcome([], Failed(NoColon))
        case HeaderUndefined => Outcome([], Undefined)
        case HeaderOk(name, value) =>
          Prepend([HeaderEvent(name, value)], FromHeaders(s, cuts, j + 2, Framing(frame, name, value)))
  }

  /**
   Where the body starts after a blank line at offset i: two bytes on, unless a
   delivery ended between its CR and its LF; then the code skips one byte more.
   */
  function BodyStart(cuts: set<int>, i: nat): nat {
    if i + 1 in cuts then i + 3 else i + 2
  }

  function FromBody(s: bytes, at: nat, frame: Frame): Outcome {
    if frame.chunked then FromChunks(s, at, frame.bodysz) else FromFixed(s, at, frame.bodysz)
  }

  /** A body of declared length; a negative length moves the end of the message backwards. */
  function FromFixed(s: bytes, at: nat, n: int): Outcome {
    if n < 0 then Outcome([BodyEvent([], n)], Done(at + n, n))
    else if at + n <= |s| then Outcome([BodyEvent(s[at..at + n], n)], Done(at + n, n))
    else Outcome([], Truncated)
  }

  function FromChunks(s: bytes, at: nat, total: int): Outcome
    decreases |s| - at, 1
  {
    match FirstCrlf(s, at)
    case None => Outcome([], Truncated)
    case Some(j) =>
      match ChunkSize(s[at..j])
      case SizeBad => Outcome([], Failed(BodyError))
      case SizeUndefined => Outcome([], Undefined)
      case SizeOk(size) => FromChunkData(s, j + 2, size, ToInt32(total + size))
  }

  /** The data of one chunk is reported as soon as one byte after it has arrived; the next two are skipped unread. */
  function FromChunkData(s: bytes, at: nat, size: nat, total: int): Outcome
    decreases |s| - at, 0
  {
    if at + size >= |s| then Outcome([], Truncated)
    else
      var next := at + size + 2;
      Prepend([BodyEvent(s[at..at + size], size)],
              if size > 0 then FromChunks(s, next, total) else Outcome([], Done(next, total)))
  }
}
