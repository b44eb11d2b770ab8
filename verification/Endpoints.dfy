/**
 http_parse_request and http_parse_response as a caller meets them: a connection
 that hands over deliveries, a fresh context, and one or several messages.
 */
module Endpoints {
  import opened Bytes
  import opened Numbers
  import opened MessageSpec
  import opened ByteStreams
  import opened ParserView
  import opened MessageParser
  import opened SplitLaws
  import opened Writers
  import opened RoundTrip
  import opened Messages

  /** The verdict that goes with a result of the parser. */
  function VerdictOf(res: Result, end: int, bodysz: int): Verdict {
    match res
    case Success => Done(end, bodysz)
    case Error(e) => Failed(e)
    case Crash => Undefined
    case EmptyInput => Empty
    case _ => Truncated
  }

  /** A fresh context on a stream that stands at a clean position is ready, and its reading starts there. */
  lemma {:induction false} FreshIsReady(cfg: Config, input: ByteStream, ctx: Ctx)
    requires input.Valid() && 0 <= input.pos <= |input.buf| + 1 && input.Clean(input.Offset())
    requires ctx.parserState == PS_START && ctx.bodysz == -1 && !ctx.chunked && ctx.events == []
    ensures var cuts := Cuts(|input.seen|, input.pending);
            && ctx.Ready(input, cuts)
            && ctx.Reading(cfg, input, cuts) == FromLine(cfg, input.Total(), cuts, input.Offset(), UNDECLARED)
  {
    hide FromLine, FirstCrlf;
    CutsBound(|input.seen|, input.pending);
  }

  /** One message from a fresh connection: the outcome is the reference reading of everything delivered. */
  method ParseDeliveries(cfg: Config, deliveries: seq<bytes>)
    returns (res: Result, events: seq<Event>, bodysz: int, ghost end: int)
    requires forall d :: d in deliveries ==> d != []
    ensures !res.NeedMore? && (res == EmptyInput <==> deliveries == []) && (deliveries == [] ==> events == [])
    ensures deliveries != [] ==>
              Outcome(events, VerdictOf(res, end, bodysz))
              == FromLine(cfg, Flatten(deliveries), Cuts(0, deliveries), 0, UNDECLARED)
  {
    hide FromLine, FirstCrlf, Cuts;
    var input := new ByteStream(deliveries);
    var ctx := new Ctx();
    FreshIsReady(cfg, input, ctx);
    assert input.Total() == Flatten(deliveries);
    ghost var trail;
    res, trail := ParseMessage(cfg, input, ctx);
    events, bodysz, end := ctx.events, ctx.bodysz, input.Offset();
  }

  /**
   Two connections that deliver the same bytes in different pieces: unless a piece
   ends inside the blank line, both parsers report the same and return the same.
   */
  method ParseTwoWays(cfg: Config, one: seq<bytes>, two: seq<bytes>)
    returns (res1: Result, events1: seq<Event>, res2: Result, events2: seq<Event>)
    requires (forall d :: d in one ==> d != []) && (forall d :: d in two ==> d != [])
    requires Flatten(one) == Flatten(two) && one != [] && two != []
    requires BlankLineWhole(cfg, Flatten(one), Cuts(0, one), 0) && BlankLineWhole(cfg, Flatten(two), Cuts(0, two), 0)
    ensures res1 == res2 && events1 == events2
  {
    hide FromLine, Cuts, BlankLineWhole;
    var bodysz1, bodysz2;
    ghost var end1, end2;
    res1, events1, bodysz1, end1 := ParseDeliveries(cfg, one);
    res2, events2, bodysz2, end2 := ParseDeliveries(cfg, two);
    SplitIndependence(cfg, Flatten(one), Cuts(0, one), 0, UNDECLARED);
    SplitIndependence(cfg, Flatten(two), Cuts(0, two), 0, UNDECLARED);
  }

  /** The reading of any part of a message of declared length, however it was cut. */
  lemma {:induction false} PrefixReads(cfg: Config, t: bytes, cuts: set<int>, m: Message)
    requires WellFormed(cfg, m) && m.body.Declared? && t <= MessageText(m)
    ensures Short(FromLine(cfg, t, cuts, 0, UNDECLARED), MessageOutcome(cfg, 0, m), |t|, |HeadOf(m)| - 1 !in cuts)
  {
    hide FromLine, FirstLine, HeadText, FieldsFrame, Short, MessageBlank, MessageFrame, MessageEvents;
    var s := MessageText(m);
    assert StandsAt(s, 0, s);
    StandsApart(s, 0, HeadOf(m), BodyText(m.body));
    HeadReads(cfg, s, {}, 0, m.line, m.fields);
    MessageReads(cfg, s, {}, 0, m);
    TruncationExact(cfg, t, s, cuts, 0, UNDECLARED);
  }

  /**
   A connection that closes inside a message of declared length, or right behind it:
   the parser succeeds if and only if the whole message was delivered and no
   delivery ended inside its blank line.  In every other case it ends with an error
   and has reported no body, only the first of the message's events.
   */
  method ParseTruncated(cfg: Config, ghost m: Message, deliveries: seq<bytes>)
    returns (res: Result, events: seq<Event>)
    requires forall d :: d in deliveries ==> d != []
    requires WellFormed(cfg, m) && m.body.Declared? && Flatten(deliveries) <= MessageText(m)
    ensures Flatten(deliveries) == MessageText(m) && |HeadOf(m)| - 1 !in Cuts(0, deliveries)
            ==> res == Success && events == MessageEvents(cfg, m)
    ensures Flatten(deliveries) < MessageText(m) || |HeadOf(m)| - 1 in Cuts(0, deliveries)
            ==> && res == (if deliveries == [] then EmptyInput else ConsumeDataError)
                && NoBody(events) && events <= MessageEvents(cfg, m)
  {
    hide FromLine, Cuts, WellFormed, HeadOf, MessageEvents, BodyText, BodySize;
    var bodysz;
    ghost var end;
    res, events, bodysz, end := ParseDeliveries(cfg, deliveries);
    PrefixReads(cfg, Flatten(deliveries), Cuts(0, deliveries), m);
    if deliveries == [] {
      MessageNotEmpty(m);
      assert Flatten(deliveries) == [];
    }
  }

  /** The reading of a chunked message that ends behind its head. */
  lemma {:induction false} ChunkedPrefixReads(cfg: Config, t: bytes, cuts: set<int>, m: Message, k: nat)
    requires WellFormed(cfg, m) && m.body.Chunked? && HeadOf(m) <= t <= MessageText(m) && |HeadOf(m)| - 1 !in cuts
    requires Arrived(m.body.chunks, |t| - |HeadOf(m)|, k)
    ensures var chunks := m.body.chunks;
            FromLine(cfg, t, cuts, 0, UNDECLARED)
            == Outcome(LineEvents(cfg, m.line) + FieldEvents(m.fields) + ChunkEvents(chunks[..k]),
                       if k < |chunks| then Truncated else Done(|MessageText(m)|, ChunksSize(chunks)))
  {
    hide FromLine, FirstLine, HeadText, FieldsFrame, MessageBlank, MessageFrame, FromChunks, ChunksText, ChunkEvents;
    hide FieldEvents, ChunksSize, TakenChunks, Arrived, CleanFields;
    var s, chunks := MessageText(m), m.body.chunks;
    assert StandsAt(t, 0, HeadOf(m)) && StandsAt(s, 0, s);
    StandsApart(s, 0, HeadOf(m), BodyText(m.body));
    HeadReads(cfg, t, cuts, 0, m.line, m.fields);
    ChunksCut(t, s, |HeadOf(m)|, chunks, k, 0);
    ToInt32Small(ChunksSize(chunks));
  }

  /**
   A connection that closes inside the body of a chunked message, or behind it: the
   body callback has seen exactly the chunks that arrived with one byte more, and the
   parser succeeds if and only if these are all of them.
   */
  method ParseCutChunks(cfg: Config, ghost m: Message, deliveries: seq<bytes>, ghost k: nat)
    returns (res: Result, events: seq<Event>)
    requires forall d :: d in deliveries ==> d != []
    requires WellFormed(cfg, m) && m.body.Chunked? && HeadOf(m) <= Flatten(deliveries) <= MessageText(m)
    requires |HeadOf(m)| - 1 !in Cuts(0, deliveries)
    requires Arrived(m.body.chunks, |Flatten(deliveries)| - |HeadOf(m)|, k)
    ensures events == LineEvents(cfg, m.line) + FieldEvents(m.fields) + ChunkEvents(m.body.chunks[..k])
    ensures res == if k < |m.body.chunks| then ConsumeDataError else Success
  {
    hide FromLine, Cuts, WellFormed, HeadOf, LineEvents, FieldEvents, ChunkEvents, ChunksSize, BodyText, Arrived;
    var bodysz;
    ghost var end;
    res, events, bodysz, end := ParseDeliveries(cfg, deliveries);
    ChunkedPrefixReads(cfg, Flatten(deliveries), Cuts(0, deliveries), m, k);
    MessageNotEmpty(m);
    assert deliveries == [] ==> Flatten(deliveries) == [];
  }

  /** The boundaries still to come on a connection are among those of the whole run. */
  lemma {:induction false} CutsShrink(ms: seq<Message>, cuts: set<int>, cuts': set<int>, i: nat)
    requires cuts' <= cuts && BlankLinesWhole(cuts, i, ms)
    ensures BlankLinesWhole(cuts', i, ms)
    decreases |ms|
  {
    hide HeadOf, MessageText;
    if ms != [] {
      CutsShrink(ms[1..], cuts, cuts', i + |MessageText(ms[0])|);
    }
  }

  /** The next message of a pipeline, with a fresh context. */
  method ParseNext(cfg: Config, input: ByteStream, ghost ms: seq<Message>) returns (events: seq<Event>)
    requires input.Valid() && 0 <= input.pos <= |input.buf| + 1 && input.Clean(input.Offset())
    requires ms != [] && forall m :: m in ms ==> WellFormed(cfg, m)
    requires StandsAt(input.Total(), input.Offset(), PipelineText(ms))
    requires BlankLinesWhole(Cuts(|input.seen|, input.pending), input.Offset(), ms)
    modifies input
    ensures input.Valid() && 0 <= input.pos <= |input.buf| + 1 && input.Clean(input.Offset())
    ensures input.Total() == old(input.Total()) && events == MessageEvents(cfg, ms[0])
    ensures StandsAt(input.Total(), input.Offset(), PipelineText(ms[1..]))
    ensures BlankLinesWhole(Cuts(|input.seen|, input.pending), input.Offset(), ms[1..])
  {
    hide FromLine, FirstCrlf, Cuts, WellFormed, MessageText, HeadOf, MessageEvents, BodySize;
    ghost var m := ms[0];
    assert m in ms;
    ghost var i := input.Offset();
    ghost var cuts := Cuts(|input.seen|, input.pending);
    var ctx := new Ctx();
    FreshIsReady(cfg, input, ctx);
    StandsApart(input.Total(), i, MessageText(m), PipelineText(ms[1..]));
    assert i < |input.Total()| by { MessageNotEmpty(m); }
    MessageReads(cfg, input.Total(), cuts, i, m);
    var res;
    ghost var trail;
    res, trail := ParseMessage(cfg, input, ctx);
    CutsShrink(ms[1..], cuts, Cuts(|input.seen|, input.pending), i + |MessageText(m)|);
    events := ctx.events;
  }

  /** The receive loop over one connection: a fresh context for each message, the same stream throughout. */
  method ParsePipeline(cfg: Config, deliveries: seq<bytes>, n: nat, ghost ms: seq<Message>)
    returns (all: seq<seq<Event>>)
    requires forall d :: d in deliveries ==> d != []
    requires |ms| == n && forall m :: m in ms ==> WellFormed(cfg, m)
    requires PipelineText(ms) <= Flatten(deliveries) && BlankLinesWhole(Cuts(0, deliveries), 0, ms)
    ensures |all| == n && forall k :: 0 <= k < n ==> all[k] == MessageEvents(cfg, ms[k])
  {
    hide FromLine, FirstCrlf, Cuts, WellFormed, MessageText, HeadOf, MessageEvents, Flatten;
    var input := new ByteStream(deliveries);
    ghost var s := Flatten(deliveries);
    all := [];
    assert input.Total() == s;
    assert StandsAt(s, 0, PipelineText(ms[0..]));
    assert ms[0..] == ms;
    while |all| < n
      invariant |all| <= n && input.Valid() && input.Total() == s
      invariant 0 <= input.pos <= |input.buf| + 1 && input.Clean(input.Offset())
      invariant StandsAt(s, input.Offset(), PipelineText(ms[|all|..]))
      invariant BlankLinesWhole(Cuts(|input.seen|, input.pending), input.Offset(), ms[|all|..])
      invariant forall k :: 0 <= k < |all| ==> all[k] == MessageEvents(cfg, ms[k])
    {
      var events := ParseNext(cfg, input, ms[|all|..]);
      assert ms[|all|..][1..] == ms[|all| + 1..];
      all := all + [events];
    }
  }

  lemma {:induction false} RequestUnbroken(verb: bytes, uri: bytes)
    requires Unbroken(verb) && Unbroken(uri)
    ensures Unbroken(RequestText(verb, uri))
  {
    var line := RequestText(verb, uri);
    var a, c := |verb|, |verb| + 1 + |uri|;
    assert line[a] == ' ' && line[c] == ' ' && line[c + 1..] == "HTTP/1.1";
    forall k | 0 <= k < |line|
      ensures !CrlfAt(line, k)
    {
      if k < a {
        assert line[k] == verb[k] && (k + 1 < a ==> line[k + 1] == verb[k + 1]) && !CrlfAt(verb, k);
      } else if a < k < c {
        assert line[k] == uri[k - a - 1] && (k + 1 < c ==> line[k + 1] == uri[k - a]) && !CrlfAt(uri, k - a - 1);
      } else if c < k {
        assert line[k] == line[c + 1..][k - c - 1];
      }
    }
  }

  /** A request with a recognised method, a blank-free URI, clean header fields and a matching length is well formed. */
  lemma {:induction false} RequestIsWellFormed(cfg: Config, verb: bytes, code: int, uri: bytes,
                                               fields: seq<Field>, body: bytes)
    requires cfg.request && Recognised(verb, code)
    requires uri != [] && BlankFree(uri) && Unbroken(uri)
    requires CleanFields(fields) && DeclaresBody(fields, Declared(body))
    ensures var m := Message(RequestText(verb, uri), fields, Declared(body));
            WellFormed(cfg, m) && LineEvents(cfg, m.line) == [LineEvent(StartLine(code, Some(uri), 1, 1))]
  {
    hide RequestLine, StatusLine, MethodOf, CleanFields, DeclaresBody, Unbroken, RequestText, Recognised;
    MethodReads(verb, code);
    RequestLineReads(cfg, verb, uri);
    RequestUnbroken(verb, uri);
  }

  /** "GET / HTTP/1.1" with "content-length: 0". */
  function PlainGet(): Message {
    Message(RequestText("GET", "/"), [Field("content-length", Decimal(0))], Declared([]))
  }

  lemma {:induction false} CleanOne(f: Field)
    requires Plain(f) && Unbroken(FieldText(f))
    ensures CleanFields([f])
  {
  }

  lemma {:induction false} LengthName()
    ensures var name: bytes := "content-length"; NUL !in name && SameNoCase(name, name)
  {
  }

  lemma {:induction false} RootUri()
    ensures var uri: bytes := "/"; BlankFree(uri) && Unbroken(uri)
  {
  }

  lemma {:induction false} PlainGetIsWellFormed(cfg: Config)
    requires cfg.request
    ensures WellFormed(cfg, PlainGet())
  {
    hide WellFormed, Decimal, DeclaresBody, CleanFields, LineEvents, SameNoCase, RequestText;
    LengthName();
    var fields := [Field("content-length", Decimal(0))];
    LengthDeclares([], "content-length", [], []);
    assert [] + fields + [] == fields;
    LengthFieldIsClean("content-length", 0);
    CleanOne(fields[0]);
    RootUri();
    RequestIsWellFormed(cfg, "GET", MGET, "/", fields, []);
  }

  /** One request that is read when it comes in one piece, and is not when its last byte comes by itself. */
  lemma {:induction false} LastByteAlone(cfg: Config)
    requires cfg.request
    ensures var s := MessageText(PlainGet());
            && |s| > 1 && Flatten([s]) == s && Flatten([s[..|s| - 1], s[|s| - 1..]]) == s
            && FromLine(cfg, s, Cuts(0, [s]), 0, UNDECLARED) == MessageOutcome(cfg, 0, PlainGet())
            && FromLine(cfg, s, Cuts(0, [s[..|s| - 1], s[|s| - 1..]]), 0, UNDECLARED).verdict == Truncated
  {
    hide WellFormed, FromLine, HeadOf, MessageOutcome, PlainGet, Short;
    var m := PlainGet();
    var s := MessageText(m);
    assert m.body == Declared([]) by { PlainGetHasNoBody(); }
    PlainGetIsWellFormed(cfg);
    MessageNotEmpty(m);
    assert s == HeadOf(m) + [] == HeadOf(m);
    OneCut(s);
    TwoCuts(s, |s| - 1);
    MessageReads(cfg, s, Cuts(0, [s]), 0, m);
    PrefixReads(cfg, s, Cuts(0, [s[..|s| - 1], s[|s| - 1..]]), m);
    ShortByOne(FromLine(cfg, s, Cuts(0, [s[..|s| - 1], s[|s| - 1..]]), 0, UNDECLARED), cfg, m);
  }

  lemma {:induction false} PlainGetHasNoBody()
    ensures PlainGet().body == Declared([])
  {
  }

  lemma {:induction false} ShortByOne(o: Outcome, cfg: Config, m: Message)
    requires Short(o, MessageOutcome(cfg, 0, m), |MessageText(m)|, false)
    ensures o.verdict == Truncated
  {
  }

  lemma {:induction false} OneCut(s: bytes)
    ensures Flatten([s]) == s && Cuts(0, [s]) == {0, |s|} && StandsAt(s, 0, s)
  {
    var one := [s];
    assert one[1..] == [];
    assert Cuts(|s|, []) == {|s|};
  }

  lemma {:induction false} TwoCuts(s: bytes, n: nat)
    requires n <= |s|
    ensures Flatten([s[..n], s[n..]]) == s && Cuts(0, [s[..n], s[n..]]) == {0, n, |s|}
  {
    var a, b := s[..n], s[n..];
    var last := [b];
    assert [a, b][1..] == last && last[1..] == [];
    assert Cuts(|s|, []) == {|s|};
    assert Flatten(last) == b + Flatten(last[1..]) == b;
    assert Flatten([a, b]) == a + Flatten(last) == s;
    assert Cuts(n, last) == {n} + Cuts(|s|, []);
  }

  lemma {:induction false} StatusUnbroken(code: int, phrase: bytes)
    requires Unbroken(phrase)
    ensures Unbroken(StatusText(code, phrase))
  {
    hide Decimal;
    DecimalPlain(code);
    var line, d := StatusText(code, phrase), Decimal(code);
    var a, c := 9, 9 + |d|;
    assert line[c] == ' ' && line[c + 1..] == phrase;
    forall k | 0 <= k < |line|
      ensures !CrlfAt(line, k)
    {
      if k < a {
        assert line[k] == "HTTP/1.1 "[k];
      } else if k < c {
        assert line[k] == d[k - a] && d[k - a] in d;
      } else if c < k {
        assert line[k] == phrase[k - c - 1] && (k + 1 < |line| ==> line[k + 1] == phrase[k - c]);
        assert !CrlfAt(phrase, k - c - 1);
      }
    }
  }

  /** A response with any status code and an unbroken phrase; code 0 is refused if errno happens to be set. */
  lemma {:induction false} ResponseIsWellFormed(cfg: Config, code: int, phrase: bytes, fields: seq<Field>, body: Body)
    requires !cfg.request && -INT_MAX - 1 <= code <= INT_MAX && Unbroken(phrase)
    requires CleanFields(fields) && DeclaresBody(fields, body)
    ensures var m := Message(StatusText(code, phrase), fields, body);
            && (WellFormed(cfg, m) <==> code != 0 || !cfg.staleErrno)
            && (WellFormed(cfg, m) ==> LineEvents(cfg, m.line) == [LineEvent(StartLine(code, None, 1, 1))])
  {
    hide RequestLine, StatusLine, CleanFields, DeclaresBody, Unbroken, StatusText;
    StatusLineReads(cfg, code, phrase);
    StatusUnbroken(code, phrase);
  }

  /** A written request is read as the values that were written. */
  lemma {:induction false} RequestArrives(cfg: Config, verb: bytes, code: int, uri: bytes, fields: seq<Field>,
                                          body: bytes, cuts: set<int>)
    requires cfg.request && Recognised(verb, code)
    requires uri != [] && BlankFree(uri) && Unbroken(uri)
    requires CleanFields(fields) && DeclaresBody(fields, Declared(body))
    requires |HeadText(RequestText(verb, uri), fields)| - 1 !in cuts
    ensures var text := HeadText(RequestText(verb, uri), fields) + body;
            FromLine(cfg, text, cuts, 0, UNDECLARED)
            == Outcome([LineEvent(StartLine(code, Some(uri), 1, 1))] + FieldEvents(fields) + [BodyEvent(body, |body|)],
                       Done(|text|, |body|))
  {
    hide FromLine, HeadText, RequestText, CleanFields, FieldEvents, Recognised, Unbroken, LineEvents, WellFormed;
    hide FieldsFrame;
    var m := Message(RequestText(verb, uri), fields, Declared(body));
    RequestIsWellFormed(cfg, verb, code, uri, fields, body);
    var text := MessageText(m);
    assert StandsAt(text, 0, text);
    MessageReads(cfg, text, cuts, 0, m);
  }

  /**
   Writer and parser: the parser reports exactly the values that the writers were
   given, in order, however the bytes travel.
   */
  method RequestRoundTrip(cfg: Config, verb: bytes, ghost code: int, uri: bytes, fields: seq<Field>, body: bytes,
                          deliveries: seq<bytes>)
    returns (text: bytes, res: Result, events: seq<Event>)
    requires cfg.request && Recognised(verb, code)
    requires uri != [] && BlankFree(uri) && Unbroken(uri)
    requires CleanFields(fields) && DeclaresBody(fields, Declared(body))
    requires forall d :: d in deliveries ==> d != []
    requires |HeadText(RequestText(verb, uri), fields)| - 1 !in Cuts(0, deliveries)
    ensures Flatten(deliveries) == text ==>
              && res == Success
              && events == [LineEvent(StartLine(code, Some(uri), 1, 1))] + FieldEvents(fields)
                           + [BodyEvent(body, |body|)]
  {
    hide FromLine, Cuts, RequestText, CleanFields, FieldEvents, Recognised, Unbroken, FieldsFrame;
    text := WriteRequest(verb, uri, fields, body);
    var bodysz;
    ghost var end;
    res, events, bodysz, end := ParseDeliveries(cfg, deliveries);
    RequestArrives(cfg, verb, code, uri, fields, body, Cuts(0, deliveries));
  }

  /** The same for a response, with any code but 0 if errno happens to be set. */
  method ResponseRoundTrip(cfg: Config, code: int, phrase: bytes, fields: seq<Field>, body: bytes,
                           deliveries: seq<bytes>)
    returns (text: bytes, res: Result, events: seq<Event>)
    requires !cfg.request && -INT_MAX - 1 <= code <= INT_MAX && Unbroken(phrase)
    requires CleanFields(fields) && DeclaresBody(fields, Declared(body))
    requires forall d :: d in deliveries ==> d != []
    requires |HeadText(StatusText(code, phrase), fields)| - 1 !in Cuts(0, deliveries)
    ensures Flatten(deliveries) == text ==>
              if code == 0 && cfg.staleErrno then res == Error(BadStatus) && events == []
              else && res == Success
                   && events == [LineEvent(StartLine(code, None, 1, 1))] + FieldEvents(fields)
                                + [BodyEvent(body, |body|)]
  {
    hide FromLine, Cuts, StatusText, CleanFields, FieldEvents, Unbroken, FieldsFrame;
    text := WriteResponse(code, phrase, fields, body);
    var bodysz;
    ghost var end;
    res, events, bodysz, end := ParseDeliveries(cfg, deliveries);
    ResponseArrives(cfg, code, phrase, fields, body, Cuts(0, deliveries));
  }

  /** A written response is read as the values that were written, or refused for its code. */
  lemma {:induction false} ResponseArrives(cfg: Config, code: int, phrase: bytes, fields: seq<Field>, body: bytes,
                                           cuts: set<int>)
    requires !cfg.request && -INT_MAX - 1 <= code <= INT_MAX && Unbroken(phrase)
    requires CleanFields(fields) && DeclaresBody(fields, Declared(body))
    requires |HeadText(StatusText(code, phrase), fields)| - 1 !in cuts
    ensures var text := HeadText(StatusText(code, phrase), fields) + body;
            FromLine(cfg, text, cuts, 0, UNDECLARED)
            == if code == 0 && cfg.staleErrno then Outcome([], Failed(BadStatus))
               else Outcome([LineEvent(StartLine(code, None, 1, 1))] + FieldEvents(fields) + [BodyEvent(body, |body|)],
                            Done(|text|, |body|))
  {
    hide FromLine, HeadText, StatusText, CleanFields, FieldEvents, Unbroken, LineEvents, WellFormed, FieldsFrame;
    var m := Message(StatusText(code, phrase), fields, Declared(body));
    ResponseIsWellFormed(cfg, code, phrase, fields, Declared(body));
    var text := MessageText(m);
    assert StandsAt(text, 0, text);
    if code == 0 && cfg.staleErrno {
      StandsApart(text, 0, HeadOf(m), body);
      StatusRefused(cfg, phrase, fields, text, cuts);
    } else {
      MessageReads(cfg, text, cuts, 0, m);
    }
  }

  lemma {:induction false} StatusRefused(cfg: Config, phrase: bytes, fields: seq<Field>, text: bytes, cuts: set<int>)
    requires !cfg.request && cfg.staleErrno && Unbroken(phrase)
    requires StandsAt(text, 0, HeadText(StatusText(0, phrase), fields))
    ensures FromLine(cfg, text, cuts, 0, UNDECLARED) == Outcome([], Failed(BadStatus))
  {
    hide StatusText, StatusLine, FirstCrlf, FromHeaders, Unbroken;
    var line := StatusText(0, phrase);
    StatusLineReads(cfg, 0, phrase);
    StatusUnbroken(0, phrase);
    StandsApart(text, 0, line + CRLF, FieldsText(fields) + CRLF);
    LineStands(text, 0, line);
  }
}
