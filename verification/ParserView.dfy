/**
 The resumable parser seen from the whole stream.  A View is what the parser
 remembers between two deliveries, with every buffer position turned into an
 offset; Resume says how the message will read from there; Sound is the invariant
 that holds whenever the parser is about to ask for more bytes.
 */
module ParserView {
  import opened Bytes
  import opened Numbers
  import opened MessageSpec
  import opened ByteStreams

  datatype Phase = Start | InLine | HeaderIn | HeaderOut | FixedBody | ChunkSizeLine | ChunkBytes

  /** `at` is the start of the current line, body or chunk; `pos` is the cursor. */
  datatype View = View(phase: Phase, at: nat, pos: int, frame: Frame, size: int)

  predicate HeaderPhase(p: Phase) {
    p == Start || p == InLine || p == HeaderIn || p == HeaderOut
  }

  /** Every delivery that ended before the last one was read to its end. */
  predicate CutsPassed(cuts: set<int>, seen: bytes, pos: int) {
    |seen| in cuts && forall c :: c in cuts && c < |seen| ==> c <= pos
  }

  predicate Sound(v: View, seen: bytes, cuts: set<int>) {
    && (HeaderPhase(v.phase) ==> CutsPassed(cuts, seen, v.pos))
    && match v.phase
       case Start => 0 <= v.pos <= |seen| + 1
       case InLine => v.at <= v.pos <= |seen| && NoCrlf(seen, v.at, v.pos)
       case HeaderIn => 0 <= v.pos <= |seen|
       case HeaderOut =>
         v.at <= v.pos <= |seen| && NoCrlf(seen, v.at, v.pos) && (v.pos == v.at || v.pos in cuts)
       case FixedBody =>
         !v.frame.chunked && v.at - 1 <= v.pos <= |seen| && v.pos - v.at < v.frame.bodysz
       case ChunkSizeLine =>
         v.frame.chunked && v.at - 1 <= v.pos <= |seen| + 1 && NoCrlf(seen, v.at, v.pos)
         && (v.pos > |seen| ==> v.pos == v.at)
       case ChunkBytes =>
         v.frame.chunked && v.at <= v.pos <= |seen| && v.pos - v.at <= v.size
  }

  /** How the rest of the message reads, from this point of the parse. */
  function Resume(cfg: Config, s: bytes, cuts: set<int>, v: View): Outcome
    requires v.phase == Start || v.phase == HeaderIn ==> 0 <= v.pos
    requires v.phase == ChunkBytes ==> 0 <= v.size
  {
    match v.phase
    case Start => FromLine(cfg, s, cuts, v.pos, v.frame)
    case InLine => FromLine(cfg, s, cuts, v.at, v.frame)
    case HeaderIn => FromHeaders(s, cuts, v.pos, v.frame)
    case HeaderOut => FromHeaders(s, cuts, v.at, v.frame)
    case FixedBody => FromFixed(s, v.at, v.frame.bodysz)
    case ChunkSizeLine => FromChunks(s, v.at, v.frame.bodysz)
    case ChunkBytes => FromChunkData(s, v.at, v.size, v.frame.bodysz)
  }

  /** A delivery keeps the invariant, provided everything before it was read. */
  lemma {:induction false} Arrival(v: View, seen: bytes, seen': bytes, cuts: set<int>)
    requires Sound(v, seen, cuts) && seen < seen' && |seen| <= v.pos
    requires |seen'| in cuts && forall c :: c in cuts ==> c <= |seen| || |seen'| <= c
    ensures Sound(v, seen', cuts)
  {
    assert forall k :: k + 1 < |seen| ==> CrlfAt(seen', k) == CrlfAt(seen, k);
  }

  /** At end of file in the middle of a message the message is truncated, and nothing more is reported. */
  lemma {:induction false} AtEndOfFile(cfg: Config, v: View, s: bytes, cuts: set<int>)
    requires Sound(v, s, cuts) && |s| <= v.pos && v.phase != Start
    ensures Resume(cfg, s, cuts, v) == Outcome([], Truncated)
  {
  }

  /** A pair found in the bytes seen so far is the pair of the whole stream. */
  lemma {:induction false} FoundInSeen(seen: bytes, s: bytes, at: nat)
    requires seen <= s
    ensures FirstCrlf(seen, at).Some? ==> FirstCrlf(s, at) == FirstCrlf(seen, at)
    ensures FirstCrlf(seen, at).None? ==> NoCrlf(seen, at, |seen|)
  {
    FirstCrlfStable(seen, s, at);
  }

  /** No complete first line or header yet: the cursor goes to the end of the data. */
  lemma {:induction false} LineWaits(v: View, seen: bytes, cuts: set<int>)
    requires Sound(v, seen, cuts) && (v.phase == InLine || v.phase == HeaderOut)
    requires FirstCrlf(seen, v.at).None?
    ensures Sound(v.(pos := |seen|), seen, cuts)
  {
  }

  /** The next line starts behind the pair that ends this one, and behind everything read so far. */
  lemma {:induction false} LineEnds(v: View, seen: bytes, cuts: set<int>)
    requires Sound(v, seen, cuts) && (v.phase == InLine || v.phase == HeaderOut)
    requires FirstCrlf(seen, v.at).Some?
    ensures v.pos < FirstCrlf(seen, v.at).value + 2 <= |seen|
    ensures CutsPassed(cuts, seen, FirstCrlf(seen, v.at).value + 2)
  {
    assert !(v.at <= FirstCrlf(seen, v.at).value && FirstCrlf(seen, v.at).value + 1 < v.pos);
  }

  /** One header line of the reference reading. */
  lemma {:induction false} HeaderReads(s: bytes, cuts: set<int>, at: nat, frame: Frame, name: bytes, value: bytes)
    requires FirstCrlf(s, at).Some? && FirstCrlf(s, at).value > at
    requires HeaderLine(s[at..FirstCrlf(s, at).value]) == HeaderOk(name, value)
    ensures FromHeaders(s, cuts, at, frame)
            == Prepend([HeaderEvent(name, value)],
                       FromHeaders(s, cuts, FirstCrlf(s, at).value + 2, Framing(frame, name, value)))
  {
    hide HeaderLine, Framing, FromBody, FirstCrlf;
  }

  /**
   The blank line: it is found with the cursor past its start exactly when a
   delivery ended between its CR and its LF, and then the cursor is one too far.
   */
  lemma {:induction false} BlankLineSkew(v: View, seen: bytes, cuts: set<int>)
    requires Sound(v, seen, cuts) && v.phase == HeaderOut && CrlfAt(seen, v.at)
    ensures v.pos + 2 == BodyStart(cuts, v.at)
    ensures v.pos + 2 <= |seen| + 1
  {
  }

  /** A chunk-size line without an end yet. */
  lemma {:induction false} ChunkLineWaits(v: View, seen: bytes, cuts: set<int>)
    requires Sound(v, seen, cuts) && v.phase == ChunkSizeLine && FirstCrlf(seen, v.at).None?
    ensures Sound(v.(pos := |seen|), seen, cuts)
  {
  }

  lemma {:induction false} ChunkLineEnds(v: View, seen: bytes, cuts: set<int>)
    requires Sound(v, seen, cuts) && v.phase == ChunkSizeLine && FirstCrlf(seen, v.at).Some?
    ensures v.pos < FirstCrlf(seen, v.at).value + 2 <= |seen|
  {
    assert !(v.at <= FirstCrlf(seen, v.at).value && FirstCrlf(seen, v.at).value + 1 < v.pos);
  }

  /** One complete chunk of the reference reading, after some events. */
  lemma {:induction false} ChunkReads(events: seq<Event>, s: bytes, at: nat, size: nat, total: int)
    requires at + size < |s|
    ensures Prepend(events, FromChunkData(s, at, size, total))
            == Prepend(events + [BodyEvent(s[at..at + size], size)],
                       if size > 0 then FromChunks(s, at + size + 2, total)
                       else Outcome([], Done(at + size + 2, total)))
  {
    hide FromChunks;
    PrependTwice(events, [BodyEvent(s[at..at + size], size)],
                 if size > 0 then FromChunks(s, at + size + 2, total) else Outcome([], Done(at + size + 2, total)));
  }

  /** A body of declared length as process_body may find it: just entered, or still short. */
  predicate BodyOpen(v: View, seen: bytes) {
    && v.phase == FixedBody && !v.frame.chunked
    && v.at - 1 <= v.pos <= |seen| + 1
    && (v.pos > |seen| ==> v.pos == v.at)
    && (v.pos == v.at || v.pos - v.at < v.frame.bodysz)
  }

  /** The boundaries still to come are those of the deliveries still to come. */
  predicate CutsAhead(cuts: set<int>, e: nat, pending: seq<bytes>) {
    Cuts(e, pending) <= cuts && forall c :: c in cuts && e <= c ==> c in Cuts(e, pending)
  }

  lemma {:induction false} NextCut(cuts: set<int>, e: nat, pending: seq<bytes>)
    requires CutsAhead(cuts, e, pending) && pending != [] && pending[0] != []
    ensures CutsAhead(cuts, e + |pending[0]|, pending[1..])
    ensures e + |pending[0]| in cuts && forall c :: c in cuts ==> c <= e || e + |pending[0]| <= c
  {
    CutsBound(e + |pending[0]|, pending[1..]);
    assert Cuts(e, pending) == {e} + Cuts(e + |pending[0]|, pending[1..]);
  }

  /** The message ends with an offset of at least n, unless it declares a negative length. */
  predicate EndsFrom(o: Outcome, n: int) {
    o.verdict.Done? && o.verdict.bodysz >= 0 ==> n <= o.verdict.end
  }

  lemma {:induction false} ChunksEnd(s: bytes, at: nat, total: int)
    ensures EndsFrom(FromChunks(s, at, total), if FirstCrlf(s, at).Some? then FirstCrlf(s, at).value + 4 else |s| + 1)
    decreases |s| - at, 1
  {
    hide ChunkSize, ToInt32;
    match FirstCrlf(s, at)
    case None =>
    case Some(j) =>
      match ChunkSize(s[at..j])
      case SizeOk(size) => ChunkDataEnds(s, j + 2, size, ToInt32(total + size));
      case _ =>
  }

  lemma {:induction false} ChunkDataEnds(s: bytes, at: nat, size: nat, total: int)
    ensures EndsFrom(FromChunkData(s, at, size, total), at + size + 2)
    decreases |s| - at, 0
  {
    if at + size < |s| && size > 0 {
      ChunksEnd(s, at + size + 2, total);
    }
  }

  lemma {:induction false} HeadersEnd(s: bytes, cuts: set<int>, i: nat, frame: Frame)
    ensures EndsFrom(FromHeaders(s, cuts, i, frame),
                     if FirstCrlf(s, i).Some? then FirstCrlf(s, i).value + 2 else |s| + 1)
    decreases |s| - i
  {
    hide HeaderLine, Framing, FromChunks;
    match FirstCrlf(s, i)
    case None =>
    case Some(j) =>
      if j == i {
        ChunksEnd(s, BodyStart(cuts, i), frame.bodysz);
      } else {
        match HeaderLine(s[i..j])
        case HeaderOk(name, value) => HeadersEnd(s, cuts, j + 2, Framing(frame, name, value));
        case _ =>
      }
  }

  /** Where the parser has to ask for more, the message does end behind what has arrived. */
  lemma {:induction false} AsksInNeed(cfg: Config, v: View, seen: bytes, s: bytes, cuts: set<int>)
    requires Sound(v, seen, cuts) && |seen| <= v.pos && seen <= s
    ensures EndsFrom(Resume(cfg, s, cuts, v), |seen| + 1)
  {
    hide FromHeaders, FromChunks, FromChunkData, FirstLine;
    FirstCrlfStable(seen, s, v.at);
    match v.phase
    case FixedBody =>
    case ChunkSizeLine => ChunksEnd(s, v.at, v.frame.bodysz);
    case ChunkBytes => ChunkDataEnds(s, v.at, v.size, v.frame.bodysz);
    case HeaderIn => HeadersEnd(s, cuts, v.pos, v.frame);
    case HeaderOut => HeadersEnd(s, cuts, v.at, v.frame);
    case _ =>
      var i := if v.phase == Start then v.pos else v.at;
      if FirstCrlf(s, i).Some? {
        HeadersEnd(s, cuts, FirstCrlf(s, i).value + 2, v.frame);
      }
  }
}
