/**
 One client connection: the callers of mnhttpc_request_finalize, the send worker,
 the receive worker and the peer, as interleaved steps.  A step is the code between
 two points where an mnthr thread can be suspended.  Request r is the call that
 writes texts[r]; I/O errors, interrupts and reconnects end a modelled run.
 */
module ClientProtocol {
  import opened Bytes

  /** Where a call of mnhttpc_request_finalize stands. */
  datatype Call =
    | NotStarted  // waiting for the semaphore
    | Holding     // has the semaphore
    | Waiting     // request written and queued, subscribed to recv_signal
    | Woken       // recv_signal received
    | Returned    // semaphore released

  datatype Sender =
    | NoSender    // not connected yet
    | Writing     // inside bytestream_produce_data
    | Parked      // subscribed to send_signal
    | Roused      // send_signal received, not resumed yet

  datatype Receiver =
    | AtSocket                       // waiting for the socket to become readable
    | Reading(slot: Option<nat>)     // inside http_parse_response, for that request or for none

  /**
   `out` and `pos` are the output stream; `wire` is what has been written to the
   socket.  The last four fields only record: the requests in the order in which
   they were submitted, the holder of the semaphore, how many responses the peer
   has sent, and for each response read the request it was stored in.
   */
  datatype State = State(
    calls: seq<Call>, sema: nat, queue: seq<nat>,
    out: bytes, pos: nat, wire: bytes,
    sender: Sender, receiver: Receiver,
    order: seq<nat>, holder: Option<nat>, responded: nat, stored: seq<Option<nat>>)

  datatype Action =
    | Acquire(r: nat) | Connect(r: nat) | Submit(r: nat) | Release(r: nat)
    | Write(n: nat) | Drain | Resume
    | Respond
    | TakeHead | Finish

  predicate CallIs(s: State, r: nat, c: Call) {
    r < |s.calls| && s.calls[r] == c
  }

  /** The texts of the given requests, one after the other. */
  function Concat(texts: seq<bytes>, order: seq<nat>): bytes
    requires forall r :: r in order ==> r < |texts|
  {
    if order == [] then []
    else
      var n := |order| - 1;
      assert order[n] in order && forall r :: r in order[..n] ==> r in order;
      Concat(texts, order[..n]) + texts[order[n]]
  }

  predicate GoodOrder(texts: seq<bytes>, order: seq<nat>) {
    forall r :: r in order ==> r < |texts|
  }

  /** The peer answers a request only after it has seen its first byte. */
  predicate MayRespond(texts: seq<bytes>, s: State) {
    && s.responded < |s.order| && GoodOrder(texts, s.order[..s.responded])
    && |Concat(texts, s.order[..s.responded])| < |s.wire|
  }

  predicate Enabled(texts: seq<bytes>, s: State, a: Action) {
    match a
    case Acquire(r) => CallIs(s, r, NotStarted) && s.sema > 0
    case Connect(r) => CallIs(s, r, Holding) && s.sender == NoSender
    case Submit(r) => CallIs(s, r, Holding) && s.sender != NoSender && r < |texts|
    case Release(r) => CallIs(s, r, Woken)
    case Write(n) => s.sender == Writing && 0 < n && s.pos + n <= |s.out|
    case Drain => s.sender == Writing && s.pos >= |s.out|
    case Resume => s.sender == Roused
    case Respond => MayRespond(texts, s)
    case TakeHead => s.sender != NoSender && s.receiver == AtSocket && |s.stored| < s.responded
    case Finish => s.receiver.Reading?
  }

  function SetCall(s: State, r: nat, c: Call): State
    requires r < |s.calls|
  {
    s.(calls := s.calls[r := c])
  }

  function Step(texts: seq<bytes>, s: State, a: Action): State
    requires Enabled(texts, s, a)
  {
    match a
    case Acquire(r) => SetCall(s, r, Holding).(sema := s.sema - 1, holder := Some(r))
    case Connect(r) => s.(sender := Writing)
    case Submit(r) =>
      SetCall(s, r, Waiting).(
        out := s.out + texts[r], queue := s.queue + [r], order := s.order + [r],
        // a signal reaches the send worker only if it is subscribed
        sender := if s.sender == Parked then Roused else s.sender)
    case Release(r) => SetCall(s, r, Returned).(sema := s.sema + 1, holder := None)
    case Write(n) => s.(wire := s.wire + s.out[s.pos..s.pos + n], pos := s.pos + n)
    case Drain => s.(out := [], pos := 0, sender := Parked)
    case Resume => s.(sender := Writing)
    case Respond => s.(responded := s.responded + 1)
    case TakeHead =>
      if s.queue == [] then s.(receiver := Reading(None))
      else s.(queue := s.queue[1..], receiver := Reading(Some(s.queue[0])))
    case Finish =>
      var done := s.(receiver := AtSocket, stored := s.stored + [s.receiver.slot]);
      match s.receiver.slot
      case None => done
      case Some(r) => if CallIs(s, r, Waiting) then SetCall(done, r, Woken) else done
  }

  function Initial(n: nat): State {
    State(seq(n, _ => NotStarted), 1, [], [], 0, [], NoSender, AtSocket, [], None, 0, [])
  }

  // ----------------------------------------------------------------------------- invariant

  predicate Active(c: Call) {
    c == Holding || c == Waiting || c == Woken
  }

  /** The semaphore: taken by exactly the one call that is under way. */
  predicate OneHolder(s: State) {
    && s.sema == (if s.holder.None? then 1 else 0)
    && (forall r :: 0 <= r < |s.calls| && Active(s.calls[r]) ==> s.holder == Some(r))
    && (s.holder.Some? ==> s.holder.value < |s.calls| && Active(s.calls[s.holder.value]))
  }

  /** A request is in flight: submitted, and its response not yet read. */
  predicate InFlight(s: State) {
    s.holder.Some? && CallIs(s, s.holder.value, Waiting)
  }

  /** The queue and the receive worker share out the one request in flight. */
  predicate OneInFlight(s: State) {
    if InFlight(s) then
      && |s.order| == |s.stored| + 1 && s.order[|s.stored|] == s.holder.value
      && ((s.queue == [s.holder.value] && s.receiver == AtSocket)
          || (s.queue == [] && s.receiver == Reading(s.holder)))
    else |s.order| == |s.stored| && s.queue == [] && s.receiver == AtSocket
  }

  /** The k-th response read is stored in the k-th request submitted, and no more responses come than requests. */
  predicate InOrder(s: State) {
    && |s.stored| <= s.responded <= |s.order| && |s.stored| <= |s.order|
    && (s.receiver.Reading? ==> |s.stored| < s.responded)
    && forall k :: 0 <= k < |s.stored| ==> s.stored[k] == Some(s.order[k])
  }

  /** Nothing is lost or repeated on the way to the socket. */
  predicate Carried(texts: seq<bytes>, order: seq<nat>, out: bytes, pos: nat, wire: bytes, sender: Sender) {
    && GoodOrder(texts, order) && pos <= |out|
    && wire + out[pos..] == Concat(texts, order)
    && (sender == Parked || sender == NoSender ==> out == [])
    && (sender == NoSender ==> order == [])
  }

  predicate Conserved(texts: seq<bytes>, s: State) {
    Carried(texts, s.order, s.out, s.pos, s.wire, s.sender)
  }

  /** Every call submits once. */
  predicate SubmittedOnce(s: State) {
    && (forall r :: 0 <= r < |s.calls| ==> (r in s.order <==> s.calls[r] in {Waiting, Woken, Returned}))
    && (forall r :: r in s.order ==> r < |s.calls|)
    && (forall j, k :: 0 <= j < k < |s.order| ==> s.order[j] != s.order[k])
  }

  predicate Inv(texts: seq<bytes>, s: State) {
    && |s.calls| == |texts| && (forall r :: 0 <= r < |texts| ==> texts[r] != [])
    && OneHolder(s) && OneInFlight(s) && InOrder(s) && SubmittedOnce(s) && Conserved(texts, s)
  }

  lemma {:induction false} InitialInv(texts: seq<bytes>)
    requires forall r :: 0 <= r < |texts| ==> texts[r] != []
    ensures Inv(texts, Initial(|texts|))
  {
  }

  lemma {:induction false} ConcatAppend(texts: seq<bytes>, order: seq<nat>, r: nat)
    requires GoodOrder(texts, order) && r < |texts|
    ensures GoodOrder(texts, order + [r]) && Concat(texts, order + [r]) == Concat(texts, order) + texts[r]
  {
    assert (order + [r])[..|order|] == order;
  }

  lemma {:induction false} StepKeepsHolder(texts: seq<bytes>, s: State, a: Action)
    requires Inv(texts, s) && Enabled(texts, s, a)
    ensures OneHolder(Step(texts, s, a))
  {
    hide Concat, MayRespond, Conserved, SubmittedOnce;
  }

  lemma {:induction false} StepKeepsFlight(texts: seq<bytes>, s: State, a: Action)
    requires Inv(texts, s) && Enabled(texts, s, a)
    ensures OneInFlight(Step(texts, s, a)) && InOrder(Step(texts, s, a))
  {
    hide Concat, Conserved, SubmittedOnce;
  }

  lemma {:induction false} StepSubmitsOnce(texts: seq<bytes>, s: State, a: Action)
    requires Inv(texts, s) && Enabled(texts, s, a)
    ensures SubmittedOnce(Step(texts, s, a))
  {
    hide Concat, Conserved, InOrder;
  }

  lemma {:induction false} WriteCarries(texts: seq<bytes>, order: seq<nat>, out: bytes, pos: nat, wire: bytes, n: nat)
    requires Carried(texts, order, out, pos, wire, Writing) && pos + n <= |out|
    ensures Carried(texts, order, out, pos + n, wire + out[pos..pos + n], Writing)
  {
    hide Concat;
    assert out[pos..pos + n] + out[pos + n..] == out[pos..];
    assert wire + (out[pos..pos + n] + out[pos + n..]) == wire + out[pos..pos + n] + out[pos + n..];
  }

  lemma {:induction false} DrainCarries(texts: seq<bytes>, order: seq<nat>, out: bytes, pos: nat, wire: bytes)
    requires Carried(texts, order, out, pos, wire, Writing) && pos == |out|
    ensures Carried(texts, order, [], 0, wire, Parked)
  {
    hide Concat;
    var empty: bytes := [];
    assert out[pos..] == [] && empty[0..] == [];
  }

  lemma {:induction false} SubmitCarries(texts: seq<bytes>, order: seq<nat>, out: bytes, pos: nat, wire: bytes,
                                         sender: Sender, r: nat)
    requires Carried(texts, order, out, pos, wire, sender) && sender != NoSender && r < |texts|
    ensures Carried(texts, order + [r], out + texts[r], pos, wire, if sender == Parked then Roused else sender)
  {
    hide Concat;
    ConcatAppend(texts, order, r);
    assert (out + texts[r])[pos..] == out[pos..] + texts[r];
    assert wire + (out[pos..] + texts[r]) == wire + out[pos..] + texts[r];
  }

  lemma {:induction false} StepConserves(texts: seq<bytes>, s: State, a: Action)
    requires Conserved(texts, s) && Enabled(texts, s, a)
    ensures Conserved(texts, Step(texts, s, a))
  {
    hide Concat, MayRespond;
    match a
    case Submit(r) => SubmitCarries(texts, s.order, s.out, s.pos, s.wire, s.sender, r);
    case Write(n) => WriteCarries(texts, s.order, s.out, s.pos, s.wire, n);
    case Drain => DrainCarries(texts, s.order, s.out, s.pos, s.wire);
    case _ =>
  }

  lemma {:induction false} StepKeepsInv(texts: seq<bytes>, s: State, a: Action)
    requires Inv(texts, s) && Enabled(texts, s, a)
    ensures Inv(texts, Step(texts, s, a))
  {
    hide Concat, OneInFlight, InOrder, OneHolder, Conserved, SubmittedOnce;
    StepSubmitsOnce(texts, s, a);
    StepKeepsHolder(texts, s, a);
    StepKeepsFlight(texts, s, a);
    StepConserves(texts, s, a);
    assert |Step(texts, s, a).calls| == |s.calls|;
  }

  // ---------------------------------------------------------------------------------- runs

  predicate IsRun(texts: seq<bytes>, s: State, actions: seq<Action>)
    decreases |actions|
  {
    actions != [] ==> Enabled(texts, s, actions[0]) && IsRun(texts, Step(texts, s, actions[0]), actions[1..])
  }

  function After(texts: seq<bytes>, s: State, actions: seq<Action>): State
    requires IsRun(texts, s, actions)
    decreases |actions|
  {
    if actions == [] then s else After(texts, Step(texts, s, actions[0]), actions[1..])
  }

  lemma {:induction false} RunKeepsInv(texts: seq<bytes>, s: State, actions: seq<Action>)
    requires Inv(texts, s) && IsRun(texts, s, actions)
    ensures Inv(texts, After(texts, s, actions))
    decreases |actions|
  {
    hide Inv, Step, Enabled;
    if actions != [] {
      StepKeepsInv(texts, s, actions[0]);
      RunKeepsInv(texts, Step(texts, s, actions[0]), actions[1..]);
    }
  }

  /**
   Safety, over every interleaving: at most one request is queued or being answered;
   the k-th response read is stored in the k-th request submitted, and none is read
   without a request to store it in; the bytes on the wire are a prefix of the
   submitted requests, none lost or repeated.
   */
  lemma {:induction false} RunIsSafe(texts: seq<bytes>, actions: seq<Action>)
    requires forall r :: 0 <= r < |texts| ==> texts[r] != []
    requires IsRun(texts, Initial(|texts|), actions)
    ensures var s := After(texts, Initial(|texts|), actions);
            && |s.queue| + (if s.receiver.Reading? then 1 else 0) <= 1
            && s.receiver != Reading(None)
            && |s.stored| <= |s.order| && (forall k :: 0 <= k < |s.stored| ==> s.stored[k] == Some(s.order[k]))
            && GoodOrder(texts, s.order) && s.wire <= Concat(texts, s.order)
  {
    hide Concat, IsRun, After, Step, Enabled;
    InitialInv(texts);
    RunKeepsInv(texts, Initial(|texts|), actions);
  }

  // ------------------------------------------------------------------------- any semaphore

  function Slots(order: seq<nat>): (r: seq<Option<nat>>)
    ensures |r| == |order| && forall k :: 0 <= k < |r| ==> r[k] == Some(order[k])
  {
    seq(|order|, k requires 0 <= k < |order| => Some(order[k]))
  }

  function InHand(receiver: Receiver): seq<Option<nat>> {
    if receiver.Reading? then [receiver.slot] else []
  }

  /** The requests submitted are those answered, the one being read and those queued, in this order. */
  predicate Fifo(s: State) {
    Slots(s.order) == s.stored + InHand(s.receiver) + Slots(s.queue) && s.responded <= |s.order|
  }

  lemma {:induction false} SlotsAppend(order: seq<nat>, r: nat)
    ensures Slots(order + [r]) == Slots(order) + [Some(r)]
  {
  }

  lemma {:induction false} SlotsHead(queue: seq<nat>)
    requires queue != []
    ensures Slots(queue) == [Some(queue[0])] + Slots(queue[1..])
  {
  }

  /** The queue keeps this by itself, without the semaphore. */
  lemma {:induction false} StepKeepsFifo(texts: seq<bytes>, s: State, a: Action)
    requires Fifo(s) && Enabled(texts, s, a)
    ensures Fifo(Step(texts, s, a))
  {
    hide Slots;
    match a
    case Submit(r) =>
      SlotsAppend(s.order, r);
      SlotsAppend(s.queue, r);
      assert s.stored + InHand(s.receiver) + (Slots(s.queue) + [Some(r)])
          == s.stored + InHand(s.receiver) + Slots(s.queue) + [Some(r)];
    case TakeHead =>
      assert s.queue != [];
      SlotsHead(s.queue);
      assert s.stored + [] + ([Some(s.queue[0])] + Slots(s.queue[1..]))
          == s.stored + [Some(s.queue[0])] + Slots(s.queue[1..]);
    case Finish =>
      assert s.stored + [s.receiver.slot] + [] == s.stored + [s.receiver.slot];
    case _ =>
  }

  lemma {:induction false} RunKeepsFifo(texts: seq<bytes>, s: State, actions: seq<Action>)
    requires Fifo(s) && Conserved(texts, s) && IsRun(texts, s, actions)
    ensures Fifo(After(texts, s, actions)) && Conserved(texts, After(texts, s, actions))
    decreases |actions|
  {
    hide Fifo, Conserved, Step, Enabled;
    if actions != [] {
      StepKeepsFifo(texts, s, actions[0]);
      StepConserves(texts, s, actions[0]);
      RunKeepsFifo(texts, Step(texts, s, actions[0]), actions[1..]);
    }
  }

  /**
   What does not rest on the semaphore: with any number of permits, and so with any
   number of requests in flight, the k-th response read is stored in the k-th request
   submitted, and the bytes on the wire are a prefix of the submitted requests.
   */
  lemma {:induction false} AnyPermitsSafe(texts: seq<bytes>, permits: nat, actions: seq<Action>)
    requires IsRun(texts, Initial(|texts|).(sema := permits), actions)
    ensures var s := After(texts, Initial(|texts|).(sema := permits), actions);
            && |s.stored| <= |s.order| && (forall k :: 0 <= k < |s.stored| ==> s.stored[k] == Some(s.order[k]))
            && (s.receiver.Reading? ==> |s.stored| < |s.order| && s.receiver.slot == Some(s.order[|s.stored|]))
            && GoodOrder(texts, s.order) && s.wire <= Concat(texts, s.order)
  {
    hide Concat, IsRun, After, Step, Enabled, Slots;
    NothingCarried(texts);
    RunKeepsFifo(texts, Initial(|texts|).(sema := permits), actions);
    FifoPairs(After(texts, Initial(|texts|).(sema := permits), actions));
  }

  lemma {:induction false} NothingCarried(texts: seq<bytes>)
    ensures Carried(texts, [], [], 0, [], NoSender)
  {
  }

  lemma {:induction false} FifoPairs(s: State)
    requires Fifo(s)
    ensures |s.stored| <= |s.order| && forall k :: 0 <= k < |s.stored| ==> s.stored[k] == Some(s.order[k])
    ensures s.receiver.Reading? ==> |s.stored| < |s.order| && s.receiver.slot == Some(s.order[|s.stored|])
  {
    var all := s.stored + InHand(s.receiver) + Slots(s.queue);
    assert forall k :: 0 <= k < |s.stored| ==> all[k] == s.stored[k];
    assert s.receiver.Reading? ==> all[|s.stored|] == s.receiver.slot;
  }

  // ------------------------------------------------------------------------------ progress

  /** What the invariant says of a request in flight. */
  lemma {:induction false} FlightState(texts: seq<bytes>, s: State)
    requires Inv(texts, s) && InFlight(s)
    ensures s.sender != NoSender && s.pos <= |s.out|
    ensures |s.order| == |s.stored| + 1 && |s.stored| <= s.responded <= |s.order|
    ensures s.receiver.Reading? || s.receiver == AtSocket
  {
    hide Concat, SubmittedOnce, OneHolder;
  }

  /** A send worker that is awake has something to do. */
  lemma {:induction false} SenderMoves(texts: seq<bytes>, s: State) returns (a: Action)
    requires s.pos <= |s.out| && (s.sender == Roused || s.sender == Writing)
    ensures Enabled(texts, s, a)
  {
    if s.sender == Roused {
      a := Resume;
    } else {
      a := if s.pos < |s.out| then Write(|s.out| - s.pos) else Drain;
    }
  }

  /** The request in flight is on its way through the send worker, the peer or the receive worker. */
  lemma {:induction false} FlightMoves(texts: seq<bytes>, s: State) returns (a: Action)
    requires Inv(texts, s) && InFlight(s)
    ensures Enabled(texts, s, a)
  {
    hide Inv, InFlight, MayRespond;
    FlightState(texts, s);
    if s.receiver.Reading? {
      a := Finish;
    } else if s.sender != Parked {
      a := SenderMoves(texts, s);
    } else if |s.stored| < s.responded {
      a := TakeHead;
    } else {
      PeerHasRequest(texts, s);
      a := Respond;
    }
  }

  /** No lost wake-up: as long as some call has not returned, some step is possible. */
  lemma {:induction false} NeverStuck(texts: seq<bytes>, s: State, r: nat) returns (a: Action)
    requires Inv(texts, s) && r < |s.calls| && s.calls[r] != Returned
    ensures Enabled(texts, s, a)
  {
    hide Concat, SubmittedOnce, Conserved, MayRespond, InOrder, OneInFlight;
    match s.holder
    case None =>
      a := Acquire(r);
    case Some(h) =>
      if s.calls[h] == Woken {
        a := Release(h);
      } else if s.calls[h] == Holding {
        a := if s.sender == NoSender then Connect(h) else Submit(h);
      } else {
        a := FlightMoves(texts, s);
      }
  }

  /** When the send worker is parked, the whole of every submitted request is on the wire. */
  lemma {:induction false} PeerHasRequest(texts: seq<bytes>, s: State)
    requires Inv(texts, s) && s.sender == Parked && s.responded + 1 == |s.order|
    ensures MayRespond(texts, s)
  {
    var n := |s.order| - 1;
    assert s.order[n] in s.order && forall r :: r in s.order[..n] ==> r in s.order;
    assert s.wire == s.wire + s.out[s.pos..] == Concat(texts, s.order);
    assert Concat(texts, s.order) == Concat(texts, s.order[..n]) + texts[s.order[n]];
  }

  /** What a call still has to do, given the length of its text. */
  function CallWork(c: Call, n: nat): nat {
    match c
    case NotStarted => n + 9
    case Holding => n + 8
    case Waiting => 2
    case Woken => 1
    case Returned => 0
  }

  function CallsWork(calls: seq<Call>, texts: seq<bytes>): nat
    requires |calls| == |texts|
  {
    if calls == [] then 0
    else
      var n := |calls| - 1;
      CallsWork(calls[..n], texts[..n]) + CallWork(calls[n], |texts[n]|)
  }

  function SenderWork(p: Sender): nat {
    match p
    case NoSender => 2
    case Roused => 2
    case Writing => 1
    case Parked => 0
  }

  predicate Sane(texts: seq<bytes>, s: State) {
    && |s.calls| == |texts| && s.pos <= |s.out| && |s.stored| <= s.responded <= |s.order|
    && (s.receiver.Reading? ==> |s.stored| < s.responded)
  }

  function Work(texts: seq<bytes>, s: State): nat
    requires Sane(texts, s)
  {
    CallsWork(s.calls, texts) + (|s.out| - s.pos) + SenderWork(s.sender)
    + 3 * (|s.order| - s.responded) + 2 * (s.responded - |s.stored|) + (if s.receiver.Reading? then 0 else 1)
  }

  lemma {:induction false} WorkUpdate(calls: seq<Call>, texts: seq<bytes>, r: nat, c: Call)
    requires |calls| == |texts| && r < |calls|
    ensures CallsWork(calls[r := c], texts) + CallWork(calls[r], |texts[r]|)
            == CallsWork(calls, texts) + CallWork(c, |texts[r]|)
    decreases |calls|
  {
    hide CallWork;
    var n := |calls| - 1;
    if r < n {
      assert calls[r := c][..n] == calls[..n][r := c];
      WorkUpdate(calls[..n], texts[..n], r, c);
    } else {
      assert calls[r := c][..n] == calls[..n];
    }
  }

  lemma {:induction false} InvSane(texts: seq<bytes>, s: State)
    requires Inv(texts, s)
    ensures Sane(texts, s)
  {
    hide Concat;
  }

  /** The steps that move a call along. */
  lemma {:induction false} CallStepWorks(texts: seq<bytes>, s: State, a: Action)
    requires Sane(texts, s) && Enabled(texts, s, a) && Sane(texts, Step(texts, s, a))
    requires a.Acquire? || a.Submit? || a.Release? || a.Finish?
    ensures Work(texts, Step(texts, s, a)) < Work(texts, s)
  {
    hide CallsWork, MayRespond;
    match a
    case Acquire(r) => WorkUpdate(s.calls, texts, r, Holding);
    case Submit(r) => WorkUpdate(s.calls, texts, r, Waiting);
    case Release(r) => WorkUpdate(s.calls, texts, r, Returned);
    case Finish =>
      if s.receiver.slot.Some? && CallIs(s, s.receiver.slot.value, Waiting) {
        WorkUpdate(s.calls, texts, s.receiver.slot.value, Woken);
      }
  }

  /** The steps of the workers and of the peer that leave every call where it is. */
  lemma {:induction false} WorkerStepWorks(texts: seq<bytes>, s: State, a: Action)
    requires Sane(texts, s) && Enabled(texts, s, a) && Sane(texts, Step(texts, s, a))
    requires !(a.Acquire? || a.Submit? || a.Release? || a.Finish?)
    ensures Work(texts, Step(texts, s, a)) < Work(texts, s)
  {
    hide CallsWork, MayRespond;
  }

  /** Every step is one piece of a finite amount of work. */
  lemma {:induction false} StepWorks(texts: seq<bytes>, s: State, a: Action)
    requires Sane(texts, s) && Enabled(texts, s, a) && Sane(texts, Step(texts, s, a))
    ensures Work(texts, Step(texts, s, a)) < Work(texts, s)
  {
    hide Work, Step, Enabled, Sane;
    if a.Acquire? || a.Submit? || a.Release? || a.Finish? {
      CallStepWorks(texts, s, a);
    } else {
      WorkerStepWorks(texts, s, a);
    }
  }

  lemma {:induction false} RunsEnd(texts: seq<bytes>, s: State, actions: seq<Action>)
    requires Inv(texts, s) && IsRun(texts, s, actions) && Sane(texts, s)
    ensures |actions| <= Work(texts, s)
    decreases |actions|
  {
    hide Inv, Step, Enabled, Work, Sane;
    if actions != [] {
      StepKeepsInv(texts, s, actions[0]);
      InvSane(texts, Step(texts, s, actions[0]));
      StepWorks(texts, s, actions[0]);
      RunsEnd(texts, Step(texts, s, actions[0]), actions[1..]);
    }
  }

  /**
   Completion: no run goes on for ever, and one that cannot go on has returned from
   every call, with all requests on the wire, and each request holds the response
   that answers it: the response at its own place in the order of submission.
   */
  lemma {:induction false} RunsComplete(texts: seq<bytes>, actions: seq<Action>)
    requires forall r :: 0 <= r < |texts| ==> texts[r] != []
    requires IsRun(texts, Initial(|texts|), actions)
    requires forall a :: !Enabled(texts, After(texts, Initial(|texts|), actions), a)
    ensures Sane(texts, Initial(|texts|)) && |actions| <= Work(texts, Initial(|texts|))
    ensures var s := After(texts, Initial(|texts|), actions);
            && |s.calls| == |texts| && (forall r :: 0 <= r < |texts| ==> s.calls[r] == Returned && r in s.order)
            && |s.stored| == |s.order| && (forall k :: 0 <= k < |s.order| ==> s.stored[k] == Some(s.order[k]))
            && (forall j, k :: 0 <= j < k < |s.order| ==> s.order[j] != s.order[k])
            && GoodOrder(texts, s.order) && s.wire == Concat(texts, s.order)
  {
    hide Concat, IsRun, After, Step, Enabled, CallsWork;
    InitialInv(texts);
    InvSane(texts, Initial(|texts|));
    RunsEnd(texts, Initial(|texts|), actions);
    RunKeepsInv(texts, Initial(|texts|), actions);
    var s := After(texts, Initial(|texts|), actions);
    assert !Enabled(texts, s, Drain) && !Enabled(texts, s, Resume) && !Enabled(texts, s, Write(|s.out| - s.pos));
    IdleSender(texts, s);
    forall r | 0 <= r < |texts|
      ensures s.calls[r] == Returned
    {
      if s.calls[r] != Returned {
        var a := NeverStuck(texts, s, r);
      }
    }
  }

  lemma {:induction false} IdleSender(texts: seq<bytes>, s: State)
    requires Inv(texts, s)
    requires !Enabled(texts, s, Drain) && !Enabled(texts, s, Resume) && !Enabled(texts, s, Write(|s.out| - s.pos))
    ensures s.wire == Concat(texts, s.order)
  {
    hide Concat, SubmittedOnce, OneInFlight, OneHolder, InOrder;
    assert s.sender == Parked || s.sender == NoSender;
    assert s.wire + s.out[s.pos..] == s.wire;
  }
}
