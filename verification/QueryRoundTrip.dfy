/**
 Query terms from one end of the connection to the other: written by the client's
 mnhttp_uri_t into a request, read by the server's parser as a request URI, and
 split by mnhttp_uri_parse and mnhttp_parse_qterms.
 */
module QueryRoundTrip {
  import opened Bytes
  import opened MessageSpec
  import opened ByteStreams
  import opened MessageParser
  import opened Writers
  import opened RoundTrip
  import opened Messages
  import Endpoints
  import KeyValue
  import Uri
  import RequestTarget

  /** A target made of an unbroken, blank-free relative part and encoded terms is fit for a request line. */
  lemma {:induction false} TargetTravels(relative: bytes, qstring: Option<bytes>, terms: seq<KeyValue.Term>)
    requires BlankFree(relative) && Unbroken(relative)
    ensures BlankFree(RequestTarget.Target(relative, qstring, terms))
    ensures Unbroken(RequestTarget.Target(relative, qstring, terms))
    ensures relative <= RequestTarget.Target(relative, qstring, terms)
  {
    hide RequestTarget.QueryText, Unbroken;
    RequestTarget.QueryTextClean(terms);
    var rest := if terms == [] then []
                else (if qstring.None? then ['?'] else []) + RequestTarget.QueryText(terms);
    assert RequestTarget.Target(relative, qstring, terms) == relative + rest;
    assert forall c :: c in rest ==> c == '?' || RequestTarget.QueryChar(c);
    StaysUnbroken(relative, rest);
  }

  lemma {:induction false} StaysUnbroken(x: bytes, rest: bytes)
    requires Unbroken(x) && '\n' !in rest
    ensures Unbroken(x + rest)
  {
    var y := x + rest;
    forall k | 0 <= k < |y|
      ensures !CrlfAt(y, k)
    {
      if k + 1 < |x| {
        assert y[k] == x[k] && y[k + 1] == x[k + 1] && !CrlfAt(x, k);
      } else if k + 1 < |y| {
        assert y[k + 1] == rest[k + 1 - |x|] && rest[k + 1 - |x|] in rest;
      }
    }
  }

  /** What a server makes of a request URI. */
  method ReadTarget(uri: bytes) returns (path: bytes, query: seq<KeyValue.Term>, ghost u: Uri.Tail)
    requires Uri.Starts(uri, '/')
    ensures Uri.GoodTail(u, false) && Uri.TailText(u) == uri
    ensures path == u.path && query == RequestTarget.QueryTerms(Uri.Plainly(u.qstring))
  {
    var t := Uri.ParseTail(uri);
    u := t;
    path := t.path;
    query := KeyValue.ParseKvp(Uri.Plainly(t.qstring), '=', '&', RequestTarget.UrlDecoded);
  }

  /** A target that terms were added to is read as the old path, the old terms and the added ones. */
  lemma {:induction false} TargetReads(t: Uri.Tail, terms: seq<KeyValue.Term>, u: Uri.Tail)
    requires Uri.GoodTail(t, false) && RequestTarget.Appendable(t) && Uri.GoodTail(u, false)
    requires Uri.TailText(u) == RequestTarget.Target(Uri.TailText(t), t.qstring, terms)
    requires forall x :: x in terms ==> x.key != []
    ensures u.path == t.path
    ensures RequestTarget.QueryTerms(Uri.Plainly(u.qstring)) == RequestTarget.QueryTerms(Uri.Plainly(t.qstring)) + terms
  {
    hide Uri.TailText, Uri.GoodTail, RequestTarget.Target, KeyValue.Terms;
    if terms == [] {
      NothingAdded(t);
      Uri.TailUnique(u, t, false);
    } else {
      RequestTarget.AppendExact(t, terms, u);
    }
  }

  lemma {:induction false} NothingAdded(t: Uri.Tail)
    ensures RequestTarget.Target(Uri.TailText(t), t.qstring, []) == Uri.TailText(t)
  {
  }

  /**
   The terms of the old query and the added ones arrive, in this order, with the
   path, however the bytes travel.
   */
  method QueryRoundTrip(cfg: Config, client: RequestTarget.HttpUri, ghost t: Uri.Tail, order: seq<KeyValue.Term>,
                        verb: bytes, ghost code: int, fields: seq<Field>, body: bytes, deliveries: seq<bytes>)
    returns (text: bytes, res: Result, path: bytes, query: seq<KeyValue.Term>)
    requires client.Valid() && client.relative == Some(Uri.TailText(t)) && client.qstring == t.qstring
    requires Uri.GoodTail(t, false) && RequestTarget.Appendable(t)
    requires BlankFree(Uri.TailText(t)) && Unbroken(Uri.TailText(t))
    requires multiset(order) == multiset(client.qterms) && forall x :: x in order ==> x.key != []
    requires cfg.request && Recognised(verb, code)
    requires CleanFields(fields) && DeclaresBody(fields, Declared(body))
    requires forall d :: d in deliveries ==> d != []
    requires var uri := RequestTarget.Target(Uri.TailText(t), t.qstring, order);
             |HeadText(RequestText(verb, uri), fields)| - 1 !in Cuts(0, deliveries)
    ensures Flatten(deliveries) == text ==>
              && res == Success && path == t.path
              && query == RequestTarget.QueryTerms(Uri.Plainly(t.qstring)) + order
  {
    hide FromLine, Cuts, RequestText, CleanFields, FieldEvents, Recognised, Unbroken, BlankFree, FieldsFrame;
    hide RequestTarget.QueryTerms, RequestTarget.Appendable, RequestTarget.Target, Uri.TailText;
    ghost var uri := RequestTarget.Target(Uri.TailText(t), t.qstring, order);
    var out := new OutStream();
    client.StartRequest(out, verb, order);
    out.AddRest(fields, body);
    text := out.data;
    assert text == HeadText(RequestText(verb, uri), fields) + body;
    var events, bodysz;
    ghost var end;
    res, events, bodysz, end := Endpoints.ParseDeliveries(cfg, deliveries);
    path, query := [], [];
    ghost var u := t;
    if events != [] && events[0].LineEvent? && events[0].line.uri.Some?
      && Uri.Starts(events[0].line.uri.value, '/') {
      path, query, u := ReadTarget(events[0].line.uri.value);
    }
    if Flatten(deliveries) == text {
      assert Uri.Starts(Uri.TailText(t), '/') by { TailStarts(t); }
      TargetTravels(Uri.TailText(t), t.qstring, order);
      Endpoints.RequestArrives(cfg, verb, code, uri, fields, body, Cuts(0, deliveries));
      TargetReads(t, order, u);
    }
  }

  lemma {:induction false} TailStarts(t: Uri.Tail)
    requires Uri.GoodTail(t, false)
    ensures Uri.Starts(Uri.TailText(t), '/')
  {
  }
}
