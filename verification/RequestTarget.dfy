/**
 mnhttp_uri_t as an object: filled by mnhttp_uri_parse, which also supplies default
 port and scheme, extended by mnhttp_uri_add_qterm, and written out by
 mnhttp_uri_start_request with its query terms percent-encoded.
 */
module RequestTarget {
  import opened Bytes
  import opened PercentCodec
  import opened KeyValue
  import opened Uri
  import opened Writers

  // --------------------------------------------------------------------------- defaults

  predicate NullOrEmpty(x: Option<bytes>) {
    x.None? || x.value == []
  }

  /** The port after defaulting: decided by the scheme as it was written. */
  function DefaultPort(scheme: Scheme, port: Option<bytes>): Option<bytes> {
    if !NullOrEmpty(port) then port
    else if scheme == HTTPS || scheme == WSS then Some("443")
    else if scheme == HTTP || scheme == WS then Some("80")
    else None
  }

  /** The scheme after defaulting: decided by the port. */
  function DefaultScheme(scheme: Scheme, port: Option<bytes>): Scheme {
    if scheme != UNDEF then scheme
    else if port == Some("443") then HTTPS
    else HTTP
  }

  /**
   A port is known after the parse if and only if one was written or the scheme was
   written as http, https, ws or wss.  A URI without both, such as "localhost",
   becomes http without a port.
   */
  lemma {:induction false} PortKnown(p: Parts)
    ensures DefaultPort(p.scheme, p.authority.port).Some?
            <==> !NullOrEmpty(p.authority.port) || p.scheme in {HTTP, HTTPS, WS, WSS}
    ensures p.scheme == UNDEF && NullOrEmpty(p.authority.port) ==>
              DefaultPort(p.scheme, p.authority.port) == None
              && DefaultScheme(p.scheme, DefaultPort(p.scheme, p.authority.port)) == HTTP
  {
  }

  lemma {:induction false} SchemesHaveSlash(k: Scheme, s: bytes)
    requires k != UNDEF && SchemeText(k) <= s
    ensures '/' in s
  {
    var x := SchemeText(k);
    assert x[|x| - 1] == '/' && s[|x| - 1] == x[|x| - 1];
  }

  lemma {:induction false} BareSplit(s: bytes, q: Parts)
    requires '/' !in s && ':' !in s && '@' !in s
    requires q == Parts(UNDEF, Authority(None, None, s, None), None)
    ensures IsSplit(s, q)
  {
    assert HostPortText(q.authority) == s + [] == s;
    assert UriText(q) == [] + (s + []) == s;
    if HasScheme(s) {
      var k :| k != UNDEF && SchemeText(k) <= s;
      SchemesHaveSlash(k, s);
    }
  }

  /** Any bare host name, "localhost" for one, is left without a port; test/testhttpuri.c expects "80". */
  lemma {:induction false} BareHostHasNoPort(s: bytes, p: Parts)
    requires '/' !in s && ':' !in s && '@' !in s && IsSplit(s, p)
    ensures p.authority.host == s && DefaultPort(p.scheme, p.authority.port) == None
    ensures DefaultScheme(p.scheme, DefaultPort(p.scheme, p.authority.port)) == HTTP
  {
    hide IsSplit;
    var q := Parts(UNDEF, Authority(None, None, s, None), None);
    BareSplit(s, q);
    SplitUnique(s, p, q);
  }

  // ------------------------------------------------------------------------- query text

  function TermText(t: Term): bytes {
    Encode(t.key) + ['='] + Encode(t.value)
  }

  function TermTexts(terms: seq<Term>): (r: seq<bytes>)
    ensures |r| == |terms|
  {
    if terms == [] then [] else [TermText(terms[0])] + TermTexts(terms[1..])
  }

  /** The terms, encoded, with '&' between them. */
  function QueryText(terms: seq<Term>): bytes {
    if terms == [] then [] else Join(TermTexts(terms), '&')
  }

  /** bytes_urldecode on a whole value; text that does not decode is outside what is claimed here. */
  function UrlDecoded(s: bytes): bytes {
    match Decode(s)
    case None => s
    case Some(d) => d
  }

  function WithKeys(terms: seq<Term>): seq<Term> {
    if terms == [] then []
    else (if terms[0].key == [] then [] else [terms[0]]) + WithKeys(terms[1..])
  }

  function QueryTerms(s: bytes): seq<Term> {
    Terms(s, '=', '&', UrlDecoded)
  }

  /** One encoded term: no '&' in it, and it splits into its key and value unless the key is empty. */
  lemma {:induction false} TermReads(t: Term)
    ensures '&' !in TermText(t) && '#' !in TermText(t)
    ensures PieceTerms(TermText(t), '=', UrlDecoded) == WithKeys([t])
  {
    hide Encode, Decode;
    var k, v := Encode(t.key), Encode(t.value);
    EncodeHarmless(t.key);
    EncodeHarmless(t.value);
    FirstDelim(k, '=', v);
    var s := TermText(t);
    assert s[..|k|] == k && s[|k| + 1..] == v;
    DecodeEncode(t.key);
    DecodeEncode(t.value);
    assert WithKeys([t][1..]) == [];
  }

  lemma {:induction false} TermsClean(terms: seq<Term>)
    ensures forall p :: p in TermTexts(terms) ==> '&' !in p && '#' !in p
  {
    hide TermText, PieceTerms, WithKeys;
    if terms != [] {
      TermReads(terms[0]);
      TermsClean(terms[1..]);
    }
  }

  lemma {:induction false} TermsRead(terms: seq<Term>)
    ensures PiecesTerms(TermTexts(terms), '=', UrlDecoded) == WithKeys(terms)
  {
    hide TermText, PieceTerms, UrlDecoded;
    if terms != [] {
      var rest, texts := terms[1..], TermTexts(terms);
      assert PieceTerms(TermText(terms[0]), '=', UrlDecoded) == WithKeys([terms[0]]) by { TermReads(terms[0]); }
      assert WithKeys([terms[0]]) == if terms[0].key == [] then [] else [terms[0]] by { assert [terms[0]][1..] == []; }
      assert texts[0] == TermText(terms[0]) && texts[1..] == TermTexts(rest);
      TermsRead(rest);
    }
  }

  /** Query round trip: the splitter gives back exactly the written terms whose key is not empty. */
  lemma {:induction false} QueryReads(terms: seq<Term>)
    ensures QueryTerms(QueryText(terms)) == WithKeys(terms)
  {
    hide PieceTerms, TermTexts, WithKeys;
    if terms == [] {
      assert Pieces([], '&') == [[]];
      assert PiecesTerms([[]], '=', UrlDecoded) == PieceTerms([], '=', UrlDecoded) + [];
      EmptyPiece();
    } else {
      TermsClean(terms);
      TermsRead(terms);
      PiecesJoin(TermTexts(terms), '&');
    }
  }

  lemma {:induction false} EmptyPiece()
    ensures PieceTerms([], '=', UrlDecoded) == [] && WithKeys([]) == []
  {
  }

  lemma {:induction false} AllKeysKept(terms: seq<Term>)
    requires forall t :: t in terms ==> t.key != []
    ensures WithKeys(terms) == terms
  {
    if terms != [] {
      assert terms[0] in terms && forall t :: t in terms[1..] ==> t in terms;
      AllKeysKept(terms[1..]);
    }
  }

  // ------------------------------------------------------------------- appended terms

  /** What stands between method and version: the relative part and the terms, behind a '?' if there was no query. */
  function Target(relative: bytes, qstring: Option<bytes>, terms: seq<Term>): bytes {
    if terms == [] then relative
    else relative + (if qstring.None? then ['?'] else []) + QueryText(terms)
  }

  /** No query, or a query that is empty or ends in '&'. */
  predicate OpenQuery(qstring: Option<bytes>) {
    qstring.None? || qstring.value == [] || qstring.value[|qstring.value| - 1] == '&'
  }

  /** Terms can be added to this URI without harm. */
  predicate Appendable(t: Tail) {
    t.fragment.None? && OpenQuery(t.qstring)
  }

  /** The written target, read again by the same splitter. */
  function TargetTail(t: Tail, terms: seq<Term>): Tail {
    if t.qstring.None? then Tail(t.path + Plainly(t.fragment), Some(QueryText(terms)), None)
    else if t.fragment.Some? then Tail(t.path, t.qstring, Some(t.fragment.value + QueryText(terms)))
    else Tail(t.path, Some(t.qstring.value + QueryText(terms)), None)
  }

  /** The bytes of a query text: encoded text and its two delimiters. */
  predicate QueryChar(c: byte) {
    Harmless(c) || c == '=' || c == '&'
  }

  lemma {:induction false} QueryTextStep(terms: seq<Term>)
    requires terms != []
    ensures QueryText(terms)
            == TermText(terms[0]) + if |terms| == 1 then [] else ['&'] + QueryText(terms[1..])
  {
    hide TermText;
    var texts := TermTexts(terms);
    assert texts[0] == TermText(terms[0]) && texts[1..] == TermTexts(terms[1..]);
  }

  lemma {:induction false} QueryTextClean(terms: seq<Term>)
    ensures forall c :: c in QueryText(terms) ==> QueryChar(c)
    decreases |terms|
  {
    hide QueryText, Encode;
    if terms == [] {
      NoQueryText();
    } else {
      QueryTextStep(terms);
      EncodeHarmless(terms[0].key);
      EncodeHarmless(terms[0].value);
      QueryTextClean(terms[1..]);
    }
  }

  /** How the written target splits. */
  lemma {:induction false} TargetSplits(t: Tail, terms: seq<Term>)
    requires GoodTail(t, false) && terms != []
    ensures GoodTail(TargetTail(t, terms), false)
    ensures TailText(TargetTail(t, terms)) == Target(TailText(t), t.qstring, terms)
  {
    hide QueryText;
    QueryTextClean(terms);
    assert '#' !in QueryText(terms);
    var u, q := TargetTail(t, terms), QueryText(terms);
    assert u.path[0] == t.path[0];
    if t.qstring.None? {
      assert QueryPart(t) == Plainly(t.fragment);
      assert QueryPart(u) == ['?'] + q;
    } else if t.fragment.Some? {
      assert QueryPart(u) == QueryPart(t) + q;
    } else {
      assert QueryPart(u) == QueryPart(t) + q;
    }
  }

  /** Splitting is local: what stands on the two sides of a '&' is split apart. */
  lemma {:induction false} TermsApart(a: bytes, b: bytes)
    ensures QueryTerms(a + ['&'] + b) == QueryTerms(a) + QueryTerms(b)
    decreases |a|
  {
    hide PieceTerms, UrlDecoded;
    var s := a + ['&'] + b;
    match FirstOf(a, '&', 0)
    case None =>
      TermsStep(s, 0, |a|, '=', '&', UrlDecoded);
      TermsLast(a, 0, '=', '&', UrlDecoded);
      assert s[0..] == s && s[0..|a|] == a && s[|a| + 1..] == b && a[0..] == a;
    case Some(n) =>
      assert s[0..] == s && s[0..n] == a[0..n] && s[n + 1..] == a[n + 1..] + ['&'] + b && a[0..] == a;
      TermsStep(s, 0, n, '=', '&', UrlDecoded);
      TermsStep(a, 0, n, '=', '&', UrlDecoded);
      TermsApart(a[n + 1..], b);
  }

  lemma {:induction false} NoTerms()
    ensures QueryTerms([]) == []
  {
    assert Pieces([], '&') == [[]];
    assert PiecesTerms([[]], '=', UrlDecoded) == PieceTerms([], '=', UrlDecoded) + [];
  }

  /** A piece gives at most one term, and a longer piece gives one only if the shorter, not empty, does. */
  lemma {:induction false} PieceCount(a: bytes, b: bytes)
    requires a != []
    ensures |PieceTerms(a + b, '=', UrlDecoded)| <= 1
    ensures |PieceTerms(a + b, '=', UrlDecoded)| <= |PieceTerms(a, '=', UrlDecoded)|
  {
    hide UrlDecoded;
    assert (a + b)[0] == a[0];
    if a[0] == '=' {
      assert FirstOf(a + b, '=', 0) == Some(0);
    }
  }

  /** Terms glued to a query that ends inside a piece: one term is lost. */
  lemma {:induction false} GluedTermsLost(q: bytes, terms: seq<Term>)
    requires q != [] && q[|q| - 1] != '&' && terms != []
    requires forall t :: t in terms ==> t.key != []
    ensures |QueryTerms(q + QueryText(terms))| < |QueryTerms(q)| + |terms|
    decreases |q|
  {
    hide QueryTerms, QueryText;
    var T := QueryText(terms);
    match FirstOf(q, '&', 0)
    case Some(n) =>
      var q' := q[n + 1..];
      assert q'[|q'| - 1] == q[|q| - 1];
      assert q == q[..n] + ['&'] + q';
      assert q + T == q[..n] + ['&'] + (q' + T);
      TermsApart(q[..n], q');
      TermsApart(q[..n], q' + T);
      GluedTermsLost(q', terms);
    case None =>
      GluedPiece(q, terms);
  }

  lemma {:induction false} GluedPiece(q: bytes, terms: seq<Term>)
    requires q != [] && '&' !in q && terms != []
    requires forall t :: t in terms ==> t.key != []
    ensures |QueryTerms(q + QueryText(terms))| < |QueryTerms(q)| + |terms|
  {
    hide PieceTerms, UrlDecoded, TermText;
    assert terms[0] in terms;
    var first, rest := TermText(terms[0]), terms[1..];
    assert forall t :: t in rest ==> t in terms;
    TermsLast(q, 0, '=', '&', UrlDecoded);
    assert q[0..] == q;
    PieceCount(q, first);
    TermReads(terms[0]);
    assert '&' !in q + first;
    TermsLast(q + first, 0, '=', '&', UrlDecoded);
    assert (q + first)[0..] == q + first;
    assert TermTexts(terms) == [first] + TermTexts(rest);
    if rest == [] {
      assert QueryText(terms) == first;
    } else {
      assert TermTexts(terms)[1..] == TermTexts(rest);
      assert q + QueryText(terms) == (q + first) + ['&'] + QueryText(rest);
      TermsApart(q + first, QueryText(rest));
      QueryReads(rest);
      AllKeysKept(rest);
    }
  }

  /** Without a fragment, the old query and the new terms are read apart if and only if the query is open. */
  lemma {:induction false} OpenQueryExact(t: Tail, terms: seq<Term>)
    requires t.fragment.None? && terms != [] && forall x :: x in terms ==> x.key != []
    ensures QueryTerms(Plainly(TargetTail(t, terms).qstring)) == QueryTerms(Plainly(t.qstring)) + terms
            <==> OpenQuery(t.qstring)
  {
    hide QueryTerms, QueryText;
    QueryReads(terms);
    AllKeysKept(terms);
    NoTerms();
    if t.qstring.Some? {
      var q := t.qstring.value;
      if q == [] {
        assert q + QueryText(terms) == QueryText(terms);
      } else if q[|q| - 1] == '&' {
        var q0 := q[..|q| - 1];
        assert q == q0 + ['&'] + [];
        assert q + QueryText(terms) == q0 + ['&'] + QueryText(terms);
        TermsApart(q0, []);
        TermsApart(q0, QueryText(terms));
      } else {
        GluedTermsLost(q, terms);
      }
    }
  }

  lemma {:induction false} QueryTextNotEmpty(terms: seq<Term>)
    requires terms != []
    ensures QueryText(terms) != []
  {
    hide Encode, QueryText;
    QueryTextStep(terms);
  }

  /**
   The exact condition for adding terms: the written target, read again, has the old
   path, the old fragment and the terms of the old query followed by the new ones if
   and only if there was no fragment, and no query or one that was empty or ended in '&'.
   */
  lemma {:induction false} AppendExact(t: Tail, terms: seq<Term>, u: Tail)
    requires GoodTail(t, false) && terms != [] && forall x :: x in terms ==> x.key != []
    requires GoodTail(u, false) && TailText(u) == Target(TailText(t), t.qstring, terms)
    ensures u.path == t.path && u.fragment == t.fragment
            && QueryTerms(Plainly(u.qstring)) == QueryTerms(Plainly(t.qstring)) + terms
            <==> Appendable(t)
  {
    hide QueryTerms, QueryText, TailText;
    TargetSplits(t, terms);
    TailUnique(u, TargetTail(t, terms), false);
    QueryTextNotEmpty(terms);
    if t.fragment.None? {
      OpenQueryExact(t, terms);
      assert t.path + [] == t.path;
    }
  }

  /**
   The terms alone: behind a fragment that follows a query they are part of the
   fragment, and behind one without a query they still come back, as the old
   fragment has become part of the path.
   */
  lemma {:induction false} AppendTermsExact(t: Tail, terms: seq<Term>, u: Tail)
    requires GoodTail(t, false) && terms != [] && forall x :: x in terms ==> x.key != []
    requires GoodTail(u, false) && TailText(u) == Target(TailText(t), t.qstring, terms)
    ensures QueryTerms(Plainly(u.qstring)) == QueryTerms(Plainly(t.qstring)) + terms
            <==> t.qstring.None? || Appendable(t)
  {
    hide QueryTerms, QueryText, GoodTail, TailText;
    TargetSplits(t, terms);
    TailUnique(u, TargetTail(t, terms), false);
    if t.fragment.None? {
      OpenQueryExact(t, terms);
    } else {
      QueryReads(terms);
      AllKeysKept(terms);
      NoTerms();
    }
  }

  // ------------------------------------------------------------------------ the object

  /** BSZ(key) + BSZ(value) over all terms; BSZ counts the terminating NUL. */
  function TermsSize(terms: seq<Term>): nat {
    if terms == [] then 0 else |terms[0].key| + 1 + |terms[0].value| + 1 + TermsSize(terms[1..])
  }

  function Without(terms: seq<Term>, key: bytes): seq<Term> {
    if terms == [] then []
    else (if terms[0].key == key then [] else [terms[0]]) + Without(terms[1..], key)
  }

  /** hash_set_item: one value per key, the last one given. */
  function Put(terms: seq<Term>, t: Term): seq<Term> {
    Without(terms, t.key) + [t]
  }

  lemma {:induction false} WithoutExact(terms: seq<Term>, key: bytes, x: Term)
    ensures x in Without(terms, key) <==> x in terms && x.key != key
  {
    if terms != [] {
      WithoutExact(terms[1..], key, x);
      assert x in terms <==> x == terms[0] || x in terms[1..];
    }
  }

  /** The table after an add: the new term, no other one with its key, and all the rest. */
  lemma {:induction false} PutExact(terms: seq<Term>, t: Term, x: Term)
    ensures x in Put(terms, t) <==> x == t || (x in terms && x.key != t.key)
    ensures Put(terms, t)[|Put(terms, t)| - 1] == t
  {
    WithoutExact(terms, t.key, x);
  }

  lemma {:induction false} SizeAppend(terms: seq<Term>, t: Term)
    ensures TermsSize(terms + [t]) == TermsSize(terms) + |t.key| + 1 + |t.value| + 1
  {
    if terms == [] {
      assert TermsSize([t][1..]) == 0;
    } else {
      assert (terms + [t])[1..] == terms[1..] + [t];
      SizeAppend(terms[1..], t);
    }
  }

  lemma {:induction false} SizeWithout(terms: seq<Term>, key: bytes)
    ensures TermsSize(Without(terms, key)) <= TermsSize(terms)
  {
    if terms != [] {
      SizeWithout(terms[1..], key);
      var w := Without(terms[1..], key);
      assert ([terms[0]] + w)[1..] == w && [] + w == w;
    }
  }

  lemma {:induction false} TermFits(terms: seq<Term>, t: Term)
    requires t in terms
    ensures |t.key| + 1 + |t.value| + 1 <= TermsSize(terms)
  {
    if terms[0] != t {
      TermFits(terms[1..], t);
    }
  }

  lemma {:induction false} JoinAppend(parts: seq<bytes>, delim: byte, p: bytes)
    requires parts != []
    ensures Join(parts + [p], delim) == Join(parts, delim) + [delim] + p
    decreases |parts|
  {
    assert (parts + [p])[1..] == parts[1..] + [p];
    if |parts| > 1 {
      JoinAppend(parts[1..], delim, p);
    } else {
      assert parts[1..] + [p] == [p];
    }
  }

  lemma {:induction false} TermTextsAppend(terms: seq<Term>, t: Term)
    ensures TermTexts(terms + [t]) == TermTexts(terms) + [TermText(t)]
  {
    hide TermText;
    if terms != [] {
      assert (terms + [t])[1..] == terms[1..] + [t];
      TermTextsAppend(terms[1..], t);
    } else {
      assert TermTexts([t][1..]) == [];
    }
  }

  lemma {:induction false} QueryTextAppend(terms: seq<Term>, t: Term)
    ensures QueryText(terms + [t]) == if terms == [] then TermText(t) else QueryText(terms) + ['&'] + TermText(t)
  {
    hide TermText, TermTexts;
    TermTextsAppend(terms, t);
    if terms == [] {
      assert TermTexts(terms + [t]) == [TermText(t)];
    } else {
      JoinAppend(TermTexts(terms), '&', TermText(t));
    }
  }

  class HttpUri {
    var scheme: Scheme
    var user: Option<bytes>
    var password: Option<bytes>
    var host: Option<bytes>
    var port: Option<bytes>
    var relative: Option<bytes>
    var path: Option<bytes>
    var qstring: Option<bytes>
    var fragment: Option<bytes>
    var qterms: seq<Term>
    var qtermsz: nat

    /** mnhttp_uri_init. */
    constructor ()
      ensures Valid() && scheme == UNDEF && qterms == []
    {
      scheme := UNDEF;
      user, password, host, port, relative, path, qstring, fragment := None, None, None, None, None, None, None, None;
      qterms, qtermsz := [], 0;
    }

    /** qtermsz covers every term that is in the table. */
    ghost predicate Valid()
      reads this
    {
      TermsSize(qterms) <= qtermsz
    }

    /** The fields hold these parts, with port and scheme defaulted. */
    ghost predicate Holds(p: Parts)
      reads this
    {
      && user == p.authority.user && password == p.authority.password && host == Some(p.authority.host)
      && port == DefaultPort(p.scheme, p.authority.port) && scheme == DefaultScheme(p.scheme, port)
      && (match p.tail
          case None => relative.None? && path.None? && qstring.None? && fragment.None?
          case Some(t) =>
            path == Some(t.path) && qstring == t.qstring && fragment == t.fragment
            && relative == if p.scheme == SERIAL then None else Some(TailText(t)))
    }

    /** The end of mnhttp_uri_parse: first the port, from the scheme, then the scheme, from the port. */
    method FillDefaults()
      modifies this`scheme, this`port
      ensures port == DefaultPort(old(scheme), old(port)) && scheme == DefaultScheme(old(scheme), port)
    {
      if NullOrEmpty(port) {
        port := None;
        if scheme == HTTPS || scheme == WSS {
          port := Some("443");
        } else if scheme == HTTP || scheme == WS {
          port := Some("80");
        }
      }
      if scheme == UNDEF {
        if port == Some("443") {
          scheme := HTTPS;
        } else {
          scheme := HTTP;
        }
      }
    }

    /** mnhttp_uri_parse into a fresh object. */
    method Parse(s: bytes) returns (ghost p: Parts)
      requires scheme == UNDEF
      modifies this`scheme, this`user, this`password, this`host, this`port
      modifies this`relative, this`path, this`qstring, this`fragment
      ensures IsSplit(s, p) && Holds(p)
    {
      hide IsSplit, TailText;
      var q := SplitUri(s);
      p := q;
      scheme := q.scheme;
      user, password, host, port := q.authority.user, q.authority.password, Some(q.authority.host), q.authority.port;
      relative, path, qstring, fragment := None, None, None, None;
      if q.tail.Some? {
        var t := q.tail.value;
        path := Some(t.path);
        if q.scheme != SERIAL {
          relative := Some(TailText(t));
        }
        qstring, fragment := t.qstring, t.fragment;
      }
      FillDefaults();
    }

    /** mnhttp_uri_add_qterm. */
    method AddQterm(t: Term)
      requires Valid()
      modifies this`qterms, this`qtermsz
      ensures Valid() && qterms == Put(old(qterms), t)
      ensures qtermsz == old(qtermsz) + |t.key| + 1 + |t.value| + 1
    {
      SizeWithout(qterms, t.key);
      SizeAppend(Without(qterms, t.key), t);
      qterms := Put(qterms, t);
      qtermsz := qtermsz + (|t.key| + 1);
      qtermsz := qtermsz + (|t.value| + 1);
    }

    /** "%s=%s" or "&%s=%s", with both encoded into buffers of encsz bytes. */
    method WriteTerm(out: OutStream, t: Term, encsz: nat, first: bool)
      requires |Encode(t.key)| + 1 <= encsz && |Encode(t.value)| + 1 <= encsz
      modifies out
      ensures out.data == old(out.data) + (if first then [] else ['&']) + (Encode(t.key) + ['='] + Encode(t.value))
    {
      hide Encode;
      var keyenc, valueenc := Encode(t.key), Encode(t.value);
      var sz := |keyenc| + 1 + |valueenc| + 1 + 8;
      var text := keyenc + ['='] + valueenc;
      ghost var start := out.data;
      if first {
        out.Nprintf(sz, text);
        assert start + [] + text == start + text;
      } else {
        out.Nprintf(sz, ['&'] + text);
        assert start + ['&'] + text == start + (['&'] + text);
      }
    }

    /** The terms in the order in which the table yields them; every encoding fits its buffer. */
    method WriteTerms(out: OutStream, order: seq<Term>)
      requires Valid() && (forall t :: t in order ==> t in qterms) && order != []
      modifies out
      ensures out.data == old(out.data) + QueryText(order)
    {
      hide QueryText, Encode;
      var encsz := qtermsz * 3 + 1;
      var i := 0;
      assert QueryText([]) == [] by { NoQueryText(); }
      while i < |order|
        invariant i <= |order|
        invariant out.data == old(out.data) + QueryText(order[..i])
      {
        var t := order[i];
        assert t in order;
        TermFits(qterms, t);
        assert order[..i + 1] == order[..i] + [t];
        QueryTextAppend(order[..i], t);
        WriteTerm(out, t, encsz, i == 0);
        i := i + 1;
      }
      assert order[..i] == order;
    }

    /**
     mnhttp_uri_start_request.  The test for a trailing '?' looks at the terminating
     NUL of `relative`, so it never finds one.
     */
    method StartRequest(out: OutStream, verb: bytes, order: seq<Term>)
      requires Valid() && relative.Some? && multiset(order) == multiset(qterms)
      modifies out
      ensures out.data == old(out.data) + RequestText(verb, Target(relative.value, qstring, order)) + CRLF
    {
      hide QueryText, TermsSize;
      ghost var start := out.data;
      var rel := relative.value;
      out.Nprintf(|verb| + (|rel| + 1) + 16, verb + " " + rel);
      SameMembers(order, qterms);
      if qterms != [] {
        var last := (rel + [NUL])[|rel|];
        if qstring.None? && last != '?' {
          out.Cat(['?']);
        }
        WriteTerms(out, order);
      }
      assert out.data == start + (verb + " " + Target(rel, qstring, order));
      out.Cat(" HTTP/1.1\r\n");
      assert verb + " " + Target(rel, qstring, order) + " HTTP/1.1\r\n"
          == RequestText(verb, Target(rel, qstring, order)) + CRLF;
    }
  }

  lemma {:induction false} NoQueryText()
    ensures QueryText([]) == []
  {
  }

  lemma {:induction false} SameMembers(a: seq<Term>, b: seq<Term>)
    requires multiset(a) == multiset(b)
    ensures |a| == |b| && forall t :: t in a ==> t in b
  {
    assert |a| == |multiset(a)| && |b| == |multiset(b)|;
    forall t | t in a
      ensures t in b
    {
      assert t in multiset(a);
    }
  }
}
