/**
 mnhttp_uri_parse from text to fields: what each part of a URI, written with its
 delimiters, leaves in which field, and which port and scheme are supplied.
 */
module UriFields {
  import opened Bytes
  import opened Uri
  import opened RequestTarget

  /** The parts of a URI as they are written; a fragment has its '#'. */
  datatype UriForm = UriForm(prefix: bytes, user: Option<bytes>, password: Option<bytes>, host: bytes,
                             port: Option<bytes>, path: Option<bytes>, query: Option<bytes>, fragment: Option<bytes>)

  function UserText(f: UriForm): bytes {
    if f.user.None? then [] else f.user.value + ((if f.password.None? then [] else [':'] + f.password.value) + ['@'])
  }

  function HostText(f: UriForm): bytes {
    f.host + if f.port.None? then [] else [':'] + f.port.value
  }

  /** From the first '/' on. */
  function RelativeText(f: UriForm): bytes {
    (if f.path.None? then [] else f.path.value)
    + ((if f.query.None? then [] else ['?'] + f.query.value) + if f.fragment.None? then [] else f.fragment.value)
  }

  function FormText(f: UriForm): bytes {
    f.prefix + (UserText(f) + HostText(f) + RelativeText(f))
  }

  predicate KnownPrefix(x: bytes) {
    || x == "http://" || x == "https://" || x == "ws://" || x == "wss://"
    || x == "tcp://" || x == "udp://" || x == "serial://"
  }

  predicate StartsKnown(s: bytes) {
    || "http://" <= s || "https://" <= s || "ws://" <= s || "wss://" <= s
    || "tcp://" <= s || "udp://" <= s || "serial://" <= s
  }

  predicate Lacks(x: Option<bytes>, c: byte) {
    x.Some? ==> c !in x.value
  }

  /** Each part lacks the delimiters that would end it early. */
  predicate GoodUser(f: UriForm) {
    && (f.user.None? ==> f.password.None? && '@' !in f.host && Lacks(f.port, '@'))
    && Lacks(f.user, ':') && Lacks(f.user, '@') && Lacks(f.user, '/')
    && Lacks(f.password, '@') && Lacks(f.password, '/')
  }

  predicate GoodHost(f: UriForm) {
    ':' !in f.host && '/' !in f.host && Lacks(f.port, '/')
  }

  predicate GoodRelative(f: UriForm) {
    && (f.path.None? ==> f.query.None? && f.fragment.None?)
    && (f.path.Some? ==> f.path.value != [] && f.path.value[0] == '/')
    && (f.fragment.Some? ==> f.fragment.value != [] && f.fragment.value[0] == '#')
    && (if f.prefix == "serial://" then f.query.None? && f.fragment.None?
        else if f.query.Some? then Lacks(f.path, '?') && Lacks(f.query, '#')
        else Lacks(f.path, '?') && Lacks(f.path, '#') && Lacks(f.fragment, '?'))
  }

  predicate GoodForm(f: UriForm) {
    && (KnownPrefix(f.prefix) || (f.prefix == [] && !StartsKnown(FormText(f))))
    && GoodUser(f) && GoodHost(f) && GoodRelative(f)
  }

  /** The port that is left: the written one, or the default of the scheme. */
  function PortOf(f: UriForm): Option<bytes> {
    if f.port.Some? && f.port.value != [] then f.port
    else if f.prefix == "https://" || f.prefix == "wss://" then Some("443")
    else if f.prefix == "http://" || f.prefix == "ws://" then Some("80")
    else None
  }

  /** The scheme that is left: the written one, or https for port 443 and http for any other or none. */
  predicate SchemeIs(f: UriForm, k: Scheme) {
    if f.prefix == "http://" then k == HTTP
    else if f.prefix == "https://" then k == HTTPS
    else if f.prefix == "ws://" then k == WS
    else if f.prefix == "wss://" then k == WSS
    else if f.prefix == "tcp://" then k == TCP
    else if f.prefix == "udp://" then k == UDP
    else if f.prefix == "serial://" then k == SERIAL
    else if f.port == Some("443") then k == HTTPS
    else k == HTTP
  }

  // ------------------------------------------------------------------------------- the split

  function WrittenScheme(x: bytes): Scheme {
    if x == "http://" then HTTP else if x == "https://" then HTTPS else if x == "ws://" then WS
    else if x == "wss://" then WSS else if x == "tcp://" then TCP else if x == "udp://" then UDP
    else if x == "serial://" then SERIAL else UNDEF
  }

  function TailOf(f: UriForm): Option<Tail> {
    if f.path.None? then None else Some(Tail(f.path.value, f.query, f.fragment))
  }

  function PartsOf(f: UriForm): Parts {
    Parts(WrittenScheme(f.prefix), Authority(f.user, f.password, f.host, f.port), TailOf(f))
  }

  lemma {:induction false} SchemeFits(f: UriForm)
    requires KnownPrefix(f.prefix) || f.prefix == []
    ensures SchemeText(WrittenScheme(f.prefix)) == f.prefix
    ensures WrittenScheme(f.prefix) == UNDEF <==> !KnownPrefix(f.prefix)
    ensures WrittenScheme(f.prefix) == SERIAL <==> f.prefix == "serial://"
  {
  }

  lemma {:induction false} NoKnownStart(s: bytes)
    requires !StartsKnown(s)
    ensures !HasScheme(s)
  {
    assert forall k :: k in {HTTP, HTTPS, WS, WSS, TCP, UDP, SERIAL} ==> !(SchemeText(k) <= s);
  }

  lemma {:induction false} AuthorityFits(f: UriForm)
    requires GoodUser(f) && GoodHost(f)
    ensures var a := PartsOf(f).authority; GoodAuthority(a) && AuthorityText(a) == UserText(f) + HostText(f)
  {
    var a := PartsOf(f).authority;
    assert HostPortText(a) == HostText(f);
    if f.user.None? {
      assert UserText(f) + HostText(f) == HostText(f);
    } else {
      assert UserText(f) == UserInfoText(a) + ['@'];
      assert UserText(f) + HostText(f) == UserInfoText(a) + (['@'] + HostText(f));
    }
  }

  lemma {:induction false} TailFits(f: UriForm)
    requires GoodRelative(f)
    ensures OptTailText(TailOf(f)) == RelativeText(f)
    ensures TailOf(f).Some? ==> GoodTail(TailOf(f).value, f.prefix == "serial://")
  {
    if f.path.Some? {
      var t := TailOf(f).value;
      assert QueryPart(t) == (if f.query.None? then [] else ['?'] + f.query.value)
                             + if f.fragment.None? then [] else f.fragment.value;
      if f.query.None? {
        assert QueryPart(t) == Plainly(f.fragment);
      }
    }
  }

  /** The parts, as written, are the split of the text. */
  lemma {:induction false} FormSplits(f: UriForm)
    requires GoodForm(f)
    ensures IsSplit(FormText(f), PartsOf(f))
  {
    hide GoodAuthority, AuthorityText, OptTailText, GoodTail, SchemeText, WrittenScheme, KnownPrefix, StartsKnown;
    hide HasScheme, UserText, HostText, RelativeText, TailOf;
    SchemeFits(f);
    AuthorityFits(f);
    TailFits(f);
    if !KnownPrefix(f.prefix) {
      NoKnownStart(FormText(f));
    }
  }

  lemma {:induction false} DefaultsFit(f: UriForm)
    requires KnownPrefix(f.prefix) || f.prefix == []
    ensures var k, port := WrittenScheme(f.prefix), DefaultPort(WrittenScheme(f.prefix), f.port);
            port == PortOf(f) && SchemeIs(f, DefaultScheme(k, port))
  {
  }

  /**
   The parse of any URI that is written from its parts: every part arrives in its
   field, an absent one leaves a null field, `relative` is the text from the first
   '/' on except after "serial://", and port and scheme are supplied.
   */
  method ParseForm(f: UriForm) returns (text: bytes, u: HttpUri)
    requires GoodForm(f)
    ensures text == FormText(f)
    ensures u.user == f.user && u.password == f.password && u.host == Some(f.host)
    ensures u.port == PortOf(f) && SchemeIs(f, u.scheme)
    ensures u.path == f.path && u.qstring == f.query && u.fragment == f.fragment
    ensures u.relative == if f.path.None? || f.prefix == "serial://" then None else Some(RelativeText(f))
  {
    hide GoodForm, IsSplit, DefaultPort, DefaultScheme, WrittenScheme, PortOf, SchemeIs, RelativeText;
    text := FormText(f);
    u := new HttpUri();
    ghost var p := u.Parse(text);
    assert p == PartsOf(f) by {
      FormSplits(f);
      SplitUnique(text, p, PartsOf(f));
    }
    assert KnownPrefix(f.prefix) || f.prefix == [] by { FormPrefix(f); }
    SchemeFits(f);
    assert GoodRelative(f) by { FormPrefix(f); }
    TailFits(f);
    DefaultsFit(f);
  }

  lemma {:induction false} FormPrefix(f: UriForm)
    requires GoodForm(f)
    ensures (KnownPrefix(f.prefix) || f.prefix == []) && GoodRelative(f)
  {
  }
}
