/**
 mnhttp_uri_parse: a string is cut into scheme, user, password, host, port, path,
 query and fragment (section 3 of RFC 3986, as this library reads it).  The cut is
 specified without an algorithm: the parts concatenate to the string and each part
 is free of the delimiter that ends it.  Such a cut is unique.
 */
module Uri {
  import opened Bytes

  datatype Scheme = UNDEF | HTTP | HTTPS | WS | WSS | TCP | UDP | SERIAL

  function SchemeText(scheme: Scheme): bytes {
    match scheme
    case UNDEF => ""
    case HTTP => "http://"
    case HTTPS => "https://"
    case WS => "ws://"
    case WSS => "wss://"
    case TCP => "tcp://"
    case UDP => "udp://"
    case SERIAL => "serial://"
  }

  /** The part from the first '/' on; a fragment keeps its '#'. */
  datatype Tail = Tail(path: bytes, qstring: Option<bytes>, fragment: Option<bytes>)

  datatype Authority = Authority(user: Option<bytes>, password: Option<bytes>, host: bytes, port: Option<bytes>)

  datatype Parts = Parts(scheme: Scheme, authority: Authority, tail: Option<Tail>)

  // ------------------------------------------------------------------------ putting together

  /** An optional part behind its delimiter. */
  function After(delim: byte, part: Option<bytes>): bytes {
    match part
    case None => []
    case Some(x) => [delim] + x
  }

  function Plainly(part: Option<bytes>): bytes {
    match part
    case None => []
    case Some(x) => x
  }

  function HostPortText(a: Authority): bytes {
    a.host + After(':', a.port)
  }

  function UserInfoText(a: Authority): bytes {
    Plainly(a.user) + After(':', a.password)
  }

  function AuthorityText(a: Authority): bytes {
    if a.user.None? then HostPortText(a) else UserInfoText(a) + (['@'] + HostPortText(a))
  }

  function QueryPart(t: Tail): bytes {
    After('?', t.qstring) + Plainly(t.fragment)
  }

  function TailText(t: Tail): bytes {
    t.path + QueryPart(t)
  }

  function OptTailText(t: Option<Tail>): bytes {
    match t
    case None => []
    case Some(tail) => TailText(tail)
  }

  function RestText(p: Parts): bytes {
    AuthorityText(p.authority) + OptTailText(p.tail)
  }

  /** All the parts in a row. */
  function UriText(p: Parts): bytes {
    SchemeText(p.scheme) + RestText(p)
  }

  // ------------------------------------------------------------------------------ delimiters

  predicate Starts(x: bytes, c: byte) {
    x != [] && x[0] == c
  }

  predicate GoodAuthority(a: Authority) {
    && ':' !in a.host && '/' !in AuthorityText(a)
    && match a.user
       case None => a.password.None? && '@' !in AuthorityText(a)
       case Some(user) => ':' !in user && '@' !in UserInfoText(a)
  }

  /**
   With a '?', the path ends there and the query ends at the next '#'; without one,
   the path ends at the first '#'.
   */
  predicate GoodTail(t: Tail, serial: bool) {
    && Starts(t.path, '/') && (t.fragment.Some? ==> Starts(t.fragment.value, '#'))
    && (if serial then t.qstring.None? && t.fragment.None?
        else if t.qstring.Some? then '?' !in t.path && '#' !in t.qstring.value
        else '?' !in TailText(t) && '#' !in t.path)
  }

  /** The text starts with the prefix of a known scheme. */
  predicate HasScheme(s: bytes) {
    exists k :: k != UNDEF && SchemeText(k) <= s
  }

  predicate IsSplit(s: bytes, p: Parts) {
    && UriText(p) == s
    && (p.scheme == UNDEF ==> !HasScheme(s))
    && GoodAuthority(p.authority)
    && (p.tail.Some? ==> GoodTail(p.tail.value, p.scheme == SERIAL))
  }

  // ------------------------------------------------------------------------------ uniqueness

  /** x is empty or starts with c. */
  predicate EndsWith(c: byte, x: bytes) {
    x == [] || x[0] == c
  }

  /** Where the first c is, or the end. */
  function CutAt(c: byte, s: bytes): nat {
    match FirstOf(s, c, 0)
    case None => |s|
    case Some(n) => n
  }

  lemma {:induction false} CutFound(c: byte, a: bytes, x: bytes)
    requires c !in a && EndsWith(c, x)
    ensures CutAt(c, a + x) == |a|
  {
    var s := a + x;
    assert forall k :: 0 <= k < |a| ==> s[k] == a[k] && a[k] in a;
    assert x != [] ==> s[|a|] == c;
  }

  /** There is one way to cut a text at the first c. */
  lemma {:induction false} CutUnique(c: byte, a: bytes, x: bytes, b: bytes, y: bytes)
    requires a + x == b + y && c !in a && c !in b && EndsWith(c, x) && EndsWith(c, y)
    ensures a == b && x == y
  {
    CutFound(c, a, x);
    CutFound(c, b, y);
    var s := a + x;
    assert a == s[..|a|] == b && x == s[|a|..] == y;
  }

  lemma {:induction false} AfterUnique(delim: byte, p: Option<bytes>, q: Option<bytes>)
    requires After(delim, p) == After(delim, q)
    ensures p == q
  {
    if p.Some? && q.Some? {
      assert p.value == After(delim, p)[1..] == After(delim, q)[1..] == q.value;
    }
  }

  lemma {:induction false} HostPortUnique(a: Authority, b: Authority)
    requires HostPortText(a) == HostPortText(b) && ':' !in a.host && ':' !in b.host
    ensures a.host == b.host && a.port == b.port
  {
    CutUnique(':', a.host, After(':', a.port), b.host, After(':', b.port));
    AfterUnique(':', a.port, b.port);
  }

  lemma {:induction false} AuthorityUnique(a: Authority, b: Authority)
    requires GoodAuthority(a) && GoodAuthority(b) && AuthorityText(a) == AuthorityText(b)
    ensures a == b
  {
    assert a.user.Some? ==> '@' in AuthorityText(a);
    assert b.user.Some? ==> '@' in AuthorityText(b);
    if a.user.None? {
      HostPortUnique(a, b);
    } else {
      CutUnique('@', UserInfoText(a), ['@'] + HostPortText(a), UserInfoText(b), ['@'] + HostPortText(b));
      assert HostPortText(a) == (['@'] + HostPortText(a))[1..] == HostPortText(b);
      HostPortUnique(a, b);
      CutUnique(':', a.user.value, After(':', a.password), b.user.value, After(':', b.password));
      AfterUnique(':', a.password, b.password);
    }
  }

  lemma {:induction false} FragmentUnique(a: Option<bytes>, b: Option<bytes>)
    requires Plainly(a) == Plainly(b) && (a.Some? ==> Starts(a.value, '#')) && (b.Some? ==> Starts(b.value, '#'))
    ensures a == b
  {
  }

  lemma {:induction false} QueryShows(t: Tail)
    requires GoodTail(t, false)
    ensures t.qstring.Some? <==> '?' in TailText(t)
  {
    if t.qstring.Some? {
      assert QueryPart(t)[0] == '?' && TailText(t)[|t.path|] == '?';
    }
  }

  lemma {:induction false} QueryTailUnique(t: Tail, u: Tail)
    requires GoodTail(t, false) && GoodTail(u, false) && TailText(t) == TailText(u)
    requires t.qstring.Some? && u.qstring.Some?
    ensures t == u
  {
    hide Plainly, Starts;
    CutUnique('?', t.path, QueryPart(t), u.path, QueryPart(u));
    QueryCutUnique(t, u);
    FragmentUnique(t.fragment, u.fragment);
  }

  lemma {:induction false} QueryCutUnique(t: Tail, u: Tail)
    requires GoodTail(t, false) && GoodTail(u, false) && QueryPart(t) == QueryPart(u)
    requires t.qstring.Some? && u.qstring.Some?
    ensures t.qstring == u.qstring && Plainly(t.fragment) == Plainly(u.fragment)
  {
    hide TailText;
    assert QueryPart(t)[1..] == t.qstring.value + Plainly(t.fragment);
    assert QueryPart(u)[1..] == u.qstring.value + Plainly(u.fragment);
    CutUnique('#', t.qstring.value, Plainly(t.fragment), u.qstring.value, Plainly(u.fragment));
  }

  lemma {:induction false} PathTailUnique(t: Tail, u: Tail)
    requires GoodTail(t, false) && GoodTail(u, false) && TailText(t) == TailText(u)
    requires t.qstring.None? && u.qstring.None?
    ensures t == u
  {
    assert QueryPart(t) == Plainly(t.fragment) && QueryPart(u) == Plainly(u.fragment);
    CutUnique('#', t.path, Plainly(t.fragment), u.path, Plainly(u.fragment));
    FragmentUnique(t.fragment, u.fragment);
  }

  lemma {:induction false} SerialTailUnique(t: Tail, u: Tail)
    requires GoodTail(t, true) && GoodTail(u, true) && TailText(t) == TailText(u)
    ensures t == u
  {
    assert TailText(t) == t.path + [] == t.path && TailText(u) == u.path + [] == u.path;
  }

  lemma {:induction false} TailUnique(t: Tail, u: Tail, serial: bool)
    requires GoodTail(t, serial) && GoodTail(u, serial) && TailText(t) == TailText(u)
    ensures t == u
  {
    hide GoodTail, TailText;
    if serial {
      SerialTailUnique(t, u);
    } else {
      QueryShows(t);
      QueryShows(u);
      if t.qstring.Some? {
        QueryTailUnique(t, u);
      } else {
        PathTailUnique(t, u);
      }
    }
  }

  lemma {:induction false} SchemesApart(j: Scheme, k: Scheme, s: bytes)
    requires j != UNDEF && k != UNDEF && SchemeText(j) <= s && SchemeText(k) <= s
    ensures j == k
  {
    assert s[0] == SchemeText(j)[0] == SchemeText(k)[0];
    assert s[2] == SchemeText(j)[2] == SchemeText(k)[2];
    assert s[4] == SchemeText(j)[4] == SchemeText(k)[4];
  }

  lemma {:induction false} SchemeUnique(s: bytes, p: Parts, q: Parts)
    requires IsSplit(s, p) && IsSplit(s, q)
    ensures p.scheme == q.scheme && RestText(p) == RestText(q)
  {
    hide RestText;
    var n, m := |SchemeText(p.scheme)|, |SchemeText(q.scheme)|;
    assert s[..n] == SchemeText(p.scheme) && s[..m] == SchemeText(q.scheme);
    if p.scheme != UNDEF && q.scheme != UNDEF {
      SchemesApart(p.scheme, q.scheme, s);
    }
    assert RestText(p) == s[n..] == RestText(q);
  }

  /** A string has at most one split. */
  lemma {:induction false} SplitUnique(s: bytes, p: Parts, q: Parts)
    requires IsSplit(s, p) && IsSplit(s, q)
    ensures p == q
  {
    hide AuthorityText, TailText, HasScheme;
    SchemeUnique(s, p, q);
    assert p.tail.Some? ==> Starts(OptTailText(p.tail), '/') by { TailStarts(p.tail, p.scheme == SERIAL); }
    assert q.tail.Some? ==> Starts(OptTailText(q.tail), '/') by { TailStarts(q.tail, q.scheme == SERIAL); }
    CutUnique('/', AuthorityText(p.authority), OptTailText(p.tail), AuthorityText(q.authority), OptTailText(q.tail));
    AuthorityUnique(p.authority, q.authority);
    if p.tail.Some? && q.tail.Some? {
      TailUnique(p.tail.value, q.tail.value, p.scheme == SERIAL);
    }
  }

  lemma {:induction false} TailStarts(t: Option<Tail>, serial: bool)
    requires t.Some? ==> GoodTail(t.value, serial)
    ensures t.Some? ==> Starts(OptTailText(t), '/')
  {
  }

  // --------------------------------------------------------------------------------- the cut

  /** host[:port] */
  method ParseHostPort(text: bytes) returns (host: bytes, port: Option<bytes>)
    ensures ':' !in host && host + After(':', port) == text
  {
    var pport := FindByte(text, ':', 0);
    if pport.Some? {
      host, port := text[..pport.value], Some(text[pport.value + 1..]);
    } else {
      host, port := text, None;
    }
  }

  /** user[:password], the text before the '@'. */
  method ParseUserInfo(info: bytes) returns (user: bytes, password: Option<bytes>)
    ensures ':' !in user && user + After(':', password) == info
  {
    var puser := FindByte(info, ':', 0);
    if puser.Some? {
      user, password := info[..puser.value], Some(info[puser.value + 1..]);
    } else {
      user, password := info, None;
    }
  }

  /** [user[:password]@]host[:port], the text before the first '/'. */
  method ParseAuthority(text: bytes) returns (a: Authority)
    requires '/' !in text
    ensures AuthorityText(a) == text && GoodAuthority(a)
  {
    hide After;
    var phost := FindByte(text, '@', 0);
    if phost.Some? {
      var info, rest := text[..phost.value], text[phost.value + 1..];
      var user, password := ParseUserInfo(info);
      var host, port := ParseHostPort(rest);
      a := Authority(Some(user), password, host, port);
      assert UserInfoText(a) == info && HostPortText(a) == rest;
      assert info + (['@'] + rest) == text;
    } else {
      var host, port := ParseHostPort(text);
      a := Authority(None, None, host, port);
      assert HostPortText(a) == text;
    }
  }

  /** The text up to the first '#', and the rest. */
  method CutFragment(text: bytes) returns (front: bytes, fragment: Option<bytes>)
    ensures '#' !in front && (fragment.Some? ==> Starts(fragment.value, '#'))
    ensures front + Plainly(fragment) == text
  {
    var pf := FindByte(text, '#', 0);
    if pf.Some? {
      front, fragment := text[..pf.value], Some(text[pf.value..]);
    } else {
      front, fragment := text, None;
    }
  }

  /** The text from the first '/' on, outside the serial scheme. */
  method ParseTail(text: bytes) returns (t: Tail)
    requires Starts(text, '/')
    ensures TailText(t) == text && GoodTail(t, false)
  {
    hide Plainly;
    var pq := FindByte(text, '?', 0);
    if pq.Some? {
      var query := text[pq.value + 1..];
      var qstring, fragment := CutFragment(query);
      t := Tail(text[..pq.value], Some(qstring), fragment);
      assert QueryPart(t) == ['?'] + query;
      assert text == text[..pq.value] + (['?'] + query);
      assert text[..pq.value][0] == text[0];
    } else {
      var path, fragment := CutFragment(text);
      t := Tail(path, None, fragment);
      assert QueryPart(t) == Plainly(fragment);
      assert path[0] == text[0] by { PathStarts(path, fragment); }
    }
  }

  lemma {:induction false} PathStarts(path: bytes, fragment: Option<bytes>)
    requires Starts(path + Plainly(fragment), '/') && (fragment.Some? ==> Starts(fragment.value, '#'))
    ensures Starts(path, '/')
  {
    assert path == [] ==> path + Plainly(fragment) == Plainly(fragment);
  }

  /** The text from the first '/' on; after "serial://" it is a path on disk, whatever it holds. */
  method ParsePath(text: bytes, serial: bool) returns (t: Tail)
    requires Starts(text, '/')
    ensures TailText(t) == text && GoodTail(t, serial)
  {
    if serial {
      t := Tail(text, None, None);
      assert TailText(t) == text + ([] + []) == text;
    } else {
      t := ParseTail(text);
    }
  }

  /** strstr(s, prefix) == s, for the seven prefixes in turn. */
  method ParseScheme(s: bytes) returns (scheme: Scheme)
    ensures SchemeText(scheme) <= s && (scheme == UNDEF ==> !HasScheme(s))
  {
    if SchemeText(HTTP) <= s { return HTTP; }
    if SchemeText(HTTPS) <= s { return HTTPS; }
    if SchemeText(WS) <= s { return WS; }
    if SchemeText(WSS) <= s { return WSS; }
    if SchemeText(TCP) <= s { return TCP; }
    if SchemeText(UDP) <= s { return UDP; }
    if SchemeText(SERIAL) <= s { return SERIAL; }
    return UNDEF;
  }

  /** What follows the scheme: the authority, up to the first '/', and the rest. */
  method ParseRest(text: bytes, serial: bool) returns (a: Authority, tail: Option<Tail>)
    ensures AuthorityText(a) + OptTailText(tail) == text
    ensures GoodAuthority(a) && (tail.Some? ==> GoodTail(tail.value, serial))
  {
    hide GoodAuthority, AuthorityText, TailText, GoodTail;
    var ppath := FindByte(text, '/', 0);
    if ppath.Some? {
      a := ParseAuthority(text[..ppath.value]);
      var t := ParsePath(text[ppath.value..], serial);
      tail := Some(t);
    } else {
      a := ParseAuthority(text);
      tail := None;
    }
  }

  lemma {:induction false} OnlySplit(s: bytes, p: Parts)
    requires IsSplit(s, p)
    ensures forall q :: IsSplit(s, q) ==> q == p
  {
    hide IsSplit;
    forall q | IsSplit(s, q)
      ensures q == p
    {
      SplitUnique(s, p, q);
    }
  }

  /** The cut itself, before any default is filled in: nothing is lost, and there is no other cut. */
  method SplitUri(s: bytes) returns (p: Parts)
    ensures IsSplit(s, p)
    ensures forall q :: IsSplit(s, q) ==> q == p
  {
    hide HasScheme, GoodAuthority, AuthorityText, SchemeText, OptTailText, GoodTail;
    var scheme := ParseScheme(s);
    var a, tail := ParseRest(s[|SchemeText(scheme)|..], scheme == SERIAL);
    p := Parts(scheme, a, tail);
    assert IsSplit(s, p);
    OnlySplit(s, p);
  }

  /** Printing parts and parsing the text gives the parts back, whenever they can come from a text at all. */
  method PrintThenParse(p: Parts) returns (q: Parts)
    requires GoodAuthority(p.authority) && (p.tail.Some? ==> GoodTail(p.tail.value, p.scheme == SERIAL))
    requires p.scheme == UNDEF ==> !HasScheme(UriText(p))
    ensures q == p
  {
    assert IsSplit(UriText(p), p);
    q := SplitUri(UriText(p));
  }
}
