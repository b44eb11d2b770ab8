/**
 Percent-encoding (section 2.1 of RFC 3986): http_urlencode_reserved, which fills
 a fresh buffer, and http_urldecode, which rewrites its argument in place.
 */
module PercentCodec {
  import opened Bytes
  import opened Numbers

  /** The bytes that the table charflags marks RFC3986_UNRESERVED; the decimal digits are not among them. */
  predicate Unreserved(c: byte) {
    'A' <= c <= 'Z' || 'a' <= c <= 'z' || c == '-' || c == '.' || c == '_' || c == '~'
  }

  function EncodeByte(c: byte): bytes {
    if Unreserved(c) then [c] else ['%', DigitChar(c as int / 16), DigitChar(c as int % 16)]
  }

  function Encode(s: bytes): (r: bytes)
    ensures |s| <= |r| <= 3 * |s|
  {
    if s == [] then [] else EncodeByte(s[0]) + Encode(s[1..])
  }

  predicate IsHex(c: byte) {
    IsDigit(c, true)
  }

  function HexByte(hi: byte, lo: byte): byte
    requires IsHex(hi) && IsHex(lo)
  {
    (16 * DigitValue(hi) + DigitValue(lo)) as char
  }

  /** A whole escape starts at the front of s. */
  predicate Escaped(s: bytes) {
    |s| >= 3 && s[0] == '%' && IsHex(s[1]) && IsHex(s[2])
  }

  function Cons(c: byte, rest: Option<bytes>): Option<bytes> {
    match rest
    case None => None
    case Some(t) => Some([c] + t)
  }

  function Decode(s: bytes): (r: Option<bytes>)
    ensures r.Some? ==> |r.value| <= |s|
  {
    if s == [] then Some([])
    else if s[0] != '%' then Cons(s[0], Decode(s[1..]))
    else if Escaped(s) then Cons(HexByte(s[1], s[2]), Decode(s[3..]))
    else None
  }

  // ------------------------------------------------------------------- independent reading

  /** The grammar of encoded text: plain bytes and escapes. */
  datatype Token = Literal(c: byte) | Escape(hi: byte, lo: byte)

  predicate GoodToken(t: Token) {
    match t
    case Literal(c) => c != '%'
    case Escape(hi, lo) => IsHex(hi) && IsHex(lo)
  }

  predicate GoodTokens(ts: seq<Token>) {
    forall t :: t in ts ==> GoodToken(t)
  }

  function Spelling(ts: seq<Token>): bytes {
    if ts == [] then []
    else (match ts[0] case Literal(c) => [c] case Escape(hi, lo) => ['%', hi, lo]) + Spelling(ts[1..])
  }

  function Meaning(ts: seq<Token>): bytes
    requires GoodTokens(ts)
  {
    if ts == [] then []
    else
      assert ts[0] in ts && forall t :: t in ts[1..] ==> t in ts;
      (match ts[0] case Literal(c) => [c] case Escape(hi, lo) => [HexByte(hi, lo)]) + Meaning(ts[1..])
  }

  /** Text spelled by good tokens decodes to what the tokens mean. */
  lemma {:induction false} DecodeSpelling(ts: seq<Token>)
    requires GoodTokens(ts)
    ensures Decode(Spelling(ts)) == Some(Meaning(ts))
  {
    hide HexByte, IsHex;
    if ts != [] {
      assert GoodToken(ts[0]) && forall t :: t in ts[1..] ==> t in ts;
      DecodeSpelling(ts[1..]);
      var s := Spelling(ts);
      match ts[0]
      case Literal(c) => assert s[1..] == Spelling(ts[1..]);
      case Escape(hi, lo) => assert s[3..] == Spelling(ts[1..]);
    }
  }

  /** Text that decodes is spelled by good tokens. */
  lemma {:induction false} DecodedIsSpelled(s: bytes) returns (ts: seq<Token>)
    requires Decode(s).Some?
    ensures GoodTokens(ts) && Spelling(ts) == s
  {
    hide HexByte, IsHex;
    if s == [] {
      ts := [];
    } else if s[0] != '%' {
      var rest := DecodedIsSpelled(s[1..]);
      ts := [Literal(s[0])] + rest;
      assert ts[1..] == rest;
      assert s == [s[0]] + s[1..];
    } else {
      var rest := DecodedIsSpelled(s[3..]);
      ts := [Escape(s[1], s[2])] + rest;
      assert ts[1..] == rest;
      assert s == [s[0], s[1], s[2]] + s[3..];
    }
  }

  /**
   The decoder accepts exactly the texts in which every '%' starts a whole escape,
   and reads each as it is spelled.
   */
  lemma {:induction false} DecodeExact(s: bytes, d: bytes)
    ensures Decode(s) == Some(d) <==> exists ts :: GoodTokens(ts) && Spelling(ts) == s && Meaning(ts) == d
  {
    if Decode(s) == Some(d) {
      var ts := DecodedIsSpelled(s);
      DecodeSpelling(ts);
      assert GoodTokens(ts) && Spelling(ts) == s && Meaning(ts) == d;
    }
    forall ts | GoodTokens(ts) && Spelling(ts) == s && Meaning(ts) == d
      ensures Decode(s) == Some(d)
    {
      DecodeSpelling(ts);
    }
  }

  // ------------------------------------------------------------------------------ laws

  /** The two digits written for a byte are hexadecimal and stand for it. */
  lemma {:induction false} NibblesOf(c: byte)
    ensures IsHex(DigitChar(c as int / 16)) && IsHex(DigitChar(c as int % 16))
    ensures HexByte(DigitChar(c as int / 16), DigitChar(c as int % 16)) == c
  {
    var hi, lo := c as int / 16, c as int % 16;
    assert 16 * hi + lo == c as int;
  }

  /** Decoding undoes encoding, for every byte string, NUL and high bytes included. */
  lemma {:induction false} DecodeEncode(s: bytes)
    ensures Decode(Encode(s)) == Some(s)
  {
    hide HexByte, DigitChar;
    if s != [] {
      DecodeEncode(s[1..]);
      NibblesOf(s[0]);
      var e := Encode(s);
      assert s == [s[0]] + s[1..];
      if Unreserved(s[0]) {
        assert e[0] == s[0] && e[1..] == Encode(s[1..]);
      } else {
        assert e[3..] == Encode(s[1..]);
      }
    }
  }

  /** Encoded text holds letters, digits and "-._~%" only: no delimiter, blank or NUL of any kind. */
  predicate Harmless(c: byte) {
    Unreserved(c) || '0' <= c <= '9' || c == '%'
  }

  lemma {:induction false} EncodeHarmless(s: bytes)
    ensures forall c :: c in Encode(s) ==> Harmless(c)
  {
    if s != [] {
      EncodeHarmless(s[1..]);
      forall c | c in EncodeByte(s[0])
        ensures Harmless(c)
      {
        NibblesOf(s[0]);
      }
    }
  }

  /**
   The encoding, character by character: letters and "-._~" stay, and every other
   byte becomes '%' and its two digits in upper case.
   */
  lemma {:induction false} EncodeExact(c: byte, rest: bytes)
    ensures Encode([c] + rest)
            == (if 'A' <= c <= 'Z' || 'a' <= c <= 'z' || c in "-._~" then [c]
                else ['%', "0123456789ABCDEF"[c as int / 16], "0123456789ABCDEF"[c as int % 16]]) + Encode(rest)
  {
    var s := [c] + rest;
    assert s[1..] == rest;
    DigitExact(DigitChar(c as int / 16), c as int / 16);
    DigitExact(DigitChar(c as int % 16), c as int % 16);
    UpperDigit(c as int / 16);
    UpperDigit(c as int % 16);
  }

  lemma {:induction false} UpperDigit(d: nat)
    requires d < 16
    ensures DigitChar(d) == "0123456789ABCDEF"[d]
  {
  }

  /** An escape stands for the byte of its two digits, each in either case. */
  lemma {:induction false} EscapeDecodes(hi: byte, lo: byte, v: nat, w: nat, rest: bytes)
    requires v < 16 && w < 16
    requires hi == LOWER_DIGITS[v] || hi == UPPER_DIGITS[v]
    requires lo == LOWER_DIGITS[w] || lo == UPPER_DIGITS[w]
    ensures Decode(['%', hi, lo] + rest) == Cons((16 * v + w) as char, Decode(rest))
  {
    hide DigitValue;
    assert DigitValue(hi) == v by { DigitExact(hi, v); }
    assert DigitValue(lo) == w by { DigitExact(lo, w); }
    EscapeStep(hi, lo, rest);
  }

  lemma {:induction false} EscapeStep(hi: byte, lo: byte, rest: bytes)
    requires IsHex(hi) && IsHex(lo)
    ensures Decode(['%', hi, lo] + rest) == Cons((16 * DigitValue(hi) + DigitValue(lo)) as char, Decode(rest))
  {
    hide DigitValue;
    var s := ['%', hi, lo] + rest;
    assert s[3..] == rest;
  }

  /** A text is its own decoding if and only if it holds no '%': nothing else, '+' included, is special. */
  lemma {:induction false} DecodeKeeps(s: bytes)
    ensures Decode(s) == Some(s) <==> '%' !in s
  {
    hide IsHex, HexByte;
    if s != [] {
      var rest := s[1..];
      DecodeKeeps(rest);
      assert s == [s[0]] + rest;
      if s[0] == '%' && Escaped(s) {
        assert Decode(s).Some? ==> |Decode(s).value| <= |s| - 2;
      } else if Decode(rest).Some? {
        assert Decode(s).Some? && s[0] != '%' ==> Decode(s).value[1..] == Decode(rest).value;
      }
    }
  }

  /** The encoder leaves a text alone if and only if every byte of it is marked in the table. */
  lemma {:induction false} EncodeKeeps(s: bytes)
    ensures Encode(s) == s <==> forall c :: c in s ==> Unreserved(c)
  {
    if s != [] {
      var e, rest := Encode(s), Encode(s[1..]);
      EncodeKeeps(s[1..]);
      assert forall c :: c in s <==> c == s[0] || c in s[1..];
      assert s == [s[0]] + s[1..];
      if Unreserved(s[0]) {
        assert e[1..] == rest;
      } else {
        assert |e| == 3 + |rest| > |s|;
      }
    }
  }

  /** The unreserved characters of section 2.3 of RFC 3986: ALPHA / DIGIT / "-" / "." / "_" / "~". */
  predicate RfcUnreserved(c: byte) {
    'A' <= c <= 'Z' || 'a' <= c <= 'z' || '0' <= c <= '9' || c in "-._~"
  }

  predicate IsDecimal(c: byte) {
    '0' <= c <= '9'
  }

  /**
   Section 2.3 of RFC 3986 counts the digits as unreserved and the table does not:
   a text of unreserved characters stays as it is if and only if it holds no digit.
   */
  lemma {:induction false} UnreservedKept(s: bytes)
    requires forall c :: c in s ==> RfcUnreserved(c)
    ensures Encode(s) == s <==> forall c :: c in s ==> !IsDecimal(c)
  {
    hide Encode;
    EncodeKeeps(s);
    assert forall c: byte :: RfcUnreserved(c) ==> (Unreserved(c) <==> !IsDecimal(c));
    assert (forall c :: c in s ==> Unreserved(c)) <==> forall c :: c in s ==> !IsDecimal(c);
  }

  /** The inputs that show it: every digit. */
  lemma {:induction false} DigitsAreEscaped(d: nat)
    requires d < 10
    ensures Encode([DigitChar(d)]) == ['%', '3', DigitChar(d)]
  {
    var c := DigitChar(d);
    assert c as int / 16 == 3 && c as int % 16 == d;
    assert Encode([c]) == EncodeByte(c) + Encode([]);
  }

  lemma {:induction false} EncodeAppend(s: bytes, c: byte)
    ensures Encode(s + [c]) == Encode(s) + EncodeByte(c)
  {
    hide EncodeByte;
    if s == [] {
      assert ([c])[1..] == [];
    } else {
      assert (s + [c])[1..] == s[1..] + [c];
      EncodeAppend(s[1..], c);
    }
  }

  // ------------------------------------------------------------------------ the C loops

  /** One byte of the output, at index j: one cell, or three. */
  method PutByte(res: array<byte>, j: nat, c: byte) returns (next: nat)
    requires j + |EncodeByte(c)| <= res.Length
    modifies res
    ensures next == j + |EncodeByte(c)| && res[..next] == old(res[..j]) + EncodeByte(c)
  {
    next := j;
    if !Unreserved(c) {
      res[next] := '%';
      next := next + 1;
      res[next] := DigitChar(c as int / 16);
      next := next + 1;
      res[next] := DigitChar(c as int % 16);
    } else {
      res[next] := c;
    }
    next := next + 1;
    assert res[..j] == old(res[..j]);
  }

  /**
   http_urlencode_reserved.  Every write stays inside the 3 * sz + 1 bytes that were
   allocated, and the result is a C string.  The indices are unsigned int, so the
   caller must keep 3 * sz within that range.
   */
  method UrlEncode(s: bytes) returns (res: array<byte>)
    requires 3 * |s| < 0x1_0000_0000
    ensures res.Length == 3 * |s| + 1 && |Encode(s)| < res.Length
    ensures res[..|Encode(s)|] == Encode(s) && res[|Encode(s)|] == NUL
    ensures NUL !in Encode(s)
  {
    hide EncodeByte, Encode;
    res := new byte[3 * |s| + 1];
    var i, j := 0, 0;
    assert Encode([]) == [] by { EncodeEmpty(); }
    while i < |s|
      invariant i <= |s| && j <= 3 * i && j == |Encode(s[..i])|
      invariant res[..j] == Encode(s[..i])
    {
      assert s[..i + 1] == s[..i] + [s[i]];
      EncodeAppend(s[..i], s[i]);
      EncodeByteLength(s[i]);
      j := PutByte(res, j, s[i]);
      i := i + 1;
    }
    assert s[..i] == s;
    res[j] := NUL;
    EncodeHarmless(s);
  }

  lemma {:induction false} EncodeEmpty()
    ensures Encode([]) == []
  {
  }

  lemma {:induction false} EncodeByteLength(c: byte)
    ensures 1 <= |EncodeByte(c)| <= 3
  {
  }

  /** The decoding of s, when `done` has been decoded and `left` is still to decode. */
  predicate DecodedSoFar(s: bytes, done: bytes, left: bytes) {
    match Decode(left)
    case None => Decode(s).None?
    case Some(t) => Decode(s) == Some(done + t)
  }

  lemma {:induction false} DecodeStep(s: bytes, done: bytes, left: bytes, c: byte, left': bytes)
    requires DecodedSoFar(s, done, left) && left != []
    requires Decode(left) == Cons(c, Decode(left'))
    ensures DecodedSoFar(s, done + [c], left')
  {
    hide Decode;
    match Decode(left')
    case None =>
    case Some(t) => assert done + ([c] + t) == done + [c] + t;
  }

  /** The string s as it was, from index src on, and the decoded bytes before index dst. */
  ghost predicate Decoding(a: array<byte>, s: bytes, src: nat, dst: nat)
    reads a
  {
    && dst <= src <= |s| < a.Length
    && a[src..|s|] == s[src..] && a[|s|] == NUL
    && DecodedSoFar(s, a[..dst], s[src..])
  }

  /** A byte that is not '%'. */
  method CopyByte(a: array<byte>, ghost s: bytes, src: nat, dst: nat)
    requires Decoding(a, s, src, dst) && src < |s| && a[src] != '%'
    modifies a
    ensures Decoding(a, s, src + 1, dst + 1) && a[|s|..] == old(a[|s|..])
  {
    assert a[src] == a[src..|s|][0] == s[src];
    ghost var c := s[src];
    assert s[src..][0] == c && s[src..][1..] == s[src + 1..];
    DecodeStep(s, a[..dst], s[src..], c, s[src + 1..]);
    ghost var rest := a[src..|s|];
    a[dst] := a[src];
    assert a[..dst + 1] == old(a[..dst]) + [c];
    assert a[src + 1..|s|] == rest[1..];
  }

  /** The whole escape that starts at src. */
  method CopyEscape(a: array<byte>, ghost s: bytes, src: nat, dst: nat)
    requires Decoding(a, s, src, dst) && Escaped(s[src..])
    modifies a
    ensures Decoding(a, s, src + 3, dst + 1) && a[|s|..] == old(a[|s|..])
  {
    ghost var left := s[src..];
    assert a[src + 1] == a[src..|s|][1] == left[1] && a[src + 2] == a[src..|s|][2] == left[2];
    ghost var c := HexByte(left[1], left[2]);
    assert left[3..] == s[src + 3..];
    DecodeStep(s, a[..dst], left, c, s[src + 3..]);
    ghost var rest := a[src..|s|];
    a[dst] := HexByte(a[src + 1], a[src + 2]);
    assert a[..dst + 1] == old(a[..dst]) + [c];
    assert a[src + 3..|s|] == rest[3..];
  }

  /** Whether a whole escape starts at src, reading no further than the terminator. */
  method LooksEscaped(a: array<byte>, src: nat, ghost s: bytes) returns (ok: bool)
    requires src < |s| < a.Length && a[src..|s|] == s[src..] && a[|s|] == NUL && a[src] == '%'
    ensures ok == Escaped(s[src..])
  {
    ghost var left := s[src..];
    assert forall k :: 0 <= k < |left| ==> a[src + k] == a[src..|s|][k] == left[k];
    assert !IsHex(NUL);
    if !IsHex(a[src + 1]) {
      return false;
    }
    return IsHex(a[src + 2]);
  }

  /**
   http_urldecode.  In place, with the write index never ahead of the read index
   and no read beyond the terminator: either the string decodes, and its decoding
   now stands before the returned index, or it holds a '%' that starts no whole
   escape, and the result is null.  The terminator and what follows are untouched.
   */
  method UrlDecode(a: array<byte>, ghost s: bytes) returns (r: Option<nat>)
    requires |s| < a.Length && a[..|s|] == s && a[|s|] == NUL && NUL !in s
    modifies a
    ensures r.Some? <==> Decode(s).Some?
    ensures r.Some? ==> r.value <= |s| && Decode(s) == Some(a[..r.value])
    ensures a[|s|..] == old(a[|s|..])
  {
    hide Decode, HexByte;
    var src, dst := 0, 0;
    assert s[0..] == s && a[0..|s|] == s;
    assert DecodedSoFar(s, [], s) by {
      match Decode(s)
      case None =>
      case Some(t) => assert [] + t == t;
    }
    assert a[..0] == [];
    while a[src] != NUL
      invariant Decoding(a, s, src, dst)
      invariant src < |s| ==> a[src] != NUL
      invariant a[|s|..] == old(a[|s|..])
      decreases |s| - src
    {
      if a[src] == '%' {
        assert s[src] == s[src..][0] == a[src..|s|][0];
        var ok := LooksEscaped(a, src, s);
        if !ok {
          NotEscaped(s[src..]);
          return None;
        }
        CopyEscape(a, s, src, dst);
        src := src + 3;
      } else {
        CopyByte(a, s, src, dst);
        src := src + 1;
      }
      dst := dst + 1;
      assert src < |s| ==> a[src] == a[src..|s|][0] == s[src..][0] == s[src] && s[src] in s;
    }
    assert src == |s|;
    assert s[src..] == [];
    EmptyDecodes();
    assert a[..dst] + [] == a[..dst];
    return Some(dst);
  }

  lemma {:induction false} NotEscaped(s: bytes)
    requires s != [] && s[0] == '%' && !Escaped(s)
    ensures Decode(s).None?
  {
  }

  lemma {:induction false} EmptyDecodes()
    ensures Decode([]) == Some([])
  {
  }
}
