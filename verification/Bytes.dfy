/**
 Bytes, and the small text scanners that the parser uses everywhere: the first
 CR LF pair, the first blank, the first non-blank, C strings and
 case-insensitive comparison.
 */
module Bytes {

  type byte = c: char | c as int < 256 witness '\0'
  type bytes = seq<byte>

  datatype Option<+T> = None | Some(value: T)

  const NUL: byte := '\0'

  /** All pieces of a list of byte strings, in order. */
  function Flatten(parts: seq<bytes>): bytes {
    if parts == [] then [] else parts[0] + Flatten(parts[1..])
  }

  /** A complete CR LF pair stands at index k. */
  predicate CrlfAt(s: bytes, k: int) {
    0 <= k && k + 1 < |s| && s[k] == '\r' && s[k + 1] == '\n'
  }

  /** No complete CR LF pair lies inside s[i..j). */
  predicate NoCrlf(s: bytes, i: int, j: int) {
    forall k :: i <= k && k + 1 < j ==> !CrlfAt(s, k)
  }

  /** Where the first complete CR LF pair at or after i starts. */
  function FirstCrlf(s: bytes, i: nat): (r: Option<nat>)
    ensures r.Some? ==> i <= r.value && CrlfAt(s, r.value) && forall k :: i <= k < r.value ==> !CrlfAt(s, k)
    ensures r.None? ==> forall k :: i <= k ==> !CrlfAt(s, k)
    decreases |s| - i
  {
    if i + 1 >= |s| then None
    else if CrlfAt(s, i) then Some(i)
    else FirstCrlf(s, i + 1)
  }

  /** More bytes never move a pair that is already complete. */
  lemma {:induction false} FirstCrlfStable(s: bytes, t: bytes, i: nat)
    requires s <= t
    ensures FirstCrlf(s, i).Some? ==> FirstCrlf(t, i) == FirstCrlf(s, i)
    ensures FirstCrlf(t, i).Some? && FirstCrlf(t, i).value + 1 < |s| ==> FirstCrlf(s, i) == FirstCrlf(t, i)
  {
    assert forall k :: 0 <= k && k + 1 < |s| ==> CrlfAt(s, k) == CrlfAt(t, k);
  }

  /** The blanks of the C macro ISSPACE. */
  predicate IsBlank(c: byte) {
    c == ' ' || c == '\t'
  }

  /** isspace(3) in the C locale: blank, \t, \n, \v, \f and \r. */
  predicate IsSpace(c: byte) {
    c == ' ' || 9 <= c as int <= 13
  }

  predicate AllSpace(s: bytes) {
    forall k :: 0 <= k < |s| ==> IsSpace(s[k])
  }

  /** First blank of s at or after i. */
  function FirstBlank(s: bytes, i: nat): (r: Option<nat>)
    ensures r.Some? ==> i <= r.value < |s| && IsBlank(s[r.value]) && forall k :: i <= k < r.value ==> !IsBlank(s[k])
    ensures r.None? ==> forall k :: i <= k < |s| ==> !IsBlank(s[k])
    decreases |s| - i
  {
    if i >= |s| then None
    else if IsBlank(s[i]) then Some(i)
    else FirstBlank(s, i + 1)
  }

  /** First non-blank of s at or after i. */
  function FirstNonBlank(s: bytes, i: nat): (r: Option<nat>)
    ensures r.Some? ==> i <= r.value < |s| && !IsBlank(s[r.value]) && forall k :: i <= k < r.value ==> IsBlank(s[k])
    ensures r.None? ==> forall k :: i <= k < |s| ==> IsBlank(s[k])
    decreases |s| - i
  {
    if i >= |s| then None
    else if !IsBlank(s[i]) then Some(i)
    else FirstNonBlank(s, i + 1)
  }

  /** First occurrence of c in s at or after i (strchr, memchr). */
  function FirstOf(s: bytes, c: byte, i: nat): (r: Option<nat>)
    ensures r.Some? ==> i <= r.value < |s| && s[r.value] == c && forall k :: i <= k < r.value ==> s[k] != c
    ensures r.None? ==> forall k :: i <= k < |s| ==> s[k] != c
    decreases |s| - i
  {
    if i >= |s| then None
    else if s[i] == c then Some(i)
    else FirstOf(s, c, i + 1)
  }

  /** What a C function sees of s when s is followed by a NUL. */
  function CString(s: bytes): (r: bytes)
    ensures r <= s && NUL !in r
    ensures |r| < |s| ==> s[|r|] == NUL
  {
    match FirstOf(s, NUL, 0)
    case None => s
    case Some(n) => s[..n]
  }

  lemma {:induction false} CStringWhole(s: bytes)
    requires NUL !in s
    ensures CString(s) == s
  {
  }

  /** What follows the NUL does not matter to a C function. */
  lemma {:induction false} CStringStops(s: bytes, rest: bytes)
    ensures CString(s + [NUL] + rest) == CString(s)
  {
    var t := s + [NUL] + rest;
    var n := |CString(s)|;
    assert t[n] == NUL && forall k :: 0 <= k < n ==> t[k] == CString(s)[k];
    assert t[..n] == s[..n];
  }

  function Lower(c: byte): byte {
    if 'A' <= c <= 'Z' then (c as int + 32) as char else c
  }

  /** Two bytes are the same but for case exactly if they are equal or the two forms of one ASCII letter. */
  lemma {:induction false} CaseExact(x: byte, y: byte)
    ensures Lower(x) == Lower(y) <==>
            || x == y
            || ('A' <= x <= 'Z' && y as int - x as int == 'a' as int - 'A' as int)
            || ('A' <= y <= 'Z' && x as int - y as int == 'a' as int - 'A' as int)
  {
  }

  /** strcasecmp(a, b) == 0 for two C strings. */
  predicate SameNoCase(a: bytes, b: bytes) {
    |a| == |b| && forall k :: 0 <= k < |a| ==> Lower(a[k]) == Lower(b[k])
  }

  /** strncasecmp(a, b, |a|) == 0, where b is a C string without NULs. */
  predicate PrefixNoCase(a: bytes, b: bytes) {
    var n := |CString(a)|;
    n <= |b| && (n < |a| ==> n == |b|) && forall k :: 0 <= k < n ==> Lower(a[k]) == Lower(b[k])
  }

  /** findcrlf: scans s[from..] for the first complete CR LF pair. */
  method FindCrlf(s: bytes, from: nat) returns (r: Option<nat>)
    ensures r == FirstCrlf(s, from)
  {
    var i := from;
    while i < |s|
      invariant from <= i
      invariant FirstCrlf(s, from) == FirstCrlf(s, i)
    {
      if s[i] == '\r' {
        if i + 1 < |s| && s[i + 1] == '\n' {
          return Some(i);
        }
      }
      i := i + 1;
    }
    return None;
  }

  /** findsp: the first blank. */
  method FindSp(s: bytes, from: nat) returns (r: Option<nat>)
    ensures r == FirstBlank(s, from)
  {
    var i := from;
    while i < |s|
      invariant from <= i
      invariant FirstBlank(s, from) == FirstBlank(s, i)
    {
      if IsBlank(s[i]) {
        return Some(i);
      }
      i := i + 1;
    }
    return None;
  }

  /** findnosp: the first non-blank. */
  method FindNoSp(s: bytes, from: nat) returns (r: Option<nat>)
    ensures r == FirstNonBlank(s, from)
  {
    var i := from;
    while i < |s|
      invariant from <= i
      invariant FirstNonBlank(s, from) == FirstNonBlank(s, i)
    {
      if !IsBlank(s[i]) {
        return Some(i);
      }
      i := i + 1;
    }
    return None;
  }

  /** memchr, strchr. */
  method FindByte(s: bytes, c: byte, from: nat) returns (r: Option<nat>)
    ensures r == FirstOf(s, c, from)
  {
    var i := from;
    while i < |s|
      invariant from <= i
      invariant FirstOf(s, c, from) == FirstOf(s, c, i)
    {
      if s[i] == c {
        return Some(i);
      }
      i := i + 1;
    }
    return None;
  }
}
