/**
 The key/value splitter behind mnhttp_parse_qterms and mnhttp_parse_kvpbd, and the
 query text that the request writer produces.  The hash table is the list of the
 hash_set_item calls, in order.
 */
module KeyValue {
  import opened Bytes
  import opened PercentCodec

  datatype Term = Term(key: bytes, value: bytes)

  /** s cut at every delimiter. */
  function Pieces(s: bytes, delim: byte): (r: seq<bytes>)
    ensures r != []
  {
    match FirstOf(s, delim, 0)
    case None => [s]
    case Some(n) => [s[..n]] + Pieces(s[n + 1..], delim)
  }

  /** Pieces put together again with delimiters between them. */
  function Join(parts: seq<bytes>, delim: byte): bytes
    requires parts != []
  {
    if |parts| == 1 then parts[0] else parts[0] + [delim] + Join(parts[1..], delim)
  }

  /** A piece is a key, up to the first field delimiter, and a value; a piece without a key gives nothing. */
  function PieceTerms(piece: bytes, fdelim: byte, decode: bytes -> bytes): seq<Term> {
    match FirstOf(piece, fdelim, 0)
    case None => if piece == [] then [] else [Term(decode(piece), decode([]))]
    case Some(n) => if n == 0 then [] else [Term(decode(piece[..n]), decode(piece[n + 1..]))]
  }

  function PiecesTerms(pieces: seq<bytes>, fdelim: byte, decode: bytes -> bytes): seq<Term> {
    if pieces == [] then [] else PieceTerms(pieces[0], fdelim, decode) + PiecesTerms(pieces[1..], fdelim, decode)
  }

  /** What the splitter stores: split on rdelim, cut each piece at its first fdelim, drop empty keys, decode. */
  function Terms(s: bytes, fdelim: byte, rdelim: byte, decode: bytes -> bytes): seq<Term> {
    PiecesTerms(Pieces(s, rdelim), fdelim, decode)
  }

  // ------------------------------------------------------------------------- the splitting

  lemma {:induction false} JoinPieces(s: bytes, delim: byte)
    ensures Join(Pieces(s, delim), delim) == s
    ensures forall p :: p in Pieces(s, delim) ==> delim !in p
    decreases |s|
  {
    match FirstOf(s, delim, 0)
    case None =>
    case Some(n) =>
      JoinPieces(s[n + 1..], delim);
      var parts := Pieces(s, delim);
      assert parts[1..] == Pieces(s[n + 1..], delim);
      assert s == s[..n] + [delim] + s[n + 1..];
  }

  lemma {:induction false} FirstDelim(a: bytes, delim: byte, b: bytes)
    requires delim !in a
    ensures FirstOf(a + [delim] + b, delim, 0) == Some(|a|)
  {
    var s := a + [delim] + b;
    assert s[|a|] == delim && forall k :: 0 <= k < |a| ==> s[k] == a[k] && a[k] in a;
  }

  /** The cut is the only one: any pieces free of the delimiter that join to s are the pieces of s. */
  lemma {:induction false} PiecesJoin(parts: seq<bytes>, delim: byte)
    requires parts != [] && forall p :: p in parts ==> delim !in p
    ensures Pieces(Join(parts, delim), delim) == parts
    decreases |parts|
  {
    var p := parts[0];
    assert p in parts;
    if |parts| == 1 {
      assert FirstOf(p, delim, 0).None?;
    } else {
      assert forall q :: q in parts[1..] ==> q in parts;
      var s := Join(parts, delim);
      FirstDelim(p, delim, Join(parts[1..], delim));
      assert s[..|p|] == p && s[|p| + 1..] == Join(parts[1..], delim);
      PiecesJoin(parts[1..], delim);
    }
  }

  // -------------------------------------------------------------------- the terms of a text

  /** A key, and perhaps a value behind the field delimiter. */
  datatype Pair = Pair(key: bytes, value: Option<bytes>)

  function PairText(p: Pair, fdelim: byte): bytes {
    match p.value
    case None => p.key
    case Some(v) => p.key + [fdelim] + v
  }

  /** What a pair should be stored as: an absent value is an empty one. */
  function PairTerm(p: Pair, decode: bytes -> bytes): Term {
    Term(decode(p.key), decode(match p.value case None => [] case Some(v) => v))
  }

  /** The key holds no delimiter, and the value no record delimiter; it may hold further field delimiters. */
  predicate GoodPair(p: Pair, fdelim: byte, rdelim: byte) {
    && fdelim !in p.key && rdelim !in p.key
    && (p.value.Some? ==> fdelim != rdelim && rdelim !in p.value.value)
  }

  function PairTexts(pairs: seq<Pair>, fdelim: byte): (r: seq<bytes>)
    ensures |r| == |pairs| && forall k :: 0 <= k < |r| ==> r[k] == PairText(pairs[k], fdelim)
  {
    if pairs == [] then [] else [PairText(pairs[0], fdelim)] + PairTexts(pairs[1..], fdelim)
  }

  /** The terms in order; a pair without a key is dropped. */
  function PairTerms(pairs: seq<Pair>, decode: bytes -> bytes): seq<Term> {
    if pairs == [] then []
    else (if pairs[0].key == [] then [] else [PairTerm(pairs[0], decode)]) + PairTerms(pairs[1..], decode)
  }

  /** One piece: the key is what stands before the first field delimiter, the value everything behind it. */
  lemma {:induction false} PieceReads(p: Pair, fdelim: byte, decode: bytes -> bytes)
    requires fdelim !in p.key
    ensures PieceTerms(PairText(p, fdelim), fdelim, decode) == if p.key == [] then [] else [PairTerm(p, decode)]
  {
    match p.value
    case None =>
      assert FirstOf(p.key, fdelim, 0).None?;
    case Some(v) =>
      FirstDelim(p.key, fdelim, v);
      var s := PairText(p, fdelim);
      assert s[..|p.key|] == p.key && s[|p.key| + 1..] == v;
  }

  lemma {:induction false} PiecesRead(pairs: seq<Pair>, fdelim: byte, rdelim: byte, decode: bytes -> bytes)
    requires forall p :: p in pairs ==> GoodPair(p, fdelim, rdelim)
    ensures PiecesTerms(PairTexts(pairs, fdelim), fdelim, decode) == PairTerms(pairs, decode)
    decreases |pairs|
  {
    hide PieceTerms, PairText, PairTerm;
    if pairs != [] {
      var texts := PairTexts(pairs, fdelim);
      assert pairs[0] in pairs && forall p :: p in pairs[1..] ==> p in pairs;
      PieceReads(pairs[0], fdelim, decode);
      PiecesRead(pairs[1..], fdelim, rdelim, decode);
      assert texts[1..] == PairTexts(pairs[1..], fdelim);
    }
  }

  /** The splitter inverts the writing of pairs: it stores exactly the pairs that have a key, in order. */
  lemma {:induction false} PairsRead(pairs: seq<Pair>, fdelim: byte, rdelim: byte, decode: bytes -> bytes)
    requires pairs != [] && forall p :: p in pairs ==> GoodPair(p, fdelim, rdelim)
    ensures Terms(Join(PairTexts(pairs, fdelim), rdelim), fdelim, rdelim, decode) == PairTerms(pairs, decode)
  {
    hide PieceTerms, PairTerm, PairTexts;
    var texts := PairTexts(pairs, fdelim);
    forall x | x in texts
      ensures rdelim !in x
    {
      var k :| 0 <= k < |texts| && texts[k] == x;
      assert pairs[k] in pairs;
    }
    PiecesJoin(texts, rdelim);
    PiecesRead(pairs, fdelim, rdelim, decode);
  }

  /** Pairs written and split again. */
  method WriteThenSplit(pairs: seq<Pair>, fdelim: byte, rdelim: byte, decode: bytes -> bytes)
    returns (text: bytes, hash: seq<Term>)
    requires pairs != [] && forall p :: p in pairs ==> GoodPair(p, fdelim, rdelim)
    ensures text == Join(PairTexts(pairs, fdelim), rdelim) && hash == PairTerms(pairs, decode)
  {
    hide Terms, PairTexts;
    text := Join(PairTexts(pairs, fdelim), rdelim);
    hash := ParseKvp(text, fdelim, rdelim, decode);
    PairsRead(pairs, fdelim, rdelim, decode);
  }

  // ---------------------------------------------------------------------------- the C loop

  /** MNHTTP_PARSE_QTERMS_FIND_PAIR on the piece ss[i0..i1]. */
  method FindPair(ss: bytes, i0: nat, i1: nat, fdelim: byte, decode: bytes -> bytes, hash: seq<Term>)
    returns (hash': seq<Term>)
    requires i1 <= |ss|
    ensures hash' == hash + if i0 <= i1 then PieceTerms(ss[i0..i1], fdelim, decode) else []
  {
    var j := i0;
    while j < i1 && ss[j] != fdelim
      invariant i0 <= j && (i0 <= i1 ==> j <= i1) && (i0 > i1 ==> j == i0)
      invariant forall k :: i0 <= k < j ==> ss[k] != fdelim
    {
      j := j + 1;
    }
    hash' := hash;
    if j > i0 {
      ghost var piece := ss[i0..i1];
      assert forall k :: 0 <= k < j - i0 ==> piece[k] == ss[i0 + k];
      assert j < i1 ==> piece[j - i0] == fdelim;
      assert FirstOf(piece, fdelim, 0) == if j < i1 then Some(j - i0) else None;
      var key := ss[i0..j];
      assert key == piece[..j - i0];
      j := j + 1;
      var value: bytes := [];
      if i1 >= j {
        value := ss[j..i1];
        assert value == piece[j - i0..];
      }
      hash' := hash' + [Term(decode(key), decode(value))];
    } else if i0 < i1 {
      assert FirstOf(ss[i0..i1], fdelim, 0) == Some(0);
    }
  }

  lemma {:induction false} TermsStep(s: bytes, i0: nat, i1: nat, fdelim: byte, rdelim: byte, decode: bytes -> bytes)
    requires i0 <= i1 < |s| && s[i1] == rdelim && forall k :: i0 <= k < i1 ==> s[k] != rdelim
    ensures Terms(s[i0..], fdelim, rdelim, decode)
            == PieceTerms(s[i0..i1], fdelim, decode) + Terms(s[i1 + 1..], fdelim, rdelim, decode)
  {
    hide PieceTerms;
    var t := s[i0..];
    FirstDelim(s[i0..i1], rdelim, s[i1 + 1..]);
    assert t == s[i0..i1] + [rdelim] + s[i1 + 1..];
    var parts := Pieces(t, rdelim);
    assert t[..i1 - i0] == s[i0..i1] && t[i1 - i0 + 1..] == s[i1 + 1..];
    assert parts[0] == s[i0..i1] && parts[1..] == Pieces(s[i1 + 1..], rdelim);
  }

  lemma {:induction false} TermsLast(s: bytes, i0: nat, fdelim: byte, rdelim: byte, decode: bytes -> bytes)
    requires i0 <= |s| && forall k :: i0 <= k < |s| ==> s[k] != rdelim
    ensures Terms(s[i0..], fdelim, rdelim, decode) == PieceTerms(s[i0..], fdelim, decode)
  {
    hide PieceTerms;
    assert FirstOf(s[i0..], rdelim, 0).None?;
    assert Pieces(s[i0..], rdelim) == [s[i0..]];
    assert PiecesTerms([s[i0..]][1..], fdelim, decode) == [];
  }

  /**
   MNHTTP_PARSE_KVP_BODY.  The scan includes the terminating NUL, so it also ends
   the last piece when rdelim is NUL.
   */
  method ParseKvp(s: bytes, fdelim: byte, rdelim: byte, decode: bytes -> bytes) returns (hash: seq<Term>)
    ensures hash == Terms(s, fdelim, rdelim, decode)
  {
    hide Terms, PieceTerms;
    var ss := s + [NUL];
    hash := [];
    var i0, i1 := 0, 0;
    assert s[0..] == s;
    while i1 < |ss|
      invariant i0 <= i1 <= |ss|
      invariant forall k :: i0 <= k < i1 && k < |s| ==> s[k] != rdelim
      invariant if i0 <= |s| then Terms(s, fdelim, rdelim, decode) == hash + Terms(s[i0..], fdelim, rdelim, decode)
                else hash == Terms(s, fdelim, rdelim, decode)
    {
      if ss[i1] == rdelim {
        assert ss[i0..i1] == s[i0..i1];
        if i1 < |s| {
          TermsStep(s, i0, i1, fdelim, rdelim, decode);
        } else {
          TermsLast(s, i0, fdelim, rdelim, decode);
          assert s[i0..i1] == s[i0..];
        }
        hash := FindPair(ss, i0, i1, fdelim, decode, hash);
        i0 := i1 + 1;
      }
      i1 := i1 + 1;
    }
    i1 := i1 - 1;
    if i0 <= |s| {
      TermsLast(s, i0, fdelim, rdelim, decode);
      assert ss[i0..i1] == s[i0..];
    }
    hash := FindPair(ss, i0, i1, fdelim, decode, hash);
  }
}
