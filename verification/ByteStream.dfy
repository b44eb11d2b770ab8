/**
 The input side of mnbytestream_t as the parser uses it: a buffer whose end grows
 by deliveries and whose front is dropped by recycling.

 `buf` holds the bytes between SDATA(in, 0) and SEOD(in), so SEOD(in) is |buf|.
 `pending` is what the peer will still deliver, one read at a time; when it is
 empty the next read reports end of file.  The ghost fields keep what the buffer
 forgets: `base` counts the bytes recycled so far and `seen` holds every byte
 delivered so far, as delivered.
 */
module ByteStreams {
  import opened Bytes

  /** The offsets at which a delivery ends, when e bytes are already there. */
  function Cuts(e: nat, pending: seq<bytes>): set<int>
    decreases |pending|
  {
    {e} + if pending == [] then {} else Cuts(e + |pending[0]|, pending[1..])
  }

  lemma {:induction false} CutsBound(e: nat, pending: seq<bytes>)
    ensures forall c :: c in Cuts(e, pending) ==> e <= c
    decreases |pending|
  {
    if pending != [] {
      CutsBound(e + |pending[0]|, pending[1..]);
    }
  }

  /** A scan of the buffer is a scan of the stream, shifted by what was recycled. */
  lemma {:induction false} ScanShift(buf: bytes, seen: bytes, base: nat, a: nat)
    requires |seen| == base + |buf|
    requires forall j :: base + a <= j < |seen| ==> buf[j - base] == seen[j]
    ensures FirstCrlf(buf, a).None? ==> FirstCrlf(seen, base + a).None?
    ensures FirstCrlf(buf, a).Some? ==> FirstCrlf(seen, base + a) == Some(base + FirstCrlf(buf, a).value)
    decreases |buf| - a
  {
    if a + 1 < |buf| {
      assert seen[base + a] == buf[base + a - base] && seen[base + a + 1] == buf[base + a + 1 - base];
      ScanShift(buf, seen, base, a + 1);
    }
  }

  /** A slice of the buffer is the same slice of the stream. */
  lemma {:induction false} SliceShift(buf: bytes, seen: bytes, s: bytes, base: nat, a: nat, b: nat)
    requires |seen| == base + |buf| && seen <= s && a <= b <= |buf|
    requires forall j :: base + a <= j < |seen| ==> buf[j - base] == seen[j]
    ensures buf[a..b] == s[base + a..base + b]
  {
    assert forall k :: a <= k < b ==> buf[k] == s[base + k] by {
      forall k | a <= k < b ensures buf[k] == s[base + k] {
        assert buf[base + k - base] == seen[base + k];
      }
    }
  }

  class ByteStream {
    var buf: bytes
    var pos: int
    var pending: seq<bytes>
    ghost var base: nat
    ghost var seen: bytes

    constructor (deliveries: seq<bytes>)
      requires forall d :: d in deliveries ==> d != []
      ensures Valid() && Clean(0) && Offset() == 0 && seen == [] && pending == deliveries
    {
      buf, pos, pending, base, seen := [], 0, deliveries, 0, [];
    }

    ghost predicate Valid()
      reads this
    {
      |seen| == base + |buf| && forall d :: d in pending ==> d != []
    }

    /** Everything the peer has sent and will send. */
    ghost function Total(): bytes
      reads this
    {
      seen + Flatten(pending)
    }

    /** SPOS(in) as an offset into the whole stream. */
    ghost function Offset(): int
      reads this
    {
      base + pos
    }

    /** From offset k on, the buffer still holds the bytes as they were delivered. */
    ghost predicate Clean(k: int)
      requires Valid()
      reads this
    {
      base <= k && forall j :: k <= j < |seen| ==> buf[j - base] == seen[j]
    }

    /** The bytes that have arrived and have not been passed by the cursor. */
    ghost function Unread(): nat
      requires Valid()
      reads this
    {
      if Offset() < |seen| then |seen| - Offset() else 0
    }

    /** bytestream_consume_data: one more delivery, or false at end of file. */
    method ConsumeData() returns (ok: bool)
      requires Valid()
      modifies this`buf, this`pending, this`seen
      ensures Valid() && Total() == old(Total())
      ensures ok == (old(pending) != [])
      ensures !ok ==> buf == old(buf) && pending == old(pending) && seen == old(seen)
      ensures ok ==> pending == old(pending)[1..] && seen == old(seen) + old(pending)[0] && |seen| > |old(seen)|
      ensures forall k :: old(Clean(k)) ==> Clean(k)
    {
      if pending == [] {
        return false;
      }
      var d := pending[0];
      assert d in pending && forall e :: e in pending[1..] ==> e in pending;
      assert Flatten(pending) == d + Flatten(pending[1..]);
      assert seen + (d + Flatten(pending[1..])) == seen + d + Flatten(pending[1..]);
      buf := buf + d;
      seen := seen + d;
      pending := pending[1..];
      return true;
    }

    /**
     bytestream_recycle: drops some number r of leading bytes, at most `from` and
     at most what is there, and shifts the cursor.  How much is left open.
     */
    method Recycle(from: nat) returns (r: nat)
      requires Valid()
      modifies this`buf, this`pos, this`base
      ensures Valid() && r <= from && Offset() == old(Offset()) && base == old(base) + r
      ensures forall k :: old(Clean(k)) && old(base) + from <= k ==> Clean(k)
    {
      r :| 0 <= r <= from && r <= |buf|;
      buf := buf[r..];
      pos := pos - r;
      base := base + r;
    }
  }
}
