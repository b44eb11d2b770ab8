/**
 The writers: http_start_request, http_start_response, http_add_header_field,
 http_end_of_header and http_add_body, on an output stream that is a growing byte
 string.  bytestream_nprintf(out, limit, ...) writes at most limit - 1 bytes, as
 vsnprintf does; each writer passes a limit that never cuts its text.
 */
module Writers {
  import opened Bytes
  import opened Numbers

  datatype Field = Field(name: bytes, value: bytes)

  const CRLF: bytes := "\r\n"

  function RequestText(verb: bytes, uri: bytes): bytes {
    verb + " " + uri + " HTTP/1.1"
  }

  function StatusText(code: int, phrase: bytes): bytes {
    "HTTP/1.1 " + (Decimal(code) + (" " + phrase))
  }

  function FieldText(f: Field): bytes {
    f.name + ": " + f.value
  }

  function FieldsText(fields: seq<Field>): bytes {
    if fields == [] then [] else FieldText(fields[0]) + CRLF + FieldsText(fields[1..])
  }

  /** First line, header fields and the blank line. */
  function HeadText(line: bytes, fields: seq<Field>): bytes {
    line + CRLF + (FieldsText(fields) + CRLF)
  }

  lemma {:induction false} FieldsTextAppend(fields: seq<Field>, f: Field)
    ensures FieldsText(fields + [f]) == FieldsText(fields) + FieldText(f) + CRLF
  {
    if fields == [] {
      assert FieldsText([f][1..]) == [];
    } else {
      assert (fields + [f])[1..] == fields[1..] + [f];
      FieldsTextAppend(fields[1..], f);
    }
  }

  lemma {:induction false} DigitsLength(n: nat, k: nat)
    requires k > 0 && n < Power(false, k)
    ensures |Digits(n, false)| <= k
  {
    if n >= 10 {
      DigitsLength(n / 10, k - 1);
    }
  }

  /** An int prints in at most 11 characters. */
  lemma {:induction false} DecimalLength(n: int)
    requires -INT_MAX - 1 <= n <= INT_MAX
    ensures |Decimal(n)| <= 11
  {
    assert Power(false, 5) == 100000;
    assert Power(false, 10) == 10_000_000_000;
    DigitsLength(if n < 0 then -n else n, 10);
  }

  class OutStream {
    var data: bytes

    constructor ()
      ensures data == []
    {
      data := [];
    }

    /** bytestream_nprintf with the text already formatted. */
    method Nprintf(limit: nat, text: bytes)
      requires limit > 0
      modifies this
      ensures data == old(data) + if |text| < limit then text else text[..limit - 1]
    {
      data := data + if |text| < limit then text else text[..limit - 1];
    }

    /** bytestream_cat. */
    method Cat(text: bytes)
      modifies this
      ensures data == old(data) + text
    {
      data := data + text;
    }

    method StartRequest(verb: bytes, uri: bytes)
      modifies this
      ensures data == old(data) + RequestText(verb, uri) + CRLF
      ensures data == old(data) + (verb + [' '] + uri + " HTTP/1.1\r\n")
    {
      var sz := |verb| + |uri| + 16;
      Nprintf(sz, RequestText(verb, uri) + CRLF);
    }

    method StartResponse(code: int, phrase: bytes)
      requires -INT_MAX - 1 <= code <= INT_MAX
      modifies this
      ensures data == old(data) + StatusText(code, phrase) + CRLF
      ensures data == old(data) + ("HTTP/1.1 " + Decimal(code) + [' '] + phrase + "\r\n")
    {
      DecimalLength(code);
      var sz := |phrase| + 32;
      Nprintf(sz, StatusText(code, phrase) + CRLF);
    }

    method AddHeaderField(f: Field)
      modifies this
      ensures data == old(data) + FieldText(f) + CRLF
      ensures data == old(data) + (f.name + ": " + f.value + "\r\n")
    {
      var sz := |f.name| + |f.value| + 4;
      sz := sz + (4096 - sz % 4096);
      Nprintf(sz, FieldText(f) + CRLF);
    }

    method EndOfHeader()
      modifies this
      ensures data == old(data) + CRLF
    {
      Cat(CRLF);
    }

    method AddBody(body: bytes)
      modifies this
      ensures data == old(data) + body
    {
      Cat(body);
    }

    /** The header fields in order, the blank line and the body, as mnhttpc_request_finalize writes them. */
    method AddRest(fields: seq<Field>, body: bytes)
      modifies this
      ensures data == old(data) + FieldsText(fields) + CRLF + body
    {
      var i := 0;
      while i < |fields|
        invariant i <= |fields|
        invariant data == old(data) + FieldsText(fields[..i])
      {
        assert fields[..i + 1] == fields[..i] + [fields[i]];
        FieldsTextAppend(fields[..i], fields[i]);
        AddHeaderField(fields[i]);
        i := i + 1;
      }
      assert fields[..i] == fields;
      EndOfHeader();
      AddBody(body);
    }
  }

  /** A whole request, written to an empty stream. */
  method WriteRequest(verb: bytes, uri: bytes, fields: seq<Field>, body: bytes) returns (text: bytes)
    ensures text == HeadText(RequestText(verb, uri), fields) + body
  {
    hide RequestText, FieldsText;
    var out := new OutStream();
    out.StartRequest(verb, uri);
    out.AddRest(fields, body);
    text := out.data;
  }

  /** A whole response, written to an empty stream. */
  method WriteResponse(code: int, phrase: bytes, fields: seq<Field>, body: bytes) returns (text: bytes)
    requires -INT_MAX - 1 <= code <= INT_MAX
    ensures text == HeadText(StatusText(code, phrase), fields) + body
  {
    hide StatusText, FieldsText, Decimal;
    var out := new OutStream();
    out.StartResponse(code, phrase);
    out.AddRest(fields, body);
    text := out.data;
  }
}
