/**
 The parser reads back what the writers wrote, wherever it stands in a stream and
 whatever follows it, and stops exactly at its end.
 */
module RoundTrip {
  import opened Bytes
  import opened Numbers
  import opened MessageSpec
  import opened SplitLaws
  import opened Writers

  /** x stands in s at offset i. */
  predicate StandsAt(s: bytes, i: nat, x: bytes) {
    i + |x| <= |s| && s[i..i + |x|] == x
  }

  lemma {:induction false} StandsApart(s: bytes, i: nat, a: bytes, b: bytes)
    requires StandsAt(s, i, a + b)
    ensures StandsAt(s, i, a) && StandsAt(s, i + |a|, b)
  {
    var x := s[i..i + |a + b|];
    assert s[i..i + |a|] == x[..|a|] == a;
    assert s[i + |a|..i + |a| + |b|] == x[|a|..] == b;
  }

  predicate Unbroken(x: bytes) {
    forall k :: 0 <= k < |x| ==> !CrlfAt(x, k)
  }

  /** A line without a break inside is found up to the break that ends it. */
  lemma {:induction false} LineStands(s: bytes, i: nat, x: bytes)
    requires StandsAt(s, i, x + CRLF) && Unbroken(x)
    ensures FirstCrlf(s, i) == Some(i + |x|) && s[i..i + |x|] == x && StandsAt(s, i + |x|, CRLF)
  {
    StandsApart(s, i, x, CRLF);
    var n := i + |x|;
    assert s[n] == s[n..n + 2][0] && s[n + 1] == s[n..n + 2][1];
    assert CrlfAt(s, n);
    forall k | i <= k < n
      ensures !CrlfAt(s, k)
    {
      assert s[k] == x[k - i];
      if k + 1 < n {
        assert s[k + 1] == x[k + 1 - i];
        assert !CrlfAt(x, k - i);
      }
    }
  }

  // ------------------------------------------------------------------- header fields

  /** What a header field must be to come back as it is. */
  predicate Plain(f: Field) {
    ':' !in f.name && f.value != [] && !IsBlank(f.value[0])
  }

  /** A written header line is read back as its name and value if and only if the field is plain. */
  lemma {:induction false} FieldReadsBack(f: Field)
    ensures HeaderLine(FieldText(f)) == HeaderOk(f.name, f.value) <==> Plain(f)
  {
    var line := FieldText(f);
    var n := |f.name|;
    assert line[n] == ':' && line[..n] == f.name && line[n + 1] == ' ' && line[n + 2..] == f.value;
    var c := FirstOf(line, ':', 0).value;
    if ':' in f.name {
      var k :| 0 <= k < n && f.name[k] == ':';
      assert line[k] == ':';
      assert c < n;
      assert |line[..c]| != |f.name|;
    } else {
      assert forall k :: 0 <= k < n ==> line[k] == f.name[k];
      assert c == n;
      if f.value != [] {
        assert line[n + 2] == f.value[0];
        if IsBlank(f.value[0]) {
          assert FirstNonBlank(line, n + 1).Some? ==> |line[FirstNonBlank(line, n + 1).value..]| != |f.value|;
        } else {
          assert FirstNonBlank(line, n + 1) == Some(n + 2);
        }
      }
    }
  }

  /** Any number of blanks and tabs. */
  predicate Gap(x: bytes) {
    forall c :: c in x ==> c == ' ' || c == '\t'
  }

  /**
   Every header line with a colon: the name is what stands before the first one, the
   value starts at the first byte behind it that is no blank, and a line without such
   a byte makes the code use a null pointer.
   */
  lemma {:induction false} HeaderLineReads(name: bytes, gap: bytes, value: bytes)
    requires ':' !in name && Gap(gap) && (value == [] || (value[0] != ' ' && value[0] != '\t'))
    ensures HeaderLine(name + ([':'] + (gap + value)))
            == if value == [] then HeaderUndefined else HeaderOk(name, value)
  {
    hide FirstOf, FirstNonBlank, Gap;
    var rest := gap + value;
    var line := name + ([':'] + rest);
    FirstColon(name, rest);
    BehindColon(line, name, rest);
    GapEndsAt(line, |name| + 1, gap, value);
  }

  lemma {:induction false} BehindColon(line: bytes, name: bytes, rest: bytes)
    requires line == name + ([':'] + rest)
    ensures |name| < |line| && line[..|name|] == name && line[|name| + 1..] == rest
  {
  }

  lemma {:induction false} FirstColon(name: bytes, rest: bytes)
    requires ':' !in name
    ensures FirstOf(name + ([':'] + rest), ':', 0) == Some(|name|)
  {
    var line := name + ([':'] + rest);
    assert line[|name|] == ':' && forall k :: 0 <= k < |name| ==> line[k] == name[k] && name[k] in name;
  }

  lemma {:induction false} GapEndsAt(line: bytes, at: nat, gap: bytes, value: bytes)
    requires at <= |line| && line[at..] == gap + value && Gap(gap)
    requires value == [] || (value[0] != ' ' && value[0] != '\t')
    ensures FirstNonBlank(line, at) == if value == [] then None else Some(at + |gap|)
    ensures at + |gap| <= |line| && line[at + |gap|..] == value
  {
    Behind(line, at, gap, value);
    if value == [] {
      assert gap + value == gap;
      NoneLeft(line, at, gap);
    } else {
      RunEnds(line, at, gap, value, true);
    }
  }

  lemma {:induction false} CutThree(line: bytes, n: nat, v: nat)
    requires n < v <= |line|
    ensures line == line[..n] + ([line[n]] + (line[n + 1..v] + line[v..]))
  {
    assert line[n + 1..v] + line[v..] == line[n + 1..];
    assert [line[n]] + line[n + 1..] == line[n..];
  }

  /** The three parts of a line with a colon. */
  lemma {:induction false} HeaderLineCut(line: bytes) returns (name: bytes, gap: bytes, value: bytes)
    requires ':' in line
    ensures line == name + ([':'] + (gap + value)) && ':' !in name
    ensures Gap(gap) && (value == [] || (value[0] != ' ' && value[0] != '\t'))
  {
    hide FirstOf, FirstNonBlank;
    var n := FirstOf(line, ':', 0).value;
    var v := match FirstNonBlank(line, n + 1) case None => |line| case Some(v) => v;
    name, gap, value := line[..n], line[n + 1..v], line[v..];
    CutThree(line, n, v);
    assert value != [] ==> value[0] == line[v];
  }

  predicate BareName(line: bytes, name: bytes, gap: bytes) {
    ':' !in name && Gap(gap) && line == name + ([':'] + gap)
  }

  lemma {:induction false} BareNameReads(line: bytes, name: bytes, gap: bytes)
    requires BareName(line, name, gap)
    ensures HeaderLine(line) == HeaderUndefined
  {
    hide HeaderLine, Gap;
    assert gap + [] == gap;
    HeaderLineReads(name, gap, []);
  }

  lemma {:induction false} ColonShows(line: bytes)
    ensures HeaderLine(line) == HeaderBad <==> ':' !in line
  {
    hide FirstOf, FirstNonBlank;
  }

  /**
   Every line is either without a colon, which is an error, or one of those; the null
   pointer is met if and only if nothing but blanks follow the first colon.
   */
  lemma {:induction false} HeaderLineExact(line: bytes)
    ensures HeaderLine(line) == HeaderBad <==> ':' !in line
    ensures HeaderLine(line) == HeaderUndefined <==> exists name, gap :: BareName(line, name, gap)
  {
    hide HeaderLine, BareName;
    ColonShows(line);
    if HeaderLine(line) == HeaderUndefined {
      var name, gap, value := HeaderLineCut(line);
      HeaderLineReads(name, gap, value);
      assert BareName(line, name, gap) by { BareCut(line, name, gap, value); }
    }
    forall name, gap | BareName(line, name, gap)
      ensures HeaderLine(line) == HeaderUndefined
    {
      BareNameReads(line, name, gap);
    }
  }

  lemma {:induction false} BareCut(line: bytes, name: bytes, gap: bytes, value: bytes)
    requires ':' !in name && Gap(gap) && value == [] && line == name + ([':'] + (gap + value))
    ensures BareName(line, name, gap)
  {
    assert gap + value == gap;
  }

  predicate CleanFields(fields: seq<Field>) {
    forall f :: f in fields ==> Plain(f) && Unbroken(FieldText(f))
  }

  function FieldEvents(fields: seq<Field>): seq<Event> {
    if fields == [] then [] else [HeaderEvent(fields[0].name, fields[0].value)] + FieldEvents(fields[1..])
  }

  /** The framing that a list of header fields declares. */
  function FieldsFrame(frame: Frame, fields: seq<Field>): Frame
    decreases |fields|
  {
    if fields == [] then frame
    else FieldsFrame(Framing(frame, fields[0].name, fields[0].value), fields[1..])
  }

  lemma {:induction false} FieldsStand(s: bytes, i: nat, fields: seq<Field>)
    requires fields != [] && StandsAt(s, i, FieldsText(fields) + CRLF)
    ensures StandsAt(s, i, FieldText(fields[0]) + CRLF)
    ensures StandsAt(s, i + |FieldText(fields[0])| + 2, FieldsText(fields[1..]) + CRLF)
  {
    var a, b := FieldText(fields[0]) + CRLF, FieldsText(fields[1..]) + CRLF;
    assert FieldsText(fields) + CRLF == a + b;
    StandsApart(s, i, a, b);
  }

  lemma {:induction false} BlankStands(s: bytes, i: nat, frame: Frame)
    requires StandsAt(s, i, CRLF)
    ensures BlankLine(s, i) == Some(i) && HeadersAt(s, i) == [] && FrameAt(s, i, frame) == frame
  {
    assert [] + CRLF == CRLF;
    LineStands(s, i, []);
  }

  lemma {:induction false} FieldRead(s: bytes, i: nat, f: Field, frame: Frame)
    requires StandsAt(s, i, FieldText(f) + CRLF) && Plain(f) && Unbroken(FieldText(f))
    ensures var j := i + |FieldText(f)| + 2;
            && BlankLine(s, i) == BlankLine(s, j)
            && HeadersAt(s, i) == [HeaderEvent(f.name, f.value)] + HeadersAt(s, j)
            && FrameAt(s, i, frame) == FrameAt(s, j, Framing(frame, f.name, f.value))
  {
    hide HeaderLine, Framing, FirstCrlf, BlankLine, HeadersAt, FrameAt, FieldText;
    LineStands(s, i, FieldText(f));
    FieldReadsBack(f);
    FieldTextNotEmpty(f);
    var j := i + |FieldText(f)|;
    BlankLineStep(s, i, j, f.name, f.value);
    HeadersAtStep(s, i, j, f.name, f.value);
    FrameAtStep(s, i, j, f.name, f.value, frame);
  }

  /** A block of clean header fields is read back whole, in order, down to its blank line. */
  lemma {:induction false} FieldsRead(s: bytes, i: nat, fields: seq<Field>, frame: Frame)
    requires StandsAt(s, i, FieldsText(fields) + CRLF) && CleanFields(fields)
    ensures BlankLine(s, i) == Some(i + |FieldsText(fields)|)
    ensures HeadersAt(s, i) == FieldEvents(fields)
    ensures FrameAt(s, i, frame) == FieldsFrame(frame, fields)
    decreases |fields|
  {
    hide Framing, FieldText, BlankLine, HeadersAt, FrameAt, StandsAt, Plain;
    if fields == [] {
      assert FieldsText(fields) + CRLF == CRLF;
      BlankStands(s, i, frame);
    } else {
      var f := fields[0];
      assert f in fields && forall g :: g in fields[1..] ==> g in fields;
      FieldsStand(s, i, fields);
      FieldRead(s, i, f, frame);
      FieldsRead(s, i + |FieldText(f)| + 2, fields[1..], Framing(frame, f.name, f.value));
    }
  }

  lemma {:induction false} FieldTextNotEmpty(f: Field)
    ensures |FieldText(f)| >= 2
  {
  }

  // ---------------------------------------------------------------------- first lines

  predicate BlankFree(x: bytes) {
    forall c :: c in x ==> c != ' ' && c != '\t'
  }

  /** A decimal numeral that fits into a long. */
  predicate LongNumeral(d: bytes) {
    Numeral(d, false) && Horner(d, false) <= LONG_MAX
  }

  lemma {:induction false} NumberNotSpace(n: NumberText)
    requires GoodNumber(n, false)
    ensures !AllSpace(NumberString(n)) && 0 < NumberEnd(n) && NumberEnd(n) + |n.rest| == |NumberString(n)|
    ensures NumberString(n)[NumberEnd(n)..] == n.rest
  {
    NumeralPlain(n.digits, false);
    var s, k := NumberString(n), NumberEnd(n) - |n.digits|;
    assert s[k] == n.digits[0] && n.digits[0] in n.digits;
  }

  /** A number at index e of the line. */
  lemma {:induction false} NumberAt(line: bytes, e: nat, n: NumberText)
    requires GoodNumber(n, false) && e <= |line| && line[e..] == NumberString(n)
    ensures !AllSpace(line[e..]) && Strtol(line[e..], false) == Clamped(SignedValue(n, false), NumberEnd(n))
    ensures 0 < NumberEnd(n) && e + NumberEnd(n) <= |line| && line[e + NumberEnd(n)..] == n.rest
  {
    hide Strtol, NumberString, NumberEnd, SignedValue, GoodNumber, AllSpace, Clamped;
    StrtolReads(n, false);
    NumberNotSpace(n);
    var k := NumberEnd(n);
    assert NumberString(n) == NumberString(n)[..k] + n.rest;
    Behind(line, e, NumberString(n)[..k], n.rest);
  }

  lemma {:induction false} DotAt(line: bytes, k: nat, rest: bytes)
    requires k <= |line| && line[k..] == ['.'] + rest
    ensures k < |line| && line[k] == '.' && line[k + 1..] == rest
  {
    assert line[k] == line[k..][0];
    Behind(line, k, ['.'], rest);
  }

  /** "major.minor" with any two numbers; a zero fails if errno is set, before or by a number out of range. */
  lemma {:induction false} VersionReads(cfg: Config, line: bytes, e: nat, major: NumberText, minor: NumberText)
    requires GoodNumber(major, false) && GoodNumber(minor, false)
    requires e <= |line| && line[e..] == NumberString(major) && major.rest == ['.'] + NumberString(minor)
    ensures var m := Clamped(SignedValue(major, false), 0);
            var n := Clamped(SignedValue(minor, false), 0);
            var errno := cfg.staleErrno || m.overflow;
            Version(cfg, line, e)
            == if ToInt32(m.value) == 0 && errno then VersionBad(BadMajor)
               else if ToInt32(n.value) == 0 && (errno || n.overflow) then VersionBad(BadMinor)
               else VersionOk(ToInt32(m.value), ToInt32(n.value), e + NumberEnd(major) + 1 + NumberEnd(minor),
                              errno || n.overflow)
    ensures e + NumberEnd(major) + 1 + NumberEnd(minor) <= |line|
    ensures line[e + NumberEnd(major) + 1 + NumberEnd(minor)..] == minor.rest
  {
    hide Strtol, ToInt32, NumberString, NumberEnd, SignedValue, GoodNumber, AllSpace;
    NumberAt(line, e, major);
    DotAt(line, e + NumberEnd(major), NumberString(minor));
    NumberAt(line, e + NumberEnd(major) + 1, minor);
  }

  /** A number that no dot follows is no version. */
  lemma {:induction false} VersionWithoutDot(cfg: Config, line: bytes, e: nat, major: NumberText)
    requires GoodNumber(major, false) && (major.rest == [] || major.rest[0] != '.')
    requires e <= |line| && line[e..] == NumberString(major)
    ensures var m := Clamped(SignedValue(major, false), 0);
            Version(cfg, line, e)
            == VersionBad(if ToInt32(m.value) == 0 && (cfg.staleErrno || m.overflow) then BadMajor else NoDot)
  {
    hide Strtol, ToInt32, NumberString, NumberEnd, SignedValue, GoodNumber, AllSpace;
    var dot := e + NumberEnd(major);
    NumberAt(line, e, major);
    assert dot < |line| ==> line[dot] == line[dot..][0];
  }

  /** Neither is a text without a number, unless strtol leaves errno alone and a dot is there at once. */
  lemma {:induction false} VersionWithoutNumber(cfg: Config, line: bytes, e: nat)
    requires e < |line| && line[e] != '.' && !AllSpace(line[e..])
    requires !exists n :: GoodNumber(n, false) && NumberString(n) == line[e..]
    ensures Version(cfg, line, e) == VersionBad(if cfg.staleErrno || cfg.einvalOnNoDigits then BadMajor else NoDot)
  {
    hide Strtol, AllSpace;
    StrtolExact(line[e..], false);
    ToInt32Small(0);
  }

  /** White space up to the end of the line: strtol reads on behind the line. */
  lemma {:induction false} MajorBlank(cfg: Config, line: bytes, e: nat)
    requires e <= |line| && forall k :: e <= k < |line| ==> IsSpace(line[k])
    ensures Version(cfg, line, e) == VersionUndefined
  {
  }

  /** The same for the minor number. */
  lemma {:induction false} MinorBlank(cfg: Config, line: bytes, e: nat, major: NumberText, space: bytes)
    requires GoodNumber(major, false) && major.rest == ['.'] + space && AllSpace(space)
    requires e <= |line| && line[e..] == NumberString(major)
    ensures var m := Clamped(SignedValue(major, false), 0);
            Version(cfg, line, e)
            == if ToInt32(m.value) == 0 && (cfg.staleErrno || m.overflow) then VersionBad(BadMajor)
               else VersionUndefined
  {
    hide Strtol, ToInt32, NumberString, NumberEnd, SignedValue, GoodNumber, AllSpace;
    NumberAt(line, e, major);
    DotAt(line, e + NumberEnd(major), space);
  }

  /** A number of nothing but digits. */
  function PlainNumber(d: bytes, rest: bytes): NumberText {
    NumberText([], [], [], d, rest)
  }

  lemma {:induction false} PlainNumberIsGood(d: bytes, rest: bytes)
    requires LongNumeral(d) && EndsDigits(rest, false)
    ensures var n := PlainNumber(d, rest);
            && GoodNumber(n, false) && NumberString(n) == d + rest && NumberEnd(n) == |d|
            && Clamped(SignedValue(n, false), 0) == Number(Horner(d, false), 0, false)
  {
    hide Horner;
  }

  /** "major.minor" with two plain numerals. */
  lemma {:induction false} NumeralsRead(cfg: Config, line: bytes, e: nat, major: bytes, minor: bytes, rest: bytes)
    requires e <= |line| && line[e..] == major + (['.'] + (minor + rest)) && EndsDigits(rest, false)
    requires LongNumeral(major) && LongNumeral(minor)
    ensures var m, n := ToInt32(Horner(major, false)), ToInt32(Horner(minor, false));
            Version(cfg, line, e)
            == if m == 0 && cfg.staleErrno then VersionBad(BadMajor)
               else if n == 0 && cfg.staleErrno then VersionBad(BadMinor)
               else VersionOk(m, n, e + |major| + 1 + |minor|, cfg.staleErrno)
    ensures e + |major| + 1 + |minor| <= |line| && line[e + |major| + 1 + |minor|..] == rest
  {
    hide Version, ToInt32, Horner, LongNumeral, NumberString, GoodNumber, SignedValue, Clamped, NumberEnd;
    var after := minor + rest;
    PlainNumberIsGood(minor, rest);
    PlainNumberIsGood(major, ['.'] + after);
    VersionReads(cfg, line, e, PlainNumber(major, ['.'] + after), PlainNumber(minor, rest));
  }

  predicate Blanks(x: bytes) {
    x != [] && Gap(x)
  }

  /** The shape of a request line: a token, blanks, a non-empty token, blanks, and a rest that is not blank. */
  datatype RequestShape = RequestShape(verb: bytes, gap1: bytes, uri: bytes, gap2: bytes, rest: bytes)

  predicate GoodShape(r: RequestShape) {
    && BlankFree(r.verb) && Blanks(r.gap1) && BlankFree(r.uri) && r.uri != [] && Blanks(r.gap2)
    && r.rest != [] && r.rest[0] != ' ' && r.rest[0] != '\t'
  }

  function ShapeTail(r: RequestShape): bytes {
    r.uri + (r.gap2 + r.rest)
  }

  function ShapeText(r: RequestShape): bytes {
    r.verb + (r.gap1 + ShapeTail(r))
  }

  /** A run of bytes in front of a byte of the other kind. */
  lemma {:induction false} RunEnds(line: bytes, i: nat, run: bytes, rest: bytes, blank: bool)
    requires i <= |line| && line[i..] == run + rest && rest != [] && IsBlank(rest[0]) != blank
    requires forall c :: c in run ==> IsBlank(c) == blank
    ensures blank ==> FirstNonBlank(line, i) == Some(i + |run|)
    ensures !blank ==> FirstBlank(line, i) == Some(i + |run|)
    ensures i + |run| <= |line| && line[i..i + |run|] == run && line[i + |run|..] == rest
  {
    var t := line[i..];
    assert forall k :: i <= k < i + |run| ==> line[k] == t[k - i] && t[k - i] == run[k - i] && run[k - i] in run;
    assert line[i + |run|] == t[|run|] == rest[0];
    assert line[i + |run|..] == t[|run|..] == rest;
  }

  /** A token and blanks, in front of a byte that is not blank. */
  lemma {:induction false} TokenScans(line: bytes, i: nat, token: bytes, gap: bytes, rest: bytes)
    requires i <= |line| && line[i..] == token + (gap + rest)
    requires BlankFree(token) && Blanks(gap) && rest != [] && !IsBlank(rest[0])
    ensures FirstBlank(line, i) == Some(i + |token|)
    ensures FirstNonBlank(line, i + |token|) == Some(i + |token| + |gap|)
    ensures i + |token| + |gap| <= |line| && line[i..i + |token|] == token && line[i + |token| + |gap|..] == rest
  {
    hide FirstBlank, FirstNonBlank;
    var tail := gap + rest;
    assert tail[0] == gap[0] && gap[0] in gap;
    RunEnds(line, i, token, tail, false);
    RunEnds(line, i + |token|, gap, rest, true);
  }

  lemma {:induction false} TailNotBlank(r: RequestShape)
    requires GoodShape(r)
    ensures ShapeTail(r) != [] && !IsBlank(ShapeTail(r)[0])
  {
    assert ShapeTail(r)[0] == r.uri[0] && r.uri[0] in r.uri;
  }

  /** The four scans of parse_request_line find the four borders of the shape. */
  lemma {:induction false} ShapeScans(r: RequestShape, line: bytes, b: nat)
    requires GoodShape(r) && line == ShapeText(r) && b == |r.verb| + |r.gap1|
    ensures FirstBlank(line, 0) == Some(|r.verb|) && FirstNonBlank(line, |r.verb|) == Some(b)
    ensures b <= |line| && line[..|r.verb|] == r.verb && line[b..] == ShapeTail(r)
  {
    hide FirstBlank, FirstNonBlank, Blanks, ShapeTail;
    TailNotBlank(r);
    assert line[0..] == line;
    TokenScans(line, 0, r.verb, r.gap1, ShapeTail(r));
    assert line[0..|r.verb|] == line[..|r.verb|];
  }

  /** "HTTP/", in any case. */
  predicate SaysHttp(rest: bytes) {
    |rest| >= 5 && SameNoCase(rest[..5], "HTTP/")
  }

  /** What the rest of the line, from "HTTP/" on, makes of it. */
  function RestOfRequest(cfg: Config, verb: bytes, uri: bytes, rest: bytes): LineResult {
    if !SaysHttp(rest) then LineBad(NotHttp)
    else
      match Version(cfg, rest, 5)
      case VersionBad(e) => LineBad(e)
      case VersionUndefined => LineUndefined
      case VersionOk(major, minor, _, _) => LineOk(StartLine(MethodOf(verb), Some(uri), major, minor))
  }

  lemma {:induction false} HttpLocal(line: bytes, d: nat, rest: bytes)
    requires d <= |line| && line[d..] == rest
    ensures HttpAt(line, d) <==> SaysHttp(rest)
  {
    hide SameNoCase;
    if d + 5 <= |line| {
      assert line[d..d + 5] == rest[..5];
    }
  }

  /** The version is read from the rest of the line alone. */
  lemma {:induction false} VersionLocal(cfg: Config, line: bytes, d: nat, rest: bytes)
    requires d <= |line| && line[d..] == rest && 5 <= |rest|
    ensures match Version(cfg, rest, 5)
            case VersionBad(e) => Version(cfg, line, d + 5) == VersionBad(e)
            case VersionUndefined => Version(cfg, line, d + 5) == VersionUndefined
            case VersionOk(major, minor, end, errno) =>
              Version(cfg, line, d + 5) == VersionOk(major, minor, d + end, errno)
  {
    hide Strtol, ToInt32, ErrnoAfter;
    assert line[d + 5..] == rest[5..];
    var dot := 5 + Strtol(rest[5..], false).end;
    if dot < |rest| {
      assert line[d + dot] == line[d..][dot] == rest[dot];
      assert line[d + dot + 1..] == rest[dot + 1..];
    }
  }

  /** A line of the shape is read by its parts, with any blanks, any case of "HTTP/" and any version. */
  lemma {:induction false} ShapeReads(cfg: Config, r: RequestShape)
    requires GoodShape(r)
    ensures RequestLine(cfg, ShapeText(r)) == RestOfRequest(cfg, r.verb, r.uri, r.rest)
  {
    hide MethodOf, Version, FirstBlank, FirstNonBlank, ShapeText, HttpAt, SaysHttp, Blanks, BlankFree;
    var line := ShapeText(r);
    var b := |r.verb| + |r.gap1|;
    var d := b + |r.uri| + |r.gap2|;
    ShapeScans(r, line, b);
    TokenScans(line, b, r.uri, r.gap2, r.rest);
    HttpLocal(line, d, r.rest);
    if SaysHttp(r.rest) {
      VersionLocal(cfg, line, d, r.rest);
    }
  }

  /** A line on which the four scans succeed has the shape. */
  lemma {:induction false} ScannedHasShape(line: bytes) returns (r: RequestShape)
    requires FirstBlank(line, 0).Some? && FirstNonBlank(line, FirstBlank(line, 0).value).Some?
    requires FirstBlank(line, FirstNonBlank(line, FirstBlank(line, 0).value).value).Some?
    requires FirstNonBlank(line, FirstBlank(line, FirstNonBlank(line, FirstBlank(line, 0).value).value).value).Some?
    ensures GoodShape(r) && ShapeText(r) == line
  {
    hide FirstBlank, FirstNonBlank, GoodShape, ShapeText;
    var a := FirstBlank(line, 0).value;
    var b := FirstNonBlank(line, a).value;
    var c := FirstBlank(line, b).value;
    var d := FirstNonBlank(line, c).value;
    r := RequestShape(line[..a], line[a..b], line[b..c], line[c..d], line[d..]);
    ScannedIsGood(line, a, b, c, d);
    ScannedText(line, a, b, c, d);
  }

  lemma {:induction false} ScannedIsGood(line: bytes, a: nat, b: nat, c: nat, d: nat)
    requires FirstBlank(line, 0) == Some(a) && FirstNonBlank(line, a) == Some(b)
    requires FirstBlank(line, b) == Some(c) && FirstNonBlank(line, c) == Some(d)
    ensures a < b < c < d < |line|
    ensures GoodShape(RequestShape(line[..a], line[a..b], line[b..c], line[c..d], line[d..]))
  {
    hide FirstBlank, FirstNonBlank;
    assert line[d..][0] == line[d];
  }

  lemma {:induction false} ScannedText(line: bytes, a: nat, b: nat, c: nat, d: nat)
    requires a < b < c < d < |line|
    ensures ShapeText(RequestShape(line[..a], line[a..b], line[b..c], line[c..d], line[d..])) == line
  {
    assert line[c..d] + line[d..] == line[c..];
    assert line[b..c] + line[c..] == line[b..];
    assert line[a..b] + line[b..] == line[a..];
    assert line[..a] + line[a..] == line;
  }

  /**
   The request-line grammar, exactly: the parser complains about the syntax if and
   only if the line does not have the shape, and reads every line that has it by
   its parts.
   */
  lemma {:induction false} RequestLineExact(cfg: Config, line: bytes)
    ensures RequestLine(cfg, line) == LineBad(LineSyntax) <==> !exists r :: GoodShape(r) && ShapeText(r) == line
    ensures forall r :: GoodShape(r) && ShapeText(r) == line ==>
              && RequestLine(cfg, line) == RestOfRequest(cfg, r.verb, r.uri, r.rest)
              && (RequestLine(cfg, line) == LineBad(NotHttp) <==> !SaysHttp(r.rest))
  {
    hide MethodOf, GoodShape, ShapeText, HttpAt, FirstBlank, FirstNonBlank, SaysHttp, RestOfRequest;
    forall r | GoodShape(r) && ShapeText(r) == line
      ensures RequestLine(cfg, line) == RestOfRequest(cfg, r.verb, r.uri, r.rest) != LineBad(LineSyntax)
      ensures RequestLine(cfg, line) == LineBad(NotHttp) <==> !SaysHttp(r.rest)
    {
      ShapeReads(cfg, r);
      RestIsNoSyntax(cfg, r);
    }
    if RequestLine(cfg, line) != LineBad(LineSyntax) {
      var r := ScannedHasShape(line);
    }
  }

  lemma {:induction false} RestIsNoSyntax(cfg: Config, r: RequestShape)
    ensures RestOfRequest(cfg, r.verb, r.uri, r.rest) != LineBad(LineSyntax)
    ensures RestOfRequest(cfg, r.verb, r.uri, r.rest) == LineBad(NotHttp) <==> !SaysHttp(r.rest)
  {
    hide MethodOf, SaysHttp, Strtol, ToInt32, AllSpace, ErrnoAfter;
  }

  /** The request line of any blank-free method token and any non-empty blank-free URI. */
  lemma {:induction false} RequestLineReads(cfg: Config, verb: bytes, uri: bytes)
    requires BlankFree(verb) && BlankFree(uri) && uri != []
    ensures RequestLine(cfg, RequestText(verb, uri)) == LineOk(StartLine(MethodOf(verb), Some(uri), 1, 1))
  {
    hide MethodOf, Version, RequestLine;
    var rest: bytes := "HTTP/1.1";
    var r := RequestShape(verb, [' '], uri, [' '], rest);
    assert ShapeText(r) == RequestText(verb, uri);
    ShapeReads(cfg, r);
    assert rest[0..] == "HTTP/1.1" + [];
    HttpReads(cfg, rest, 0, []);
    HttpLocal(rest, 0, rest);
  }

  /**
   A request line by its parts: any blanks between them, "HTTP/" in any case, any
   two version numbers, and anything behind them.
   */
  lemma {:induction false} RequestFormReads(cfg: Config, verb: bytes, gap1: bytes, uri: bytes, gap2: bytes,
                                            http: bytes, major: bytes, minor: bytes, tail: bytes)
    requires BlankFree(verb) && BlankFree(uri) && uri != [] && Blanks(gap1) && Blanks(gap2)
    requires SameNoCase(http, "HTTP/") && LongNumeral(major) && LongNumeral(minor) && EndsDigits(tail, false)
    ensures var line := verb + (gap1 + (uri + (gap2 + (http + (major + (['.'] + (minor + tail)))))));
            var m, n := ToInt32(Horner(major, false)), ToInt32(Horner(minor, false));
            RequestLine(cfg, line)
            == if m == 0 && cfg.staleErrno then LineBad(BadMajor)
               else if n == 0 && cfg.staleErrno then LineBad(BadMinor)
               else LineOk(StartLine(MethodOf(verb), Some(uri), m, n))
  {
    hide MethodOf, Version, RequestLine, ToInt32, Horner, LongNumeral, Blanks, BlankFree, EndsDigits, SaysHttp;
    var version := major + (['.'] + (minor + tail));
    var r := RequestShape(verb, gap1, uri, gap2, http + version);
    HttpStarts(http, version);
    ShapeReads(cfg, r);
    NumeralsRead(cfg, http + version, 5, major, minor, tail);
  }

  lemma {:induction false} HttpStarts(http: bytes, version: bytes)
    requires SameNoCase(http, "HTTP/")
    ensures var rest := http + version;
            SaysHttp(rest) && rest[0] != ' ' && rest[0] != '\t' && rest[5..] == version
  {
    var rest := http + version;
    assert Lower(http[0]) == 'h' && rest[0] == http[0];
    assert rest[..5] == http;
  }

  lemma {:induction false} HttpReads(cfg: Config, line: bytes, d: nat, rest: bytes)
    requires d <= |line| && line[d..] == "HTTP/1.1" + rest && EndsDigits(rest, false)
    ensures HttpAt(line, d)
    ensures Version(cfg, line, d + 5) == VersionOk(1, 1, d + 8, cfg.staleErrno)
  {
    hide Version;
    var one: bytes := "1";
    assert Digits(1, false) == one;
    DigitsAreNumeral(1, false);
    ToInt32Small(1);
    assert line[d..d + 5] == line[d..][..5] == "HTTP/";
    assert line[d + 5..] == line[d..][5..] == one + (['.'] + (one + rest));
    NumeralsRead(cfg, line, d + 5, one, one, rest);
  }

  /**
   The shape of a status line, section 6.1 of RFC 2616 and somewhat more: blanks,
   "HTTP/" in any case, two numerals with a dot, blanks, a code and whatever follows.
   */
  datatype StatusShape = StatusShape(lead: bytes, http: bytes, major: bytes, minor: bytes,
                                     gap: bytes, sign: bytes, code: bytes, tail: bytes)

  predicate GoodStatus(r: StatusShape) {
    && (r.lead == [] || Blanks(r.lead)) && SameNoCase(r.http, "HTTP/") && Blanks(r.gap)
    && LongNumeral(r.major) && LongNumeral(r.minor) && LongNumeral(r.code)
    && (r.sign == [] || r.sign == ['-']) && EndsDigits(r.tail, false)
  }

  function CodeText(r: StatusShape): bytes {
    r.sign + r.code + r.tail
  }

  function VersionText(r: StatusShape): bytes {
    r.major + (['.'] + (r.minor + (r.gap + CodeText(r))))
  }

  function StatusShapeText(r: StatusShape): bytes {
    r.lead + (r.http + VersionText(r))
  }

  /** The status code, as an int. */
  function CodeValue(r: StatusShape): int {
    var n: int := Horner(r.code, false);
    ToInt32(if r.sign == [] then n else 0 - n)
  }

  lemma {:induction false} CodeNotBlank(r: StatusShape)
    requires GoodStatus(r)
    ensures CodeText(r) != [] && !IsSpace(CodeText(r)[0])
  {
    NumeralPlain(r.code, false);
    assert CodeText(r)[0] == if r.sign == [] then r.code[0] else '-';
    assert r.code[0] in r.code;
  }

  /** The line behind its version. */
  lemma {:induction false} CodeReads(cfg: Config, r: StatusShape, line: bytes, end: nat)
    requires GoodStatus(r) && end <= |line| && line[end..] == r.gap + CodeText(r)
    ensures FirstNonBlank(line, end) == Some(end + |r.gap|) && end + |r.gap| <= |line|
    ensures !AllSpace(line[end + |r.gap|..])
    ensures ToInt32(Strtol(line[end + |r.gap|..], false).value) == CodeValue(r)
    ensures ErrnoAfter(cfg, cfg.staleErrno, Strtol(line[end + |r.gap|..], false)) == cfg.staleErrno
  {
    hide Strtol, ToInt32, Horner, EndsDigits, FirstNonBlank;
    CodeNotBlank(r);
    RunEnds(line, end, r.gap, CodeText(r), true);
    StrtolSigned(r.sign, r.code, Horner(r.code, false), r.tail, false);
  }

  lemma {:induction false} StatusStarts(r: StatusShape, line: bytes)
    requires GoodStatus(r) && line == StatusShapeText(r)
    ensures FirstNonBlank(line, 0) == Some(|r.lead|) && HttpAt(line, |r.lead|)
    ensures line[|r.lead| + 5..] == r.major + (['.'] + (r.minor + (r.gap + CodeText(r))))
    ensures EndsDigits(r.gap + CodeText(r), false) && LongNumeral(r.major) && LongNumeral(r.minor)
  {
    hide FirstNonBlank, Numeral, Horner, CodeText;
    var d := |r.lead|;
    var after := r.http + VersionText(r);
    assert Lower(r.http[0]) == 'h' && after[0] == r.http[0];
    assert line[0..] == line;
    RunEnds(line, 0, r.lead, after, true);
    assert line[d..d + 5] == after[..5] == r.http;
    assert line[d + 5..] == after[5..] == VersionText(r);
    assert (r.gap + CodeText(r))[0] == r.gap[0] && r.gap[0] in r.gap;
  }

  /** A status line of the shape is read by its parts. */
  lemma {:induction false} StatusShapeReads(cfg: Config, r: StatusShape)
    requires GoodStatus(r)
    ensures StatusLine(cfg, StatusShapeText(r))
            == (var m, n := ToInt32(Horner(r.major, false)), ToInt32(Horner(r.minor, false));
                if m == 0 && cfg.staleErrno then LineBad(BadMajor)
                else if n == 0 && cfg.staleErrno then LineBad(BadMinor)
                else if CodeValue(r) == 0 && cfg.staleErrno then LineBad(BadStatus)
                else LineOk(StartLine(CodeValue(r), None, m, n)))
  {
    hide StatusShapeText, GoodStatus, CodeText, Strtol, ToInt32, Horner, Version, FirstNonBlank, LongNumeral;
    hide AllSpace, HttpAt, ErrnoAfter, CodeValue, EndsDigits;
    var line := StatusShapeText(r);
    var d := |r.lead|;
    StatusStarts(r, line);
    NumeralsRead(cfg, line, d + 5, r.major, r.minor, r.gap + CodeText(r));
    CodeReads(cfg, r, line, d + 5 + |r.major| + 1 + |r.minor|);
  }

  /**
   When the parser complains that a status line is blank, and when that it is no
   HTTP line; blanks in front never matter.
   */
  lemma {:induction false} StatusLineExact(cfg: Config, lead: bytes, rest: bytes)
    requires Gap(lead) && (rest == [] || (rest[0] != ' ' && rest[0] != '\t'))
    ensures StatusLine(cfg, lead + rest) == LineBad(LineSyntax) <==> rest == []
    ensures StatusLine(cfg, lead + rest) == LineBad(NotHttp) <==> rest != [] && !SaysHttp(rest)
    ensures SaysHttp(rest) && Version(cfg, rest, 5).VersionBad? ==>
              StatusLine(cfg, lead + rest) == LineBad(Version(cfg, rest, 5).error)
  {
    hide Strtol, ToInt32, FirstNonBlank, AllSpace, ErrnoAfter, HttpAt, SameNoCase, Gap, Version;
    var line := lead + rest;
    assert line[0..] == line;
    GapEndsAt(line, 0, lead, rest);
    if rest != [] {
      HttpLocal(line, |lead|, rest);
      if SaysHttp(rest) {
        VersionLocal(cfg, line, |lead|, rest);
        VersionErrors(cfg, rest);
      }
    }
  }

  lemma {:induction false} VersionErrors(cfg: Config, rest: bytes)
    requires |rest| >= 5
    ensures Version(cfg, rest, 5) != VersionBad(LineSyntax) && Version(cfg, rest, 5) != VersionBad(NotHttp)
  {
    hide Strtol, ToInt32, AllSpace, ErrnoAfter;
  }

  /** Nothing but blanks behind the version: the status is missing. */
  lemma {:induction false} StatusMissing(cfg: Config, lead: bytes, http: bytes, major: bytes, minor: bytes, gap: bytes)
    requires Gap(lead) && Gap(gap) && SameNoCase(http, "HTTP/") && LongNumeral(major) && LongNumeral(minor)
    requires !cfg.staleErrno
    ensures StatusLine(cfg, lead + (http + (major + (['.'] + (minor + gap))))) == LineBad(NoStatus)
  {
    hide Version, ToInt32, Horner, LongNumeral, FirstNonBlank, SaysHttp, HttpAt, SameNoCase, Gap, AllSpace, Strtol;
    var version := major + (['.'] + (minor + gap));
    var line, d := lead + (http + version), |lead|;
    assert |http| == 5 by { HttpLength(http); }
    HttpStarts(http, version);
    assert line[0..] == line;
    GapEndsAt(line, 0, lead, http + version);
    HttpLocal(line, d, http + version);
    Behind(line, d, http, version);
    GapEnds(gap);
    NumeralsRead(cfg, line, d + 5, major, minor, gap);
    NoneLeft(line, d + 5 + |major| + 1 + |minor|, gap);
  }

  lemma {:induction false} HttpLength(http: bytes)
    requires SameNoCase(http, "HTTP/")
    ensures |http| == 5
  {
  }

  lemma {:induction false} GapEnds(gap: bytes)
    requires Gap(gap)
    ensures EndsDigits(gap, false)
  {
    if gap != [] {
      assert gap[0] in gap;
    }
  }

  lemma {:induction false} NoneLeft(line: bytes, end: nat, gap: bytes)
    requires Gap(gap) && end <= |line| && line[end..] == gap
    ensures FirstNonBlank(line, end).None?
  {
    assert forall k :: end <= k < |line| ==> line[k] == gap[k - end] && gap[k - end] in gap;
  }

  /** The status line of any int code and any phrase; code 0 needs a clean errno. */
  lemma {:induction false} StatusLineReads(cfg: Config, code: int, phrase: bytes)
    requires -INT_MAX - 1 <= code <= INT_MAX
    ensures StatusLine(cfg, StatusText(code, phrase))
            == if code == 0 && cfg.staleErrno then LineBad(BadStatus) else LineOk(StartLine(code, None, 1, 1))
  {
    hide StatusLine, Horner, Digits, StatusShapeText, StatusText, GoodStatus, ToInt32;
    var m := if code < 0 then -code else code;
    var r := WrittenStatus(code, phrase);
    WrittenStatusIsGood(code, phrase);
    OneDigit();
    DigitsAreNumeral(1, false);
    DigitsAreNumeral(m, false);
    ToInt32Small(1);
    ToInt32Small(code);
    StatusShapeReads(cfg, r);
  }

  /** The parts of a written status line. */
  function WrittenStatus(code: int, phrase: bytes): StatusShape {
    var sign: bytes := if code < 0 then ['-'] else [];
    StatusShape([], "HTTP/", "1", "1", [' '], sign, Digits(if code < 0 then -code else code, false), [' '] + phrase)
  }

  lemma {:induction false} WrittenStatusIsGood(code: int, phrase: bytes)
    requires -INT_MAX - 1 <= code <= INT_MAX
    ensures GoodStatus(WrittenStatus(code, phrase))
    ensures StatusShapeText(WrittenStatus(code, phrase)) == StatusText(code, phrase)
  {
    hide Horner, Digits, StatusShapeText, StatusText;
    OneDigit();
    DigitsAreNumeral(1, false);
    DigitsAreNumeral(if code < 0 then -code else code, false);
    WrittenStatusText(code, phrase);
  }

  lemma {:induction false} WrittenStatusText(code: int, phrase: bytes)
    ensures StatusShapeText(WrittenStatus(code, phrase)) == StatusText(code, phrase)
  {
    hide Digits;
    var r := WrittenStatus(code, phrase);
    var x := CodeText(r);
    assert r.sign + r.code == Decimal(code);
    assert x == Decimal(code) + ([' '] + phrase);
    VersionSpelled(x);
    assert [] + (r.http + VersionText(r)) == r.http + VersionText(r);
  }

  lemma {:induction false} VersionSpelled(x: bytes)
    ensures "HTTP/" + ("1" + (['.'] + ("1" + ([' '] + x)))) == "HTTP/1.1 " + x
  {
  }

  lemma {:induction false} OneDigit()
    ensures Digits(1, false) == "1"
  {
  }

  /** The eight methods that parse_method knows, with their codes. */
  predicate Recognised(verb: bytes, code: int) {
    || (verb == "GET" && code == MGET) || (verb == "HEAD" && code == MHEAD)
    || (verb == "POST" && code == MPOST) || (verb == "PUT" && code == MPUT)
    || (verb == "DELETE" && code == MDELETE) || (verb == "OPTIONS" && code == MOPTIONS)
    || (verb == "CONNECT" && code == MCONNECT) || (verb == "TRACE" && code == MTRACE)
  }

  /** strncasecmp over the length of a NUL-free token: the token is a prefix of the name, in any case. */
  lemma {:induction false} PrefixNoCaseTaken(token: bytes, name: bytes)
    requires NUL !in token
    ensures PrefixNoCase(token, name) <==>
            |token| <= |name| && forall k :: 0 <= k < |token| ==> Lower(token[k]) == Lower(name[k])
  {
    CStringWhole(token);
  }

  lemma {:induction false} OtherInitial(verb: bytes, name: bytes)
    requires verb != [] && name != [] && NUL !in verb && Lower(verb[0]) != Lower(name[0])
    ensures !PrefixNoCase(verb, name)
  {
    PrefixNoCaseTaken(verb, name);
  }

  /** Every recognised method keeps its identity. */
  lemma {:induction false} MethodReads(verb: bytes, code: int)
    requires Recognised(verb, code)
    ensures MethodOf(verb) == code && BlankFree(verb) && Unbroken(verb)
  {
    hide PrefixNoCase;
    PrefixNoCaseTaken(verb, verb);
    if verb[0] != 'G' { OtherInitial(verb, "GET"); }
    if verb[0] != 'H' { OtherInitial(verb, "HEAD"); }
    if verb[0] != 'P' { OtherInitial(verb, "POST"); OtherInitial(verb, "PUT"); }
    if verb[0] != 'D' { OtherInitial(verb, "DELETE"); }
    if verb[0] != 'O' { OtherInitial(verb, "OPTIONS"); }
    if verb[0] != 'C' { OtherInitial(verb, "CONNECT"); }
    if verb == "PUT" {
      PrefixNoCaseTaken(verb, "POST");
      assert Lower(verb[1]) != Lower("POST"[1]);
    }
  }

  /** The names that parse_method knows, in the order in which it tries them. */
  function MethodName(k: nat): bytes
    requires k < 8
  {
    match k
    case 0 => "GET" case 1 => "HEAD" case 2 => "POST" case 3 => "PUT"
    case 4 => "DELETE" case 5 => "OPTIONS" case 6 => "CONNECT" case 7 => "TRACE"
  }

  /** Their codes in the header file; 10 stands for any other method. */
  function MethodCode(k: nat): int
    requires k < 8
  {
    match k
    case 0 => 2 case 1 => 3 case 2 => 4 case 3 => 5
    case 4 => 6 case 5 => 1 case 6 => 8 case 7 => 7
  }

  /** The code of the name that the token spells out, in any case; an extension if it spells none. */
  function Spelled(token: bytes, k: nat := 0): int
    requires k <= 8
    decreases 8 - k
  {
    if k == 8 then 10
    else if SameNoCase(token, MethodName(k)) then MethodCode(k)
    else Spelled(token, k + 1)
  }

  /** The token is shorter than the name and agrees with it as far as it goes. */
  predicate Shortens(token: bytes, name: bytes) {
    |token| < |name| && forall k :: 0 <= k < |token| ==> Lower(token[k]) == Lower(name[k])
  }

  predicate Abbreviates(token: bytes) {
    exists k: nat | k < 8 :: Shortens(token, MethodName(k))
  }

  /** strncasecmp over the length of the token: the token spells the name out, or is short of it. */
  lemma {:induction false} PrefixNoCaseExact(token: bytes, name: bytes)
    ensures PrefixNoCase(token, name) <==>
            SameNoCase(CString(token), name) || (NUL !in token && Shortens(token, name))
  {
    if NUL !in token {
      CStringWhole(token);
    }
  }

  /** No method name shortens another. */
  lemma {:induction false} NamesApart(j: nat, k: nat)
    requires j < 8 && k < 8 && j != k
    ensures |MethodName(j)| >= 2 && |MethodName(k)| >= 2
    ensures Lower(MethodName(j)[0]) != Lower(MethodName(k)[0]) || Lower(MethodName(j)[1]) != Lower(MethodName(k)[1])
  {
  }

  lemma {:induction false} ShortSpellsNothing(token: bytes, k: nat, j: nat)
    requires k < 8 && j <= 8 && Shortens(token, MethodName(k))
    ensures Spelled(token, j) == MEXT
    decreases 8 - j
  {
    hide MethodName;
    if j < 8 {
      if j != k {
        NamesApart(j, k);
      }
      ShortSpellsNothing(token, k, j + 1);
    }
  }

  /** The code of the first name that the token passes for. */
  function Matched(token: bytes, k: nat := 0): int
    requires k <= 8
    decreases 8 - k
  {
    if k == 8 then MEXT
    else if PrefixNoCase(token, MethodName(k)) then MethodCode(k)
    else Matched(token, k + 1)
  }

  lemma {:induction false} MethodIsMatched(token: bytes)
    ensures MethodOf(token) == Matched(token)
  {
    hide PrefixNoCase;
    assert Matched(token, 8) == MEXT;
    assert Matched(token, 6) == if PrefixNoCase(token, "CONNECT") then MCONNECT
                                else if PrefixNoCase(token, "TRACE") then MTRACE else MEXT;
    assert Matched(token, 4) == if PrefixNoCase(token, "DELETE") then MDELETE
                                else if PrefixNoCase(token, "OPTIONS") then MOPTIONS else Matched(token, 6);
    assert Matched(token, 2) == if PrefixNoCase(token, "POST") then MPOST
                                else if PrefixNoCase(token, "PUT") then MPUT else Matched(token, 4);
  }

  lemma {:induction false} MatchedSpells(token: bytes, k: nat)
    requires k <= 8 && (NUL in token || !Abbreviates(token))
    ensures Matched(token, k) == Spelled(CString(token), k)
    decreases 8 - k
  {
    hide PrefixNoCase, SameNoCase, MethodName, MethodCode, Shortens;
    if k < 8 {
      PrefixNoCaseExact(token, MethodName(k));
      MatchedSpells(token, k + 1);
    }
  }

  lemma {:induction false} MatchedShort(token: bytes, k: nat, j: nat)
    requires j <= k < 8 && PrefixNoCase(token, MethodName(k))
    ensures Matched(token, j) != MEXT
    decreases k - j
  {
    hide PrefixNoCase, MethodName;
    if j < k {
      MatchedShort(token, k, j + 1);
    }
  }

  /**
   parse_method compares over the length of the token.  It therefore gives the code
   of the name that the token spells if and only if the token is no abbreviation;
   behind a NUL, up to which the name must be whole, nothing counts.
   */
  lemma {:induction false} MethodExact(token: bytes)
    ensures MethodOf(token) == Spelled(CString(token)) <==> NUL in token || !Abbreviates(token)
    ensures NUL !in token && Abbreviates(token) ==> MethodOf(token) != MEXT == Spelled(token)
  {
    hide PrefixNoCase, SameNoCase, MethodName, MethodCode, Shortens, MethodOf;
    MethodIsMatched(token);
    if NUL in token || !Abbreviates(token) {
      MatchedSpells(token, 0);
    } else {
      CStringWhole(token);
      var k: nat :| k < 8 && Shortens(token, MethodName(k));
      ShortSpellsNothing(token, k, 0);
      PrefixNoCaseExact(token, MethodName(k));
      MatchedShort(token, k, 0);
    }
  }

  /**
   Two inputs: the empty token is GET (the test for an empty token comes too late),
   and PATCH, although it has a code of its own in the header file, is an extension.
   */
  lemma {:induction false} MethodSurprises()
    ensures MethodOf([]) == MGET && Abbreviates([])
    ensures MethodOf("PATCH") == MEXT && !Abbreviates("PATCH")
  {
    hide MethodOf;
    var patch: bytes := "PATCH";
    assert MethodOf([]) == MGET by { EmptyIsGet(); }
    assert Shortens([], MethodName(0));
    forall k: nat | k < 8
      ensures !Shortens(patch, MethodName(k)) && !SameNoCase(patch, MethodName(k))
    {
      PatchIsUnknown(patch, k);
    }
    MethodExact(patch);
    CStringWhole(patch);
    SpelledNothing(patch, 0);
  }

  lemma {:induction false} EmptyIsGet()
    ensures MethodOf([]) == MGET
  {
  }

  lemma {:induction false} PatchIsUnknown(patch: bytes, k: nat)
    requires patch == "PATCH" && k < 8
    ensures !Shortens(patch, MethodName(k)) && !SameNoCase(patch, MethodName(k))
  {
    var name := MethodName(k);
    assert Lower(patch[0]) != Lower(name[0]) || Lower(patch[1]) != Lower(name[1]);
  }

  lemma {:induction false} SpelledNothing(token: bytes, j: nat)
    requires j <= 8 && forall k: nat | k < 8 :: !SameNoCase(token, MethodName(k))
    ensures Spelled(token, j) == MEXT
    decreases 8 - j
  {
    hide SameNoCase, MethodName;
    if j < 8 {
      SpelledNothing(token, j + 1);
    }
  }

  /** Content-Length, in any case, with a decimal number declares that length. */
  lemma {:induction false} ContentLengthDeclares(frame: Frame, name: bytes, n: nat)
    requires NUL !in name && SameNoCase(name, "content-length") && n <= INT_MAX
    ensures Framing(frame, name, Decimal(n)) == frame.(bodysz := n)
  {
    hide Strtol, ToInt32, Decimal;
    DecimalPlain(n);
    CStringWhole(Decimal(n));
    assert Decimal(n) + [] == Decimal(n);
    StrtolDecimal(n, []);
    ToInt32Small(n);
    CStringWhole(name);
  }

  /** Any value: the number it starts with, saturated to a long and narrowed to an int, or 0 without one. */
  lemma {:induction false} ContentLengthReads(frame: Frame, name: bytes, n: NumberText)
    requires SameNoCase(CString(name), "content-length") && GoodNumber(n, false) && NUL !in NumberString(n)
    ensures Framing(frame, name, NumberString(n)) == frame.(bodysz := ToInt32(Clamped(SignedValue(n, false), 0).value))
  {
    hide Strtol, ToInt32, NumberString, SignedValue, CString;
    CStringWhole(NumberString(n));
    StrtolReads(n, false);
  }

  lemma {:induction false} ContentLengthWithoutNumber(frame: Frame, name: bytes, value: bytes)
    requires SameNoCase(CString(name), "content-length")
    requires !exists n :: GoodNumber(n, false) && NumberString(n) == CString(value)
    ensures Framing(frame, name, value) == frame.(bodysz := 0)
  {
    hide Strtol, CString;
    StrtolExact(CString(value), false);
    ToInt32Small(0);
  }

  lemma {:induction false} LengthNameIsPlain(name: bytes)
    requires SameNoCase(name, "content-length")
    ensures forall c :: c in name ==> c != ':' && c != '\r' && c != '\n'
  {
    var lower: bytes := "content-length";
    forall c | c in name
      ensures c != ':' && c != '\r' && c != '\n'
    {
      var k :| 0 <= k < |name| && name[k] == c;
      assert 'a' <= lower[k] <= 'z' || lower[k] == '-';
    }
  }

  /** The usual header field for a length, in any case, is clean. */
  lemma {:induction false} LengthFieldIsClean(name: bytes, n: nat)
    requires SameNoCase(name, "content-length")
    ensures Plain(Field(name, Decimal(n))) && Unbroken(FieldText(Field(name, Decimal(n))))
  {
    hide Decimal, SameNoCase;
    var d := Decimal(n);
    LengthNameIsPlain(name);
    DecimalPlain(n);
    assert d[0] in d;
    var x := FieldText(Field(name, d));
    forall k | 0 <= k < |x|
      ensures !CrlfAt(x, k)
    {
      if k < |name| {
        assert x[k] == name[k] && name[k] in name;
      } else if k >= |name| + 2 {
        assert x[k] == d[k - |name| - 2] && d[k - |name| - 2] in d;
      }
    }
  }
}
