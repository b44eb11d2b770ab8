/**
 The wrapping loop of mncommand_ctx_format_help: a description is printed in pieces
 of at most 53 characters, broken at the last blank that fits or, inside a word,
 with a dash.
 */
module HelpText {
  import opened Bytes
  import KeyValue

  const SPECW := 24
  const LINEW := 78
  /** sizeof(buf). */
  const BUFSZ := LINEW - SPECW + 1
  /** A piece leaves room for a dash and the terminator. */
  const WIDTH := BUFSZ - 2
  const INDENT: bytes := "                        "

  predicate IsAlnum(c: byte) {
    '0' <= c <= '9' || 'a' <= c <= 'z' || 'A' <= c <= 'Z'
  }

  /** s[k] of a C string: the terminator behind the last character. */
  function At(s: bytes, k: nat): byte {
    if k < |s| then s[k] else NUL
  }

  /** The last blank of the line that starts at k, at an offset of at most n, or 0. */
  function LastBlank(s: bytes, k: nat, n: nat): (r: nat)
    ensures r <= n && (r > 0 ==> IsSpace(At(s, k + r))) && forall j :: k + r < j <= k + n ==> !IsSpace(At(s, j))
  {
    if n == 0 then 0 else if IsSpace(At(s, k + n)) then n else LastBlank(s, k, n - 1)
  }

  /** How far the line that starts at k reaches: to the end, to its last blank, or the full width. */
  function Reach(s: bytes, k: nat): (n: nat)
    requires k <= |s|
    ensures n <= WIDTH && k + n <= |s| && (k < |s| ==> n > 0)
  {
    if |s| - k < WIDTH then |s| - k
    else if LastBlank(s, k, WIDTH) > 0 then LastBlank(s, k, WIDTH)
    else WIDTH
  }

  /**
   Where a line that starts at k should end: a short rest is one line; otherwise the
   break is at the last blank within the width, and inside a word only if no blank
   fits.
   */
  predicate GoodBreak(s: bytes, k: nat, n: nat) {
    if |s| < k + 53 then k + n == |s|
    else if exists j :: k < j <= k + 53 && IsSpace(At(s, j)) then
      0 < n <= 53 && IsSpace(At(s, k + n)) && forall j :: k + n < j <= k + 53 ==> !IsSpace(At(s, j))
    else n == 53
  }

  lemma {:induction false} ReachBreaks(s: bytes, k: nat)
    requires k <= |s|
    ensures GoodBreak(s, k, Reach(s, k))
  {
    hide LastBlank;
    var r := LastBlank(s, k, WIDTH);
    assert forall j :: k + r < j <= k + WIDTH ==> !IsSpace(At(s, j));
    assert r > 0 ==> IsSpace(At(s, k + r));
  }

  /** The number of blanks at k. */
  function Lead(s: bytes, k: nat): (b: nat)
    requires k <= |s|
    ensures k + b <= |s| && !IsSpace(At(s, k + b)) && forall j :: k <= j < k + b ==> IsSpace(s[j])
    decreases |s| - k
  {
    if k < |s| && IsSpace(s[k]) then 1 + Lead(s, k + 1) else 0
  }

  /**
   The line that starts at k starts with more blanks than it may copy: at least two,
   followed by no other blank within the width.
   */
  predicate Bad(s: bytes, k: nat)
    requires k <= |s|
  {
    |s| - k >= WIDTH && Lead(s, k) >= 2 && forall j :: k + Lead(s, k) <= j <= k + WIDTH ==> !IsSpace(At(s, j))
  }

  /** Exactly then does skipping the blanks drive the unsigned counter below zero. */
  lemma {:induction false} BadIsUnderflow(s: bytes, k: nat)
    requires k <= |s|
    ensures Bad(s, k) <==> Lead(s, k) > Reach(s, k)
  {
    var b := Lead(s, k);
    if |s| - k >= WIDTH && b >= 2 {
      assert IsSpace(s[k + (b - 1)]) && At(s, k + (b - 1)) == s[k + (b - 1)];
      assert b > WIDTH ==> IsSpace(s[k + WIDTH]) && At(s, k + WIDTH) == s[k + WIDTH];
    }
  }

  // ------------------------------------------------------------------------------- lines

  /** One printed line: the blanks that were skipped, the copied piece, and whether a dash follows. */
  datatype Line = Line(skipped: bytes, piece: bytes, dash: bool)

  /** A break at offset e is inside a word. */
  predicate InsideWord(s: bytes, e: nat) {
    0 < e && IsAlnum(At(s, e - 1)) && IsAlnum(At(s, e))
  }

  function LineAt(s: bytes, k: nat): Line
    requires k <= |s| && Lead(s, k) <= Reach(s, k)
  {
    var b, e := k + Lead(s, k), k + Reach(s, k);
    Line(s[k..b], s[b..e], InsideWord(s, e))
  }

  /** The lines from offset k on, or None if a counter underflows on the way. */
  function Lines(s: bytes, k: nat): Option<seq<Line>>
    requires k < |s|
    decreases |s| - k
  {
    if Lead(s, k) > Reach(s, k) then None
    else
      var e := k + Reach(s, k);
      if e == |s| then Some([LineAt(s, k)])
      else
        match Lines(s, e)
        case None => None
        case Some(rest) => Some([LineAt(s, k)] + rest)
  }

  /** Where the lines from offset k on start, from the text alone. */
  function LineStarts(s: bytes, k: nat): seq<nat>
    requires k < |s|
    decreases |s| - k
  {
    [k] + if k + Reach(s, k) == |s| then [] else LineStarts(s, k + Reach(s, k))
  }

  /** Everything that lines show and skip, in order. */
  function Shown(lines: seq<Line>): bytes {
    if lines == [] then [] else lines[0].skipped + lines[0].piece + Shown(lines[1..])
  }

  /** No character of the text is lost, doubled or moved. */
  lemma {:induction false} LinesConserve(s: bytes, k: nat)
    requires k < |s| && Lines(s, k).Some?
    ensures Lines(s, k).value != [] && Shown(Lines(s, k).value) == s[k..]
    decreases |s| - k
  {
    hide Reach, Lead, InsideWord;
    var b, e := k + Lead(s, k), k + Reach(s, k);
    var lines := Lines(s, k).value;
    assert s[k..b] + s[b..e] + s[e..] == s[k..];
    if e == |s| {
      assert lines[1..] == [] && s[e..] == [];
    } else {
      LinesConserve(s, e);
      assert lines[1..] == Lines(s, e).value;
    }
  }

  /** How much of the description a line uses up. */
  function Used(l: Line): nat {
    |l.skipped| + |l.piece|
  }

  /** How much is used up before line i. */
  function UsedBefore(lines: seq<Line>, i: nat): nat
    requires i <= |lines|
  {
    if i == 0 then 0 else Used(lines[0]) + UsedBefore(lines[1..], i - 1)
  }

  lemma {:induction false} LineUsed(s: bytes, k: nat)
    requires k <= |s| && Lead(s, k) <= Reach(s, k)
    ensures Used(LineAt(s, k)) == Reach(s, k)
  {
    hide Reach, Lead;
  }

  /** Every line ends where it should. */
  lemma {:induction false} BreaksExact(s: bytes, k: nat, i: nat)
    requires k < |s| && Lines(s, k).Some? && i < |Lines(s, k).value|
    ensures var lines := Lines(s, k).value; GoodBreak(s, k + UsedBefore(lines, i), Used(lines[i]))
    decreases i
  {
    hide Reach, Lead, LineAt, GoodBreak, Used;
    var lines, e := Lines(s, k).value, k + Reach(s, k);
    assert lines[0] == LineAt(s, k);
    LineUsed(s, k);
    if i == 0 {
      ReachBreaks(s, k);
    } else {
      BreaksExact(s, e, i - 1);
      assert lines[1..] == Lines(s, e).value;
    }
  }

  /** A line is narrow enough, skips only blanks, and fits the buffer with its dash and terminator. */
  predicate GoodLine(l: Line) {
    && |l.piece| <= WIDTH && (forall c :: c in l.skipped ==> IsSpace(c))
    && |l.piece| + (if l.dash then 1 else 0) + 1 <= BUFSZ
    && (l.dash ==> l.piece != [] && IsAlnum(l.piece[|l.piece| - 1]))
  }

  lemma {:induction false} LineIsGood(s: bytes, k: nat)
    requires k < |s| && Lead(s, k) <= Reach(s, k)
    ensures GoodLine(LineAt(s, k))
  {
    var b, e := k + Lead(s, k), k + Reach(s, k);
    if b == e {
      assert IsSpace(s[e - 1]);
    }
  }

  lemma {:induction false} LinesAreGood(s: bytes, k: nat)
    requires k < |s| && Lines(s, k).Some?
    ensures forall l :: l in Lines(s, k).value ==> GoodLine(l)
    decreases |s| - k
  {
    hide GoodLine;
    LineIsGood(s, k);
    var e := k + Reach(s, k);
    if e != |s| {
      LinesAreGood(s, e);
    }
  }

  /** An ASCII digit, capital or small letter. */
  predicate WordCode(n: int) {
    0x30 <= n <= 0x39 || 0x41 <= n <= 0x5a || 0x61 <= n <= 0x7a
  }

  predicate EndsInWord(l: Line) {
    l.piece != [] && WordCode(l.piece[|l.piece| - 1] as int)
  }

  predicate StartsInWord(l: Line) {
    l.skipped == [] && l.piece != [] && WordCode(l.piece[0] as int)
  }

  /** A word goes on from the end of one line to the start of the next. */
  predicate WordGoesOn(l: Line, next: Line) {
    EndsInWord(l) && StartsInWord(next)
  }

  lemma {:induction false} LineEnds(s: bytes, k: nat)
    requires k < |s| && Lead(s, k) <= Reach(s, k)
    ensures EndsInWord(LineAt(s, k)) <==> IsAlnum(s[k + Reach(s, k) - 1])
  {
    hide Reach;
    var b, e := k + Lead(s, k), k + Reach(s, k);
    var piece := LineAt(s, k).piece;
    if b < e {
      assert piece[|piece| - 1] == s[e - 1];
    } else {
      assert IsSpace(s[e - 1]) && piece == [];
    }
  }

  lemma {:induction false} LineBegins(s: bytes, k: nat)
    requires k < |s| && Lead(s, k) <= Reach(s, k)
    ensures StartsInWord(LineAt(s, k)) <==> IsAlnum(s[k])
  {
    hide Reach;
    var l := LineAt(s, k);
    if Lead(s, k) == 0 {
      assert l.skipped == [] && l.piece[0] == s[k];
    } else {
      assert IsSpace(s[k]) && |l.skipped| == Lead(s, k);
    }
  }

  lemma {:induction false} DashStep(s: bytes, k: nat)
    requires k < |s| && Lead(s, k) <= Reach(s, k)
    ensures var e := k + Reach(s, k);
            && (e == |s| ==> !LineAt(s, k).dash)
            && (e < |s| && Lead(s, e) <= Reach(s, e) ==>
                  (LineAt(s, k).dash <==> WordGoesOn(LineAt(s, k), LineAt(s, e))))
  {
    hide Reach, Lead, EndsInWord, StartsInWord;
    var e := k + Reach(s, k);
    LineEnds(s, k);
    if e < |s| && Lead(s, e) <= Reach(s, e) {
      LineBegins(s, e);
    }
  }

  /** A dash stands exactly where a word goes on in the next line. */
  lemma {:induction false} DashExact(s: bytes, k: nat, i: nat)
    requires k < |s| && Lines(s, k).Some? && i < |Lines(s, k).value|
    ensures var lines := Lines(s, k).value;
            lines[i].dash <==> i + 1 < |lines| && WordGoesOn(lines[i], lines[i + 1])
    decreases i
  {
    hide Reach, Lead, LineAt, WordGoesOn;
    DashStep(s, k);
    var e := k + Reach(s, k);
    if e != |s| {
      var rest := Lines(s, e).value;
      if i > 0 {
        DashExact(s, e, i - 1);
        assert Lines(s, k).value[i] == rest[i - 1];
      } else {
        assert Lines(s, k).value[1] == rest[0] == LineAt(s, e);
      }
    }
  }

  /**
   The exact condition: the description can be printed if and only if none of its
   lines starts with two or more blanks that are followed by no other blank within
   the width.
   */
  lemma {:induction false} PrintableExact(s: bytes, k: nat)
    requires k < |s|
    ensures Lines(s, k).Some? <==> forall i :: i in LineStarts(s, k) ==> i <= |s| && !Bad(s, i)
    decreases |s| - k
  {
    hide Bad, Reach, Lead;
    BadIsUnderflow(s, k);
    var e := k + Reach(s, k);
    if e == |s| {
      assert LineStarts(s, k) == [k];
    } else {
      PrintableExact(s, e);
      assert LineStarts(s, k) == [k] + LineStarts(s, e);
      var rest := LineStarts(s, e);
      assert forall i :: i in LineStarts(s, k) <==> i == k || i in rest;
    }
  }

  /** Two blanks in front of a long word are enough to fail. */
  lemma {:induction false} TwoBlanksFail(word: bytes)
    requires |word| >= WIDTH - 2 && forall c :: c in word ==> !IsSpace(c)
    ensures Lines([' ', ' '] + word, 0).None?
  {
    var s := [' ', ' '] + word;
    assert forall k :: 2 <= k < |s| ==> s[k] == word[k - 2] && word[k - 2] in word;
    assert Lead(s, 2) == 0;
    assert Lead(s, 1) == 1;
    assert Lead(s, 0) == 2;
    BadIsUnderflow(s, 0);
  }

  predicate NoAdjacentBlanks(s: bytes) {
    forall k :: 0 <= k && k + 1 < |s| ==> !(IsSpace(s[k]) && IsSpace(s[k + 1]))
  }

  lemma {:induction false} FewLead(s: bytes, k: nat)
    requires k < |s| && NoAdjacentBlanks(s)
    ensures Lead(s, k) < 2
  {
  }

  /** In particular, every description without adjacent blanks can be printed. */
  lemma {:induction false} PlainTextIsPrintable(s: bytes, k: nat)
    requires k < |s| && NoAdjacentBlanks(s)
    ensures Lines(s, k).Some?
    decreases |s| - k
  {
    hide Reach, Lead, LineAt, NoAdjacentBlanks;
    BadIsUnderflow(s, k);
    assert Lead(s, k) < 2 by { FewLead(s, k); }
    var e := k + Reach(s, k);
    if e != |s| {
      PlainTextIsPrintable(s, e);
    }
  }

  // ---------------------------------------------------------------------------- the C loop

  function LineText(l: Line): bytes {
    l.piece + (if l.dash then ['-'] else []) + ['\n']
  }

  /** The lines as they are printed, with the indent in front of every line but the first. */
  function Rendered(lines: seq<Line>): bytes {
    if lines == [] then []
    else if |lines| == 1 then LineText(lines[0])
    else LineText(lines[0]) + INDENT + Rendered(lines[1..])
  }

  function Indent(i: nat): bytes {
    if i == 0 then [] else INDENT
  }

  /** What stands on the i-th line of the output, without its line feed. */
  function Printed(lines: seq<Line>, i: nat): bytes
    requires i < |lines|
  {
    Indent(i) + lines[i].piece + (if lines[i].dash then ['-'] else [])
  }

  function AllPrinted(lines: seq<Line>, i: nat): (r: seq<bytes>)
    requires i <= |lines|
    ensures |r| == |lines| - i + 1 && r[|r| - 1] == []
    ensures forall k :: 0 <= k < |lines| - i ==> r[k] == Printed(lines, i + k)
    decreases |lines| - i
  {
    if i == |lines| then [[]] else [Printed(lines, i)] + AllPrinted(lines, i + 1)
  }

  lemma {:induction false} PrintedText(lines: seq<Line>, i: nat, rest: bytes)
    requires i < |lines|
    ensures Printed(lines, i) + ['\n'] + rest == Indent(i) + (LineText(lines[i]) + rest)
  {
    hide INDENT;
    var dash: bytes := if lines[i].dash then ['-'] else [];
    assert LineText(lines[i]) == lines[i].piece + dash + ['\n'];
    assert Printed(lines, i) == Indent(i) + lines[i].piece + dash;
  }

  lemma {:induction false} RenderedStep(lines: seq<Line>, i: nat)
    requires i < |lines|
    ensures Rendered(lines[i..])
            == LineText(lines[i]) + if i + 1 == |lines| then [] else INDENT + Rendered(lines[i + 1..])
  {
    hide LineText;
    assert lines[i..][1..] == lines[i + 1..];
  }

  lemma {:induction false} RenderedJoins(lines: seq<Line>, i: nat)
    requires i < |lines|
    ensures KeyValue.Join(AllPrinted(lines, i), '\n') == Indent(i) + Rendered(lines[i..])
    decreases |lines| - i
  {
    hide AllPrinted, LineText, Rendered, Printed;
    PrintedRest(lines, i);
    RenderedStep(lines, i);
    var rest := if i + 1 == |lines| then [] else INDENT + Rendered(lines[i + 1..]);
    if i + 1 == |lines| {
      LastPrinted(lines);
    } else {
      RenderedJoins(lines, i + 1);
    }
    assert KeyValue.Join(AllPrinted(lines, i), '\n') == Printed(lines, i) + ['\n'] + rest;
    PrintedText(lines, i, rest);
  }

  lemma {:induction false} PrintedRest(lines: seq<Line>, i: nat)
    requires i < |lines|
    ensures AllPrinted(lines, i)[0] == Printed(lines, i) && AllPrinted(lines, i)[1..] == AllPrinted(lines, i + 1)
  {
  }

  lemma {:induction false} LastPrinted(lines: seq<Line>)
    ensures KeyValue.Join(AllPrinted(lines, |lines|), '\n') == []
  {
  }

  /**
   The printed text, read back: cut at its line feeds it is one line per piece, each
   the piece, behind 24 blanks but for the first, and its dash.
   */
  lemma {:induction false} PrintedExact(s: bytes)
    requires s != [] && '\n' !in s && Lines(s, 0).Some?
    ensures var lines := Lines(s, 0).value; KeyValue.Pieces(Rendered(lines), '\n') == AllPrinted(lines, 0)
    ensures |INDENT| == 24 && forall c :: c in INDENT ==> c == ' '
  {
    hide Lines, Rendered, AllPrinted, Printed, KeyValue.Pieces, KeyValue.Join;
    var lines := Lines(s, 0).value;
    var parts := AllPrinted(lines, 0);
    assert s[0..] == s && lines[0..] == lines;
    LinesConserve(s, 0);
    RenderedJoins(lines, 0);
    assert KeyValue.Join(parts, '\n') == Indent(0) + Rendered(lines) == Rendered(lines);
    forall x | x in parts
      ensures '\n' !in x
    {
      var k :| 0 <= k < |parts| && parts[k] == x;
      if k < |lines| {
        assert parts[k] == Printed(lines, 0 + k);
        PrintedClean(lines, k);
      }
    }
    KeyValue.PiecesJoin(parts, '\n');
  }

  lemma {:induction false} PrintedClean(lines: seq<Line>, k: nat)
    requires k < |lines| && '\n' !in Shown(lines)
    ensures '\n' !in Printed(lines, k)
  {
    PieceShown(lines, k, '\n');
  }

  lemma {:induction false} PieceShown(lines: seq<Line>, k: nat, c: byte)
    requires k < |lines| && c !in Shown(lines)
    ensures c !in lines[k].piece
    decreases k
  {
    if k > 0 {
      PieceShown(lines[1..], k - 1, c);
    }
  }

  /** Lines that are followed by more. */
  function Begun(lines: seq<Line>): bytes {
    if lines == [] then [] else Begun(lines[..|lines| - 1]) + LineText(lines[|lines| - 1]) + INDENT
  }

  lemma {:induction false} RenderedSplit(done: seq<Line>, rest: seq<Line>)
    requires rest != []
    ensures Rendered(done + rest) == Begun(done) + Rendered(rest)
    decreases |done|
  {
    hide LineText;
    if done == [] {
      assert done + rest == rest;
    } else {
      var n := |done| - 1;
      var l := done[n];
      assert done + rest == done[..n] + ([l] + rest);
      RenderedSplit(done[..n], [l] + rest);
      assert ([l] + rest)[1..] == rest;
      assert Begun(done[..n]) + (LineText(l) + INDENT + Rendered(rest)) == Begun(done) + Rendered(rest);
    }
  }

  /** mncommand_find_ncopy, with bufsz == BUFSZ. */
  method FindNcopy(s: bytes, nhead: nat, ntail: nat) returns (ncopy: nat)
    requires nhead + ntail == |s|
    ensures ncopy == Reach(s, nhead) && GoodBreak(s, nhead, ncopy)
  {
    hide GoodBreak;
    ReachBreaks(s, nhead);
    ncopy := if ntail < BUFSZ - 1 - 1 then ntail else BUFSZ - 1 - 1;
    var n := ncopy;
    if ncopy == BUFSZ - 2 {
      while n > 0
        invariant 0 <= n <= WIDTH && LastBlank(s, nhead, WIDTH) == LastBlank(s, nhead, n)
      {
        if IsSpace(At(s, nhead + n)) {
          ncopy := n;
          return;
        }
        n := n - 1;
      }
    }
  }

  /** memcpy into buf, then the dash and the terminator; what "%s\n" prints of buf. */
  method FillBuffer(piece: bytes, dash: bool) returns (text: bytes)
    requires |piece| <= WIDTH && NUL !in piece
    ensures text == LineText(Line([], piece, dash))
  {
    var buf := new byte[BUFSZ];
    forall i | 0 <= i < |piece| {
      buf[i] := piece[i];
    }
    var n := |piece|;
    if dash {
      buf[n] := '-';
      n := n + 1;
    }
    buf[n] := NUL;
    assert buf[..n] == piece + if dash then ['-'] else [];
    var end := FindByte(buf[..], NUL, 0);
    assert forall k :: 0 <= k < |piece| ==> buf[k] == piece[k] && piece[k] in piece;
    assert end == Some(n);
    text := buf[..n] + ['\n'];
  }

  /** What has been printed, and what is still to come, of the lines of s. */
  predicate Printing(s: bytes, nhead: nat, done: seq<Line>) {
    nhead < |s|
    && match Lines(s, nhead)
       case None => Lines(s, 0).None?
       case Some(rest) => Lines(s, 0) == Some(done + rest)
  }

  lemma {:induction false} PrintOne(s: bytes, nhead: nat, done: seq<Line>)
    requires Printing(s, nhead, done) && Lead(s, nhead) <= Reach(s, nhead)
    ensures var e := nhead + Reach(s, nhead);
            if e == |s| then Lines(s, 0) == Some(done + [LineAt(s, nhead)])
            else Printing(s, e, done + [LineAt(s, nhead)])
  {
    hide Reach, Lead, LineAt;
    var e := nhead + Reach(s, nhead);
    if e != |s| && Lines(s, e).Some? {
      var l, rest := LineAt(s, nhead), Lines(s, e).value;
      assert done + ([l] + rest) == done + [l] + rest;
    }
  }

  /** while (isspace(s[nhead])): counts down ntail and ncopy as it goes. */
  method SkipBlanks(s: bytes, nhead: nat, ntail: nat, ncopy: int) returns (nhead': nat, ntail': nat, ncopy': int)
    requires nhead + ntail == |s|
    ensures nhead' == nhead + Lead(s, nhead) && nhead' + ntail' == |s| && ncopy' == ncopy - Lead(s, nhead)
  {
    nhead', ntail', ncopy' := nhead, ntail, ncopy;
    while IsSpace(At(s, nhead'))
      invariant nhead <= nhead' && nhead' + ntail' == |s| && ncopy' == ncopy - (nhead' - nhead)
      invariant Lead(s, nhead) == nhead' - nhead + Lead(s, nhead')
      decreases ntail'
    {
      nhead', ntail', ncopy' := nhead' + 1, ntail' - 1, ncopy' - 1;
    }
  }

  /**
   The loop of mncommand_ctx_format_help for one description.  None stands for
   undefined behaviour: an unsigned counter below zero, or the character in front of
   an empty description.
   */
  method FormatDescription(s: bytes) returns (out: Option<bytes>)
    requires NUL !in s
    ensures s == [] ==> out == None
    ensures s != [] ==> out == (match Lines(s, 0) case None => None case Some(lines) => Some(Rendered(lines)))
  {
    hide Lines, Reach, Lead, LineText;
    var nhead, ntail := 0, |s|;
    var text: bytes := [];
    ghost var done: seq<Line> := [];
    if s != [] {
      StartPrinting(s);
    }
    while true
      invariant 0 <= nhead && 0 <= ntail && nhead + ntail == |s| && (s != [] ==> Printing(s, nhead, done))
      invariant text == Begun(done)
      decreases ntail
    {
      ghost var start := nhead;
      var ncopy: int := FindNcopy(s, nhead, ntail);
      nhead, ntail, ncopy := SkipBlanks(s, nhead, ntail, ncopy);
      if ncopy < 0 {
        Underflows(s, start);
        return None;
      }
      if nhead + ncopy == 0 {
        return None;
      }
      PrintOne(s, start, done);
      var piece := s[nhead..nhead + ncopy];
      assert NUL !in piece;
      var line := FillBuffer(piece, IsAlnum(At(s, nhead + ncopy - 1)) && IsAlnum(At(s, nhead + ncopy)));
      assert line == LineText(LineAt(s, start)) by { SameText(LineAt(s, start)); }
      ntail := ntail - ncopy;
      nhead := nhead + ncopy;
      text := text + line;
      if ntail > 0 {
        text := text + INDENT;
        done := done + [LineAt(s, start)];
        assert done[..|done| - 1] + [LineAt(s, start)] == done;
      } else {
        RenderedSplit(done, [LineAt(s, start)]);
        return Some(text);
      }
    }
  }

  lemma {:induction false} StartPrinting(s: bytes)
    requires s != []
    ensures Printing(s, 0, [])
  {
    if Lines(s, 0).Some? {
      assert [] + Lines(s, 0).value == Lines(s, 0).value;
    }
  }

  lemma {:induction false} Underflows(s: bytes, k: nat)
    requires k < |s| && Lead(s, k) > Reach(s, k)
    ensures Lines(s, k).None?
  {
  }

  lemma {:induction false} SameText(l: Line)
    ensures LineText(Line([], l.piece, l.dash)) == LineText(l)
  {
  }
}
