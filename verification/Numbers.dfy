/**
 The number conversions of the C library that the parser relies on: strtol(3)
 in base 10 and 16 with saturation to long, the narrowing of long to int, and
 the digits that printf writes for "%d".
 */
module Numbers {
  import opened Bytes

  const LONG_MAX: int := 0x7fff_ffff_ffff_ffff
  const LONG_MIN: int := -0x8000_0000_0000_0000
  const INT_MAX: int := 0x7fff_ffff

  /** Assignment of a long to an int: the low 32 bits, read as two's complement. */
  function ToInt32(x: int): (r: int)
    ensures -INT_MAX - 1 <= r <= INT_MAX
    ensures (r - x) % 0x1_0000_0000 == 0
  {
    (x + 0x8000_0000) % 0x1_0000_0000 - 0x8000_0000
  }

  lemma {:induction false} ToInt32Small(x: int)
    requires -INT_MAX - 1 <= x <= INT_MAX
    ensures ToInt32(x) == x
  {
  }

  lemma {:induction false} ToInt32Again(x: int, y: int)
    ensures ToInt32(ToInt32(x) + y) == ToInt32(x + y)
  {
  }

  /** The value of a digit in any base up to 36, or 99 for any other byte. */
  function DigitValue(c: byte): (r: nat) {
    if '0' <= c <= '9' then c as int - '0' as int
    else if 'a' <= c <= 'z' then c as int - 'a' as int + 10
    else if 'A' <= c <= 'Z' then c as int - 'A' as int + 10
    else 99
  }

  const LOWER_DIGITS: bytes := "0123456789abcdef"
  const UPPER_DIGITS: bytes := "0123456789ABCDEF"

  /** The sixteen digits have the values 0 to 15, in both cases, and no other byte is a digit of either base. */
  lemma {:induction false} DigitExact(c: byte, v: nat)
    requires v < 16
    ensures DigitValue(LOWER_DIGITS[v]) == v == DigitValue(UPPER_DIGITS[v])
    ensures DigitValue(c) == v ==> c == LOWER_DIGITS[v] || c == UPPER_DIGITS[v]
  {
    assert v < 10 ==> LOWER_DIGITS[v] as int == UPPER_DIGITS[v] as int == '0' as int + v;
    assert v >= 10 ==> LOWER_DIGITS[v] as int == 'a' as int + v - 10 && UPPER_DIGITS[v] as int == 'A' as int + v - 10;
  }

  function SkipSpace(s: bytes, i: nat): (r: nat)
    requires i <= |s|
    ensures i <= r <= |s| && (r < |s| ==> !IsSpace(s[r]))
    ensures forall k :: i <= k < r ==> IsSpace(s[k])
    decreases |s| - i
  {
    if i < |s| && IsSpace(s[i]) then SkipSpace(s, i + 1) else i
  }

  /** The two bases in use. */
  function Radix(hex: bool): nat {
    if hex then 16 else 10
  }

  predicate IsDigit(c: byte, hex: bool) {
    DigitValue(c) < Radix(hex)
  }

  predicate AllDigits(s: bytes, hex: bool) {
    forall k :: 0 <= k < |s| ==> IsDigit(s[k], hex)
  }

  /** The end of the run of digits that starts at i. */
  function DigitRun(s: bytes, i: nat, hex: bool): (r: nat)
    requires i <= |s|
    ensures i <= r <= |s| && (r < |s| ==> !IsDigit(s[r], hex))
    ensures AllDigits(s[i..r], hex)
    decreases |s| - i
  {
    if i < |s| && IsDigit(s[i], hex) then
      var r := DigitRun(s, i + 1, hex);
      assert s[i..r] == [s[i]] + s[i + 1..r];
      r
    else i
  }

  /** Horner's rule over a string of digits, most significant first. */
  function Horner(s: bytes, hex: bool): nat {
    if s == [] then 0
    else
      var high := Horner(s[..|s| - 1], hex);
      (if hex then 16 * high else 10 * high) + DigitValue(s[|s| - 1])
  }

  function Power(hex: bool, n: nat): nat {
    if n == 0 then 1 else if hex then 16 * Power(hex, n - 1) else 10 * Power(hex, n - 1)
  }

  lemma {:induction false} HornerStep(s: bytes, c: byte, hex: bool)
    ensures Horner(s + [c], hex) == (if hex then 16 * Horner(s, hex) else 10 * Horner(s, hex)) + DigitValue(c)
  {
    assert (s + [c])[..|s|] == s;
  }

  /** The value of a string of digits is positional: each digit counts by what stands to its right. */
  lemma {:induction false} HornerWeighs(c: byte, s: bytes, hex: bool)
    ensures Horner([c] + s, hex) == DigitValue(c) * Power(hex, |s|) + Horner(s, hex)
    decreases |s|
  {
    hide Horner, DigitValue, Power;
    if s == [] {
      OneDigitValue(c, hex);
    } else {
      var n := |s| - 1;
      HornerWeighs(c, s[..n], hex);
      assert s == s[..n] + [s[n]];
      assert [c] + s == ([c] + s[..n]) + [s[n]];
      HornerStep(s[..n], s[n], hex);
      HornerStep([c] + s[..n], s[n], hex);
      Weight(DigitValue(c), n, hex);
    }
  }

  lemma {:induction false} OneDigitValue(c: byte, hex: bool)
    ensures Horner([c] + [], hex) == DigitValue(c) * Power(hex, 0) + Horner([], hex)
  {
    var t := [c] + [];
    assert t[..0] == [];
  }

  lemma {:induction false} Weight(v: nat, n: nat, hex: bool)
    ensures v * Power(hex, n + 1) == if hex then 16 * (v * Power(hex, n)) else 10 * (v * Power(hex, n))
  {
    var p := Power(hex, n);
    assert v * (16 * p) == 16 * (v * p) && v * (10 * p) == 10 * (v * p);
  }

  /** What strtol returns: the value as a long, *endptr as an index, and whether the value was out of range. */
  datatype Number = Number(value: int, end: nat, overflow: bool)

  function Saturate(v: int): (r: int)
    ensures LONG_MIN <= r <= LONG_MAX
    ensures LONG_MIN <= v <= LONG_MAX ==> r == v
  {
    if v > LONG_MAX then LONG_MAX else if v < LONG_MIN then LONG_MIN else v
  }

  predicate HexPrefixAt(s: bytes, i: nat) {
    i + 2 < |s| && s[i] == '0' && (s[i + 1] == 'x' || s[i + 1] == 'X') && IsDigit(s[i + 2], true)
  }

  /** The digits of strtol, after the white space and the sign. */
  function StrtolDigitsAt(s: bytes, j: nat, negative: bool, hex: bool): (r: Number)
    requires j <= |s|
    ensures LONG_MIN <= r.value <= LONG_MAX && r.end <= |s|
    ensures r.end == 0 ==> r.value == 0
  {
    var k := if hex && HexPrefixAt(s, j) then j + 2 else j;
    var e := DigitRun(s, k, hex);
    if e == k then Number(0, 0, false)
    else
      var magnitude: int := Horner(s[k..e], hex);
      var v := if negative then -magnitude else magnitude;
      Number(Saturate(v), e, v != Saturate(v))
  }

  /** strtol(s, &end, base) on a string whose next byte after s is not a digit. */
  function Strtol(s: bytes, hex: bool): (r: Number)
    ensures LONG_MIN <= r.value <= LONG_MAX && r.end <= |s|
    ensures r.end == 0 ==> r.value == 0
  {
    var i := SkipSpace(s, 0);
    if i < |s| && s[i] == '-' then StrtolDigitsAt(s, i + 1, true, hex)
    else if i < |s| && s[i] == '+' then StrtolDigitsAt(s, i + 1, false, hex)
    else StrtolDigitsAt(s, i, false, hex)
  }

  function DigitChar(d: nat): (c: byte)
    requires d < 16
    ensures DigitValue(c) == d
  {
    if d < 10 then ('0' as int + d) as char else ('A' as int + d - 10) as char
  }

  /** The digits of n, without leading zeros. */
  function Digits(n: nat, hex: bool): (s: bytes)
    ensures s != [] && AllDigits(s, hex)
  {
    if n < Radix(hex) then [DigitChar(n)]
    else if hex then Digits(n / 16, hex) + [DigitChar(n % 16)]
    else Digits(n / 10, hex) + [DigitChar(n % 10)]
  }

  /** printf("%d"). */
  function Decimal(n: int): (s: bytes)
    ensures s != []
  {
    if n < 0 then ['-'] + Digits(-n, false) else Digits(n, false)
  }

  lemma {:induction false} HornerDigits(n: nat, hex: bool)
    ensures Horner(Digits(n, hex), hex) == n
  {
    var s := Digits(n, hex);
    if n < Radix(hex) {
      assert s[..0] == [];
    } else {
      var high := if hex then n / 16 else n / 10;
      HornerDigits(high, hex);
      assert s[..|s| - 1] == Digits(high, hex);
    }
  }

  lemma {:induction false} DigitRunAll(s: bytes, i: nat, d: bytes, hex: bool)
    requires i + |d| <= |s| && s[i..i + |d|] == d && AllDigits(d, hex)
    requires i + |d| < |s| ==> !IsDigit(s[i + |d|], hex)
    ensures DigitRun(s, i, hex) == i + |d|
    decreases |d|
  {
    if d != [] {
      assert s[i] == d[0];
      assert s[i + 1..i + |d|] == d[1..];
      DigitRunAll(s, i + 1, d[1..], hex);
    }
  }

  /** One or more digits, leading zeros and both cases included. */
  predicate Numeral(d: bytes, hex: bool) {
    d != [] && AllDigits(d, hex)
  }

  /** The subject of strtol: white space, a sign, the prefix of base 16, digits, and what follows them. */
  datatype NumberText = NumberText(space: bytes, sign: bytes, prefix: bytes, digits: bytes, rest: bytes)

  predicate GoodPrefix(prefix: bytes, hex: bool) {
    prefix == "" || (hex && (prefix == "0x" || prefix == "0X"))
  }

  /** The digits end with this rest: it starts with no digit, and does not make a prefix "0x" of a single zero. */
  predicate DigitsEnd(prefix: bytes, digits: bytes, rest: bytes, hex: bool) {
    && (rest != [] ==> !IsDigit(rest[0], hex))
    && !(hex && prefix == [] && digits == "0" && |rest| >= 2 && rest[0] in "xX" && IsDigit(rest[1], true))
  }

  predicate GoodNumber(t: NumberText, hex: bool) {
    && (forall c :: c in t.space ==> c in " \t\n\r" || c as int == 11 || c as int == 12)
    && (t.sign == "" || t.sign == "+" || t.sign == "-")
    && GoodPrefix(t.prefix, hex)
    && Numeral(t.digits, hex) && DigitsEnd(t.prefix, t.digits, t.rest, hex)
  }

  function NumberString(t: NumberText): bytes {
    t.space + (t.sign + (t.prefix + (t.digits + t.rest)))
  }

  function NumberEnd(t: NumberText): nat {
    |t.space| + |t.sign| + |t.prefix| + |t.digits|
  }

  /** The value of the digits with their sign. */
  function SignedValue(t: NumberText, hex: bool): int {
    if t.sign == "-" then 0 - Horner(t.digits, hex) else Horner(t.digits, hex)
  }

  /** What strtol returns for a value: out of range, the nearest long. */
  function Clamped(v: int, end: nat): Number {
    if v > 0x7fff_ffff_ffff_ffff then Number(0x7fff_ffff_ffff_ffff, end, true)
    else if v < -0x8000_0000_0000_0000 then Number(-0x8000_0000_0000_0000, end, true)
    else Number(v, end, false)
  }

  lemma {:induction false} PrefixFound(s: bytes, j: nat, prefix: bytes, d: bytes, rest: bytes, hex: bool)
    requires j <= |s| && s[j..] == prefix + (d + rest) && Numeral(d, hex) && DigitsEnd(prefix, d, rest, hex)
    requires GoodPrefix(prefix, hex)
    ensures (hex && HexPrefixAt(s, j) <==> prefix != []) && |prefix| == if prefix == [] then 0 else 2
  {
    var t := s[j..];
    assert forall k :: 0 <= k < |t| ==> s[j + k] == t[k];
    if hex && prefix != [] {
      assert t[0] == '0' && t[1] == prefix[1] && t[2] == d[0];
    } else if hex {
      assert t == d + rest;
      assert |d| > 1 ==> t[1] == d[1] && IsDigit(d[1], true);
      assert |d| == 1 && |rest| >= 2 ==> t[0] == d[0] && t[1] == rest[0] && t[2] == rest[1];
      assert |d| == 1 && d[0] == '0' ==> d == "0";
    }
  }

  lemma {:induction false} RunFound(s: bytes, k: nat, prefix: bytes, d: bytes, rest: bytes, hex: bool)
    requires k <= |s| && s[k..] == d + rest && Numeral(d, hex) && DigitsEnd(prefix, d, rest, hex)
    ensures d != [] && DigitRun(s, k, hex) == k + |d| && s[k..k + |d|] == d
  {
    var e := k + |d|;
    assert s[k..e] == s[k..][..|d|] == d;
    assert rest != [] ==> s[e] == s[k..][|d|] == rest[0];
    DigitRunAll(s, k, d, hex);
  }

  /** The prefix and the digits, read at index j of s. */
  lemma {:induction false} StrtolDigitsRead(s: bytes, j: nat, prefix: bytes, d: bytes, rest: bytes,
                                            negative: bool, hex: bool)
    requires GoodPrefix(prefix, hex) && Numeral(d, hex) && DigitsEnd(prefix, d, rest, hex)
    requires j <= |s| && s[j..] == prefix + (d + rest)
    ensures StrtolDigitsAt(s, j, negative, hex)
            == Clamped(if negative then 0 - Horner(d, hex) else Horner(d, hex), j + |prefix| + |d|)
  {
    hide Horner, DigitRun, HexPrefixAt, Numeral, DigitsEnd, GoodPrefix, StrtolDigitsAt, Clamped;
    PrefixFound(s, j, prefix, d, rest, hex);
    Behind(s, j, prefix, d + rest);
    RunFound(s, j + |prefix|, prefix, d, rest, hex);
    DigitsClamped(s, j, j + |prefix|, d, negative, hex);
  }

  lemma {:induction false} Behind(s: bytes, j: nat, a: bytes, b: bytes)
    requires j <= |s| && s[j..] == a + b
    ensures j + |a| <= |s| && s[j + |a|..] == b
  {
    assert s[j + |a|..] == s[j..][|a|..];
  }

  lemma {:induction false} DigitsClamped(s: bytes, j: nat, k: nat, d: bytes, negative: bool, hex: bool)
    requires k == (if hex && HexPrefixAt(s, j) then j + 2 else j) && k <= |s|
    requires d != [] && DigitRun(s, k, hex) == k + |d| <= |s| && s[k..k + |d|] == d
    ensures StrtolDigitsAt(s, j, negative, hex)
            == Clamped(if negative then 0 - Horner(d, hex) else Horner(d, hex), k + |d|)
  {
    hide Horner, DigitRun, HexPrefixAt;
  }

  /** A numeral is plain: no white space, sign, NUL or line break. */
  lemma {:induction false} NumeralPlain(d: bytes, hex: bool)
    requires Numeral(d, hex)
    ensures forall c :: c in d ==> !IsSpace(c) && c != '-' && c != '+' && c != NUL
  {
    forall c | c in d
      ensures !IsSpace(c) && c != '-' && c != '+' && c != NUL
    {
      var k :| 0 <= k < |d| && d[k] == c;
      assert IsDigit(c, hex);
    }
  }

  lemma {:induction false} SpaceSkipped(space: bytes, rest: bytes)
    requires (forall c :: c in space ==> IsSpace(c)) && (rest != [] ==> !IsSpace(rest[0]))
    ensures SkipSpace(space + rest, 0) == |space|
  {
    var s := space + rest;
    assert forall k :: 0 <= k < |space| ==> s[k] == space[k] && space[k] in space;
    assert rest != [] ==> s[|space|] == rest[0];
  }

  lemma {:induction false} SignFound(t: NumberText, hex: bool)
    requires GoodNumber(t, hex)
    ensures var s, i := NumberString(t), |t.space|;
            && SkipSpace(s, 0) == i && s[i + |t.sign|..] == t.prefix + (t.digits + t.rest)
            && i < |s| && (s[i] == '-' <==> t.sign == "-") && (s[i] == '+' <==> t.sign == "+")
  {
    hide SkipSpace, Numeral, DigitsEnd, GoodPrefix;
    var s, i := NumberString(t), |t.space|;
    var body := t.prefix + (t.digits + t.rest);
    BodyStarts(t.prefix, t.digits, t.rest, hex);
    assert (t.sign + body)[0] == if t.sign == [] then body[0] else t.sign[0];
    SpaceSkipped(t.space, t.sign + body);
    assert s[i..] == t.sign + body && s[i] == s[i..][0];
    Behind(s, i, t.sign, body);
  }

  lemma {:induction false} BodyStarts(prefix: bytes, d: bytes, rest: bytes, hex: bool)
    requires GoodPrefix(prefix, hex) && Numeral(d, hex)
    ensures var body := prefix + (d + rest); body != [] && !IsSpace(body[0]) && body[0] != '-' && body[0] != '+'
  {
    NumeralPlain(d, hex);
    assert (prefix + (d + rest))[0] == if prefix == [] then d[0] else '0';
    assert d[0] in d;
  }

  /** strtol on any number, in either base: its value, saturated, and the end of its digits. */
  lemma {:induction false} StrtolReads(t: NumberText, hex: bool)
    requires GoodNumber(t, hex)
    ensures Strtol(NumberString(t), hex) == Clamped(SignedValue(t, hex), NumberEnd(t))
  {
    hide SkipSpace, StrtolDigitsAt, NumberString, Clamped, GoodPrefix, Numeral, DigitsEnd, Horner;
    SignFound(t, hex);
    StrtolDigitsRead(NumberString(t), |t.space| + |t.sign|, t.prefix, t.digits, t.rest, t.sign == "-", hex);
  }

  /** The prefix, the digits and the rest, where digits are found at j. */
  lemma {:induction false} DigitsFound(s: bytes, j: nat, negative: bool, hex: bool)
    returns (prefix: bytes, digits: bytes, rest: bytes)
    requires j <= |s| && StrtolDigitsAt(s, j, negative, hex).end > 0
    ensures s[j..] == prefix + (digits + rest) && Numeral(digits, hex) && DigitsEnd(prefix, digits, rest, hex)
    ensures GoodPrefix(prefix, hex)
  {
    hide Horner, DigitValue, Saturate, DigitRun;
    var k := if hex && HexPrefixAt(s, j) then j + 2 else j;
    var e := DigitRun(s, k, hex);
    prefix, digits, rest := s[j..k], s[k..e], s[e..];
    assert s[k..e] + s[e..] == s[k..];
    assert s[j..k] + s[k..] == s[j..];
    assert e < |s| ==> rest[0] == s[e];
    assert e + 1 < |s| ==> rest[1] == s[e + 1];
    assert digits == "0" ==> e == k + 1 && s[k] == digits[0];
  }

  /** Where strtol finds digits, there is a number. */
  lemma {:induction false} StrtolFound(s: bytes, hex: bool) returns (t: NumberText)
    requires Strtol(s, hex).end > 0
    ensures GoodNumber(t, hex) && NumberString(t) == s
  {
    hide StrtolDigitsAt, SkipSpace, Numeral, DigitsEnd, GoodPrefix;
    var i := SkipSpace(s, 0);
    var signed := i < |s| && (s[i] == '-' || s[i] == '+');
    var j := if signed then i + 1 else i;
    var prefix, digits, rest := DigitsFound(s, j, signed && s[i] == '-', hex);
    t := NumberText(s[..i], s[i..j], prefix, digits, rest);
    assert s[i..j] == if signed then [s[i]] else [];
    CutTwice(s, i, j);
  }

  lemma {:induction false} CutTwice(s: bytes, i: nat, j: nat)
    requires i <= j <= |s|
    ensures s == s[..i] + (s[i..j] + s[j..])
  {
    assert s[i..j] + s[j..] == s[i..];
  }

  /** strtol finds nothing, and returns 0 with *endptr at the start, exactly where there is no number. */
  lemma {:induction false} StrtolExact(s: bytes, hex: bool)
    ensures Strtol(s, hex) == Number(0, 0, false) <==> !exists t :: GoodNumber(t, hex) && NumberString(t) == s
  {
    hide Strtol, NumberString, SignedValue;
    forall t | GoodNumber(t, hex) && NumberString(t) == s
      ensures Strtol(s, hex).end > 0
    {
      StrtolReads(t, hex);
    }
    if Strtol(s, hex).end > 0 {
      var t := StrtolFound(s, hex);
    } else {
      StrtolNothing(s, hex);
    }
  }

  lemma {:induction false} StrtolNothing(s: bytes, hex: bool)
    requires Strtol(s, hex).end == 0
    ensures Strtol(s, hex) == Number(0, 0, false)
  {
    hide Horner, Saturate;
  }

  /** A byte that ends a run of digits in any case: not a digit, and in base 16 not the 'x' of a "0x" prefix. */
  predicate EndsDigits(rest: bytes, hex: bool) {
    rest != [] ==> !IsDigit(rest[0], hex) && (hex ==> rest[0] != 'x' && rest[0] != 'X')
  }

  /** The written digits are a numeral of the right value, without leading zeros. */
  lemma {:induction false} DigitsAreNumeral(n: nat, hex: bool)
    ensures Numeral(Digits(n, hex), hex) && Horner(Digits(n, hex), hex) == n
    ensures Digits(n, hex)[0] == '0' ==> n == 0 && |Digits(n, hex)| == 1
  {
    HornerDigits(n, hex);
    if n >= Radix(hex) {
      DigitsAreNumeral(if hex then n / 16 else n / 10, hex);
    }
  }

  /**
   strtol inverts the decimal writer and stops exactly at the first byte that is
   not a digit.
   */
  lemma {:induction false} StrtolDecimal(n: int, rest: bytes)
    requires LONG_MIN < n <= LONG_MAX && EndsDigits(rest, false)
    ensures Strtol(Decimal(n) + rest, false) == Number(n, |Decimal(n)|, false)
  {
    hide Strtol, Digits, Horner, Numeral, EndsDigits;
    var m := if n < 0 then -n else n;
    var d := Digits(m, false);
    DigitsAreNumeral(m, false);
    StrtolSigned(if n < 0 then ['-'] else [], d, m, rest, false);
    assert [] + d + rest == d + rest;
  }

  lemma {:induction false} StrtolSigned(sign: bytes, d: bytes, m: nat, rest: bytes, hex: bool)
    requires sign == [] || sign == ['-']
    requires Numeral(d, hex) && EndsDigits(rest, hex) && Horner(d, hex) == m <= LONG_MAX
    ensures Strtol(sign + d + rest, hex) == Number(if sign == [] then m else 0 - m, |sign| + |d|, false)
  {
    hide Strtol, Horner;
    var t := NumberText([], sign, [], d, rest);
    assert NumberString(t) == sign + d + rest;
    StrtolReads(t, hex);
  }

  /** strtol reads every numeral, in either base, as its value, and stops at the first byte that is not a digit. */
  lemma {:induction false} StrtolNumeral(d: bytes, rest: bytes, hex: bool)
    requires Numeral(d, hex) && EndsDigits(rest, hex) && Horner(d, hex) <= LONG_MAX
    ensures Strtol(d + rest, hex) == Number(Horner(d, hex), |d|, false)
  {
    hide Strtol, Horner, Numeral, EndsDigits;
    StrtolSigned([], d, Horner(d, hex), rest, hex);
    assert [] + d + rest == d + rest;
  }

  lemma {:induction false} DecimalPlain(n: int)
    ensures forall c :: c in Decimal(n) ==> !IsSpace(c) && c != NUL
  {
    var m := if n < 0 then -n else n;
    DigitsAreNumeral(m, false);
    NumeralPlain(Digits(m, false), false);
  }
}
