/**
 * Conversions between text and bytes, and between integers and decimal text,
 * as Python performs them for the server and the client: `bytes.decode()`
 * (strict UTF-8), `str.encode()` of ASCII text, `str(int)` and `int(str)`.
 */
module Codec {
  import opened Wrappers
  import opened Text

  // ---------------------------------------------------------------------------
  // bytes <-> str
  // ---------------------------------------------------------------------------

  predicate IsAscii(s: string) {
    forall k :: 0 <= k < |s| ==> s[k] as int < 128
  }

  /** `s.encode()` for ASCII text: one byte per character, its code point. */
  function AsciiEncode(s: string): (b: seq<byte>)
    requires IsAscii(s)
    ensures |b| == |s|
    ensures forall k :: 0 <= k < |s| ==> b[k] as int == s[k] as int
  {
    seq(|s|, k requires 0 <= k < |s| => s[k] as int as byte)
  }

  lemma AsciiEncodeAppend(s: string, t: string)
    requires IsAscii(s) && IsAscii(t)
    ensures IsAscii(s + t) && AsciiEncode(s + t) == AsciiEncode(s) + AsciiEncode(t)
  {
    AsciiConcat(s, t);
  }

  lemma AsciiConcat(s: string, t: string)
    requires IsAscii(s) && IsAscii(t)
    ensures IsAscii(s + t)
  {
    forall k | 0 <= k < |s + t| ensures (s + t)[k] as int < 128 {
      if k >= |s| { assert (s + t)[k] == t[k - |s|]; }
    }
  }

  /** `b'\r\n\r\n'`: the blank line that closes a header block, as bytes. */
  const HeaderEnd: seq<byte> := [13, 10, 13, 10]

  lemma HeaderEndIsBlankLine()
    ensures IsAscii(CRLFCRLF) && AsciiEncode(CRLFCRLF) == HeaderEnd
  {
  }

  predicate IsContinuation(b: byte) {
    0x80 <= b <= 0xBF
  }

  /**
   * The character that a well-formed UTF-8 sequence at the start of `b`
   * encodes, with that sequence's length; `None` when `b` does not start with
   * one (a stray continuation byte, an overlong form, a surrogate, a value
   * above U+10FFFF, or a sequence cut short).
   */
  function DecodeFirst(b: seq<byte>): (r: Option<(char, nat)>)
    requires |b| > 0
    ensures r.Some? ==> 1 <= r.value.1 <= |b| && r.value.1 <= 4
    ensures r.Some? && r.value.1 == 1 <==> b[0] < 0x80
    ensures b[0] < 0x80 ==> r == Some((b[0] as int as char, 1))
  {
    var b0 := b[0] as int;
    if b0 < 0x80 then
      Some((b0 as char, 1))
    else if 0xC2 <= b0 <= 0xDF then
      if |b| >= 2 && IsContinuation(b[1]) then
        Some((((b0 - 0xC0) * 64 + (b[1] as int - 0x80)) as char, 2))
      else None
    else if 0xE0 <= b0 <= 0xEF then
      var lo := if b0 == 0xE0 then 0xA0 else 0x80;
      var hi := if b0 == 0xED then 0x9F else 0xBF;
      if |b| >= 3 && lo <= b[1] as int <= hi && IsContinuation(b[2]) then
        Some((((b0 - 0xE0) * 4096 + (b[1] as int - 0x80) * 64 + (b[2] as int - 0x80)) as char, 3))
      else None
    else if 0xF0 <= b0 <= 0xF4 then
      var lo := if b0 == 0xF0 then 0x90 else 0x80;
      var hi := if b0 == 0xF4 then 0x8F else 0xBF;
      if |b| >= 4 && lo <= b[1] as int <= hi && IsContinuation(b[2]) && IsContinuation(b[3]) then
        Some((((b0 - 0xF0) * 262144 + (b[1] as int - 0x80) * 4096
               + (b[2] as int - 0x80) * 64 + (b[3] as int - 0x80)) as char, 4))
      else None
    else None
  }

  /** `b.decode()`: strict UTF-8; `None` stands for UnicodeDecodeError. */
  function Utf8Decode(b: seq<byte>): (r: Option<string>)
    ensures r.Some? ==> |r.value| <= |b|
    ensures r.Some? ==> (r.value == [] <==> b == [])
    decreases |b|
  {
    if b == [] then Some("")
    else
      match DecodeFirst(b)
      case None => None
      case Some((c, n)) =>
        match Utf8Decode(b[n..])
        case None => None
        case Some(rest) => Some([c] + rest)
  }

  /** Decoding the encoding of ASCII text gives the text back. */
  lemma {:induction false} AsciiRoundTrip(s: string)
    requires IsAscii(s)
    ensures Utf8Decode(AsciiEncode(s)) == Some(s)
  {
    if s != [] {
      var b := AsciiEncode(s);
      assert b[0] as int == s[0] as int;
      assert b[1..] == AsciiEncode(s[1..]);
      AsciiRoundTrip(s[1..]);
      assert s == [s[0]] + s[1..];
    }
  }

  // ---------------------------------------------------------------------------
  // int <-> str
  // ---------------------------------------------------------------------------

  predicate IsDigit(c: char) {
    '0' <= c <= '9'
  }

  function DigitChar(d: nat): (c: char)
    requires d < 10
    ensures IsDigit(c)
  {
    ('0' as int + d) as char
  }

  function DigitValue(c: char): (d: nat)
    requires IsDigit(c)
    ensures d < 10 && DigitChar(d) == c
  {
    c as int - '0' as int
  }

  /** `str(n)` for a non-negative integer: its decimal digits, no leading zero. */
  function NatToString(n: nat): (s: string)
    ensures s != [] && forall k :: 0 <= k < |s| ==> IsDigit(s[k])
    ensures n >= 10 ==> s[0] != '0'
    decreases n
  {
    if n < 10 then [DigitChar(n)] else NatToString(n / 10) + [DigitChar(n % 10)]
  }

  /** `str(i)`, which is also what an f-string substitutes for `{i}`. */
  function IntToString(i: int): (s: string)
    ensures s != [] && Lacks(s, ' ') && Lacks(s, '\r') && Lacks(s, '\n')
  {
    if i < 0 then "-" + NatToString(-i) else NatToString(i)
  }

  lemma IntToStringAscii(i: int)
    ensures IsAscii(IntToString(i))
  {
    var n := NatToString(if i < 0 then -i else i);
    assert IsAscii(n);
    if i < 0 {
      AsciiEncodeAppend("-", n);
    }
  }

  /** The body of a decimal integer literal: digits, single underscores between them. */
  predicate IsDecimalLiteral(t: string) {
    && |t| > 0
    && IsDigit(t[0])
    && IsDigit(t[|t| - 1])
    && (forall k :: 0 <= k < |t| ==> IsDigit(t[k]) || t[k] == '_')
    && (forall k :: 0 <= k < |t| - 1 && t[k] == '_' ==> t[k + 1] != '_')
  }

  /** The number the digits of `t` spell, underscores ignored. */
  function DigitsValue(t: string): nat
    requires forall k :: 0 <= k < |t| ==> IsDigit(t[k]) || t[k] == '_'
  {
    if t == [] then 0
    else if t[|t| - 1] == '_' then DigitsValue(t[..|t| - 1])
    else DigitsValue(t[..|t| - 1]) * 10 + DigitValue(t[|t| - 1])
  }

  /**
   * The whitespace `int()` skips around a number: every `isspace()`
   * character except U+001C to U+001F, which `int()` passes through
   * unchanged and then rejects.
   */
  predicate IsIntSpace(c: char) {
    IsSpace(c) && !('\U{1c}' <= c <= '\U{1f}')
  }

  /** The leading `int()` whitespace removed. */
  function LTrimInt(s: string): string {
    if s != [] && IsIntSpace(s[0]) then LTrimInt(s[1..]) else s
  }

  /** The trailing `int()` whitespace removed. */
  function RTrimInt(s: string): string {
    if s != [] && IsIntSpace(s[|s| - 1]) then RTrimInt(s[..|s| - 1]) else s
  }

  /** What `int()` reads of `s`: `s` with the `int()` whitespace at both ends removed. */
  function TrimInt(s: string): string {
    RTrimInt(LTrimInt(s))
  }

  /** A string that neither starts nor ends with `int()` whitespace is read whole. */
  lemma TrimIntUnpadded(s: string)
    requires s == [] || (!IsIntSpace(s[0]) && !IsIntSpace(s[|s| - 1]))
    ensures TrimInt(s) == s
  {
  }

  /**
   * A separator U+001C to U+001F before a number makes `int()` fail,
   * although `strip()` would remove it.
   */
  lemma LeadingSeparatorRejected(t: string)
    requires |t| >= 2 && '\U{1c}' <= t[0] <= '\U{1f}'
    requires forall k :: 1 <= k < |t| ==> IsDigit(t[k])
    ensures ParseInt(t) == None
  {
    assert !IsIntSpace(t[0]);
    assert !IsIntSpace(t[|t| - 1]);
    TrimIntUnpadded(t);
    assert TrimInt(t) == t;
    assert t[0] != '+' && t[0] != '-';
    assert !IsDigit(t[0]);
    assert !IsDecimalLiteral(t);
  }

  /** A separator U+001C to U+001F after a number makes `int()` fail too. */
  lemma TrailingSeparatorRejected(t: string)
    requires |t| >= 2 && '\U{1c}' <= t[|t| - 1] <= '\U{1f}'
    requires forall k :: 0 <= k < |t| - 1 ==> IsDigit(t[k])
    ensures ParseInt(t) == None
  {
    assert !IsIntSpace(t[0]);
    assert !IsIntSpace(t[|t| - 1]);
    TrimIntUnpadded(t);
    assert TrimInt(t) == t;
    assert IsDigit(t[0]) && !IsDigit(t[|t| - 1]);
    assert !IsDecimalLiteral(t);
  }

  /**
   * `int(s)` on text: optional surrounding whitespace, an optional sign, then
   * a decimal literal; `None` stands for the ValueError raised otherwise.
   */
  function ParseInt(s: string): (r: Option<int>)
  {
    var t := TrimInt(s);
    if |t| > 0 && (t[0] == '+' || t[0] == '-') then
      var d := t[1..];
      if IsDecimalLiteral(d) then
        Some(if t[0] == '-' then -(DigitsValue(d) as int) else DigitsValue(d) as int)
      else None
    else if IsDecimalLiteral(t) then Some(DigitsValue(t) as int)
    else None
  }

  /** A non-empty run of ASCII digits parses to the number the digits spell. */
  lemma ParseDigits(s: string)
    requires s != [] && forall k :: 0 <= k < |s| ==> IsDigit(s[k])
    ensures ParseInt(s) == Some(DigitsValue(s) as int)
  {
    assert IsDigit(s[0]) && IsDigit(s[|s| - 1]);
    TrimIntUnpadded(s);
  }

  lemma {:induction false} DigitsOfNat(n: nat)
    ensures DigitsValue(NatToString(n)) == n
    decreases n
  {
    var s := NatToString(n);
    if n >= 10 {
      DigitsOfNat(n / 10);
      assert s[..|s| - 1] == NatToString(n / 10);
      assert DigitValue(s[|s| - 1]) == n % 10;
    } else {
      assert s[..0] == [];
    }
  }

  /** `int(str(i)) == i` for every integer. */
  lemma ParseIntRoundTrip(i: int)
    ensures ParseInt(IntToString(i)) == Some(i)
  {
    var s := IntToString(i);
    var n := if i < 0 then -i else i;
    var digits := NatToString(n);
    DigitsOfNat(n);
    TrimIntUnpadded(s);
    if i < 0 {
      assert s[1..] == digits;
    }
  }
}
