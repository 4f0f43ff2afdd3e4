/**
 JSON strings in lib/json/core.c: escaping on the way out, unescaping on the way in. A byte is a
 character with code below 256; a C string is a sequence of non-zero bytes.
 */
module JsonString {
  import opened Wrappers

  const QUOTE: char := '\"'
  const BACKSLASH: char := '\\'
  const BS: char := 8 as char
  const FF: char := 12 as char
  const LF: char := '\n'
  const CR: char := '\r'
  const TAB: char := '\t'

  predicate IsByte(c: char) {
    c as int < 256
  }

  /** The strings a C string can hold. */
  predicate CString(s: string) {
    forall i :: 0 <= i < |s| ==> IsByte(s[i]) && s[i] as int != 0
  }

  // ----- hexadecimal

  function HexDigit(d: nat): char
    requires d < 16
  {
    "0123456789abcdef"[d]
  }

  function HexValue(c: char): Option<nat> {
    if '0' <= c <= '9' then Some(c as int - '0' as int)
    else if 'A' <= c <= 'F' then Some(10 + c as int - 'A' as int)
    else if 'a' <= c <= 'f' then Some(10 + c as int - 'a' as int)
    else None
  }

  /** Value of the first four characters, or 0 if one of them is not a hexadecimal digit. */
  function Hex4(s: string): nat
    requires |s| >= 4
  {
    var a, b, c, d := HexValue(s[0]), HexValue(s[1]), HexValue(s[2]), HexValue(s[3]);
    if a.None? || b.None? || c.None? || d.None? then 0
    else a.value * 4096 + b.value * 256 + c.value * 16 + d.value
  }

  function HexText(n: nat): (s: string)
    requires n < 0x10000
    ensures |s| == 4
  {
    [HexDigit(n / 4096), HexDigit(n / 256 % 16), HexDigit(n / 16 % 16), HexDigit(n % 16)]
  }

  lemma {:induction false} HexValueOfDigit(d: nat)
    requires d < 16
    ensures HexValue(HexDigit(d)) == Some(d)
    ensures HexDigit(d) as int > 32 && HexDigit(d) != QUOTE && HexDigit(d) != BACKSLASH
  {
  }

  /** A hexadecimal digit in lower case; other characters as they are. */
  function Lower(c: char): char {
    if 'A' <= c <= 'F' then (c as int + 32) as char else c
  }

  function LowerAll(s: string): (r: string)
    ensures |r| == |s| && forall i :: 0 <= i < |s| ==> r[i] == Lower(s[i])
  {
    seq(|s|, i requires 0 <= i < |s| => Lower(s[i]))
  }

  /** A character has the value of the digit it is in either case, and is no digit otherwise. */
  lemma {:induction false} HexDigits(c: char)
    ensures HexValue(c).Some? <==> exists d: nat :: d < 16 && Lower(c) == HexDigit(d)
    ensures forall d: nat :: d < 16 ==> (HexValue(c) == Some(d) <==> Lower(c) == HexDigit(d))
  {
    if HexValue(c).Some? {
      assert HexValue(c).value < 16 && Lower(c) == HexDigit(HexValue(c).value);
    }
    forall d: nat | d < 16 ensures HexValue(c) == Some(d) <==> Lower(c) == HexDigit(d) {
      DigitsDiffer(c, d);
    }
  }

  lemma {:induction false} DigitsDiffer(c: char, d: nat)
    requires d < 16
    ensures HexValue(c) == Some(d) <==> Lower(c) == HexDigit(d)
  {
    if d < 10 {
      assert HexDigit(d) == ('0' as int + d) as char;
    } else {
      assert HexDigit(d) == ('a' as int + d - 10) as char;
    }
  }

  /** Four digits in any mixture of cases have the value they spell. */
  lemma {:induction false} Hex4OfText(t: string, n: nat, tail: string)
    requires n < 0x10000 && LowerAll(t) == HexText(n)
    ensures |t| == 4 && Hex4(t + tail) == n
  {
    hide HexDigit, HexValue;
    var a, b, c, d := n / 4096, n / 256 % 16, n / 16 % 16, n % 16;
    assert HexText(n)[0] == HexDigit(a) && HexText(n)[1] == HexDigit(b) && HexText(n)[2] == HexDigit(c) && HexText(n)[3] == HexDigit(d);
    HexDigits(t[0]);
    HexDigits(t[1]);
    HexDigits(t[2]);
    HexDigits(t[3]);
    Base16(n);
    var s := t + tail;
    assert s[0] == t[0] && s[1] == t[1] && s[2] == t[2] && s[3] == t[3];
  }

  /** If one of the four is no digit the value is 0. */
  lemma {:induction false} BadDigitIsZero(t: string, i: nat)
    requires |t| >= 4 && i < 4 && forall d: nat :: d < 16 ==> Lower(t[i]) != HexDigit(d)
    ensures Hex4(t) == 0
  {
    hide HexDigit, HexValue;
    HexDigits(t[i]);
  }

  lemma {:induction false} Base16(n: nat)
    ensures n / 4096 * 4096 + n / 256 % 16 * 256 + n / 16 % 16 * 16 + n % 16 == n
  {
    var a := n / 16;
    var b := a / 16;
    assert n / 256 == b && n / 4096 == b / 16;
    assert a == 16 * b + a % 16 && b == 16 * (b / 16) + b % 16;
  }

  lemma {:induction false} Base64(n: nat)
    ensures n == n / 64 * 64 + n % 64
    ensures n == n / 4096 * 4096 + n / 64 % 64 * 64 + n % 64
    ensures n == n / 262144 * 262144 + n / 4096 % 64 * 4096 + n / 64 % 64 * 64 + n % 64
  {
    var a := n / 64;
    var b := a / 64;
    assert n / 4096 == b && n / 262144 == b / 64;
    assert a == 64 * b + a % 64 && b == 64 * (b / 64) + b % 64;
  }

  // ----- UTF-8

  /** Encoding of a code point, section 3 of RFC 3629. */
  function Utf8(cp: nat): (u: string)
    requires cp <= 0x10ffff
    ensures 1 <= |u| <= 4
    ensures |u| == (if cp < 0x80 then 1 else if cp < 0x800 then 2 else if cp < 0x10000 then 3 else 4)
  {
    if cp < 0x80 then [cp as char]
    else if cp < 0x800 then [(0xc0 + cp / 64) as char, (0x80 + cp % 64) as char]
    else if cp < 0x10000 then
      [(0xe0 + cp / 4096) as char, (0x80 + cp / 64 % 64) as char, (0x80 + cp % 64) as char]
    else
      [(0xf0 + cp / 262144) as char, (0x80 + cp / 4096 % 64) as char, (0x80 + cp / 64 % 64) as char, (0x80 + cp % 64) as char]
  }

  /** Reads one encoded code point: how many bytes it takes is in the first byte. */
  function Utf8Decode(u: string): Option<nat> {
    if |u| == 1 && u[0] as int < 0x80 then Some(u[0] as int)
    else if |u| == 2 && 0xc0 <= u[0] as int < 0xe0 && u[1] as int >= 0x80 then
      Some((u[0] as int - 0xc0) * 64 + (u[1] as int - 0x80))
    else if |u| == 3 && 0xe0 <= u[0] as int < 0xf0 && u[1] as int >= 0x80 && u[2] as int >= 0x80 then
      Some((u[0] as int - 0xe0) * 4096 + (u[1] as int - 0x80) * 64 + (u[2] as int - 0x80))
    else if |u| == 4 && 0xf0 <= u[0] as int < 0xf8 && u[1] as int >= 0x80 && u[2] as int >= 0x80 && u[3] as int >= 0x80 then
      Some((u[0] as int - 0xf0) * 262144 + (u[1] as int - 0x80) * 4096 + (u[2] as int - 0x80) * 64 + (u[3] as int - 0x80))
    else None
  }

  lemma {:induction false} Utf8RoundTrip(cp: nat)
    requires cp <= 0x10ffff
    ensures Utf8Decode(Utf8(cp)) == Some(cp)
  {
    Base64(cp);
  }

  /** A decoded literal: its bytes and how many input characters it took. */
  datatype Literal = Literal(bytes: string, taken: nat)

  predicate IsHighSurrogate(c: nat) { 0xd800 <= c <= 0xdbff }

  predicate IsLowSurrogate(c: nat) { 0xdc00 <= c <= 0xdfff }

  /** A literal of one or two \\uXXXX sequences within the first `n` characters of `s`. */
  function Utf16Literal(s: string, n: nat): (r: Option<Literal>)
    requires n <= |s|
    ensures r.Some? ==> 1 <= |r.value.bytes| && r.value.taken <= n && 2 * |r.value.bytes| <= r.value.taken
  {
    if n < 6 then None
    else
      var first := Hex4(s[2..]);
      if IsLowSurrogate(first) then None
      else if IsHighSurrogate(first) then
        if n < 12 || s[6] != BACKSLASH || s[7] != 'u' then None
        else
          var second := Hex4(s[8..]);
          if !IsLowSurrogate(second) then None
          else Some(Literal(Utf8(0x10000 + first % 1024 * 1024 + second % 1024), 12))
      else if first > 0x10ffff then None
      else Some(Literal(Utf8(first), 6))
  }

  // ----- printing

  function Escape(c: char): (e: string)
    ensures |e| > 0
  {
    if c == QUOTE then [BACKSLASH, QUOTE]
    else if c == BACKSLASH then [BACKSLASH, BACKSLASH]
    else if c == BS then [BACKSLASH, 'b']
    else if c == FF then [BACKSLASH, 'f']
    else if c == LF then [BACKSLASH, 'n']
    else if c == CR then [BACKSLASH, 'r']
    else if c == TAB then [BACKSLASH, 't']
    else if c as int < 32 then [BACKSLASH, 'u'] + HexText(c as int)
    else [c]
  }

  function EscapeAll(s: string): string {
    if s == [] then [] else Escape(s[0]) + EscapeAll(s[1..])
  }

  function PrintString(s: string): string {
    [QUOTE] + EscapeAll(s) + [QUOTE]
  }

  // ----- parsing

  /** First pass: distance to the closing quote, a backslash hiding whatever follows it. */
  function EndOf(s: string): (e: Option<nat>)
    ensures e.Some? ==> e.value < |s| && s[e.value] == QUOTE
  {
    if s == [] then None
    else if s[0] == QUOTE then Some(0)
    else if s[0] == BACKSLASH then
      if |s| < 2 then None
      else
        var e := EndOf(s[2..]);
        if e.None? then None else Some(e.value + 2)
    else
      var e := EndOf(s[1..]);
      if e.None? then None else Some(e.value + 1)
  }

  function SimpleEscape(c: char): Option<char> {
    if c == 'b' then Some(BS)
    else if c == 'f' then Some(FF)
    else if c == 'n' then Some(LF)
    else if c == 'r' then Some(CR)
    else if c == 't' then Some(TAB)
    else if c == QUOTE || c == BACKSLASH || c == '/' then Some(c)
    else None
  }

  function Prepend(x: string, r: Option<string>): Option<string> {
    if r.None? then None else Some(x + r.value)
  }

  /** Second pass over the `n` characters before the closing quote. */
  function Unescape(s: string, n: int): Option<string>
    requires n < |s|
    decreases n
  {
    if n <= 0 then Some([])
    else if s[0] != BACKSLASH then Prepend([s[0]], Unescape(s[1..], n - 1))
    else if s[1] == 'u' then
      var l := Utf16Literal(s, n);
      if l.None? then None else Prepend(l.value.bytes, Unescape(s[l.value.taken..], n - l.value.taken))
    else
      var c := SimpleEscape(s[1]);
      if c.None? then None else Prepend([c.value], Unescape(s[2..], n - 2))
  }

  /** Parses a string literal at the front of `s`; gives its value and what follows it. */
  function ParseString(s: string): (r: Option<(string, string)>)
    ensures r.Some? ==> |r.value.1| < |s|
  {
    if s == [] || s[0] != QUOTE then None
    else
      var e := EndOf(s[1..]);
      if e.None? then None
      else
        var v := Unescape(s[1..], e.value);
        if v.None? then None else Some((v.value, s[e.value + 2..]))
  }

  // ----- round trip

  lemma {:induction false} PlainTail(x: string, s: string)
    requires forall i :: 0 <= i < |x| ==> x[i] != QUOTE && x[i] != BACKSLASH
    ensures EndOf(x + s) == if EndOf(s).None? then None else Some(|x| + EndOf(s).value)
  {
    if x == [] {
      assert x + s == s;
    } else {
      assert (x + s)[1..] == x[1..] + s;
      PlainTail(x[1..], s);
    }
  }

  /** The first pass steps over an escape whole. */
  lemma {:induction false} EndPastEscape(c: char, s: string)
    requires c as int != 0
    ensures EndOf(Escape(c) + s) == if EndOf(s).None? then None else Some(|Escape(c)| + EndOf(s).value)
  {
    hide Escape, EndOf;
    EscapeForm(c);
    var e := Escape(c);
    if |e| == 1 {
      PlainTail(e, s);
    } else {
      if |e| == 2 {
        PlainTail([], s);
        assert e == [BACKSLASH, e[1]] + [];
      } else {
        HexIsPlain(c as int);
        PlainTail(HexText(c as int), s);
        assert e == [BACKSLASH, 'u'] + HexText(c as int);
      }
      EndPastPair(e, s);
    }
  }

  /** The first pass takes a backslash together with what follows it. */
  lemma {:induction false} EndPastPair(e: string, s: string)
    requires |e| >= 2 && e[0] == BACKSLASH
    ensures EndOf(e + s) == if EndOf(e[2..] + s).None? then None else Some(2 + EndOf(e[2..] + s).value)
  {
    assert (e + s)[2..] == e[2..] + s;
  }

  lemma {:induction false} HexIsPlain(n: nat)
    requires n < 0x10000
    ensures forall i :: 0 <= i < 4 ==> HexText(n)[i] != QUOTE && HexText(n)[i] != BACKSLASH
  {
    hide HexDigit;
    HexValueOfDigit(n / 4096);
    HexValueOfDigit(n / 256 % 16);
    HexValueOfDigit(n / 16 % 16);
    HexValueOfDigit(n % 16);
  }

  /** The second pass turns an escape back into its character. */
  lemma {:induction false} UnescapeEscape(c: char, s: string, n: nat)
    requires c as int != 0 && n < |s|
    ensures Unescape(Escape(c) + s, |Escape(c)| + n) == Prepend([c], Unescape(s, n))
  {
    EscapeForm(c);
    if |Escape(c)| == 1 {
      assert (Escape(c) + s)[1..] == s;
    } else if |Escape(c)| == 2 {
      var l := Escape(c)[1];
      assert Escape(c) == [BACKSLASH, l];
      hide Unescape;
      TwoCharacterEscapes(l, s, n);
    } else {
      hide Unescape, Escape;
      LowerText(c as int);
      UnescapeUnit(HexText(c as int), c as int, s, n);
      SmallUtf8(c as int);
    }
  }

  lemma {:induction false} SmallUtf8(cp: nat)
    requires cp < 0x80
    ensures Utf8(cp) == [cp as char]
  {
  }

  lemma {:induction false} EscapedRoundTrip(x: string, rest: string)
    requires forall i :: 0 <= i < |x| ==> x[i] as int != 0
    ensures EndOf(EscapeAll(x) + ([QUOTE] + rest)) == Some(|EscapeAll(x)|)
    ensures Unescape(EscapeAll(x) + ([QUOTE] + rest), |EscapeAll(x)|) == Some(x)
  {
    hide Escape, EndOf, Unescape;
    var tail := [QUOTE] + rest;
    if x == [] {
      NothingEscaped(rest);
      assert EscapeAll(x) + tail == tail;
    } else {
      var s := EscapeAll(x[1..]) + tail;
      EscapedRoundTrip(x[1..], rest);
      assert EscapeAll(x) + tail == Escape(x[0]) + s;
      EscapedStep(x[0], s, |EscapeAll(x[1..])|, x[1..]);
      assert [x[0]] + x[1..] == x;
    }
  }

  lemma {:induction false} NothingEscaped(rest: string)
    ensures EndOf([QUOTE] + rest) == Some(0) && Unescape([QUOTE] + rest, 0) == Some([])
  {
  }

  lemma {:induction false} EscapedStep(c: char, s: string, n: nat, y: string)
    requires c as int != 0 && EndOf(s) == Some(n) && Unescape(s, n) == Some(y)
    ensures EndOf(Escape(c) + s) == Some(|Escape(c)| + n)
    ensures Unescape(Escape(c) + s, |Escape(c)| + n) == Some([c] + y)
  {
    hide Escape, EndOf, Unescape;
    EndPastEscape(c, s);
    UnescapeEscape(c, s, n);
  }

  /** For every C string, parsing what is printed gives back the string and what followed it. */
  lemma {:induction false} StringRoundTrip(x: string, rest: string)
    requires CString(x)
    ensures ParseString(PrintString(x) + rest) == Some((x, rest))
  {
    hide EscapeAll, EndOf, Unescape;
    var s := PrintString(x) + rest;
    assert s[1..] == EscapeAll(x) + ([QUOTE] + rest);
    EscapedRoundTrip(x, rest);
    assert s[|EscapeAll(x)| + 2..] == rest;
  }

  /** The escape sequences of a code point outside the surrogate range. */
  function UnicodeEscape(cp: nat): string
    requires cp <= 0x10ffff && !(0xd800 <= cp <= 0xdfff)
  {
    if cp < 0x10000 then [BACKSLASH, 'u'] + HexText(cp)
    else [BACKSLASH, 'u'] + HexText(0xd800 + (cp - 0x10000) / 1024) + [BACKSLASH, 'u'] + HexText(0xdc00 + (cp - 0x10000) % 1024)
  }

  /** Every code point written as \\u escapes, digits in either case, as section 7 of RFC 8259 has it, is read as its UTF-8 bytes. */
  lemma {:induction false} UnicodeEscapeIsRead(e: string, cp: nat, s: string, n: nat)
    requires cp <= 0x10ffff && !(0xd800 <= cp <= 0xdfff) && n < |s| && LowerAll(e) == UnicodeEscape(cp)
    ensures Unescape(e + s, |e| + n) == Prepend(Utf8(cp), Unescape(s, n))
  {
    hide Hex4, HexText, Utf8, Unescape;
    if cp < 0x10000 {
      SpelledUnit(e, cp);
      UnescapeUnit(e[2..], cp, s, n);
      assert e + s == [BACKSLASH, 'u'] + e[2..] + s;
    } else {
      var hi, lo := 0xd800 + (cp - 0x10000) / 1024, 0xdc00 + (cp - 0x10000) % 1024;
      assert UnicodeEscape(cp)[..6] == [BACKSLASH, 'u'] + HexText(hi) && UnicodeEscape(cp)[6..] == [BACKSLASH, 'u'] + HexText(lo);
      SpelledUnit(e[..6], hi);
      SpelledUnit(e[6..], lo);
      UnescapePair(e[..6][2..], e[6..][2..], hi, lo, s, n);
      assert 0x10000 + hi % 1024 * 1024 + lo % 1024 == cp;
      assert e + s == [BACKSLASH, 'u'] + e[..6][2..] + [BACKSLASH, 'u'] + e[6..][2..] + s;
    }
  }

  lemma {:induction false} SpelledUnit(e: string, c: nat)
    requires c < 0x10000 && LowerAll(e) == [BACKSLASH, 'u'] + HexText(c)
    ensures |e| == 6 && e == [BACKSLASH, 'u'] + e[2..] && LowerAll(e[2..]) == HexText(c)
  {
    hide HexText;
    var l := LowerAll(e);
    assert l[0] == BACKSLASH && l[1] == 'u' && l[2..] == HexText(c);
  }

  lemma {:induction false} LowerText(c: nat)
    requires c < 0x10000
    ensures LowerAll(HexText(c)) == HexText(c)
  {
    forall d: nat | d < 16 ensures Lower(HexDigit(d)) == HexDigit(d) {}
    hide HexDigit;
    var t := HexText(c);
    assert Lower(t[0]) == t[0] && Lower(t[1]) == t[1] && Lower(t[2]) == t[2] && Lower(t[3]) == t[3];
  }

  lemma {:induction false} UnescapeUnit(d: string, c: nat, s: string, n: nat)
    requires c < 0x10000 && !IsHighSurrogate(c) && !IsLowSurrogate(c) && n < |s| && LowerAll(d) == HexText(c)
    ensures Unescape([BACKSLASH, 'u'] + d + s, 6 + n) == Prepend(Utf8(c), Unescape(s, n))
  {
    hide Hex4, HexText, Utf8;
    var t := [BACKSLASH, 'u'] + d + s;
    assert t[2..] == d + s;
    Hex4OfText(d, c, s);
    assert t[6..] == s;
  }

  lemma {:induction false} UnescapePair(d: string, e: string, hi: nat, lo: nat, s: string, n: nat)
    requires IsHighSurrogate(hi) && IsLowSurrogate(lo) && n < |s| && LowerAll(d) == HexText(hi) && LowerAll(e) == HexText(lo)
    ensures Unescape([BACKSLASH, 'u'] + d + [BACKSLASH, 'u'] + e + s, 12 + n) ==
            Prepend(Utf8(0x10000 + hi % 1024 * 1024 + lo % 1024), Unescape(s, n))
  {
    hide Hex4, HexText, Utf8;
    var t := [BACKSLASH, 'u'] + d + [BACKSLASH, 'u'] + e + s;
    var after := [BACKSLASH, 'u'] + e + s;
    assert t[2..] == d + after;
    Hex4OfText(d, hi, after);
    assert t[6] == BACKSLASH && t[7] == 'u';
    assert t[8..] == e + s;
    Hex4OfText(e, lo, s);
    assert t[12..] == s;
  }

  // ----- what else is read, and what is not

  /** The eight escapes of two characters and what they stand for; after a backslash no other character but u is accepted. */
  lemma {:induction false} TwoCharacterEscapes(c: char, s: string, n: nat)
    requires n < |s| && c != 'u'
    ensures var r := Unescape([BACKSLASH, c] + s, 2 + n);
            if c == QUOTE || c == BACKSLASH || c == '/' then r == Prepend([c], Unescape(s, n))
            else if c == 'b' then r == Prepend([8 as char], Unescape(s, n))
            else if c == 'f' then r == Prepend([12 as char], Unescape(s, n))
            else if c == 'n' then r == Prepend([10 as char], Unescape(s, n))
            else if c == 'r' then r == Prepend([13 as char], Unescape(s, n))
            else if c == 't' then r == Prepend([9 as char], Unescape(s, n))
            else r.None?
  {
    var t := [BACKSLASH, c] + s;
    assert t[2..] == s && t[0] == BACKSLASH && t[1] == c;
  }

  /** A low surrogate on its own, or a high one not followed by a low one, is not accepted. */
  lemma {:induction false} LoneSurrogates(d: string, c: nat, s: string, n: nat)
    requires n < |s| && 0xd800 <= c <= 0xdfff && LowerAll(d) == HexText(c)
    requires 0xd800 <= c <= 0xdbff ==>
               n < 6 || s[0] != BACKSLASH || s[1] != 'u' || !(0xdc00 <= Hex4(s[2..]) <= 0xdfff)
    ensures Unescape([BACKSLASH, 'u'] + d + s, 6 + n).None?
  {
    hide Hex4, HexText, Utf8;
    var t := [BACKSLASH, 'u'] + d + s;
    assert t[2..] == d + s;
    Hex4OfText(d, c, s);
    if 0xd800 <= c <= 0xdbff && n >= 6 {
      assert t[6] == s[0] && t[7] == s[1] && t[8..] == s[2..];
    }
  }

  /** Four characters that are not all digits are read as code point 0, and so is 0000. */
  lemma {:induction false} BadDigitsAreRead(d: string, i: nat, s: string, n: nat)
    requires n < |s| && |d| == 4 && i < 4 && forall k: nat :: k < 16 ==> Lower(d[i]) != HexDigit(k)
    ensures Unescape([BACKSLASH, 'u'] + d + s, 6 + n) == Prepend([0 as char], Unescape(s, n))
  {
    hide Hex4;
    var t := [BACKSLASH, 'u'] + d + s;
    assert t[2..] == d + s && (d + s)[i] == d[i];
    BadDigitIsZero(d + s, i);
    assert t[6..] == s;
  }

  /** What the printer writes for a character: itself if it is printable and neither quote nor backslash. */
  lemma {:induction false} EscapeForm(c: char)
    ensures c as int >= 32 && c != QUOTE && c != BACKSLASH <==> Escape(c) == [c]
    ensures Escape(c) != [c] ==> Escape(c)[0] == BACKSLASH
    ensures |Escape(c)| == 1 <==> Escape(c) == [c]
    ensures |Escape(c)| == 2 <==> c == QUOTE || c == BACKSLASH || c as int in {8, 9, 10, 12, 13}
    ensures |Escape(c)| > 2 ==> Escape(c) == [BACKSLASH, 'u'] + HexText(c as int)
  {
  }
}
