/**
 The two-pass string routines of lib/json/core.c on real buffers: a first pass sizes the output,
 a second fills it. Every write is inside what the first pass allowed for.
 */
module JsonStringBuffers {
  import opened Wrappers
  import opened JsonString

  const NUL: char := 0 as char

  // ----- printing

  lemma {:induction false} EscapeAllFrom(s: string, i: nat)
    requires i < |s|
    ensures EscapeAll(s[i..]) == Escape(s[i]) + EscapeAll(s[i + 1..])
  {
    assert s[i..][1..] == s[i + 1..];
  }

  lemma {:induction false} NoEscapes(s: string)
    ensures |EscapeAll(s)| >= |s|
    ensures |EscapeAll(s)| == |s| ==> EscapeAll(s) == s
  {
    if s != [] {
      NoEscapes(s[1..]);
      assert s == [s[0]] + s[1..];
    }
  }

  /** Extra characters that printing `c` takes, as the first pass counts them. */
  function Extra(c: char): (x: nat)
    ensures x == |Escape(c)| - 1
  {
    if c == QUOTE || c == BACKSLASH || c == BS || c == FF || c == LF || c == CR || c == TAB then 1
    else if c as int < 32 then 5
    else 0
  }

  /** Writes the escape of `c` at `at`, and returns the position after it. */
  method WriteEscape(output: array<char>, at: nat, c: char) returns (next: nat)
    requires at + |Escape(c)| < output.Length
    modifies output
    ensures next == at + |Escape(c)| && output[at..next] == Escape(c)
    ensures forall i :: 0 <= i < at ==> output[i] == old(output[i])
  {
    if c as int > 31 && c != QUOTE && c != BACKSLASH {
      output[at] := c;
      return at + 1;
    }
    output[at] := BACKSLASH;
    if Extra(c) == 1 {
      output[at + 1] := Shorthand(c);
      next := at + 2;
    } else {
      WriteHex(output, at + 1, c as int);
      next := at + 6;
    }
  }

  /** The letter after the backslash in the two-character escapes. */
  function Shorthand(c: char): (l: char)
    requires Extra(c) == 1
    ensures Escape(c) == [BACKSLASH, l]
  {
    if c == BACKSLASH then BACKSLASH
    else if c == QUOTE then QUOTE
    else if c == BS then 'b'
    else if c == FF then 'f'
    else if c == LF then 'n'
    else if c == CR then 'r'
    else 't'
  }

  /** `u` and four hexadecimal digits, followed by the terminator that formatted printing adds. */
  method WriteHex(output: array<char>, at: nat, n: nat)
    requires n < 0x10000 && at + 5 < output.Length
    modifies output
    ensures output[at..at + 5] == ['u'] + HexText(n)
    ensures forall i :: 0 <= i < at ==> output[i] == old(output[i])
  {
    var hex := HexText(n);
    output[at] := 'u';
    for k := 0 to 4
      invariant output[at] == 'u' && forall i :: 0 <= i < k ==> output[at + 1 + i] == hex[i]
      invariant forall i :: 0 <= i < at ==> output[i] == old(output[i])
    {
      output[at + 1 + k] := hex[k];
    }
    output[at + 5] := NUL;
  }

  /** First pass: how many characters escaping adds. */
  method CountEscapes(input: string) returns (escapeCharacters: nat)
    ensures |input| + escapeCharacters == |EscapeAll(input)|
  {
    hide Escape, EscapeAll;
    escapeCharacters := 0;
    var i := 0;
    assert input[0..] == input;
    while i < |input|
      invariant i <= |input|
      invariant i + escapeCharacters + |EscapeAll(input[i..])| == |EscapeAll(input)|
    {
      EscapeAllFrom(input, i);
      escapeCharacters := escapeCharacters + Extra(input[i]);
      i := i + 1;
    }
    NothingToEscape(input);
  }

  /** Second pass: the escaped characters, from `base` on. */
  method FillEscaped(output: array<char>, base: nat, input: string)
    requires base + |EscapeAll(input)| + 2 <= output.Length
    modifies output
    ensures output[base..base + |EscapeAll(input)|] == EscapeAll(input)
    ensures forall i :: 0 <= i < base ==> output[i] == old(output[i])
  {
    hide Escape, EscapeAll;
    var i, at := 0, base;
    assert input[0..] == input;
    while i < |input|
      invariant i <= |input| && base <= at && forall k :: 0 <= k < base ==> output[k] == old(output[k])
      invariant at + |EscapeAll(input[i..])| == base + |EscapeAll(input)|
      invariant output[base..at] + EscapeAll(input[i..]) == EscapeAll(input)
    {
      EscapeAllFrom(input, i);
      ghost var before, was := output[base..at], at;
      at := WriteEscape(output, at, input[i]);
      assert output[base..at] == before + output[was..at];
      i := i + 1;
    }
    NothingToEscape(input);
  }

  /** Prints a string at `base`: quote, characters, quote and terminator fill exactly the size found by counting. */
  method PrintStringAt(output: array<char>, base: nat, input: string, escapeCharacters: nat)
    requires |input| + escapeCharacters == |EscapeAll(input)|
    requires base + |input| + escapeCharacters + 3 <= output.Length
    modifies output
    ensures |PrintString(input)| == |input| + escapeCharacters + 2
    ensures output[..base + |PrintString(input)|] == old(output[..base]) + PrintString(input)
    ensures output[base + |PrintString(input)|] == NUL
  {
    hide Escape, EscapeAll;
    var outputLength := |input| + escapeCharacters;
    output[base] := QUOTE;
    if escapeCharacters == 0 {
      NoEscapes(input);
      forall k | 0 <= k < |input| {
        output[base + 1 + k] := input[k];
      }
      assert output[base + 1..base + 1 + outputLength] == input;
    } else {
      FillEscaped(output, base + 1, input);
    }
    output[base + outputLength + 1] := QUOTE;
    output[base + outputLength + 2] := NUL;
    assert output[..base + outputLength + 2] ==
           output[..base] + [output[base]] + output[base + 1..base + 1 + outputLength] + [output[base + outputLength + 1]];
    assert output[..base] == old(output[..base]);
  }

  lemma {:induction false} NothingToEscape(s: string)
    ensures EscapeAll(s[|s|..]) == []
  {
  }

  // ----- parsing

  /** Backslashes the first pass counts as skipped, up to the closing quote. */
  function Skips(s: string): nat {
    if s == [] || s[0] == QUOTE then 0
    else if s[0] == BACKSLASH then
      if |s| < 2 then 0 else 1 + Skips(s[2..])
    else Skips(s[1..])
  }

  /**
   The first pass and the second may be out of step after a malformed escape. `q` is the first
   position not before `p` where a unit of the first pass starts.
   */
  ghost predicate InStep(s: string, p: nat, q: nat, end: nat) {
    p <= q <= p + 1 && q <= end < |s| && EndOf(s[q..]) == Some(end - q)
  }

  /** One character on: at most one more skip, and none right after another. */
  lemma {:induction false} StepOne(s: string, p: nat, q: nat, end: nat) returns (q': nat)
    requires InStep(s, p, q, end) && p < end
    ensures InStep(s, p + 1, q', end)
    ensures q == p + 1 ==> q' == p + 1 && Skips(s[q'..]) == Skips(s[q..])
    ensures q == p ==> Skips(s[q..]) == Skips(s[q'..]) + (if q' == p + 2 then 1 else 0)
    ensures q == p ==> (s[p] == BACKSLASH <==> q' == p + 2)
  {
    if q == p + 1 {
      q' := q;
    } else if s[p] == BACKSLASH {
      q' := p + 2;
      assert s[p..][2..] == s[p + 2..];
    } else {
      q' := p + 1;
      assert s[p..][1..] == s[p + 1..];
    }
  }

  /** In any window of `n` characters the first pass skips at most half of them, rounded up. */
  lemma {:induction false} WindowSkips(s: string, p: nat, q: nat, end: nat, n: nat) returns (q': nat)
    requires InStep(s, p, q, end) && p + n <= end
    ensures InStep(s, p + n, q', end)
    ensures 2 * Skips(s[q..]) <= 2 * Skips(s[q'..]) + n + (if q == p then 1 else 0)
    decreases n
  {
    hide Skips, EndOf;
    if n == 0 {
      q' := q;
    } else {
      var q1 := StepOne(s, p, q, end);
      q' := WindowSkips(s, p + 1, q1, end, n - 1);
    }
  }

  /** Room the second pass still has when it stands at `p`, given what it has written. */
  ghost predicate Room(s: string, p: nat, q: nat, end: nat, written: nat, capacity: nat) {
    if p <= end then InStep(s, p, q, end) && written + (end - p) <= capacity + Skips(s[q..])
    else written <= capacity
  }

  /** A plain character, an escape of two, and a unicode literal all fit the room their input leaves. */
  lemma {:induction false} RoomAfter(s: string, p: nat, q: nat, end: nat, written: nat, capacity: nat, taken: nat, bytes: nat)
    returns (q': nat)
    requires Room(s, p, q, end, written, capacity) && p < end
    requires (taken == 1 && bytes == 1 && s[p] != BACKSLASH) || (taken == 2 && bytes == 1 && s[p] == BACKSLASH) ||
             (taken >= 6 && p + taken <= end && 2 * bytes <= taken && taken % 2 == 0)
    ensures Room(s, p + taken, q', end, written + bytes, capacity)
    ensures written + bytes <= capacity
  {
    hide Skips, EndOf;
    if taken == 1 {
      q' := StepOne(s, p, q, end);
      SkipsWithin(s, p + 1, q', end);
    } else if p + taken > end {
      q' := q;
      LastBackslash(s, p, q, end);
    } else {
      q' := WindowSkips(s, p, q, end, taken);
      SkipsWithin(s, p + taken, q', end);
    }
  }

  /** The first pass never stops on a lone backslash, so there the passes are out of step. */
  lemma {:induction false} LastBackslash(s: string, p: nat, q: nat, end: nat)
    requires InStep(s, p, q, end) && p + 1 == end && s[p] == BACKSLASH
    ensures q == end && Skips(s[q..]) == 0
  {
    assert s[end..][0] == s[end];
    if q == p {
      var q' := StepOne(s, p, q, end);
    }
  }

  /** Skips lie strictly inside the text. */
  lemma {:induction false} SkipsWithin(s: string, p: nat, q: nat, end: nat)
    requires InStep(s, p, q, end)
    ensures Skips(s[q..]) <= end - q
  {
    SkipsBound(s[q..]);
  }

  lemma {:induction false} SkipsBound(t: string)
    requires EndOf(t).Some?
    ensures 2 * Skips(t) <= EndOf(t).value
  {
    if t != [] && t[0] != QUOTE {
      if t[0] == BACKSLASH {
        SkipsBound(t[2..]);
      } else {
        SkipsBound(t[1..]);
      }
    }
  }

  // ----- the parser's buffers

  method ParseHex4(input: string) returns (h: nat)
    requires |input| >= 4
    ensures h == Hex4(input)
  {
    HexPrefixOfFour(input);
    h := 0;
    for i := 0 to 4
      invariant HexPrefix(input, i).Some? && h == HexPrefix(input, i).value * (if i == 0 || i == 4 then 1 else 16)
    {
      var v := HexValue(input[i]);
      if v.None? {
        BadDigit(input, i);
        return 0;
      }
      h := h + v.value;
      if i < 3 {
        h := h * 16;
      }
    }
  }

  /** Value of the first `k` digits. */
  ghost function HexPrefix(s: string, k: nat): Option<nat>
    requires k <= |s|
  {
    if k == 0 then Some(0)
    else
      var before, v := HexPrefix(s, k - 1), HexValue(s[k - 1]);
      if before.None? || v.None? then None else Some(before.value * 16 + v.value)
  }

  lemma {:induction false} HexPrefixOfFour(s: string)
    requires |s| >= 4
    ensures Hex4(s) == if HexPrefix(s, 4).None? then 0 else HexPrefix(s, 4).value
  {
    hide HexValue;
    assert HexPrefix(s, 0) == Some(0);
    assert HexPrefix(s, 1) == HexValue(s[0]);
    assert HexPrefix(s, 2).Some? <==> HexValue(s[0]).Some? && HexValue(s[1]).Some?;
    assert HexPrefix(s, 3).Some? <==> HexPrefix(s, 2).Some? && HexValue(s[2]).Some?;
  }

  lemma {:induction false} BadDigit(s: string, i: nat)
    requires |s| >= 4 && i < 4 && HexValue(s[i]).None?
    ensures Hex4(s) == 0
  {
  }

  /** Writes the UTF-8 bytes of a code point, continuation bytes from the back. */
  method WriteUtf8(output: array<char>, at: nat, cp: nat) returns (next: nat)
    requires cp <= 0x10ffff && at + |Utf8(cp)| <= output.Length
    modifies output
    ensures next == at + |Utf8(cp)| && output[at..next] == Utf8(cp)
    ensures forall i :: 0 <= i < at ==> output[i] == old(output[i])
  {
    hide Utf8;
    var length := if cp < 0x80 then 1 else if cp < 0x800 then 2 else if cp < 0x10000 then 3 else 4;
    var position: nat, left: nat := length - 1, cp;
    while position > 0
      invariant position < length && left == Shifted(cp, length - 1 - position)
      invariant forall i :: at + position < i < at + length ==> output[i] == Utf8(cp)[i - at]
      invariant forall i :: 0 <= i < at ==> output[i] == old(output[i])
    {
      Utf8Byte(cp, position);
      output[at + position] := (0x80 + left % 64) as char;
      left := left / 64;
      position := position - 1;
    }
    Utf8Byte(cp, 0);
    output[at] := (Mark(length) + left) as char;
    next := at + length;
  }

  /** High bits of the first byte of an encoding of the given length. */
  function Mark(length: nat): nat {
    if length == 1 then 0 else if length == 2 then 0xc0 else if length == 3 then 0xe0 else 0xf0
  }

  /** A code point after `k` shifts by six. */
  function Shifted(cp: nat, k: nat): nat {
    if k == 0 then cp else Shifted(cp, k - 1) / 64
  }

  lemma {:induction false} Utf8Byte(cp: nat, position: nat)
    requires cp <= 0x10ffff && position < |Utf8(cp)|
    ensures var left := Shifted(cp, |Utf8(cp)| - 1 - position);
            && (position > 0 ==> Utf8(cp)[position] == (0x80 + left % 64) as char)
            && (position == 0 ==> Mark(|Utf8(cp)|) + left < 0xf8 && Utf8(cp)[0] == (Mark(|Utf8(cp)|) + left) as char)
  {
    var a := cp / 64;
    var b := a / 64;
    assert cp / 4096 == b && cp / 262144 == b / 64;
    assert Shifted(cp, 0) == cp;
    assert Shifted(cp, 1) == a;
    assert Shifted(cp, 2) == b;
    assert Shifted(cp, 3) == b / 64;
  }

  /** Decodes a literal at `p` into the buffer; 0 characters taken means it is malformed. */
  method Utf16LiteralToUtf8(content: string, p: nat, end: nat, output: array<char>, at: nat) returns (taken: nat, next: nat)
    requires p <= end < |content|
    requires var l := Utf16Literal(content[p..], end - p); l.Some? ==> at + |l.value.bytes| <= output.Length
    modifies output
    ensures var l := Utf16Literal(content[p..], end - p);
            if l.None? then taken == 0
            else taken == l.value.taken && next == at + |l.value.bytes| && next <= output.Length && output[at..next] == l.value.bytes
    ensures forall i :: 0 <= i < at && i < output.Length ==> output[i] == old(output[i])
  {
    hide Utf8, Hex4;
    if end - p < 6 {
      return 0, at;
    }
    assert content[p..][2..] == content[p + 2..];
    var firstCode := ParseHex4(content[p + 2..]);
    if 0xdc00 <= firstCode <= 0xdfff {
      return 0, at;
    }
    var codepoint := firstCode;
    taken := 6;
    if 0xd800 <= firstCode <= 0xdbff {
      if end - (p + 6) < 6 || content[p + 6] != BACKSLASH || content[p + 7] != 'u' {
        return 0, at;
      }
      assert content[p..][8..] == content[p + 8..];
      var secondCode := ParseHex4(content[p + 8..]);
      if secondCode < 0xdc00 || secondCode > 0xdfff {
        return 0, at;
      }
      codepoint := 0x10000 + firstCode % 1024 * 1024 + secondCode % 1024;
      taken := 12;
    }
    if codepoint > 0x10ffff {
      return 0, at;
    }
    next := WriteUtf8(output, at, codepoint);
  }

  /** First pass: where the string ends and how many backslashes were stepped over. */
  method FindEnd(content: string, begin: nat) returns (end: Option<nat>, skipped: nat)
    requires begin <= |content|
    ensures end.Some? <==> EndOf(content[begin..]).Some?
    ensures end.Some? ==> begin <= end.value < |content| && EndOf(content[begin..]) == Some(end.value - begin)
    ensures end.Some? ==> skipped == Skips(content[begin..])
  {
    hide EndOf, Skips;
    var e := begin;
    skipped := 0;
    while e < |content| && content[e] != QUOTE
      invariant begin <= e <= |content|
      invariant EndOf(content[begin..]) == Further(e - begin, EndOf(content[e..]))
      invariant EndOf(content[e..]).Some? ==> Skips(content[begin..]) == skipped + Skips(content[e..])
    {
      UnitStep(content, e);
      if content[e] == BACKSLASH {
        if e + 1 >= |content| {
          return None, skipped;
        }
        skipped := skipped + 1;
        e := e + 1;
      }
      e := e + 1;
    }
    EndHere(content[e..]);
    if e >= |content| {
      return None, skipped;
    }
    end := Some(e);
  }

  function Further(n: nat, e: Option<nat>): Option<nat> {
    if e.None? then None else Some(n + e.value)
  }

  /** One unit of the first pass. */
  lemma {:induction false} UnitStep(s: string, e: nat)
    requires e < |s| && s[e] != QUOTE
    ensures s[e] != BACKSLASH ==> EndOf(s[e..]) == Further(1, EndOf(s[e + 1..])) && Skips(s[e..]) == Skips(s[e + 1..])
    ensures s[e] == BACKSLASH && e + 1 < |s| ==>
              EndOf(s[e..]) == Further(2, EndOf(s[e + 2..])) && Skips(s[e..]) == 1 + Skips(s[e + 2..])
    ensures s[e] == BACKSLASH && e + 1 == |s| ==> EndOf(s[e..]).None?
  {
    assert s[e..][1..] == s[e + 1..];
    if e + 1 < |s| {
      assert s[e..][2..] == s[e + 2..];
    }
  }

  lemma {:induction false} EndHere(t: string)
    requires t == [] || t[0] == QUOTE
    ensures EndOf(t) == (if t == [] then None else Some(0)) && Skips(t) == 0
  {
  }

  /**
   Second pass: fills the buffer from the text between the quotes. `at` never passes the capacity
   that the first pass left, whatever the text.
   */
  method FillUnescaped(content: string, begin: nat, end: nat, output: array<char>) returns (ok: bool, at: nat)
    requires begin <= end < |content| && EndOf(content[begin..]) == Some(end - begin)
    requires output.Length == end - begin - Skips(content[begin..]) + 2
    modifies output
    ensures at < output.Length
    ensures Unescape(content[begin..], end - begin) == if ok then Some(output[..at]) else None
  {
    hide Utf16Literal, SimpleEscape, EndOf, Skips, Unescape, Room, Prepend;
    RoomAtStart(content, begin, end);
    ghost var whole := Unescape(content[begin..], end - begin);
    ghost var q: nat := begin;
    ghost var capacity := output.Length - 2;
    var p := begin;
    at := 0;
    PrependNothing(whole);
    while p < end
      invariant begin <= p <= end + 1 && at <= capacity
      invariant p <= end ==> Room(content, p, q, end, at, capacity)
      invariant whole == Prepend(output[..at], Unescape(content[p..], end - p))
    {
      ghost var done, rest := output[..at], content[p..];
      UnescapeStep(rest, end - p);
      if content[p] != BACKSLASH {
        q := RoomAfter(content, p, q, end, at, capacity, 1, 1);
        PrependTwice(done, [content[p]], Unescape(rest[1..], end - p - 1));
        output[at] := content[p];
        assert output[..at + 1] == done + [content[p]];
        at, p := at + 1, p + 1;
      } else if content[p + 1] == 'u' {
        ghost var l := Utf16Literal(rest, end - p);
        if l.Some? {
          LiteralTaken(rest, end - p);
          q := RoomAfter(content, p, q, end, at, capacity, l.value.taken, |l.value.bytes|);
          PrependTwice(done, l.value.bytes, Unescape(rest[l.value.taken..], end - p - l.value.taken));
        }
        var taken, after := Utf16LiteralToUtf8(content, p, end, output, at);
        if taken == 0 {
          FailsWhole(done);
          return false, at;
        }
        assert output[..after] == done + output[at..after];
        at, p := after, p + taken;
      } else {
        var c := SimpleEscape(content[p + 1]);
        if c.None? {
          FailsWhole(done);
          return false, at;
        }
        q := RoomAfter(content, p, q, end, at, capacity, 2, 1);
        PrependTwice(done, [c.value], Unescape(rest[2..], end - p - 2));
        output[at] := c.value;
        assert output[..at + 1] == done + [c.value];
        at, p := at + 1, p + 2;
      }
    }
    UnescapeDone(output[..at], content[p..], end - p);
    ok := true;
  }

  /**
   Parses the string literal at `offset`. The buffer has the size the first pass computed, one
   more for the terminator; on success the bytes and the new offset are those of the grammar.
   */
  method ParseStringAt(content: string, offset: nat) returns (value: Option<string>, next: nat)
    requires offset < |content|
    ensures value.Some? <==> ParseString(content[offset..]).Some?
    ensures value.Some? ==> next <= |content| && ParseString(content[offset..]) == Some((value.value, content[next..]))
  {
    hide EndOf, Skips, Unescape;
    next := offset;
    if content[offset] != QUOTE {
      return None, next;
    }
    var begin := offset + 1;
    assert content[offset..][1..] == content[begin..];
    var found, skipped := FindEnd(content, begin);
    if found.None? {
      return None, next;
    }
    var end := found.value;
    RoomAtStart(content, begin, end);
    var output := new char[end - offset - skipped + 1](_ => NUL);
    var ok, at := FillUnescaped(content, begin, end, output);
    if !ok {
      return None, next;
    }
    ghost var text := output[..at];
    output[at] := NUL;
    assert output[..at] == text;
    next := end + 1;
    assert content[offset..][end - begin + 2..] == content[next..];
    value := Some(output[..at]);
  }

  lemma {:induction false} RoomAtStart(s: string, begin: nat, end: nat)
    requires begin <= end < |s| && EndOf(s[begin..]) == Some(end - begin)
    ensures Skips(s[begin..]) <= end - begin
    ensures Room(s, begin, begin, end, 0, end - begin - Skips(s[begin..]))
  {
    SkipsBound(s[begin..]);
  }

  lemma {:induction false} PrependNothing(r: Option<string>)
    ensures Prepend([], r) == r
  {
    if r.Some? {
      assert [] + r.value == r.value;
    }
  }

  lemma {:induction false} PrependTwice(a: string, b: string, r: Option<string>)
    ensures Prepend(a, Prepend(b, r)) == Prepend(a + b, r)
  {
    if r.Some? {
      assert a + (b + r.value) == (a + b) + r.value;
    }
  }

  lemma {:induction false} FailsWhole(a: string)
    ensures Prepend(a, None) == None
  {
  }

  lemma {:induction false} LiteralTaken(s: string, n: nat)
    requires n < |s| && Utf16Literal(s, n).Some?
    ensures var l := Utf16Literal(s, n).value; l.taken >= 6 && l.taken % 2 == 0 && l.taken <= n
  {
    hide Hex4, Utf8;
  }

  lemma {:induction false} UnescapeDone(a: string, s: string, n: int)
    requires n < |s| && n <= 0
    ensures Prepend(a, Unescape(s, n)) == Some(a)
  {
    assert a + [] == a;
  }

  lemma {:induction false} UnescapeStep(s: string, n: nat)
    requires 0 < n < |s|
    ensures s[0] != BACKSLASH ==> Unescape(s, n) == Prepend([s[0]], Unescape(s[1..], n - 1))
    ensures s[0] == BACKSLASH && s[1] == 'u' ==>
              var l := Utf16Literal(s, n);
              Unescape(s, n) == if l.None? then None else Prepend(l.value.bytes, Unescape(s[l.value.taken..], n - l.value.taken))
    ensures s[0] == BACKSLASH && s[1] != 'u' ==>
              var c := SimpleEscape(s[1]);
              Unescape(s, n) == if c.None? then None else Prepend([c.value], Unescape(s[2..], n - 2))
  {
  }
}
