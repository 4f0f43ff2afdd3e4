/**
 JSON text in lib/json/core.c: what the printer writes for a tree, formatted or not, and what the
 recursive-descent parser accepts, on the text from the current offset on.
 */
module JsonText {
  import opened Wrappers
  import opened JsonString

  const NESTING_LIMIT := 1000
  const INT_MAX := 0x7fff_ffff
  const INT_MIN := -0x8000_0000
  const NUMBER_BUFFER := 63

  datatype Member = Member(key: string, value: Json)

  datatype Json =
    | Null
    | False
    | True
    | Number(n: int)
    | Str(s: string)
    | Arr(items: seq<Json>)
    | Obj(members: seq<Member>)

  // ----- numbers, integers only

  predicate IsDigit(c: char) {
    '0' <= c <= '9'
  }

  function DigitChar(d: nat): (c: char)
    requires d < 10
    ensures IsDigit(c) && c as int == '0' as int + d
  {
    ('0' as int + d) as char
  }

  function Digits(n: nat): (s: string)
    ensures s != [] && forall i :: 0 <= i < |s| ==> IsDigit(s[i])
  {
    if n < 10 then [DigitChar(n)] else Digits(n / 10) + [DigitChar(n % 10)]
  }

  function IntText(n: int): (s: string)
    ensures s != []
  {
    if n < 0 then "-" + Digits(-n) else Digits(n)
  }

  /** Number of digits at the front of `s`, looking at no more than `limit` characters. */
  function DigitRun(s: string, limit: nat): (k: nat)
    ensures k <= |s| && k <= limit && forall i :: 0 <= i < k ==> IsDigit(s[i])
    decreases limit
  {
    if limit == 0 || s == [] || !IsDigit(s[0]) then 0 else 1 + DigitRun(s[1..], limit - 1)
  }

  function DigitsValue(s: string): nat
    requires forall i :: 0 <= i < |s| ==> IsDigit(s[i])
  {
    if s == [] then 0
    else
      assert IsDigit(s[|s| - 1]);
      10 * DigitsValue(s[..|s| - 1]) + (s[|s| - 1] as int - '0' as int)
  }

  function Saturate(n: int): int {
    if n >= INT_MAX then INT_MAX else if n <= INT_MIN then INT_MIN else n
  }

  /** Does the number go on with a fraction or an exponent? */
  predicate GoesOn(s: string) {
    s != [] && (s[0] == '.' || s[0] == 'e' || s[0] == 'E')
  }

  /** Reads an integer; a fraction, an exponent or a bare sign is not covered and counts as an error. */
  function ParseNumber(s: string): (r: Option<(Json, string)>)
    ensures r.Some? ==> |r.value.1| < |s|
  {
    var sign := if s != [] && s[0] == '-' then 1 else 0;
    var k := DigitRun(s[sign..], NUMBER_BUFFER - sign);
    var end := sign + k;
    if k == 0 || (end < NUMBER_BUFFER && GoesOn(s[end..])) then None
    else
      var n: int := DigitsValue(s[sign..end]);
      Some((Number(Saturate(if sign == 1 then -n else n)), s[end..]))
  }

  // ----- printing

  function Tabs(n: nat): string {
    seq(n, _ => TAB)
  }

  function Print(v: Json, depth: nat, fmt: bool): string
    decreases v
  {
    match v
    case Null => "null"
    case False => "false"
    case True => "true"
    case Number(n) => IntText(n)
    case Str(s) => PrintString(s)
    case Arr(items) => "[" + PrintItems(items, depth + 1, fmt) + "]"
    case Obj(members) =>
      (if fmt then "{\n" else "{") + PrintMembers(members, depth + 1, fmt) + (if fmt then Tabs(depth) else []) + "}"
  }

  function PrintItems(items: seq<Json>, depth: nat, fmt: bool): string
    decreases items
  {
    if items == [] then []
    else
      Print(items[0], depth, fmt) +
      (if |items| > 1 then (if fmt then ", " else ",") else []) +
      PrintItems(items[1..], depth, fmt)
  }

  function PrintMembers(members: seq<Member>, depth: nat, fmt: bool): string
    decreases members
  {
    if members == [] then []
    else
      (if fmt then Tabs(depth) else []) +
      PrintString(members[0].key) + (if fmt then ":\t" else ":") +
      Print(members[0].value, depth, fmt) +
      (if |members| > 1 then "," else []) + (if fmt then "\n" else []) +
      PrintMembers(members[1..], depth, fmt)
  }

  // ----- parsing

  predicate IsBlank(c: char) {
    c as int <= 32
  }

  function DropBlanks(s: string): (r: string)
    ensures |r| <= |s|
  {
    if s == [] || !IsBlank(s[0]) then s else DropBlanks(s[1..])
  }

  /** Skips blanks, but never past the last character of the buffer. */
  function SkipBlanks(s: string): (r: string)
    ensures |r| <= |s|
  {
    var r := DropBlanks(s);
    if s != [] && r == [] then s[|s| - 1..] else r
  }

  predicate StartsWith(s: string, c: char) {
    s != [] && s[0] == c
  }

  function ParseValue(s: string, depth: nat): (r: Option<(Json, string)>)
    ensures r.Some? ==> |r.value.1| < |s|
    decreases |s|, 1
  {
    if "null" <= s then Some((Null, s[4..]))
    else if "false" <= s then Some((False, s[5..]))
    else if "true" <= s then Some((True, s[4..]))
    else if StartsWith(s, QUOTE) then
      var r := ParseString(s);
      if r.None? then None else Some((Str(r.value.0), r.value.1))
    else if s != [] && (s[0] == '-' || IsDigit(s[0])) then ParseNumber(s)
    else if StartsWith(s, '[') then ParseArray(s, depth)
    else if StartsWith(s, '{') then ParseObject(s, depth)
    else None
  }

  function ParseArray(s: string, depth: nat): (r: Option<(Json, string)>)
    requires StartsWith(s, '[')
    ensures r.Some? ==> |r.value.1| < |s|
    decreases |s|, 0
  {
    if depth >= NESTING_LIMIT then None
    else
      var a := SkipBlanks(s[1..]);
      if StartsWith(a, ']') then Some((Arr([]), a[1..]))
      else if a == [] then None
      else
        var r := ParseItems(a, depth + 1);
        if r.None? then None else Some((Arr(r.value.0), r.value.1))
  }

  /** One or more items and the closing bracket. */
  function ParseItems(s: string, depth: nat): (r: Option<(seq<Json>, string)>)
    ensures r.Some? ==> |r.value.1| < |s|
    decreases |s|, 2
  {
    var v := ParseValue(SkipBlanks(s), depth);
    if v.None? then None
    else
      var b := SkipBlanks(v.value.1);
      if StartsWith(b, ',') then
        var more := ParseItems(b[1..], depth);
        if more.None? then None else Some(([v.value.0] + more.value.0, more.value.1))
      else if StartsWith(b, ']') then Some(([v.value.0], b[1..]))
      else None
  }

  function ParseObject(s: string, depth: nat): (r: Option<(Json, string)>)
    requires StartsWith(s, '{')
    ensures r.Some? ==> |r.value.1| < |s|
    decreases |s|, 0
  {
    if depth >= NESTING_LIMIT then None
    else
      var a := SkipBlanks(s[1..]);
      if StartsWith(a, '}') then Some((Obj([]), a[1..]))
      else if a == [] then None
      else
        var r := ParseMembers(a, depth + 1);
        if r.None? then None else Some((Obj(r.value.0), r.value.1))
  }

  /** A key, a colon and a value. */
  function ParseMember(s: string, depth: nat): (r: Option<(Member, string)>)
    ensures r.Some? ==> |r.value.1| < |s|
    decreases |s|, 2
  {
    var k := ParseString(SkipBlanks(s));
    if k.None? then None
    else
      var b := SkipBlanks(k.value.1);
      if !StartsWith(b, ':') then None
      else
        var v := ParseValue(SkipBlanks(b[1..]), depth);
        if v.None? then None else Some((Member(k.value.0, v.value.0), v.value.1))
  }

  /** One or more members and the closing brace. */
  function ParseMembers(s: string, depth: nat): (r: Option<(seq<Member>, string)>)
    ensures r.Some? ==> |r.value.1| < |s|
    decreases |s|, 3
  {
    var m := ParseMember(s, depth);
    if m.None? then None
    else
      var b := SkipBlanks(m.value.1);
      if StartsWith(b, ',') then
        var more := ParseMembers(b[1..], depth);
        if more.None? then None else Some(([m.value.0] + more.value.0, more.value.1))
      else if StartsWith(b, '}') then Some(([m.value.0], b[1..]))
      else None
  }

  /** Skips a byte order mark if more than one character follows it. */
  function SkipBom(s: string): string {
    if |s| > 4 && s[0] as int == 0xef && s[1] as int == 0xbb && s[2] as int == 0xbf then s[3..] else s
  }

  /** Does nothing but blanks stand before the terminating NUL? */
  predicate OnlyBlanks(rest: string) {
    StartsWith(SkipBlanks(rest), 0 as char)
  }

  /** Parses a text with its terminating NUL; what follows the value is looked at only if `strict`. */
  function Parse(text: string, strict: bool): Option<Json> {
    if text == [] then None
    else
      var r := ParseValue(SkipBlanks(SkipBom(text)), 0);
      if r.None? || (strict && !OnlyBlanks(r.value.1)) then None else Some(r.value.0)
  }
}
