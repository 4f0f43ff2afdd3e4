/**
 The texts the parser of lib/json/core.c accepts, and what it reads them as: concrete syntax trees
 keep the blanks and the spelling that values do not have. The parser accepts exactly the texts of
 well-formed trees that nest within the limit, and gives their values.
 */
module JsonGrammar {
  import opened Wrappers
  import opened JsonString
  import opened JsonText
  import opened JsonTrees

  /** An item with the blanks around it. */
  datatype Item = Item(before: string, value: Syntax, after: string)

  /** A key between quotes, a colon and a value, with the blanks around each. */
  datatype Pair = Pair(before: string, key: string, keyEnd: string, valueStart: string, value: Syntax, after: string)

  datatype Syntax =
    | SNull
    | SFalse
    | STrue
    | SNumber(minus: bool, digits: string)
    | SString(raw: string)
    | SArray(blanks: string, items: seq<Item>)
    | SObject(blanks: string, pairs: seq<Pair>)

  // ----- texts

  /** The text of `c` followed by `rest`. */
  ghost function TextThen(c: Syntax, rest: string): string
    decreases c
  {
    match c
    case SNull => "null" + rest
    case SFalse => "false" + rest
    case STrue => "true" + rest
    case SNumber(minus, digits) => (if minus then "-" else "") + (digits + rest)
    case SString(raw) => Quoted(raw, rest)
    case SArray(blanks, items) => "[" + (if items == [] then blanks + ("]" + rest) else ItemsThen(items, rest))
    case SObject(blanks, pairs) => "{" + (if pairs == [] then blanks + ("}" + rest) else PairsThen(pairs, rest))
  }

  ghost function Quoted(raw: string, rest: string): string {
    [QUOTE] + (raw + ([QUOTE] + rest))
  }

  /** Items separated by commas, and the closing bracket. */
  ghost function ItemsThen(items: seq<Item>, rest: string): string
    requires items != []
    decreases items
  {
    items[0].before +
    TextThen(items[0].value, items[0].after + if |items| == 1 then "]" + rest else "," + ItemsThen(items[1..], rest))
  }

  ghost function PairsThen(pairs: seq<Pair>, rest: string): string
    requires pairs != []
    decreases pairs
  {
    var p := pairs[0];
    var more := if |pairs| == 1 then "}" + rest else "," + PairsThen(pairs[1..], rest);
    p.before + Quoted(p.key, p.keyEnd + (":" + (p.valueStart + TextThen(p.value, p.after + more))))
  }

  // ----- values

  /** An integer as an int holds it: the nearest it can hold. */
  function Nearest(n: int): int {
    if n > 2147483647 then 2147483647 else if n < -2147483648 then -2147483648 else n
  }

  /** The characters a string literal stands for, if it is one: no bare quote, and only known escapes. */
  ghost function Meaning(raw: string): Option<string> {
    if EndOf(raw + [QUOTE]) == Some(|raw|) then Unescape(raw + [QUOTE], |raw|) else None
  }

  ghost predicate Digital(s: string) {
    forall i :: 0 <= i < |s| ==> IsDigit(s[i])
  }

  ghost predicate WellFormed(c: Syntax)
    decreases c
  {
    match c
    case SNumber(minus, digits) => digits != [] && Digital(digits) && |digits| + (if minus then 1 else 0) <= 63
    case SString(raw) => Meaning(raw).Some?
    case SArray(blanks, items) =>
      AllBlank(blanks) && (items != [] ==> blanks == []) && forall i :: 0 <= i < |items| ==> ItemFormed(items[i])
    case SObject(blanks, pairs) =>
      AllBlank(blanks) && (pairs != [] ==> blanks == []) && forall i :: 0 <= i < |pairs| ==> PairFormed(pairs[i])
    case _ => true
  }

  ghost predicate ItemFormed(i: Item)
    decreases i
  {
    AllBlank(i.before) && AllBlank(i.after) && WellFormed(i.value)
  }

  ghost predicate PairFormed(p: Pair)
    decreases p
  {
    && AllBlank(p.before) && AllBlank(p.keyEnd) && AllBlank(p.valueStart) && AllBlank(p.after)
    && Meaning(p.key).Some? && WellFormed(p.value)
  }

  ghost function Value(c: Syntax): Json
    requires WellFormed(c)
    decreases c
  {
    match c
    case SNull => Null
    case SFalse => False
    case STrue => True
    case SNumber(minus, digits) =>
      var n: int := DigitsValue(digits);
      Number(Nearest(if minus then -n else n))
    case SString(raw) => Str(Meaning(raw).value)
    case SArray(_, items) => Arr(Values(items))
    case SObject(_, pairs) => Obj(MembersOf(pairs))
  }

  ghost function Values(items: seq<Item>): (vs: seq<Json>)
    requires forall i :: 0 <= i < |items| ==> ItemFormed(items[i])
    ensures |vs| == |items|
    decreases items
  {
    if items == [] then []
    else
      assert ItemFormed(items[0]);
      [Value(items[0].value)] + Values(items[1..])
  }

  ghost function MembersOf(pairs: seq<Pair>): (ms: seq<Member>)
    requires forall i :: 0 <= i < |pairs| ==> PairFormed(pairs[i])
    ensures |ms| == |pairs|
    decreases pairs
  {
    if pairs == [] then []
    else
      assert PairFormed(pairs[0]);
      [Member(Meaning(pairs[0].key).value, Value(pairs[0].value))] + MembersOf(pairs[1..])
  }

  // ----- blanks, strings and numbers

  lemma {:induction false} DroppedBlanks(s: string) returns (w: string)
    ensures AllBlank(w) && s == w + DropBlanks(s)
  {
    if s == [] || !IsBlank(s[0]) {
      w := [];
    } else {
      var more := DroppedBlanks(s[1..]);
      w := [s[0]] + more;
      assert DropBlanks(s) == DropBlanks(s[1..]);
      hide DropBlanks;
      assert s == [s[0]] + s[1..];
      assert w + DropBlanks(s) == [s[0]] + (more + DropBlanks(s[1..]));
    }
  }

  /** Skipping leaves out blanks, and nothing else. */
  lemma {:induction false} SkippedBlanks(s: string) returns (w: string)
    ensures AllBlank(w) && s == w + SkipBlanks(s)
  {
    w := DroppedBlanks(s);
    if s != [] && DropBlanks(s) == [] {
      assert w == s;
      w := s[..|s| - 1];
    }
  }

  ghost predicate SameUpTo(a: string, b: string, n: nat) {
    n < |a| && n < |b| && a[..n + 1] == b[..n + 1]
  }

  lemma {:induction false} SameFrom(a: string, b: string, n: nat, k: nat)
    requires SameUpTo(a, b, n) && k <= n
    ensures SameUpTo(a[k..], b[k..], n - k)
    ensures forall i :: 0 <= i <= n ==> a[i] == b[i]
  {
    forall i | 0 <= i <= n ensures a[i] == b[i] {
      assert a[..n + 1][i] == b[..n + 1][i];
    }
    assert a[k..][..n - k + 1] == a[..n + 1][k..] && b[k..][..n - k + 1] == b[..n + 1][k..];
  }

  /** Where a string ends depends on nothing behind its end. */
  lemma {:induction false} SameEnd(a: string, b: string, n: nat)
    requires SameUpTo(a, b, n) && EndOf(a) == Some(n)
    ensures EndOf(b) == Some(n)
    decreases n
  {
    SameFrom(a, b, n, 0);
    if a[0] == BACKSLASH {
      if n >= 2 {
        SameFrom(a, b, n, 2);
        SameEnd(a[2..], b[2..], n - 2);
      }
    } else if a[0] != QUOTE {
      SameFrom(a, b, n, 1);
      SameEnd(a[1..], b[1..], n - 1);
    }
  }

  lemma {:induction false} SameLiteral(a: string, b: string, n: nat)
    requires SameUpTo(a, b, n)
    ensures Utf16Literal(a, n) == Utf16Literal(b, n)
  {
    hide Utf8, HexValue;
    SameFrom(a, b, n, 0);
    if n >= 6 {
      assert a[2..][0] == b[2..][0] && a[2..][1] == b[2..][1] && a[2..][2] == b[2..][2] && a[2..][3] == b[2..][3];
      if n >= 12 {
        assert a[8..][0] == b[8..][0] && a[8..][1] == b[8..][1] && a[8..][2] == b[8..][2] && a[8..][3] == b[8..][3];
      }
    }
  }

  lemma {:induction false} SameUnescaped(a: string, b: string, n: nat)
    requires SameUpTo(a, b, n)
    ensures Unescape(a, n) == Unescape(b, n)
    decreases n
  {
    hide Utf16Literal, SimpleEscape;
    SameFrom(a, b, n, 0);
    if n > 0 {
      if a[0] != BACKSLASH {
        SameFrom(a, b, n, 1);
        SameUnescaped(a[1..], b[1..], n - 1);
      } else if a[1] == 'u' {
        SameLiteral(a, b, n);
        var l := Utf16Literal(a, n);
        if l.Some? {
          SameFrom(a, b, n, l.value.taken);
          SameUnescaped(a[l.value.taken..], b[l.value.taken..], n - l.value.taken);
        }
      } else if n >= 2 {
        SameFrom(a, b, n, 2);
        SameUnescaped(a[2..], b[2..], n - 2);
      }
    }
  }

  /** A literal and what follows it agree up to the closing quote, whatever follows. */
  lemma {:induction false} LiteralLocal(raw: string, rest: string)
    ensures EndOf(raw + [QUOTE]) == Some(|raw|) <==> EndOf(raw + ([QUOTE] + rest)) == Some(|raw|)
    ensures Unescape(raw + [QUOTE], |raw|) == Unescape(raw + ([QUOTE] + rest), |raw|)
  {
    hide EndOf, Unescape;
    var a, b, n := raw + [QUOTE], raw + ([QUOTE] + rest), |raw|;
    assert a[..n + 1] == b[..n + 1];
    SameUnescaped(a, b, n);
    if EndOf(a) == Some(n) {
      SameEnd(a, b, n);
    }
    if EndOf(b) == Some(n) {
      SameEnd(b, a, n);
    }
  }

  lemma {:induction false} StringSound(s: string) returns (raw: string)
    requires ParseString(s).Some?
    ensures s == Quoted(raw, ParseString(s).value.1) && Meaning(raw) == Some(ParseString(s).value.0)
  {
    hide EndOf, Unescape;
    var n := EndOf(s[1..]).value;
    raw := s[1..][..n];
    var rest := s[n + 2..];
    assert s[1..] == raw + ([QUOTE] + rest);
    LiteralLocal(raw, rest);
  }

  lemma {:induction false} StringComplete(raw: string, rest: string)
    requires Meaning(raw).Some?
    ensures ParseString(Quoted(raw, rest)) == Some((Meaning(raw).value, rest))
  {
    hide EndOf, Unescape;
    var s := Quoted(raw, rest);
    assert s[1..] == raw + ([QUOTE] + rest);
    LiteralLocal(raw, rest);
    assert s[|raw| + 2..] == rest;
  }

  /** What may follow a number so that it is read as written. */
  ghost predicate EndsNumber(c: Syntax, rest: string) {
    c.SNumber? ==> |c.digits| + (if c.minus then 1 else 0) == 63 || rest == [] || (!IsDigit(rest[0]) && !GoesOn(rest))
  }

  lemma {:induction false} NearestIs(n: int)
    ensures Saturate(n) == Nearest(n)
  {
  }

  /** A signed run of digits and what follows it, taken apart. */
  lemma {:induction false} NumberPieces(minus: bool, digits: string, rest: string)
    requires digits != [] && Digital(digits)
    ensures var s, sign := (if minus then "-" else "") + (digits + rest), if minus then 1 else 0;
            && s != [] && (s[0] == '-' <==> minus) && |s| == sign + |digits| + |rest|
            && s[sign..] == digits + rest && s[sign..sign + |digits|] == digits && s[sign + |digits|..] == rest
  {
    assert IsDigit(digits[0]);
  }

  /** What reading a number takes. */
  lemma {:induction false} NumberTaken(s: string) returns (sign: nat, digits: string)
    requires ParseNumber(s).Some?
    ensures sign == (if s != [] && s[0] == '-' then 1 else 0) && digits != [] && sign + |digits| <= |s| && sign + |digits| <= 63
    ensures Digital(digits) && digits == s[sign..sign + |digits|]
    ensures var n: int := DigitsValue(digits);
            ParseNumber(s).value == (Number(Saturate(if sign == 1 then -n else n)), s[sign + |digits|..])
  {
    hide DigitsValue, Saturate, IsDigit;
    sign := if s != [] && s[0] == '-' then 1 else 0;
    var k := DigitRun(s[sign..], NUMBER_BUFFER - sign);
    digits := s[sign..sign + k];
    assert digits == s[sign..][..k];
  }

  lemma {:induction false} NumberSound(s: string) returns (c: Syntax)
    requires ParseNumber(s).Some?
    ensures WellFormed(c) && c.SNumber? && s == TextThen(c, ParseNumber(s).value.1) && Value(c) == ParseNumber(s).value.0
  {
    hide ParseNumber, DigitsValue, Saturate, Nearest, IsDigit;
    var sign, digits := NumberTaken(s);
    c := SNumber(sign == 1, digits);
    var n: int := DigitsValue(digits);
    NearestIs(if sign == 1 then -n else n);
    Rejoined(s, sign, |digits|);
  }

  lemma {:induction false} Rejoined(s: string, sign: nat, k: nat)
    requires sign + k <= |s| && sign == (if s != [] && s[0] == '-' then 1 else 0)
    ensures s == (if sign == 1 then "-" else "") + (s[sign..sign + k] + s[sign + k..])
  {
  }

  lemma {:induction false} RunOf(d: string, rest: string, limit: nat)
    requires |d| <= limit && Digital(d) && (|d| == limit || rest == [] || !IsDigit(rest[0]))
    ensures DigitRun(d + rest, limit) == |d|
    decreases |d|
  {
    if d == [] {
      assert d + rest == rest;
    } else {
      assert (d + rest)[1..] == d[1..] + rest;
      RunOf(d[1..], rest, limit - 1);
    }
  }

  lemma {:induction false} NumberComplete(c: Syntax, rest: string)
    requires c.SNumber? && WellFormed(c) && EndsNumber(c, rest)
    ensures ParseNumber(TextThen(c, rest)) == Some((Value(c), rest))
  {
    hide DigitRun, DigitsValue, Saturate, Nearest, IsDigit;
    var s, sign := TextThen(c, rest), if c.minus then 1 else 0;
    NumberPieces(c.minus, c.digits, rest);
    RunOf(c.digits, rest, NUMBER_BUFFER - sign);
    var n: int := DigitsValue(c.digits);
    NearestIs(if c.minus then -n else n);
  }

  /** Every text begins with a character that tells what it is. */
  lemma {:induction false} FirstOf(c: Syntax, rest: string)
    requires WellFormed(c)
    ensures var s := TextThen(c, rest);
            && s != [] && !IsBlank(s[0]) && s[0] != ']' && s[0] != '}'
            && (c.SNumber? ==> s[0] == '-' || IsDigit(s[0])) && (c.SString? <==> s[0] == QUOTE)
            && (c.SArray? <==> s[0] == '[') && (c.SObject? <==> s[0] == '{')
            && (c.SNull? ==> s[0] == 'n') && (c.SFalse? ==> s[0] == 'f') && (c.STrue? ==> s[0] == 't')
  {
    hide ItemsThen, PairsThen;
    if c.SNumber? {
      assert IsDigit(c.digits[0]);
      assert TextThen(c, rest)[0] == if c.minus then '-' else c.digits[0];
    }
  }

  // ----- what is accepted is a text

  ghost predicate AllFormed(items: seq<Item>) {
    forall i :: 0 <= i < |items| ==> ItemFormed(items[i])
  }

  ghost predicate AllPaired(pairs: seq<Pair>) {
    forall i :: 0 <= i < |pairs| ==> PairFormed(pairs[i])
  }

  /** More blanks in front of the first item change neither the rest of the text nor the values. */
  lemma {:induction false} WidenItems(items: seq<Item>, w: string, rest: string) returns (wider: seq<Item>)
    requires items != [] && AllFormed(items) && AllBlank(w)
    ensures wider != [] && AllFormed(wider) && Values(wider) == Values(items)
    ensures ItemsThen(wider, rest) == w + ItemsThen(items, rest)
  {
    hide TextThen, WellFormed, Value;
    var first := items[0].(before := w + items[0].before);
    wider := [first] + items[1..];
    assert ItemFormed(items[0]);
    assert ItemFormed(first);
    assert wider[1..] == items[1..];
  }

  lemma {:induction false} WidenPairs(pairs: seq<Pair>, w: string, rest: string) returns (wider: seq<Pair>)
    requires pairs != [] && AllPaired(pairs) && AllBlank(w)
    ensures wider != [] && AllPaired(wider) && MembersOf(wider) == MembersOf(pairs)
    ensures PairsThen(wider, rest) == w + PairsThen(pairs, rest)
  {
    hide TextThen, WellFormed, Value, Quoted, Meaning;
    var first := pairs[0].(before := w + pairs[0].before);
    wider := [first] + pairs[1..];
    assert PairFormed(pairs[0]);
    assert PairFormed(first);
    assert wider[1..] == pairs[1..];
  }

  /** Whatever the parser accepts is the text of a well-formed tree with that value, nested within what is left of the limit. */
  lemma {:induction false} ValueSound(s: string, depth: nat) returns (c: Syntax)
    requires depth <= NESTING_LIMIT && ParseValue(s, depth).Some?
    ensures var (v, rest) := ParseValue(s, depth).value;
            WellFormed(c) && s == TextThen(c, rest) && Value(c) == v && NestsWithin(v, NESTING_LIMIT - depth)
    decreases |s|, 1
  {
    hide ParseNumber, ParseString, ParseArray, ParseObject, Quoted;
    if "null" <= s {
      c := SNull;
    } else if "false" <= s {
      c := SFalse;
    } else if "true" <= s {
      c := STrue;
    } else if StartsWith(s, QUOTE) {
      var raw := StringSound(s);
      c := SString(raw);
    } else if s[0] == '-' || IsDigit(s[0]) {
      c := NumberSound(s);
    } else if StartsWith(s, '[') {
      c := ArraySound(s, depth);
    } else {
      c := ObjectSound(s, depth);
    }
  }

  lemma {:induction false} ArraySound(s: string, depth: nat) returns (c: Syntax)
    requires depth <= NESTING_LIMIT && StartsWith(s, '[') && ParseArray(s, depth).Some?
    ensures var (v, rest) := ParseArray(s, depth).value;
            WellFormed(c) && s == TextThen(c, rest) && Value(c) == v && NestsWithin(v, NESTING_LIMIT - depth)
    decreases |s|, 0
  {
    hide ParseItems, SkipBlanks, ItemsThen;
    var a := SkipBlanks(s[1..]);
    var w := SkippedBlanks(s[1..]);
    assert s == "[" + s[1..];
    if StartsWith(a, ']') {
      c := SArray(w, []);
      assert a == "]" + a[1..];
    } else {
      var items := ItemsSound(a, depth + 1);
      var rest := ParseItems(a, depth + 1).value.1;
      var wider := WidenItems(items, w, rest);
      c := SArray([], wider);
    }
  }

  /** Items up to the closing bracket; `depth` is that of the items. */
  lemma {:induction false} ItemsSound(s: string, depth: nat) returns (items: seq<Item>)
    requires depth <= NESTING_LIMIT && ParseItems(s, depth).Some?
    ensures var (vs, rest) := ParseItems(s, depth).value;
            && items != [] && AllFormed(items) && Values(items) == vs && s == ItemsThen(items, rest)
            && AllNest(vs, NESTING_LIMIT - depth)
    decreases |s|, 2
  {
    hide ParseValue, SkipBlanks, TextThen, WellFormed, Value, NestsWithin;
    var w := SkippedBlanks(s);
    var (v, mid) := ParseValue(SkipBlanks(s), depth).value;
    var c := ValueSound(SkipBlanks(s), depth);
    var w2 := SkippedBlanks(mid);
    var b := SkipBlanks(mid);
    var first := Item(w, c, w2);
    assert ItemFormed(first);
    if StartsWith(b, ',') {
      var more := ItemsSound(b[1..], depth);
      items := [first] + more;
      assert items[1..] == more;
      assert b == "," + b[1..];
    } else {
      items := [first];
      assert items[1..] == [];
      assert b == "]" + b[1..];
    }
  }

  lemma {:induction false} ObjectSound(s: string, depth: nat) returns (c: Syntax)
    requires depth <= NESTING_LIMIT && StartsWith(s, '{') && ParseObject(s, depth).Some?
    ensures var (v, rest) := ParseObject(s, depth).value;
            WellFormed(c) && s == TextThen(c, rest) && Value(c) == v && NestsWithin(v, NESTING_LIMIT - depth)
    decreases |s|, 0
  {
    hide ParseMembers, SkipBlanks, PairsThen;
    var a := SkipBlanks(s[1..]);
    var w := SkippedBlanks(s[1..]);
    assert s == "{" + s[1..];
    if StartsWith(a, '}') {
      c := SObject(w, []);
      assert a == "}" + a[1..];
    } else {
      var pairs := PairsSound(a, depth + 1);
      var rest := ParseMembers(a, depth + 1).value.1;
      var wider := WidenPairs(pairs, w, rest);
      c := SObject([], wider);
    }
  }

  /** One member; `after` is left to the caller. */
  lemma {:induction false} PairSound(s: string, depth: nat) returns (p: Pair)
    requires depth <= NESTING_LIMIT && ParseMember(s, depth).Some?
    ensures var (m, rest) := ParseMember(s, depth).value;
            && PairFormed(p) && p.after == [] && Member(Meaning(p.key).value, Value(p.value)) == m
            && s == p.before + Quoted(p.key, p.keyEnd + (":" + (p.valueStart + TextThen(p.value, rest))))
            && NestsWithin(m.value, NESTING_LIMIT - depth)
    decreases |s|, 2
  {
    hide ParseValue, ParseString, SkipBlanks, TextThen, WellFormed, Value, NestsWithin, Quoted, Meaning;
    var w := SkippedBlanks(s);
    var (key, mid) := ParseString(SkipBlanks(s)).value;
    var raw := StringSound(SkipBlanks(s));
    var w2 := SkippedBlanks(mid);
    var b := SkipBlanks(mid);
    assert b == ":" + b[1..];
    var w3 := SkippedBlanks(b[1..]);
    var c := ValueSound(SkipBlanks(b[1..]), depth);
    p := Pair(w, raw, w2, w3, c, []);
  }

  lemma {:induction false} PairsSound(s: string, depth: nat) returns (pairs: seq<Pair>)
    requires depth <= NESTING_LIMIT && ParseMembers(s, depth).Some?
    ensures var (ms, rest) := ParseMembers(s, depth).value;
            && pairs != [] && AllPaired(pairs) && MembersOf(pairs) == ms && s == PairsThen(pairs, rest)
            && AllMembersNest(ms, NESTING_LIMIT - depth)
    decreases |s|, 3
  {
    hide ParseMember, SkipBlanks, TextThen, WellFormed, Value, NestsWithin, Quoted, Meaning;
    var p := PairSound(s, depth);
    var (m, mid) := ParseMember(s, depth).value;
    var w := SkippedBlanks(mid);
    var b := SkipBlanks(mid);
    var first := p.(after := w);
    assert PairFormed(first);
    if StartsWith(b, ',') {
      var more := PairsSound(b[1..], depth);
      pairs := [first] + more;
      assert pairs[1..] == more;
      assert b == "," + b[1..];
    } else {
      pairs := [first];
      assert pairs[1..] == [];
      assert b == "}" + b[1..];
    }
  }

  // ----- every text is accepted

  lemma {:induction false} FollowsValue(c: Syntax, after: string, more: string)
    requires AllBlank(after) && more != [] && !IsDigit(more[0]) && !GoesOn(more)
    ensures EndsNumber(c, after + more)
  {
    if after != [] {
      assert IsBlank((after + more)[0]);
    }
  }

  /** The text of a well-formed tree is read as its value, exactly if it nests within what is left of the limit. */
  lemma {:induction false} ValueComplete(c: Syntax, rest: string, depth: nat)
    requires WellFormed(c) && EndsNumber(c, rest) && depth <= NESTING_LIMIT
    ensures ParseValue(TextThen(c, rest), depth) == Outcome(NestsWithin(Value(c), NESTING_LIMIT - depth), Value(c), rest)
    decreases c, 1
  {
    hide ParseNumber, ParseString, ParseArray, ParseObject, Quoted, Meaning, ItemsThen, PairsThen;
    var s := TextThen(c, rest);
    FirstOf(c, rest);
    match c
    case SNull => assert "null" <= s && s[4..] == rest;
    case SFalse => assert "false" <= s && s[5..] == rest;
    case STrue => assert "true" <= s && s[4..] == rest;
    case SNumber(_, _) => NumberComplete(c, rest);
    case SString(raw) => StringComplete(raw, rest);
    case SArray(_, _) => ArrayComplete(c, rest, depth);
    case SObject(_, _) => ObjectComplete(c, rest, depth);
  }

  lemma {:induction false} ObjectComplete(c: Syntax, rest: string, depth: nat)
    requires c.SObject? && WellFormed(c) && depth <= NESTING_LIMIT
    ensures StartsWith(TextThen(c, rest), '{')
    ensures ParseObject(TextThen(c, rest), depth) == Outcome(NestsWithin(Value(c), NESTING_LIMIT - depth), Value(c), rest)
    decreases c, 0
  {
    hide ParseMembers, SkipBlanks, PairsThen, PairFormed, MembersOf, NestsWithin;
    var s := TextThen(c, rest);
    ObjectNests(MembersOf(c.pairs), NESTING_LIMIT - depth);
    if c.pairs == [] {
      assert MembersOf(c.pairs) == [];
      assert s[1..] == c.blanks + ("}" + rest);
      SkipLeading(c.blanks, "}" + rest);
      assert ("}" + rest)[1..] == rest;
    } else if depth < NESTING_LIMIT {
      assert s[1..] == PairsThen(c.pairs, rest);
      PairsStart(c.pairs, rest);
      PairsComplete(c.pairs, rest, depth + 1, true);
    }
  }

  /** What follows the value of the first member. */
  ghost function AfterPair(pairs: seq<Pair>, rest: string): string
    requires pairs != []
  {
    if |pairs| == 1 then "}" + rest else "," + PairsThen(pairs[1..], rest)
  }

  ghost function KeyOn(p: Pair, more: string): string {
    Quoted(p.key, p.keyEnd + (":" + (p.valueStart + TextThen(p.value, p.after + more))))
  }

  lemma {:induction false} PairsStart(pairs: seq<Pair>, rest: string)
    requires pairs != [] && AllPaired(pairs)
    ensures var a := SkipBlanks(PairsThen(pairs, rest));
            a == KeyOn(pairs[0], AfterPair(pairs, rest)) && a != [] && a[0] == QUOTE
  {
    hide SkipBlanks, TextThen, WellFormed, Meaning;
    assert PairFormed(pairs[0]);
    SkipLeading(pairs[0].before, KeyOn(pairs[0], AfterPair(pairs, rest)));
  }

  lemma {:induction false} PairComplete(p: Pair, more: string, depth: nat, s: string)
    requires PairFormed(p) && depth <= NESTING_LIMIT && SkipBlanks(s) == KeyOn(p, more)
    requires more != [] && !IsDigit(more[0]) && !GoesOn(more)
    ensures ParseMember(s, depth) ==
            Outcome(NestsWithin(Value(p.value), NESTING_LIMIT - depth), Member(Meaning(p.key).value, Value(p.value)), p.after + more)
    decreases p, 2
  {
    hide ParseValue, ParseString, SkipBlanks, TextThen, WellFormed, Value, NestsWithin, Quoted, Meaning;
    var text := TextThen(p.value, p.after + more);
    var colon := ":" + (p.valueStart + text);
    StringComplete(p.key, p.keyEnd + colon);
    SkipLeading(p.keyEnd, colon);
    assert colon[1..] == p.valueStart + text;
    FirstOf(p.value, p.after + more);
    SkipLeading(p.valueStart, text);
    FollowsValue(p.value, p.after, more);
    ValueComplete(p.value, p.after + more, depth);
  }

  lemma {:induction false} PairsComplete(pairs: seq<Pair>, rest: string, depth: nat, skipped: bool)
    requires pairs != [] && AllPaired(pairs) && depth <= NESTING_LIMIT
    ensures var s := if skipped then SkipBlanks(PairsThen(pairs, rest)) else PairsThen(pairs, rest);
            ParseMembers(s, depth) == Outcome(AllMembersNest(MembersOf(pairs), NESTING_LIMIT - depth), MembersOf(pairs), rest)
    decreases pairs
  {
    hide ParseMember, SkipBlanks, TextThen, WellFormed, Value, NestsWithin, AllMembersNest, Meaning, KeyOn, PairsThen;
    PairsStart(pairs, rest);
    var first, more := pairs[0], AfterPair(pairs, rest);
    assert PairFormed(first);
    SkipNothing(KeyOn(first, more));
    PairComplete(first, more, depth, if skipped then SkipBlanks(PairsThen(pairs, rest)) else PairsThen(pairs, rest));
    SkipLeading(first.after, more);
    MembersNestSplit(MembersOf(pairs), NESTING_LIMIT - depth);
    assert MembersOf(pairs)[1..] == MembersOf(pairs[1..]);
    if |pairs| > 1 {
      PairsComplete(pairs[1..], rest, depth, false);
      assert more[1..] == PairsThen(pairs[1..], rest);
    } else {
      assert more[1..] == rest;
      assert pairs[1..] == [] && MembersOf(pairs[1..]) == [];
      assert MembersOf(pairs) == [Member(Meaning(first.key).value, Value(first.value))];
    }
  }

  lemma {:induction false} ObjectNests(ms: seq<Member>, limit: nat)
    ensures NestsWithin(Obj(ms), limit) <==> limit > 0 && AllMembersNest(ms, limit - 1)
  {
  }

  lemma {:induction false} ArrayNests(vs: seq<Json>, limit: nat)
    ensures NestsWithin(Arr(vs), limit) <==> limit > 0 && AllNest(vs, limit - 1)
  {
  }

  lemma {:induction false} MembersNestSplit(ms: seq<Member>, limit: nat)
    requires ms != []
    ensures AllMembersNest(ms, limit) <==> NestsWithin(ms[0].value, limit) && AllMembersNest(ms[1..], limit)
    ensures |ms| == 1 ==> AllMembersNest(ms[1..], limit)
  {
    hide NestsWithin;
    assert ms == [ms[0]] + ms[1..];
  }

  lemma {:induction false} ArrayComplete(c: Syntax, rest: string, depth: nat)
    requires c.SArray? && WellFormed(c) && depth <= NESTING_LIMIT
    ensures StartsWith(TextThen(c, rest), '[')
    ensures ParseArray(TextThen(c, rest), depth) == Outcome(NestsWithin(Value(c), NESTING_LIMIT - depth), Value(c), rest)
    decreases c, 0
  {
    hide ParseItems, SkipBlanks, ItemsThen, ItemFormed, Values, NestsWithin;
    var s := TextThen(c, rest);
    ArrayNests(Values(c.items), NESTING_LIMIT - depth);
    if c.items == [] {
      assert Values(c.items) == [];
      assert s[1..] == c.blanks + ("]" + rest);
      SkipLeading(c.blanks, "]" + rest);
      assert ("]" + rest)[1..] == rest;
    } else if depth < NESTING_LIMIT {
      assert s[1..] == ItemsThen(c.items, rest);
      ItemsStart(c.items, rest);
      ItemsComplete(c.items, rest, depth + 1, true);
    }
  }

  /** Skipping the blanks in front of the items leads to the first value. */
  lemma {:induction false} ItemsStart(items: seq<Item>, rest: string)
    requires items != [] && AllFormed(items)
    ensures var a := SkipBlanks(ItemsThen(items, rest));
            && a == TextThen(items[0].value, items[0].after + if |items| == 1 then "]" + rest else "," + ItemsThen(items[1..], rest))
            && a != [] && !IsBlank(a[0]) && a[0] != ']'
  {
    hide SkipBlanks, TextThen, WellFormed;
    assert ItemFormed(items[0]);
    var tail := items[0].after + if |items| == 1 then "]" + rest else "," + ItemsThen(items[1..], rest);
    FirstOf(items[0].value, tail);
    SkipLeading(items[0].before, TextThen(items[0].value, tail));
  }

  /** The items, with or without the blanks in front of the first. */
  lemma {:induction false} ItemsComplete(items: seq<Item>, rest: string, depth: nat, skipped: bool)
    requires items != [] && AllFormed(items) && depth <= NESTING_LIMIT
    ensures var s := if skipped then SkipBlanks(ItemsThen(items, rest)) else ItemsThen(items, rest);
            ParseItems(s, depth) == Outcome(AllNest(Values(items), NESTING_LIMIT - depth), Values(items), rest)
    decreases items
  {
    hide ParseValue, SkipBlanks, TextThen, WellFormed, Value, NestsWithin, AllNest;
    ItemsStart(items, rest);
    var first, more := items[0], if |items| == 1 then "]" + rest else "," + ItemsThen(items[1..], rest);
    assert ItemFormed(first);
    var a := TextThen(first.value, first.after + more);
    SkipNothing(a);
    FollowsValue(first.value, first.after, more);
    ValueComplete(first.value, first.after + more, depth);
    SkipLeading(first.after, more);
    NestSplit(Values(items), NESTING_LIMIT - depth);
    assert Values(items)[1..] == Values(items[1..]);
    if |items| > 1 {
      ItemsComplete(items[1..], rest, depth, false);
      assert more[1..] == ItemsThen(items[1..], rest);
    } else {
      assert more[1..] == rest;
      assert items[1..] == [] && Values(items[1..]) == [];
      assert Values(items) == [Value(first.value)];
    }
  }

  // ----- whole texts

  /** The text of `c`. */
  ghost function Text(c: Syntax): string {
    TextThen(c, [])
  }

  /** What follows is just appended. */
  lemma {:induction false} TextFollowed(c: Syntax, rest: string)
    ensures TextThen(c, rest) == Text(c) + rest
    decreases c, 0
  {
    hide ItemsThen, PairsThen;
    match c
    case SArray(_, items) =>
      if items != [] {
        ItemsFollowed(items, rest);
      }
    case SObject(_, pairs) =>
      if pairs != [] {
        PairsFollowed(pairs, rest);
      }
    case _ =>
  }

  lemma {:induction false} ItemsFollowed(items: seq<Item>, rest: string)
    requires items != []
    ensures ItemsThen(items, rest) == ItemsThen(items, []) + rest
    decreases items, 1
  {
    hide TextThen;
    var i := items[0];
    var more, none := if |items| == 1 then "]" + rest else "," + ItemsThen(items[1..], rest), if |items| == 1 then "]" + [] else "," + ItemsThen(items[1..], []);
    if |items| > 1 {
      ItemsFollowed(items[1..], rest);
    }
    assert more == none + rest;
    TextFollowed(i.value, i.after + more);
    TextFollowed(i.value, i.after + none);
    Appended(i.before, Text(i.value), i.after, none, rest);
  }

  lemma {:induction false} Appended(a: string, t: string, b: string, c: string, rest: string)
    ensures a + (t + (b + (c + rest))) == (a + (t + (b + c))) + rest
  {
  }

  lemma {:induction false} PairsFollowed(pairs: seq<Pair>, rest: string)
    requires pairs != []
    ensures PairsThen(pairs, rest) == PairsThen(pairs, []) + rest
    decreases pairs, 1
  {
    hide TextThen;
    var p := pairs[0];
    var more, none := if |pairs| == 1 then "}" + rest else "," + PairsThen(pairs[1..], rest), if |pairs| == 1 then "}" + [] else "," + PairsThen(pairs[1..], []);
    if |pairs| > 1 {
      PairsFollowed(pairs[1..], rest);
    }
    assert more == none + rest;
    TextFollowed(p.value, p.after + more);
    TextFollowed(p.value, p.after + none);
    Appended(p.valueStart, Text(p.value), p.after, none, rest);
    QuotedFollowed(p.before, p.key, p.keyEnd, p.valueStart + (Text(p.value) + (p.after + none)), rest);
  }

  lemma {:induction false} QuotedFollowed(a: string, key: string, b: string, c: string, rest: string)
    ensures a + Quoted(key, b + (":" + (c + rest))) == a + Quoted(key, b + (":" + c)) + rest
  {
  }

  /** Blanks, a byte order mark in front of them or not. */
  ghost predicate Lead(lead: string, text: string) {
    || AllBlank(lead)
    || (|lead| >= 3 && |text| > 4 && lead[0] as int == 0xef && lead[1] as int == 0xbb && lead[2] as int == 0xbf && AllBlank(lead[3..]))
  }

  /**
   Accepted texts: a byte order mark or not, blanks, the text of a well-formed tree that nests within
   the limit, and anything behind it; with the strict option only blanks up to the terminator.
   */
  lemma {:induction false} ParseSound(text: string, strict: bool) returns (lead: string, c: Syntax, rest: string)
    requires Parse(text, strict).Some?
    ensures text == lead + (Text(c) + rest) && Lead(lead, text) && WellFormed(c)
    ensures Parse(text, strict) == Some(Value(c)) && NestsWithin(Value(c), 1000)
    ensures strict ==> exists w :: AllBlank(w) && w <= rest && StartsWith(rest[|w|..], 0 as char)
  {
    hide ParseValue, SkipBlanks, TextThen, WellFormed, Value, NestsWithin;
    var t := SkipBom(text);
    var w := SkippedBlanks(t);
    c := ValueSound(SkipBlanks(t), 0);
    rest := ParseValue(SkipBlanks(t), 0).value.1;
    TextFollowed(c, rest);
    lead := text[..|text| - |t|] + w;
    assert text == text[..|text| - |t|] + t;
    assert lead[|text| - |t|..] == w;
    if strict {
      var w2 := SkippedBlanks(rest);
      assert rest[|w2|..] == SkipBlanks(rest);
    }
  }

  /** And every such text is accepted: with the terminator behind it, as its value exactly if it nests within the limit. */
  lemma {:induction false} ParseComplete(lead: string, c: Syntax, end: string, strict: bool)
    requires AllBlank(lead) && WellFormed(c) && AllBlank(end)
    ensures var text := lead + (Text(c) + (end + [0 as char]));
            && Parse(text, strict) == (if NestsWithin(Value(c), 1000) then Some(Value(c)) else None)
            && Parse([0xef as char, 0xbb as char, 0xbf as char] + text, strict) == Parse(text, strict)
  {
    hide ParseValue, SkipBlanks, TextThen, WellFormed, Value, NestsWithin;
    var rest := end + [0 as char];
    var t := TextThen(c, rest);
    TextFollowed(c, rest);
    FirstOf(c, rest);
    FirstOf(c, []);
    var text := lead + t;
    SkipLeading(lead, t);
    FollowsValue(c, end, [0 as char]);
    ValueComplete(c, rest, 0);
    BlankToEnd(rest);
    FirstIsAscii(c, rest);
    assert text[0] as int < 0x80;
    var marked := [0xef as char, 0xbb as char, 0xbf as char] + text;
    assert marked[3..] == text;
  }

  lemma {:induction false} FirstIsAscii(c: Syntax, rest: string)
    requires WellFormed(c)
    ensures TextThen(c, rest) != [] && TextThen(c, rest)[0] as int < 0x80
  {
    hide ItemsThen, PairsThen;
    if c.SNumber? {
      assert IsDigit(c.digits[0]);
    }
  }

  /** In a text that is blank up to its end, skipping stops on the last character. */
  lemma {:induction false} BlankToEnd(rest: string)
    requires rest != [] && AllBlank(rest)
    ensures SkipBlanks(rest) == rest[|rest| - 1..]
  {
    AllDropped(rest);
  }

  lemma {:induction false} AllDropped(s: string)
    requires AllBlank(s)
    ensures DropBlanks(s) == []
  {
    if s != [] {
      AllDropped(s[1..]);
    }
  }
}
