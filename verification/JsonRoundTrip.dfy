/**
 Parsing what the printer wrote gives back the tree, for both layouts: printed text is the text of a
 syntax tree with these blanks and no others.
 */
module JsonRoundTrip {
  import opened Wrappers
  import opened JsonString
  import opened JsonText
  import opened JsonTrees
  import opened JsonGrammar

  // ----- the layouts

  /** The syntax tree of what is printed for a value at some depth. */
  ghost function Layout(v: Json, depth: nat, fmt: bool): Syntax
    decreases v
  {
    match v
    case Null => SNull
    case False => SFalse
    case True => STrue
    case Number(n) => SNumber(n < 0, Digits(if n < 0 then -n else n))
    case Str(s) => SString(EscapeAll(s))
    case Arr(items) => SArray([], LayoutItems(items, depth + 1, fmt, ""))
    case Obj(members) =>
      if members == [] then SObject(if fmt then "\n" + Tabs(depth) else "", [])
      else SObject([], LayoutPairs(members, depth + 1, fmt))
  }

  /** Formatted, a space stands in front of every item but the first. */
  ghost function LayoutItems(items: seq<Json>, depth: nat, fmt: bool, before: string): (r: seq<Item>)
    ensures |r| == |items|
    decreases items
  {
    if items == [] then []
    else [Item(before, Layout(items[0], depth, fmt), "")] + LayoutItems(items[1..], depth, fmt, if fmt then " " else "")
  }

  /** Formatted, every member stands on its own line behind its tabs, and its value behind a tab. */
  ghost function LayoutPairs(ms: seq<Member>, depth: nat, fmt: bool): (r: seq<Pair>)
    requires depth > 0
    ensures |r| == |ms|
    decreases ms
  {
    if ms == [] then []
    else
      [Pair(if fmt then "\n" + Tabs(depth) else "", EscapeAll(ms[0].key), "", if fmt then "\t" else "",
            Layout(ms[0].value, depth, fmt), if fmt && |ms| == 1 then "\n" + Tabs(depth - 1) else "")] +
      LayoutPairs(ms[1..], depth, fmt)
  }

  // ----- numbers

  function Pow10(k: nat): (p: nat)
    ensures p > 0
  {
    if k == 0 then 1 else 10 * Pow10(k - 1)
  }

  lemma {:induction false} DigitsShort(n: nat, k: nat)
    requires k > 0 && n < Pow10(k)
    ensures |Digits(n)| <= k
  {
    if n >= 10 {
      DigitsShort(n / 10, k - 1);
    }
  }

  lemma {:induction false} ValueOfDigits(n: nat)
    ensures DigitsValue(Digits(n)) == n
  {
    if n >= 10 {
      ValueOfDigits(n / 10);
      var s := Digits(n);
      assert s[..|s| - 1] == Digits(n / 10);
    }
  }

  /** Every int is read back from its text, whatever follows that does not go on with it. */
  lemma {:induction false} NumberRoundTrip(n: int, rest: string)
    requires INT_MIN <= n <= INT_MAX && (rest == [] || (!IsDigit(rest[0]) && !GoesOn(rest)))
    ensures ParseNumber(IntText(n) + rest) == Some((Number(n), rest))
  {
    hide ParseNumber, Digits, DigitsValue, Value, WellFormed, TextThen;
    var c := Layout(Number(n), 0, false);
    NumberLayout(n);
    NumberComplete(c, rest);
    NumberText(n, rest);
  }

  lemma {:induction false} NumberText(n: int, rest: string)
    ensures IntText(n) + rest == TextThen(Layout(Number(n), 0, false), rest)
  {
    hide Digits;
    var digits := Digits(if n < 0 then -n else n);
    Assoc("-", digits, rest);
    Empty(digits + rest);
  }

  lemma {:induction false} NumberLayout(n: int)
    requires INT_MIN <= n <= INT_MAX
    ensures var c := Layout(Number(n), 0, false); WellFormed(c) && Value(c) == Number(n)
  {
    hide Digits, DigitsValue;
    var m := if n < 0 then -n else n;
    assert m < Pow10(10) by { assert Pow10(5) == 100000; assert Pow10(10) == 10000000000; }
    DigitsShort(m, 10);
    ValueOfDigits(m);
  }

  // ----- the layout stands for the value

  lemma {:induction false} StringLayout(s: string)
    requires CString(s)
    ensures Meaning(EscapeAll(s)) == Some(s)
  {
    hide EndOf, Unescape, EscapeAll;
    EscapedRoundTrip(s, []);
    assert [QUOTE] + [] == [QUOTE];
  }

  lemma {:induction false} LayoutFormed(v: Json, depth: nat, fmt: bool)
    requires Printable(v)
    ensures WellFormed(Layout(v, depth, fmt)) && Value(Layout(v, depth, fmt)) == v
    decreases v, 0
  {
    hide Meaning, LayoutItems, LayoutPairs, Digits, EscapeAll;
    match v
    case Number(n) => NumberLayout(n);
    case Str(s) => StringLayout(s);
    case Arr(items) => ItemsFormed(items, depth + 1, fmt, "");
    case Obj(members) =>
      if members == [] {
        assert MembersOf([]) == [];
      } else {
        PairsFormed(members, depth + 1, fmt);
      }
    case _ =>
  }

  lemma {:induction false} ItemsFormed(items: seq<Json>, depth: nat, fmt: bool, before: string)
    requires AllPrintable(items) && AllBlank(before)
    ensures var r := LayoutItems(items, depth, fmt, before); AllFormed(r) && Values(r) == items
    decreases items, 1
  {
    hide Layout, WellFormed, Value, Printable;
    if items != [] {
      LayoutFormed(items[0], depth, fmt);
      ItemsFormed(items[1..], depth, fmt, if fmt then " " else "");
      var r := LayoutItems(items, depth, fmt, before);
      assert ItemFormed(r[0]);
      assert r[1..] == LayoutItems(items[1..], depth, fmt, if fmt then " " else "");
      assert items == [items[0]] + items[1..];
    }
  }

  lemma {:induction false} PairsFormed(ms: seq<Member>, depth: nat, fmt: bool)
    requires AllMembersPrintable(ms) && depth > 0
    ensures var r := LayoutPairs(ms, depth, fmt); AllPaired(r) && MembersOf(r) == ms
    decreases ms, 1
  {
    hide Layout, WellFormed, Value, Printable, Meaning, EscapeAll;
    if ms != [] {
      LayoutFormed(ms[0].value, depth, fmt);
      StringLayout(ms[0].key);
      PairsFormed(ms[1..], depth, fmt);
      var r := LayoutPairs(ms, depth, fmt);
      assert PairFormed(r[0]);
      assert r[1..] == LayoutPairs(ms[1..], depth, fmt);
      assert ms == [ms[0]] + ms[1..];
    }
  }

  // ----- and is what is printed

  lemma {:induction false} Assoc(a: string, b: string, c: string)
    ensures (a + b) + c == a + (b + c)
  {
  }

  /** What is printed is the text of the layout. */
  lemma {:induction false} LayoutText(v: Json, depth: nat, fmt: bool, rest: string)
    ensures Print(v, depth, fmt) + rest == TextThen(Layout(v, depth, fmt), rest)
    decreases v, 0
  {
    hide LayoutItems, LayoutPairs, PrintItems, PrintMembers, Digits, EscapeAll, ItemsThen, PairsThen, Tabs;
    match v
    case Str(s) => QuotedText(s, rest);
    case Arr(items) => ArrayText(items, depth, fmt, rest);
    case Obj(members) => ObjectText(members, depth, fmt, rest);
    case _ =>
  }

  lemma {:induction false} QuotedText(s: string, rest: string)
    ensures PrintString(s) + rest == Quoted(EscapeAll(s), rest)
  {
    hide EscapeAll;
  }

  lemma {:induction false} ArrayText(items: seq<Json>, depth: nat, fmt: bool, rest: string)
    ensures Print(Arr(items), depth, fmt) + rest == TextThen(Layout(Arr(items), depth, fmt), rest)
    decreases items, 2
  {
    hide PrintItems, ItemsThen, LayoutItems;
    var body := PrintItems(items, depth + 1, fmt);
    assert (("[" + body) + "]") + rest == "[" + (body + ("]" + rest));
    if items == [] {
      NothingPrinted(depth + 1, fmt);
      assert LayoutItems(items, depth + 1, fmt, "") == [];
      assert [] + ("]" + rest) == "]" + rest;
    } else {
      ItemsText(items, depth + 1, fmt, "", rest);
      assert "" + (body + ("]" + rest)) == body + ("]" + rest);
    }
  }

  lemma {:induction false} NothingPrinted(depth: nat, fmt: bool)
    ensures PrintItems([], depth, fmt) == [] && PrintMembers([], depth, fmt) == []
  {
  }

  lemma {:induction false} Empty(s: string)
    ensures "" + s == s && s + [] == s
  {
  }

  /** Items up to the closing bracket, `before` standing in front of the first. */
  lemma {:induction false} ItemsText(items: seq<Json>, depth: nat, fmt: bool, before: string, rest: string)
    requires items != []
    ensures before + (PrintItems(items, depth, fmt) + ("]" + rest)) == ItemsThen(LayoutItems(items, depth, fmt, before), rest)
    decreases items, 1
  {
    var r, space := LayoutItems(items, depth, fmt, before), if fmt then " " else "";
    assert r[0] == Item(before, Layout(items[0], depth, fmt), "");
    assert r[1..] == LayoutItems(items[1..], depth, fmt, space);
    var tail := if |items| == 1 then "]" + rest else "," + ItemsThen(r[1..], rest);
    assert ItemsThen(r, rest) == before + TextThen(Layout(items[0], depth, fmt), "" + tail);
    hide Print, Layout, TextThen, LayoutItems, ItemsThen, PrintItems;
    Empty(tail);
    ItemsPrinted(items, depth, fmt, "]" + rest);
    if |items| > 1 {
      ItemsText(items[1..], depth, fmt, space, rest);
      Assoc(",", space, PrintItems(items[1..], depth, fmt) + ("]" + rest));
    }
    LayoutText(items[0], depth, fmt, tail);
  }

  lemma {:induction false} ItemsPrinted(items: seq<Json>, depth: nat, fmt: bool, t: string)
    requires items != []
    ensures PrintItems(items, depth, fmt) + t ==
            Print(items[0], depth, fmt) + if |items| == 1 then t else ("," + (if fmt then " " else "")) + (PrintItems(items[1..], depth, fmt) + t)
  {
    var first, sep, more := Print(items[0], depth, fmt), if |items| > 1 then (if fmt then ", " else ",") else [], PrintItems(items[1..], depth, fmt);
    assert PrintItems(items, depth, fmt) == first + sep + more;
    hide Print, PrintItems;
    Assoc(first + sep, more, t);
    Assoc(first, sep, more + t);
    if |items| == 1 {
      assert items[1..] == [];
      NothingPrinted(depth, fmt);
      Empty(t);
    } else {
      assert sep == "," + if fmt then " " else "";
    }
  }

  lemma {:induction false} ObjectLayout(ms: seq<Member>, depth: nat, fmt: bool, rest: string)
    ensures TextThen(Layout(Obj(ms), depth, fmt), rest) ==
            "{" + if ms == [] then (if fmt then "\n" + Tabs(depth) else "") + ("}" + rest) else PairsThen(LayoutPairs(ms, depth + 1, fmt), rest)
  {
    hide LayoutPairs, PairsThen, Tabs;
  }

  lemma {:induction false} ObjectText(ms: seq<Member>, depth: nat, fmt: bool, rest: string)
    ensures Print(Obj(ms), depth, fmt) + rest == TextThen(Layout(Obj(ms), depth, fmt), rest)
    decreases ms, 3
  {
    var body, newline, close := PrintMembers(ms, depth + 1, fmt), if fmt then "\n" else "", if fmt then Tabs(depth) else [];
    var open := "{" + newline;
    assert open == if fmt then "{\n" else "{";
    assert Print(Obj(ms), depth, fmt) == open + body + close + "}";
    ObjectLayout(ms, depth, fmt, rest);
    hide PrintMembers, PairsThen, LayoutPairs, Tabs, Print, TextThen, Layout;
    Assoc(open + body + close, "}", rest);
    Assoc(open + body, close, "}" + rest);
    Assoc(open, body, close + ("}" + rest));
    Assoc("{", newline, body + (close + ("}" + rest)));
    if ms == [] {
      NothingPrinted(depth + 1, fmt);
      Empty(close + ("}" + rest));
      Assoc(newline, close, "}" + rest);
      Empty("");
    } else {
      PairsText(ms, depth + 1, fmt, rest);
    }
  }

  /** The parts of a printed member, then `t`. */
  lemma {:induction false} MemberParts(a: string, b: string, c: string, d: string, e: string, f: string, g: string, t: string)
    ensures (a + b + c + d + e + f + g) + t == a + (b + (c + (d + (e + (f + (g + t))))))
  {
    Assoc(a + b + c + d + e + f, g, t);
    Assoc(a + b + c + d + e, f, g + t);
    Assoc(a + b + c + d, e, f + (g + t));
    Assoc(a + b + c, d, e + (f + (g + t)));
    Assoc(a + b, c, d + (e + (f + (g + t))));
    Assoc(a, b, c + (d + (e + (f + (g + t)))));
  }

  /** What follows the value of the first member, as printed and as laid out. */
  lemma {:induction false} PairsEnd(ms: seq<Member>, depth: nat, fmt: bool, rest: string)
    requires ms != [] && depth > 0
    ensures var newline, t := if fmt then "\n" else "", (if fmt then Tabs(depth - 1) else []) + ("}" + rest);
            var r := LayoutPairs(ms, depth, fmt);
            (if |ms| > 1 then "," else []) + (newline + (PrintMembers(ms[1..], depth, fmt) + t)) ==
            (if fmt && |ms| == 1 then "\n" + Tabs(depth - 1) else "") + if |ms| == 1 then "}" + rest else "," + PairsThen(r[1..], rest)
    decreases ms, 1
  {
    hide Print, Layout, TextThen, Tabs, PrintString, EscapeAll, Quoted, PairsThen, PrintMembers;
    var newline, close := if fmt then "\n" else "", if fmt then Tabs(depth - 1) else [];
    var r := LayoutPairs(ms, depth, fmt);
    assert r[1..] == LayoutPairs(ms[1..], depth, fmt);
    if |ms| == 1 {
      assert ms[1..] == [];
      NothingPrinted(depth, fmt);
      Empty(close + ("}" + rest));
      Empty(newline + (close + ("}" + rest)));
      Assoc(newline, close, "}" + rest);
      Empty("");
    } else {
      PairsText(ms[1..], depth, fmt, rest);
      Empty("," + PairsThen(r[1..], rest));
    }
  }

  /** Members up to the closing brace, with the line end in front of the first. */
  lemma {:induction false} PairsText(ms: seq<Member>, depth: nat, fmt: bool, rest: string)
    requires ms != [] && depth > 0
    ensures var newline, close := if fmt then "\n" else "", if fmt then Tabs(depth - 1) else [];
            newline + (PrintMembers(ms, depth, fmt) + (close + ("}" + rest))) == PairsThen(LayoutPairs(ms, depth, fmt), rest)
    decreases ms, 2
  {
    var newline, close := if fmt then "\n" else "", if fmt then Tabs(depth - 1) else [];
    var lead, key := if fmt then Tabs(depth) else [], PrintString(ms[0].key);
    var tab, value := if fmt then "\t" else "", Print(ms[0].value, depth, fmt);
    var sep, more := if |ms| > 1 then "," else [], PrintMembers(ms[1..], depth, fmt);
    var t, r := close + ("}" + rest), LayoutPairs(ms, depth, fmt);
    var colon, end := ":" + tab, sep + (newline + (more + t));
    assert colon == if fmt then ":\t" else ":";
    assert PrintMembers(ms, depth, fmt) == lead + key + colon + value + sep + newline + more;
    var after, tail := if fmt && |ms| == 1 then "\n" + Tabs(depth - 1) else "", if |ms| == 1 then "}" + rest else "," + PairsThen(r[1..], rest);
    var before := if fmt then "\n" + Tabs(depth) else "";
    assert r[0] == Pair(before, EscapeAll(ms[0].key), "", tab, Layout(ms[0].value, depth, fmt), after);
    assert PairsThen(r, rest) == before + Quoted(EscapeAll(ms[0].key), "" + (":" + (tab + TextThen(Layout(ms[0].value, depth, fmt), after + tail))));
    hide Print, Layout, TextThen, Tabs, PrintString, EscapeAll, Quoted, PairsThen, PrintMembers, LayoutPairs;
    MemberParts(lead, key, colon, value, sep, newline, more, t);
    PairsEnd(ms, depth, fmt, rest);
    LayoutText(ms[0].value, depth, fmt, end);
    QuotedText(ms[0].key, colon + (value + end));
    Assoc(":", tab, value + end);
    Empty(":" + (tab + (value + end)));
    Assoc(newline, lead, key + (colon + (value + end)));
    Empty("");
  }

  /** A tree that the C structure can hold is read back exactly if it nests at most 1000 deep. */
  lemma {:induction false} RoundTrip(v: Json, fmt: bool, strict: bool)
    requires Printable(v)
    ensures Parse(Print(v, 0, fmt) + [0 as char], strict) == if NestsWithin(v, 1000) then Some(v) else None
  {
    hide Print, Parse, Printable, NestsWithin, Layout, TextThen, WellFormed, Value;
    var c := Layout(v, 0, fmt);
    LayoutFormed(v, 0, fmt);
    LayoutText(v, 0, fmt, []);
    ParseComplete([], c, [], strict);
    Empty(Print(v, 0, fmt));
    Empty([0 as char]);
    Empty(Text(c) + [0 as char]);
  }
}
