/**
 The printer of lib/json/core.c as it runs: a buffer that grows when a piece of text needs room, and
 loops over the items of an array and the members of an object. Together with the parser it gives a
 program that prints a tree and reads the same tree back.
 */
module JsonPrinter {
  import opened Wrappers
  import opened JsonString
  import opened JsonStringBuffers
  import opened JsonText
  import opened JsonTrees
  import JsonRoundTrip
  import JsonParser

  const DEFAULT_SIZE: nat := 256

  // ----- the text of lists, from some position on

  /** One item and its separator. */
  function ItemText(v: Json, last: bool, depth: nat, fmt: bool): string {
    Print(v, depth, fmt) + (if last then [] else if fmt then ", " else ",")
  }

  lemma {:induction false} ItemsFrom(items: seq<Json>, i: nat, depth: nat, fmt: bool)
    requires i < |items|
    ensures PrintItems(items[i..], depth, fmt) == ItemText(items[i], i + 1 == |items|, depth, fmt) + PrintItems(items[i + 1..], depth, fmt)
  {
    hide Print;
    assert items[i..][1..] == items[i + 1..];
  }

  /** Tabs, key and colon of a member. */
  function KeyText(key: string, depth: nat, fmt: bool): string {
    (if fmt then Tabs(depth) else []) + PrintString(key) + if fmt then ":\t" else ":"
  }

  /** One member, with its separator and line end. */
  function MemberText(m: Member, last: bool, depth: nat, fmt: bool): string {
    KeyText(m.key, depth, fmt) + Print(m.value, depth, fmt) + ((if last then [] else ",") + if fmt then "\n" else [])
  }

  lemma {:induction false} MembersPrintedFrom(ms: seq<Member>, i: nat, depth: nat, fmt: bool)
    requires i < |ms|
    ensures PrintMembers(ms[i..], depth, fmt) == MemberText(ms[i], i + 1 == |ms|, depth, fmt) + PrintMembers(ms[i + 1..], depth, fmt)
  {
    hide Print, PrintString, Tabs;
    assert ms[i..][1..] == ms[i + 1..];
  }

  function OpenedText(members: seq<Member>, depth: nat, fmt: bool): string {
    (if fmt then "{\n" else "{") + PrintMembers(members, depth + 1, fmt)
  }

  function CloseText(depth: nat, fmt: bool): string {
    (if fmt then Tabs(depth) else []) + "}"
  }

  function ObjectText(members: seq<Member>, depth: nat, fmt: bool): string {
    Print(Obj(members), depth, fmt)
  }

  lemma {:induction false} ObjectParts(members: seq<Member>, depth: nat, fmt: bool)
    ensures ObjectText(members, depth, fmt) == OpenedText(members, depth, fmt) + CloseText(depth, fmt)
  {
    hide PrintMembers, Tabs;
  }

  lemma {:induction false} NothingPrinted(depth: nat, fmt: bool)
    ensures PrintItems([], depth, fmt) == [] && PrintMembers([], depth, fmt) == []
  {
  }

  // ----- printed text holds no terminator

  ghost predicate Clean(s: string) {
    forall i :: 0 <= i < |s| ==> s[i] != NUL
  }

  lemma {:induction false} CleanString(s: string)
    requires CString(s)
    ensures Clean(PrintString(s))
  {
    CleanEscapes(s);
  }

  lemma {:induction false} CleanEscapes(s: string)
    requires CString(s)
    ensures Clean(EscapeAll(s))
  {
    if s != [] {
      CleanEscape(s[0]);
      CleanEscapes(s[1..]);
    }
  }

  lemma {:induction false} CleanEscape(c: char)
    requires c != NUL
    ensures Clean(Escape(c))
  {
    if c as int < 32 {
      CleanHex(c as int);
    }
  }

  lemma {:induction false} CleanHex(n: nat)
    requires n < 32
    ensures Clean(HexText(n))
  {
    HexValueOfDigit(n / 16);
    HexValueOfDigit(n % 16);
    HexValueOfDigit(0);
  }

  lemma {:induction false} CleanPrint(v: Json, depth: nat, fmt: bool)
    requires Printable(v)
    ensures Clean(Print(v, depth, fmt))
    decreases v, 0
  {
    hide PrintString, PrintItems, PrintMembers;
    match v
    case Str(s) => CleanString(s);
    case Arr(items) => CleanItems(items, depth + 1, fmt);
    case Obj(members) => CleanMembers(members, depth + 1, fmt);
    case Number(n) => CleanNumber(n);
    case _ =>
  }

  lemma {:induction false} CleanNumber(n: int)
    ensures Clean(IntText(n))
  {
    hide Digits;
  }

  lemma {:induction false} CleanItems(items: seq<Json>, depth: nat, fmt: bool)
    requires AllPrintable(items)
    ensures Clean(PrintItems(items, depth, fmt))
    decreases items, 1
  {
    hide Print, Printable;
    if items != [] {
      CleanPrint(items[0], depth, fmt);
      CleanItems(items[1..], depth, fmt);
    }
  }

  lemma {:induction false} CleanMembers(ms: seq<Member>, depth: nat, fmt: bool)
    requires AllMembersPrintable(ms)
    ensures Clean(PrintMembers(ms, depth, fmt))
    decreases ms, 1
  {
    hide Print, Printable, PrintString;
    if ms != [] {
      CleanString(ms[0].key);
      CleanPrint(ms[0].value, depth, fmt);
      CleanMembers(ms[1..], depth, fmt);
    }
  }

  // ----- the buffer

  /** `memory` says whether a buffer of some size is granted; `noalloc` buffers never grow. */
  class PrintBuffer {
    const format: bool
    const noalloc: bool
    const memory: nat -> bool
    var buffer: array?<char>
    var offset: nat
    var depth: nat

    ghost predicate Valid()
      reads this
    {
      && buffer != null && buffer.Length <= INT_MAX
      && (if buffer.Length > 0 then offset < buffer.Length else offset == 0)
    }

    /** What has been written and counted. */
    ghost function Text(): string
      reads this, buffer
      requires Valid()
    {
      buffer[..offset]
    }

    /** The largest the buffer can get. */
    ghost function Limit(): nat
      reads this
      requires Valid()
    {
      if noalloc then buffer.Length else INT_MAX
    }

    ghost predicate Generous() {
      forall n: nat :: memory(n)
    }

    /** The buffer is the one of before, or one taken since. */
    twostate predicate Kept()
      reads this
    {
      buffer != null && (buffer == old(buffer) || fresh(buffer)) && (noalloc ==> buffer == old(buffer))
    }

    /** `t` and a terminator stand behind the old text, with a byte to spare; the offset may still be anywhere in it. */
    twostate predicate Wrote(t: string)
      requires old(Valid())
      reads this, buffer
    {
      && Valid() && Kept() && depth == old(depth)
      && old(offset) <= offset <= old(offset) + |t| && old(offset) + |t| + 2 <= buffer.Length
      && buffer[..old(offset) + |t|] == old(Text()) + t && buffer[old(offset) + |t|] == NUL
    }

    constructor (format: bool, noalloc: bool, buffer: array<char>, memory: nat -> bool)
      requires buffer.Length <= INT_MAX
      ensures Valid() && this.format == format && this.noalloc == noalloc && this.memory == memory
      ensures this.buffer == buffer && offset == 0 && depth == 0
    {
      this.format, this.noalloc, this.memory, this.buffer := format, noalloc, memory, buffer;
      offset, depth := 0, 0;
    }

    /** Makes room for `needed` characters and one more, doubling the size or taking the largest. */
    method Ensure(needed: nat) returns (ok: bool)
      requires Valid()
      modifies this`buffer
      ensures ok ==> Valid() && Kept() && Text() == old(Text()) && offset + needed + 1 <= buffer.Length
      ensures Generous() ==> (ok <==> offset + needed + 1 <= old(Limit()))
    {
      if buffer.Length > 0 && offset >= buffer.Length {
        return false;
      }
      if needed > INT_MAX {
        return false;
      }
      var total := needed + offset + 1;
      if total <= buffer.Length {
        return true;
      }
      if noalloc {
        return false;
      }
      var newSize := total * 2;
      if total > INT_MAX / 2 {
        if total > INT_MAX {
          return false;
        }
        newSize := INT_MAX;
      }
      if !memory(newSize) {
        buffer := null;
        return false;
      }
      var newBuffer := new char[newSize](_ => NUL);
      forall i | 0 <= i < offset {
        newBuffer[i] := buffer[i];
      }
      buffer := newBuffer;
      ok := true;
    }

    /** Writes `p` at the offset, with a terminator if `end`, without moving the offset. */
    method Write(p: string, needed: nat, end: bool) returns (ok: bool)
      requires Valid() && |p| <= needed && (end ==> |p| < needed)
      modifies this`buffer, buffer
      ensures ok ==> Valid() && Kept() && offset + needed + 1 <= buffer.Length
      ensures ok ==> buffer[..offset + |p|] == old(Text()) + p && (end ==> buffer[offset + |p|] == NUL)
      ensures Generous() ==> (ok <==> offset + needed + 1 <= old(Limit()))
    {
      ok := Ensure(needed);
      if ok {
        forall i | 0 <= i < |p| {
          buffer[offset + i] := p[i];
        }
        if end {
          buffer[offset + |p|] := NUL;
        }
      }
    }

    /** The same, and moves the offset behind it. */
    method Append(p: string, needed: nat, end: bool) returns (ok: bool)
      requires Valid() && |p| <= needed && (end ==> |p| < needed)
      modifies this`buffer, this`offset, buffer
      ensures ok ==> Valid() && Kept() && Text() == old(Text()) + p && offset == old(offset) + |p|
      ensures ok ==> Limit() == old(Limit())
      ensures Generous() ==> (ok <==> old(offset) + needed + 1 <= old(Limit()))
    {
      ok := Write(p, needed, end);
      if ok {
        offset := offset + |p|;
      }
    }

    /** Counts what stands behind the offset, up to the terminator. */
    method UpdateOffset(ghost end: nat)
      requires Valid() && offset <= end < buffer.Length && buffer[end] == NUL
      requires forall i :: offset <= i < end ==> buffer[i] != NUL
      modifies this`offset
      ensures offset == end
    {
      while buffer[offset] != NUL
        invariant old(offset) <= offset <= end
        decreases end - offset
      {
        offset := offset + 1;
      }
    }

    /** Writes `n` tabs from `at` on. */
    method TabsAt(at: nat, n: nat)
      requires buffer != null && at + n <= buffer.Length
      modifies buffer
      ensures buffer[..at + n] == old(buffer[..at]) + Tabs(n)
    {
      for i := 0 to n
        invariant buffer[..at + i] == old(buffer[..at]) + Tabs(i)
      {
        buffer[at + i] := TAB;
        assert Tabs(i + 1) == Tabs(i) + [TAB];
        assert buffer[..at + (i + 1)] == buffer[..at + i] + [TAB];
      }
    }

    /** What every routine that prints a value promises, given that memory is granted. */
    twostate predicate Suffices(t: string)
      requires old(Valid())
      reads this
    {
      Generous() && old(offset) + |t| + 2 <= old(Limit())
    }

    method PrintStringHere(s: string) returns (ok: bool)
      requires Valid() && CString(s)
      modifies this`buffer, buffer
      ensures ok ==> Wrote(PrintString(s))
      ensures Suffices(PrintString(s)) ==> ok
    {
      hide PrintString, EscapeAll;
      var escapeCharacters := CountEscapes(s);
      var outputLength := |s| + escapeCharacters;
      StringLength(s);
      ok := Ensure(outputLength + 3);
      if ok {
        PrintStringAt(buffer, offset, s, escapeCharacters);
      }
    }

    method PrintLiteral(t: string) returns (ok: bool)
      requires Valid()
      modifies this`buffer, buffer
      ensures ok ==> Wrote(t)
      ensures Suffices(t) ==> ok
    {
      ok := Write(t, |t| + 1, true);
    }

    method PrintNumberHere(n: int) returns (ok: bool)
      requires Valid()
      modifies this`buffer, this`offset, buffer
      ensures ok ==> Wrote(IntText(n))
      ensures Suffices(IntText(n)) ==> ok
    {
      var number := IntText(n);
      ok := Write(number, |number| + 1, true);
      if ok {
        offset := offset + |number|;
      }
    }

    method PrintValueHere(v: Json) returns (ok: bool)
      requires Valid() && Printable(v)
      modifies this, buffer
      ensures ok ==> Wrote(Print(v, old(depth), format))
      ensures Suffices(Print(v, old(depth), format)) ==> ok
      decreases v, 0
    {
      hide PrintItems, PrintMembers, PrintString, IntText, Wrote, Suffices;
      match v
      case Null => ok := PrintLiteral("null");
      case False => ok := PrintLiteral("false");
      case True => ok := PrintLiteral("true");
      case Number(n) => ok := PrintNumberHere(n);
      case Str(s) => ok := PrintStringHere(s);
      case Arr(items) => ok := PrintArrayHere(items);
      case Obj(members) => ok := PrintObjectHere(members);
    }

    /** Prints a value and moves the offset behind it. */
    method AppendValue(v: Json) returns (ok: bool)
      requires Valid() && Printable(v)
      modifies this, buffer
      ensures ok ==> Appended(Print(v, old(depth), format))
      ensures Suffices(Print(v, old(depth), format)) ==> ok
      decreases v, 1
    {
      hide Print, Printable;
      ok := PrintValueHere(v);
      if ok {
        CleanPrint(v, depth, format);
        ghost var t, start := Print(v, depth, format), old(offset);
        BehindIsClean(buffer[..start + |t|], old(Text()), t);
        UpdateOffset(start + |t|);
      }
    }

    method AppendString(s: string) returns (ok: bool)
      requires Valid() && CString(s)
      modifies this`buffer, this`offset, buffer
      ensures ok ==> Appended(PrintString(s))
      ensures Suffices(PrintString(s)) ==> ok
    {
      hide PrintString;
      ok := PrintStringHere(s);
      if ok {
        CleanString(s);
        ghost var t, start := PrintString(s), old(offset);
        BehindIsClean(buffer[..start + |t|], old(Text()), t);
        UpdateOffset(start + |t|);
      }
    }

    /** `t` has been added to the text and counted. */
    twostate predicate Appended(t: string)
      requires old(Valid())
      reads this, buffer
    {
      Valid() && Kept() && depth == old(depth) && Text() == old(Text()) + t && Limit() == old(Limit())
    }

    method PrintArrayHere(items: seq<Json>) returns (ok: bool)
      requires Valid() && AllPrintable(items)
      modifies this, buffer
      ensures ok ==> Wrote("[" + PrintItems(items, old(depth) + 1, format) + "]")
      ensures Suffices("[" + PrintItems(items, old(depth) + 1, format) + "]") ==> ok
      decreases items, 4
    {
      hide PrintItems, AllPrintable;
      ghost var before := Text();
      ok := Append("[", 1, false);
      if !ok {
        return;
      }
      depth := depth + 1;
      ghost var list := PrintItems(items, depth, format);
      ok := AppendItems(items);
      if !ok {
        return;
      }
      assert before + "[" + list + "]" == before + ("[" + list + "]");
      ok := Write("]", 2, true);
      if ok {
        depth := depth - 1;
      }
    }

    /** The loop over the items. */
    method AppendItems(items: seq<Json>) returns (ok: bool)
      requires Valid() && AllPrintable(items)
      modifies this, buffer
      ensures ok ==> Appended(PrintItems(items, old(depth), format))
      ensures Suffices(PrintItems(items, old(depth), format)) ==> ok
      decreases items, 3
    {
      hide Print, PrintItems, Printable, ItemText;
      ok := true;
      ghost var start, all := Text(), PrintItems(items, depth, format);
      assert items[0..] == items;
      for i := 0 to |items|
        invariant Valid() && Kept() && Limit() == old(Limit()) && depth == old(depth) && ok
        invariant Text() + PrintItems(items[i..], depth, format) == start + all
      {
        ItemsFrom(items, i, depth, format);
        assert |Text()| + |PrintItems(items[i..], depth, format)| == |start| + |all|;
        ok := AppendItem(items[i], i + 1 == |items|);
        if !ok {
          return;
        }
      }
      NothingPrinted(depth, format);
      assert items[|items|..] == [];
      assert Text() + [] == start + all;
    }

    /** One item and its separator. */
    method AppendItem(v: Json, last: bool) returns (ok: bool)
      requires Valid() && Printable(v)
      modifies this, buffer
      ensures ok ==> Appended(ItemText(v, last, old(depth), format))
      ensures Suffices(ItemText(v, last, old(depth), format)) ==> ok
      decreases v, 2
    {
      hide Print, Printable;
      ok := AppendValue(v);
      if ok && !last {
        var separator := if format then ", " else ",";
        ok := Append(separator, |separator| + 1, true);
      }
    }

    method PrintObjectHere(members: seq<Member>) returns (ok: bool)
      requires Valid() && AllMembersPrintable(members)
      modifies this, buffer
      ensures ok ==> Wrote(ObjectText(members, old(depth), format))
      ensures Suffices(ObjectText(members, old(depth), format)) ==> ok
      decreases members, 7
    {
      hide ObjectText, OpenedText, CloseText;
      ghost var before := Text();
      ghost var front, close := OpenedText(members, depth, format), CloseText(depth, format);
      ObjectParts(members, depth, format);
      ok := AppendOpened(members);
      if !ok {
        return;
      }
      depth := depth + 1;
      ok := CloseObject();
      if ok {
        assert before + front + close == before + (front + close);
        depth := depth - 1;
      }
    }

    /** The opening brace and the members, which stand one level deeper. */
    method AppendOpened(members: seq<Member>) returns (ok: bool)
      requires Valid() && AllMembersPrintable(members)
      modifies this, buffer
      ensures ok ==> Appended(OpenedText(members, old(depth), format))
      ensures Suffices(OpenedText(members, old(depth), format)) ==> ok
      decreases members, 6
    {
      hide PrintMembers, AllMembersPrintable;
      var open := if format then "{\n" else "{";
      ok := Append(open, |open| + 1, false);
      if !ok {
        return;
      }
      depth := depth + 1;
      ok := AppendMembers(members);
      if ok {
        depth := depth - 1;
      }
    }

    /** The closing brace, behind one tab less than the members have. */
    method CloseObject() returns (ok: bool)
      requires Valid() && depth > 0
      modifies this`buffer, buffer
      ensures ok ==> Wrote(CloseText(depth - 1, format))
      ensures Suffices(CloseText(depth - 1, format)) ==> ok
    {
      hide Tabs;
      TabsLength(depth - 1);
      ok := Ensure(if format then depth + 1 else 2);
      if ok {
        ghost var before := Text();
        var tabs: nat := if format then depth - 1 else 0;
        if format {
          TabsAt(offset, tabs);
        }
        CloseBrace(offset + tabs);
        assert before + CloseText(depth - 1, format) == before + (if format then Tabs(depth - 1) else []) + "}";
      }
    }

    method CloseBrace(at: nat)
      requires buffer != null && at + 1 < buffer.Length
      modifies buffer
      ensures buffer[..at + 1] == old(buffer[..at]) + "}" && buffer[at + 1] == NUL
    {
      buffer[at] := '}';
      buffer[at + 1] := NUL;
    }

    /** The loop over the members. */
    method AppendMembers(members: seq<Member>) returns (ok: bool)
      requires Valid() && AllMembersPrintable(members)
      modifies this, buffer
      ensures ok ==> Appended(PrintMembers(members, old(depth), format))
      ensures Suffices(PrintMembers(members, old(depth), format)) ==> ok
      decreases members, 5
    {
      hide Print, PrintMembers, Printable, MemberText;
      ok := true;
      ghost var start, all := Text(), PrintMembers(members, depth, format);
      assert members[0..] == members;
      for i := 0 to |members|
        invariant Valid() && Kept() && Limit() == old(Limit()) && depth == old(depth) && ok
        invariant Text() + PrintMembers(members[i..], depth, format) == start + all
      {
        MembersPrintedFrom(members, i, depth, format);
        assert |Text()| + |PrintMembers(members[i..], depth, format)| == |start| + |all|;
        ok := AppendMember(members[i], i + 1 == |members|);
        if !ok {
          return;
        }
      }
      NothingPrinted(depth, format);
      assert members[|members|..] == [];
      assert Text() + [] == start + all;
    }

    /** The tabs in front of a member. */
    method AppendTabs() returns (ok: bool)
      requires Valid()
      modifies this`buffer, this`offset, buffer
      ensures ok ==> Appended(Tabs(depth))
      ensures Suffices(Tabs(depth)) ==> ok
    {
      hide Tabs;
      TabsLength(depth);
      ok := Ensure(depth);
      if ok {
        TabsAt(offset, depth);
        offset := offset + depth;
      }
    }

    /** Tabs, key and colon. */
    method AppendKey(key: string) returns (ok: bool)
      requires Valid() && CString(key)
      modifies this`buffer, this`offset, buffer
      ensures ok ==> Appended(KeyText(key, depth, format))
      ensures Suffices(KeyText(key, depth, format)) ==> ok
    {
      hide PrintString, Tabs;
      if format {
        ok := AppendTabs();
        if !ok {
          return;
        }
      }
      ok := AppendString(key);
      if !ok {
        return;
      }
      var colon := if format then ":\t" else ":";
      ok := Append(colon, |colon|, false);
    }

    /** One member, with its separator and line end. */
    method AppendMember(m: Member, last: bool) returns (ok: bool)
      requires Valid() && CString(m.key) && Printable(m.value)
      modifies this, buffer
      ensures ok ==> Appended(MemberText(m, last, old(depth), format))
      ensures Suffices(MemberText(m, last, old(depth), format)) ==> ok
      decreases m, 2
    {
      hide Print, KeyText, Printable;
      ok := AppendKey(m.key);
      if !ok {
        return;
      }
      ok := AppendValue(m.value);
      if !ok {
        return;
      }
      var end := (if last then [] else ",") + if format then "\n" else [];
      ok := Append(end, |end| + 1, true);
    }
  }

  lemma {:induction false} TabsLength(n: nat)
    ensures |Tabs(n)| == n
  {
  }

  lemma {:induction false} StringLength(s: string)
    ensures |PrintString(s)| == |EscapeAll(s)| + 2
  {
  }

  /** What stands behind the old text is the new piece, so no terminator is met before its end. */
  lemma {:induction false} BehindIsClean(all: string, text: string, t: string)
    requires all == text + t && Clean(t)
    ensures forall i :: |text| <= i < |all| ==> all[i] != NUL
  {
    forall i | |text| <= i < |all| ensures all[i] != NUL {
      assert all[i] == t[i - |text|];
    }
  }

  /** Prints a tree into memory of its own; the result ends with a terminator. */
  method PrintText(v: Json, format: bool, memory: nat -> bool) returns (printed: Option<string>)
    requires Printable(v)
    ensures printed.Some? ==> printed.value == Print(v, 0, format) + [NUL]
    ensures (forall n: nat :: memory(n)) ==> (printed.Some? <==> |Print(v, 0, format)| + 2 <= INT_MAX)
  {
    hide Print, Printable;
    if !memory(DEFAULT_SIZE) {
      return None;
    }
    var start := new char[DEFAULT_SIZE](_ => NUL);
    var buffer := new PrintBuffer(format, false, start, memory);
    var ok := buffer.PrintValueHere(v);
    if !ok {
      return None;
    }
    ghost var t := Print(v, 0, format);
    CleanPrint(v, 0, format);
    BehindIsClean(buffer.buffer[..|t|], [], t);
    buffer.UpdateOffset(|t|);
    if !memory(buffer.offset + 1) {
      return None;
    }
    assert buffer.buffer[..|t| + 1] == buffer.buffer[..|t|] + [NUL];
    printed := Some(buffer.buffer[..buffer.offset + 1]);
  }

  /** Printing into a buffer of the caller's takes the text, its terminator and one byte more. */
  method PrintPreallocated(v: Json, output: array<char>, format: bool) returns (ok: bool)
    requires Printable(v) && output.Length <= INT_MAX
    modifies output
    ensures ok <==> |Print(v, 0, format)| + 2 <= output.Length
    ensures ok ==> output[..|Print(v, 0, format)| + 1] == Print(v, 0, format) + [NUL]
  {
    hide Print, Printable;
    var buffer := new PrintBuffer(format, true, output, _ => true);
    ok := buffer.PrintValueHere(v);
    if ok {
      ghost var t := Print(v, 0, format);
      assert output[..|t| + 1] == output[..|t|] + [NUL];
    }
  }

  /** Printing a tree and parsing the text gives the tree back, or nothing if it nests too deep. */
  method PrintAndParse(v: Json, format: bool, strict: bool, memory: nat -> bool) returns (printed: bool, back: Option<Json>)
    requires Printable(v)
    ensures printed ==> back == if NestsWithin(v, 1000) then Some(v) else None
    ensures (forall n: nat :: memory(n)) ==> (printed <==> |Print(v, 0, format)| + 2 <= INT_MAX)
  {
    hide Print, Printable, NestsWithin, Parse;
    var text := PrintText(v, format, memory);
    if text.None? {
      return false, None;
    }
    JsonRoundTrip.RoundTrip(v, format, strict);
    back := JsonParser.ParseText(text.value, strict);
    printed := true;
  }
}
