/**
 The recursive-descent parser of lib/json/core.c as it runs: a buffer with an offset and a depth
 that the routines move, and loops that collect items and members.
 */
module JsonParser {
  import opened Wrappers
  import opened JsonString
  import opened JsonStringBuffers
  import opened JsonText

  /** The outcome of a list once the elements already collected are put in front. */
  ghost function Onto<T>(collected: seq<T>, r: Option<(seq<T>, string)>): Option<(seq<T>, string)> {
    if r.None? then None else Some((collected + r.value.0, r.value.1))
  }

  lemma {:induction false} OntoNothing<T>(r: Option<(seq<T>, string)>)
    ensures Onto([], r) == r
  {
    if r.Some? {
      assert [] + r.value.0 == r.value.0;
    }
  }

  lemma {:induction false} OntoOneMore<T>(collected: seq<T>, x: T, r: Option<(seq<T>, string)>)
    ensures Onto(collected, Onto([x], r)) == Onto(collected + [x], r)
  {
    if r.Some? {
      assert collected + ([x] + r.value.0) == collected + [x] + r.value.0;
    }
  }

  /** One more digit of a run. */
  lemma {:induction false} DigitStep(s: string, k: nat, limit: nat)
    requires k < |s| && limit > 0 && IsDigit(s[k]) && forall i :: 0 <= i < k ==> IsDigit(s[i])
    ensures DigitRun(s[k..], limit) == 1 + DigitRun(s[k + 1..], limit - 1)
    ensures DigitsValue(s[..k + 1]) == 10 * DigitsValue(s[..k]) + (s[k] as int - '0' as int)
  {
    assert s[k..][1..] == s[k + 1..];
    assert s[..k + 1][..k] == s[..k];
  }

  class ParseBuffer {
    const content: string
    var offset: nat
    var depth: nat

    ghost predicate Valid()
      reads this
    {
      offset <= |content| && depth <= NESTING_LIMIT
    }

    constructor (content: string)
      ensures Valid() && this.content == content && offset == 0 && depth == 0
    {
      this.content := content;
      offset, depth := 0, 0;
    }

    method SkipWhitespace()
      requires Valid()
      modifies this`offset
      ensures Valid() && old(offset) <= offset && content[offset..] == SkipBlanks(content[old(offset)..])
    {
      if offset >= |content| {
        return;
      }
      ghost var start := offset;
      while offset < |content| && content[offset] as int <= 32
        invariant start <= offset <= |content|
        invariant DropBlanks(content[start..]) == DropBlanks(content[offset..])
      {
        assert content[offset..][1..] == content[offset + 1..];
        offset := offset + 1;
      }
      if offset == |content| {
        offset := offset - 1;
        assert content[start..][|content| - start - 1..] == content[offset..];
      }
    }

    method SkipByteOrderMark()
      requires Valid() && offset == 0
      modifies this`offset
      ensures Valid() && content[offset..] == SkipBom(content)
    {
      assert content[0..] == content;
      if |content| > 4 && content[0] as int == 0xef && content[1] as int == 0xbb && content[2] as int == 0xbf {
        offset := 3;
      }
    }

    /** Does the literal stand at the offset? */
    predicate At(literal: string)
      reads this
      requires Valid()
      ensures At(literal) <==> literal <= content[offset..]
    {
      offset + |literal| <= |content| && content[offset..offset + |literal|] == literal
    }

    /** Reads the digits from `begin` on, at most `limit` of them, and their value. */
    method TakeDigits(begin: nat, limit: nat) returns (count: nat, n: nat)
      requires begin <= |content|
      ensures count == DigitRun(content[begin..], limit) && n == DigitsValue(content[begin..][..count])
    {
      hide IsDigit;
      ghost var s := content[begin..];
      count, n := 0, 0;
      while count < limit && begin + count < |content| && IsDigit(content[begin + count])
        invariant count <= limit && begin + count <= |content|
        invariant DigitRun(s, limit) == count + DigitRun(s[count..], limit - count)
        invariant n == DigitsValue(s[..count])
      {
        hide DigitsValue;
        DigitStep(s, count, limit - count);
        n := 10 * n + (content[begin + count] as int - '0' as int);
        count := count + 1;
      }
    }

    method ParseNumberHere() returns (item: Option<Json>)
      requires Valid() && offset < |content|
      modifies this`offset
      ensures Yields(item, ParseNumber(content[old(offset)..]))
    {
      hide DigitRun, DigitsValue;
      ghost var s := content[offset..];
      var sign: nat := if content[offset] == '-' then 1 else 0;
      assert s[sign..] == content[offset + sign..];
      var count, n := TakeDigits(offset + sign, NUMBER_BUFFER - sign);
      var end := sign + count;
      assert s[sign..end] == s[sign..][..count];
      assert s[end..] == content[offset + end..];
      if count == 0 || (end < NUMBER_BUFFER && GoesOn(content[offset + end..])) {
        return None;
      }
      var magnitude: int := n;
      var v := if sign == 1 then -magnitude else magnitude;
      offset := offset + end;
      item := Some(Number(if v >= INT_MAX then INT_MAX else if v <= INT_MIN then INT_MIN else v));
    }

    /** What a routine promises: the outcome of the grammar on the text from the old offset on. */
    twostate predicate Yields<T>(new item: Option<T>, want: Option<(T, string)>)
      reads this
    {
      && Valid()
      && (item.Some? <==> want.Some?)
      && (item.Some? ==> item.value == want.value.0 && content[offset..] == want.value.1 && depth == old(depth))
    }

    method ParseValueHere() returns (item: Option<Json>)
      requires Valid()
      modifies this
      ensures Yields(item, ParseValue(content[old(offset)..], old(depth)))
      decreases |content| - offset, 1
    {
      hide ParseNumber, ParseArray, ParseObject, ParseString;
      ghost var s := content[offset..];
      if At("null") {
        offset := offset + 4;
        assert s[4..] == content[offset..];
        return Some(Null);
      }
      if At("false") {
        offset := offset + 5;
        assert s[5..] == content[offset..];
        return Some(False);
      }
      if At("true") {
        offset := offset + 4;
        assert s[4..] == content[offset..];
        return Some(True);
      }
      if offset < |content| && content[offset] == QUOTE {
        var text, next := ParseStringAt(content, offset);
        if text.None? {
          return None;
        }
        offset := next;
        return Some(Str(text.value));
      }
      if offset < |content| && (content[offset] == '-' || IsDigit(content[offset])) {
        item := ParseNumberHere();
        return;
      }
      if offset < |content| && content[offset] == '[' {
        item := ParseArrayHere();
        return;
      }
      if offset < |content| && content[offset] == '{' {
        item := ParseObjectHere();
        return;
      }
      item := None;
    }

    method ParseArrayHere() returns (item: Option<Json>)
      requires Valid() && offset < |content| && content[offset] == '['
      modifies this
      ensures Yields(item, ParseArray(content[old(offset)..], old(depth)))
      decreases |content| - offset, 0
    {
      hide ParseItems, SkipBlanks;
      if depth >= NESTING_LIMIT {
        return None;
      }
      depth := depth + 1;
      assert content[offset..][1..] == content[offset + 1..];
      offset := offset + 1;
      SkipWhitespace();
      if offset < |content| && content[offset] == ']' {
        depth := depth - 1;
        assert content[offset..][1..] == content[offset + 1..];
        offset := offset + 1;
        return Some(Arr([]));
      }
      if offset >= |content| {
        return None;
      }
      var items := ParseItemsHere();
      if items.None? {
        return None;
      }
      depth := depth - 1;
      item := Some(Arr(items.value));
    }

    /** The loop over the items of an array. */
    method ParseItemsHere() returns (items: Option<seq<Json>>)
      requires Valid() && offset < |content|
      modifies this
      ensures Yields(items, ParseItems(content[old(offset)..], old(depth)))
      decreases |content| - offset, 2
    {
      hide ParseValue, SkipBlanks;
      ghost var whole := ParseItems(content[offset..], depth);
      OntoNothing(whole);
      var collected: seq<Json> := [];
      while true
        invariant Valid() && old(offset) <= offset && depth == old(depth)
        invariant whole == Onto(collected, ParseItems(content[offset..], depth))
        decreases |content| - offset
      {
        SkipWhitespace();
        var v := ParseValueHere();
        if v.None? {
          return None;
        }
        SkipWhitespace();
        if offset < |content| && content[offset] == ',' {
          assert content[offset..][1..] == content[offset + 1..];
          OntoOneMore(collected, v.value, ParseItems(content[offset + 1..], depth));
          collected := collected + [v.value];
          offset := offset + 1;
        } else if offset < |content| && content[offset] == ']' {
          assert content[offset..][1..] == content[offset + 1..];
          offset := offset + 1;
          return Some(collected + [v.value]);
        } else {
          return None;
        }
      }
    }

    method ParseObjectHere() returns (item: Option<Json>)
      requires Valid() && offset < |content| && content[offset] == '{'
      modifies this
      ensures Yields(item, ParseObject(content[old(offset)..], old(depth)))
      decreases |content| - offset, 0
    {
      hide ParseMembers, SkipBlanks;
      if depth >= NESTING_LIMIT {
        return None;
      }
      depth := depth + 1;
      assert content[offset..][1..] == content[offset + 1..];
      offset := offset + 1;
      SkipWhitespace();
      if offset < |content| && content[offset] == '}' {
        depth := depth - 1;
        assert content[offset..][1..] == content[offset + 1..];
        offset := offset + 1;
        return Some(Obj([]));
      }
      if offset >= |content| {
        return None;
      }
      var members := ParseMembersHere();
      if members.None? {
        return None;
      }
      depth := depth - 1;
      item := Some(Obj(members.value));
    }

    /** A key, a colon and a value. */
    method ParseMemberHere() returns (member: Option<Member>)
      requires Valid()
      modifies this
      ensures Yields(member, ParseMember(content[old(offset)..], old(depth)))
      decreases |content| - offset, 2
    {
      hide ParseValue, ParseString, SkipBlanks;
      SkipWhitespace();
      if offset >= |content| {
        NoStringInNothing();
        return None;
      }
      var key, next := ParseStringAt(content, offset);
      if key.None? {
        return None;
      }
      offset := next;
      SkipWhitespace();
      if offset >= |content| || content[offset] != ':' {
        return None;
      }
      assert content[offset..][1..] == content[offset + 1..];
      offset := offset + 1;
      SkipWhitespace();
      var v := ParseValueHere();
      if v.None? {
        return None;
      }
      member := Some(Member(key.value, v.value));
    }

    /** The loop over the members of an object. */
    method ParseMembersHere() returns (members: Option<seq<Member>>)
      requires Valid() && offset < |content|
      modifies this
      ensures Yields(members, ParseMembers(content[old(offset)..], old(depth)))
      decreases |content| - offset, 3
    {
      hide ParseMember, SkipBlanks;
      ghost var whole := ParseMembers(content[offset..], depth);
      OntoNothing(whole);
      var collected: seq<Member> := [];
      while true
        invariant Valid() && old(offset) <= offset && depth == old(depth)
        invariant whole == Onto(collected, ParseMembers(content[offset..], depth))
        decreases |content| - offset
      {
        var m := ParseMemberHere();
        if m.None? {
          return None;
        }
        SkipWhitespace();
        if offset < |content| && content[offset] == ',' {
          assert content[offset..][1..] == content[offset + 1..];
          OntoOneMore(collected, m.value, ParseMembers(content[offset + 1..], depth));
          collected := collected + [m.value];
          offset := offset + 1;
        } else if offset < |content| && content[offset] == '}' {
          assert content[offset..][1..] == content[offset + 1..];
          offset := offset + 1;
          return Some(collected + [m.value]);
        } else {
          return None;
        }
      }
    }
  }

  lemma {:induction false} NoStringInNothing()
    ensures ParseString([]).None?
  {
  }

  /** Parses a whole text, terminator included; `strict` asks for nothing behind the value. */
  method ParseText(text: string, strict: bool) returns (item: Option<Json>)
    ensures item == Parse(text, strict)
  {
    hide ParseValue, SkipBlanks;
    if text == [] {
      return None;
    }
    var buffer := new ParseBuffer(text);
    buffer.SkipByteOrderMark();
    buffer.SkipWhitespace();
    item := buffer.ParseValueHere();
    if item.Some? && strict {
      buffer.SkipWhitespace();
      if buffer.offset >= |text| || text[buffer.offset] != 0 as char {
        return None;
      }
    }
  }
}
