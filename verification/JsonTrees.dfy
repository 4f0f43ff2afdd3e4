/**
 Trees the printer and the parser of lib/json/core.c deal in: which can be printed, how deep they
 nest, and what skipping blanks does.
 */
module JsonTrees {
  import opened Wrappers
  import opened JsonString
  import opened JsonText

  /** Trees the C structure can hold: integers of type int and NUL-free strings. */
  ghost predicate Printable(v: Json)
    decreases v
  {
    match v
    case Null => true
    case False => true
    case True => true
    case Number(n) => INT_MIN <= n <= INT_MAX
    case Str(s) => CString(s)
    case Arr(items) => forall i :: 0 <= i < |items| ==> Printable(items[i])
    case Obj(members) => forall i :: 0 <= i < |members| ==> CString(members[i].key) && Printable(members[i].value)
  }

  /** Arrays and objects nest at most `d` deep. */
  ghost predicate NestsWithin(v: Json, d: nat)
    decreases v
  {
    match v
    case Arr(items) => d > 0 && forall i :: 0 <= i < |items| ==> NestsWithin(items[i], d - 1)
    case Obj(members) => d > 0 && forall i :: 0 <= i < |members| ==> NestsWithin(members[i].value, d - 1)
    case _ => true
  }

  ghost predicate AllPrintable(items: seq<Json>) {
    forall i :: 0 <= i < |items| ==> Printable(items[i])
  }

  ghost predicate AllNest(items: seq<Json>, d: nat) {
    forall i :: 0 <= i < |items| ==> NestsWithin(items[i], d)
  }

  ghost predicate AllMembersPrintable(ms: seq<Member>) {
    forall i :: 0 <= i < |ms| ==> CString(ms[i].key) && Printable(ms[i].value)
  }

  ghost predicate AllMembersNest(ms: seq<Member>, d: nat) {
    forall i :: 0 <= i < |ms| ==> NestsWithin(ms[i].value, d)
  }

  /** What parsing gives: the value and the rest of the text, or nothing if the nesting is too deep. */
  ghost function Outcome<T>(fits: bool, value: T, rest: string): Option<(T, string)> {
    if fits then Some((value, rest)) else None
  }

  // ----- blanks

  ghost predicate AllBlank(w: string) {
    forall i :: 0 <= i < |w| ==> IsBlank(w[i])
  }

  lemma {:induction false} DropLeading(w: string, s: string)
    requires AllBlank(w) && s != [] && !IsBlank(s[0])
    ensures DropBlanks(w + s) == s
  {
    if w == [] {
      assert w + s == s;
    } else {
      assert (w + s)[1..] == w[1..] + s;
      DropLeading(w[1..], s);
    }
  }

  lemma {:induction false} SkipLeading(w: string, s: string)
    requires AllBlank(w) && s != [] && !IsBlank(s[0])
    ensures SkipBlanks(w + s) == s
  {
    DropLeading(w, s);
  }

  lemma {:induction false} SkipNothing(s: string)
    requires s != [] && !IsBlank(s[0])
    ensures SkipBlanks(s) == s
  {
    SkipLeading([], s);
    assert [] + s == s;
  }

  // ----- nesting

  lemma {:induction false} NestSplit(items: seq<Json>, limit: nat)
    requires items != []
    ensures AllNest(items, limit) <==> NestsWithin(items[0], limit) && AllNest(items[1..], limit)
    ensures |items| == 1 ==> AllNest(items[1..], limit)
  {
    hide NestsWithin;
    assert items == [items[0]] + items[1..];
  }
}
